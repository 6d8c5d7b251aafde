/** One particle record of the sphere engine and the per-tick computations on
    it: the settling-gated random walk, the attack/hold/decay alpha envelope,
    the frustum cull test and the depth-based opacity falloff. Floating-point
    values are modelled as `real`; random draws and the rotation/projection
    results are inputs. */
module Particle {

  // Fixed engine parameters.
  const FocalLength: real := 320.0
  const ZMax: real := FocalLength - 2.0            // near-plane cull threshold
  const ParticleAlpha: real := 1.0                 // hold level of every envelope
  const Gravity: real := 0.0
  const RandAccel: real := 0.1
  const SphereRad: real := 140.0
  const SphereCenterZ: real := -3.0 - SphereRad
  const ZeroAlphaDepth: real := -750.0
  const NumToAddEachFrame: nat := 8
  const Attack: nat := 50
  const Hold: nat := 50
  const Decay: nat := 100

  /** The fields of a particle record other than its list links. */
  datatype Particle = Particle(
    x: real, y: real, z: real,
    velX: real, velY: real, velZ: real,
    age: nat, dead: bool,
    attack: nat, hold: nat, decay: nat,
    initValue: real, holdValue: real, lastValue: real,
    stuckTime: real,
    alpha: real,
    projX: real, projY: real)

  /** A freshly allocated record. In the engine its fields start out unset;
      every one that the engine reads is written before it is read. */
  const Blank: Particle :=
    Particle(0.0, 0.0, 0.0, 0.0, 0.0, 0.0, 0, false, 0, 0, 0,
             0.0, 0.0, 0.0, 0.0, 0.0, 0.0, 0.0)

  /** Inputs for one visit of the per-tick walk, none of them constrained:
      the three random draws the code takes from Math.random for the
      acceleration, and the screen position and rotated depth that the
      rotation and perspective projection compute. */
  datatype Sample = Sample(ux: real, uy: real, uz: real,
                           projX: real, projY: real, rotZ: real)

  /** Inputs for one spawned particle, not constrained here: the point the
      code samples on the sphere of radius SphereRad around its own origin,
      and the random draw for the settling delay (BornFields requires it to lie
      in [0, 1), as Math.random guarantees). */
  datatype Spawn = Spawn(x: real, y: real, z: real, u: real)

  /** Total lifetime of a particle's envelope. */
  function Lifetime(p: Particle): nat
  {
    p.attack + p.hold + p.decay
  }

  // ---------------------------------------------------------------- spawning

  /** The fields that adding a particle to the live list resets. */
  function Reset(p: Particle, x: real, y: real, z: real, vx: real, vy: real, vz: real): (q: Particle)
    ensures q.age == 0 && !q.dead
    ensures q == p.(x := q.x, y := q.y, z := q.z, velX := q.velX, velY := q.velY,
                    velZ := q.velZ, age := 0, dead := false)
    ensures (q.x, q.y, q.z, q.velX, q.velY, q.velZ) == (x, y, z, vx, vy, vz)
  {
    p.(x := x, y := y, z := z, velX := vx, velY := vy, velZ := vz, age := 0, dead := false)
  }

  /** The envelope and settling fields that spawning assigns after adding. */
  function Shape(p: Particle, u: real): (q: Particle)
  {
    p.(attack := Attack, hold := Hold, decay := Decay, initValue := 0.0,
       holdValue := ParticleAlpha, lastValue := 0.0, stuckTime := 90.0 + u * 20.0)
  }

  /** The record a spawn turns `p` (a recycled record, or Blank) into. */
  function Born(p: Particle, s: Spawn): Particle
  {
    Shape(Reset(p, s.x, s.y, SphereCenterZ + s.z, 0.002 * s.x, 0.002 * s.y, 0.002 * s.z), s.u)
  }

  /** A spawned particle starts at its sphere point (shifted to the sphere
      centre's depth) with a velocity of 0.002 times the point, age 0, alive,
      with the 50/50/100 envelope at full opacity and a settling delay in
      [90, 110); only the alpha and projected position of a recycled record
      keep their old values. */
  lemma BornFields(p: Particle, s: Spawn)
    requires 0.0 <= s.u < 1.0
    ensures var q := Born(p, s);
      q.age == 0 && !q.dead &&
      q.x == s.x && q.y == s.y && q.z == s.z - 143.0 &&
      q.velX == s.x / 500.0 && q.velY == s.y / 500.0 && q.velZ == s.z / 500.0 &&
      q.attack == 50 && q.hold == 50 && q.decay == 100 && Lifetime(q) == 200 &&
      q.initValue == 0.0 && q.lastValue == 0.0 && q.holdValue == 1.0 &&
      90.0 <= q.stuckTime < 110.0 &&
      q.alpha == p.alpha && q.projX == p.projX && q.projY == p.projY
  {
  }

  // ---------------------------------------------------------------- physics

  /** One step of the random walk: once the settling delay has passed, the
      velocity receives a random acceleration in (-RandAccel, RandAccel) per
      axis (plus Gravity on y) and the position moves by the new velocity. */
  function Integrate(p: Particle, s: Sample): (q: Particle)
    ensures p.age as real <= p.stuckTime ==> q == p
    ensures q == p.(x := q.x, y := q.y, z := q.z, velX := q.velX, velY := q.velY, velZ := q.velZ)
  {
    if p.age as real > p.stuckTime then
      var vx := p.velX + RandAccel * (s.ux * 2.0 - 1.0);
      var vy := p.velY + Gravity + RandAccel * (s.uy * 2.0 - 1.0);
      var vz := p.velZ + RandAccel * (s.uz * 2.0 - 1.0);
      p.(velX := vx, velY := vy, velZ := vz, x := p.x + vx, y := p.y + vy, z := p.z + vz)
    else
      p
  }

  // ---------------------------------------------------------------- envelope

  /** The alpha envelope: a linear ramp from 0 to holdValue over `attack`
      ticks, `hold` ticks at holdValue, a linear ramp down to 0 over `decay`
      ticks, and after that the particle is marked dead and alpha is left as
      it was. The flag is never cleared. */
  function UpdateAlpha(p: Particle): (q: Particle)
    ensures q == p.(alpha := q.alpha, dead := q.dead)
    ensures q.dead <==> p.dead || p.age >= Lifetime(p)
    ensures p.age >= Lifetime(p) ==> q.alpha == p.alpha
  {
    if p.age < p.attack then
      p.(alpha := (p.holdValue / p.attack as real) * p.age as real)
    else if p.age < p.attack + p.hold then
      p.(alpha := p.holdValue)
    else if p.age < p.attack + p.hold + p.decay then
      p.(alpha := p.holdValue - (p.holdValue / p.decay as real) * (p.age - p.attack - p.hold) as real)
    else
      p.(dead := true)
  }

  /** Alpha at age `a` for the envelope parameters of `p`. */
  function AlphaAt(p: Particle, a: nat): real
  {
    UpdateAlpha(p.(age := a)).alpha
  }

  lemma MulMonotone(c: real, a: real, b: real)
    requires 0.0 <= c && a <= b
    ensures c * a <= c * b
  {
    assert c * b - c * a == c * (b - a);
  }

  /** The ramp (h / n) * t stays in [0, h] for t in [0, n] when h is
      non-negative. */
  lemma Ramp(h: real, n: real, t: real)
    requires 0.0 <= h && 0.0 < n && 0.0 <= t <= n
    ensures 0.0 <= h / n && 0.0 <= (h / n) * t <= h
  {
    var c := h / n;
    assert c * n == h;
    MulMonotone(c, 0.0, t);
    MulMonotone(c, t, n);
  }

  /** The falling ramp h - (h / n) * t stays in [0, h] for t in [0, n]. */
  lemma Fall(h: real, n: real, t: real)
    requires 0.0 <= h && 0.0 < n && 0.0 <= t <= n
    ensures 0.0 <= h - (h / n) * t <= h
  {
    Ramp(h, n, t);
  }

  lemma AttackValue(p: Particle)
    requires p.age < p.attack
    ensures UpdateAlpha(p).alpha == (p.holdValue / p.attack as real) * p.age as real
  {
  }

  lemma HoldValue(p: Particle)
    requires p.attack <= p.age < p.attack + p.hold
    ensures UpdateAlpha(p).alpha == p.holdValue
  {
  }

  lemma DecayValue(p: Particle)
    requires p.attack + p.hold <= p.age < Lifetime(p)
    ensures UpdateAlpha(p).alpha ==
      p.holdValue - (p.holdValue / p.decay as real) * (p.age - p.attack - p.hold) as real
  {
  }

  /** With a non-negative hold level, the alpha of a particle that the
      envelope leaves alive lies in [0, holdValue]. */
  lemma {:induction false} AlphaBounds(p: Particle)
    requires 0.0 <= p.holdValue
    requires p.age < Lifetime(p)
    ensures 0.0 <= UpdateAlpha(p).alpha <= p.holdValue
  {
    if p.age < p.attack {
      AttackBounds(p);
    } else if p.age < p.attack + p.hold {
      HoldValue(p);
    } else {
      DecayBounds(p);
    }
  }

  lemma AttackBounds(p: Particle)
    requires 0.0 <= p.holdValue && p.age < p.attack
    ensures 0.0 <= UpdateAlpha(p).alpha <= p.holdValue
  {
    AttackValue(p);
    Ramp(p.holdValue, p.attack as real, p.age as real);
  }

  lemma DecayBounds(p: Particle)
    requires 0.0 <= p.holdValue && p.attack + p.hold <= p.age < Lifetime(p)
    ensures 0.0 <= UpdateAlpha(p).alpha <= p.holdValue
  {
    DecayValue(p);
    Fall(p.holdValue, p.decay as real, (p.age - p.attack - p.hold) as real);
  }

  /** The ramp (h / n) * t does not decrease in t when h is non-negative. */
  lemma RampMonotone(h: real, n: real, t1: real, t2: real)
    requires 0.0 <= h && 0.0 < n && t1 <= t2
    ensures (h / n) * t1 <= (h / n) * t2
  {
    Ramp(h, n, 0.0);
    MulMonotone(h / n, t1, t2);
  }

  lemma AttackRises(p: Particle, a1: nat, a2: nat)
    requires 0.0 <= p.holdValue
    requires a1 <= a2 < p.attack
    ensures AlphaAt(p, a1) <= AlphaAt(p, a2)
  {
    AttackValue(p.(age := a1));
    AttackValue(p.(age := a2));
    RampMonotone(p.holdValue, p.attack as real, a1 as real, a2 as real);
  }

  lemma AttackBelowHold(p: Particle, a1: nat, a2: nat)
    requires 0.0 <= p.holdValue
    requires a1 < p.attack <= a2 < p.attack + p.hold
    ensures AlphaAt(p, a1) <= AlphaAt(p, a2)
  {
    AttackValue(p.(age := a1));
    HoldValue(p.(age := a2));
    Ramp(p.holdValue, p.attack as real, a1 as real);
  }

  /** The envelope rises (weakly) until the end of the hold phase: the attack
      ramp never overshoots the hold level. */
  lemma {:induction false} AlphaRises(p: Particle, a1: nat, a2: nat)
    requires 0.0 <= p.holdValue
    requires a1 <= a2 < p.attack + p.hold
    ensures AlphaAt(p, a1) <= AlphaAt(p, a2)
  {
    if a2 < p.attack {
      AttackRises(p, a1, a2);
    } else if a1 < p.attack {
      AttackBelowHold(p, a1, a2);
    } else {
      HoldValue(p.(age := a1));
      HoldValue(p.(age := a2));
    }
  }

  /** The falling ramp h - (h / n) * t does not increase in t. */
  lemma RampFalls(h: real, n: real, t1: real, t2: real)
    requires 0.0 <= h && 0.0 < n && t1 <= t2
    ensures h - (h / n) * t2 <= h - (h / n) * t1
  {
    RampMonotone(h, n, t1, t2);
  }

  lemma DecayFalls(p: Particle, a1: nat, a2: nat)
    requires 0.0 <= p.holdValue
    requires p.attack + p.hold <= a1 <= a2 < Lifetime(p)
    ensures AlphaAt(p, a2) <= AlphaAt(p, a1)
  {
    DecayValue(p.(age := a1));
    DecayValue(p.(age := a2));
    RampFalls(p.holdValue, p.decay as real,
              (a1 - p.attack - p.hold) as real, (a2 - p.attack - p.hold) as real);
  }

  lemma DecayBelowHold(p: Particle, a1: nat, a2: nat)
    requires 0.0 <= p.holdValue
    requires p.attack <= a1 < p.attack + p.hold <= a2 < Lifetime(p)
    ensures AlphaAt(p, a2) <= AlphaAt(p, a1)
  {
    HoldValue(p.(age := a1));
    DecayValue(p.(age := a2));
    Ramp(p.holdValue, p.decay as real, (a2 - p.attack - p.hold) as real);
  }

  /** The envelope falls (weakly) from the end of the attack phase until the
      particle dies: the decay ramp starts at the hold level and never turns
      back up. */
  lemma {:induction false} AlphaFalls(p: Particle, a1: nat, a2: nat)
    requires 0.0 <= p.holdValue
    requires p.attack <= a1 <= a2 < Lifetime(p)
    ensures AlphaAt(p, a2) <= AlphaAt(p, a1)
  {
    if p.attack + p.hold <= a1 {
      DecayFalls(p, a1, a2);
    } else if p.attack + p.hold <= a2 {
      DecayBelowHold(p, a1, a2);
    } else {
      HoldValue(p.(age := a1));
      HoldValue(p.(age := a2));
    }
  }

  /** The envelope of every spawned particle (50/50/100 at opacity 1): alpha
      0 at age 0, 1 at ages 50 and 100, 0.5 at age 150, and dead at age 200. */
  lemma SpawnedEnvelope(p: Particle)
    requires p.attack == Attack && p.hold == Hold && p.decay == Decay
    requires p.holdValue == ParticleAlpha && !p.dead
    ensures AlphaAt(p, 0) == 0.0 && AlphaAt(p, 50) == 1.0 && AlphaAt(p, 100) == 1.0
    ensures AlphaAt(p, 150) == 0.5 && !UpdateAlpha(p.(age := 199)).dead
    ensures UpdateAlpha(p.(age := 200)).dead
  {
  }

  // ---------------------------------------------------------------- culling and drawing

  /** A particle leaves the live list when its projected position is off the
      canvas, its rotated depth is past the near plane, or it is dead. */
  predicate Culled(projX: real, projY: real, rotZ: real, dead: bool, w: real, h: real)
  {
    projX < 0.0 || projX > w || projY < 0.0 || projY > h || rotZ > ZMax || dead
  }

  /** Depth falloff: opacity 1 at depth 0 and beyond, falling linearly to 0 at
      ZeroAlphaDepth, clamped to [0, 1]. */
  function DepthAlpha(rotZ: real): (r: real)
    ensures 0.0 <= r <= 1.0
    ensures rotZ <= ZeroAlphaDepth ==> r == 0.0
    ensures 0.0 <= rotZ ==> r == 1.0
    ensures ZeroAlphaDepth <= rotZ <= 0.0 ==> r * 750.0 == 750.0 + rotZ
  {
    Max(0.0, Min(1.0, 1.0 - rotZ / ZeroAlphaDepth))
  }

  function Max(a: real, b: real): real { if a >= b then a else b }
  function Min(a: real, b: real): real { if a <= b then a else b }

  /** The depth falloff never increases as a particle moves further away. */
  lemma DepthAlphaMonotone(z1: real, z2: real)
    requires z1 <= z2
    ensures DepthAlpha(z1) <= DepthAlpha(z2)
  {
  }

  // ---------------------------------------------------------------- one visit

  /** What one visit of the walk does to a record: age it by one tick, run the
      random walk, store the projected position and update the envelope. */
  function Visit(p: Particle, s: Sample): (q: Particle)
    ensures q.age == p.age + 1
    ensures q.attack == p.attack && q.hold == p.hold && q.decay == p.decay
    ensures q.holdValue == p.holdValue && q.stuckTime == p.stuckTime
    ensures q.projX == s.projX && q.projY == s.projY
  {
    UpdateAlpha(Integrate(p.(age := p.age + 1), s).(projX := s.projX, projY := s.projY))
  }

  /** Whether a record stays on the live list after its visit. */
  predicate Survives(p: Particle, s: Sample, w: real, h: real)
  {
    var q := Visit(p, s);
    !Culled(q.projX, q.projY, s.rotZ, q.dead, w, h)
  }

  /** A record the walk keeps is alive and younger than its envelope's
      lifetime. */
  lemma SurvivorAlive(p: Particle, s: Sample, w: real, h: real)
    requires Survives(p, s, w, h)
    ensures !Visit(p, s).dead && Visit(p, s).age < Lifetime(Visit(p, s))
  {
  }

  /** A record the walk keeps is alive, younger than its envelope's
      lifetime, on the canvas and in front of the near plane; and the opacity
      it is drawn with lies in [0, holdValue]. */
  lemma {:induction false} SurvivorFacts(p: Particle, s: Sample, w: real, h: real)
    requires Survives(p, s, w, h)
    requires 0.0 <= p.holdValue
    ensures var q := Visit(p, s);
      !q.dead && q.age < Lifetime(q) &&
      0.0 <= q.projX <= w && 0.0 <= q.projY <= h && s.rotZ <= ZMax &&
      0.0 <= DepthAlpha(s.rotZ) * q.alpha <= p.holdValue
  {
    var q0 := Integrate(p.(age := p.age + 1), s).(projX := s.projX, projY := s.projY);
    AlphaBounds(q0);
    Scaled(DepthAlpha(s.rotZ), UpdateAlpha(q0).alpha, p.holdValue);
  }

  lemma Scaled(d: real, a: real, h: real)
    requires 0.0 <= d <= 1.0 && 0.0 <= a <= h
    ensures 0.0 <= d * a <= h
  {
    MulMonotone(d, 0.0, a);
    MulMonotone(a, d, 1.0);
    assert d * a == a * d <= a;
  }

  /** A dead record is always culled: a particle that dies in a tick is
      recycled in that same tick. */
  lemma DeadIsCulled(p: Particle, s: Sample, w: real, h: real)
    requires p.age + 1 >= Lifetime(p)
    ensures !Survives(p, s, w, h)
  {
  }
}

# Particle sphere engine — a Dafny model

This project models the bookkeeping core of the TRAD particle sphere
(`www/script.js`). Every tick the frame driver does three things:

- it bumps an admission counter and, when the counter reaches `wait`,
  spawns a batch of 8 particles on a sphere;
- it walks the live list once, front to back;
- on each record it visits, it ages the record by one tick, moves it,
  projects it, and updates its attack/hold/decay opacity envelope.

A record is recycled when it lands off the canvas, passes the near plane
or dies; otherwise it is drawn, faded by depth. Records are pooled:

- the live list is doubly linked through `next`/`prev`;
- recycled records sit on a recycle bin, a free list linked through `next`
  only, which `addParticle` reuses before allocating.

How the model is laid out:

- `Particle` (particle.dfy) holds one record's fields as a datatype, plus
  the pure per-record computations:
  - the field resets of `addParticle` and `createParticles`;
  - the settling-gated random walk;
  - the envelope `updateAlpha`;
  - the cull test and the depth-alpha clamp.
- `Admission` (admission.dfy) is the `count`/`wait` counter.
- `Links` (links.dfy) is the pool's link structure as values:
  - records are arena indices 0..n-1;
  - `nxt`/`prv` are sequences of links, and NIL (-1) stands for `null`;
  - the ghost sequences `live` and `free` give the list orders;
  - `LinksOk` is the pool invariant: the lists are disjoint, cover every
    allocated record, and are chained consistently with the links and
    the two heads. Recycled records' `prv` links are left unconstrained.
- `Walking` (walk.dfy) holds the walk as values: which records survive,
  the order the culled ones reach the bin, and the loop invariant.
- `Batching` (batch.dfy) holds the same for one spawn batch.
- `Engine` (engine.dfy) holds the class `Engine`, whose fields are
  rewritten in place like the closure variables of `initCanvas`:
  - the records, the `next`/`prev` links, both heads and `count`;
  - `AddParticle`, `Recycle`, the `for` loop of `CreateParticles` and the
    `while` loop of the walk are methods proved against the functions and
    lemmas above.

A tick's random numbers are parameters, and so are the rotation and
projection results:

- a `Spawn` per created particle: its sphere point and the draw for its
  settling delay;
- a `Sample` per record visited: three acceleration draws, the projected
  screen position and the rotated depth.

For the 50/50/100 envelope, `updateAlpha` (www/script.js:150-153) gives 0.5
at age 150, halfway down the decay ramp; `SpawnedEnvelope` proves it.

## Model

| member | source | states |
|---|---|---|
| Particle.Reset | www/script.js:164-171 | position and velocity are set to the arguments, age becomes 0 and dead false; every other field is kept |
| Particle.BornFields | www/script.js:125-140 | a spawned particle has the following fields, and keeps the alpha and projected position of the record it reused: position at the sphere point shifted to z - 143; velocity 0.002 times the point; age 0, alive; attack 50, hold 50, decay 100 (lifetime 200); initValue and lastValue 0, holdValue 1; stuckTime in [90, 110) |
| Particle.Integrate | www/script.js:77-85 | nothing moves until age exceeds stuckTime; only position and velocity ever change |
| Particle.UpdateAlpha | www/script.js:145-157 | only alpha and dead change; dead is set exactly when age reaches attack + hold + decay and is never cleared; past that point alpha keeps its old value |
| Particle.AttackValue | www/script.js:146-147 | in the attack phase alpha is (holdValue / attack) * age |
| Particle.HoldValue | www/script.js:148-149 | in the hold phase alpha is holdValue |
| Particle.DecayValue | www/script.js:150-153 | in the decay phase alpha is holdValue - (holdValue / decay) * (age - attack - hold) |
| Particle.AlphaBounds | www/script.js:145-157 | with holdValue >= 0, a particle the envelope leaves alive has alpha in [0, holdValue] |
| Particle.AlphaRises | www/script.js:146-149 | alpha never decreases with age through the attack and hold phases |
| Particle.AlphaFalls | www/script.js:148-153 | alpha never increases with age from the hold phase to death |
| Particle.SpawnedEnvelope | www/script.js:134-138 | the 50/50/100 envelope at holdValue 1 gives alpha 0, 1, 1 and 0.5 at ages 0, 50, 100 and 150; it is alive at age 199 and dead at 200 |
| Particle.DepthAlpha | www/script.js:104 | the depth opacity lies in [0, 1]; it is 1 at depth >= 0 and 0 at depth <= -750, and linear in between |
| Particle.DepthAlphaMonotone | www/script.js:104 | the depth opacity never decreases as the rotated depth grows |
| Particle.Visit | www/script.js:75-94 | a visit ages the record by exactly one tick and stores the projected position; the envelope parameters and stuckTime are unchanged |
| Particle.SurvivorAlive | www/script.js:96-102 | a record the walk keeps is not dead and younger than its lifetime |
| Particle.SurvivorFacts | www/script.js:96-105 | a kept record is alive, on the canvas and in front of the near plane; it is drawn with opacity in [0, holdValue] |
| Particle.DeadIsCulled | www/script.js:96-102 | a record that reaches its lifetime in this visit is recycled in the same visit |
| Admission.AdmitStep | www/script.js:59-63 | a tick spawns exactly when count + 1 >= wait; a spawning tick resets the counter to 0, any other tick increments it; with wait >= 1 it always ends below wait |
| Admission.SpawnCount | www/script.js:59-63 | from a counter in [0, wait), n ticks spawn k batches with k * wait <= count + n < (k + 1) * wait |
| Admission.EveryTickSpawns | www/script.js:50-51 | with wait = 1 and count starting at 0, every tick spawns, so n ticks spawn n batches |
| Links.LinkFront | www/script.js:173-176 | pushing a detached record on the front of the live list re-links the old head back to it, clears its `prv` and keeps the pool valid |
| Links.AddLinks | www/script.js:160-176 | addParticle on the links takes the bin head when there is one, otherwise a fresh record; the bin then starts at that head's `next`; the pool stays valid with live list [p] + live; the record count grows exactly when the bin was empty |
| Links.Unlink | www/script.js:182-187 | recycling the record at position j cuts exactly that position from the live list: its neighbours are linked to each other; the live head moves on when it was the head; the record heads the bin, pointing at the old bin head, with its `prv` left stale |
| Links.RecycleLinks | www/script.js:181-188 | recycle on the links keeps the pool valid with live list Remove(live, p) and bin [p] + free, states the neighbour and stale-`prv` facts, and removes nothing else |
| Walking.WalkSplit | www/script.js:96-102 | the walk splits the live list into survivors and culled records: every record is in exactly one part |
| Walking.NextOfVisited | www/script.js:72-74 | the `next` saved at step k of the walk is the (k+1)-th record of the list the walk started from |
| Walking.VisitStep | www/script.js:73-111 | one visit extends the walk's invariant from k to k + 1 records: the survivors so far, then the unvisited rest, are live; the culled records are in front of the bin; exactly the visited records are updated |
| Walking.WalkDone | www/script.js:72-112 | at the end of the walk the live list holds the survivors in order; the culled ones head the bin; each record of the starting list was visited once; every live record is alive |
| Batching.Taken | www/script.js:160-162 | the j-th acquisition of a batch takes the j-th bin record while the bin lasts, then fresh records |
| Batching.TakenDistinct | www/script.js:161-162 | distinct acquisitions of one batch take distinct records |
| Batching.AcquireStep | www/script.js:117-141 | one iteration of createParticles extends the batch invariant from i to i + 1 acquisitions |
| Batching.BatchDone | www/script.js:116-142 | after a batch, the live list holds the 8 taken records, last taken first, in front of the old list; each holds its spawned particle; the bin lost its first min(8, size) records; fresh records were added for the rest |
| Engine.Engine.constructor | www/script.js:30-31 | the engine starts with an empty pool, empty lists and count 0 |
| Engine.Engine.AddParticle | www/script.js:160-179 | addParticle: a non-empty bin gives its head and advances to its `next`, otherwise a fresh record is allocated; the record is reset and pushed on the front of the live list with `prv` NIL and `next` the old head; the old head points back at it; no other record changes, and the pool stays valid |
| Engine.Engine.Recycle | www/script.js:181-188 | recycle: the live list loses p and nothing else; the neighbours are linked to each other; the head advances when p was the head; p heads the bin, pointing at the old bin head, with `prv` left stale; the records are unchanged |
| Engine.Engine.SpawnOne | www/script.js:118-140 | one iteration of createParticles: the record added holds the spawned particle and heads the live list |
| Engine.Engine.CreateParticles | www/script.js:116-142 | the `for` loop adds 8 records to the front of the live list, taken from the bin first; each holds its spawned particle, and every other record is unchanged |
| Engine.Engine.VisitRecord | www/script.js:74-109 | one record's visit stores Visit of the record, and recycles it exactly when it does not survive |
| Engine.Engine.Walk | www/script.js:72-112 | the `while` loop visits each record of the starting live list exactly once and establishes WalkDone's facts |
| Engine.Engine.Advance | www/script.js:73-111 | one iteration reads `next` before the visit, so it returns the walk's next record even when the current one is recycled |
| Engine.Engine.Tick | www/script.js:58-112 | a tick applies the admission step; with wait = 1 it always spawns, so the walk starts from the 8 records the batch took (bin records first, then fresh ones, last taken in front) ahead of the old live list; before the walk those records hold their spawned particles, the bin has lost the records taken from it and every other record is unchanged; the walk's outcome (WalkPost) then holds and every live record is alive |

## Left out

- Canvas and DOM setup, the drawing calls, the `setInterval` timer and the
  jQuery/textillate block (www/script.js:6, 13-22, 55, 69-70, 105-108,
  194-200) are host I/O and a foreign library, so they are not modelled.
- `Math.random` and the trigonometry are not modelled: the sphere-point
  sampling (118-123), the `turnAngle` update and its modulo (65-67), and
  the rotation and perspective projection (87-92). Their results enter as
  `Spawn` and `Sample` parameters:
  - a `Spawn`'s point is not constrained to lie on the sphere;
  - a `Sample`'s acceleration draws are not constrained to [0, 1).
- JavaScript numbers are modelled as `real`. Rounding, NaN and infinities
  are not represented. Ages are `nat`, as the code only ever sets them to 0
  and increments them.
- A fresh record `{}` has undefined fields in the code. The model gives it
  `Blank`, a record of zeros. Every field the engine reads is written first.
- Records are arena indices rather than objects, so JavaScript object
  identity and aliasing are represented by index equality.
- `Recycle` requires `p` to be live. The code calls `recycle` only from the
  walk, on the record being visited.
- `Walk` and `Tick` take one `Sample` per record index, indexed by record,
  so they require at least as many samples as records.
- `wait` is a constant 1, as in the code, where it is never reassigned.

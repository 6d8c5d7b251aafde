/** The spawn admission counter of the frame driver: every tick bumps a
    counter, and when it reaches `wait` the counter is reset and a batch of
    particles is created. */
module Admission {

  datatype Step = Step(count: int, spawn: bool)

  /** One tick of the counter. */
  function AdmitStep(count: int, wait: int): (r: Step)
    ensures r.spawn <==> count + 1 >= wait
    ensures 1 <= wait ==> r.count < wait
    ensures 0 <= count ==> 0 <= r.count
    ensures r.spawn ==> r.count == 0
    ensures !r.spawn ==> r.count == count + 1
  {
    var c := count + 1;
    if c >= wait then Step(0, true) else Step(c, false)
  }

  /** How many batches are created in `n` ticks starting from `count`. */
  function SpawnsOver(count: int, wait: int, n: nat): nat
    decreases n
  {
    if n == 0 then 0
    else
      var r := AdmitStep(count, wait);
      (if r.spawn then 1 else 0) + SpawnsOver(r.count, wait, n - 1)
  }

  /** Starting from a counter in [0, wait), `n` ticks create exactly
      floor((count + n) / wait) batches: one every `wait` ticks. */
  lemma {:induction false} SpawnCount(count: int, wait: int, n: nat)
    requires 0 <= count < wait
    ensures var k := SpawnsOver(count, wait, n);
      k * wait <= count + n < k * wait + wait
    decreases n
  {
    if n > 0 {
      var r := AdmitStep(count, wait);
      SpawnCount(r.count, wait, n - 1);
      var k' := SpawnsOver(r.count, wait, n - 1);
      if r.spawn {
        assert count + 1 == wait;
        assert SpawnsOver(count, wait, n) * wait == k' * wait + wait;
      } else {
        assert count + n == r.count + (n - 1);
      }
    }
  }

  /** With wait = 1, as the engine is configured, a batch is created on
      every tick. */
  lemma {:induction false} EveryTickSpawns(n: nat)
    ensures SpawnsOver(0, 1, n) == n
    ensures AdmitStep(0, 1) == Step(0, true)
  {
    SpawnCount(0, 1, n);
  }
}

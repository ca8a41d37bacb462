/** The coyote and mouse simulation: `randint`, the latest counts, and the
    generation step of `simulateGenerations`. `Math.random()` is an input:
    `random(k)` is the value of the `k`-th call. Counts and parameters are
    integers. */
module Sim {
  import opened Wrappers

  /** A row of `generation_array`: `[number, mice, coyotes]`. */
  datatype Generation = Generation(number: int, mice: int, coyotes: int)

  /** The four numeric inputs of the page, which reads them with `Number`
      and checks none of them. */
  datatype Params = Params(neededToLive: int, maxPups: int, miceToReproduce: int, miceMultiplier: int)
  {
    /** At least one surplus mouse per pup: the model divides by it, and
        Dafny's division agrees with `Math.floor` of the quotient only for
        a positive divisor. */
    predicate PositiveShare()
    {
      miceToReproduce >= 1
    }

    /** The inputs the model's hunt assumes: also a need that is not
        negative. With a negative need a coyote that catches nothing still
        breeds, and the inner loop can run for ever (`EndlessHunt`). */
    predicate Sane()
    {
      neededToLive >= 0 && PositiveShare()
    }
  }

  /** Every value `Math.random()` returns lies in [0, 1). */
  ghost predicate IsRandom(random: nat -> real)
  {
    forall k: nat :: 0.0 <= random(k) < 1.0
  }

  /** `randint(min, max)` on integer bounds (which `Math.ceil` and
      `Math.floor` leave alone), given the value `r` of `Math.random()`:
      both bounds are inclusive. */
  function Randint(lo: int, hi: int, r: real): (n: int)
    requires 0.0 <= r < 1.0
    ensures lo <= hi ==> lo <= n <= hi
  {
    (r * (hi - lo + 1) as real).Floor + lo
  }

  /** With the bounds the wrong way round the draw lies above `hi` and at
      most at `lo`. */
  lemma RandintReversed(lo: int, hi: int, r: real)
    requires 0.0 <= r < 1.0 && lo > hi
    ensures hi < Randint(lo, hi, r) <= lo
  {
    ScaleNonPositive(r, (hi - lo + 1) as real);
  }

  /** `Math.ceil(mice / 16)`: Dafny's division by a positive number rounds
      down, so adding 15 first rounds up. */
  function CeilSixteenth(mice: int): (q: int)
    ensures 16 * q >= mice && 16 * (q - 1) < mice
  {
    (mice + 15) / 16
  }

  /** A coyote's draw lies in [0, ceil(mice / 16)] when there are at least
      two mice; when there are fewer, the draw always leaves at most one. */
  lemma DrawRange(mice: int, r: real)
    requires 0.0 <= r < 1.0
    ensures mice > 1 ==> 0 <= Randint(0, CeilSixteenth(mice), r) <= CeilSixteenth(mice)
    ensures mice <= 1 ==> mice - Randint(0, CeilSixteenth(mice), r) <= 1
  {
    var hi := CeilSixteenth(mice);
    var n := Randint(0, hi, r);
    if hi < 0 {
      RandintReversed(0, hi, r);
      assert n > hi && mice <= 16 * hi;
    }
  }

  /** Scaling a non-positive number by a factor below one cannot lower it. */
  lemma ScaleNonPositive(r: real, x: real)
    requires 0.0 <= r < 1.0 && x <= 0.0
    ensures r * x >= x
  {
    assert r * x - x == (1.0 - r) * (0.0 - x);
  }

  /** One coyote's turn in the inner loop, given its draw `landed`: the
      new mouse and coyote counts. */
  function Turn(mice: int, coyotes: int, landed: int, p: Params): (r: (int, int))
    requires p.PositiveShare()
    ensures mice - landed <= 1 ==> r == (mice, coyotes)
    ensures mice - landed > 1 ==> r.0 == mice - landed
    ensures mice - landed > 1 && landed < p.neededToLive ==>
      r.1 == if coyotes > 1 then coyotes - 1 else coyotes
    ensures mice - landed > 1 && landed >= p.neededToLive ==>
      r.1 == coyotes + Pups(landed - p.neededToLive, p)
  {
    if mice - landed <= 1 then (mice, coyotes)
    else
      var m := mice - landed;
      var surplus := landed - p.neededToLive;
      if landed < p.neededToLive then
        (m, if coyotes > 1 then coyotes - 1 else coyotes)
      else if surplus >= p.miceToReproduce then
        (m, coyotes + Min(surplus / p.miceToReproduce, p.maxPups))
      else (m, coyotes)
  }

  function Min(a: int, b: int): int
  {
    if a <= b then a else b
  }

  /** The pups a coyote with `surplus` mice beyond its need adds: one per
      `miceToReproduce` of them, at most `maxPups`, and none below
      `miceToReproduce`. */
  function Pups(surplus: int, p: Params): (n: int)
    requires p.PositiveShare()
    ensures surplus < p.miceToReproduce ==> n == 0
    ensures surplus >= p.miceToReproduce ==> n <= p.maxPups
    ensures surplus >= p.miceToReproduce ==> n * p.miceToReproduce <= surplus
    ensures surplus >= p.miceToReproduce && p.maxPups >= 0 ==> n >= 0
    ensures surplus >= p.miceToReproduce && n < p.maxPups ==>
      n * p.miceToReproduce <= surplus < (n + 1) * p.miceToReproduce
  {
    if surplus >= p.miceToReproduce then Min(surplus / p.miceToReproduce, p.maxPups) else 0
  }

  /** With a non-negative pup limit a turn never starves the last coyote
      and removes at most one. */
  lemma TurnKeepsCoyotes(mice: int, coyotes: int, landed: int, p: Params)
    requires p.Sane() && p.maxPups >= 0 && coyotes >= 1
    ensures Turn(mice, coyotes, landed, p).1 >= 1
    ensures Turn(mice, coyotes, landed, p).1 >= coyotes - 1
  {
  }

  /** Under sane inputs a turn either eats a mouse or does not grow the
      pack: the reason the inner loop ends. */
  lemma TurnProgress(mice: int, coyotes: int, landed: int, p: Params)
    requires p.Sane() && 0 <= landed
    ensures Turn(mice, coyotes, landed, p).0 < mice || Turn(mice, coyotes, landed, p).1 <= coyotes
  {
    if mice - landed > 1 && landed == 0 {
      assert landed - p.neededToLive < p.miceToReproduce;
    }
  }

  /** The first `n` passes of the inner loop as the page writes it, for any
      need: the mice, the coyotes, the loop variable `j` and the next `k`. */
  function Passes(mice: int, coyotes: int, j: int, k: nat, n: nat, p: Params, random: nat -> real): (int, int, int, nat)
    requires p.PositiveShare() && IsRandom(random)
    decreases n
  {
    if n == 0 || j >= coyotes then (mice, coyotes, j, k)
    else
      var next := Turn(mice, coyotes, Randint(0, CeilSixteenth(mice), random(k)), p);
      Passes(next.0, next.1, j + 1, k + 1, n - 1, p, random)
  }

  /** A need of -10 mice, one surplus mouse per pup and at most ten pups. */
  const NegativeNeed := Params(-10, 10, 1, 1)

  /** `Math.random()` returning 0 every time. */
  function Zero(k: nat): real
  {
    0.0
  }

  /** With a negative need the inner loop need not end: on two mice every
      draw of 0 keeps the mice and adds ten coyotes, so after any number of
      passes the bound `coyote_count` is still ahead of `j`. */
  lemma {:induction false} EndlessHunt(coyotes: int, j: int, k: nat, n: nat)
    requires 0 <= j < coyotes
    ensures Passes(2, coyotes, j, k, n, NegativeNeed, Zero) == (2, coyotes + 10 * n, j + n, k + n)
    ensures j + n < coyotes + 10 * n
    decreases n
  {
    if n > 0 {
      assert Randint(0, CeilSixteenth(2), Zero(k)) == 0;
      assert Turn(2, coyotes, 0, NegativeNeed) == (2, coyotes + 10);
      EndlessHunt(coyotes + 10, j + 1, k + 1, n - 1);
    }
  }

  /** The inner loop `for (j = ...; j < coyote_count; j++)`, whose bound
      moves as coyotes starve or breed; `k` is the index of the next
      random value. It returns the mice, the coyotes and the next `k`. */
  function Hunt(mice: int, coyotes: int, j: int, k: nat, p: Params, random: nat -> real): (int, int, nat)
    requires p.Sane() && IsRandom(random)
    decreases if mice > 1 then mice else 0, coyotes - j
  {
    if j >= coyotes then (mice, coyotes, k)
    else
      var landed := Randint(0, CeilSixteenth(mice), random(k));
      DrawRange(mice, random(k));
      var next := Turn(mice, coyotes, landed, p);
      Hunt(next.0, next.1, j + 1, k + 1, p, random)
  }

  /** Starting from at least one coyote, the hunt ends with at least one. */
  lemma {:induction false} HuntKeepsCoyotes(mice: int, coyotes: int, j: int, k: nat, p: Params, random: nat -> real)
    requires p.Sane() && p.maxPups >= 0 && IsRandom(random) && coyotes >= 1
    ensures Hunt(mice, coyotes, j, k, p, random).1 >= 1
    decreases if mice > 1 then mice else 0, coyotes - j
  {
    if j < coyotes {
      var landed := Randint(0, CeilSixteenth(mice), random(k));
      DrawRange(mice, random(k));
      var next := Turn(mice, coyotes, landed, p);
      TurnKeepsCoyotes(mice, coyotes, landed, p);
      HuntKeepsCoyotes(next.0, next.1, j + 1, k + 1, p, random);
    }
  }

  /** A coyote never eats the mice down to fewer than two: with at least
      two mice the hunt ends with at least two and never more than it
      started with. */
  lemma {:induction false} HuntKeepsMice(mice: int, coyotes: int, j: int, k: nat, p: Params, random: nat -> real)
    requires p.Sane() && IsRandom(random) && mice > 1
    ensures 1 < Hunt(mice, coyotes, j, k, p, random).0 <= mice
    decreases mice, coyotes - j
  {
    if j < coyotes {
      var landed := Randint(0, CeilSixteenth(mice), random(k));
      DrawRange(mice, random(k));
      var next := Turn(mice, coyotes, landed, p);
      HuntKeepsMice(next.0, next.1, j + 1, k + 1, p, random);
    }
  }

  /** `amount` generations from the given counts: each runs the hunt,
      multiplies the mice once and appends one row numbered one past the
      previous row. */
  function Generations(mice: int, coyotes: int, amount: nat, last: int, k: nat, p: Params, random: nat -> real): seq<Generation>
    requires p.Sane() && IsRandom(random)
    decreases amount
  {
    if amount == 0 then []
    else
      var h := Hunt(mice, coyotes, 0, k, p, random);
      var m := h.0 * p.miceMultiplier;
      [Generation(last + 1, m, h.1)] + Generations(m, h.1, amount - 1, last + 1, h.2, p, random)
  }

  /** The rows are numbered consecutively after `last`, one per generation.
      The first row holds the survivors of a hunt from the given counts
      times the multiplier and the pack after it, and the remaining rows
      are the generations that start from that row. */
  lemma {:induction false} GenerationsNumbered(mice: int, coyotes: int, amount: nat, last: int, k: nat, p: Params, random: nat -> real)
    requires p.Sane() && IsRandom(random)
    ensures |Generations(mice, coyotes, amount, last, k, p, random)| == amount
    ensures forall i :: 0 <= i < amount ==> Generations(mice, coyotes, amount, last, k, p, random)[i].number == last + 1 + i
    ensures amount > 0 ==>
      var h := Hunt(mice, coyotes, 0, k, p, random);
      var g := Generations(mice, coyotes, amount, last, k, p, random);
      && g[0] == Generation(last + 1, h.0 * p.miceMultiplier, h.1)
      && g[1..] == Generations(g[0].mice, g[0].coyotes, amount - 1, last + 1, h.2, p, random)
    decreases amount
  {
    if amount > 0 {
      var h := Hunt(mice, coyotes, 0, k, p, random);
      var m := h.0 * p.miceMultiplier;
      GenerationsNumbered(m, h.1, amount - 1, last + 1, h.2, p, random);
    }
  }

  /** Starting from at least one coyote, no row ever has fewer than one. */
  lemma {:induction false} GenerationsKeepCoyotes(mice: int, coyotes: int, amount: nat, last: int, k: nat, p: Params, random: nat -> real)
    requires p.Sane() && p.maxPups >= 0 && IsRandom(random) && coyotes >= 1
    ensures forall i :: 0 <= i < |Generations(mice, coyotes, amount, last, k, p, random)| ==>
      Generations(mice, coyotes, amount, last, k, p, random)[i].coyotes >= 1
    decreases amount
  {
    if amount > 0 {
      var h := Hunt(mice, coyotes, 0, k, p, random);
      HuntKeepsCoyotes(mice, coyotes, 0, k, p, random);
      var m := h.0 * p.miceMultiplier;
      GenerationsKeepCoyotes(m, h.1, amount - 1, last + 1, h.2, p, random);
    }
  }

  /** `getLatestMouseCount`: the starting value with no rows, the last row's
      mice when positive, otherwise `null`. */
  function LatestMice(rows: seq<Generation>, startingMice: int): (r: Option<int>)
    ensures rows == [] ==> r == Some(startingMice)
    ensures rows != [] ==> (r.Some? <==> rows[|rows| - 1].mice > 0)
    ensures r.Some? && rows != [] ==> r.value == rows[|rows| - 1].mice
  {
    if rows == [] then Some(startingMice)
    else if rows[|rows| - 1].mice > 0 then Some(rows[|rows| - 1].mice)
    else None
  }

  /** `getLatestCoyoteCount`, the same rule on the coyotes. */
  function LatestCoyotes(rows: seq<Generation>, startingCoyotes: int): (r: Option<int>)
    ensures rows == [] ==> r == Some(startingCoyotes)
    ensures rows != [] ==> (r.Some? <==> rows[|rows| - 1].coyotes > 0)
    ensures r.Some? && rows != [] ==> r.value == rows[|rows| - 1].coyotes
  {
    if rows == [] then Some(startingCoyotes)
    else if rows[|rows| - 1].coyotes > 0 then Some(rows[|rows| - 1].coyotes)
    else None
  }

  /** `latest() || Number(starting)`: a missing or zero count falls back to
      the starting value. */
  function OrStarting(latest: Option<int>, starting: int): (n: int)
    ensures latest.Some? && latest.value != 0 ==> n == latest.value
    ensures latest.None? || latest.value == 0 ==> n == starting
  {
    if latest.Some? && latest.value != 0 then latest.value else starting
  }

  /** `generation_array` and `simulated_generations`. */
  class Simulation {
    var rows: seq<Generation>
    var simulated: seq<int>

    constructor ()
      ensures rows == [] && simulated == []
    {
      rows := [];
      simulated := [];
    }

    /** `simulateGenerations(amount)`. The page pushes a generation-0 row
        before the first call, so `rows` is never empty here. The counts
        start from the last row (or the starting values when it has died
        out); every generation appends one row and its number. */
    method SimulateGenerations(amount: int, startingMice: int, startingCoyotes: int, p: Params, random: nat -> real)
      requires rows != [] && p.Sane() && IsRandom(random)
      modifies this
      ensures rows == old(rows) + Generations(
        OrStarting(LatestMice(old(rows), startingMice), startingMice),
        OrStarting(LatestCoyotes(old(rows), startingCoyotes), startingCoyotes),
        if amount > 0 then amount else 0, old(rows)[|old(rows)| - 1].number, 0, p, random)
      ensures |simulated| == |old(simulated)| + |rows| - |old(rows)|
      ensures simulated[..|old(simulated)|] == old(simulated)
      ensures forall i :: |old(rows)| <= i < |rows| ==> simulated[|old(simulated)| + i - |old(rows)|] == rows[i].number
    {
      var mice := OrStarting(LatestMice(rows, startingMice), startingMice);
      var coyotes := OrStarting(LatestCoyotes(rows, startingCoyotes), startingCoyotes);
      var k: nat := 0;
      ghost var n := if amount > 0 then amount else 0;
      ghost var r0 := rows;
      ghost var s0 := simulated;
      var i := 0;
      while i < amount
        invariant 0 <= i <= n && rows != []
        invariant rows + Generations(mice, coyotes, n - i, rows[|rows| - 1].number, k, p, random)
          == old(rows) + Generations(
            OrStarting(LatestMice(old(rows), startingMice), startingMice),
            OrStarting(LatestCoyotes(old(rows), startingCoyotes), startingCoyotes),
            n, old(rows)[|old(rows)| - 1].number, 0, p, random)
        invariant r0 <= rows && r0 == old(rows)
        invariant |simulated| == |s0| + |rows| - |r0| && simulated[..|s0|] == s0 && s0 == old(simulated)
        invariant forall t :: |r0| <= t < |rows| ==> simulated[|s0| + t - |r0|] == rows[t].number
      {
        mice, coyotes, k := HuntLoop(mice, coyotes, k, p, random);
        mice := mice * p.miceMultiplier;
        var last := rows[|rows| - 1].number;
        rows := rows + [Generation(last + 1, mice, coyotes)];
        simulated := simulated + [last + 1];
        i := i + 1;
      }
      assert n - i == 0;
    }
  }

  /** The inner loop of `simulateGenerations` over the coyotes. */
  method HuntLoop(mice0: int, coyotes0: int, k0: nat, p: Params, random: nat -> real) returns (mice: int, coyotes: int, k: nat)
    requires p.Sane() && IsRandom(random)
    ensures (mice, coyotes, k) == Hunt(mice0, coyotes0, 0, k0, p, random)
  {
    mice, coyotes, k := mice0, coyotes0, k0;
    var j := 0;
    while j < coyotes
      invariant Hunt(mice, coyotes, j, k, p, random) == Hunt(mice0, coyotes0, 0, k0, p, random)
      decreases if mice > 1 then mice else 0, coyotes - j
    {
      var landed := Randint(0, CeilSixteenth(mice), random(k));
      DrawRange(mice, random(k));
      ghost var next := Turn(mice, coyotes, landed, p);
      k := k + 1;
      if mice - landed <= 1 {
        j := j + 1;
        continue;
      }
      mice := mice - landed;
      var surplus := landed - p.neededToLive;
      if landed < p.neededToLive {
        if coyotes > 1 {
          coyotes := coyotes - 1;
          j := j + 1;
          continue;
        }
      } else if surplus >= p.miceToReproduce {
        var pups := surplus / p.miceToReproduce;
        if pups > p.maxPups {
          pups := p.maxPups;
        }
        coyotes := coyotes + pups;
      }
      assert (mice, coyotes) == next;
      j := j + 1;
    }
  }
}

/**
  Sampling without replacement: three algorithms that write k distinct values
  of an integer range into a window of a caller-supplied array, and the
  dispatcher that chooses between two of them by selectivity.

  Every random draw of ycsbr's samplers is a parameter here (an oracle value
  supplied by the caller), constrained by a precondition to the bounds of the
  distribution it comes from. Each sampler is proved against a pure function
  that computes what it writes; the lemmas about those functions carry the
  combinatorial properties (how many values, distinct, in range, ascending).
 */
module Sampling {

  /** The closed interval [min, max] of a range of keys. */
  datatype Range = Range(min: int, max: int) {
    /** Number of values in the range. */
    function Size(): int { max - min + 1 }

    predicate Contains(x: int) { min <= x <= max }
  }

  /** The three conditions every sampler asserts on entry. */
  predicate Fits(k: nat, r: Range, destLength: nat, start: nat) {
    r.Size() >= k && start < destLength && start + k <= destLength
  }

  predicate Distinct(s: seq<int>) {
    forall a, b :: 0 <= a < b < |s| ==> s[a] != s[b]
  }

  predicate StrictlyAscending(s: seq<int>) {
    forall a, b :: 0 <= a < b < |s| ==> s[a] < s[b]
  }

  predicate InRange(s: seq<int>, r: Range) {
    forall j :: 0 <= j < |s| ==> r.Contains(s[j])
  }

  function Elements(s: seq<int>): set<int> {
    set x | x in s
  }

  /** No entry of `a` outside [lo, hi) has changed since the method began. */
  twostate predicate SameOutside(a: array<int>, lo: int, hi: int)
    reads a
  {
    forall j :: 0 <= j < a.Length && !(lo <= j < hi) ==> a[j] == old(a[j])
  }

  // ---------------------------------------------------------------------------
  // Floyd's algorithm
  // ---------------------------------------------------------------------------

  /** The j-th draw is taken uniformly from [min, curr] where curr = max - k + 1 + j. */
  predicate FloydDraws(r: Range, k: nat, draws: seq<int>) {
    |draws| == k && forall j :: 0 <= j < k ==> r.min <= draws[j] <= r.max - k + 1 + j
  }

  /**
    The working set once the loop has used `draws`, the j-th draw being made
    with curr = first + j: the draw is inserted, or curr when the draw is
    already present.
   */
  function FloydSet(first: int, draws: seq<int>): set<int>
    decreases |draws|
  {
    if draws == [] then {}
    else
      var prev := FloydSet(first, draws[..|draws| - 1]);
      var next := draws[|draws| - 1];
      if next in prev then prev + {first + |draws| - 1} else prev + {next}
  }

  /**
    Floyd's loop invariant: after the iterations for curr = first .. first+n-1
    the set holds exactly n values, all in [lo, first + n). So curr itself is
    never in the set yet, and inserting it on a collision always adds a value.
   */
  lemma {:induction false} FloydInvariant(lo: int, first: int, draws: seq<int>)
    requires forall j :: 0 <= j < |draws| ==> lo <= draws[j] <= first + j
    ensures |FloydSet(first, draws)| == |draws|
    ensures forall x :: x in FloydSet(first, draws) ==> lo <= x < first + |draws|
  {
    if draws != [] {
      var n := |draws| - 1;
      FloydInvariant(lo, first, draws[..n]);
      assert first + n !in FloydSet(first, draws[..n]);
    }
  }

  lemma ElementsAppend(s: seq<int>, v: int)
    ensures Elements(s + [v]) == Elements(s) + {v}
  {
    assert forall x :: x in s + [v] <==> x in s || x == v;
  }

  lemma HasElement(s: set<int>)
    requires s != {}
    ensures exists x :: x in s
  {
    if forall x :: x !in s {
      assert false;
    }
  }

  /** One iteration of Floyd's loop, as FloydSet unfolds on a prefix of the draws. */
  lemma FloydStep(first: int, draws: seq<int>, n: nat)
    requires n < |draws|
    ensures FloydSet(first, draws[..n + 1]) ==
              if draws[n] in FloydSet(first, draws[..n]) then FloydSet(first, draws[..n]) + {first + n}
              else FloydSet(first, draws[..n]) + {draws[n]}
  {
    assert draws[..n + 1][..n] == draws[..n];
  }

  /** `done` holds distinct values, and together with the disjoint `rest` makes up `samples`. */
  ghost predicate CopyProgress(done: seq<int>, rest: set<int>, samples: set<int>) {
    Elements(done) + rest == samples && Elements(done) !! rest && Distinct(done)
  }

  /** Moving one value v of `rest` to the end of `done` keeps CopyProgress. */
  lemma CopyStep(done: seq<int>, rest: set<int>, samples: set<int>, v: int)
    requires CopyProgress(done, rest, samples) && v in rest
    ensures CopyProgress(done + [v], rest - {v}, samples)
  {
    ElementsAppend(done, v);
    assert v !in Elements(done);
    forall a, b | 0 <= a < b < |done| + 1 ensures (done + [v])[a] != (done + [v])[b] {
      if b == |done| {
        assert done[a] in Elements(done);
      }
    }
  }

  /**
    Writes the k values of `samples` into dest[start .. start+k), in an
    unspecified order (the iteration order of ycsbr's std::unordered_set).
   */
  method CopyInto(samples: set<int>, k: nat, dest: array<int>, start: nat)
    requires |samples| == k && start + k <= dest.Length
    modifies dest
    ensures Elements(dest[start..start + k]) == samples
    ensures forall j :: start <= j < start + k ==> dest[j] in samples
    ensures Distinct(dest[start..start + k])
    ensures SameOutside(dest, start, start + k)
  {
    var i := start;
    var rest := samples;
    ghost var written: seq<int> := [];
    while i < start + k
      invariant start <= i <= start + k
      invariant |written| == i - start && |rest| == start + k - i
      invariant CopyProgress(written, rest, samples)
      invariant forall j :: start <= j < i ==> dest[j] == written[j - start]
      invariant SameOutside(dest, start, i)
    {
      HasElement(rest);
      var v :| v in rest;
      CopyStep(written, rest, samples, v);
      dest[i] := v;
      written := written + [v];
      i := i + 1;
      rest := rest - {v};
    }
    assert dest[start..start + k] == written;
    forall j | start <= j < start + k ensures dest[j] in samples {
      assert written[j - start] in Elements(written);
    }
  }

  /** Floyd's loop: curr runs from max - k + 1 to max, one draw per step. */
  method FloydLoop(k: nat, r: Range, draws: seq<int>) returns (samples: set<int>)
    requires r.Size() >= k
    requires FloydDraws(r, k, draws)
    ensures samples == FloydSet(r.max - k + 1, draws)
    ensures |samples| == k && forall x :: x in samples ==> r.Contains(x)
  {
    var first := r.max - k + 1;
    samples := {};
    var curr := first;
    assert draws[..0] == [];
    while curr <= r.max
      invariant first <= curr <= r.max + 1
      invariant samples == FloydSet(first, draws[..curr - first])
    {
      var next := draws[curr - first];
      FloydStep(first, draws, curr - first);
      if next in samples {
        samples := samples + {curr};
      } else {
        samples := samples + {next};
      }
      curr := curr + 1;
    }
    assert draws[..k] == draws;
    FloydInvariant(r.min, first, draws);
  }

  method FloydSample(k: nat, r: Range, dest: array<int>, start: nat, draws: seq<int>)
    requires Fits(k, r, dest.Length, start)
    requires FloydDraws(r, k, draws)
    modifies dest
    ensures Elements(dest[start..start + k]) == FloydSet(r.max - k + 1, draws)
    ensures Distinct(dest[start..start + k]) && InRange(dest[start..start + k], r)
    ensures SameOutside(dest, start, start + k)
  {
    var samples := FloydLoop(k, r, draws);
    CopyInto(samples, k, dest, start);
  }

  // ---------------------------------------------------------------------------
  // Selection sampling
  // ---------------------------------------------------------------------------

  /**
    Scaled draws: the draw for candidate offset j is a whole number in
    [0, interval - j). Scale shows where they come from.
   */
  predicate ScaledDraws(ws: seq<int>) {
    forall j :: 0 <= j < |ws| ==> 0 <= ws[j] < |ws| - j
  }

  /** The acceptance test, on the scaled draw w: accept while w < (number still needed). */
  predicate Accepts(needed: nat, w: int) {
    w < needed
  }

  /**
    For u in [0, 1), the whole part w of (remaining * u) lies in [0, remaining),
    and ycsbr's test (remaining * u < needed) holds exactly when w < needed.
   */
  lemma DrawTestAgrees(remaining: nat, needed: nat, u: real)
    requires 0.0 <= u < 1.0
    ensures var w := ((remaining as real) * u).Floor;
              && (remaining > 0 ==> 0 <= w < remaining)
              && ((remaining as real) * u < needed as real <==> Accepts(needed, w))
  {
    var x := (remaining as real) * u;
    assert 0.0 <= x by {
      assert 0.0 <= remaining as real;
    }
    if remaining > 0 {
      assert x < remaining as real by {
        assert (remaining as real) * (1.0 - u) > 0.0;
      }
    }
  }

  /** One uniform draw per candidate offset, each in [0, 1). */
  predicate UnitDraws(us: seq<real>) {
    forall j :: 0 <= j < |us| ==> 0.0 <= us[j] < 1.0
  }

  /** The whole part of (remaining range) * u for each candidate offset j, the remaining range being |us| - j. */
  function Scale(us: seq<real>): (ws: seq<int>)
    requires UnitDraws(us)
    ensures |ws| == |us| && ScaledDraws(ws)
  {
    var ws := seq(|us|, j requires 0 <= j < |us| => (((|us| - j) as real) * us[j]).Floor);
    forall j | 0 <= j < |us| ensures 0 <= ws[j] < |us| - j {
      DrawTestAgrees(|us| - j, 0, us[j]);
    }
    ws
  }

  /** ycsbr's test on candidate offset c agrees with the test on its scaled draw. */
  lemma ScaleAt(us: seq<real>, c: nat, remaining: nat, needed: nat)
    requires UnitDraws(us) && c < |us| && remaining == |us| - c
    ensures (remaining as real) * us[c] < needed as real <==> Accepts(needed, Scale(us)[c])
  {
    DrawTestAgrees(remaining, needed, us[c]);
  }

  /**
    A rejected candidate leaves room: once the remaining range equals the
    number still needed, every candidate is accepted because its draw is
    below the remaining range.
   */
  lemma RejectLeavesRoom(remaining: nat, needed: nat, w: int)
    requires 0 <= w < remaining
    requires 0 < needed <= remaining
    requires !Accepts(needed, w)
    ensures needed < remaining
  {
  }

  /** The values selection sampling accepts from candidate offset `curr` on, `needed` still to go. */
  function Selection(lo: int, interval: nat, needed: nat, ws: seq<int>, curr: nat): seq<int>
    requires curr <= interval && needed <= interval - curr
    requires |ws| == interval && ScaledDraws(ws)
    decreases interval - curr
  {
    if needed == 0 then []
    else if Accepts(needed, ws[curr]) then
      [lo + curr] + Selection(lo, interval, needed - 1, ws, curr + 1)
    else
      RejectLeavesRoom(interval - curr, needed, ws[curr]);
      Selection(lo, interval, needed, ws, curr + 1)
  }

  /** Selection sampling yields exactly `needed` values, strictly ascending, in [lo + curr, lo + interval). */
  lemma {:induction false} SelectionFacts(lo: int, interval: nat, needed: nat, ws: seq<int>, curr: nat)
    requires curr <= interval && needed <= interval - curr
    requires |ws| == interval && ScaledDraws(ws)
    ensures |Selection(lo, interval, needed, ws, curr)| == needed
    ensures StrictlyAscending(Selection(lo, interval, needed, ws, curr))
    ensures InRange(Selection(lo, interval, needed, ws, curr), Range(lo + curr, lo + interval - 1))
    decreases interval - curr
  {
    if needed > 0 {
      if Accepts(needed, ws[curr]) {
        SelectionFacts(lo, interval, needed - 1, ws, curr + 1);
      } else {
        RejectLeavesRoom(interval - curr, needed, ws[curr]);
        SelectionFacts(lo, interval, needed, ws, curr + 1);
      }
    }
  }

  /**
    The loop's forward view: the values accepted among the first c candidate
    offsets, each tested against the number still needed at that point.
   */
  function Accepted(lo: int, k: nat, ws: seq<int>, c: nat): seq<int>
    requires c <= |ws|
  {
    if c == 0 then []
    else
      var p := Accepted(lo, k, ws, c - 1);
      if |p| < k && Accepts(k - |p|, ws[c - 1]) then p + [lo + c - 1] else p
  }

  /** The loop never accepts more than k values, and always leaves enough candidates for the rest. */
  lemma {:induction false} AcceptedBound(lo: int, interval: nat, k: nat, ws: seq<int>, c: nat)
    requires |ws| == interval && ScaledDraws(ws) && k <= interval && c <= interval
    ensures |Accepted(lo, k, ws, c)| <= k
    ensures k - |Accepted(lo, k, ws, c)| <= interval - c
  {
    if c > 0 {
      AcceptedBound(lo, interval, k, ws, c - 1);
      var p := Accepted(lo, k, ws, c - 1);
      if |p| < k && !Accepts(k - |p|, ws[c - 1]) {
        RejectLeavesRoom(interval - (c - 1), k - |p|, ws[c - 1]);
      }
    }
  }

  /**
    After c candidates, the values accepted so far followed by what selection
    sampling accepts from offset c on make up the whole sample: the loop
    computes Selection.
   */
  lemma {:induction false} AcceptedThenSelection(lo: int, interval: nat, k: nat, ws: seq<int>, c: nat)
    requires |ws| == interval && ScaledDraws(ws) && k <= interval && c <= interval
    ensures |Accepted(lo, k, ws, c)| <= k && k - |Accepted(lo, k, ws, c)| <= interval - c
    ensures Accepted(lo, k, ws, c) + Selection(lo, interval, k - |Accepted(lo, k, ws, c)|, ws, c)
              == Selection(lo, interval, k, ws, 0)
  {
    AcceptedBound(lo, interval, k, ws, c);
    if c > 0 {
      AcceptedThenSelection(lo, interval, k, ws, c - 1);
      var p := Accepted(lo, k, ws, c - 1);
      var n := k - |p|;
      if n > 0 && Accepts(n, ws[c - 1]) {
        assert (p + [lo + c - 1]) + Selection(lo, interval, n - 1, ws, c)
            == p + ([lo + c - 1] + Selection(lo, interval, n - 1, ws, c));
      }
    }
  }

  /** The acceptance test of ycsbr's SelectionSample on candidate offset c: (remaining range) * u < (number still needed). */
  method AcceptCandidate(us: seq<real>, c: nat, remaining: nat, needed: nat) returns (accept: bool)
    requires UnitDraws(us) && c < |us| && remaining == |us| - c
    ensures accept <==> Accepts(needed, Scale(us)[c])
  {
    accept := (remaining as real) * us[c] < needed as real;
    ScaleAt(us, c, remaining, needed);
  }

  method SelectionSample(k: nat, r: Range, dest: array<int>, start: nat, us: seq<real>)
    requires Fits(k, r, dest.Length, start)
    requires |us| == r.Size() && UnitDraws(us)
    modifies dest
    ensures dest[start..start + k] == Selection(r.min, r.Size(), k, Scale(us), 0)
    ensures StrictlyAscending(dest[start..start + k]) && InRange(dest[start..start + k], r)
    ensures SameOutside(dest, start, start + k)
  {
    var interval: nat := r.max - r.min + 1;
    ghost var ws := Scale(us);
    var soFar: nat := 0;
    var curr: nat := 0;
    ghost var written: seq<int> := [];
    while soFar < k
      invariant curr <= interval && written == Accepted(r.min, k, ws, curr)
      invariant soFar == |written| <= k && k - soFar <= interval - curr
      invariant forall j :: start <= j < start + soFar ==> dest[j] == written[j - start]
      invariant SameOutside(dest, start, start + soFar)
      decreases interval - curr
    {
      var accept := AcceptCandidate(us, curr, interval - curr, k - soFar);
      if accept {
        dest[start + soFar] := r.min + curr;
        written := written + [r.min + curr];
        soFar := soFar + 1;
      } else {
        RejectLeavesRoom(interval - curr, k - soFar, ws[curr]);
      }
      curr := curr + 1;
    }
    AcceptedThenSelection(r.min, interval, k, ws, curr);
    assert dest[start..start + k] == written;
    SelectionFacts(r.min, interval, k, ws, 0);
    assert r == Range(r.min + 0, r.min + interval - 1);
  }

  // ---------------------------------------------------------------------------
  // Sparse Fisher-Yates partial shuffle
  // ---------------------------------------------------------------------------

  /** The i-th draw (a swap target) is taken uniformly from [i, n - 1]. */
  predicate FisherYatesDraws(n: int, k: nat, draws: seq<int>) {
    |draws| == k && forall i :: 0 <= i < k ==> i <= draws[i] < n
  }

  /** Index x of the virtual array holds the swapped value recorded for x, or x itself. */
  function Resolve(m: map<int, int>, x: int): int {
    if x in m then m[x] else x
  }

  /** Offsets emitted so far (relative to min) and the map of swapped indices. */
  datatype ShuffleState = ShuffleState(out: seq<int>, swapped: map<int, int>)

  /** The state after the steps i = 0 .. |draws|-1, the i-th swapping position i with draws[i]. */
  function FisherYates(draws: seq<int>): ShuffleState
    ensures |FisherYates(draws).out| == |draws|
    decreases |draws|
  {
    if draws == [] then ShuffleState([], map[])
    else
      var s := FisherYates(draws[..|draws| - 1]);
      var i := |draws| - 1;
      var t := draws[i];
      ShuffleState(s.out + [Resolve(s.swapped, t)], s.swapped[t := Resolve(s.swapped, i)])
  }

  /** The array [0, 1, ..., n-1] after swapping position i with draws[i], for each i in turn. */
  ghost function Shuffled(n: nat, draws: seq<int>): seq<int>
    requires |draws| <= n && forall i :: 0 <= i < |draws| ==> 0 <= draws[i] < n
    ensures |Shuffled(n, draws)| == n
    decreases |draws|
  {
    if draws == [] then seq(n, x => x)
    else
      var prefix := draws[..|draws| - 1];
      assert forall i :: 0 <= i < |prefix| ==> prefix[i] == draws[i];
      var a := Shuffled(n, prefix);
      var i := |draws| - 1;
      var t := draws[i];
      a[i := a[t]][t := a[i]]
  }

  ghost predicate IsPermutation(a: seq<int>, n: nat) {
    |a| == n && Distinct(a) && forall x :: 0 <= x < n ==> 0 <= a[x] < n
  }

  /**
    The invariant of the sparse shuffle: the values emitted so far, followed by
    the map-resolved virtual array over [i, n), are a permutation of [0, n).
   */
  lemma {:induction false} FisherYatesInvariant(n: nat, draws: seq<int>)
    requires |draws| <= n && FisherYatesDraws(n, |draws|, draws)
    ensures IsPermutation(Shuffled(n, draws), n)
    ensures FisherYates(draws).out == Shuffled(n, draws)[..|draws|]
    ensures forall x :: |draws| <= x < n ==> Resolve(FisherYates(draws).swapped, x) == Shuffled(n, draws)[x]
  {
    if draws != [] {
      var i := |draws| - 1;
      var t := draws[i];
      var prefix := draws[..i];
      FisherYatesInvariant(n, prefix);
      var a := Shuffled(n, prefix);
      assert Shuffled(n, draws) == a[i := a[t]][t := a[i]];
      SwapKeepsPermutation(a, n, i, t);
    }
  }

  /** Exchanging two entries of a permutation of [0, n) gives a permutation of [0, n). */
  lemma SwapKeepsPermutation(a: seq<int>, n: nat, i: nat, t: nat)
    requires IsPermutation(a, n) && i < n && t < n
    ensures IsPermutation(a[i := a[t]][t := a[i]], n)
  {
    var b := a[i := a[t]][t := a[i]];
    forall p, q | 0 <= p < q < n ensures b[p] != b[q] {
      var p' := if p == i then t else if p == t then i else p;
      var q' := if q == i then t else if q == t then i else q;
      assert b[p] == a[p'] && b[q] == a[q'] && p' != q';
      if p' < q' { assert a[p'] != a[q']; } else { assert a[q'] != a[p']; }
    }
  }

  /** The sparse shuffle emits |draws| distinct offsets in [0, n). */
  lemma FisherYatesOutput(n: nat, draws: seq<int>)
    requires |draws| <= n && FisherYatesDraws(n, |draws|, draws)
    ensures |FisherYates(draws).out| == |draws|
    ensures Distinct(FisherYates(draws).out)
    ensures forall j :: 0 <= j < |draws| ==> 0 <= FisherYates(draws).out[j] < n
  {
    FisherYatesInvariant(n, draws);
  }

  method FisherYatesSample(k: nat, r: Range, dest: array<int>, start: nat, draws: seq<int>)
    requires Fits(k, r, dest.Length, start)
    requires FisherYatesDraws(r.Size(), k, draws)
    modifies dest
    ensures forall j :: 0 <= j < k ==> dest[start + j] == r.min + FisherYates(draws).out[j]
    ensures Distinct(dest[start..start + k]) && InRange(dest[start..start + k], r)
    ensures SameOutside(dest, start, start + k)
  {
    var swapped: map<int, int> := map[];
    ghost var out: seq<int> := [];
    for i := 0 to k
      invariant FisherYates(draws[..i]) == ShuffleState(out, swapped)
      invariant forall j :: 0 <= j < i ==> dest[start + j] == r.min + out[j]
      invariant SameOutside(dest, start, start + i)
    {
      assert draws[..i + 1][..i] == draws[..i];
      var toSwap := draws[i];
      if toSwap !in swapped {
        dest[start + i] := r.min + toSwap;
      } else {
        dest[start + i] := r.min + swapped[toSwap];
      }
      out := out + [Resolve(swapped, toSwap)];
      if i !in swapped {
        swapped := swapped[toSwap := i];
      } else {
        swapped := swapped[toSwap := swapped[i]];
      }
    }
    assert draws[..k] == draws;
    FisherYatesOutput(r.Size(), draws);
    ghost var w := dest[start..start + k];
    assert forall j :: 0 <= j < k ==> w[j] == r.min + out[j];
    forall a, b | 0 <= a < b < k ensures w[a] != w[b] {
      assert out[a] != out[b];
    }
  }

  // ---------------------------------------------------------------------------
  // Dispatch by selectivity
  // ---------------------------------------------------------------------------

  /**
    `num_samples / interval <= 0.05` evaluated exactly, with both sides
    multiplied by the positive interval. An empty range makes ycsbr's
    quotient 0/0, a NaN, and NaN compares false.
   */
  predicate UseFloyd(k: nat, interval: int) {
    interval > 0 && (k as real) <= 0.05 * (interval as real)
  }

  /** The selectivity test in integers: Floyd exactly when 20 * k <= interval. */
  lemma UseFloydIff(k: nat, interval: int)
    ensures UseFloyd(k, interval) <==> interval > 0 && 20 * k <= interval
  {
  }

  /**
    Floyd at selectivity at most 5%, selection sampling above; Fisher-Yates is
    never chosen. Only the draws of the chosen algorithm are constrained.
   */
  method SampleWithoutReplacement(k: nat, r: Range, dest: array<int>, start: nat,
                                  floydDraws: seq<int>, us: seq<real>)
    requires Fits(k, r, dest.Length, start)
    requires UseFloyd(k, r.Size()) ==> FloydDraws(r, k, floydDraws)
    requires !UseFloyd(k, r.Size()) ==> |us| == r.Size() && UnitDraws(us)
    modifies dest
    ensures UseFloyd(k, r.Size()) ==> Elements(dest[start..start + k]) == FloydSet(r.max - k + 1, floydDraws)
    ensures !UseFloyd(k, r.Size()) ==> dest[start..start + k] == Selection(r.min, r.Size(), k, Scale(us), 0)
    ensures !UseFloyd(k, r.Size()) ==> StrictlyAscending(dest[start..start + k])
    ensures Distinct(dest[start..start + k]) && InRange(dest[start..start + k], r)
    ensures SameOutside(dest, start, start + k)
  {
    var interval := r.max - r.min + 1;
    if interval > 0 && (k as real) <= 0.05 * (interval as real) {
      FloydSample(k, r, dest, start, floydDraws);
    } else {
      SelectionSample(k, r, dest, start, us);
    }
  }
}

/**
 * The nearest-centre scroll-snap resolver that both App components install,
 * and the pinned-trigger list it is built from.
 *
 * Scroll positions are exact reals: the IEEE rounding of the browser's
 * numbers is not modelled.
 */
module Snap {
  import opened Common

  /** A scroll trigger as the resolver sees it: whether it pins, and its pixel bounds. */
  datatype Trigger = Trigger(pin: bool, start: real, end: Option<real>)

  /** `st.end ?? st.start`. */
  function EndOr(t: Trigger): real
  {
    t.end.GetOr(t.start)
  }

  /** A trigger whose end, when it has one, does not come before its start. */
  predicate Ordered(t: Trigger)
  {
    t.start <= EndOr(t)
  }

  /** One pinned section as a fraction of the whole scroll: its bounds and the point halfway between. */
  datatype Range = Range(start: real, end: real, center: real)

  /** `Math.abs(c - v)`. */
  function Dist(c: real, v: real): (d: real)
    ensures d >= 0.0
    ensures d == 0.0 <==> c == v
  {
    if c >= v then c - v else v - c
  }

  // ---------------------------------------------------------------------------
  // The pinned list: `getAll().filter(st => st.vars.pin).sort((a, b) => a.start - b.start)`

  /**
   * The triggers that pin, each as often as it occurs and in the original
   * order; the others are dropped.
   */
  function KeepPinned(all: seq<Trigger>): (r: seq<Trigger>)
    ensures forall t :: t in r <==> t in all && t.pin
    ensures forall t :: multiset(r)[t] == if t.pin then multiset(all)[t] else 0
    ensures IsSubsequence(r, all)
  {
    if all == [] then []
    else
      var rest := KeepPinned(all[1..]);
      assert all == [all[0]] + all[1..];
      if all[0].pin then
        var r := [all[0]] + rest;
        assert r[1..] == rest;
        r
      else rest
  }

  predicate SortedByStart(s: seq<Trigger>)
  {
    forall i, j :: 0 <= i < j < |s| ==> s[i].start <= s[j].start
  }

  /** Places `t` before the first element that does not start before it. */
  function InsertByStart(t: Trigger, s: seq<Trigger>): seq<Trigger>
  {
    if s == [] || t.start <= s[0].start then [t] + s
    else [s[0]] + InsertByStart(t, s[1..])
  }

  /**
   * The array sort by start, written as an insertion sort: the result is
   * ordered by start and holds exactly the triggers it was given.
   */
  function SortByStart(s: seq<Trigger>): (r: seq<Trigger>)
    ensures SortedByStart(r)
    ensures multiset(r) == multiset(s)
  {
    if s == [] then []
    else
      var sorted := SortByStart(s[1..]);
      InsertByStartCorrect(s[0], sorted);
      assert s == [s[0]] + s[1..];
      InsertByStart(s[0], sorted)
  }

  lemma {:induction false} InsertByStartCounts(t: Trigger, s: seq<Trigger>)
    ensures multiset(InsertByStart(t, s)) == multiset(s) + multiset{t}
  {
    if s == [] || t.start <= s[0].start {
    } else {
      InsertByStartCounts(t, s[1..]);
      assert s == [s[0]] + s[1..];
    }
  }

  lemma {:induction false} InsertByStartCorrect(t: Trigger, s: seq<Trigger>)
    requires SortedByStart(s)
    ensures SortedByStart(InsertByStart(t, s))
    ensures multiset(InsertByStart(t, s)) == multiset(s) + multiset{t}
  {
    InsertByStartCounts(t, s);
    if s != [] && t.start > s[0].start {
      InsertByStartCorrect(t, s[1..]);
      var r := InsertByStart(t, s[1..]);
      InsertByStartCounts(t, s[1..]);
      forall j | 0 <= j < |r| ensures s[0].start <= r[j].start {
        assert r[j] in multiset(r);
        assert r[j] == t || r[j] in multiset(s[1..]);
      }
      assert InsertByStart(t, s) == [s[0]] + r;
    }
  }

  /** The triggers of `s` whose start is `x`, in their order in `s`. */
  function WithStart(s: seq<Trigger>, x: real): seq<Trigger>
  {
    if s == [] then []
    else if s[0].start == x then [s[0]] + WithStart(s[1..], x)
    else WithStart(s[1..], x)
  }

  /** Inserting `t` puts it ahead of every trigger that starts where it does. */
  lemma {:induction false} InsertByStartStable(t: Trigger, s: seq<Trigger>, x: real)
    ensures WithStart(InsertByStart(t, s), x) == if t.start == x then [t] + WithStart(s, x) else WithStart(s, x)
  {
    if s == [] || t.start <= s[0].start {
      assert ([t] + s)[1..] == s;
    } else {
      InsertByStartStable(t, s[1..], x);
      var r := InsertByStart(t, s[1..]);
      assert ([s[0]] + r)[1..] == r;
    }
  }

  /**
   * The sort is stable: the triggers sharing a start keep the order the
   * registration list gives them.
   */
  lemma {:induction false} SortByStartStable(s: seq<Trigger>, x: real)
    ensures WithStart(SortByStart(s), x) == WithStart(s, x)
  {
    if s != [] {
      SortByStartStable(s[1..], x);
      InsertByStartStable(s[0], SortByStart(s[1..]), x);
    }
  }

  /** The pinned triggers, sorted by ascending start. */
  function Pinned(all: seq<Trigger>): (r: seq<Trigger>)
    ensures SortedByStart(r)
    ensures multiset(r) == multiset(KeepPinned(all))
  {
    SortByStart(KeepPinned(all))
  }

  /** The pinned list is sorted and is a rearrangement of exactly the triggers that pin. */
  lemma PinnedCorrect(all: seq<Trigger>)
    ensures SortedByStart(Pinned(all))
    ensures forall t :: multiset(Pinned(all))[t] == if t.pin then multiset(all)[t] else 0
    ensures forall t :: t in Pinned(all) <==> t in all && t.pin
  {
    var p := Pinned(all);
    forall t ensures t in p <==> t in KeepPinned(all) {
      assert t in p <==> t in multiset(p);
    }
  }

  /** The pinned list is empty exactly when no trigger pins. */
  lemma PinnedEmpty(all: seq<Trigger>)
    ensures |Pinned(all)| == 0 <==> forall t :: t in all ==> !t.pin
  {
    PinnedCorrect(all);
    if |Pinned(all)| > 0 {
      assert Pinned(all)[0] in Pinned(all);
    }
  }

  // ---------------------------------------------------------------------------
  // Normalised ranges

  /**
   * One trigger's range, every bound divided by `maxScroll`. With a positive
   * extent and an end no earlier than the start, the centre lies between the
   * bounds and is their midpoint, the same point the first-match resolver computes.
   */
  function RangeOf(t: Trigger, maxScroll: real): (r: Range)
    requires maxScroll != 0.0
    ensures maxScroll > 0.0 && Ordered(t) ==> WellFormed(r) && r.center == r.start + (r.end - r.start) / 2.0
  {
    var s, e := t.start, EndOr(t);
    var r := Range(s / maxScroll, e / maxScroll, (s + (e - s) * 0.5) / maxScroll);
    if maxScroll > 0.0 && Ordered(t) then
      DivMonotone(s, s + (e - s) * 0.5, maxScroll);
      DivMonotone(s + (e - s) * 0.5, e, maxScroll);
      assert (s + (e - s) * 0.5) / maxScroll == s / maxScroll + (e / maxScroll - s / maxScroll) / 2.0;
      r
    else r
  }

  /** `pinned.map(st => ({start, end, center}))`. */
  function RangesOf(pinned: seq<Trigger>, maxScroll: real): (rs: seq<Range>)
    requires maxScroll != 0.0
    ensures |rs| == |pinned|
    ensures forall i :: 0 <= i < |pinned| ==> rs[i] == RangeOf(pinned[i], maxScroll)
  {
    seq(|pinned|, i requires 0 <= i < |pinned| => RangeOf(pinned[i], maxScroll))
  }

  /** The centre lies between the bounds. */
  predicate WellFormed(r: Range)
  {
    r.start <= r.center <= r.end
  }

  predicate StartsAscending(rs: seq<Range>)
  {
    forall i, j :: 0 <= i < j < |rs| ==> rs[i].start <= rs[j].start
  }

  lemma DivMonotone(a: real, b: real, m: real)
    requires a <= b && m > 0.0
    ensures a / m <= b / m
  {
    assert b / m - a / m == (b - a) / m;
  }

  /**
   * Ranges built from the sorted pinned list keep its order at any positive
   * extent, and are well formed when every trigger ends no earlier than it starts.
   */
  lemma RangesOfPinned(all: seq<Trigger>, maxScroll: real)
    ensures maxScroll > 0.0 ==> StartsAscending(RangesOf(Pinned(all), maxScroll))
    ensures maxScroll > 0.0 && (forall t :: t in all ==> Ordered(t)) ==>
              forall i :: 0 <= i < |Pinned(all)| ==> WellFormed(RangesOf(Pinned(all), maxScroll)[i])
  {
    PinnedCorrect(all);
    var p := Pinned(all);
    if maxScroll > 0.0 {
      forall i, j | 0 <= i < j < |p| ensures p[i].start / maxScroll <= p[j].start / maxScroll {
        DivMonotone(p[i].start, p[j].start, maxScroll);
      }
      if forall t :: t in all ==> Ordered(t) {
        forall i | 0 <= i < |p| ensures WellFormed(RangeOf(p[i], maxScroll)) {
          assert p[i] in p;
        }
      }
    }
  }

  // ---------------------------------------------------------------------------
  // The nearest-centre resolver (buffer 0.03)

  const NearestBuffer: real := 0.03

  /** `value >= r.start - 0.03 && value <= r.end + 0.03`. */
  predicate NearRange(r: Range, v: real)
  {
    r.start - NearestBuffer <= v <= r.end + NearestBuffer
  }

  /** `pinnedRanges.some(...)`: the value is within the buffer of some pinned range. */
  predicate InPinned(rs: seq<Range>, v: real)
  {
    exists i :: 0 <= i < |rs| && NearRange(rs[i], v)
  }

  /**
   * The `reduce` step by step: keep `closest` unless a centre is strictly
   * nearer. The result is the initial value or one of the centres.
   */
  function Closest(rs: seq<Range>, v: real, closest: real): (r: real)
    ensures r == closest || exists k :: 0 <= k < |rs| && r == rs[k].center
    decreases |rs|
  {
    if rs == [] then closest
    else
      var next := if Dist(rs[0].center, v) < Dist(closest, v) then rs[0].center else closest;
      var r := Closest(rs[1..], v, next);
      assert forall k :: 0 <= k < |rs| - 1 ==> rs[1..][k] == rs[k + 1];
      r
  }

  /**
   * `snapTo`: free scroll outside every buffered range; inside one, always
   * some range's centre.
   */
  function NearestSnapTo(rs: seq<Range>, v: real): (r: real)
    ensures !InPinned(rs, v) ==> r == v
    ensures InPinned(rs, v) ==> exists k :: 0 <= k < |rs| && r == rs[k].center
  {
    if !InPinned(rs, v) then v
    else Closest(rs, v, if |rs| > 0 then rs[0].center else 0.0)
  }

  /**
   * Range `k` has a centre at minimal distance from `v`, and every earlier
   * range is strictly farther: the lowest-start range wins a tie.
   */
  predicate FirstNearest(rs: seq<Range>, v: real, k: int)
  {
    && 0 <= k < |rs|
    && (forall j :: 0 <= j < |rs| ==> Dist(rs[k].center, v) <= Dist(rs[j].center, v))
    && (forall j :: 0 <= j < k ==> Dist(rs[k].center, v) < Dist(rs[j].center, v))
  }

  /** The fold from position `i` on ends at the first nearest range of the whole list. */
  lemma {:induction false} ClosestFrom(rs: seq<Range>, v: real, i: nat, k: nat) returns (k': nat)
    requires k < i <= |rs|
    requires FirstNearest(rs[..i], v, k)
    ensures FirstNearest(rs, v, k')
    ensures Closest(rs[i..], v, rs[k].center) == rs[k'].center
    decreases |rs| - i
  {
    if i == |rs| {
      assert rs[..i] == rs;
      assert rs[i..] == [];
      k' := k;
    } else {
      var c := rs[i].center;
      assert rs[i..][0] == rs[i] && rs[i..][1..] == rs[i + 1..];
      var next: nat := if Dist(c, v) < Dist(rs[k].center, v) then i else k;
      assert rs[..i + 1][..i] == rs[..i];
      assert forall j :: 0 <= j < i ==> rs[..i + 1][j] == rs[..i][j];
      assert FirstNearest(rs[..i + 1], v, next);
      k' := ClosestFrom(rs, v, i + 1, next);
    }
  }

  /**
   * The resolver's contract: it returns the value unchanged outside every
   * buffered range, and otherwise the centre of the first range whose centre
   * is nearest to the value, over all ranges.
   */
  lemma NearestSnapToSpec(rs: seq<Range>, v: real)
    ensures !InPinned(rs, v) ==> NearestSnapTo(rs, v) == v
    ensures InPinned(rs, v) ==> exists k :: FirstNearest(rs, v, k) && NearestSnapTo(rs, v) == rs[k].center
  {
    if InPinned(rs, v) {
      assert rs[..1] == [rs[0]];
      assert FirstNearest(rs[..1], v, 0);
      var k := ClosestFrom(rs, v, 1, 0);
      assert rs[1..] == rs[1..];
      assert Closest(rs, v, rs[0].center) == Closest(rs[1..], v, rs[0].center);
    }
  }

  /** Snapping an already snapped position does not move it again. */
  lemma NearestSnapToIdempotent(rs: seq<Range>, v: real)
    ensures NearestSnapTo(rs, NearestSnapTo(rs, v)) == NearestSnapTo(rs, v)
  {
    NearestSnapToSpec(rs, v);
    if InPinned(rs, v) {
      var k :| FirstNearest(rs, v, k) && NearestSnapTo(rs, v) == rs[k].center;
      var c := rs[k].center;
      NearestSnapToSpec(rs, c);
      if InPinned(rs, c) {
        var k2 :| FirstNearest(rs, c, k2) && NearestSnapTo(rs, c) == rs[k2].center;
        assert Dist(rs[k2].center, c) <= Dist(rs[k].center, c);
      }
    }
  }

  // ---------------------------------------------------------------------------
  // Installing the resolver

  /** A snap trigger one setup effect registers, with what its `snapTo` closes over. */
  datatype SnapInstall =
    | NearestCentre(ranges: seq<Range>)   // nearest-centre `snapTo` over ranges measured at setup
    | FirstMatchOver(pinned: seq<Trigger>) // first-match `snapTo` over the triggers as they were at setup; it re-reads the extent when it runs

  /**
   * The nearest-centre setup effect: nothing until the page has loaded and
   * unless reduced motion is off; then nothing when the scroll extent is zero
   * or nothing pins; otherwise one snap trigger over the normalised ranges.
   */
  function NearestEffect(isLoaded: bool, reducedMotion: bool, all: seq<Trigger>, maxScroll: real)
    : (r: Option<SnapInstall>)
    ensures r.Some? <==> isLoaded && !reducedMotion && maxScroll != 0.0 && exists t :: t in all && t.pin
    ensures r.Some? ==> maxScroll != 0.0 && r.value == NearestCentre(RangesOf(Pinned(all), maxScroll))
  {
    PinnedEmpty(all);
    if !isLoaded || reducedMotion then None
    else
      var pinned := Pinned(all);
      if maxScroll == 0.0 || |pinned| == 0 then None
      else Some(NearestCentre(RangesOf(pinned, maxScroll)))
  }

  // ---------------------------------------------------------------------------
  // Worked example: pinned sections at 0.10-0.30 and 0.50-0.70

  const ExampleRanges: seq<Range> := [Range(0.1, 0.3, 0.2), Range(0.5, 0.7, 0.6)]

  /** A position between the two sections is left alone; positions just inside one snap to its centre. */
  lemma NearestExample()
    ensures NearestSnapTo(ExampleRanges, 0.4) == 0.4
    ensures NearestSnapTo(ExampleRanges, 0.28) == 0.2
    ensures NearestSnapTo(ExampleRanges, 0.52) == 0.6
  {
    var rs := ExampleRanges;
    assert !NearRange(rs[0], 0.4) && !NearRange(rs[1], 0.4);
    assert NearRange(rs[0], 0.28);
    assert NearRange(rs[1], 0.52);
    assert rs[1..][1..] == [];
  }

  /**
   * Being inside a range's buffer does not pick that range: a value that only
   * the wide first range covers still snaps to the nearer centre of the second.
   */
  lemma NearestMayLeaveContainingRange()
    ensures var rs := [Range(0.0, 0.5, 0.25), Range(0.52, 0.54, 0.53)];
            NearRange(rs[0], 0.45) && !NearRange(rs[1], 0.45) && NearestSnapTo(rs, 0.45) == 0.53
  {
    var rs := [Range(0.0, 0.5, 0.25), Range(0.52, 0.54, 0.53)];
    assert NearRange(rs[0], 0.45);
    assert rs[1..][1..] == [];
  }
}

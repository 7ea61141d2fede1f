/**
 * The root page component's scroll snapping: the two setup effects it runs
 * side by side, and the first-match resolver that only the second installs.
 */
module SiteSnap {
  import opened Common
  import opened Snap

  const FirstMatchBuffer: real := 0.05

  /** A pinned section as the first-match resolver sees it: its bounds only. */
  datatype Span = Span(start: real, end: real)

  /** `ScrollTrigger.maxScroll(window) || 1`, read each time the resolver runs. */
  function ExtentOrOne(maxAtSnap: real): (m: real)
    ensures m != 0.0
    ensures maxAtSnap != 0.0 ==> m == maxAtSnap
  {
    if maxAtSnap == 0.0 then 1.0 else maxAtSnap
  }

  /** Whether `st.end` is truthy: present and not zero. */
  predicate EndTruthy(t: Trigger)
  {
    t.end.Some? && t.end.value != 0.0
  }

  /** The span as the source builds it: `end: st.end ? st.end / m : st.start`. */
  function SpanAsWritten(t: Trigger, maxAtSnap: real): Span
  {
    var m := ExtentOrOne(maxAtSnap);
    Span(t.start / m, if EndTruthy(t) then t.end.value / m else t.start)
  }

  function SpansAsWritten(pinned: seq<Trigger>, maxAtSnap: real): (r: seq<Span>)
    ensures |r| == |pinned| && forall i :: 0 <= i < |pinned| ==> r[i] == SpanAsWritten(pinned[i], maxAtSnap)
  {
    seq(|pinned|, i requires 0 <= i < |pinned| => SpanAsWritten(pinned[i], maxAtSnap))
  }

  /** The span with both bounds normalised, the fallback end included. */
  function SpanOf(t: Trigger, maxAtSnap: real): Span
  {
    var m := ExtentOrOne(maxAtSnap);
    Span(t.start / m, EndOr(t) / m)
  }

  function SpansOf(pinned: seq<Trigger>, maxAtSnap: real): (r: seq<Span>)
    ensures |r| == |pinned| && forall i :: 0 <= i < |pinned| ==> r[i] == SpanOf(pinned[i], maxAtSnap)
  {
    seq(|pinned|, i requires 0 <= i < |pinned| => SpanOf(pinned[i], maxAtSnap))
  }

  /** The two constructions agree whenever every trigger has a non-zero end. */
  lemma SpansAgreeWithTruthyEnds(pinned: seq<Trigger>, maxAtSnap: real)
    requires forall t :: t in pinned ==> EndTruthy(t)
    ensures SpansAsWritten(pinned, maxAtSnap) == SpansOf(pinned, maxAtSnap)
  {
    forall i | 0 <= i < |pinned| ensures SpanAsWritten(pinned[i], maxAtSnap) == SpanOf(pinned[i], maxAtSnap) {
      assert pinned[i] in pinned;
    }
  }

  /** `value >= r.start - 0.05 && value <= r.end + 0.05`. */
  predicate NearSpan(r: Span, v: real)
  {
    r.start - FirstMatchBuffer <= v <= r.end + FirstMatchBuffer
  }

  /** `r.start + (r.end - r.start) / 2`. */
  function Mid(r: Span): real
  {
    r.start + (r.end - r.start) / 2.0
  }

  /**
   * The first-match `snapTo` as a value: the midpoint of the first span near
   * the value, else the value. The result is the value itself or the
   * midpoint of some span near it.
   */
  function FirstMatch(spans: seq<Span>, v: real): (r: real)
    ensures r == v || exists k :: 0 <= k < |spans| && NearSpan(spans[k], v) && r == Mid(spans[k])
    decreases |spans|
  {
    if spans == [] then v
    else if NearSpan(spans[0], v) then Mid(spans[0])
    else
      var r := FirstMatch(spans[1..], v);
      assert forall k :: 0 <= k < |spans| - 1 ==> spans[1..][k] == spans[k + 1];
      r
  }

  /**
   * The first-match contract: with no span near the value, the value is
   * returned unchanged; otherwise the midpoint of the first near span in list
   * order, whatever the later spans are.
   */
  lemma {:induction false} FirstMatchSpec(spans: seq<Span>, v: real)
    ensures (forall j :: 0 <= j < |spans| ==> !NearSpan(spans[j], v)) ==> FirstMatch(spans, v) == v
    ensures forall k :: 0 <= k < |spans| && NearSpan(spans[k], v) && (forall j :: 0 <= j < k ==> !NearSpan(spans[j], v))
              ==> FirstMatch(spans, v) == Mid(spans[k])
    decreases |spans|
  {
    if spans != [] && !NearSpan(spans[0], v) {
      FirstMatchSpec(spans[1..], v);
      forall k | 0 < k < |spans| && NearSpan(spans[k], v) && (forall j :: 0 <= j < k ==> !NearSpan(spans[j], v))
        ensures FirstMatch(spans, v) == Mid(spans[k])
      {
        assert spans[1..][k - 1] == spans[k];
        assert forall j :: 0 <= j < k - 1 ==> spans[1..][j] == spans[j + 1];
      }
      assert forall j :: 0 <= j < |spans| - 1 ==> spans[1..][j] == spans[j + 1];
    }
  }

  /** The `for ... of` search with its early return. */
  method FirstMatchSnapTo(spans: seq<Span>, value: real) returns (r: real)
    ensures r == FirstMatch(spans, value)
  {
    var i := 0;
    while i < |spans|
      invariant 0 <= i <= |spans|
      invariant FirstMatch(spans[i..], value) == FirstMatch(spans, value)
    {
      var s := spans[i];
      assert spans[i..][0] == s && spans[i..][1..] == spans[i + 1..];
      if value >= s.start - FirstMatchBuffer && value <= s.end + FirstMatchBuffer {
        var center := s.start + (s.end - s.start) / 2.0;
        return center;
      }
      i := i + 1;
    }
    assert spans[i..] == [];
    return value;
  }

  /** Consecutive buffered spans stay apart: each ends more than two buffers before the next starts. */
  predicate Separated(spans: seq<Span>)
  {
    forall i, j :: 0 <= i < j < |spans| ==> spans[i].end + 2.0 * FirstMatchBuffer < spans[j].start
  }

  /** When the buffered spans do not overlap, snapping an already snapped position does not move it. */
  lemma FirstMatchIdempotentWhenSeparated(spans: seq<Span>, v: real)
    requires Separated(spans)
    ensures FirstMatch(spans, FirstMatch(spans, v)) == FirstMatch(spans, v)
  {
    FirstMatchSpec(spans, v);
    if exists k :: 0 <= k < |spans| && NearSpan(spans[k], v) {
      var k := FirstNear(spans, v);
      var m := Mid(spans[k]);
      assert NearSpan(spans[k], m);
      FirstMatchSpec(spans, m);
      assert forall j :: 0 <= j < k ==> !NearSpan(spans[j], m);
    }
  }

  /** The index of the first span near `v`, given that one exists. */
  lemma FirstNear(spans: seq<Span>, v: real) returns (k: nat)
    requires exists k :: 0 <= k < |spans| && NearSpan(spans[k], v)
    ensures k < |spans| && NearSpan(spans[k], v) && forall j :: 0 <= j < k ==> !NearSpan(spans[j], v)
  {
    k := 0;
    while !NearSpan(spans[k], v)
      invariant k < |spans|
      invariant forall j :: 0 <= j < k ==> !NearSpan(spans[j], v)
      decreases |spans| - k
    {
      k := k + 1;
    }
  }

  /** When the buffered spans overlap, the first-match resolver can move a snapped position again. */
  lemma FirstMatchNotIdempotentWhenOverlapping()
    ensures var spans := [Span(0.0, 0.2), Span(0.22, 0.24)];
            FirstMatch(spans, 0.26) == 0.23 && FirstMatch(spans, 0.23) == 0.1
  {
  }

  /**
   * With a non-zero extent, the midpoint of a trigger's normalised span is the
   * nearest-centre resolver's centre; the span as written has the same midpoint
   * when the trigger's end is truthy.
   */
  lemma MidIsCentre(t: Trigger, maxAtSnap: real)
    requires maxAtSnap != 0.0
    ensures Mid(SpanOf(t, maxAtSnap)) == RangeOf(t, maxAtSnap).center
    ensures EndTruthy(t) ==> Mid(SpanAsWritten(t, maxAtSnap)) == RangeOf(t, maxAtSnap).center
  {
  }

  /**
   * With triggers inside the document and a position inside [0, 1], the
   * snap target is again inside [0, 1]; the as-written spans break this
   * (see `AsWrittenEndNotNormalised`).
   */
  lemma FirstMatchStaysInDocument(pinned: seq<Trigger>, maxAtSnap: real, v: real)
    requires maxAtSnap > 0.0 && 0.0 <= v <= 1.0
    requires forall t :: t in pinned ==> 0.0 <= t.start && Ordered(t) && EndOr(t) <= maxAtSnap
    ensures 0.0 <= FirstMatch(SpansOf(pinned, maxAtSnap), v) <= 1.0
  {
    var spans := SpansOf(pinned, maxAtSnap);
    FirstMatchSpec(spans, v);
    if exists k :: 0 <= k < |spans| && NearSpan(spans[k], v) {
      var k := FirstNear(spans, v);
      assert pinned[k] in pinned;
      SpanInUnit(pinned[k], maxAtSnap);
    }
  }

  /** A trigger inside the document gives a span inside [0, 1]. */
  lemma SpanInUnit(t: Trigger, maxAtSnap: real)
    requires maxAtSnap > 0.0 && 0.0 <= t.start && Ordered(t) && EndOr(t) <= maxAtSnap
    ensures 0.0 <= SpanOf(t, maxAtSnap).start <= SpanOf(t, maxAtSnap).end <= 1.0
  {
    DivMonotone(0.0, t.start, maxAtSnap);
    DivMonotone(t.start, EndOr(t), maxAtSnap);
    DivMonotone(EndOr(t), maxAtSnap, maxAtSnap);
    assert maxAtSnap / maxAtSnap == 1.0;
  }

  /**
   * A pinned trigger without an end, 1000px down a 5000px page: as written,
   * its span ends at 1000.0 instead of 0.2, so a position near the bottom of
   * the page snaps to 500.1, far outside [0, 1]; with the end normalised the
   * span is [0.2, 0.2] and the position is left alone.
   */
  lemma AsWrittenEndNotNormalised()
    ensures var pinned := [Trigger(true, 1000.0, None)];
            && SpansAsWritten(pinned, 5000.0) == [Span(0.2, 1000.0)]
            && FirstMatch(SpansAsWritten(pinned, 5000.0), 0.9) == 500.1
            && SpansOf(pinned, 5000.0) == [Span(0.2, 0.2)]
            && FirstMatch(SpansOf(pinned, 5000.0), 0.9) == 0.9
  {
    var pinned := [Trigger(true, 1000.0, None)];
    assert SpansAsWritten(pinned, 5000.0)[0] == Span(0.2, 1000.0);
    assert SpansOf(pinned, 5000.0)[0] == Span(0.2, 0.2);
  }

  // ---------------------------------------------------------------------------
  // The page's two setup effects

  /**
   * The first-match setup effect: nothing until the page has loaded and
   * unless reduced motion is off; nothing when the extent is not positive or
   * nothing pins; otherwise one snap trigger over the pinned list.
   */
  function FirstMatchEffect(isLoaded: bool, reducedMotion: bool, all: seq<Trigger>, maxScroll: real)
    : (r: Option<SnapInstall>)
    ensures r.Some? <==> isLoaded && !reducedMotion && maxScroll > 0.0 && exists t :: t in all && t.pin
    ensures r.Some? ==> r.value == FirstMatchOver(Pinned(all))
  {
    PinnedEmpty(all);
    if !isLoaded || reducedMotion then None
    else if maxScroll <= 0.0 then None
    else
      var pinned := Pinned(all);
      if |pinned| == 0 then None else Some(FirstMatchOver(pinned))
  }

  function AsList(o: Option<SnapInstall>): seq<SnapInstall>
  {
    if o.Some? then [o.value] else []
  }

  /**
   * Every snap trigger the page registers: at most two, none before loading
   * or under reduced motion, and a first-match one only as the last entry
   * and only on a page with a positive extent.
   */
  function SiteSnaps(isLoaded: bool, reducedMotion: bool, all: seq<Trigger>, maxScroll: real)
    : (snaps: seq<SnapInstall>)
    ensures |snaps| <= 2
    ensures |snaps| > 0 ==> isLoaded && !reducedMotion
    ensures forall i :: 0 <= i < |snaps| ==> (snaps[i].FirstMatchOver? <==> i == |snaps| - 1 && maxScroll > 0.0)
  {
    AsList(NearestEffect(isLoaded, reducedMotion, all, maxScroll))
      + AsList(FirstMatchEffect(isLoaded, reducedMotion, all, maxScroll))
  }

  /**
   * The page registers no snap trigger before loading, under reduced motion,
   * on a page that cannot scroll or when nothing pins; on a page with a
   * positive extent and a pinned section it registers two competing ones, and
   * on a negative extent only the nearest-centre one.
   */
  lemma SiteSnapsCases(isLoaded: bool, reducedMotion: bool, all: seq<Trigger>, maxScroll: real)
    ensures var snaps := SiteSnaps(isLoaded, reducedMotion, all, maxScroll);
            && |snaps| <= 2
            && (!isLoaded || reducedMotion ==> snaps == [])
            && (maxScroll == 0.0 || (forall t :: t in all ==> !t.pin) ==> snaps == [])
            && (isLoaded && !reducedMotion && maxScroll > 0.0 && (exists t :: t in all && t.pin) ==>
                  snaps == [NearestCentre(RangesOf(Pinned(all), maxScroll)), FirstMatchOver(Pinned(all))])
            && (isLoaded && !reducedMotion && maxScroll < 0.0 && (exists t :: t in all && t.pin) ==>
                  snaps == [NearestCentre(RangesOf(Pinned(all), maxScroll))])
  {
  }

  /**
   * What a registered snap trigger answers for a scroll progress, given the
   * extent when it runs: the progress itself, or the nearest-centre
   * resolver's centre, or the midpoint of a span near the progress. The
   * first-match spans are the corrected ones, with the fallback end
   * normalised (see `AsWrittenEndNotNormalised`).
   */
  function Resolve(install: SnapInstall, value: real, maxAtSnap: real): (r: real)
    ensures install.NearestCentre? && InPinned(install.ranges, value) ==>
              exists k :: 0 <= k < |install.ranges| && r == install.ranges[k].center
    ensures install.NearestCentre? && !InPinned(install.ranges, value) ==> r == value
    ensures install.FirstMatchOver? ==>
              var spans := SpansOf(install.pinned, maxAtSnap);
              r == value || exists k :: 0 <= k < |spans| && NearSpan(spans[k], value) && r == Mid(spans[k])
  {
    match install
    case NearestCentre(rs) => NearestSnapTo(rs, value)
    case FirstMatchOver(pinned) => FirstMatch(SpansOf(pinned, maxAtSnap), value)
  }

  // ---------------------------------------------------------------------------
  // Worked example: pinned sections at 0.10-0.30 and 0.50-0.70

  const ExampleSpans: seq<Span> := [Span(0.1, 0.3), Span(0.5, 0.7)]

  lemma FirstMatchExample()
    ensures FirstMatch(ExampleSpans, 0.4) == 0.4
    ensures FirstMatch(ExampleSpans, 0.28) == 0.2
    ensures FirstMatch(ExampleSpans, 0.52) == 0.6
  {
  }

  /** Three registered triggers, out of order and one of them not pinning. */
  const ExampleTriggers: seq<Trigger> :=
    [Trigger(true, 500.0, Some(700.0)), Trigger(false, 0.0, None), Trigger(true, 100.0, Some(300.0))]

  /** The example's pinned list: the two pinning triggers, the earlier-starting one first. */
  lemma ExamplePinned()
    ensures Pinned(ExampleTriggers) == [ExampleTriggers[2], ExampleTriggers[0]]
  {
    var a, b := ExampleTriggers[0], ExampleTriggers[2];
    var all := ExampleTriggers;
    assert all[1..][1..][1..] == [];
    assert KeepPinned(all[1..][1..]) == [b];
    assert KeepPinned(all[1..]) == [b];
    assert KeepPinned(all) == [a, b];
    assert [a, b][1..] == [b] && SortByStart([b]) == [b];
  }

  /** The example's nearest-centre ranges are the sections 0.10-0.30 and 0.50-0.70. */
  lemma ExampleRangesOf()
    ensures RangesOf([ExampleTriggers[2], ExampleTriggers[0]], 1000.0) == ExampleRanges
  {
  }

  /** The example's first-match spans are the same two sections, built as written or normalised. */
  lemma ExampleSpansOf()
    ensures SpansAsWritten([ExampleTriggers[2], ExampleTriggers[0]], 1000.0) == ExampleSpans
    ensures SpansOf([ExampleTriggers[2], ExampleTriggers[0]], 1000.0) == ExampleSpans
  {
  }

  /** The example's nearest-centre setup installs the resolver over those ranges. */
  lemma ExampleNearestEffect()
    ensures NearestEffect(true, false, ExampleTriggers, 1000.0) == Some(NearestCentre(ExampleRanges))
  {
    ExamplePinned();
    ExampleRangesOf();
    assert ExampleTriggers[0] in ExampleTriggers;
  }

  /** The example's first-match setup installs the resolver over the sorted pinned list. */
  lemma ExampleFirstMatchEffect()
    ensures FirstMatchEffect(true, false, ExampleTriggers, 1000.0)
         == Some(FirstMatchOver([ExampleTriggers[2], ExampleTriggers[0]]))
  {
    ExamplePinned();
    assert ExampleTriggers[0] in ExampleTriggers;
  }

  /** When both setup effects install a resolver, the page registers the nearest-centre one first. */
  lemma BothEffects(isLoaded: bool, reducedMotion: bool, all: seq<Trigger>, maxScroll: real, n: SnapInstall, f: SnapInstall)
    requires NearestEffect(isLoaded, reducedMotion, all, maxScroll) == Some(n)
    requires FirstMatchEffect(isLoaded, reducedMotion, all, maxScroll) == Some(f)
    ensures SiteSnaps(isLoaded, reducedMotion, all, maxScroll) == [n, f]
  {
  }

  /** On a 1000px page the example triggers register both resolvers over these sections. */
  lemma SiteExampleSnaps()
    ensures SiteSnaps(true, false, ExampleTriggers, 1000.0)
         == [NearestCentre(ExampleRanges), FirstMatchOver([ExampleTriggers[2], ExampleTriggers[0]])]
  {
    ExampleNearestEffect();
    ExampleFirstMatchEffect();
    BothEffects(true, false, ExampleTriggers, 1000.0,
      NearestCentre(ExampleRanges), FirstMatchOver([ExampleTriggers[2], ExampleTriggers[0]]));
  }

  /**
   * Two pinned sections at 100-300px and 500-700px of a 1000px page: both
   * registered resolvers leave 0.40 alone and send 0.28 to 0.20 and 0.52 to 0.60.
   */
  lemma SiteExample()
    ensures var snaps := SiteSnaps(true, false, ExampleTriggers, 1000.0);
            && |snaps| == 2
            && Resolve(snaps[0], 0.4, 1000.0) == 0.4 && Resolve(snaps[1], 0.4, 1000.0) == 0.4
            && Resolve(snaps[0], 0.28, 1000.0) == 0.2 && Resolve(snaps[1], 0.28, 1000.0) == 0.2
            && Resolve(snaps[0], 0.52, 1000.0) == 0.6 && Resolve(snaps[1], 0.52, 1000.0) == 0.6
  {
    SiteExampleSnaps();
    ExampleSpansOf();
    NearestExample();
    FirstMatchExample();
  }
}

/**
 * The app shell's scroll snapping: a single nearest-centre setup effect,
 * the same one the root page runs first, with no second resolver beside it.
 */
module AppSnap {
  import opened Common
  import opened Snap
  import SiteSnap

  /** Every snap trigger the app shell registers. */
  function AppSnaps(isLoaded: bool, reducedMotion: bool, all: seq<Trigger>, maxScroll: real)
    : (snaps: seq<SnapInstall>)
    ensures |snaps| <= 1
    ensures |snaps| == 1 <==> isLoaded && !reducedMotion && maxScroll != 0.0 && exists t :: t in all && t.pin
    ensures forall i :: 0 <= i < |snaps| ==> snaps[i].NearestCentre?
  {
    var effect := NearestEffect(isLoaded, reducedMotion, all, maxScroll);
    if effect.Some? then [effect.value] else []
  }

  /**
   * The app shell registers exactly the root page's first snap trigger, and
   * never the first-match one the root page adds after it.
   */
  lemma AppSnapsArePrefixOfSite(isLoaded: bool, reducedMotion: bool, all: seq<Trigger>, maxScroll: real)
    ensures AppSnaps(isLoaded, reducedMotion, all, maxScroll)
         <= SiteSnap.SiteSnaps(isLoaded, reducedMotion, all, maxScroll)
    ensures forall s :: s in AppSnaps(isLoaded, reducedMotion, all, maxScroll) ==> !s.FirstMatchOver?
  {
  }

  /**
   * Whatever the triggers and the extent, the registered resolver leaves
   * flowing positions alone, returns a pinned centre otherwise, and does not
   * move a position it has already snapped.
   */
  lemma AppSnapSettles(isLoaded: bool, reducedMotion: bool, all: seq<Trigger>, maxScroll: real, v: real)
    ensures forall s :: s in AppSnaps(isLoaded, reducedMotion, all, maxScroll) ==>
              && (!InPinned(s.ranges, v) ==> NearestSnapTo(s.ranges, v) == v)
              && (InPinned(s.ranges, v) ==> exists k :: 0 <= k < |s.ranges| && NearestSnapTo(s.ranges, v) == s.ranges[k].center)
              && NearestSnapTo(s.ranges, NearestSnapTo(s.ranges, v)) == NearestSnapTo(s.ranges, v)
  {
    var snaps := AppSnaps(isLoaded, reducedMotion, all, maxScroll);
    if |snaps| == 1 {
      NearestSnapToIdempotent(snaps[0].ranges, v);
    }
  }
}

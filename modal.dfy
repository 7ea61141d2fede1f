/**
 * The poem modal: which poem a slug opens, its neighbours in the catalogue,
 * whether anything is rendered, and the link the share button hands out.
 */
module Modal {
  import opened Common
  import opened PoemData

  /** `poems.find(p => p.slug === slug)`. */
  function FindBySlug(ps: seq<Poem>, slug: string): (r: Option<Poem>)
    ensures r.Some? ==> r.value in ps && r.value.slug == slug
    ensures r.None? <==> forall i :: 0 <= i < |ps| ==> ps[i].slug != slug
  {
    if ps == [] then None
    else if ps[0].slug == slug then Some(ps[0])
    else
      var r := FindBySlug(ps[1..], slug);
      assert forall i :: 0 < i < |ps| ==> ps[i] == ps[1..][i - 1];
      r
  }

  /**
   * `poems.findIndex(p => p.slug === slug)`: `-1` or a position in the list,
   * and a position found holds a poem with the slug.
   */
  function FindIndex(ps: seq<Poem>, slug: string): (k: int)
    ensures -1 <= k < |ps|
    ensures k >= 0 ==> ps[k].slug == slug
  {
    if ps == [] then -1
    else if ps[0].slug == slug then 0
    else
      var k := FindIndex(ps[1..], slug);
      assert k >= 0 ==> ps[1..][k] == ps[k + 1];
      if k < 0 then -1 else k + 1
  }

  /**
   * The index is the first position holding the slug, or -1 exactly when no
   * poem holds it; `find` returns the poem at that index.
   */
  lemma {:induction false} FindIndexSpec(ps: seq<Poem>, slug: string)
    ensures -1 <= FindIndex(ps, slug) < |ps|
    ensures FindIndex(ps, slug) == -1 <==> forall i :: 0 <= i < |ps| ==> ps[i].slug != slug
    ensures FindIndex(ps, slug) >= 0 ==>
              && ps[FindIndex(ps, slug)].slug == slug
              && (forall j :: 0 <= j < FindIndex(ps, slug) ==> ps[j].slug != slug)
              && FindBySlug(ps, slug) == Some(ps[FindIndex(ps, slug)])
  {
    if ps != [] && ps[0].slug != slug {
      FindIndexSpec(ps[1..], slug);
      assert forall i :: 0 < i < |ps| ==> ps[i] == ps[1..][i - 1];
    }
  }

  /** `currentIndex > 0 ? poems[currentIndex - 1] : null`. */
  function Prev(ps: seq<Poem>, index: int): (r: Option<Poem>)
    requires -1 <= index < |ps|
    ensures r.Some? <==> index > 0
    ensures r.Some? ==> r.value == ps[index - 1]
  {
    if index > 0 then Some(ps[index - 1]) else None
  }

  /** `currentIndex < poems.length - 1 ? poems[currentIndex + 1] : null`. */
  function Next(ps: seq<Poem>, index: int): (r: Option<Poem>)
    requires -1 <= index < |ps|
    ensures r.Some? <==> index < |ps| - 1
    ensures r.Some? ==> r.value == ps[index + 1]
  {
    if index < |ps| - 1 then Some(ps[index + 1]) else None
  }

  /** What the modal renders: nothing, or the poem with its two neighbours. */
  datatype ModalView = Hidden | Shown(poem: Poem, prev: Option<Poem>, next: Option<Poem>)

  /** The component body: the neighbours are derived first, then `if (!poem) return null`. */
  function View(ps: seq<Poem>, slug: string): (v: ModalView)
    ensures v.Shown? ==> v.poem in ps && v.poem.slug == slug
  {
    FindIndexSpec(ps, slug);
    var poem := FindBySlug(ps, slug);
    var index := FindIndex(ps, slug);
    var prev := Prev(ps, index);
    var next := Next(ps, index);
    if poem.None? then Hidden else Shown(poem.value, prev, next)
  }

  /**
   * The modal renders nothing exactly when no poem has the slug; otherwise it
   * shows the first poem with that slug and its neighbours, and the first poem
   * has no previous poem and the last no next one.
   */
  lemma ViewSpec(ps: seq<Poem>, slug: string)
    ensures View(ps, slug).Hidden? <==> forall i :: 0 <= i < |ps| ==> ps[i].slug != slug
    ensures View(ps, slug).Shown? ==>
              var k := FindIndex(ps, slug);
              && 0 <= k < |ps| && View(ps, slug).poem == ps[k] && ps[k].slug == slug
              && (View(ps, slug).prev.Some? <==> k > 0)
              && (View(ps, slug).next.Some? <==> k < |ps| - 1)
    ensures |ps| > 0 && ps[0].slug == slug ==> View(ps, slug).prev.None?
    ensures |ps| > 0 && ps[|ps| - 1].slug == slug && DistinctSlugs(ps) ==> View(ps, slug).next.None?
  {
    FindIndexSpec(ps, slug);
  }

  /** Without a matching poem the index is -1, and the next neighbour is still computed as the first poem. */
  lemma MissingSlugNextIsFirst(ps: seq<Poem>, slug: string)
    requires |ps| > 0 && forall i :: 0 <= i < |ps| ==> ps[i].slug != slug
    ensures FindIndex(ps, slug) == -1 && Next(ps, -1) == Some(ps[0])
    ensures View(ps, slug) == Hidden
  {
    FindIndexSpec(ps, slug);
  }

  /** With distinct slugs, the position of a poem's slug is the poem's own position. */
  lemma IndexOfDistinct(ps: seq<Poem>, k: int)
    requires DistinctSlugs(ps) && 0 <= k < |ps|
    ensures FindIndex(ps, ps[k].slug) == k
  {
    FindIndexSpec(ps, ps[k].slug);
  }

  /**
   * With distinct slugs, following "Next" and then "Previous" comes back to
   * the same poem, and so does "Previous" followed by "Next".
   */
  lemma NextThenPrev(ps: seq<Poem>, slug: string)
    requires DistinctSlugs(ps)
    ensures View(ps, slug).Shown? && View(ps, slug).next.Some? ==>
              var back := View(ps, View(ps, slug).next.value.slug);
              back.Shown? && back.prev.Some? && back.prev.value.slug == slug
    ensures View(ps, slug).Shown? && View(ps, slug).prev.Some? ==>
              var back := View(ps, View(ps, slug).prev.value.slug);
              back.Shown? && back.next.Some? && back.next.value.slug == slug
  {
    FindIndexSpec(ps, slug);
    var k := FindIndex(ps, slug);
    if k >= 0 {
      if k < |ps| - 1 {
        IndexOfDistinct(ps, k + 1);
        FindIndexSpec(ps, ps[k + 1].slug);
      }
      if k > 0 {
        IndexOfDistinct(ps, k - 1);
        FindIndexSpec(ps, ps[k - 1].slug);
      }
    }
  }

  const PoemsPath: string := "/poems/"

  /** The share link: it starts with the page origin, then `/poems/`, and ends with the slug. */
  function ShareUrl(origin: string, slug: string): (url: string)
    ensures |url| == |origin| + |PoemsPath| + |slug|
    ensures url[..|origin|] == origin && url[|origin| + |PoemsPath|..] == slug
    ensures url[|origin|..|origin| + |PoemsPath|] == PoemsPath
  {
    var url := origin + PoemsPath + slug;
    assert url[..|origin|] == origin;
    assert url[|origin|..|origin| + |PoemsPath|] == PoemsPath;
    assert url[|origin| + |PoemsPath|..] == slug;
    url
  }

  /** Reading a share link back: the part after the origin and `/poems/`. */
  function SlugOfUrl(origin: string, url: string): Option<string>
  {
    if |origin| + |PoemsPath| <= |url| && url[..|origin|] == origin
       && url[|origin|..|origin| + |PoemsPath|] == PoemsPath
    then Some(url[|origin| + |PoemsPath|..])
    else None
  }

  /** A share link starts with the origin and names exactly the slug it was built from. */
  lemma ShareUrlRoundTrip(origin: string, slug: string)
    ensures ShareUrl(origin, slug)[..|origin|] == origin
    ensures SlugOfUrl(origin, ShareUrl(origin, slug)) == Some(slug)
  {
    var url := ShareUrl(origin, slug);
    assert url[..|origin|] == origin;
    assert url[|origin|..|origin| + |PoemsPath|] == PoemsPath;
    assert url[|origin| + |PoemsPath|..] == slug;
  }

  /** On the catalogue: the first poem opens with only a next neighbour, the last with only a previous one. */
  lemma CatalogueEnds()
    ensures View(Poems, "morning-light") == Shown(MorningLight, None, Some(QuietRoads))
    ensures View(Poems, "rain-song") == Shown(RainSong, Some(LettersNeverSent), None)
    ensures View(Poems, "memory") == Hidden
  {
    CatalogueSlugsDistinct();
    IndexOfDistinct(Poems, 0);
    IndexOfDistinct(Poems, 5);
    FindIndexSpec(Poems, "morning-light");
    FindIndexSpec(Poems, "rain-song");
    var ps := Poems;
    assert forall i :: 0 <= i < |ps| ==> ps[i].slug[0] != 'm' || |ps[i].slug| != 6;
    FindIndexSpec(Poems, "memory");
  }
}

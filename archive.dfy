/**
 * The poem archive: the search-and-tag filter over the catalogue, the
 * "Load more" pagination, and the section's three pieces of state.
 */
module Archive {
  import opened Common
  import opened Text
  import opened PoemData

  /** The tag value that switches the tag filter off. */
  const AllTag: string := "all"

  /** How many poems are shown at first, and how many each "Load more" adds. */
  const PageSize: nat := 4

  /** The lowered title or the lowered excerpt includes the lowered query. */
  predicate MatchesSearch(p: Poem, query: string)
  {
    Includes(ToLower(p.title), ToLower(query)) || Includes(ToLower(p.excerpt), ToLower(query))
  }

  /** The tag filter is off, or the poem carries the selected tag. */
  predicate MatchesTag(p: Poem, tag: string)
  {
    tag == AllTag || tag in p.tags
  }

  /**
   * The archive keeps a poem when both the search and the tag filter accept
   * it; with an empty query only the tag decides.
   */
  function Keeps(p: Poem, query: string, tag: string): (keep: bool)
    ensures keep ==> tag == AllTag || tag in p.tags
    ensures query == "" ==> (keep <==> MatchesTag(p, tag))
  {
    assert ToLower("") == "";
    MatchesSearch(p, query) && MatchesTag(p, tag)
  }

  /** `poems.filter(...)`. */
  function Filtered(ps: seq<Poem>, query: string, tag: string): (r: seq<Poem>)
    ensures |r| <= |ps|
  {
    if ps == [] then []
    else if Keeps(ps[0], query, tag) then [ps[0]] + Filtered(ps[1..], query, tag)
    else Filtered(ps[1..], query, tag)
  }

  /**
   * A poem is listed exactly when it is in the catalogue and the filter keeps
   * it, and a kept poem is listed as often as the catalogue holds it.
   */
  lemma {:induction false} FilteredMembers(ps: seq<Poem>, query: string, tag: string)
    ensures forall p :: p in Filtered(ps, query, tag) <==> p in ps && Keeps(p, query, tag)
    ensures forall p :: multiset(Filtered(ps, query, tag))[p] == if Keeps(p, query, tag) then multiset(ps)[p] else 0
  {
    if ps != [] {
      FilteredMembers(ps[1..], query, tag);
      assert ps == [ps[0]] + ps[1..];
    }
  }

  /** The filter keeps the catalogue's order: its result is a subsequence of the catalogue. */
  lemma {:induction false} FilteredIsSubsequence(ps: seq<Poem>, query: string, tag: string)
    ensures IsSubsequence(Filtered(ps, query, tag), ps)
  {
    if ps != [] {
      FilteredIsSubsequence(ps[1..], query, tag);
      var r := Filtered(ps[1..], query, tag);
      if Keeps(ps[0], query, tag) {
        assert ([ps[0]] + r)[1..] == r;
      }
    }
  }

  /** An empty query with the tag filter off lists the whole catalogue. */
  lemma {:induction false} EmptyQueryAllTagKeepsEverything(ps: seq<Poem>)
    ensures Filtered(ps, "", AllTag) == ps
  {
    if ps != [] {
      EmptyQueryAllTagKeepsEverything(ps[1..]);
      assert ps == [ps[0]] + ps[1..];
    }
  }

  /** The filter only sees the query through its lowered form. */
  lemma {:induction false} FilteredByLoweredQuery(ps: seq<Poem>, q1: string, q2: string, tag: string)
    requires ToLower(q1) == ToLower(q2)
    ensures Filtered(ps, q1, tag) == Filtered(ps, q2, tag)
  {
    if ps != [] {
      FilteredByLoweredQuery(ps[1..], q1, q2, tag);
    }
  }

  /** Search ignores letter case: the query lowered or raised lists the same poems. */
  lemma SearchIgnoresCase(ps: seq<Poem>, query: string, tag: string)
    ensures Filtered(ps, ToUpper(query), tag) == Filtered(ps, query, tag)
    ensures Filtered(ps, ToLower(query), tag) == Filtered(ps, query, tag)
  {
    ToLowerOfUpper(query);
    ToLowerIdempotent(query);
    FilteredByLoweredQuery(ps, ToUpper(query), query, tag);
    FilteredByLoweredQuery(ps, ToLower(query), query, tag);
  }

  /** `filteredPoems.slice(0, visibleCount)`: the first `count` poems, or all of them if fewer. */
  function Visible(filtered: seq<Poem>, count: nat): (r: seq<Poem>)
    ensures r <= filtered
    ensures |r| == Min(count, |filtered|)
  {
    if count < |filtered| then filtered[..count] else filtered
  }

  /**
   * `filteredPoems.length > visibleCount`: "Load more" is offered exactly
   * when the shown poems are fewer than the filtered ones.
   */
  function HasMore(filtered: seq<Poem>, count: nat): (more: bool)
    ensures more <==> |Visible(filtered, count)| < |filtered|
  {
    |filtered| > count
  }

  /**
   * With nothing more to load every filtered poem is shown; otherwise exactly
   * `count` are shown and some are held back.
   */
  lemma VisibleAndHasMore(filtered: seq<Poem>, count: nat)
    ensures !HasMore(filtered, count) <==> Visible(filtered, count) == filtered
    ensures HasMore(filtered, count) ==> |Visible(filtered, count)| == count < |filtered|
  {
  }

  /** "Load more" only appends: the poems shown before stay shown, in the same places. */
  lemma LoadMoreExtendsVisible(filtered: seq<Poem>, count: nat)
    ensures Visible(filtered, count) <= Visible(filtered, count + PageSize)
    ensures HasMore(filtered, count) ==> |Visible(filtered, count + PageSize)| > |Visible(filtered, count)|
  {
  }

  /** "No poems found" is shown exactly when the filter keeps no poem of the catalogue. */
  lemma NoResultsIffNothingKept(ps: seq<Poem>, query: string, tag: string)
    ensures Filtered(ps, query, tag) == [] <==> forall p :: p in ps ==> !Keeps(p, query, tag)
  {
    FilteredMembers(ps, query, tag);
    var r := Filtered(ps, query, tag);
    if r != [] {
      assert r[0] in r;
    }
  }

  /** The archive section's state and what it renders from it. */
  class ArchiveView {
    var searchQuery: string
    var selectedTag: string
    var visibleCount: nat

    /** The tag is one of the buttons' and the count is a positive multiple of the page size. */
    ghost predicate Valid()
      reads this
    {
      selectedTag in AllTags && visibleCount >= PageSize && visibleCount % PageSize == 0
    }

    constructor ()
      ensures Valid()
      ensures searchQuery == "" && selectedTag == AllTag && visibleCount == PageSize
    {
      searchQuery := "";
      selectedTag := AllTag;
      visibleCount := PageSize;
    }

    function FilteredPoems(): seq<Poem>
      reads this
    {
      Filtered(Poems, searchQuery, selectedTag)
    }

    /**
     * The cards rendered: a prefix of the filtered poems, and empty exactly
     * when "No poems found" is shown, since at least one page is always visible.
     */
    function VisiblePoems(): (r: seq<Poem>)
      requires Valid()
      reads this
      ensures r <= FilteredPoems()
      ensures r == [] <==> ShowsNoResults()
    {
      Visible(FilteredPoems(), visibleCount)
    }

    /** Whether the "Load more" button is rendered. */
    predicate LoadMoreOffered()
      reads this
    {
      HasMore(FilteredPoems(), visibleCount)
    }

    /** Whether "No poems found" is rendered. */
    predicate ShowsNoResults()
      reads this
    {
      |FilteredPoems()| == 0
    }

    /** Typing in the search box replaces the query and touches nothing else. */
    method SetSearchQuery(query: string)
      requires Valid()
      modifies this
      ensures Valid()
      ensures searchQuery == query
      ensures selectedTag == old(selectedTag) && visibleCount == old(visibleCount)
    {
      searchQuery := query;
    }

    /** A tag button selects its tag; the visible count is not reset. */
    method SelectTag(tag: string)
      requires Valid() && tag in AllTags
      modifies this
      ensures Valid()
      ensures selectedTag == tag
      ensures searchQuery == old(searchQuery) && visibleCount == old(visibleCount)
    {
      selectedTag := tag;
    }

    /** "Load more": `setVisibleCount(prev => prev + 4)`. */
    method LoadMore()
      requires Valid()
      modifies this
      ensures Valid()
      ensures visibleCount == old(visibleCount) + PageSize
      ensures searchQuery == old(searchQuery) && selectedTag == old(selectedTag)
      ensures old(VisiblePoems()) <= VisiblePoems()
    {
      visibleCount := visibleCount + PageSize;
      LoadMoreExtendsVisible(FilteredPoems(), old(visibleCount));
    }
  }

  /** On the catalogue the opening view holds back two of the six poems, and one "Load more" shows them all. */
  lemma CatalogueOpening()
    ensures Filtered(Poems, "", AllTag) == Poems
    ensures HasMore(Poems, PageSize) && Visible(Poems, PageSize) == Poems[..4]
    ensures !HasMore(Poems, PageSize + PageSize) && Visible(Poems, PageSize + PageSize) == Poems
  {
    EmptyQueryAllTagKeepsEverything(Poems);
  }

  /** On the catalogue the "love" button keeps "Small Joys" and "Letters Never Sent". */
  lemma CatalogueLove()
    ensures Filtered(Poems, "", "love") == [SmallJoys, LettersNeverSent]
  {
    var ps := Poems;
    assert forall i :: 0 <= i < |ps| ==> (Keeps(ps[i], "", "love") <==> "love" in ps[i].tags);
    assert !("love" in ps[0].tags) && !("love" in ps[1].tags) && "love" in ps[2].tags;
    assert !("love" in ps[3].tags) && "love" in ps[4].tags && !("love" in ps[5].tags);
    var t5 := ps[5..];
    assert Filtered(t5, "", "love") == [] by { assert t5[1..] == []; }
    assert ps[4..][1..] == t5;
    assert Filtered(ps[4..], "", "love") == [LettersNeverSent];
    assert ps[3..][1..] == ps[4..];
    assert ps[2..][1..] == ps[3..];
    assert Filtered(ps[2..], "", "love") == [SmallJoys, LettersNeverSent];
    assert ps[1..][1..] == ps[2..];
  }

  /** A page-load walk-through: open the archive, pick "love", then load more. */
  method ArchiveWalkThrough()
  {
    var view := new ArchiveView();
    assert view.LoadMoreOffered() by { CatalogueOpening(); }
    view.SelectTag("love");
    assert view.FilteredPoems() == [SmallJoys, LettersNeverSent] by { CatalogueLove(); }
    assert !view.LoadMoreOffered() && view.VisiblePoems() == [SmallJoys, LettersNeverSent];
    view.LoadMore();
    assert view.visibleCount == 8 && view.selectedTag == "love";
  }
}

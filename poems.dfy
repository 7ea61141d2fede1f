/**
 * The site's static poem catalogue: the `Poem` record, the six published
 * poems in list order (newest first) and the tag buttons the archive offers.
 */
module PoemData {

  /** One poem. Every field is a string except `tags`. */
  datatype Poem = Poem(
    id: string,
    slug: string,
    title: string,
    excerpt: string,
    content: string,
    date: string,
    tags: seq<string>,
    image: string,
    readTime: string)

  /** The catalogue, in the order the site lists it. */
  const Poems: seq<Poem> := [MorningLight, QuietRoads, SmallJoys, EveningHush, LettersNeverSent, RainSong]

  /** Poem 1, "Morning Light". */
  const MorningLight: Poem := Poem(
    id := "1",
    slug := "morning-light",
    title := "Morning Light",
    excerpt := "The valley wakes in gold, as dawn unfolds her tender wings...",
    content := MorningLightText,
    date := "2026-01-15",
    tags := ["nature", "morning", "hope"],
    image := "/images/poem-card-1.jpg",
    readTime := "2 min")

  const MorningLightText: string :=
    "The valley wakes in gold,\nAs dawn unfolds her tender wings.\nThe mist, a silver veil,\nReveals what night had hid.\n\nEach blade of grass holds dew,\nA universe in miniature.\nThe birds begin their song,\nA chorus old as time.\n\nI stand at edge of day,\nMy shadow long and lean.\nThe sun climbs slow and sure,\nTo warm the waking world.\n\nIn this quiet hour,\nBefore the rush begins,\nI find my words take flight,\nLike birds on morning breeze."

  /** Poem 2, "Quiet Roads". */
  const QuietRoads: Poem := Poem(
    id := "2",
    slug := "quiet-roads",
    title := "Quiet Roads",
    excerpt := "Dust settles where the footsteps fade, on paths that wind through memory...",
    content := QuietRoadsText,
    date := "2026-01-08",
    tags := ["memory", "nature", "pain"],
    image := "/images/poem-card-2.jpg",
    readTime := "2 min")

  const QuietRoadsText: string :=
    "Dust settles where the footsteps fade,\nOn paths that wind through memory.\nThe old road knows my name,\nThough I have been away.\n\nEach crack tells stories,\nOf journeys made and lost.\nThe stones hold warmth still,\nFrom summer suns long past.\n\nI walk these quiet roads,\nWhere silence is a friend.\nThe trees lean in to listen,\nAs if they understand.\n\nWhat words I leave behind,\nAre carried by the wind.\nTo places I may never see,\nBut somehow still belong."

  /** Poem 3, "Small Joys". */
  const SmallJoys: Poem := Poem(
    id := "3",
    slug := "small-joys",
    title := "Small Joys",
    excerpt := "A cup, a window, a moment stolen from the rushing day...",
    content := SmallJoysText,
    date := "2026-01-01",
    tags := ["love", "morning", "hope"],
    image := "/images/poem-card-3.jpg",
    readTime := "2 min")

  const SmallJoysText: string :=
    "A cup, a window, a moment stolen\nFrom the rushing day.\nSteam rises like a prayer,\nTo the quiet morning light.\n\nThe world outside moves fast,\nBut here, time slows its pace.\nI count the small joys:\nWarmth, light, the simple grace.\n\nA bird upon the sill,\nA song without demand.\nThe coffee tastes of earth,\nGround fine by careful hands.\n\nThese moments make a life,\nNot grand, but deeply true.\nIn small joys, I find\nThe meaning of the days."

  /** Poem 4, "Evening Hush". */
  const EveningHush: Poem := Poem(
    id := "4",
    slug := "evening-hush",
    title := "Evening Hush",
    excerpt := "The day exhales its final breath, in colors painted on the sky...",
    content := EveningHushText,
    date := "2025-12-25",
    tags := ["nature", "evening", "hope"],
    image := "/images/poem-card-1.jpg",
    readTime := "2 min")

  const EveningHushText: string :=
    "The day exhales its final breath,\nIn colors painted on the sky.\nThe sun dips low and slow,\nTo kiss the distant hills.\n\nShadows stretch and yawn,\nAs darkness tiptoes in.\nThe first star wakes and blinks,\nA diamond in the dim.\n\nI watch the world grow still,\nAs evening holds her hush.\nThe noise of day recedes,\nLike waves upon the shore.\n\nIn this between of times,\nNeither day nor night,\nI find the words that hide,\nIn ordinary light."

  /** Poem 5, "Letters Never Sent". */
  const LettersNeverSent: Poem := Poem(
    id := "5",
    slug := "letters-never-sent",
    title := "Letters Never Sent",
    excerpt := "I write to you in silence, words that never find the mail...",
    content := LettersNeverSentText,
    date := "2025-12-18",
    tags := ["love", "pain"],
    image := "/images/poem-card-2.jpg",
    readTime := "2 min")

  const LettersNeverSentText: string :=
    "I write to you in silence,\nWords that never find the mail.\nEach letter holds a heart,\nThat beats beneath the ink.\n\nI tell you of my days,\nThe small and large events.\nI share my fears, my hopes,\nMy dreams of what could be.\n\nThese pages know your name,\nThough you may never read.\nThey hold the love I carry,\nLike stones within my chest.\n\nPerhaps one day I'll send them,\nOr burn them in the fire.\nFor now, they rest in drawers,\nMy letters never sent."

  /** Poem 6, "Rain Song". */
  const RainSong: Poem := Poem(
    id := "6",
    slug := "rain-song",
    title := "Rain Song",
    excerpt := "The sky opens its heart, and weeps upon the thirsty earth...",
    content := RainSongText,
    date := "2025-12-11",
    tags := ["nature", "hope"],
    image := "/images/poem-card-3.jpg",
    readTime := "2 min")

  const RainSongText: string :=
    "The sky opens its heart,\nAnd weeps upon the thirsty earth.\nEach drop a note of music,\nIn nature's symphony.\n\nThe roof becomes a drum,\nThe windows weep with mist.\nThe world turns soft and gray,\nIn rain's gentle embrace.\n\nI stand beneath the eaves,\nAnd listen to the song.\nThe rain speaks ancient tongues,\nOf renewal and of rest.\n\nIn this wet symphony,\nI find my soul refreshed.\nThe rain washes clean,\nWhat time had made a mess."

  /** The archive's tag buttons; `"all"` switches the tag filter off. */
  const AllTags: seq<string> := ["all", "nature", "love", "hope", "pain", "morning", "evening"]

  /** No two poems of `ps` share a slug, so a slug names at most one poem. */
  predicate DistinctSlugs(ps: seq<Poem>)
  {
    forall i, j :: 0 <= i < j < |ps| ==> ps[i].slug != ps[j].slug
  }

  predicate IsDigit(c: char) { '0' <= c <= '9' }

  /** `d` has the shape `YYYY-MM-DD`. */
  predicate IsIsoDate(d: string)
  {
    |d| == 10 && d[4] == '-' && d[7] == '-' &&
    forall i :: 0 <= i < 10 && i != 4 && i != 7 ==> IsDigit(d[i])
  }

  /**
   * Lexicographic order on strings: `a` and `b` agree up to position `k`, where
   * either `a` ends first or `a` has the smaller character. On `YYYY-MM-DD`
   * strings it is calendar order.
   */
  predicate StrictlyBefore(a: string, b: string)
  {
    exists k :: 0 <= k <= |a| && k <= |b| && a[..k] == b[..k] && DiffersAt(a, b, k)
  }

  /** At position `k`, `a` is the first to end or has the smaller character. */
  predicate DiffersAt(a: string, b: string, k: nat)
  {
    (k == |a| && k < |b|) || (k < |a| && k < |b| && a[k] < b[k])
  }

  /** No string comes strictly before itself. */
  lemma StrictlyBeforeIrreflexive(a: string)
    ensures !StrictlyBefore(a, a)
  {
  }

  /** Lexicographic order is transitive, so a list ordered pairwise is ordered throughout. */
  lemma StrictlyBeforeTransitive(a: string, b: string, c: string)
    requires StrictlyBefore(a, b) && StrictlyBefore(b, c)
    ensures StrictlyBefore(a, c)
  {
    var k1 :| 0 <= k1 <= |a| && k1 <= |b| && a[..k1] == b[..k1] && DiffersAt(a, b, k1);
    var k2 :| 0 <= k2 <= |b| && k2 <= |c| && b[..k2] == c[..k2] && DiffersAt(b, c, k2);
    var k := if k1 <= k2 then k1 else k2;
    assert a[..k] == a[..k1][..k] == b[..k1][..k] == b[..k];
    assert b[..k] == b[..k2][..k] == c[..k2][..k] == c[..k];
    if k1 < k2 {
      assert b[k1] == c[k1] by { assert b[..k2][k1] == c[..k2][k1]; }
    } else if k2 < k1 {
      assert a[k2] == b[k2] by { assert a[..k1][k2] == b[..k1][k2]; }
    }
    assert DiffersAt(a, c, k);
  }

  /** Two strings that agree before position `k` and differ upwards at `k` are ordered. */
  lemma BeforeAt(a: string, b: string, k: nat)
    requires k < |a| && k < |b| && a[..k] == b[..k] && a[k] < b[k]
    ensures StrictlyBefore(a, b)
  {
  }

  /** The catalogue holds six poems whose ids are "1" to "6" in list order. */
  lemma CatalogueIds()
    ensures |Poems| == 6
    ensures forall i :: 0 <= i < |Poems| ==> Poems[i].id == [('1' as int + i) as char]
  {
  }

  /** Slugs are pairwise distinct. */
  lemma CatalogueSlugsDistinct()
    ensures DistinctSlugs(Poems)
  {
  }

  /** Every date is an ISO `YYYY-MM-DD` string. */
  lemma CatalogueDatesIso()
    ensures forall i :: 0 <= i < |Poems| ==> IsIsoDate(Poems[i].date)
  {
    CatalogueDatesAre();
    var ds := CatalogueDates;
    assert IsIsoDate(ds[0]) && IsIsoDate(ds[1]) && IsIsoDate(ds[2]);
    assert IsIsoDate(ds[3]) && IsIsoDate(ds[4]) && IsIsoDate(ds[5]);
  }

  /** The dates of `ps`, in list order. */
  function DatesOf(ps: seq<Poem>): (ds: seq<string>)
    ensures |ds| == |ps| && forall i :: 0 <= i < |ps| ==> ds[i] == ps[i].date
  {
    seq(|ps|, i requires 0 <= i < |ps| => ps[i].date)
  }

  /** Each date is strictly before the one listed above it. */
  predicate Descending(ds: seq<string>)
  {
    forall i :: 0 < i < |ds| ==> StrictlyBefore(ds[i], ds[i - 1])
  }

  const CatalogueDates: seq<string> :=
    ["2026-01-15", "2026-01-08", "2026-01-01", "2025-12-25", "2025-12-18", "2025-12-11"]

  lemma CatalogueDatesAre()
    ensures DatesOf(Poems) == CatalogueDates
  {
  }

  /** A list ordered neighbour by neighbour is ordered throughout, so no value repeats. */
  lemma {:induction false} DescendingAll(ds: seq<string>, i: nat, j: nat)
    requires Descending(ds) && i < j < |ds|
    ensures StrictlyBefore(ds[j], ds[i]) && ds[i] != ds[j]
    decreases j - i
  {
    if j > i + 1 {
      DescendingAll(ds, i, j - 1);
      StrictlyBeforeTransitive(ds[j], ds[j - 1], ds[i]);
    }
    StrictlyBeforeIrreflexive(ds[j]);
  }

  /**
   * The list runs strictly from the newest date to the oldest: every poem is
   * dated before each poem listed above it, and no two share a date.
   */
  lemma CatalogueDatesDescending()
    ensures Descending(DatesOf(Poems))
    ensures forall i, j :: 0 <= i < j < |Poems| ==>
              StrictlyBefore(Poems[j].date, Poems[i].date) && Poems[i].date != Poems[j].date
  {
    CatalogueDatesAre();
    DatesInOrder();
    var ds := DatesOf(Poems);
    forall i, j | 0 <= i < j < |Poems|
      ensures StrictlyBefore(Poems[j].date, Poems[i].date) && Poems[i].date != Poems[j].date
    {
      DescendingAll(ds, i, j);
    }
  }

  /** The six dates of the catalogue, pairwise in order. */
  lemma DatesInOrder()
    ensures Descending(CatalogueDates)
  {
    BeforeAt("2026-01-08", "2026-01-15", 8);
    BeforeAt("2026-01-01", "2026-01-08", 9);
    BeforeAt("2025-12-25", "2026-01-01", 3);
    BeforeAt("2025-12-18", "2025-12-25", 8);
    BeforeAt("2025-12-11", "2025-12-18", 9);
  }

  /** Every poem carries at least one tag. */
  lemma CatalogueTagged()
    ensures forall i :: 0 <= i < |Poems| ==> |Poems[i].tags| > 0
  {
  }

  /** The tag buttons start with "all" and hold six further tags. */
  lemma TagButtonsShape()
    ensures |AllTags| == 7 && AllTags[0] == "all"
    ensures forall k :: 0 < k < |AllTags| ==> AllTags[k] != "all"
  {
  }

  /** Every button after "all" names a tag that some poem carries. */
  lemma TagButtonsUsed()
    ensures forall k :: 1 <= k < |AllTags| ==> exists i :: 0 <= i < |Poems| && AllTags[k] in Poems[i].tags
  {
    assert AllTags[1] in Poems[0].tags && AllTags[2] in Poems[2].tags && AllTags[3] in Poems[0].tags;
    assert AllTags[4] in Poems[1].tags && AllTags[5] in Poems[0].tags && AllTags[6] in Poems[3].tags;
  }

  /** "memory" (a tag of "Quiet Roads") is the one poem tag without a button. */
  lemma MemoryTagHasNoButton()
    ensures "memory" in Poems[1].tags && "memory" !in AllTags
    ensures forall i, t :: 0 <= i < |Poems| && t in Poems[i].tags ==> t in AllTags || t == "memory"
  {
  }
}

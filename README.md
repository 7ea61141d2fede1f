# Sunrise Verse: a Dafny model of the site's scroll snapping, archive and forms

Sunrise Verse is a single-page poetry site. Its sections are pinned one after
another on a long scroll, and scroll snapping settles the page inside them.
This project models the parts of the site that compute something:

- **Scroll snapping** (`Snap`, `SiteSnap`, `AppSnap`). A snap resolver maps a
  scroll progress in [0, 1] either to the centre of a pinned section or back
  to itself. It is built from the pinned triggers, sorted by start.
  - The app shell (`app/src/App.tsx`) installs one nearest-centre resolver.
  - The root page (`src/App.tsx`) installs the same resolver, plus a second,
    first-match resolver next to it.
  - The model covers both setup effects, their guards (not loaded, reduced
    motion, no scroll extent, nothing pinned) and both resolvers.
- **The poem catalogue** (`PoemData`): the six poems, in list order, and the
  archive's tag buttons.
- **The archive** (`Archive`): the case-insensitive search over title and
  excerpt, the tag filter, the "Load more" pagination in steps of four, and
  the "No poems found" message. The section's three state variables form the
  class `ArchiveView`.
- **The poem modal** (`Modal`): a slug picks the poem to show and its previous
  and next neighbours, or nothing is rendered. The modal also builds the share
  link.
- **The newsletter and contact forms** (`Newsletter`, `Contact`): the field
  checks and the sequence idle → submitting → subscribed/sent. Each form is a
  class whose methods update its fields.

Modelling choices:

- Scroll positions are exact `real`s.
- `Array.prototype.sort` with the comparator `a.start - b.start` is modelled
  as an insertion sort (`Snap.SortByStart`). It is proved stable: triggers
  with equal starts keep their registration order (`Snap.SortByStartStable`).
- `reduce` with a strict `<` keeps the earliest of several equally near
  centres (`Snap.FirstNearest`).
- `x ?? y` and truthiness `x ? … : …` are kept apart. A missing end is
  `None`; a truthy end is present and non-zero.
- `toLowerCase` works on ASCII letters only. `includes` is a left-to-right scan,
  proved equal to "the needle occurs at some position".

Once the progress is inside any buffered range, the nearest-centre `snapTo`
(`src/App.tsx:68-81`, `app/src/App.tsx:68-81`) takes the nearest centre over
all ranges. So it need not pick the range that contains the progress.
`Snap.NearestMayLeaveContainingRange` gives such an input.

The app shell's own data module is not part of this model. `src/data/poems.ts`
stands in for it.

## Model

| member | source | states |
|---|---|---|
| Snap.Dist | src/App.tsx:76 | the distance is never negative, and it is zero exactly when the two points coincide |
| Snap.KeepPinned | src/App.tsx:51-52 | a trigger is kept exactly when it is among the registered triggers and pins; each pinning trigger is kept as often as it occurs, and the result is a subsequence of the registered list |
| Snap.InsertByStartCorrect | src/App.tsx:53 | inserting into a start-sorted list keeps it sorted and adds exactly that one trigger |
| Snap.SortByStart | src/App.tsx:53 | the sort result is ordered by start and is a permutation of its input |
| Snap.InsertByStartStable | src/App.tsx:53 | an inserted trigger goes ahead of every trigger that starts where it does, and their order is kept |
| Snap.SortByStartStable | src/App.tsx:53 | the sort is stable: triggers sharing a start keep their registration order |
| Snap.Pinned | src/App.tsx:51-53 | the pinned list is sorted by start and is a permutation of the filtered list |
| Snap.PinnedCorrect | src/App.tsx:51-53 | the pinned list is sorted by start, holds each pinning trigger as often as the registered list does and no other trigger, and holds a trigger exactly when it pins |
| Snap.PinnedEmpty | src/App.tsx:56 | the pinned list is empty exactly when no trigger pins |
| Snap.RangesOf | src/App.tsx:58-62 | one range per pinned trigger, in the same order, each from that trigger's bounds over the extent |
| Snap.RangeOf | src/App.tsx:58-62 | with a positive extent, and an end no earlier than the start, the centre lies between the bounds and is their midpoint |
| Snap.RangesOfPinned | src/App.tsx:51-62 | with a positive extent, ranges built from the sorted pinned list have ascending starts; when in addition every trigger ends no earlier than it starts, each range is well formed |
| Snap.NearestSnapToSpec | src/App.tsx:66-82 | outside every buffered range the progress is returned unchanged; inside one, the result is the centre of the first range whose centre is nearest over all ranges (tie goes to the earlier range) |
| Snap.Closest | src/App.tsx:74-80 | the fold ends at its initial value or at one of the centres |
| Snap.NearestSnapTo | src/App.tsx:66-82 | outside every buffered range the progress is returned unchanged; inside one, the result is always some range's centre |
| Snap.NearestSnapToIdempotent | src/App.tsx:66-82 | for any ranges, snapping an already snapped progress does not move it |
| Snap.NearestEffect | src/App.tsx:43-62 | the resolver is installed exactly when the page has loaded, reduced motion is off, the extent is non-zero and some trigger pins; it closes over the normalised ranges of the sorted pinned list |
| Snap.NearestExample | src/App.tsx:66-82 | with sections 0.10–0.30 and 0.50–0.70: 0.40 stays, 0.28 goes to 0.20, 0.52 goes to 0.60 |
| Snap.NearestMayLeaveContainingRange | src/App.tsx:66-82 | a progress inside only the first range's buffer still snaps to the second range's centre, because that centre is nearer |
| SiteSnap.ExtentOrOne | src/App.tsx:117 | the divisor is never zero, and it is the live extent whenever that is non-zero |
| SiteSnap.SpansAsWritten | src/App.tsx:116-119 | one span per pinned trigger, built as the code writes it: a missing or zero end falls back to the raw pixel start |
| SiteSnap.SpansOf | src/App.tsx:116-119 | one span per pinned trigger, with both bounds normalised by the live extent |
| SiteSnap.SpansAgreeWithTruthyEnds | src/App.tsx:118 | when every pinned trigger has a non-zero end, the as-written and the normalised spans are equal |
| SiteSnap.FirstMatch | src/App.tsx:122-130 | the result is the progress itself or the midpoint of a span near it |
| SiteSnap.FirstMatchSpec | src/App.tsx:122-130 | with no span near the progress it is returned unchanged; otherwise the result is the midpoint of the first near span |
| SiteSnap.FirstMatchSnapTo | src/App.tsx:114-131 | the loop with its early return yields the first-match value |
| SiteSnap.FirstMatchIdempotentWhenSeparated | src/App.tsx:122-130 | for any spans, reversed bounds included, whose buffered extents do not overlap, snapping a snapped progress again does not move it |
| SiteSnap.FirstMatchNotIdempotentWhenOverlapping | src/App.tsx:122-130 | with overlapping buffered spans, a snapped progress (0.23) moves again (to 0.10) |
| SiteSnap.MidIsCentre | src/App.tsx:126 | for any trigger and non-zero extent, the midpoint of the normalised span (`SpanOf`) is the nearest-centre resolver's centre for the same trigger; the span as written (`SpanAsWritten`) has that midpoint when the trigger's end is present and non-zero |
| SiteSnap.FirstMatchStaysInDocument | src/App.tsx:116-130 | with triggers inside the document and a progress in [0, 1], the normalised first-match result is again in [0, 1] |
| SiteSnap.AsWrittenEndNotNormalised | src/App.tsx:118 | a pinned trigger at 1000px with no end on a 5000px page gives the span [0.2, 1000] and sends 0.9 to 500.1; normalised, the span is [0.2, 0.2] and 0.9 stays |
| SiteSnap.FirstMatchEffect | src/App.tsx:98-110 | the first-match resolver is installed exactly when the page has loaded, reduced motion is off, the extent is positive and some trigger pins; it closes over the sorted pinned list |
| SiteSnap.SiteSnaps | src/App.tsx:43-143 | at most two resolvers; none before load or under reduced motion; a first-match one only as the last entry and only at positive extent |
| SiteSnap.Resolve | src/App.tsx:66-131 | a nearest-centre trigger answers the progress outside every buffered range and a centre inside one; a first-match trigger answers the progress or the midpoint of a span near the progress, over the corrected spans |
| SiteSnap.SiteSnapsCases | src/App.tsx:43-143 | the page registers nothing before load, under reduced motion, at zero extent or with nothing pinned; two competing resolvers at positive extent; only the nearest-centre one at negative extent |
| SiteSnap.FirstMatchExample | src/App.tsx:122-130 | with sections 0.10–0.30 and 0.50–0.70: 0.40 stays, 0.28 goes to 0.20, 0.52 goes to 0.60 |
| SiteSnap.ExamplePinned | src/App.tsx:51-53 | from three unsorted triggers, one of them unpinned, the pinned list is the two pinning ones, the earlier start first |
| SiteSnap.ExampleRangesOf | src/App.tsx:58-62 | the example's ranges on a 1000px page are 0.10–0.30 and 0.50–0.70, centred at 0.20 and 0.60 |
| SiteSnap.ExampleSpansOf | src/App.tsx:116-119 | the example's first-match spans on a 1000px page are 0.10–0.30 and 0.50–0.70, whether built as written or normalised |
| SiteSnap.ExampleNearestEffect | src/App.tsx:43-62 | the example's nearest-centre setup installs one resolver over those ranges |
| SiteSnap.ExampleFirstMatchEffect | src/App.tsx:98-110 | the example's first-match setup installs one resolver over the sorted pinned list |
| SiteSnap.SiteExampleSnaps | src/App.tsx:43-143 | the example page registers the nearest-centre resolver first and the first-match one second |
| SiteSnap.SiteExample | src/App.tsx:43-143 | from three unsorted triggers, one of them unpinned: both registered resolvers agree on 0.40, 0.28 and 0.52 |
| AppSnap.AppSnaps | app/src/App.tsx:43-96 | at most one resolver, present exactly when loaded, not reduced, extent non-zero and something pins; always the nearest-centre one |
| AppSnap.AppSnapsArePrefixOfSite | app/src/App.tsx:43-96 | the app shell registers exactly the root page's first resolver, and never the first-match one |
| AppSnap.AppSnapSettles | app/src/App.tsx:58-82 | for any triggers and extent, the app's resolver leaves flowing positions alone, otherwise returns a pinned centre, and is idempotent |
| PoemData.CatalogueIds | src/data/poems.ts:13-188 | six poems, with ids "1" to "6" in list order |
| PoemData.CatalogueSlugsDistinct | src/data/poems.ts:13-188 | no two poems share a slug |
| PoemData.CatalogueDatesIso | src/data/poems.ts:13-188 | every date has the form YYYY-MM-DD |
| PoemData.CatalogueDatesAre | src/data/poems.ts:13-188 | the poems' dates in list order are 2026-01-15 down to 2025-12-11 |
| PoemData.CatalogueDatesDescending | src/data/poems.ts:13-188 | each poem's date is strictly earlier than the date of every poem listed before it, and no two poems share a date |
| PoemData.DatesInOrder | src/data/poems.ts:13-188 | the six catalogue dates are strictly descending in lexicographic (calendar) order |
| PoemData.CatalogueTagged | src/data/poems.ts:13-188 | every poem carries at least one tag |
| PoemData.TagButtonsShape | src/data/poems.ts:190 | seven buttons, "all" first and nowhere else |
| PoemData.TagButtonsUsed | src/data/poems.ts:13-190 | every button after "all" names a tag that some poem carries |
| PoemData.MemoryTagHasNoButton | src/data/poems.ts:13-190 | "memory" is carried by "Quiet Roads" but has no button, and every other poem tag has one |
| Text.ToLower | app/src/sections/PoemArchiveSection.tsx:30-31 | lowering keeps the length and lowers each character in place |
| Text.ToLowerIdempotent | app/src/sections/PoemArchiveSection.tsx:30-31 | a lowered string has no upper-case letter, and lowering it again changes nothing |
| Text.ToLowerOfUpper | app/src/sections/PoemArchiveSection.tsx:30-31 | raising and then lowering gives the same as lowering |
| Text.IncludesSpec | app/src/sections/PoemArchiveSection.tsx:30-31 | the scan is true exactly when the needle occurs at some position of the text |
| Text.Includes | app/src/sections/PoemArchiveSection.tsx:30-31 | every text includes the empty query, and no text includes a longer needle |
| Text.IncludesChar | src/sections/NewsletterSection.tsx:78 | including the one-character string is containing that character |
| Archive.Keeps | app/src/sections/PoemArchiveSection.tsx:29-34 | a kept poem is one the tag filter accepts, and with an empty query the tag filter alone decides |
| Archive.Filtered | app/src/sections/PoemArchiveSection.tsx:29-34 | the filtered list is never longer than the catalogue |
| Archive.FilteredMembers | app/src/sections/PoemArchiveSection.tsx:29-34 | a poem is listed exactly when it is in the catalogue and matches both the search and the tag, and a kept poem is listed as often as the catalogue holds it |
| Archive.FilteredIsSubsequence | app/src/sections/PoemArchiveSection.tsx:29-34 | the filter keeps the catalogue's order: its result is a subsequence of the catalogue |
| Archive.EmptyQueryAllTagKeepsEverything | app/src/sections/PoemArchiveSection.tsx:25-34 | in the initial state (empty query, tag "all") the whole catalogue is listed |
| Archive.FilteredByLoweredQuery | app/src/sections/PoemArchiveSection.tsx:30-31 | two queries with the same lowered form list the same poems |
| Archive.SearchIgnoresCase | app/src/sections/PoemArchiveSection.tsx:30-31 | the query raised or lowered lists the same poems as the query itself |
| Archive.Visible | app/src/sections/PoemArchiveSection.tsx:36 | the shown poems are a prefix of the filtered list, of length min(count, filtered length) |
| Archive.HasMore | app/src/sections/PoemArchiveSection.tsx:37 | "Load more" is offered exactly when fewer poems are shown than the filter keeps |
| Archive.VisibleAndHasMore | app/src/sections/PoemArchiveSection.tsx:36-37 | "Load more" is hidden exactly when every filtered poem is shown; when it is offered, exactly `count` poems are shown |
| Archive.LoadMoreExtendsVisible | app/src/sections/PoemArchiveSection.tsx:187-190 | loading four more keeps the shown poems as a prefix, and shows strictly more when more were held back |
| Archive.NoResultsIffNothingKept | app/src/sections/PoemArchiveSection.tsx:199-203 | "No poems found" appears exactly when no catalogue poem passes the filter |
| Archive.ArchiveView.constructor | app/src/sections/PoemArchiveSection.tsx:25-27 | the archive starts with an empty query, tag "all" and four visible poems |
| Archive.ArchiveView.VisiblePoems | app/src/sections/PoemArchiveSection.tsx:36 | the cards rendered are a prefix of the filtered poems, and there are none exactly when "No poems found" is shown |
| Archive.ArchiveView.SetSearchQuery | app/src/sections/PoemArchiveSection.tsx:114 | typing replaces the query and leaves the tag and the count alone |
| Archive.ArchiveView.SelectTag | app/src/sections/PoemArchiveSection.tsx:120-123 | a tag button selects its tag and does not reset the count or the query |
| Archive.ArchiveView.LoadMore | app/src/sections/PoemArchiveSection.tsx:190 | the count grows by four, nothing else changes, and the poems shown before stay shown, in the same places |
| Archive.CatalogueOpening | app/src/sections/PoemArchiveSection.tsx:25-37 | on the catalogue, the opening view shows four of six poems with "Load more"; after one click all six show and the button is gone |
| Archive.CatalogueLove | app/src/sections/PoemArchiveSection.tsx:29-34 | on the catalogue, the "love" button lists "Small Joys" and "Letters Never Sent", in that order |
| Modal.FindBySlug | app/src/components/PoemModal.tsx:17 | a found poem is in the catalogue and has the slug; nothing is found exactly when no poem has the slug |
| Modal.FindIndex | app/src/components/PoemModal.tsx:18 | the index is -1 or a position in the list, and a position found holds a poem with the slug |
| Modal.FindIndexSpec | app/src/components/PoemModal.tsx:17-18 | the index is -1 exactly when no poem has the slug; otherwise it is the first position that does, and `find` returns the poem there |
| Modal.Prev | app/src/components/PoemModal.tsx:19 | there is a previous poem exactly when the index is positive, and it is the poem just before |
| Modal.Next | app/src/components/PoemModal.tsx:20 | there is a next poem exactly when the index is before the last, and it is the poem just after |
| Modal.View | app/src/components/PoemModal.tsx:17-78 | a shown poem is in the catalogue and carries the slug |
| Modal.ViewSpec | app/src/components/PoemModal.tsx:17-78 | the modal renders nothing exactly when no poem has the slug; otherwise it shows the first poem bearing it and its neighbours; the first poem has no previous one, and the last no next one |
| Modal.MissingSlugNextIsFirst | app/src/components/PoemModal.tsx:18-20 | for an unknown slug in a non-empty list the index is -1 and the computed "next" is the first poem, yet nothing is rendered |
| Modal.IndexOfDistinct | app/src/components/PoemModal.tsx:18 | with distinct slugs, a slug's index is its poem's position |
| Modal.NextThenPrev | app/src/components/PoemModal.tsx:169-191 | with distinct slugs, "Next" then "Previous" returns to the same poem, and so does "Previous" then "Next" |
| Modal.ShareUrl | app/src/components/PoemModal.tsx:60 | the link starts with the origin, continues with `/poems/` and ends with the slug |
| Modal.ShareUrlRoundTrip | app/src/components/PoemModal.tsx:60 | the share link starts with the origin, and reading it back yields exactly the slug |
| Modal.CatalogueEnds | app/src/components/PoemModal.tsx:17-20 | on the catalogue, the first poem has only a next neighbour, the last only a previous one, and an unknown slug renders nothing |
| Newsletter.AcceptsEmail | src/sections/NewsletterSection.tsx:78 | an address is accepted exactly when it contains an "@" |
| Newsletter.AcceptsEmailExamples | src/sections/NewsletterSection.tsx:78 | "@" and "reader@example.org" are accepted |
| Newsletter.RejectsEmailExamples | src/sections/NewsletterSection.tsx:78 | the empty address and "reader.example" are rejected |
| Newsletter.NewsletterForm.constructor | src/sections/NewsletterSection.tsx:22-24 | the form starts with an empty address and both flags clear |
| Newsletter.NewsletterForm.SetEmail | src/sections/NewsletterSection.tsx:130 | typing replaces the address; the flags stay |
| Newsletter.NewsletterForm.Submit | src/sections/NewsletterSection.tsx:76-83 | a rejected address changes nothing and stays idle; an accepted one starts submitting; the address is untouched |
| Newsletter.NewsletterForm.FinishSubmit | src/sections/NewsletterSection.tsx:86-89 | a pending submission ends subscribed, and the form gives way to the confirmation |
| Contact.Set | src/sections/ContactSection.tsx:143-169 | the edited field reads back as the new value |
| Contact.SetSpec | src/sections/ContactSection.tsx:143-169 | an edit sets exactly its own field and leaves the other three as they were |
| Contact.Accepts | src/sections/ContactSection.tsx:94 | the form is accepted exactly when name, e-mail and message are all non-empty |
| Contact.AcceptsIgnoresReasonAndEmailShape | src/sections/ContactSection.tsx:94 | the reason never changes the verdict, an e-mail without "@" passes, and the initial form is refused |
| Contact.ContactForm.constructor | src/sections/ContactSection.tsx:23-30 | the form starts empty, with reason "general" and both flags clear |
| Contact.ContactForm.Edit | src/sections/ContactSection.tsx:143-169 | an edit updates exactly one field of the record; the flags stay |
| Contact.ContactForm.Submit | src/sections/ContactSection.tsx:92-99 | an incomplete form changes nothing and stays idle; a complete one starts submitting; the record is untouched |
| Contact.ContactForm.FinishSubmit | src/sections/ContactSection.tsx:102-105 | a pending submission ends sent, and the form gives way to the confirmation |

## Left out

- GSAP timelines, scroll-linked animations and the day/night colour cycle
  (`src/App.tsx:145` onwards): these are visual effects.
- ScrollTrigger itself. The registered triggers and the extent are parameters;
  `ScrollTrigger.create`, its easing, durations and inertia are not modelled.
- The setup timers (100 ms, 500 ms, 800 ms), and the order in which two
  resolvers registered on the same page act on one scroll: GSAP's scheduling
  is not visible here. `SiteSnap.SiteSnapsCases` only records that both are
  registered.
- `lib/gsap.ts`, the sound toggle, the flying birds, the navigation and the
  logo: no logic the core depends on.
- Toasts, `alert`, `navigator.share` and the clipboard in the share handler.
  Only the link the handler builds is modelled.
- The simulated 1.2 s request in both forms. It becomes the separate
  `FinishSubmit` step.
- Browser-side `type="email"` validation, which the handler does not rely on.
- Newsletter.NewsletterForm.Submit: requires that the form is rendered and the
  button enabled, because the page only runs the handler then. The model does
  not capture a second submit racing a pending one.
- Contact.ContactForm.Submit: the same precondition, for the same reason.
- Contact.ContactForm.Edit: a reason edit must be one of the select's options,
  because the select only offers those.
- Archive.ArchiveView.SelectTag: the tag must be one of the buttons' tags,
  because only the buttons set it.
- Floating point. Progress values are exact reals, so rounding, `NaN` and
  infinite extents are not modelled; `!maxScroll` is treated as
  `maxScroll == 0`.
- Unicode case mapping. `toLowerCase` is modelled on ASCII letters only. The
  query is typed by the reader, and JavaScript also lowers other letters
  (the Kelvin sign U+212A lowers to "k"). Such queries are not modelled.
- Date formatting, read times and images in the poem cards, and all rendering
  (JSX, styles). The poems' full texts are kept as data only.
- The app shell's own copy of the catalogue is not part of this model; its
  archive and modal are modelled over `src/data/poems.ts`.
- SiteSnap.MidIsCentre: the equality with the nearest-centre centre is stated
  for the normalised span. For an end-less or zero-end trigger, the midpoint
  as written differs (`SiteSnap.AsWrittenEndNotNormalised`: 500.1 against
  0.2), so it is promised for the as-written span only when the end is truthy.
- SiteSnap.Resolve: a first-match trigger answers over the corrected spans
  (`SpansOf`), not over line 118 as written (`SpansAsWritten`). The two agree
  whenever every pinned trigger has a non-zero end
  (`SiteSnap.SpansAgreeWithTruthyEnds`). When a trigger has none, the answer
  as written is the one `SiteSnap.AsWrittenEndNotNormalised` exhibits.
- SiteSnap.Resolve: the first-match `snapTo` re-reads `st.start` and `st.end`
  from the live trigger objects each time it runs (`src/App.tsx:116-118`). The
  model fixes them when the resolver is registered (`FirstMatchOver`), because
  ScrollTrigger's refresh of those objects is not modelled. Only the extent is
  re-read.

## Findings

| source | as written | input that shows it | evidently intended | confidence | as-written member | corrected member |
|---|---|---|---|---|---|---|
| src/App.tsx:118 | `end: st.end ? st.end / m : st.start` divides a present, non-zero end by the extent, but returns a missing or zero end as the raw pixel start | a pinned trigger starting at 1000px with no end, on a 5000px page: the span is [0.2, 1000], and a progress of 0.9 snaps to 500.1 | the fallback end normalised too, `(st.end ?? st.start) / m`, as the nearest-centre effect does at line 60 | low; not executed (ScrollTrigger normally supplies a numeric end) | SiteSnap.AsWrittenEndNotNormalised | SiteSnap.FirstMatchStaysInDocument |

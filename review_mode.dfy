/** newui/translate/ReviewModeAdapter.java: the list logic of the review
    screen. List items are classified by their slugs, carry highlighting flags
    that invalidate their rendered text, and are filtered by a search; the
    verse markers of a chunk are checked before it is confirmed, and a dropped
    verse marker snaps to the nearest word boundary. */
module ReviewMode {
  import opened JavaLang

  // ------------------------------------------------------------------ list items

  /** The mutable part of a list item: the texts, their rendered (cached) forms
      and the highlight flag of each pane. */
  datatype ItemState = ItemState(
    sourceText: Option<string>, renderedSource: Option<string>,
    targetText: Option<string>, renderedTarget: Option<string>,
    highlightSource: bool, highlightTarget: bool)

  predicate IsProjectTitle(chapter: string, chunk: string) {
    chapter == "front" && chunk == "title"
  }

  predicate IsChapterTitle(chapter: string, chunk: string) {
    chapter != "front" && chapter != "back" && chunk == "title"
  }

  predicate IsChapterReference(chapter: string, chunk: string) {
    chapter != "front" && chapter != "back" && chunk == "reference"
  }

  predicate IsChapter(chapter: string, chunk: string) {
    IsChapterReference(chapter, chunk) || IsChapterTitle(chapter, chunk)
  }

  predicate IsFrame(chapter: string, chunk: string) {
    !IsChapter(chapter, chunk) && !IsProjectTitle(chapter, chunk)
  }

  /** Every slug pair is exactly one kind of item. */
  lemma ExactlyOneKind(chapter: string, chunk: string)
    ensures IsProjectTitle(chapter, chunk) ==> !IsChapterTitle(chapter, chunk) && !IsChapterReference(chapter, chunk) && !IsFrame(chapter, chunk)
    ensures IsChapterTitle(chapter, chunk) ==> !IsChapterReference(chapter, chunk) && !IsFrame(chapter, chunk)
    ensures IsChapterReference(chapter, chunk) ==> !IsFrame(chapter, chunk)
    ensures IsProjectTitle(chapter, chunk) || IsChapterTitle(chapter, chunk) || IsChapterReference(chapter, chunk) || IsFrame(chapter, chunk)
  {
  }

  /** setHighLighting(enable, target) on an item state: the pane's flag becomes
      `enable`, and its rendered text is dropped when enabling or when the pane
      was highlighted. */
  function Highlight(s: ItemState, enable: bool, target: bool): ItemState {
    if target then
      s.(renderedTarget := if enable || s.highlightTarget then None else s.renderedTarget, highlightTarget := enable)
    else
      s.(renderedSource := if enable || s.highlightSource then None else s.renderedSource, highlightSource := enable)
  }

  /** clearAllHighLighting. */
  function ClearAll(s: ItemState): ItemState {
    Highlight(Highlight(s, false, true), false, false)
  }

  /** What setHighLighting promises for the pane it names and the other one. */
  lemma HighlightPanes(s: ItemState, enable: bool, target: bool)
    ensures target ==> Highlight(s, enable, target).highlightTarget == enable
    ensures target ==> (Highlight(s, enable, target).renderedTarget.Some? <==> !enable && !s.highlightTarget && s.renderedTarget.Some?)
    ensures target ==> Highlight(s, enable, target).(renderedTarget := s.renderedTarget, highlightTarget := s.highlightTarget) == s
    ensures !target ==> Highlight(s, enable, target).highlightSource == enable
    ensures !target ==> (Highlight(s, enable, target).renderedSource.Some? <==> !enable && !s.highlightSource && s.renderedSource.Some?)
    ensures !target ==> Highlight(s, enable, target).(renderedSource := s.renderedSource, highlightSource := s.highlightSource) == s
  {
  }

  /** Clearing twice is clearing once. */
  lemma ClearAllIdempotent(s: ItemState)
    ensures ClearAll(ClearAll(s)) == ClearAll(s)
    ensures !ClearAll(s).highlightSource && !ClearAll(s).highlightTarget
  {
  }

  /** Where the item texts come from: the source container and the target translation. */
  datatype Library = Library(
    readChunk: (string, string) -> Option<string>,
    projectTitle: Option<string>,
    chapterTitle: string -> Option<string>,
    chapterReference: string -> Option<string>,
    frameBody: (string, string) -> Option<string>)

  /** loadTranslations: the source text always, the target text by the kind of item. */
  function Load(s: ItemState, chapter: string, chunk: string, lib: Library): ItemState {
    var target :=
      if chapter == "front" then (if chunk == "title" then lib.projectTitle else s.targetText)
      else if chapter == "back" then s.targetText
      else if chunk == "title" then lib.chapterTitle(chapter)
      else if chunk == "reference" then lib.chapterReference(chapter)
      else lib.frameBody(chapter, chunk);
    s.(sourceText := lib.readChunk(chapter, chunk), targetText := target)
  }

  /** The item state once the searched pane's text is available: texts are
      loaded only when neither the rendered nor the plain text is there. */
  function Prepared(s: ItemState, chapter: string, chunk: string, lib: Library, target: bool): ItemState {
    if !target then
      (if s.renderedSource.None? && s.sourceText.None? then Load(s, chapter, chunk, lib) else s)
    else
      (if s.renderedTarget.None? && s.targetText.None? then Load(s, chapter, chunk, lib) else s)
  }

  /** The text searched on a pane: the rendered text when there is one, else the plain text. */
  function SearchedText(s: ItemState, target: bool): Option<string> {
    if !target then (if s.renderedSource.Some? then s.renderedSource else s.sourceText)
    else (if s.renderedTarget.Some? then s.renderedTarget else s.targetText)
  }

  /** The item matches when its searched text, lower-cased, contains the lower-cased query. */
  predicate MatchState(s: ItemState, chapter: string, chunk: string, lib: Library, query: string, target: bool) {
    var t := SearchedText(Prepared(s, chapter, chunk, lib, target), target);
    t.Some? && Contains(Lower(t.value), Lower(query))
  }

  /** Loading texts for the search leaves the flags and the rendered texts alone. */
  lemma PreparedKeepsView(s: ItemState, chapter: string, chunk: string, lib: Library, target: bool)
    ensures var p := Prepared(s, chapter, chunk, lib, target);
      p.(sourceText := s.sourceText, targetText := s.targetText) == s
  {
  }

  /** The item state after one round of performFiltering with a non-empty
      query, from its state once its texts are loaded and whether it matched. */
  function AfterSearch(p: ItemState, matched: bool, target: bool): ItemState {
    if matched then Highlight(Highlight(p, true, target), false, !target) else ClearAll(p)
  }

  /** A matched item is highlighted on the searched pane only and an unmatched
      one on neither; a pane keeps its rendered text only when it stays
      unhighlighted and was not highlighted before; the texts are kept. */
  lemma SearchHighlights(p: ItemState, matched: bool, target: bool)
    ensures matched && target ==> AfterSearch(p, matched, target).highlightTarget && !AfterSearch(p, matched, target).highlightSource
    ensures matched && !target ==> AfterSearch(p, matched, target).highlightSource && !AfterSearch(p, matched, target).highlightTarget
    ensures !matched ==> !AfterSearch(p, matched, target).highlightSource && !AfterSearch(p, matched, target).highlightTarget
    ensures AfterSearch(p, matched, target).renderedSource.Some? ==>
      !p.highlightSource && !AfterSearch(p, matched, target).highlightSource && AfterSearch(p, matched, target).renderedSource == p.renderedSource
    ensures AfterSearch(p, matched, target).renderedTarget.Some? ==>
      !p.highlightTarget && !AfterSearch(p, matched, target).highlightTarget && AfterSearch(p, matched, target).renderedTarget == p.renderedTarget
    ensures AfterSearch(p, matched, target).sourceText == p.sourceText && AfterSearch(p, matched, target).targetText == p.targetText
  {
  }

  class ListItem {
    const chapterSlug: string
    const chunkSlug: string
    var sourceText: Option<string>
    var renderedSourceText: Option<string>
    var targetText: Option<string>
    var renderedTargetText: Option<string>
    var highlightSource: bool
    var highlightTarget: bool

    function State(): ItemState
      reads this
    {
      ItemState(sourceText, renderedSourceText, targetText, renderedTargetText, highlightSource, highlightTarget)
    }

    constructor (chapter: string, chunk: string)
      ensures chapterSlug == chapter && chunkSlug == chunk
      ensures State() == ItemState(None, None, None, None, false, false)
    {
      chapterSlug := chapter;
      chunkSlug := chunk;
      sourceText := None;
      renderedSourceText := None;
      targetText := None;
      renderedTargetText := None;
      highlightSource := false;
      highlightTarget := false;
    }

    method SetHighLighting(enable: bool, target: bool)
      modifies this
      ensures State() == Highlight(old(State()), enable, target)
    {
      if target {
        if !enable {
          if highlightTarget {
            renderedTargetText := None;
          }
        } else {
          renderedTargetText := None;
        }
        highlightTarget := enable;
      } else {
        if !enable {
          if highlightSource {
            renderedSourceText := None;
          }
        } else {
          renderedSourceText := None;
        }
        highlightSource := enable;
      }
    }

    method ClearAllHighLighting()
      modifies this
      ensures State() == ClearAll(old(State()))
    {
      SetHighLighting(false, true);
      SetHighLighting(false, false);
    }

    method LoadTranslations(lib: Library)
      modifies this
      ensures State() == Load(old(State()), chapterSlug, chunkSlug, lib)
    {
      sourceText := lib.readChunk(chapterSlug, chunkSlug);
      if chapterSlug == "front" {
        if chunkSlug == "title" {
          targetText := lib.projectTitle;
        }
      } else if chapterSlug == "back" {
      } else {
        if chunkSlug == "title" {
          targetText := lib.chapterTitle(chapterSlug);
        } else if chunkSlug == "reference" {
          targetText := lib.chapterReference(chapterSlug);
        } else {
          targetText := lib.frameBody(chapterSlug, chunkSlug);
        }
      }
    }

    /** The match test of performFiltering for this item, loading its texts when needed. */
    method Match(matchString: string, target: bool, lib: Library) returns (found: bool)
      modifies this
      ensures State() == Prepared(old(State()), chapterSlug, chunkSlug, lib, target)
      ensures found == MatchState(old(State()), chapterSlug, chunkSlug, lib, matchString, target)
    {
      found := false;
      if !target {
        if renderedSourceText.Some? {
          found := Contains(Lower(renderedSourceText.value), Lower(matchString));
        } else {
          if sourceText.None? {
            LoadTranslations(lib);
          }
          if sourceText.Some? {
            found := Contains(Lower(sourceText.value), Lower(matchString));
          }
        }
      } else {
        if renderedTargetText.Some? {
          found := Contains(Lower(renderedTargetText.value), Lower(matchString));
        } else {
          if targetText.None? {
            LoadTranslations(lib);
          }
          if targetText.Some? {
            found := Contains(Lower(targetText.value), Lower(matchString));
          }
        }
      }
    }
  }

  // ------------------------------------------------------------------ the search

  /** The items at the positions whose flag is set, in order. */
  function Pick<T>(items: seq<T>, keep: seq<bool>): (r: seq<T>)
    requires |keep| == |items|
    ensures |r| <= |items|
  {
    PickUpTo(items, keep, |items|)
  }

  /** Pick over the first n positions. */
  function PickUpTo<T>(items: seq<T>, keep: seq<bool>, n: nat): (r: seq<T>)
    requires n <= |items| && n <= |keep|
    ensures |r| <= n
  {
    if n == 0 then [] else PickUpTo(items, keep, n - 1) + (if keep[n - 1] then [items[n - 1]] else [])
  }

  /** Every item PickUpTo keeps is one of the items. */
  lemma {:induction false} PickUpToWithin<T>(items: seq<T>, keep: seq<bool>, n: nat)
    requires n <= |items| && n <= |keep|
    ensures forall k :: 0 <= k < |PickUpTo(items, keep, n)| ==> PickUpTo(items, keep, n)[k] in items
  {
    if n > 0 {
      PickUpToWithin(items, keep, n - 1);
      var front := PickUpTo(items, keep, n - 1);
      var r := PickUpTo(items, keep, n);
      assert r == front + (if keep[n - 1] then [items[n - 1]] else []);
      forall k | 0 <= k < |r|
        ensures r[k] in items
      {
        if k < |front| {
          assert r[k] == front[k];
        } else {
          assert r[k] == items[n - 1];
        }
      }
    }
  }

  /** Flags past the first n positions do not matter. */
  lemma {:induction false} PickUpToExtend<T>(items: seq<T>, keep: seq<bool>, b: bool, n: nat)
    requires n <= |items| && n <= |keep|
    ensures PickUpTo(items, keep + [b], n) == PickUpTo(items, keep, n)
  {
    if n > 0 {
      PickUpToExtend(items, keep, b, n - 1);
    }
  }

  /** One more position for PickUpTo. */
  lemma PickUpToSnoc<T>(items: seq<T>, keep: seq<bool>, b: bool, n: nat)
    requires n == |keep| && n < |items|
    ensures PickUpTo(items, keep + [b], n + 1) == PickUpTo(items, keep, n) + if b then [items[n]] else []
  {
    PickUpToExtend(items, keep, b, n);
  }

  /** Pick keeps exactly the flagged items. */
  lemma {:induction false} PickUpToMembers<T>(items: seq<T>, keep: seq<bool>, n: nat)
    requires n <= |items| && n <= |keep|
    ensures forall x :: x in PickUpTo(items, keep, n) <==> exists k :: 0 <= k < n && keep[k] && items[k] == x
  {
    if n > 0 {
      PickUpToMembers(items, keep, n - 1);
    }
  }

  /** Pick keeps exactly the flagged items (the order is kept by
      construction; PickUpToSnoc states it one position at a time). */
  lemma PickMembers<T>(items: seq<T>, keep: seq<bool>)
    requires |keep| == |items|
    ensures forall x :: x in Pick(items, keep) <==> exists k :: 0 <= k < |items| && keep[k] && items[k] == x
  {
    PickUpToMembers(items, keep, |items|);
  }

  /** A null query and an empty one are the same search. */
  function Normal(q: Option<string>): string {
    if q.Some? then q.value else ""
  }

  /** updateChapterMarkers: the markers are reset iff the searches differ once
      null is read as empty. */
  function SearchChanged(oldSearch: Option<string>, newSearch: Option<string>): (changed: bool)
    ensures changed <==> Normal(oldSearch) != Normal(newSearch)
  {
    if oldSearch.None? then newSearch.Some? && |newSearch.value| > 0
    else if newSearch.None? then |oldSearch.value| > 0
    else newSearch.value != oldSearch.value
  }

  /** The states of a list of items. */
  function States(items: seq<ListItem>): (r: seq<ItemState>)
    reads items
    ensures |r| == |items| && forall k :: 0 <= k < |items| ==> r[k] == items[k].State()
  {
    if items == [] then [] else States(items[..|items| - 1]) + [items[|items| - 1].State()]
  }

  predicate Distinct(items: seq<ListItem>) {
    forall i, j :: 0 <= i < j < |items| ==> items[i] != items[j]
  }

  // ------------------------------------------------------------------ table of contents

  /** One chapter of the source container's table of contents. */
  datatype TocChapter = TocChapter(chapter: string, chunks: seq<string>)

  /** A search posted to the main-thread Handler, not yet run. */
  datatype PostedSearch = PostedSearch(query: Option<string>, target: bool)

  /** The (chapter, chunk) slugs of one chapter's chunks, in toc order. */
  function ChunkSlugs(chapter: string, chunks: seq<string>): seq<(string, string)> {
    if chunks == [] then [] else ChunkSlugs(chapter, chunks[..|chunks| - 1]) + [(chapter, chunks[|chunks| - 1])]
  }

  /** The k-th slug of a chapter is its k-th chunk under the chapter's slug. */
  lemma {:induction false} ChunkSlugsAt(chapter: string, chunks: seq<string>)
    ensures |ChunkSlugs(chapter, chunks)| == |chunks|
    ensures forall k :: 0 <= k < |chunks| ==> ChunkSlugs(chapter, chunks)[k] == (chapter, chunks[k])
  {
    if chunks != [] {
      var front := chunks[..|chunks| - 1];
      ChunkSlugsAt(chapter, front);
      assert forall k :: 0 <= k < |front| ==> front[k] == chunks[k];
    }
  }

  /** The slugs of every list item, chapter by chapter. */
  function TocSlugs(toc: seq<TocChapter>): seq<(string, string)> {
    if toc == [] then [] else TocSlugs(toc[..|toc| - 1]) + ChunkSlugs(toc[|toc| - 1].chapter, toc[|toc| - 1].chunks)
  }

  /** A slug pair is listed iff some chapter of the toc lists that chunk. */
  lemma {:induction false} TocSlugsMembers(toc: seq<TocChapter>, chapter: string, chunk: string)
    ensures (chapter, chunk) in TocSlugs(toc) <==>
      exists i :: 0 <= i < |toc| && toc[i].chapter == chapter && chunk in toc[i].chunks
  {
    if toc != [] {
      var front := toc[..|toc| - 1];
      var last := toc[|toc| - 1];
      TocSlugsMembers(front, chapter, chunk);
      ChunkSlugsAt(last.chapter, last.chunks);
      var tail := ChunkSlugs(last.chapter, last.chunks);
      assert (chapter, chunk) in tail <==> last.chapter == chapter && chunk in last.chunks by {
        if (chapter, chunk) in tail {
          var k :| 0 <= k < |tail| && tail[k] == (chapter, chunk);
          assert last.chunks[k] == chunk;
        }
        if last.chapter == chapter && chunk in last.chunks {
          var k :| 0 <= k < |last.chunks| && last.chunks[k] == chunk;
          assert tail[k] == (chapter, chunk);
        }
      }
      if exists i :: 0 <= i < |toc| && toc[i].chapter == chapter && chunk in toc[i].chunks {
        var i :| 0 <= i < |toc| && toc[i].chapter == chapter && chunk in toc[i].chunks;
        if i < |front| {
          assert front[i] == toc[i];
        }
      }
      if exists i :: 0 <= i < |front| && front[i].chapter == chapter && chunk in front[i].chunks {
        var i :| 0 <= i < |front| && front[i].chapter == chapter && chunk in front[i].chunks;
        assert toc[i] == front[i];
      }
    }
  }

  /** `chapter.equals(startingChapterSlug)` with a possibly null slug. */
  predicate IsStartSlug(slug: (string, string), startChapter: Option<string>, startChunk: Option<string>) {
    startChapter == Some(slug.0) && startChunk == Some(slug.1)
  }

  /** The start position setSourceTranslation leaves: the index of the last
      item with the starting slugs, or 0 when there is none. */
  function TocStart(slugs: seq<(string, string)>, startChapter: Option<string>, startChunk: Option<string>): nat {
    if slugs == [] then 0
    else if IsStartSlug(slugs[|slugs| - 1], startChapter, startChunk) then |slugs| - 1
    else TocStart(slugs[..|slugs| - 1], startChapter, startChunk)
  }

  /** The start position is the last item with the starting slugs, or 0 when
      no item has them. */
  lemma {:induction false} TocStartIsLast(slugs: seq<(string, string)>, startChapter: Option<string>, startChunk: Option<string>)
    ensures var r := TocStart(slugs, startChapter, startChunk);
      (exists k :: 0 <= k < |slugs| && IsStartSlug(slugs[k], startChapter, startChunk)) ==>
        r < |slugs| && IsStartSlug(slugs[r], startChapter, startChunk)
        && forall k :: r < k < |slugs| ==> !IsStartSlug(slugs[k], startChapter, startChunk)
    ensures (forall k :: 0 <= k < |slugs| ==> !IsStartSlug(slugs[k], startChapter, startChunk)) ==>
      TocStart(slugs, startChapter, startChunk) == 0
  {
    if slugs != [] && !IsStartSlug(slugs[|slugs| - 1], startChapter, startChunk) {
      var front := slugs[..|slugs| - 1];
      TocStartIsLast(front, startChapter, startChunk);
      assert forall k :: 0 <= k < |front| ==> front[k] == slugs[k];
    }
  }

  /** The new items match the slugs one to one, are distinct and unloaded. */
  ghost predicate Built(items: seq<ListItem>, slugs: seq<(string, string)>)
    reads items
  {
    && |items| == |slugs|
    && Distinct(items)
    && (forall k :: 0 <= k < |items| ==> (items[k].chapterSlug, items[k].chunkSlug) == slugs[k])
    && (forall k :: 0 <= k < |items| ==> items[k].State() == ItemState(None, None, None, None, false, false))
  }

  /** The items and start position built from the slugs so far. */
  ghost predicate Listed(items: seq<ListItem>, start: nat, slugs: seq<(string, string)>,
                         startChapter: Option<string>, startChunk: Option<string>)
    reads items
  {
    Built(items, slugs) && start == TocStart(slugs, startChapter, startChunk)
  }

  /** One more item keeps the items and the start position in step with the slugs. */
  lemma ListedSnoc(items: seq<ListItem>, start: nat, slugs: seq<(string, string)>, item: ListItem,
                   startChapter: Option<string>, startChunk: Option<string>)
    requires Listed(items, start, slugs, startChapter, startChunk) && item !in items
    requires item.State() == ItemState(None, None, None, None, false, false)
    ensures var slug := (item.chapterSlug, item.chunkSlug);
      Listed(items + [item], if IsStartSlug(slug, startChapter, startChunk) then |items| else start,
             slugs + [slug], startChapter, startChunk)
  {
    var slug := (item.chapterSlug, item.chunkSlug);
    assert (slugs + [slug])[..|slugs|] == slugs;
  }

  /** The inner toc loop of setSourceTranslation: one item per chunk of the chapter. */
  method AddTocChapter(items: seq<ListItem>, start: nat, ghost slugs: seq<(string, string)>, c: TocChapter,
                       startChapter: Option<string>, startChunk: Option<string>)
    returns (items': seq<ListItem>, start': nat)
    requires Listed(items, start, slugs, startChapter, startChunk)
    ensures Listed(items', start', slugs + ChunkSlugs(c.chapter, c.chunks), startChapter, startChunk)
  {
    items', start' := items, start;
    var j := 0;
    assert slugs + ChunkSlugs(c.chapter, c.chunks[..0]) == slugs;
    while j < |c.chunks|
      invariant 0 <= j <= |c.chunks|
      invariant Listed(items', start', slugs + ChunkSlugs(c.chapter, c.chunks[..j]), startChapter, startChunk)
    {
      var item := new ListItem(c.chapter, c.chunks[j]);
      ChunkSlugsSnoc(slugs, c.chapter, c.chunks, j);
      ListedSnoc(items', start', slugs + ChunkSlugs(c.chapter, c.chunks[..j]), item, startChapter, startChunk);
      if IsStartSlug((c.chapter, c.chunks[j]), startChapter, startChunk) {
        start' := |items'|;
      }
      items' := items' + [item];
      j := j + 1;
    }
    assert c.chunks[..j] == c.chunks;
  }

  lemma ChunkSlugsSnoc(slugs: seq<(string, string)>, chapter: string, chunks: seq<string>, j: nat)
    requires j < |chunks|
    ensures slugs + ChunkSlugs(chapter, chunks[..j + 1]) == slugs + ChunkSlugs(chapter, chunks[..j]) + [(chapter, chunks[j])]
  {
    assert chunks[..j + 1][..j] == chunks[..j];
  }

  /** The toc loops of setSourceTranslation: one new item per listed chunk,
      in toc order, and the start at the last item with the starting slugs. */
  method BuildItems(toc: seq<TocChapter>, startChapter: Option<string>, startChunk: Option<string>)
    returns (items: seq<ListItem>, start: nat)
    ensures Built(items, TocSlugs(toc))
    ensures start == TocStart(TocSlugs(toc), startChapter, startChunk)
  {
    items, start := [], 0;
    var i := 0;
    while i < |toc|
      invariant 0 <= i <= |toc|
      invariant Listed(items, start, TocSlugs(toc[..i]), startChapter, startChunk)
    {
      assert toc[..i + 1][..i] == toc[..i];
      items, start := AddTocChapter(items, start, TocSlugs(toc[..i]), toc[i], startChapter, startChunk);
      i := i + 1;
    }
    assert toc[..i] == toc;
  }

  class ReviewAdapter {
    var unfilteredItems: seq<ListItem>
    var filteredItems: seq<ListItem>
    var searchString: Option<string>
    var searchTarget: bool
    var oldSearch: Option<string>
    var markerResets: nat
    var resourcesOpened: bool
    var coordinations: nat
    var listStartPosition: nat
    var posted: seq<PostedSearch>
    var busy: bool
    const library: Library
    const startingChapterSlug: Option<string>
    const startingChunkSlug: Option<string>

    ghost predicate Valid()
      reads this
    {
      Distinct(unfilteredItems) && forall k :: 0 <= k < |filteredItems| ==> filteredItems[k] in unfilteredItems
    }

    /** The constructor, which ends with setSourceTranslation. */
    constructor (toc: seq<TocChapter>, startChapter: Option<string>, startChunk: Option<string>, lib: Library, openResources: bool)
      ensures Valid()
      ensures Built(unfilteredItems, TocSlugs(toc))
      ensures listStartPosition == TocStart(TocSlugs(toc), startChapter, startChunk)
      ensures filteredItems == [] && markerResets == 1 && posted == [PostedSearch(None, false)]
      ensures startingChapterSlug == startChapter && startingChunkSlug == startChunk
      ensures library == lib && resourcesOpened == openResources
      ensures searchString == None && oldSearch == None && !searchTarget && !busy && coordinations == 0
    {
      startingChapterSlug := startChapter;
      startingChunkSlug := startChunk;
      library := lib;
      resourcesOpened := openResources;
      unfilteredItems := [];
      filteredItems := [];
      listStartPosition := 0;
      searchString := None;
      searchTarget := false;
      oldSearch := None;
      markerResets := 0;
      coordinations := 0;
      posted := [];
      busy := false;
      new;
      SetSourceTranslation(toc);
    }

    /** setSourceTranslation: the items come from the toc, the start position
        is set, and the screen is cleared with the current search posted again.
        The other fields are outside the modifies clause and so unchanged. */
    method SetSourceTranslation(toc: seq<TocChapter>)
      modifies this`unfilteredItems, this`filteredItems, this`listStartPosition
      modifies this`markerResets, this`busy, this`posted
      ensures Valid()
      ensures Built(unfilteredItems, TocSlugs(toc))
      ensures listStartPosition == TocStart(TocSlugs(toc), startingChapterSlug, startingChunkSlug)
      ensures filteredItems == [] && markerResets == old(markerResets) + 1
      ensures posted == old(posted) + [PostedSearch(searchString, searchTarget)]
      ensures busy == (Normal(searchString) != "" || old(busy))
    {
      LoadToc(toc);
      ClearScreenAndStartNewSearch(searchString, searchTarget);
    }

    /** The toc loops of setSourceTranslation and the two lists they fill. */
    method LoadToc(toc: seq<TocChapter>)
      modifies this`unfilteredItems, this`filteredItems, this`listStartPosition
      ensures Valid() && filteredItems == unfilteredItems
      ensures Built(unfilteredItems, TocSlugs(toc))
      ensures listStartPosition == TocStart(TocSlugs(toc), startingChapterSlug, startingChunkSlug)
    {
      var items, start := BuildItems(toc, startingChapterSlug, startingChunkSlug);
      listStartPosition, unfilteredItems, filteredItems := start, items, items;
    }

    /** clearScreenAndStartNewSearch: the shown list is emptied, the section
        markers are reset, the busy indicator is raised for a non-empty query,
        and the search is posted to run later. */
    method ClearScreenAndStartNewSearch(query: Option<string>, target: bool)
      modifies this`filteredItems, this`markerResets, this`busy, this`posted
      ensures filteredItems == [] && markerResets == old(markerResets) + 1
      ensures busy == (Normal(query) != "" || old(busy))
      ensures posted == old(posted) + [PostedSearch(query, target)]
    {
      filteredItems := [];
      markerResets := markerResets + 1;
      if query.Some? && |query.value| > 0 {
        busy := true;
      }
      posted := posted + [PostedSearch(query, target)];
    }

    /** The Handler runs the oldest posted search: setTargetSearch, then filter. */
    method RunPostedSearch() returns (ghost matched: seq<bool>)
      requires Valid() && posted != []
      modifies this`posted, this`searchTarget, this`searchString, this`filteredItems
      modifies this`oldSearch, this`markerResets, this`busy, unfilteredItems
      ensures Valid()
      ensures posted == old(posted[1..])
      ensures searchTarget == old(posted[0].target) && searchString == old(posted[0].query) && oldSearch == searchString && !busy
      ensures Filtered(unfilteredItems, old(States(unfilteredItems)), searchString, matched, filteredItems, library, searchTarget)
      ensures markerResets == if SearchChanged(old(oldSearch), searchString) then old(markerResets) + 1 else old(markerResets)
    {
      var q := posted[0];
      ghost var before := States(unfilteredItems);
      posted := posted[1..];
      SetTargetSearch(q.target);
      assert States(unfilteredItems) == before;
      matched := Filter(q.query);
    }

    /** Filter.filter: performFiltering, then publishResults with its results. */
    method Filter(query: Option<string>) returns (ghost matched: seq<bool>)
      requires Valid()
      modifies this`searchString, this`filteredItems, this`oldSearch, this`markerResets, this`busy, unfilteredItems
      ensures Valid()
      ensures searchString == query && oldSearch == query && !busy
      ensures Filtered(unfilteredItems, old(States(unfilteredItems)), query, matched, filteredItems, library, searchTarget)
      ensures markerResets == if SearchChanged(old(oldSearch), query) then old(markerResets) + 1 else old(markerResets)
    {
      var results;
      results, matched := PerformFiltering(query);
      if Normal(query) != "" {
        PickUpToWithin(unfilteredItems, matched, |unfilteredItems|);
      }
      PublishResults(results);
    }

    /** getFocusedChunkSlug: null outside the filtered list. */
    function GetFocusedChunkSlug(position: int): (r: Option<string>)
      reads this
      ensures r.Some? <==> 0 <= position < |filteredItems|
      ensures r.Some? ==> r.value == filteredItems[position].chunkSlug
    {
      if 0 <= position < |filteredItems| then Some(filteredItems[position].chunkSlug) else None
    }

    /** getFocusedChapterSlug, and getChapterForPosition (items are never null here). */
    function GetFocusedChapterSlug(position: int): (r: Option<string>)
      reads this
      ensures r.Some? <==> 0 <= position < |filteredItems|
      ensures r.Some? ==> r.value == filteredItems[position].chapterSlug
    {
      if 0 <= position < |filteredItems| then Some(filteredItems[position].chapterSlug) else None
    }

    /** getItemPosition: the first frame item with both slugs, or -1. */
    method GetItemPosition(chapterId: string, frameId: string) returns (r: int)
      ensures -1 <= r < |filteredItems|
      ensures r == -1 <==> forall k :: 0 <= k < |filteredItems| ==> !FrameAt(k, chapterId, frameId)
      ensures r >= 0 ==> FrameAt(r, chapterId, frameId) && forall k :: 0 <= k < r ==> !FrameAt(k, chapterId, frameId)
    {
      var i := 0;
      while i < |filteredItems|
        invariant 0 <= i <= |filteredItems|
        invariant forall k :: 0 <= k < i ==> !FrameAt(k, chapterId, frameId)
      {
        var item := filteredItems[i];
        if IsFrame(item.chapterSlug, item.chunkSlug) && item.chapterSlug == chapterId && item.chunkSlug == frameId {
          assert FrameAt(i, chapterId, frameId);
          return i;
        }
        i := i + 1;
      }
      return -1;
    }

    predicate FrameAt(k: int, chapterId: string, frameId: string)
      reads this
    {
      0 <= k < |filteredItems| &&
      var item := filteredItems[k];
      IsFrame(item.chapterSlug, item.chunkSlug) && item.chapterSlug == chapterId && item.chunkSlug == frameId
    }

    /** openResources: only a change of state re-coordinates the view holders. */
    method OpenResources()
      modifies this`resourcesOpened, this`coordinations
      ensures resourcesOpened
      ensures coordinations == if old(resourcesOpened) then old(coordinations) else old(coordinations) + 1
    {
      if !resourcesOpened {
        resourcesOpened := true;
        coordinations := coordinations + 1;
      }
    }

    /** closeResources. */
    method CloseResources()
      modifies this`resourcesOpened, this`coordinations
      ensures !resourcesOpened
      ensures coordinations == if old(resourcesOpened) then old(coordinations) + 1 else old(coordinations)
    {
      if resourcesOpened {
        resourcesOpened := false;
        coordinations := coordinations + 1;
      }
    }

    /** setTargetSearch. */
    method SetTargetSearch(target: bool)
      modifies this`searchTarget
      ensures searchTarget == target
    {
      searchTarget := target;
    }

    /** SearchFilter.performFiltering: with no query every item, highlighting
        cleared; otherwise the matching items in order, highlighted on the
        searched pane, the others cleared. */
    method PerformFiltering(charSequence: Option<string>) returns (results: seq<ListItem>, ghost matched: seq<bool>)
      requires Valid()
      modifies this`searchString, unfilteredItems
      ensures searchString == charSequence
      ensures Filtered(unfilteredItems, old(States(unfilteredItems)), charSequence, matched, results, library, searchTarget)
    {
      searchString := charSequence;
      if charSequence.None? || |charSequence.value| == 0 {
        results, matched := unfilteredItems, [];
        ClearItems(unfilteredItems);
      } else {
        results, matched := FilterItems(unfilteredItems, charSequence.value, searchTarget, library, States(unfilteredItems));
      }
    }

    /** publishResults: the filtered list replaces the shown one and the section
        markers are reset when the search changed. */
    method PublishResults(results: seq<ListItem>)
      requires Valid() && forall k :: 0 <= k < |results| ==> results[k] in unfilteredItems
      modifies this`filteredItems, this`oldSearch, this`markerResets, this`busy
      ensures Valid()
      ensures filteredItems == results && oldSearch == searchString && !busy
      ensures markerResets == if SearchChanged(old(oldSearch), searchString) then old(markerResets) + 1 else old(markerResets)
    {
      filteredItems := results;
      UpdateChapterMarkers(oldSearch);
      oldSearch := searchString;
      busy := false;
    }

    /** updateChapterMarkers. */
    method UpdateChapterMarkers(previous: Option<string>)
      modifies this`markerResets
      ensures markerResets == if SearchChanged(previous, searchString) then old(markerResets) + 1 else old(markerResets)
    {
      var searchChanged := false;
      if previous.None? {
        if searchString.Some? && |searchString.value| > 0 {
          searchChanged := true;
        }
      } else if searchString.None? {
        if |previous.value| > 0 {
          searchChanged := true;
        }
      } else if searchString.value != previous.value {
        searchChanged := true;
      }
      if searchChanged {
        markerResets := markerResets + 1;
      }
    }
  }

  /** The no-query loop of performFiltering. */
  method ClearItems(items: seq<ListItem>)
    requires Distinct(items)
    modifies items
    ensures forall k :: 0 <= k < |items| ==> items[k].State() == ClearAll(old(items[k].State()))
  {
    var i := 0;
    while i < |items|
      invariant 0 <= i <= |items|
      invariant forall k :: 0 <= k < i ==> items[k].State() == ClearAll(old(items[k].State()))
      invariant forall k :: i <= k < |items| ==> items[k].State() == old(items[k].State())
    {
      items[i].ClearAllHighLighting();
      i := i + 1;
    }
  }

  /** One round of the query loop on one item. */
  method FilterOne(item: ListItem, query: string, target: bool, lib: Library) returns (found: bool)
    modifies item
    ensures found == MatchState(old(item.State()), item.chapterSlug, item.chunkSlug, lib, query, target)
    ensures item.State() == AfterSearch(Prepared(old(item.State()), item.chapterSlug, item.chunkSlug, lib, target), found, target)
  {
    found := item.Match(query, target, lib);
    if found {
      item.SetHighLighting(true, target);
      item.SetHighLighting(false, !target);
    } else {
      item.ClearAllHighLighting();
    }
  }

  /** What performFiltering leaves: with no query every item, highlighting
      cleared; otherwise exactly the matching items in order, each searched
      from its state before. */
  ghost predicate Filtered(items: seq<ListItem>, before: seq<ItemState>, query: Option<string>, matched: seq<bool>,
                           results: seq<ListItem>, lib: Library, target: bool)
    reads items
  {
    && |before| == |items|
    && (Normal(query) == "" ==> results == items && forall k :: 0 <= k < |items| ==> items[k].State() == ClearAll(before[k]))
    && (Normal(query) != "" ==>
          && |matched| == |items| && results == Pick(items, matched)
          && SearchedUpTo(items, before, matched, |items|, lib, query.value, target))
  }

  /** The items in [0, i) have been searched and the rest are untouched. */
  ghost predicate SearchedUpTo(items: seq<ListItem>, before: seq<ItemState>, matched: seq<bool>, i: int, lib: Library, query: string, target: bool)
    reads items
  {
    0 <= i <= |items| && |before| == |items| && |matched| == i
    && (forall k :: 0 <= k < i ==> matched[k] == MatchState(before[k], items[k].chapterSlug, items[k].chunkSlug, lib, query, target))
    && (forall k :: 0 <= k < i ==> items[k].State() == AfterSearch(Prepared(before[k], items[k].chapterSlug, items[k].chunkSlug, lib, target), matched[k], target))
    && (forall k :: i <= k < |items| ==> items[k].State() == before[k])
  }

  /** One round of the query loop. */
  method FilterStep(items: seq<ListItem>, i: int, query: string, target: bool, lib: Library, ghost before: seq<ItemState>, ghost matched: seq<bool>)
    returns (found: bool)
    requires Distinct(items) && 0 <= i < |items|
    requires SearchedUpTo(items, before, matched, i, lib, query, target)
    modifies items[i]
    ensures SearchedUpTo(items, before, matched + [found], i + 1, lib, query, target)
  {
    found := FilterOne(items[i], query, target, lib);
  }

  /** The query loop of performFiltering. */
  method FilterItems(items: seq<ListItem>, query: string, target: bool, lib: Library, ghost before: seq<ItemState>) returns (results: seq<ListItem>, ghost matched: seq<bool>)
    requires Distinct(items)
    requires SearchedUpTo(items, before, [], 0, lib, query, target)
    modifies items
    ensures |matched| == |items| && results == Pick(items, matched)
    ensures SearchedUpTo(items, before, matched, |items|, lib, query, target)
  {
    results, matched := [], [];
    var i := 0;
    while i < |items|
      invariant 0 <= i <= |items| && |matched| == i
      invariant results == PickUpTo(items, matched, i)
      invariant SearchedUpTo(items, before, matched, i, lib, query, target)
    {
      var found := FilterStep(items, i, query, target, lib, before, matched);
      PickUpToSnoc(items, matched, found, i);
      if found {
        results := results + [items[i]];
      }
      matched := matched + [found];
      i := i + 1;
    }
  }

  // ------------------------------------------------------------------ verse markers

  datatype VerseCheck = VersesInOrder | DuplicateVerse | OutOfOrderVerses | VerseOutOfRange

  /** The range check's bounds from the chunk's verse range (null reads as empty):
      none gives [-1, 999999999], one number v gives [v, v]. */
  function VerseBounds(range: seq<int>): (int, int) {
    if |range| == 0 then (-1, 999999999)
    else if |range| == 1 then (range[0], range[0])
    else (range[0], range[1])
  }

  /** The first failure of the verse loop, reading the numbers from `last` on. */
  function FirstVerseFailure(verses: seq<int>, low: int, high: int, last: int): VerseCheck {
    if verses == [] then VersesInOrder
    else if verses[0] <= last then (if verses[0] == last then DuplicateVerse else OutOfOrderVerses)
    else if verses[0] < low || verses[0] > high then VerseOutOfRange
    else FirstVerseFailure(verses[1..], low, high, verses[0])
  }

  /** The verse numbers rise strictly from above `last`. */
  predicate RisingFrom(verses: seq<int>, last: int) {
    (forall i :: 0 <= i < |verses| - 1 ==> verses[i] < verses[i + 1]) && (verses != [] ==> last < verses[0])
  }

  /** The verse loop succeeds iff the numbers rise strictly from 0 and all lie in range. */
  lemma {:induction false} VersesInOrderIff(verses: seq<int>, low: int, high: int, last: int)
    ensures FirstVerseFailure(verses, low, high, last) == VersesInOrder <==>
      RisingFrom(verses, last) && forall i :: 0 <= i < |verses| ==> low <= verses[i] <= high
  {
    if verses != [] {
      VersesInOrderIff(verses[1..], low, high, verses[0]);
      assert forall i :: 1 <= i < |verses| ==> verses[i] == verses[1..][i - 1];
    }
  }

  /** The verse loop of onConfirmChunk, over the verse numbers the markers carry. */
  method CheckVerseMarkers(verses: seq<int>, lowVerse: int, highVerse: int) returns (r: VerseCheck)
    ensures r == FirstVerseFailure(verses, lowVerse, highVerse, 0)
  {
    var lastVerseSeen := 0;
    var i := 0;
    while i < |verses|
      invariant 0 <= i <= |verses|
      invariant FirstVerseFailure(verses[i..], lowVerse, highVerse, lastVerseSeen) == FirstVerseFailure(verses, lowVerse, highVerse, 0)
    {
      var currentVerse := verses[i];
      assert verses[i..][1..] == verses[i + 1..];
      if currentVerse <= lastVerseSeen {
        if currentVerse == lastVerseSeen {
          return DuplicateVerse;
        } else {
          return OutOfOrderVerses;
        }
      } else if currentVerse < lowVerse || currentVerse > highVerse {
        return VerseOutOfRange;
      } else {
        lastVerseSeen := currentVerse;
      }
      i := i + 1;
    }
    return VersesInOrder;
  }

  /** The verse numbers rise strictly from 0 and lie within the chunk's range. */
  predicate VersesAccepted(verses: seq<int>, range: seq<int>) {
    var bounds := VerseBounds(range);
    RisingFrom(verses, 0) && forall i :: 0 <= i < |verses| ==> bounds.0 <= verses[i] <= bounds.1
  }

  /** Why onConfirmChunk refuses a chunk, in the order it checks. */
  datatype ConfirmCheck = EmptyTranslation | ConsecutiveVerseMarkers | BadVerseMarker(kind: VerseCheck) | ReadyToCommit

  /** onConfirmChunk's checks before committing: an empty translation, then two
      verse markers in a row (found by a pattern, given here), then the verse loop. */
  method ConfirmChecks(targetText: string, consecutiveMarkers: bool, verses: seq<int>, range: seq<int>) returns (r: ConfirmCheck)
    ensures r == ReadyToCommit <==> targetText != "" && !consecutiveMarkers && VersesAccepted(verses, range)
    ensures targetText == "" ==> r == EmptyTranslation
    ensures targetText != "" && consecutiveMarkers ==> r == ConsecutiveVerseMarkers
    ensures r.BadVerseMarker? ==> r.kind != VersesInOrder
    ensures targetText != "" && !consecutiveMarkers && !VersesAccepted(verses, range) ==>
      r == BadVerseMarker(FirstVerseFailure(verses, VerseBounds(range).0, VerseBounds(range).1, 0))
  {
    if targetText == "" {
      return EmptyTranslation;
    }
    if consecutiveMarkers {
      return ConsecutiveVerseMarkers;
    }
    var bounds := VerseBounds(range);
    var check := CheckVerseMarkers(verses, bounds.0, bounds.1);
    VersesInOrderIff(verses, bounds.0, bounds.1, 0);
    if check != VersesInOrder {
      return BadVerseMarker(check);
    }
    return ReadyToCommit;
  }

  // ------------------------------------------------------------------ verse marker drops

  /** isWhitespace. */
  predicate IsWhitespace(c: char) {
    c == ' ' || c == '\t' || c == '\n' || c == '\r'
  }

  /** The last whitespace at or before `j`, or -1. */
  function LastSpaceAtOrBefore(text: string, j: int): (k: int)
    requires j < |text|
    ensures -1 <= k <= j || (j < -1 && k == -1)
    ensures k >= 0 ==> IsWhitespace(text[k])
    ensures forall i :: k < i <= j && 0 <= i ==> !IsWhitespace(text[i])
    decreases j + 1
  {
    if j < 0 then -1 else if IsWhitespace(text[j]) then j else LastSpaceAtOrBefore(text, j - 1)
  }

  /** The first whitespace in [lo, hi), or `hi` when there is none. */
  function FirstSpaceIn(text: string, lo: int, hi: int): (k: int)
    requires 0 <= lo && hi <= |text|
    ensures lo <= hi ==> lo <= k <= hi
    ensures lo > hi ==> k == hi
    ensures k < hi ==> IsWhitespace(text[k])
    ensures forall i :: lo <= i < k && i < hi ==> !IsWhitespace(text[i])
    decreases hi - lo
  {
    if lo >= hi then hi else if IsWhitespace(text[lo]) then lo else FirstSpaceIn(text, lo + 1, hi)
  }

  /** The outcome of closestSpotForVerseMarker: a drop position, or the
      StringIndexOutOfBoundsException of `text.charAt(offset)`. */
  datatype Drop = DropAt(pos: int) | IndexOutOfBounds

  /** Where closestSpotForVerseMarker drops a marker: the offset itself when it
      already touches whitespace or no whitespace precedes it; otherwise the
      first whitespace ahead when it is nearer than the start of the word,
      else the start of the word. An offset at or past the end of the text
      throws on the first character read. */
  function ClosestSpot(offset: int, text: string): (r: Drop)
    ensures r.IndexOutOfBounds? <==> offset >= |text|
    ensures r.DropAt? && 0 <= offset ==> 0 <= r.pos < |text|
  {
    if offset >= |text| then IndexOutOfBounds
    else
      var back := LastSpaceAtOrBefore(text, offset);
      if back == -1 || back == offset || back == offset - 1 then DropAt(offset)
      else
        var limit := if 2 * offset - back - 2 > |text| then |text| else 2 * offset - back - 2;
        var ahead := FirstSpaceIn(text, offset + 1, limit);
        DropAt(if ahead < limit then ahead else back + 1)
  }

  /** The drop spot is the offset or touches whitespace; the offset is kept
      when it touches whitespace or no whitespace precedes it. */
  lemma ClosestSpotTouchesSpace(offset: int, text: string)
    requires 0 <= offset < |text|
    ensures var p := ClosestSpot(offset, text).pos;
      p == offset || IsWhitespace(text[p]) || (p > 0 && IsWhitespace(text[p - 1]))
    ensures IsWhitespace(text[offset]) || (offset > 0 && IsWhitespace(text[offset - 1])) ==>
      ClosestSpot(offset, text) == DropAt(offset)
    ensures (forall i :: 0 <= i <= offset ==> !IsWhitespace(text[i])) ==> ClosestSpot(offset, text) == DropAt(offset)
  {
    var back := LastSpaceAtOrBefore(text, offset);
    if offset > 0 && IsWhitespace(text[offset - 1]) && !IsWhitespace(text[offset]) {
      assert back == offset - 1;
    }
  }

  /** The marker moves less than the distance back to the start of its word. */
  lemma ClosestSpotIsNear(offset: int, text: string)
    requires 0 <= offset < |text|
    ensures var back := LastSpaceAtOrBefore(text, offset);
      0 <= back < offset ==> back + 1 <= ClosestSpot(offset, text).pos <= 2 * offset - back - 1
  {
  }

  /** A drop after the last character, the offset getOffsetForPosition gives
      there (0 on an empty text), throws instead of placing the marker. */
  lemma DropAfterLastCharThrows(text: string)
    ensures ClosestSpot(|text|, text) == IndexOutOfBounds
    ensures ClosestSpot(0, "") == IndexOutOfBounds
  {
  }

  /** The drop position with the end of the text accepted as a spot: always a
      place the drop handler can split the text at, and the same spot as
      closestSpotForVerseMarker wherever that does not throw. */
  function ClosestSpotFixed(offset: int, text: string): (r: int)
    ensures 0 <= offset ==> 0 <= r <= |text|
    ensures offset >= |text| ==> r == |text|
    ensures offset < |text| ==> ClosestSpot(offset, text) == DropAt(r)
  {
    if offset >= |text| then |text| else ClosestSpot(offset, text).pos
  }

  /** closestSpotForVerseMarker: the backward scan for whitespace, then the forward one. */
  method ClosestSpotForVerseMarker(offset: int, text: string) returns (r: Drop)
    ensures r == ClosestSpot(offset, text)
  {
    var charsToWhiteSpace := 0;
    var j := offset;
    while j >= 0
      invariant j <= offset
      invariant j < offset ==> offset < |text|
      invariant offset < |text| ==> LastSpaceAtOrBefore(text, j) == LastSpaceAtOrBefore(text, offset)
      invariant charsToWhiteSpace == 0
    {
      if j >= |text| {
        return IndexOutOfBounds;
      }
      if IsWhitespace(text[j]) {
        if j == offset || j == offset - 1 {
          return DropAt(offset);
        }
        assert LastSpaceAtOrBefore(text, offset) == j;
        charsToWhiteSpace := j - offset + 1;
        break;
      }
      j := j - 1;
    }
    assert offset < |text|;
    assert charsToWhiteSpace == 0 ==> LastSpaceAtOrBefore(text, offset) == -1;
    var spot := ScanAhead(offset, text, charsToWhiteSpace);
    r := DropAt(spot);
  }

  /** The forward scan of closestSpotForVerseMarker, once the backward scan
      has found whitespace before the word or none at all. */
  method ScanAhead(offset: int, text: string, charsToWhiteSpace: int) returns (spot: int)
    requires offset < |text|
    requires var back := LastSpaceAtOrBefore(text, offset);
      (back == -1 || (back != offset && back != offset - 1))
      && charsToWhiteSpace == (if back == -1 then 0 else back - offset + 1)
    ensures ClosestSpot(offset, text) == DropAt(spot)
  {
    var shift := charsToWhiteSpace;
    var limit := offset - shift - 1;
    if limit > |text| {
      limit := |text|;
    }
    var k := offset + 1;
    while k < limit
      invariant offset + 1 <= k
      invariant k <= limit || k == offset + 1
      invariant shift == charsToWhiteSpace
      invariant 0 <= offset + 1 ==> FirstSpaceIn(text, k, limit) == FirstSpaceIn(text, offset + 1, limit)
    {
      if IsWhitespace(text[k]) {
        shift := k - offset;
        break;
      }
      k := k + 1;
    }
    if shift != 0 {
      spot := offset + shift;
    } else {
      spot := offset;
    }
  }
}

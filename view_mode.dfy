/** ui/translate/ViewModeAdapter.java: the list logic shared by the
    translation view modes: the estimate of the visible positions from the
    direction the list moves in, the registry of view holders, the list of
    (chapter, chunk) items built from a source container with its start
    position, the chapter of a section, and the search for a tab title. */
module ViewMode {
  import opened JavaLang

  // ------------------------------------------------------------------ visible range

  datatype Direction = Up | Down | Unknown

  /** A range of positions, both ends included. */
  datatype Window = Window(min: int, max: int)

  /** The window moved right so that it does not start below 0. */
  function Clamp(min: int, max: int): (w: Window)
    ensures w.min >= 0 && w.max - w.min == max - min
    ensures min >= 0 ==> w == Window(min, max)
  {
    if min < 0 then Window(0, max - min) else Window(min, max)
  }

  /** calculateVisibleItems: the window for the next position visited, given
      the direction, the last position and the number k of view holders, and
      the direction afterwards. */
  function NextWindow(dir: Direction, current: int, next: int, k: int): (Window, Direction) {
    match dir
    case Down =>
      if next >= current then (Clamp(next - (k - 1), next), Down) else (Clamp(next, next + k - 1), Up)
    case Up =>
      if next <= current then (Clamp(next, next + k - 1), Up) else (Clamp(next - (k - 1), next), Down)
    case Unknown =>
      (Clamp(next - (k - 1), next + k - 1), Unknown)
  }

  /** The window never starts below 0; with no known direction it spans k - 1
      positions on each side of the next position and the direction stays
      unknown; moving on keeps the direction and a window of k - 1 positions
      ending (down) or starting (up) at the next position, turning back swaps
      the direction. */
  lemma NextWindowShape(dir: Direction, current: int, next: int, k: int)
    ensures NextWindow(dir, current, next, k).0.min >= 0
    ensures dir == Unknown ==> NextWindow(dir, current, next, k).1 == Unknown
    ensures dir == Unknown ==>
      (NextWindow(dir, current, next, k).0.max - NextWindow(dir, current, next, k).0.min == 2 * (k - 1))
    ensures dir == Unknown && next - (k - 1) >= 0 ==>
      (NextWindow(dir, current, next, k).0 == Window(next - (k - 1), next + k - 1))
    ensures dir != Unknown ==>
      (NextWindow(dir, current, next, k).0.max - NextWindow(dir, current, next, k).0.min == k - 1)
    ensures dir != Unknown ==>
      (NextWindow(dir, current, next, k).1 ==
         if (dir == Down && next >= current) || (dir == Up && next > current) then Down else Up)
    ensures NextWindow(dir, current, next, k).1 == Down && next - (k - 1) >= 0 ==>
      (NextWindow(dir, current, next, k).0 == Window(next - (k - 1), next))
    ensures dir != Unknown && NextWindow(dir, current, next, k).1 == Up && next >= 0 ==>
      (NextWindow(dir, current, next, k).0 == Window(next, next + k - 1))
  {
  }

  /** A direction that starts unknown stays unknown through any visits. */
  lemma {:induction false} UnknownStaysUnknown(current: int, visits: seq<int>, k: int)
    ensures Replay(Unknown, current, visits, k) == Unknown
  {
    if visits != [] {
      assert NextWindow(Unknown, current, visits[0], k).1 == Unknown;
      UnknownStaysUnknown(current, visits[1..], k);
    }
  }

  /** The direction after visiting the positions in order (the last position
      is never updated by the adapter, so `current` stays fixed). */
  function Replay(dir: Direction, current: int, visits: seq<int>, k: int): Direction
    decreases |visits|
  {
    if visits == [] then dir else Replay(NextWindow(dir, current, visits[0], k).1, current, visits[1..], k)
  }

  // ------------------------------------------------------------------ list items

  datatype ListRow = ListRow(chapter: string, chunk: string)

  /** The parts of a source container the list is built from. */
  datatype SourceContainer = SourceContainer(chapterSlugs: seq<string>, chunkSlugs: string -> seq<string>)

  /** The rows of one chapter, one per chunk, in order. */
  function ChapterRows(chapter: string, chunks: seq<string>): (r: seq<ListRow>)
    ensures |r| == |chunks| && forall j :: 0 <= j < |chunks| ==> r[j] == ListRow(chapter, chunks[j])
  {
    if chunks == [] then [] else ChapterRows(chapter, chunks[..|chunks| - 1]) + [ListRow(chapter, chunks[|chunks| - 1])]
  }

  /** The rows of the given chapters, chapter by chapter, each chapter's chunks sorted. */
  function AllRows(chapters: seq<string>, c: SourceContainer, sort: seq<string> -> seq<string>): seq<ListRow> {
    if chapters == [] then []
    else
      var n := |chapters| - 1;
      AllRows(chapters[..n], c, sort) + ChapterRows(chapters[n], sort(c.chunkSlugs(chapters[n])))
  }

  /** A row is listed iff its chapter is listed and its chunk is among that chapter's sorted chunks. */
  lemma {:induction false} AllRowsMembers(chapters: seq<string>, c: SourceContainer, sort: seq<string> -> seq<string>, row: ListRow)
    ensures row in AllRows(chapters, c, sort) <==>
      exists i :: 0 <= i < |chapters| && chapters[i] == row.chapter && row.chunk in sort(c.chunkSlugs(chapters[i]))
  {
    if chapters != [] {
      var n := |chapters| - 1;
      AllRowsMembers(chapters[..n], c, sort, row);
      var rows := ChapterRows(chapters[n], sort(c.chunkSlugs(chapters[n])));
      assert row in rows <==> chapters[n] == row.chapter && row.chunk in sort(c.chunkSlugs(chapters[n])) by {
        if row.chunk in sort(c.chunkSlugs(chapters[n])) {
          var j :| 0 <= j < |sort(c.chunkSlugs(chapters[n]))| && sort(c.chunkSlugs(chapters[n]))[j] == row.chunk;
          assert rows[j] == ListRow(chapters[n], row.chunk);
        }
      }
      if exists i :: 0 <= i < n && chapters[..n][i] == row.chapter && row.chunk in sort(c.chunkSlugs(chapters[..n][i])) {
        var i :| 0 <= i < n && chapters[..n][i] == row.chapter && row.chunk in sort(c.chunkSlugs(chapters[..n][i]));
        assert chapters[i] == chapters[..n][i];
      }
      if exists i :: 0 <= i < |chapters| && chapters[i] == row.chapter && row.chunk in sort(c.chunkSlugs(chapters[i])) {
        var i :| 0 <= i < |chapters| && chapters[i] == row.chapter && row.chunk in sort(c.chunkSlugs(chapters[i]));
        if i < n {
          assert chapters[..n][i] == chapters[i];
        }
      }
    }
  }

  /** The start test: the chapter equals the starting one, and the chunk does
      too unless no starting chunk is given. */
  predicate IsStart(row: ListRow, startChapter: Option<string>, startChunk: Option<string>) {
    startChapter == Some(row.chapter) && (startChunk == Some(row.chunk) || startChunk.None?)
  }

  /** The index of the first starting row, or -1. */
  function FirstStart(rows: seq<ListRow>, startChapter: Option<string>, startChunk: Option<string>): (k: int)
    ensures -1 <= k < |rows|
    ensures k >= 0 ==> IsStart(rows[k], startChapter, startChunk)
    ensures forall j :: 0 <= j < |rows| && (k == -1 || j < k) ==> !IsStart(rows[j], startChapter, startChunk)
  {
    if rows == [] then -1
    else
      var n := |rows| - 1;
      var f := FirstStart(rows[..n], startChapter, startChunk);
      if f != -1 then f else if IsStart(rows[n], startChapter, startChunk) then n else -1
  }

  /** The start position: the first starting row, or 0 when there is none. */
  function StartPosition(rows: seq<ListRow>, startChapter: Option<string>, startChunk: Option<string>): (p: int)
    ensures (exists j :: 0 <= j < |rows| && IsStart(rows[j], startChapter, startChunk)) ==>
      0 <= p < |rows| && IsStart(rows[p], startChapter, startChunk)
      && forall j :: 0 <= j < p ==> !IsStart(rows[j], startChapter, startChunk)
    ensures (forall j :: 0 <= j < |rows| ==> !IsStart(rows[j], startChapter, startChunk)) ==> p == 0
  {
    var f := FirstStart(rows, startChapter, startChunk);
    if f == -1 then 0 else f
  }

  /** Listing one more chapter appends its rows. */
  lemma AllRowsSnoc(chapters: seq<string>, x: string, c: SourceContainer, sort: seq<string> -> seq<string>)
    ensures AllRows(chapters + [x], c, sort) == AllRows(chapters, c, sort) + ChapterRows(x, sort(c.chunkSlugs(x)))
  {
    assert (chapters + [x])[..|chapters|] == chapters;
  }

  /** One more row moves the first start only when there was none. */
  lemma FirstStartSnoc(rows: seq<ListRow>, row: ListRow, startChapter: Option<string>, startChunk: Option<string>)
    ensures var f := FirstStart(rows, startChapter, startChunk);
      FirstStart(rows + [row], startChapter, startChunk) ==
        if f != -1 then f else if IsStart(row, startChapter, startChunk) then |rows| else -1
  {
    assert (rows + [row])[..|rows|] == rows;
  }

  // ------------------------------------------------------------------ tab search

  /** A view tree: a group of children, a text view, or any other view. */
  datatype View = ViewGroup(children: seq<View>) | TextView(text: string) | OtherView

  /** The text of the text view at the path of child indices, if there is one. */
  function LeafAt(v: View, path: seq<int>): Option<string>
    decreases |path|
  {
    if path == [] then (if v.TextView? then Some(v.text) else None)
    else if v.ViewGroup? && 0 <= path[0] < |v.children| then LeafAt(v.children[path[0]], path[1..])
    else None
  }

  /** Depth-first order of the views: the lexicographic order of their paths. */
  predicate LexLeq(p: seq<int>, q: seq<int>)
    decreases |p|
  {
    p == [] || (q != [] && (p[0] < q[0] || (p[0] == q[0] && LexLeq(p[1..], q[1..]))))
  }

  /** findTab: the first text view, depth first, whose text is `title`. */
  method FindTab(v: View, title: string) returns (r: Option<seq<int>>)
    requires v.ViewGroup?
    ensures r.Some? ==> LeafAt(v, r.value) == Some(title)
    ensures r.Some? ==> forall q :: LeafAt(v, q) == Some(title) ==> LexLeq(r.value, q)
    ensures r.None? ==> forall q :: LeafAt(v, q) != Some(title)
    decreases v
  {
    var count := |v.children|;
    var i := 0;
    while i < count
      invariant 0 <= i <= count
      invariant forall q :: LeafAt(v, q) == Some(title) ==> q != [] && q[0] >= i
    {
      var view := v.children[i];
      if view.ViewGroup? {
        var found := FindTab(view, title);
        if found.Some? {
          FoundInChild(v, i, found.value, title);
          return Some([i] + found.value);
        }
        NoneInChild(v, i, title);
      } else if view.TextView? {
        if title == view.text {
          assert LeafAt(v, [i]) == Some(title) by {
            assert [i][1..] == [];
          }
          forall q | LeafAt(v, q) == Some(title) ensures LexLeq([i], q) {
            assert q != [] && q[0] >= i;
            if q[0] == i {
              assert LexLeq([i][1..], q[1..]);
            }
          }
          return Some([i]);
        }
        NoneInChild(v, i, title);
      } else {
        NoneInChild(v, i, title);
      }
      i := i + 1;
    }
    return None;
  }

  /** A match below child i, first among that child's matches, is first overall
      when no earlier child holds one. */
  lemma FoundInChild(v: View, i: int, p: seq<int>, title: string)
    requires v.ViewGroup? && 0 <= i < |v.children|
    requires LeafAt(v.children[i], p) == Some(title)
    requires forall q :: LeafAt(v.children[i], q) == Some(title) ==> LexLeq(p, q)
    requires forall q :: LeafAt(v, q) == Some(title) ==> q != [] && q[0] >= i
    ensures LeafAt(v, [i] + p) == Some(title)
    ensures forall q :: LeafAt(v, q) == Some(title) ==> LexLeq([i] + p, q)
  {
    assert ([i] + p)[1..] == p;
    forall q | LeafAt(v, q) == Some(title) ensures LexLeq([i] + p, q) {
      if q[0] == i {
        assert LeafAt(v.children[i], q[1..]) == Some(title);
      }
    }
  }

  /** When child i holds no match, every match lies past it. */
  lemma NoneInChild(v: View, i: int, title: string)
    requires v.ViewGroup? && 0 <= i < |v.children|
    requires v.children[i].ViewGroup? ==> forall q :: LeafAt(v.children[i], q) != Some(title)
    requires v.children[i].TextView? ==> v.children[i].text != title
    requires forall q :: LeafAt(v, q) == Some(title) ==> q != [] && q[0] >= i
    ensures forall q :: LeafAt(v, q) == Some(title) ==> q != [] && q[0] >= i + 1
  {
    forall q | LeafAt(v, q) == Some(title) ensures q[0] >= i + 1 {
      assert LeafAt(v.children[q[0]], q[1..]) == Some(title);
      TextIn(v.children[q[0]], q[1..], title);
    }
  }

  /** A view holding the title is a group, or a text view with that text. */
  lemma TextIn(v: View, path: seq<int>, title: string)
    requires LeafAt(v, path) == Some(title)
    ensures v.ViewGroup? || (v.TextView? && v.text == title)
  {
  }

  // ------------------------------------------------------------------ the adapter

  /** getChapterSlug: the section's chapter slug, "" for a section out of range. */
  function GetChapterSlug(sections: seq<string>, section: int): (r: string)
    ensures 0 <= section < |sections| ==> r == sections[section]
    ensures !(0 <= section < |sections|) ==> r == ""
  {
    if 0 <= section < |sections| then sections[section] else ""
  }

  class ViewModeAdapter<VH> {
    var viewHolders: seq<VH>
    var startPosition: int
    var currentPosition: int
    var direction: Direction
    const startingChapterSlug: Option<string>
    const startingChunkSlug: Option<string>

    constructor (startChapter: Option<string>, startChunk: Option<string>)
      ensures viewHolders == [] && startPosition == 0 && currentPosition == -1 && direction == Unknown
      ensures startingChapterSlug == startChapter && startingChunkSlug == startChunk
    {
      viewHolders := [];
      startPosition := 0;
      currentPosition := -1;
      direction := Unknown;
      startingChapterSlug := startChapter;
      startingChunkSlug := startChunk;
    }

    /** onCreateViewHolder: the new holder is registered. */
    method OnCreateViewHolder(holder: VH) returns (r: VH)
      modifies this`viewHolders
      ensures r == holder && viewHolders == old(viewHolders) + [holder]
    {
      viewHolders := viewHolders + [holder];
      r := holder;
    }

    /** calculateVisibleItems. */
    method CalculateVisibleItems(nextPosition: int) returns (range: seq<int>)
      modifies this`direction
      ensures var (w, d) := NextWindow(old(direction), currentPosition, nextPosition, |viewHolders|);
        range == [w.min, w.max] && direction == d
    {
      var max := 0;
      var min := 0;
      if direction == Down {
        if nextPosition >= currentPosition {
          max := nextPosition;
          min := nextPosition - (|viewHolders| - 1);
        } else {
          max := nextPosition + |viewHolders| - 1;
          min := nextPosition;
          direction := Up;
        }
      } else if direction == Up {
        if nextPosition <= currentPosition {
          max := nextPosition + |viewHolders| - 1;
          min := nextPosition;
        } else {
          max := nextPosition;
          min := nextPosition - (|viewHolders| - 1);
          direction := Down;
        }
      } else {
        max := nextPosition + |viewHolders| - 1;
        min := nextPosition - (|viewHolders| - 1);
      }
      if min < 0 {
        max := max - min;
        min := 0;
      }
      range := [min, max];
    }

    /** initializeListItems: with no container both lists are empty; otherwise
        the sorted chapters, and a row per sorted chunk of each, with the start
        position at the first starting row. */
    method InitializeListItems(container: Option<SourceContainer>, sort: seq<string> -> seq<string>)
      returns (items: seq<ListRow>, chapters: seq<string>)
      modifies this`startPosition
      ensures container.None? ==> items == [] && chapters == []
      ensures container.Some? ==> chapters == sort(container.value.chapterSlugs)
      ensures container.Some? ==> items == AllRows(chapters, container.value, sort)
      ensures startPosition == StartPosition(items, startingChapterSlug, startingChunkSlug)
    {
      startPosition := 0;
      items := [];
      chapters := [];
      var foundStartPosition := false;
      if container.Some? {
        var chapterSlugs := sort(container.value.chapterSlugs);
        var i := 0;
        while i < |chapterSlugs|
          invariant 0 <= i <= |chapterSlugs|
          invariant chapters == chapterSlugs[..i]
          invariant items == AllRows(chapters, container.value, sort)
          invariant Tracked(items, foundStartPosition, startPosition, startingChapterSlug, startingChunkSlug)
        {
          var chapterSlug := chapterSlugs[i];
          PrefixSnoc(chapterSlugs, i);
          AllRowsSnoc(chapters, chapterSlug, container.value, sort);
          chapters := chapters + [chapterSlug];
          var chunkSlugs := sort(container.value.chunkSlugs(chapterSlug));
          var start;
          items, foundStartPosition, start := AddChapter(items, foundStartPosition, startPosition,
            chapterSlug, chunkSlugs, startingChapterSlug, startingChunkSlug);
          startPosition := start;
          i := i + 1;
        }
      }
    }
  }

  /** The inner loop of initializeListItems: one row per chunk of a chapter,
      recording the start position at the first starting row. */
  method AddChapter(items: seq<ListRow>, found: bool, start: int, chapter: string, chunks: seq<string>,
                    startChapter: Option<string>, startChunk: Option<string>)
    returns (rows: seq<ListRow>, foundAfter: bool, startAfter: int)
    requires found <==> FirstStart(items, startChapter, startChunk) != -1
    requires start == StartPosition(items, startChapter, startChunk)
    ensures rows == items + ChapterRows(chapter, chunks)
    ensures foundAfter <==> FirstStart(rows, startChapter, startChunk) != -1
    ensures startAfter == StartPosition(rows, startChapter, startChunk)
  {
    rows, foundAfter, startAfter := items, found, start;
    var j := 0;
    while j < |chunks|
      invariant 0 <= j <= |chunks|
      invariant rows == items + ChapterRows(chapter, chunks[..j])
      invariant Tracked(rows, foundAfter, startAfter, startChapter, startChunk)
    {
      var row := ListRow(chapter, chunks[j]);
      ChapterRowsSnoc(items, chapter, chunks, j);
      TrackedSnoc(rows, row, foundAfter, startAfter, startChapter, startChunk);
      if !foundAfter && IsStart(row, startChapter, startChunk) {
        startAfter := |rows|;
        foundAfter := true;
      }
      rows := rows + [row];
      j := j + 1;
    }
    assert chunks[..j] == chunks;
  }

  lemma PrefixSnoc<T>(s: seq<T>, i: nat)
    requires i < |s|
    ensures s[..i + 1] == s[..i] + [s[i]]
  {
  }

  /** One more chunk appends one row. */
  lemma ChapterRowsSnoc(items: seq<ListRow>, chapter: string, chunks: seq<string>, j: nat)
    requires j < |chunks|
    ensures items + ChapterRows(chapter, chunks[..j + 1]) == (items + ChapterRows(chapter, chunks[..j])) + [ListRow(chapter, chunks[j])]
  {
    assert chunks[..j + 1][..j] == chunks[..j];
  }

  /** What the loop of initializeListItems tracks about the rows so far: whether
      a start was found, and the start position. */
  ghost predicate Tracked(rows: seq<ListRow>, found: bool, start: int, startChapter: Option<string>, startChunk: Option<string>) {
    && (found <==> FirstStart(rows, startChapter, startChunk) != -1)
    && start == StartPosition(rows, startChapter, startChunk)
  }

  lemma TrackedSnoc(rows: seq<ListRow>, row: ListRow, found: bool, start: int,
                    startChapter: Option<string>, startChunk: Option<string>)
    requires Tracked(rows, found, start, startChapter, startChunk)
    ensures var hit := !found && IsStart(row, startChapter, startChunk);
      Tracked(rows + [row], found || hit, if hit then |rows| else start, startChapter, startChunk)
  {
    FirstStartSnoc(rows, row, startChapter, startChunk);
  }
}

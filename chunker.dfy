/**
  The page-aware chunker of the ingestion path (`splitText`): the extracted
  text is cut into pages at form-feed characters, and every page is walked
  with a window of `ChunkSize` characters that advances `Step` characters at a
  time, so that consecutive windows of one page share up to `Overlap`
  characters, fewer when the later window reaches the end of the page (see
  `WindowOverlap`). Each window becomes a chunk tagged with its 1-based page
  number.
*/
module Chunker {
  import opened JsText

  const ChunkSize: nat := 500
  const Overlap: nat := 100
  /** How far the window start advances each step (`chunkSize - overlap`). */
  const Step: nat := ChunkSize - Overlap
  /** The page separator `'\f'`. */
  const FormFeed: char := 12 as char

  datatype Chunk = Chunk(text: string, page: nat)

  /** Number of windows the loop visits on a page of `len` characters: one
      for every start `0, Step, 2 * Step, ...` below `len`, that is
      `ceil(len / Step)`. */
  function NumWindows(len: nat): (n: nat)
    ensures n == 0 <==> len == 0
    ensures n > 0 ==> Step * (n - 1) < len <= Step * n
  {
    (len + Step - 1) / Step
  }

  /** The `k`-th window of a page: `pageText.slice(Step * k, Step * k + ChunkSize)`,
      at most `ChunkSize` characters read from offset `Step * k` on. */
  function Window(pageText: string, k: nat): (r: string)
    ensures |r| <= ChunkSize && (|r| > 0 ==> Step * k + |r| <= |pageText|)
    ensures forall j :: 0 <= j < |r| ==> r[j] == pageText[Step * k + j]
  {
    Slice(pageText, Step * k, Step * k + ChunkSize)
  }

  /** The chunks of one page, in window order, all tagged `page`. */
  function PageChunks(pageText: string, page: nat): (r: seq<Chunk>)
    ensures |r| == NumWindows(|pageText|)
    ensures forall k :: 0 <= k < |r| ==> r[k].page == page && r[k].text == Window(pageText, k)
  {
    seq(NumWindows(|pageText|), k requires 0 <= k => Chunk(Window(pageText, k), page))
  }

  /** The chunks of a sequence of pages, page by page; page `i` (0-based)
      is tagged `i + 1`. */
  function ChunkPages(pages: seq<string>): seq<Chunk>
  {
    if pages == [] then []
    else ChunkPages(pages[..|pages| - 1]) + PageChunks(pages[|pages| - 1], |pages|)
  }

  /** What `splitText(text)` returns: chunks in page order, tagged with
      pages that exist, where the chunks tagged `p` are exactly the windows
      of page `p`. */
  function Chunks(text: string): (r: seq<Chunk>)
    ensures forall i, j :: 0 <= i <= j < |r| ==> r[i].page <= r[j].page
    ensures forall i :: 0 <= i < |r| ==> 1 <= r[i].page <= |Split(text, FormFeed)|
    ensures forall p :: 1 <= p <= |Split(text, FormFeed)| ==>
              OnPage(r, p) == PageChunks(Split(text, FormFeed)[p - 1], p)
  {
    var pages := Split(text, FormFeed);
    PagesOrdered(pages);
    PagesInRange(pages);
    EveryPageChunked(pages);
    ChunkPages(pages)
  }

  /** `splitText`: the `forEach` over the pages of the text. */
  method SplitText(text: string) returns (chunks: seq<Chunk>)
    ensures chunks == Chunks(text)
  {
    var pages := Split(text, FormFeed);
    chunks := [];
    var pageIndex := 0;
    while pageIndex < |pages|
      invariant 0 <= pageIndex <= |pages|
      invariant chunks == ChunkPages(pages[..pageIndex])
    {
      chunks := PushPageChunks(chunks, pages[pageIndex], pageIndex + 1);
      assert pages[..pageIndex + 1][..pageIndex] == pages[..pageIndex];
      pageIndex := pageIndex + 1;
    }
    assert pages[..|pages|] == pages;
  }

  /** The callback of the `forEach`: the `for` loop over the window starts
      of one page, pushing one chunk tagged `page` per start. */
  method PushPageChunks(chunks: seq<Chunk>, pageText: string, page: nat) returns (pushed: seq<Chunk>)
    ensures pushed == chunks + PageChunks(pageText, page)
  {
    ghost var pageChunks := PageChunks(pageText, page);
    ghost var k := 0;
    pushed := chunks;
    var i := 0;
    while i < |pageText|
      invariant i == Step * k
      invariant k <= |pageChunks|
      invariant pushed == chunks + pageChunks[..k]
    {
      WindowStart(|pageText|, k);
      NextChunk(pageText, page, k);
      var chunk := Slice(pageText, i, i + ChunkSize);
      pushed := pushed + [Chunk(chunk, page)];
      i := i + Step;
      k := k + 1;
    }
    WindowStart(|pageText|, k);
    assert pageChunks[..k] == pageChunks;
  }

  /** One more step of the loop extends the chunks of a page by window `k`. */
  lemma NextChunk(pageText: string, page: nat, k: nat)
    requires k < NumWindows(|pageText|)
    ensures PageChunks(pageText, page)[..k + 1] ==
            PageChunks(pageText, page)[..k] + [Chunk(Slice(pageText, Step * k, Step * k + ChunkSize), page)]
  {
    var cs := PageChunks(pageText, page);
    assert cs[k] == Chunk(Window(pageText, k), page);
    assert cs[..k + 1] == cs[..k] + [cs[k]];
  }

  /** The loop test `i < pageText.length` at `i = Step * k` holds exactly for
      the window numbers `k` that `NumWindows` counts. */
  lemma WindowStart(len: nat, k: nat)
    ensures Step * k < len <==> k < NumWindows(len)
  {
    var n := NumWindows(len);
    if k < n {
      assert Step * k <= Step * (n - 1);
    } else if n > 0 {
      assert Step * k >= Step * n;
    }
  }

  // ---------------------------------------------------------------------
  // One page
  // ---------------------------------------------------------------------

  /** Window `k` of a page starts at offset `Step * k` and is the contiguous
      slice of the page up to `Step * k + ChunkSize`, cut short at the end of
      the page; it is never empty. */
  lemma WindowText(pageText: string, k: nat)
    requires k < NumWindows(|pageText|)
    ensures Step * k < |pageText|
    ensures Window(pageText, k) == pageText[Step * k..Min(Step * k + ChunkSize, |pageText|)]
  {
    var w := Window(pageText, k);
    assert Step * k <= Step * (NumWindows(|pageText|) - 1);
    assert |w| == Min(Step * k + ChunkSize, |pageText|) - Step * k;
  }

  /** Lengths of the windows: never more than `ChunkSize`; exactly
      `ChunkSize` precisely when the page extends that far; every window but
      the last is longer than `Step`, and the last is at most `Step` long. */
  lemma WindowLength(pageText: string, k: nat)
    requires k < NumWindows(|pageText|)
    ensures 0 < |Window(pageText, k)| <= ChunkSize
    ensures |Window(pageText, k)| == ChunkSize <==> Step * k + ChunkSize <= |pageText|
    ensures k + 1 < NumWindows(|pageText|) ==> |Window(pageText, k)| > Step
    ensures k + 1 == NumWindows(|pageText|) ==> |Window(pageText, k)| <= Step
  {
    WindowText(pageText, k);
    var n := NumWindows(|pageText|);
    if k + 1 < n {
      assert Step * (k + 1) <= Step * (n - 1);
    }
  }

  /** A page of 850 characters has three windows, and the middle one is
      450 characters long although it is not the last: a window shorter than
      `ChunkSize` can precede the final one. */
  lemma ShortWindowBeforeLast()
    ensures var p := seq(850, _ => 'a');
            NumWindows(|p|) == 3 && |Window(p, 1)| == 450
  {
    var p := seq(850, _ => 'a');
    WindowText(p, 1);
  }

  /** Consecutive windows of one page overlap: what window `k` holds past its
      first `Step` characters is exactly the beginning of window `k + 1`, and
      that shared part is `Overlap` characters long, or less near the end of
      the page. */
  lemma WindowOverlap(pageText: string, k: nat)
    requires k + 1 < NumWindows(|pageText|)
    ensures |Window(pageText, k)| - Step == Min(Overlap, |pageText| - Step * (k + 1))
    ensures |Window(pageText, k)| - Step <= |Window(pageText, k + 1)|
    ensures Window(pageText, k)[Step..] == Window(pageText, k + 1)[..|Window(pageText, k)| - Step]
  {
    WindowText(pageText, k);
    WindowText(pageText, k + 1);
  }

  /** When the last window of a page has at most `Overlap` characters, it is
      entirely contained in the window before it: the loop still emits it,
      as a chunk that adds no new text. */
  lemma RedundantLastWindow(pageText: string)
    requires NumWindows(|pageText|) >= 2
    requires |pageText| - Step * (NumWindows(|pageText|) - 1) <= Overlap
    ensures Window(pageText, NumWindows(|pageText|) - 1) == Window(pageText, NumWindows(|pageText|) - 2)[Step..]
  {
    var n := NumWindows(|pageText|);
    WindowText(pageText, n - 1);
    WindowText(pageText, n - 2);
  }

  /** Shifting a page by one step shifts its windows by one. */
  lemma WindowShift(pageText: string, k: nat)
    requires |pageText| > Step
    ensures Window(pageText, k + 1) == Window(pageText[Step..], k)
  {
    var a, b := Window(pageText, k + 1), Window(pageText[Step..], k);
    assert |a| == |b|;
    forall i | 0 <= i < |a| ensures a[i] == b[i] {
      assert a[i] == pageText[Step * (k + 1) + i];
    }
  }

  /** The texts of a list of chunks, in order. */
  function Texts(chunks: seq<Chunk>): (r: seq<string>)
    ensures |r| == |chunks|
    ensures forall i :: 0 <= i < |chunks| ==> r[i] == chunks[i].text
  {
    if chunks == [] then [] else [chunks[0].text] + Texts(chunks[1..])
  }

  /** The first `Step` characters of each window but the last, followed by
      the whole last window. */
  function Reassemble(windows: seq<string>): string
  {
    if |windows| == 0 then []
    else if |windows| == 1 then windows[0]
    else windows[0][..Min(Step, |windows[0]|)] + Reassemble(windows[1..])
  }

  /** Coverage: the non-overlapping parts of a page's chunks put back
      together are the page text, so every character of the page lies in
      some chunk. */
  lemma {:induction false} Coverage(pageText: string, page: nat)
    ensures Reassemble(Texts(PageChunks(pageText, page))) == pageText
    decreases |pageText|
  {
    var cs := PageChunks(pageText, page);
    var n := |cs|;
    if n == 1 {
      WindowText(pageText, 0);
    } else if n > 1 {
      var rest := pageText[Step..];
      var rs := PageChunks(rest, page);
      assert NumWindows(|rest|) == n - 1;
      forall i | 0 <= i < n - 1 ensures cs[i + 1] == rs[i] {
        WindowShift(pageText, i);
      }
      assert Texts(cs)[1..] == Texts(rs);
      WindowText(pageText, 0);
      Coverage(rest, page);
      assert pageText == pageText[..Step] + rest;
    }
  }

  // ---------------------------------------------------------------------
  // The whole text
  // ---------------------------------------------------------------------

  /** Chunks that carry page tag `page`, in order. */
  function OnPage(chunks: seq<Chunk>, page: nat): (r: seq<Chunk>)
    ensures forall i :: 0 <= i < |r| ==> r[i].page == page
    ensures |r| <= |chunks|
  {
    if chunks == [] then []
    else (if chunks[0].page == page then [chunks[0]] else []) + OnPage(chunks[1..], page)
  }

  lemma {:induction false} OnPageAppend(a: seq<Chunk>, b: seq<Chunk>, page: nat)
    ensures OnPage(a + b, page) == OnPage(a, page) + OnPage(b, page)
  {
    if a == [] {
      assert a + b == b;
    } else {
      var head := if a[0].page == page then [a[0]] else [];
      OnPageAppend(a[1..], b, page);
      assert (a + b)[0] == a[0];
      assert (a + b)[1..] == a[1..] + b;
      assert OnPage(a + b, page) == head + OnPage(a[1..] + b, page);
      assert OnPage(a, page) == head + OnPage(a[1..], page);
    }
  }

  lemma {:induction false} OnPageUniform(cs: seq<Chunk>, tag: nat, page: nat)
    requires forall i :: 0 <= i < |cs| ==> cs[i].page == tag
    ensures OnPage(cs, page) == if tag == page then cs else []
  {
    if cs != [] {
      OnPageUniform(cs[1..], tag, page);
      assert cs == [cs[0]] + cs[1..];
    }
  }

  /** The chunks tagged with page `p` are exactly the windows of page `p`,
      in window order, with nothing from any other page. */
  lemma {:induction false} ChunksOfPage(pages: seq<string>, p: nat)
    requires 1 <= p <= |pages|
    ensures OnPage(ChunkPages(pages), p) == PageChunks(pages[p - 1], p)
  {
    var m := |pages|;
    var init := pages[..m - 1];
    OnPageAppend(ChunkPages(init), PageChunks(pages[m - 1], m), p);
    OnPageUniform(PageChunks(pages[m - 1], m), m, p);
    if p < m {
      ChunksOfPage(init, p);
    } else {
      PagesInRange(init);
      OnPageNone(ChunkPages(init), p);
    }
  }

  lemma EveryPageChunked(pages: seq<string>)
    ensures forall p :: 1 <= p <= |pages| ==> OnPage(ChunkPages(pages), p) == PageChunks(pages[p - 1], p)
  {
    forall p | 1 <= p <= |pages|
      ensures OnPage(ChunkPages(pages), p) == PageChunks(pages[p - 1], p)
    {
      ChunksOfPage(pages, p);
    }
  }

  lemma {:induction false} OnPageNone(cs: seq<Chunk>, page: nat)
    requires forall i :: 0 <= i < |cs| ==> cs[i].page < page
    ensures OnPage(cs, page) == []
  {
    if cs != [] {
      OnPageNone(cs[1..], page);
    }
  }

  /** Every chunk of a sequence of pages carries a tag between 1 and the
      number of pages. */
  lemma {:induction false} PagesInRange(pages: seq<string>)
    ensures forall i :: 0 <= i < |ChunkPages(pages)| ==> 1 <= ChunkPages(pages)[i].page <= |pages|
  {
    if pages != [] {
      PagesInRange(pages[..|pages| - 1]);
    }
  }

  /** Chunks come out in page order: tags never decrease along the output. */
  lemma {:induction false} PagesOrdered(pages: seq<string>)
    ensures forall i, j :: 0 <= i <= j < |ChunkPages(pages)| ==> ChunkPages(pages)[i].page <= ChunkPages(pages)[j].page
  {
    if pages != [] {
      var init := pages[..|pages| - 1];
      PagesOrdered(init);
      PagesInRange(init);
    }
  }

  /** Every chunk of a sequence of pages is window `k` of page `pi` for some
      page index and window number in range, tagged `pi + 1`. */
  lemma {:induction false} ChunkOrigin(pages: seq<string>, j: nat)
    requires j < |ChunkPages(pages)|
    ensures exists pi: nat, k: nat :: pi < |pages| && k < NumWindows(|pages[pi]|) &&
              ChunkPages(pages)[j] == Chunk(Window(pages[pi], k), pi + 1)
  {
    var m := |pages|;
    var init := pages[..m - 1];
    var front := ChunkPages(init);
    if j < |front| {
      ChunkOrigin(init, j);
      var pi: nat, k: nat :| pi < |init| && k < NumWindows(|init[pi]|) &&
                   front[j] == Chunk(Window(init[pi], k), pi + 1);
      assert init[pi] == pages[pi];
    } else {
      var k := j - |front|;
      assert ChunkPages(pages)[j] == Chunk(Window(pages[m - 1], k), m);
    }
  }

  /** No chunk contains a form feed, so no chunk spans two pages; the tags
      run from 1 to the number of form feeds plus one. */
  lemma ChunksStayOnPage(text: string)
    ensures forall i :: 0 <= i < |Chunks(text)| ==>
              FormFeed !in Chunks(text)[i].text &&
              1 <= Chunks(text)[i].page <= Count(text, FormFeed) + 1
  {
    var pages := Split(text, FormFeed);
    SplitCount(text, FormFeed);
    PagesInRange(pages);
    forall i | 0 <= i < |Chunks(text)|
      ensures FormFeed !in Chunks(text)[i].text
    {
      ChunkOrigin(pages, i);
      var pi: nat, k: nat :| pi < |pages| && k < NumWindows(|pages[pi]|) &&
                   Chunks(text)[i] == Chunk(Window(pages[pi], k), pi + 1);
      WindowText(pages[pi], k);
      assert FormFeed !in pages[pi];
    }
  }

  /** Empty pages, including the empty text and the empty segments between
      adjacent form feeds, contribute no chunks. */
  lemma EmptyPages(text: string)
    requires forall i :: 0 <= i < |Split(text, FormFeed)| ==> Split(text, FormFeed)[i] == []
    ensures Chunks(text) == []
  {
    EmptyPagesChunkNothing(Split(text, FormFeed));
  }

  lemma {:induction false} EmptyPagesChunkNothing(pages: seq<string>)
    requires forall i :: 0 <= i < |pages| ==> pages[i] == []
    ensures ChunkPages(pages) == []
  {
    if pages != [] {
      EmptyPagesChunkNothing(pages[..|pages| - 1]);
    }
  }

  /** A two-page text, 450 characters then 900 characters. Page 1 yields
      two chunks, the whole page and then its last 50 characters `[400, 450)`
      once more; page 2 yields three chunks starting at 0, 400 and 800, the
      last holding the 100 characters `[800, 900)` that the second chunk
      already covers. */
  lemma TwoPageScenario()
    ensures var p1, p2 := seq(450, _ => 'a'), seq(900, _ => 'b');
            var cs := Chunks(p1 + [FormFeed] + p2);
            |cs| == 5 &&
            cs[0] == Chunk(p1, 1) &&
            cs[1] == Chunk(p1[400..450], 1) &&
            cs[2] == Chunk(p2[0..500], 2) &&
            cs[3] == Chunk(p2[400..900], 2) &&
            cs[4] == Chunk(p2[800..900], 2)
  {
    var p1, p2 := seq(450, _ => 'a'), seq(900, _ => 'b');
    var pages := [p1, p2];
    assert FormFeed !in p1 && FormFeed !in p2;
    SplitJoin(pages, FormFeed);
    assert Join(pages, FormFeed) == p1 + [FormFeed] + p2;
    TwoPageWindows(p1, p2);
  }

  /** The chunks of the two pages of the scenario above. */
  lemma TwoPageWindows(p1: string, p2: string)
    requires |p1| == 450 && |p2| == 900
    ensures var cs := ChunkPages([p1, p2]);
            |cs| == 5 &&
            cs[0] == Chunk(p1, 1) &&
            cs[1] == Chunk(p1[400..450], 1) &&
            cs[2] == Chunk(p2[0..500], 2) &&
            cs[3] == Chunk(p2[400..900], 2) &&
            cs[4] == Chunk(p2[800..900], 2)
  {
    var pages := [p1, p2];
    assert pages[..1] == [p1];
    assert ChunkPages([p1]) == ChunkPages([]) + PageChunks(p1, 1);
    var cs := ChunkPages(pages);
    assert cs == PageChunks(p1, 1) + PageChunks(p2, 2);
    WindowText(p1, 0);
    WindowText(p1, 1);
    WindowText(p2, 0);
    WindowText(p2, 1);
    WindowText(p2, 2);
    assert cs[0] == Chunk(Window(p1, 0), 1);
    assert cs[1] == Chunk(Window(p1, 1), 1);
    assert cs[2] == Chunk(Window(p2, 0), 2);
    assert cs[3] == Chunk(Window(p2, 1), 2);
    assert cs[4] == Chunk(Window(p2, 2), 2);
  }
}

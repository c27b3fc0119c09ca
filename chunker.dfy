/**
 * Splitting extracted text into overlapping chunks (`DocumentProcessor._create_chunks`).
 * Windows are `ChunkSize` characters long, consecutive windows overlap by `Overlap`
 * characters, and a window that does not reach the end of the text is cut right after the
 * last `.`, `!` or `?` among its final `Lookback` positions.
 */
module Chunker {
  import opened Wrappers
  import opened Text
  import opened Records

  const ChunkSize: nat := 1000
  const Overlap: nat := 200
  const Lookback: nat := 100

  predicate IsTerminal(c: char) {
    c == '.' || c == '!' || c == '?'
  }

  function Max(a: int, b: int): int {
    if a < b then b else a
  }

  /** Python's `text[start:end]` for non-negative bounds: clamped to the text, empty when `end <= start`. */
  function Slice(text: string, start: nat, end: nat): string {
    if end <= start || |text| <= start then []
    else if end <= |text| then text[start..end]
    else text[start..]
  }

  /** A window `[start, end)` of the text visited by the chunking loop. */
  datatype Window = Window(start: nat, end: nat)

  /** The highest index in `(lo, hi]` that holds a sentence terminal, if any. */
  function LastTerminal(text: string, hi: int, lo: nat): (r: Option<nat>)
    requires hi < |text|
    ensures r.Some? ==> lo < r.value <= hi
    decreases hi - lo
  {
    if hi <= lo then None
    else if IsTerminal(text[hi]) then Some(hi)
    else LastTerminal(text, hi - 1, lo)
  }

  /** `LastTerminal` finds a terminal with none above it, or there is none in the range at all. */
  lemma {:induction false} LastTerminalFound(text: string, hi: int, lo: nat)
    requires hi < |text|
    ensures var r := LastTerminal(text, hi, lo);
      && (r.Some? ==> IsTerminal(text[r.value]) && forall k :: r.value < k <= hi ==> !IsTerminal(text[k]))
      && (r.None? ==> forall k :: lo < k <= hi ==> !IsTerminal(text[k]))
    decreases hi - lo
  {
    if lo < hi && !IsTerminal(text[hi]) {
      LastTerminalFound(text, hi - 1, lo);
    }
  }

  /**
   * Where the window that starts at `start` ends: at `start + ChunkSize` when the window
   * reaches the end of the text, otherwise right after the last terminal in
   * `(start + ChunkSize - Lookback, start + ChunkSize]`, or at `start + ChunkSize` when there
   * is none. A window is therefore 902 to 1001 characters long.
   */
  function WindowEnd(text: string, start: nat): (end: nat)
    ensures start + ChunkSize - Lookback + 2 <= end <= start + ChunkSize + 1
  {
    var end := start + ChunkSize;
    if end < |text| then
      match LastTerminal(text, end, Max(start, end - Lookback))
      case Some(i) => i + 1
      case None => end
    else end
  }

  /**
   * The cut `WindowEnd` makes: a window that reaches the end of the text ends at
   * `start + ChunkSize`; any other window ends right after a terminal with no terminal after
   * it up to `start + ChunkSize`, or at `start + ChunkSize` when its last `Lookback` positions
   * hold no terminal.
   */
  lemma WindowEndCut(text: string, start: nat)
    ensures var end := WindowEnd(text, start);
      && (start + ChunkSize >= |text| ==> end == start + ChunkSize)
      && (start + ChunkSize < |text| ==>
            || (IsTerminal(text[end - 1]) && forall k :: end <= k <= start + ChunkSize ==> !IsTerminal(text[k]))
            || (end == start + ChunkSize &&
                forall k :: start + ChunkSize - Lookback < k <= start + ChunkSize ==> !IsTerminal(text[k])))
  {
    var end := start + ChunkSize;
    if end < |text| {
      LastTerminalFound(text, end, Max(start, end - Lookback));
    }
  }

  /** The windows the chunking loop visits when it starts at `start`. */
  function WindowsFrom(text: string, start: nat): seq<Window>
    decreases |text| - start
  {
    if |text| <= start then []
    else
      var end := WindowEnd(text, start);
      [Window(start, end)] + WindowsFrom(text, end - Overlap)
  }

  /** The chunk one window yields: its stripped text, unless that is empty. */
  function ChunkOf(text: string, w: Window): seq<Chunk> {
    var piece := Strip(Slice(text, w.start, w.end));
    if piece != [] then [Chunk(piece, w.start, w.end, |piece|)] else []
  }

  /** The chunks a sequence of windows yields, in window order. */
  function ChunksOf(text: string, ws: seq<Window>): seq<Chunk> {
    if ws == [] then [] else ChunksOf(text, ws[..|ws| - 1]) + ChunkOf(text, ws[|ws| - 1])
  }

  /** The chunks `_create_chunks` returns for `text`. */
  function Chunks(text: string): seq<Chunk> {
    ChunksOf(text, WindowsFrom(text, 0))
  }

  /**
   * The end of the window that starts at `start`: the sentence-boundary search of
   * `_create_chunks`, scanning down from `start + ChunkSize`.
   */
  method CutPoint(text: string, start: nat) returns (end: nat)
    ensures end == WindowEnd(text, start)
  {
    end := start + ChunkSize;
    if end < |text| {
      var lo: nat := Max(start, end - Lookback);
      var i: int := end;
      while i > lo
        invariant lo <= i <= end
        invariant end == start + ChunkSize
        invariant LastTerminal(text, i, lo) == LastTerminal(text, end, lo)
      {
        if IsTerminal(text[i]) {
          end := i + 1;
          break;
        }
        i := i - 1;
      }
    }
  }

  lemma ChunksOfSnoc(text: string, ws: seq<Window>, w: Window)
    ensures ChunksOf(text, ws + [w]) == ChunksOf(text, ws) + ChunkOf(text, w)
  {
    assert (ws + [w])[..|ws|] == ws;
  }

  /**
   * The chunk of the window `[start, end)`: nothing for a blank slice, otherwise one chunk
   * holding the stripped slice, the window's bounds and the stripped length.
   */
  method ChunkAt(text: string, start: nat, end: nat) returns (c: seq<Chunk>)
    ensures c == [] <==> IsBlank(Slice(text, start, end))
    ensures c != [] ==> |c| == 1 && c[0].text == Strip(Slice(text, start, end))
                        && c[0].start == start && c[0].end == end && c[0].length == |c[0].text|
    ensures c == ChunkOf(text, Window(start, end))
  {
    var chunkText := Strip(Slice(text, start, end));
    StripEnds(Slice(text, start, end));
    c := [];
    if chunkText != [] {
      c := [Chunk(chunkText, start, end, |chunkText|)];
    }
  }

  /** `DocumentProcessor._create_chunks`. */
  method CreateChunks(text: string) returns (chunks: seq<Chunk>)
    ensures chunks == Chunks(text)
  {
    chunks := [];
    var start: nat := 0;
    ghost var ws := WindowsFrom(text, 0);
    ghost var n := 0;
    WindowsFromEmpty(text, 0);
    while start < |text|
      invariant n <= |ws| && (n < |ws| <==> start < |text|)
      invariant n < |ws| ==> ws[n].start == start
      invariant chunks == ChunksOf(text, ws[..n])
      decreases |text| - start
    {
      var end := CutPoint(text, start);
      var c := ChunkAt(text, start, end);
      NextWindow(text, ws, n);
      ChunksOfTake(text, ws, n);
      chunks := chunks + c;
      n := n + 1;
      start := end - Overlap;
      if start >= |text| {
        break;
      }
    }
    assert ws[..n] == ws;
  }

  /** The loop visits no window exactly when it starts past the end of the text. */
  lemma WindowsFromEmpty(text: string, start: nat)
    ensures WindowsFrom(text, start) == [] <==> |text| <= start
  {
  }

  /**
   * The `n`-th window visited ends where `WindowEnd` says; the next one starts `Overlap`
   * before that, unless the text ends first.
   */
  lemma NextWindow(text: string, ws: seq<Window>, n: nat)
    requires ws == WindowsFrom(text, 0) && n < |ws|
    ensures ws[n].end == WindowEnd(text, ws[n].start)
    ensures n + 1 < |ws| <==> ws[n].end - Overlap < |text|
    ensures n + 1 < |ws| ==> ws[n + 1].start == ws[n].end - Overlap
  {
    WindowsFromIsChain(text, 0);
    assert ws[n].start < |text| && ws[n].end == WindowEnd(text, ws[n].start);
    if n + 1 < |ws| {
      assert ws[n + 1].start == ws[n].end - Overlap;
      assert ws[n + 1].start < |text|;
    } else {
      assert |text| <= ws[|ws| - 1].end - Overlap;
    }
  }

  /** The chunks of one more window of a sequence. */
  lemma ChunksOfTake(text: string, ws: seq<Window>, n: nat)
    requires n < |ws|
    ensures ChunksOf(text, ws[..n + 1]) == ChunksOf(text, ws[..n]) + ChunkOf(text, ws[n])
  {
    assert ws[..n + 1][..n] == ws[..n];
  }

  /* ---------------------------------------------------------------------------------------- */
  /* Properties of the windows                                                                 */

  /**
   * A characterisation of the visited windows that does not follow the loop: they start at
   * `start`, each ends where `WindowEnd` says, each next one starts `Overlap` before the end of
   * the previous one, every window starts inside the text, and the last one is followed by a
   * start at or past the end of the text.
   */
  predicate IsWindowChain(text: string, start: nat, ws: seq<Window>) {
    && (ws == [] <==> |text| <= start)
    && (ws != [] ==> ws[0].start == start && |text| <= ws[|ws| - 1].end - Overlap)
    && (forall k :: 0 <= k < |ws| ==> ws[k].start < |text| && ws[k].end == WindowEnd(text, ws[k].start))
    && (forall j, k :: 0 <= j && k == j + 1 < |ws| ==> ws[k].start == ws[j].end - Overlap)
  }

  /** The loop's windows form such a chain. */
  lemma {:induction false} WindowsFromIsChain(text: string, start: nat)
    ensures IsWindowChain(text, start, WindowsFrom(text, start))
    decreases |text| - start
  {
    if start < |text| {
      var end := WindowEnd(text, start);
      var rest := WindowsFrom(text, end - Overlap);
      WindowsFromIsChain(text, end - Overlap);
      var ws := WindowsFrom(text, start);
      assert ws == [Window(start, end)] + rest;
      forall k | 1 <= k < |ws|
        ensures ws[k] == rest[k - 1]
      {
      }
    }
  }

  /** ... and the chain is unique, so it pins down the windows completely. */
  lemma {:induction false} ChainIsWindowsFrom(text: string, start: nat, ws: seq<Window>)
    requires IsWindowChain(text, start, ws)
    ensures ws == WindowsFrom(text, start)
    decreases |ws|
  {
    ChainHead(text, start, ws);
    if ws != [] {
      ChainTail(text, start, ws);
      ChainIsWindowsFrom(text, WindowEnd(text, start) - Overlap, ws[1..]);
      ConsWindows(text, start, ws);
    }
  }

  /** A chain is empty exactly when it starts past the text; otherwise its first window is the loop's first. */
  lemma ChainHead(text: string, start: nat, ws: seq<Window>)
    requires IsWindowChain(text, start, ws)
    ensures ws == [] <==> |text| <= start
    ensures ws == [] ==> ws == WindowsFrom(text, start)
    ensures ws != [] ==> ws[0] == Window(start, WindowEnd(text, start))
  {
  }

  /** The loop's first window followed by the loop's windows from the next start are the loop's windows. */
  lemma ConsWindows(text: string, start: nat, ws: seq<Window>)
    requires start < |text| && ws != [] && ws[0] == Window(start, WindowEnd(text, start))
    requires ws[1..] == WindowsFrom(text, WindowEnd(text, start) - Overlap)
    ensures ws == WindowsFrom(text, start)
  {
    assert ws == [ws[0]] + ws[1..];
  }

  /** A chain without its first window is the chain from where the second window starts. */
  lemma ChainTail(text: string, start: nat, ws: seq<Window>)
    requires IsWindowChain(text, start, ws) && ws != []
    ensures IsWindowChain(text, WindowEnd(text, start) - Overlap, ws[1..])
  {
    var tail := ws[1..];
    if tail != [] {
      assert tail[0] == ws[1];
    }
    forall j, k | 0 <= j && k == j + 1 < |tail|
      ensures tail[k].start == tail[j].end - Overlap
    {
      assert tail[k] == ws[k + 1] && tail[j] == ws[j + 1];
    }
  }

  /** Each window is at most `ChunkSize + 1` long, and the next one starts at least 702 further on. */
  lemma WindowsAdvance(text: string)
    ensures var ws := WindowsFrom(text, 0);
      && (forall k :: 0 <= k < |ws| ==> ws[k].start < ws[k].end <= ws[k].start + ChunkSize + 1)
      && (forall k :: 0 <= k < |ws| - 1 ==>
            && ws[k + 1].start == ws[k].end - Overlap
            && ws[k].start + ChunkSize - Lookback - Overlap + 2 <= ws[k + 1].start < ws[k].end)
  {
    WindowsFromIsChain(text, 0);
  }

  /** The windows visited from `start` on cover every position of the text from `start` on. */
  lemma {:induction false} WindowsCover(text: string, start: nat, p: nat)
    requires start <= p < |text|
    ensures exists k :: 0 <= k < |WindowsFrom(text, start)|
              && WindowsFrom(text, start)[k].start <= p < WindowsFrom(text, start)[k].end
    decreases |text| - start
  {
    var ws := WindowsFrom(text, start);
    var end := WindowEnd(text, start);
    assert ws[0] == Window(start, end);
    if end <= p {
      WindowsCover(text, end - Overlap, p);
      var rest := WindowsFrom(text, end - Overlap);
      var k :| 0 <= k < |rest| && rest[k].start <= p < rest[k].end;
      assert ws[k + 1] == rest[k];
    }
  }

  /** The number of windows visited from `start` on: one per 702 characters, rounded up. */
  lemma {:induction false} WindowCount(text: string, start: nat)
    requires start <= |text|
    ensures |WindowsFrom(text, start)| * (ChunkSize - Lookback - Overlap + 2) <= |text| - start + ChunkSize - Lookback - Overlap + 1
    decreases |text| - start
  {
    if start < |text| {
      var step := ChunkSize - Lookback - Overlap + 2;
      var next := WindowEnd(text, start) - Overlap;
      assert start + step <= next;
      var n := |WindowsFrom(text, next)|;
      assert |WindowsFrom(text, start)| == n + 1;
      assert (n + 1) * step == n * step + step;
      if next < |text| {
        WindowCount(text, next);
      } else {
        assert n == 0;
      }
    }
  }

  /* ---------------------------------------------------------------------------------------- */
  /* Properties of the chunks                                                                  */

  /** `Slice` is `text[start:end]`: the positions of the text in `[start, end)`, in order. */
  lemma SliceIndex(text: string, start: nat, end: nat)
    ensures |Slice(text, start, end)| <= |text|
    ensures forall i :: 0 <= i < |Slice(text, start, end)| ==>
      start + i < end && start + i < |text| && Slice(text, start, end)[i] == text[start + i]
    ensures forall p :: start <= p < end && p < |text| ==>
      p - start < |Slice(text, start, end)| && Slice(text, start, end)[p - start] == text[p]
  {
  }

  /** What one chunk is: a non-empty stripped window, with its own length. */
  predicate IsChunkOfWindow(text: string, c: Chunk, w: Window) {
    && c.start == w.start && c.end == w.end
    && c.text == Strip(Slice(text, w.start, w.end)) && c.text != []
    && c.length == |c.text|
  }

  /** Every chunk comes from one of the windows, in window order. */
  lemma {:induction false} ChunksOfFromWindows(text: string, ws: seq<Window>)
    ensures |ChunksOf(text, ws)| <= |ws|
    ensures forall c :: c in ChunksOf(text, ws) ==> exists w :: w in ws && IsChunkOfWindow(text, c, w)
  {
    if ws != [] {
      ChunksOfFromWindows(text, ws[..|ws| - 1]);
      forall c | c in ChunksOf(text, ws)
        ensures exists w :: w in ws && IsChunkOfWindow(text, c, w)
      {
        if c in ChunksOf(text, ws[..|ws| - 1]) {
          var w :| w in ws[..|ws| - 1] && IsChunkOfWindow(text, c, w);
          assert w in ws;
        } else {
          assert IsChunkOfWindow(text, c, ws[|ws| - 1]);
        }
      }
    }
  }

  /**
   * Every chunk `_create_chunks` emits is non-empty, is `text[start:end].strip()` and carries its
   * own length; its window starts inside the text and ends where `WindowEnd` says.
   */
  lemma ChunkShape(text: string)
    ensures forall c :: c in Chunks(text) ==>
      && c.text != [] && c.text == Strip(Slice(text, c.start, c.end)) && c.length == |c.text|
      && c.start < |text| && c.end == WindowEnd(text, c.start)
  {
    var ws := WindowsFrom(text, 0);
    ChunksOfFromWindows(text, ws);
    WindowsFromIsChain(text, 0);
    forall c | c in Chunks(text)
      ensures c.start < |text| && c.end == WindowEnd(text, c.start)
    {
      var w :| w in ws && IsChunkOfWindow(text, c, w);
      var k :| 0 <= k < |ws| && ws[k] == w;
    }
  }

  /** The windows after a prefix only add chunks. */
  lemma {:induction false} ChunksOfPrefix(text: string, ws: seq<Window>, j: nat)
    requires j <= |ws|
    ensures |ChunksOf(text, ws[..j])| <= |ChunksOf(text, ws)|
    decreases |ws| - j
  {
    if j < |ws| {
      var init := ws[..|ws| - 1];
      assert |ChunksOf(text, ws)| >= |ChunksOf(text, init)|;
      assert init[..j] == ws[..j];
      ChunksOfPrefix(text, init, j);
    } else {
      assert ws[..j] == ws;
    }
  }

  /** A window sequence with one window that yields a chunk yields chunks. */
  lemma ChunksOfNonEmpty(text: string, ws: seq<Window>, k: nat)
    requires k < |ws| && ChunkOf(text, ws[k]) != []
    ensures ChunksOf(text, ws) != []
  {
    ChunksOfTake(text, ws, k);
    ChunksOfPrefix(text, ws, k + 1);
  }

  /** A window that holds a non-space character yields its chunk. */
  lemma ChunkOfNonBlank(text: string, w: Window)
    requires !IsBlank(Slice(text, w.start, w.end))
    ensures ChunkOf(text, w) != []
  {
    StripEnds(Slice(text, w.start, w.end));
  }

  /** A window over a non-space character yields its chunk. */
  lemma WindowOverNonSpace(text: string, w: Window, p: nat)
    requires w.start <= p < w.end && p < |text| && !IsSpace(text[p])
    ensures ChunkOf(text, w) != []
  {
    SliceIndex(text, w.start, w.end);
    assert !IsSpace(Slice(text, w.start, w.end)[p - w.start]);
    ChunkOfNonBlank(text, w);
  }

  /** Blank windows yield nothing. */
  lemma {:induction false} ChunksOfBlank(text: string, ws: seq<Window>)
    requires IsBlank(text)
    ensures ChunksOf(text, ws) == []
  {
    if ws != [] {
      ChunksOfBlank(text, ws[..|ws| - 1]);
      var w := ws[|ws| - 1];
      SliceIndex(text, w.start, w.end);
      assert IsBlank(Slice(text, w.start, w.end));
      StripEnds(Slice(text, w.start, w.end));
    }
  }

  /** Empty or whitespace-only text, and only such text, yields no chunks. */
  lemma NoChunksIffBlank(text: string)
    ensures Chunks(text) == [] <==> IsBlank(text)
  {
    if IsBlank(text) {
      ChunksOfBlank(text, WindowsFrom(text, 0));
    } else {
      var p :| 0 <= p < |text| && !IsSpace(text[p]);
      WindowsCover(text, 0, p);
      var ws := WindowsFrom(text, 0);
      var k :| 0 <= k < |ws| && ws[k].start <= p < ws[k].end;
      WindowOverNonSpace(text, ws[k], p);
      ChunksOfNonEmpty(text, ws, k);
    }
  }

  /** Text of at most `ChunkSize - Overlap` characters yields its stripped self as the one chunk. */
  lemma ShortText(text: string)
    requires |text| <= ChunkSize - Overlap
    ensures Chunks(text) == if IsBlank(text) then [] else [Chunk(Strip(text), 0, ChunkSize, |Strip(text)|)]
  {
    if text != [] {
      assert WindowsFrom(text, 0) == [Window(0, ChunkSize)];
      ChunksOfSnoc(text, [], Window(0, ChunkSize));
      assert [] + [Window(0, ChunkSize)] == [Window(0, ChunkSize)];
      assert Slice(text, 0, ChunkSize) == text;
      StripEnds(text);
    }
  }

  /**
   * Text of `ChunkSize - Overlap + 1` to `ChunkSize` characters is visited twice: once whole and
   * once from position `ChunkSize - Overlap`, so its tail is emitted a second time.
   */
  lemma TailWindows(text: string)
    requires ChunkSize - Overlap < |text| <= ChunkSize
    ensures WindowsFrom(text, 0) == [Window(0, ChunkSize), Window(ChunkSize - Overlap, 2 * ChunkSize - Overlap)]
  {
    assert WindowsFrom(text, ChunkSize - Overlap) == [Window(ChunkSize - Overlap, 2 * ChunkSize - Overlap)];
  }

  lemma TailChunks(text: string)
    requires ChunkSize - Overlap < |text| <= ChunkSize
    ensures Chunks(text) == ChunkOf(text, Window(0, ChunkSize))
                          + ChunkOf(text, Window(ChunkSize - Overlap, 2 * ChunkSize - Overlap))
  {
    var w0, w1 := Window(0, ChunkSize), Window(ChunkSize - Overlap, 2 * ChunkSize - Overlap);
    TailWindows(text);
    assert [w0, w1][..1] == [w0] && [w0][..0] == [];
    assert ChunksOf(text, [w0]) == ChunkOf(text, w0);
    assert ChunksOf(text, [w0, w1]) == ChunksOf(text, [w0]) + ChunkOf(text, w1);
  }

  lemma TailRepeated(text: string)
    requires ChunkSize - Overlap < |text| <= ChunkSize
    ensures Chunks(text) ==
      (if IsBlank(text) then [] else [Chunk(Strip(text), 0, ChunkSize, |Strip(text)|)]) +
      (var tail := Strip(text[ChunkSize - Overlap..]);
       if tail == [] then [] else [Chunk(tail, ChunkSize - Overlap, 2 * ChunkSize - Overlap, |tail|)])
  {
    TailChunks(text);
    assert Slice(text, 0, ChunkSize) == text;
    assert Slice(text, ChunkSize - Overlap, 2 * ChunkSize - Overlap) == text[ChunkSize - Overlap..];
    StripEnds(text);
  }

  /** `_create_chunks` emits at most one chunk per 702 characters, rounded up. */
  lemma ChunkCount(text: string)
    ensures |Chunks(text)| * (ChunkSize - Lookback - Overlap + 2) <= |text| + ChunkSize - Lookback - Overlap + 1
  {
    ChunksOfFromWindows(text, WindowsFrom(text, 0));
    WindowCount(text, 0);
  }
}

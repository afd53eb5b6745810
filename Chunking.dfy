/** `split_text_into_chunks`: cut a text into windows of at most `chunk_size`
    characters, preferring to end a window just after a sentence or paragraph
    boundary, step back `overlap` characters between windows, and keep each
    window's stripped text when it is not blank. */
module Chunking {
  import opened Wrappers
  import opened Strings

  /** The boundary markers, in the order they are tried: full-width
      `。！？`, then `.!?` before a newline, a blank line, then `.!?` before
      a space. */
  const Separators: seq<string> :=
    ["\U{3002}", "\U{FF01}", "\U{FF1F}", ".\n", "!\n", "?\n", "\n\n", ". ", "! ", "? "]

  const DefaultChunkSize: int := 500
  const DefaultOverlap: int := 50

  /** The default parameters keep the cursor moving. */
  lemma DefaultsTerminate()
    ensures Terminates(DefaultChunkSize, DefaultOverlap)
  {
  }

  function Min(a: int, b: int): int {
    if a <= b then a else b
  }

  /** Parameters under which the cursor moves forward on every step: a
      positive size and an overlap of at most 30% of it (the smallest window
      a soft cut can leave is just over 30% of the size). */
  predicate Terminates(size: int, overlap: int) {
    size >= 1 && 10 * overlap <= 3 * size
  }

  /** `last_sep > chunk_size * 0.3`, stated over the integers. */
  predicate PastThreshold(p: int, size: int) {
    10 * p > 3 * size
  }

  /** The separator's rightmost occurrence in the window is past the
      threshold, so the window may end after it. */
  predicate Qualifies(window: string, size: int, sep: string) {
    RFind(window, sep) != -1 && PastThreshold(RFind(window, sep), size)
  }

  /** The index of the first separator, from `from` on, that qualifies; a
      separator that occurs only at or before the threshold does not stop
      the search. */
  function FirstQualifying(window: string, size: int, from: nat): (r: Option<nat>)
    requires from <= |Separators|
    ensures r.Some? ==> from <= r.value < |Separators| && Qualifies(window, size, Separators[r.value])
    ensures forall j :: from <= j < |Separators| && (r.None? || j < r.value) ==>
      !Qualifies(window, size, Separators[j])
    decreases |Separators| - from
  {
    if from == |Separators| then None
    else if Qualifies(window, size, Separators[from]) then Some(from)
    else FirstQualifying(window, size, from + 1)
  }

  /** Where the window that starts at `start` ends: just after the chosen
      separator (a soft cut) or `size` characters on (a hard cut). */
  function CutEnd(text: string, start: nat, size: int): (end: int)
    requires size >= 1
    ensures start < end <= start + size
    ensures PastThreshold(end - start, size)
    ensures end < |text| <==> start + size < |text|
  {
    var end := start + size;
    if end < |text| then
      var window := text[start..end];
      match FirstQualifying(window, size, 0)
      case Some(k) => start + RFind(window, Separators[k]) + |Separators[k]|
      case None => end
    else end
  }

  /** Separators that do not qualify are skipped: the search from `from`
      finds what the search from `k` finds. */
  lemma {:induction false} SkipNonQualifying(window: string, size: int, from: nat, k: nat)
    requires from <= k <= |Separators|
    requires forall j :: from <= j < k ==> !Qualifies(window, size, Separators[j])
    ensures FirstQualifying(window, size, from) == FirstQualifying(window, size, k)
    decreases k - from
  {
    if from < k {
      SkipNonQualifying(window, size, from + 1, k);
    }
  }

  /** The search that reaches separator `k` and finds it qualifies cuts just
      after that separator's rightmost occurrence in the window. */
  lemma SoftCutAt(text: string, start: nat, size: int, k: nat)
    requires size >= 1 && start + size < |text| && k < |Separators|
    requires forall j :: 0 <= j < k ==> !Qualifies(text[start..start + size], size, Separators[j])
    requires Qualifies(text[start..start + size], size, Separators[k])
    ensures CutEnd(text, start, size)
      == start + RFind(text[start..start + size], Separators[k]) + |Separators[k]|
  {
    SkipNonQualifying(text[start..start + size], size, 0, k);
  }

  /** The search that finds no separator qualifying cuts `size` characters
      on. */
  lemma HardCut(text: string, start: nat, size: int)
    requires size >= 1 && start + size < |text|
    requires forall j :: 0 <= j < |Separators| ==> !Qualifies(text[start..start + size], size, Separators[j])
    ensures CutEnd(text, start, size) == start + size
  {
    SkipNonQualifying(text[start..start + size], size, 0, |Separators|);
  }

  /** Where the cursor goes after the window that starts at `start`. */
  function NextStart(text: string, start: nat, size: int, overlap: int): (next: int)
    requires size >= 1 && start < |text|
    ensures Terminates(size, overlap) ==> next > start
  {
    var end := CutEnd(text, start, size);
    if end < |text| then end - overlap else |text|
  }

  /** A window `text[lo:hi]`, with `hi` already clamped to the text's end. */
  datatype Window = Window(lo: nat, hi: nat)

  predicate InText(text: string, ws: seq<Window>) {
    forall k :: 0 <= k < |ws| ==> ws[k].lo <= ws[k].hi <= |text|
  }

  /** The windows the cursor visits from `start` on. */
  function WindowsFrom(text: string, start: nat, size: int, overlap: int): (ws: seq<Window>)
    requires Terminates(size, overlap)
    ensures forall k :: 0 <= k < |ws| ==>
      start <= ws[k].lo < ws[k].hi <= |text| && ws[k].hi - ws[k].lo <= size
    decreases |text| - start
  {
    if start >= |text| then []
    else
      [Window(start, Min(CutEnd(text, start, size), |text|))]
        + WindowsFrom(text, NextStart(text, start, size, overlap), size, overlap)
  }

  /** The windows of the whole text, from position 0 on. */
  function Windows(text: string, size: int, overlap: int): seq<Window>
    requires Terminates(size, overlap)
  {
    WindowsFrom(text, 0, size, overlap)
  }

  /** The stripped, non-blank window texts, in window order. */
  function Emitted(text: string, ws: seq<Window>): seq<string>
    requires InText(text, ws)
  {
    if ws == [] then []
    else
      var chunk := Strip(text[ws[0].lo..ws[0].hi]);
      (if chunk != "" then [chunk] else []) + Emitted(text, ws[1..])
  }

  /** One turn of the cursor loop: the chunk of the window at `start`, if
      any, comes before those of the windows after it. */
  lemma EmittedStep(text: string, start: nat, size: int, overlap: int, end: int)
    requires Terminates(size, overlap) && start < |text|
    requires end == CutEnd(text, start, size)
    ensures end < |text| ==> end - overlap >= 0
    ensures var chunk := Strip(text[start..Min(end, |text|)]);
      var next := if end < |text| then end - overlap else |text|;
      Emitted(text, WindowsFrom(text, start, size, overlap))
        == (if chunk != "" then [chunk] else []) + Emitted(text, WindowsFrom(text, next, size, overlap))
  {
    var next := if end < |text| then end - overlap else |text|;
    assert NextStart(text, start, size, overlap) == next;
    var ws := WindowsFrom(text, start, size, overlap);
    assert ws[1..] == WindowsFrom(text, next, size, overlap);
  }

  lemma ConcatAssoc<T>(a: seq<T>, b: seq<T>, c: seq<T>)
    ensures a + (b + c) == (a + b) + c
  {
  }

  /** What `split_text_into_chunks(text, size, overlap)` returns. */
  function Chunks(text: string, size: int, overlap: int): seq<string>
    requires |text| <= size || Terminates(size, overlap)
  {
    if |text| <= size then
      if Strip(text) != "" then [text] else []
    else
      Emitted(text, Windows(text, size, overlap))
  }

  /** The end of the window that starts at `start`, found as the source
      finds it: a search over the separators in order that stops at the first
      one accepted. */
  method WindowEnd(text: string, start: nat, chunkSize: int) returns (end: int)
    requires chunkSize >= 1
    ensures end == CutEnd(text, start, chunkSize)
  {
    end := start + chunkSize;
    if end < |text| {
      ghost var window := text[start..end];
      for i := 0 to |Separators|
        invariant end == start + chunkSize
        invariant forall j :: 0 <= j < i ==> !Qualifies(window, chunkSize, Separators[j])
      {
        var sep := Separators[i];
        var lastSep := RFind(text[start..end], sep);
        if lastSep != -1 && 10 * lastSep > 3 * chunkSize {
          SoftCutAt(text, start, chunkSize, i);
          end := start + lastSep + |sep|;
          return;
        }
      }
      HardCut(text, start, chunkSize);
    }
  }

  /** The chunker as the source runs it: a cursor loop with an inner search
      over the separators that stops at the first one accepted. */
  method SplitTextIntoChunks(text: string, chunkSize: int, overlap: int) returns (chunks: seq<string>)
    requires |text| <= chunkSize || Terminates(chunkSize, overlap)
    ensures |text| <= chunkSize ==> chunks == (if IsBlank(text) then [] else [text])
    ensures chunks == Chunks(text, chunkSize, overlap)
  {
    if |text| <= chunkSize {
      chunks := if Strip(text) != "" then [text] else [];
      return;
    }
    chunks := [];
    var start: nat := 0;
    ghost var all := Emitted(text, Windows(text, chunkSize, overlap));
    assert chunks + all == all;
    while start < |text|
      invariant chunks + Emitted(text, WindowsFrom(text, start, chunkSize, overlap)) == all
      decreases |text| - start
    {
      var end := WindowEnd(text, start, chunkSize);
      EmittedStep(text, start, chunkSize, overlap, end);
      ghost var next: nat := if end < |text| then end - overlap else |text|;
      ghost var rest := Emitted(text, WindowsFrom(text, next, chunkSize, overlap));
      var chunk := Strip(text[start..Min(end, |text|)]);
      if chunk != "" {
        ConcatAssoc(chunks, [chunk], rest);
        chunks := chunks + [chunk];
      } else {
        assert [] + rest == rest;
      }
      assert chunks + rest == all;
      start := if end < |text| then end - overlap else |text|;
    }
    assert WindowsFrom(text, start, chunkSize, overlap) == [];
    assert chunks + [] == chunks;
  }

  // ---------------------------------------------------------------------
  // Where a window ends

  /** A soft cut ends the window just after the rightmost occurrence of the
      first separator, in priority order, whose rightmost occurrence lies past
      30% of the size; earlier separators did not qualify, and no later
      occurrence of the chosen one lies in the window. With no separator
      qualifying, the cut is hard: exactly `size` characters on. */
  lemma CutPlacement(text: string, start: nat, size: int)
    requires size >= 1 && start + size < |text|
    ensures var window := text[start..start + size];
      var end := CutEnd(text, start, size);
      match FirstQualifying(window, size, 0)
      case Some(k) =>
        var sep := Separators[k];
        && start + |sep| < end
        && text[end - |sep|..end] == sep
        && PastThreshold(end - |sep| - start, size)
        && (forall i :: end - |sep| - start < i ==> !IsAt(window, sep, i))
        && (forall j :: 0 <= j < k ==> !Qualifies(window, size, Separators[j]))
      case None =>
        && end == start + size
        && (forall j :: 0 <= j < |Separators| ==> !Qualifies(window, size, Separators[j]))
  {
    var window := text[start..start + size];
    match FirstQualifying(window, size, 0)
    case Some(k) =>
      SoftCutAt(text, start, size, k);
      SeparatorEndsWindow(text, start, size, Separators[k]);
    case None =>
      HardCut(text, start, size);
  }

  /** Cutting just after a qualifying separator's rightmost occurrence ends
      the window with that separator, past the threshold. */
  lemma SeparatorEndsWindow(text: string, start: nat, size: int, sep: string)
    requires size >= 1 && start + size < |text|
    requires Qualifies(text[start..start + size], size, sep)
    ensures var window := text[start..start + size];
      var end := start + RFind(window, sep) + |sep|;
      && start + |sep| < end
      && text[end - |sep|..end] == sep
      && PastThreshold(end - |sep| - start, size)
      && (forall i :: end - |sep| - start < i ==> !IsAt(window, sep, i))
  {
    var p := RFind(text[start..start + size], sep);
    IsAtSlice(text, start, start + size, sep, p);
  }

  /** A text in which no separator occurs is only ever cut hard. */
  lemma CutWithoutSeparators(text: string, start: nat, size: int)
    requires size >= 1
    requires forall j :: 0 <= j < |Separators| ==> RFind(text, Separators[j]) == -1
    ensures CutEnd(text, start, size) == start + size
  {
    if start + size < |text| {
      var window := text[start..start + size];
      forall j | 0 <= j < |Separators| ensures RFind(window, Separators[j]) == -1 {
        forall i ensures !IsAt(window, Separators[j], i) {
          IsAtSlice(text, start, start + size, Separators[j], i);
        }
      }
      HardCut(text, start, size);
    }
  }

  /** `overlap < size` does not make the loop terminate: with size 10 and
      overlap 9, a full-width stop at window index 8 (past the threshold 3)
      gives a window of 9 characters and the cursor returns to 0. */
  lemma CursorCanStall()
    ensures 9 < 10 && !Terminates(10, 9)
    ensures NextStart("aaaaaaaa\U{3002}aaa", 0, 10, 9) == 0
  {
    var text := "aaaaaaaa\U{3002}aaa";
    var window := text[0..10];
    assert window == "aaaaaaaa\U{3002}a";
    assert Separators[0] == "\U{3002}";
    assert window[9..10][0] == 'a';
    assert !IsAt(window, Separators[0], 9);
    assert IsAt(window, Separators[0], 8);
    assert RFind(window, Separators[0]) == 8;
    assert FirstQualifying(window, 10, 0) == Some(0);
  }

  // ---------------------------------------------------------------------
  // How the cursor moves

  /** Windows in range, each at most `size` long, each next one starting
      `overlap` characters before the previous one ends and strictly after
      the previous one starts, the last one reaching the end of the text. */
  predicate Chained(text: string, ws: seq<Window>, size: int, overlap: int) {
    && (forall k :: 0 <= k < |ws| ==> ws[k].lo < ws[k].hi <= |text| && ws[k].hi - ws[k].lo <= size)
    && (forall k :: 0 <= k < |ws| - 1 ==>
          ws[k].hi < |text| && ws[k + 1].lo == ws[k].hi - overlap && ws[k].lo < ws[k + 1].lo)
    && (ws != [] ==> ws[|ws| - 1].hi == |text|)
  }

  /** Every window ends where the cut for its start puts it, clamped to the
      text. */
  predicate FollowsCuts(text: string, ws: seq<Window>, size: int)
    requires size >= 1
  {
    forall k :: 0 <= k < |ws| ==> ws[k].hi == Min(CutEnd(text, ws[k].lo, size), |text|)
  }

  /** Putting a window in front of a chain that starts `overlap` characters
      before it ends keeps the chain. */
  lemma ChainCons(text: string, w: Window, rest: seq<Window>, size: int, overlap: int)
    requires Chained(text, rest, size, overlap) && rest != []
    requires w.lo < w.hi < |text| && w.hi - w.lo <= size
    requires rest[0].lo == w.hi - overlap && w.lo < rest[0].lo
    ensures Chained(text, [w] + rest, size, overlap)
  {
    var ws := [w] + rest;
    forall k | 0 <= k < |ws| - 1
      ensures ws[k].hi < |text| && ws[k + 1].lo == ws[k].hi - overlap && ws[k].lo < ws[k + 1].lo
    {
      if k > 0 {
        assert ws[k] == rest[k - 1] && ws[k + 1] == rest[k];
      }
    }
  }

  lemma FollowsCons(text: string, w: Window, rest: seq<Window>, size: int)
    requires size >= 1 && FollowsCuts(text, rest, size)
    requires w.hi == Min(CutEnd(text, w.lo, size), |text|)
    ensures FollowsCuts(text, [w] + rest, size)
  {
    var ws := [w] + rest;
    forall k | 0 <= k < |ws| ensures ws[k].hi == Min(CutEnd(text, ws[k].lo, size), |text|) {
      if k > 0 {
        assert ws[k] == rest[k - 1];
      }
    }
  }

  lemma {:induction false} WindowsChained(text: string, start: nat, size: int, overlap: int)
    requires Terminates(size, overlap) && overlap >= 0 && start < |text|
    ensures var ws := WindowsFrom(text, start, size, overlap);
      ws != [] && ws[0].lo == start && Chained(text, ws, size, overlap) && FollowsCuts(text, ws, size)
    decreases |text| - start
  {
    var end := CutEnd(text, start, size);
    var next := NextStart(text, start, size, overlap);
    var rest := WindowsFrom(text, next, size, overlap);
    var w := Window(start, Min(end, |text|));
    assert WindowsFrom(text, start, size, overlap) == [w] + rest;
    if end < |text| {
      WindowsChained(text, next, size, overlap);
      ChainCons(text, w, rest, size, overlap);
      FollowsCons(text, w, rest, size);
    } else {
      assert rest == [];
      assert [w] + rest == [w];
    }
  }

  /** With a non-negative overlap, chained windows leave no gap: every
      position from the first window's start on lies in some window. */
  predicate Covered(ws: seq<Window>, p: int) {
    exists k :: 0 <= k < |ws| && ws[k].lo <= p < ws[k].hi
  }

  lemma {:induction false} ChainedCovers(text: string, ws: seq<Window>, size: int, overlap: int, p: int)
    requires overlap >= 0 && Chained(text, ws, size, overlap) && ws != [] && ws[0].lo <= p < |text|
    ensures Covered(ws, p)
    decreases |ws|
  {
    if p < ws[0].hi {
      assert ws[0].lo <= p < ws[0].hi;
    } else {
      var tail := ws[1..];
      assert |ws| > 1;
      assert Chained(text, tail, size, overlap) by {
        forall k | 0 <= k < |tail| - 1
          ensures tail[k].hi < |text| && tail[k + 1].lo == tail[k].hi - overlap && tail[k].lo < tail[k + 1].lo
        {
          assert tail[k] == ws[k + 1] && tail[k + 1] == ws[k + 2];
        }
      }
      ChainedCovers(text, tail, size, overlap, p);
      var k :| 0 <= k < |tail| && tail[k].lo <= p < tail[k].hi;
      assert ws[k + 1] == tail[k];
    }
  }

  /** The windows of a non-empty text start at 0, follow the cuts, move
      strictly forward sharing exactly `overlap` characters, end at the end of
      the text, and (for `overlap >= 0`) cover every position of it. */
  lemma WindowsTileText(text: string, size: int, overlap: int)
    requires Terminates(size, overlap) && overlap >= 0 && |text| > 0
    ensures var ws := Windows(text, size, overlap);
      && ws != [] && ws[0].lo == 0
      && Chained(text, ws, size, overlap)
      && FollowsCuts(text, ws, size)
      && forall p :: 0 <= p < |text| ==> Covered(ws, p)
  {
    var ws := Windows(text, size, overlap);
    WindowsChained(text, 0, size, overlap);
    forall p | 0 <= p < |text| ensures Covered(ws, p) {
      ChainedCovers(text, ws, size, overlap, p);
    }
  }

  /** With no separator anywhere in the text, every window but the last is
      exactly `size` long and window `k` starts at `k * (size - overlap)`. */
  lemma NoSeparatorHardCuts(text: string, size: int, overlap: int)
    requires Terminates(size, overlap) && overlap >= 0 && |text| > 0
    requires forall j :: 0 <= j < |Separators| ==> RFind(text, Separators[j]) == -1
    ensures var ws := Windows(text, size, overlap);
      && (forall k :: 0 <= k < |ws| - 1 ==> ws[k].hi - ws[k].lo == size)
      && (forall k :: 0 <= k < |ws| ==> ws[k].lo == k * (size - overlap))
  {
    var ws := Windows(text, size, overlap);
    WindowsChained(text, 0, size, overlap);
    FullWindows(text, ws, size, overlap);
    HardCutStarts(text, ws, size, overlap, |ws| - 1);
  }

  /** Chained windows that follow the cuts of a text without separators are
      all `size` long, except the last. */
  lemma FullWindows(text: string, ws: seq<Window>, size: int, overlap: int)
    requires size >= 1 && Chained(text, ws, size, overlap) && FollowsCuts(text, ws, size)
    requires forall j :: 0 <= j < |Separators| ==> RFind(text, Separators[j]) == -1
    ensures forall k :: 0 <= k < |ws| - 1 ==> ws[k].hi - ws[k].lo == size
  {
    forall k | 0 <= k < |ws| - 1 ensures ws[k].hi - ws[k].lo == size {
      CutWithoutSeparators(text, ws[k].lo, size);
    }
  }

  lemma {:induction false} HardCutStarts(text: string, ws: seq<Window>, size: int, overlap: int, n: nat)
    requires n < |ws| && ws[0].lo == 0 && Chained(text, ws, size, overlap)
    requires forall k :: 0 <= k < |ws| - 1 ==> ws[k].hi - ws[k].lo == size
    ensures forall k :: 0 <= k <= n ==> ws[k].lo == k * (size - overlap)
  {
    if n > 0 {
      HardCutStarts(text, ws, size, overlap, n - 1);
      assert ws[n].lo == ws[n - 1].lo + (size - overlap);
      assert n * (size - overlap) == (n - 1) * (size - overlap) + (size - overlap);
    }
  }

  // ---------------------------------------------------------------------
  // What is emitted

  /** The stripped text of each window. */
  function Pieces(text: string, ws: seq<Window>): (ps: seq<string>)
    requires InText(text, ws)
    ensures |ps| == |ws|
  {
    seq(|ws|, k requires 0 <= k < |ws| => Strip(text[ws[k].lo..ws[k].hi]))
  }

  /** The non-empty strings of `ps`, in order. */
  function NonEmpty(ps: seq<string>): seq<string> {
    if ps == [] then [] else (if ps[0] != "" then [ps[0]] else []) + NonEmpty(ps[1..])
  }

  /** Every index moved one place to the right. */
  function Shift(rest: seq<nat>): (r: seq<nat>)
    ensures |r| == |rest|
    ensures forall i :: 0 <= i < |r| ==> r[i] == rest[i] + 1
  {
    seq(|rest|, i requires 0 <= i < |rest| => rest[i] + 1)
  }

  /** The indices of the non-empty strings of `ps`, in order. */
  function NonEmptyIndices(ps: seq<string>): seq<nat> {
    if ps == [] then []
    else (if ps[0] != "" then [0] else []) + Shift(NonEmptyIndices(ps[1..]))
  }

  /** `cs` is `ps` at the indices `idx`, in order, and `idx` holds exactly
      the indices of the non-empty strings of `ps`. */
  predicate IsFilter(ps: seq<string>, cs: seq<string>, idx: seq<nat>) {
    && |idx| == |cs|
    && (forall i :: 0 <= i < |idx| ==> idx[i] < |ps| && cs[i] == ps[idx[i]] && cs[i] != "")
    && Increasing(idx)
    && (forall k :: 0 <= k < |ps| && ps[k] != "" ==> k in idx)
  }

  lemma {:induction false} NonEmptyPicks(ps: seq<string>)
    ensures var cs, idx := NonEmpty(ps), NonEmptyIndices(ps);
      |idx| == |cs| &&
      forall i :: 0 <= i < |idx| ==> idx[i] < |ps| && cs[i] == ps[idx[i]] && cs[i] != ""
    decreases |ps|
  {
    if ps != [] {
      var tail := ps[1..];
      NonEmptyPicks(tail);
      var rest, restCs := NonEmptyIndices(tail), NonEmpty(tail);
      var cs, idx := NonEmpty(ps), NonEmptyIndices(ps);
      var d := if ps[0] != "" then 1 else 0;
      forall i | d <= i < |idx| ensures idx[i] < |ps| && cs[i] == ps[idx[i]] {
        assert idx[i] == rest[i - d] + 1 && cs[i] == restCs[i - d];
      }
    }
  }

  predicate Increasing(idx: seq<nat>) {
    forall i, j :: 0 <= i < j < |idx| ==> idx[i] < idx[j]
  }

  lemma ShiftIncreasing(head: seq<nat>, rest: seq<nat>)
    requires head == [] || head == [0]
    requires Increasing(rest)
    ensures Increasing(head + Shift(rest))
  {
    var idx := head + Shift(rest);
    var d := |head|;
    forall i, j | 0 <= i < j < |idx| ensures idx[i] < idx[j] {
      assert idx[j] == rest[j - d] + 1;
      if i >= d {
        assert idx[i] == rest[i - d] + 1;
      }
    }
  }

  lemma {:induction false} NonEmptyIndicesIncrease(ps: seq<string>)
    ensures Increasing(NonEmptyIndices(ps))
    decreases |ps|
  {
    if ps != [] {
      NonEmptyIndicesIncrease(ps[1..]);
      ShiftIncreasing(if ps[0] != "" then [0] else [], NonEmptyIndices(ps[1..]));
    }
  }

  lemma {:induction false} NonEmptyIndicesComplete(ps: seq<string>)
    ensures forall k :: 0 <= k < |ps| && ps[k] != "" ==> k in NonEmptyIndices(ps)
    decreases |ps|
  {
    if ps != [] {
      var tail := ps[1..];
      NonEmptyIndicesComplete(tail);
      var rest, idx := NonEmptyIndices(tail), NonEmptyIndices(ps);
      var d := if ps[0] != "" then 1 else 0;
      forall k | 0 <= k < |ps| && ps[k] != "" ensures k in idx {
        if k > 0 {
          assert tail[k - 1] == ps[k];
          var i :| 0 <= i < |rest| && rest[i] == k - 1;
          assert idx[i + d] == k;
        } else {
          assert idx[0] == 0;
        }
      }
    }
  }

  lemma NonEmptyIsFilter(ps: seq<string>)
    ensures IsFilter(ps, NonEmpty(ps), NonEmptyIndices(ps))
  {
    NonEmptyPicks(ps);
    NonEmptyIndicesIncrease(ps);
    NonEmptyIndicesComplete(ps);
  }

  /** The cursor loop's output is the non-empty pieces, in window order. */
  lemma {:induction false} EmittedPieces(text: string, ws: seq<Window>)
    requires InText(text, ws)
    ensures Emitted(text, ws) == NonEmpty(Pieces(text, ws))
    decreases |ws|
  {
    if ws != [] {
      EmittedPieces(text, ws[1..]);
      assert Pieces(text, ws)[1..] == Pieces(text, ws[1..]);
    }
  }

  /** A text longer than `size` gives exactly the stripped texts of its
      non-blank windows, in window order. */
  lemma LongTextChunks(text: string, size: int, overlap: int)
    requires Terminates(size, overlap) && |text| > size
    ensures var ps := Pieces(text, Windows(text, size, overlap));
      IsFilter(ps, Chunks(text, size, overlap), NonEmptyIndices(ps))
  {
    var ws := Windows(text, size, overlap);
    EmittedPieces(text, ws);
    NonEmptyIsFilter(Pieces(text, ws));
  }

  /** Every chunk is a non-blank piece of the text at most `size` long. */
  lemma ChunksBounded(text: string, size: int, overlap: int)
    requires |text| <= size || Terminates(size, overlap)
    ensures forall c :: c in Chunks(text, size, overlap) ==>
      0 < |c| <= size && !IsBlank(c) && exists a :: IsAt(text, c, a)
  {
    var cs := Chunks(text, size, overlap);
    if |text| <= size {
      if cs != [] {
        assert IsAt(text, text, 0);
      }
    } else {
      var ws := Windows(text, size, overlap);
      LongTextChunks(text, size, overlap);
      FilteredPiecesBounded(text, ws, size, cs, NonEmptyIndices(Pieces(text, ws)));
    }
  }

  /** The strings a filter keeps from the pieces of windows of at most
      `size` characters are non-blank, at most `size` long and occur in the
      text. */
  lemma FilteredPiecesBounded(text: string, ws: seq<Window>, size: int, cs: seq<string>, idx: seq<nat>)
    requires forall k :: 0 <= k < |ws| ==> ws[k].lo < ws[k].hi <= |text| && ws[k].hi - ws[k].lo <= size
    requires IsFilter(Pieces(text, ws), cs, idx)
    ensures forall c :: c in cs ==> 0 < |c| <= size && !IsBlank(c) && exists a :: IsAt(text, c, a)
  {
    forall c | c in cs ensures 0 < |c| <= size && !IsBlank(c) && exists a :: IsAt(text, c, a) {
      var i :| 0 <= i < |cs| && cs[i] == c;
      var w := ws[idx[i]];
      PieceBounded(text, w.lo, w.hi, size);
    }
  }

  /** A non-empty stripped window is non-blank, no longer than the window
      and occurs in the text. */
  lemma PieceBounded(text: string, lo: nat, hi: nat, size: int)
    requires lo <= hi <= |text| && hi - lo <= size && Strip(text[lo..hi]) != ""
    ensures var c := Strip(text[lo..hi]);
      0 < |c| <= size && !IsBlank(c) && IsAt(text, c, lo + LeadingSpaces(text[lo..hi]))
  {
    var c := Strip(text[lo..hi]);
    assert !IsSpace(c[0]);
    SliceOccurs(text, lo, hi);
  }

  /** The stripped text of `text[lo:hi]` occurs in `text` where its leading
      whitespace ends. */
  lemma SliceOccurs(text: string, lo: nat, hi: nat)
    requires lo <= hi <= |text|
    ensures IsAt(text, Strip(text[lo..hi]), lo + LeadingSpaces(text[lo..hi]))
  {
    StripIsAt(text[lo..hi]);
    IsAtSlice(text, lo, hi, Strip(text[lo..hi]), LeadingSpaces(text[lo..hi]));
  }
}

/**
 docparse.chunk_text: fixed, structural and semantic chunking.

 The regular expressions that find headings and sentences are not modelled: the
 structural and semantic strategies start from the pieces they yield. Which characters
 count as whitespace is a parameter.
 */
module Chunking {

  // ----- Fixed windows -----

  /** overlap, or a quarter of the chunk size when the overlap is not smaller than a chunk. */
  function Effective(chunkSize: int, overlap: int): (effective: int)
    ensures overlap < chunkSize ==> effective == overlap
    ensures overlap >= chunkSize ==> 4 * effective <= chunkSize < 4 * effective + 4
  {
    if overlap >= chunkSize then chunkSize / 4 else overlap
  }

  /** text[low:high], for bounds that may be negative: those count from the end. */
  function Slice(text: string, low: int, high: int): string {
    var l, h := Bound(|text|, low), Bound(|text|, high);
    if l < h then text[l..h] else ""
  }

  function Bound(length: nat, i: int): (b: nat)
    ensures b <= length
  {
    if i >= length then length else if i >= 0 then i else if length + i > 0 then length + i else 0
  }

  /** The windows from start on. */
  function Windows(text: string, chunkSize: int, overlap: int, start: nat): seq<string>
    requires overlap < chunkSize
    decreases |text| - start
  {
    if start >= |text| then []
    else if start + chunkSize >= |text| then [Slice(text, start, |text|)]
    else [Slice(text, start, start + chunkSize)] + Windows(text, chunkSize, overlap, start + chunkSize - overlap)
  }

  /** The loop, for all sizes and overlaps for which it ends. */
  method ChunkFixed(text: string, chunkSize: int, overlap: int) returns (chunks: seq<string>)
    requires text == "" || chunkSize >= 1 || overlap < chunkSize
    ensures text == "" ==> chunks == []
    ensures text != "" ==> chunks == Windows(text, chunkSize, Effective(chunkSize, overlap), 0)
  {
    hide Windows, Slice;
    var o := overlap;
    if o >= chunkSize {
      o := chunkSize / 4;
    }
    chunks := [];
    var start, length := 0, |text|;
    while start < length
      invariant 0 <= start && (length == 0 ==> chunks == [])
      invariant length > 0 ==> chunks + Windows(text, chunkSize, o, start) == Windows(text, chunkSize, o, 0)
      decreases length - start
    {
      var end := if start + chunkSize < length then start + chunkSize else length;
      NextWindow(text, chunkSize, o, start, chunks);
      chunks := chunks + [Slice(text, start, end)];
      if end >= length {
        break;
      }
      start := end - o;
    }
    NoWindow(text, chunkSize, o, start);
  }

  lemma WindowsUnfold(text: string, chunkSize: int, overlap: int, start: nat)
    requires overlap < chunkSize && start < |text|
    ensures var end := if start + chunkSize < |text| then start + chunkSize else |text|;
            Windows(text, chunkSize, overlap, start) ==
            [Slice(text, start, end)] + if end >= |text| then [] else Windows(text, chunkSize, overlap, end - overlap)
  {
    hide Slice;
  }

  lemma Regroup<T>(a: seq<T>, b: seq<T>, c: seq<T>)
    ensures a + (b + c) == a + b + c
  {
  }

  /** Cutting one window leaves the windows after it, unless it was the last one. */
  lemma NextWindow(text: string, chunkSize: int, overlap: int, start: nat, chunks: seq<string>)
    requires overlap < chunkSize && start < |text|
    ensures var end := if start + chunkSize < |text| then start + chunkSize else |text|;
            chunks + Windows(text, chunkSize, overlap, start) ==
            chunks + [Slice(text, start, end)]
            + if end >= |text| then [] else Windows(text, chunkSize, overlap, end - overlap)
  {
    hide Slice, Windows;
    var end := if start + chunkSize < |text| then start + chunkSize else |text|;
    WindowsUnfold(text, chunkSize, overlap, start);
    Regroup(chunks, [Slice(text, start, end)],
            if end >= |text| then [] else Windows(text, chunkSize, overlap, end - overlap));
  }

  lemma NoWindow(text: string, chunkSize: int, overlap: int, start: nat)
    ensures overlap < chunkSize && start >= |text| ==> Windows(text, chunkSize, overlap, start) == []
  {
  }

  /** A negative upper bound leaves out the end of the text. */
  lemma SliceToEnd(text: string, low: nat, dropped: int)
    requires low + dropped <= |text| && dropped > 0
    ensures Slice(text, low, -dropped) == text[low..|text| - dropped]
  {
  }

  /** Within the text, the bounds of a slice are its bounds. */
  lemma SliceIs(text: string, low: nat, high: nat)
    requires low <= high <= |text|
    ensures Slice(text, low, high) == text[low..high]
  {
  }

  lemma {:induction false} WindowsAreSmall(text: string, chunkSize: nat, overlap: int, start: nat, i: nat)
    requires chunkSize >= 1 && overlap < chunkSize && i < |Windows(text, chunkSize, overlap, start)|
    ensures 0 < |Windows(text, chunkSize, overlap, start)[i]| <= chunkSize
    decreases |text| - start
  {
    SliceIs(text, start, if start + chunkSize < |text| then start + chunkSize else |text|);
    if i > 0 {
      WindowsAreSmall(text, chunkSize, overlap, start + chunkSize - overlap, i - 1);
    }
  }

  /** Every chunk without the part it repeats. */
  function News(chunks: seq<string>, overlap: nat): string {
    if chunks == [] then ""
    else (if overlap <= |chunks[0]| then chunks[0][overlap..] else "") + News(chunks[1..], overlap)
  }

  /** The first chunk, then every later chunk without the part it repeats. */
  function Rebuild(chunks: seq<string>, overlap: nat): string {
    if chunks == [] then "" else chunks[0] + News(chunks[1..], overlap)
  }

  lemma RebuildCons(first: string, rest: seq<string>, overlap: nat)
    requires rest != [] && |rest[0]| >= overlap
    ensures |Rebuild(rest, overlap)| >= overlap
    ensures Rebuild([first] + rest, overlap) == first + Rebuild(rest, overlap)[overlap..]
  {
    assert ([first] + rest)[1..] == rest;
    DropFront(rest[0], News(rest[1..], overlap), overlap);
  }

  lemma DropFront(a: string, b: string, n: nat)
    requires n <= |a|
    ensures (a + b)[n..] == a[n..] + b
  {
  }

  /** The first of the windows, and the windows after it. */
  lemma WindowsCons(text: string, chunkSize: nat, overlap: int, start: nat)
    requires chunkSize >= 1 && overlap < chunkSize && start < |text|
    ensures var w := Windows(text, chunkSize, overlap, start);
            if start + chunkSize < |text|
            then w == [text[start..start + chunkSize]] + Windows(text, chunkSize, overlap, start + chunkSize - overlap)
            else w == [text[start..]]
  {
    hide Slice;
    SliceIs(text, start, if start + chunkSize < |text| then start + chunkSize else |text|);
    assert text[start..|text|] == text[start..];
  }

  lemma RebuildSmall(text: string, chunkSize: nat, overlap: nat, chunk: string)
    requires overlap < chunkSize
    ensures text == "" ==> Rebuild(Windows(text, chunkSize, overlap, 0), overlap) == ""
    ensures Rebuild([chunk], overlap) == chunk
  {
  }

  /** Nothing is lost, nothing is invented: the chunks rebuild the text. */
  lemma {:induction false} ChunksRebuild(text: string, chunkSize: nat, overlap: nat, start: nat)
    requires chunkSize >= 1 && overlap < chunkSize && (start + overlap < |text| || start == 0)
    ensures Rebuild(Windows(text, chunkSize, overlap, start), overlap) == text[start..]
    decreases |text| - start
  {
    hide Windows, Rebuild;
    RebuildSmall(text, chunkSize, overlap, text[start..]);
    if start < |text| {
      WindowsCons(text, chunkSize, overlap, start);
      if start + chunkSize < |text| {
        var next := start + chunkSize - overlap;
        var rest := Windows(text, chunkSize, overlap, next);
        WindowsCons(text, chunkSize, overlap, next);
        ChunksRebuild(text, chunkSize, overlap, next);
        RebuildCons(text[start..start + chunkSize], rest, overlap);
        DropTwice(text, next, overlap);
        DropTwice(text, start, chunkSize);
      }
    }
  }

  lemma DropTwice(text: string, a: nat, b: nat)
    requires a + b <= |text|
    ensures text[a..][b..] == text[a + b..] && text[a..a + b] + text[a + b..] == text[a..]
  {
  }

  function CeilDiv(a: nat, b: nat): nat
    requires b > 0
  {
    (a + b - 1) / b
  }

  /** The number of chunks of a non-empty rest: one, plus one for every step still to make. */
  lemma {:induction false} ExactChunkCount(text: string, chunkSize: nat, overlap: nat, start: nat)
    requires chunkSize >= 1 && overlap < chunkSize && start < |text|
    ensures |Windows(text, chunkSize, overlap, start)| ==
            1 + if |text| - start <= chunkSize then 0
                else CeilDiv(|text| - start - chunkSize, chunkSize - overlap)
    decreases |text| - start
  {
    var step, left := chunkSize - overlap, |text| - start - chunkSize;
    if left > 0 {
      ExactChunkCount(text, chunkSize, overlap, start + step);
      CeilStep(left, step);
    }
  }

  lemma CeilStep(left: nat, step: nat)
    requires left > 0 && step > 0
    ensures CeilDiv(left, step) == 1 + if left <= step then 0 else CeilDiv(left - step, step)
  {
    if left <= step {
      QuotientIs(left + step - 1, step, 1);
    } else {
      var a, n := left - 1, (left - 1) / step;
      assert n * step <= a < (n + 1) * step;
      QuotientIs(a + step, step, n + 1);
    }
  }

  lemma QuotientIs(a: nat, b: nat, q: nat)
    requires b > 0 && q * b <= a < (q + 1) * b
    ensures a / b == q
  {
    var p := a / b;
    assert p * b <= a < (p + 1) * b;
    MultiplesGrow(p + 1, q, b);
    MultiplesGrow(q + 1, p, b);
  }

  lemma MultiplesGrow(x: nat, y: nat, b: nat)
    ensures x <= y ==> x * b <= y * b
  {
  }

  // ----- When the loop stops -----

  /** Where the k-th window starts, for any integers, as long as the loop goes on. */
  function StartOf(chunkSize: int, overlap: int, k: nat): int {
    if k == 0 then 0 else StartOf(chunkSize, overlap, k - 1) + chunkSize - Effective(chunkSize, overlap)
  }

  /** After k windows the loop has neither run past the text nor cut a last window. */
  ghost predicate GoesOn(length: nat, chunkSize: int, overlap: int, k: nat) {
    && (forall j: nat {:trigger StartOf(chunkSize, overlap, j)} :: j <= k ==> StartOf(chunkSize, overlap, j) < length)
    && (forall j: nat {:trigger StartOf(chunkSize, overlap, j)} ::
          j < k ==> StartOf(chunkSize, overlap, j) + chunkSize < length)
  }

  ghost predicate Stops(length: nat, chunkSize: int, overlap: int) {
    exists k: nat :: !GoesOn(length, chunkSize, overlap, k)
  }

  lemma {:induction false} StartsMove(chunkSize: int, overlap: int, k: nat)
    ensures chunkSize > Effective(chunkSize, overlap) ==> StartOf(chunkSize, overlap, k) >= k
    ensures chunkSize <= Effective(chunkSize, overlap) ==> StartOf(chunkSize, overlap, k) <= 0
  {
    if k > 0 {
      StartsMove(chunkSize, overlap, k - 1);
    }
  }

  /**
   Chunking a text ends exactly when there is no text, the chunk size is positive, or the
   overlap is below the chunk size. In particular a chunk size of zero or less with a
   non-negative overlap never ends on a non-empty text.
   */
  lemma FixedStopsIff(length: nat, chunkSize: int, overlap: int)
    ensures Stops(length, chunkSize, overlap) <==> length == 0 || chunkSize >= 1 || overlap < chunkSize
  {
    if length == 0 || chunkSize >= 1 || overlap < chunkSize {
      StartsMove(chunkSize, overlap, length);
      assert StartOf(chunkSize, overlap, 0) == 0;
      assert !GoesOn(length, chunkSize, overlap, length);
    } else {
      forall k: nat ensures GoesOn(length, chunkSize, overlap, k) {
        forall j: nat ensures StartOf(chunkSize, overlap, j) <= 0 {
          StartsMove(chunkSize, overlap, j);
        }
      }
    }
  }

  // ----- Whitespace -----

  type Space = char -> bool

  function LeftStrip(space: Space, s: string): string {
    if s != "" && space(s[0]) then LeftStrip(space, s[1..]) else s
  }

  function RightStrip(space: Space, s: string): string {
    if s != "" && space(s[|s| - 1]) then RightStrip(space, s[..|s| - 1]) else s
  }

  function Strip(space: Space, s: string): string {
    RightStrip(space, LeftStrip(space, s))
  }

  /** The characters that are not whitespace, in order. */
  function Ink(space: Space, s: string): string {
    if s == "" then "" else Ink(space, s[..|s| - 1]) + if space(s[|s| - 1]) then "" else [s[|s| - 1]]
  }

  lemma InkSnoc(space: Space, s: string, c: char)
    ensures Ink(space, s + [c]) == Ink(space, s) + if space(c) then "" else [c]
    ensures Ink(space, "") == ""
  {
    assert (s + [c])[..|s|] == s;
  }

  lemma {:induction false} InkOfBoth(space: Space, a: string, b: string)
    ensures Ink(space, a + b) == Ink(space, a) + Ink(space, b)
  {
    hide Ink;
    InkSnoc(space, "", ' ');
    if b == "" {
      assert a + b == a;
    } else {
      var init, last := b[..|b| - 1], b[|b| - 1];
      InkOfBoth(space, a, init);
      InkSnoc(space, init, last);
      InkSnoc(space, a + init, last);
      assert b == init + [last];
      assert a + b == (a + init) + [last];
    }
  }

  lemma {:induction false} LeftStripKeeps(space: Space, s: string)
    ensures Ink(space, LeftStrip(space, s)) == Ink(space, s) && |LeftStrip(space, s)| <= |s|
  {
    if s != "" && space(s[0]) {
      LeftStripKeeps(space, s[1..]);
      InkOfBoth(space, [s[0]], s[1..]);
      assert s == [s[0]] + s[1..];
      assert Ink(space, [s[0]]) == "";
    }
  }

  lemma {:induction false} RightStripKeeps(space: Space, s: string)
    ensures Ink(space, RightStrip(space, s)) == Ink(space, s) && |RightStrip(space, s)| <= |s|
  {
    if s != "" && space(s[|s| - 1]) {
      RightStripKeeps(space, s[..|s| - 1]);
    }
  }

  lemma StripKeeps(space: Space, s: string)
    ensures Ink(space, Strip(space, s)) == Ink(space, s) && |Strip(space, s)| <= |s|
  {
    LeftStripKeeps(space, s);
    RightStripKeeps(space, LeftStrip(space, s));
  }

  /** A string that begins and ends with something else than whitespace, or is empty. */
  predicate Trimmed(space: Space, s: string) {
    s == "" || (!space(s[0]) && !space(s[|s| - 1]))
  }

  lemma {:induction false} StripTrims(space: Space, s: string)
    ensures Trimmed(space, Strip(space, s))
  {
    LeftStripStart(space, s);
    RightStripEnds(space, LeftStrip(space, s));
  }

  lemma {:induction false} LeftStripStart(space: Space, s: string)
    ensures LeftStrip(space, s) == "" || !space(LeftStrip(space, s)[0])
  {
    if s != "" && space(s[0]) {
      LeftStripStart(space, s[1..]);
    }
  }

  lemma {:induction false} RightStripEnds(space: Space, s: string)
    ensures RightStrip(space, s) <= s
    ensures RightStrip(space, s) == "" || !space(RightStrip(space, s)[|RightStrip(space, s)| - 1])
  {
    if s != "" && space(s[|s| - 1]) {
      RightStripEnds(space, s[..|s| - 1]);
    }
  }

  /** Stripping cuts whitespace off both ends, and nothing else. */
  lemma StripCutsEnds(space: Space, s: string)
    ensures exists pre, post ::
              s == pre + Strip(space, s) + post && AllSpace(space, pre) && AllSpace(space, post)
  {
    var left := LeftStrip(space, s);
    var stripped := RightStrip(space, left);
    var pre := LeftStripCuts(space, s);
    var post := RightStripCuts(space, left);
    assert s == pre + stripped + post;
  }

  ghost predicate AllSpace(space: Space, s: string) {
    forall c :: c in s ==> space(c)
  }

  lemma {:induction false} LeftStripCuts(space: Space, s: string) returns (pre: string)
    ensures s == pre + LeftStrip(space, s) && AllSpace(space, pre)
  {
    pre := "";
    if s != "" && space(s[0]) {
      var rest := LeftStripCuts(space, s[1..]);
      pre := [s[0]] + rest;
    }
  }

  lemma {:induction false} RightStripCuts(space: Space, s: string) returns (post: string)
    ensures s == RightStrip(space, s) + post && AllSpace(space, post)
  {
    post := "";
    if s != "" && space(s[|s| - 1]) {
      var rest := RightStripCuts(space, s[..|s| - 1]);
      post := rest + [s[|s| - 1]];
    }
  }

  // ----- Structural chunks -----

  /** The chunks of one block between headings. */
  function BlockChunks(space: Space, block: string, chunkSize: int): seq<string>
    requires chunkSize >= 1 || Strip(space, block) == ""
  {
    var stripped := Strip(space, block);
    if stripped == "" then []
    else if |stripped| <= chunkSize then [stripped]
    else Windows(stripped, chunkSize, chunkSize / 8, 0)
  }

  ghost predicate AllBlank(space: Space, blocks: seq<string>) {
    forall i {:trigger blocks[i]} :: 0 <= i < |blocks| ==> Strip(space, blocks[i]) == ""
  }

  ghost function AllBlockChunks(space: Space, blocks: seq<string>, chunkSize: int): seq<string>
    requires chunkSize >= 1 || AllBlank(space, blocks)
  {
    if blocks == [] then []
    else AllBlockChunks(space, blocks[..|blocks| - 1], chunkSize) + BlockChunks(space, blocks[|blocks| - 1], chunkSize)
  }

  method ChunkStructural(space: Space, blocks: seq<string>, chunkSize: int) returns (chunks: seq<string>)
    requires chunkSize >= 1 || AllBlank(space, blocks)
    ensures chunks == AllBlockChunks(space, blocks, chunkSize)
  {
    chunks := [];
    for i := 0 to |blocks|
      invariant chunks == AllBlockChunks(space, blocks[..i], chunkSize)
    {
      assert blocks[..i + 1][..i] == blocks[..i];
      var stripped := Strip(space, blocks[i]);
      if stripped == "" {
        continue;
      }
      if |stripped| <= chunkSize {
        chunks := chunks + [stripped];
      } else {
        var windows := ChunkFixed(stripped, chunkSize, chunkSize / 8);
        chunks := chunks + windows;
      }
    }
    assert blocks[..|blocks|] == blocks;
  }

  /** A block that is not blank can be chunked exactly when the chunk size is positive. */
  lemma StructuralStopsIff(space: Space, block: string, chunkSize: int)
    requires Strip(space, block) != ""
    ensures |Strip(space, block)| <= chunkSize || Stops(|Strip(space, block)|, chunkSize, chunkSize / 8) <==>
            chunkSize >= 1
  {
    FixedStopsIff(|Strip(space, block)|, chunkSize, chunkSize / 8);
  }

  /** Structural chunks obey the size bound of the fixed windows, and none is empty. */
  lemma {:induction false} StructuralBound(space: Space, blocks: seq<string>, chunkSize: nat, i: nat)
    requires chunkSize >= 1 && i < |AllBlockChunks(space, blocks, chunkSize)|
    ensures 0 < |AllBlockChunks(space, blocks, chunkSize)[i]| <= chunkSize
  {
    var n := |AllBlockChunks(space, blocks[..|blocks| - 1], chunkSize)|;
    if i < n {
      StructuralBound(space, blocks[..|blocks| - 1], chunkSize, i);
    } else {
      var stripped := Strip(space, blocks[|blocks| - 1]);
      if |stripped| > chunkSize {
        WindowsAreSmall(stripped, chunkSize, chunkSize / 8, 0, i - n);
      }
    }
  }

  /** The chunks of a block rebuild the block, but for the whitespace around it. */
  lemma BlockRebuilds(space: Space, block: string, chunkSize: nat)
    requires chunkSize >= 1
    ensures Rebuild(BlockChunks(space, block, chunkSize), chunkSize / 8) == Strip(space, block)
    ensures Ink(space, Strip(space, block)) == Ink(space, block)
  {
    var stripped := Strip(space, block);
    StripKeeps(space, block);
    if |stripped| > chunkSize {
      ChunksRebuild(stripped, chunkSize, chunkSize / 8, 0);
    }
  }

  // ----- Semantic chunks -----

  function Join(pieces: seq<string>): string {
    if pieces == [] then "" else Join(pieces[..|pieces| - 1]) + pieces[|pieces| - 1]
  }

  ghost function Longest(sentences: seq<string>): nat {
    if sentences == [] then 0 else
    var rest, last := Longest(sentences[..|sentences| - 1]), |sentences[|sentences| - 1]|;
    if rest < last then last else rest
  }

  /** The length of the longest sentence. */
  lemma {:induction false} LongestIs(sentences: seq<string>)
    ensures forall i :: 0 <= i < |sentences| ==> |sentences[i]| <= Longest(sentences)
    ensures Longest(sentences) > 0 ==> exists i :: 0 <= i < |sentences| && |sentences[i]| == Longest(sentences)
  {
    if sentences != [] {
      var rest := sentences[..|sentences| - 1];
      LongestIs(rest);
      if Longest(rest) > 0 {
        var i :| 0 <= i < |rest| && |rest[i]| == Longest(rest);
        assert sentences[i] == rest[i];
      }
      forall i | 0 <= i < |sentences| ensures |sentences[i]| <= Longest(sentences) {
        assert i < |rest| ==> sentences[i] == rest[i];
      }
    }
  }

  lemma InkAfterAppend(space: Space, pieces: seq<string>, piece: string)
    ensures Ink(space, Join(pieces + [piece])) == Ink(space, Join(pieces)) + Ink(space, piece)
  {
    assert (pieces + [piece])[..|pieces|] == pieces;
    InkOfBoth(space, Join(pieces), piece);
  }

  lemma GlueKeeps(space: Space, current: string, sentence: string)
    requires space(' ')
    ensures Ink(space, Strip(space, current + " " + sentence)) == Ink(space, current) + Ink(space, sentence)
    ensures |Strip(space, current + " " + sentence)| <= |current| + |sentence| + 1
  {
    StripKeeps(space, current + " " + sentence);
    InkOfBoth(space, current + " ", sentence);
    InkOfBoth(space, current, " ");
    assert Ink(space, " ") == "";
  }

  /** Glued onto nothing, a sentence is only stripped. */
  lemma GlueOntoNothing(space: Space, sentence: string)
    requires space(' ')
    ensures |Strip(space, "" + " " + sentence)| <= |sentence|
  {
    var s := "" + " " + sentence;
    assert s[1..] == sentence;
    LeftStripKeeps(space, sentence);
    RightStripKeeps(space, LeftStrip(space, s));
  }

  /** Stripping does not touch a trimmed string. */
  lemma TrimmedStays(space: Space, s: string)
    requires Trimmed(space, s)
    ensures Strip(space, s) == s
  {
  }

  /** Gluing never makes the text gathered so far shorter. */
  lemma GlueGrows(space: Space, current: string, sentence: string)
    requires space(' ') && Trimmed(space, current) && Trimmed(space, sentence)
    ensures |Strip(space, current + " " + sentence)| >= |current|
    ensures |Strip(space, current + " " + sentence)| >= |sentence|
    ensures Trimmed(space, Strip(space, current + " " + sentence))
  {
    var s := current + " " + sentence;
    StripTrims(space, s);
    if current == "" {
      assert s[0] == ' ' && s[1..] == sentence;
      assert LeftStrip(space, s) == sentence;
    } else {
      assert s[0] == current[0] && LeftStrip(space, s) == s;
      if sentence == "" {
        assert s[|s| - 1] == ' ' && s[..|s| - 1] == current;
        assert RightStrip(space, s) == RightStrip(space, current) == current;
      } else {
        assert s[|s| - 1] == sentence[|sentence| - 1];
      }
    }
  }

  ghost predicate SmallChunks(chunks: seq<string>, bound: int) {
    forall i :: 0 <= i < |chunks| ==> |chunks[i]| <= bound
  }

  /** No chunk has room for the one after it. */
  ghost predicate Packed(chunks: seq<string>, chunkSize: int) {
    forall i :: 0 <= i < |chunks| - 1 ==> |chunks[i]| + |chunks[i + 1]| + 1 > chunkSize
  }

  lemma ChunkAppended(chunks: seq<string>, chunk: string, bound: nat, chunkSize: int)
    requires SmallChunks(chunks, bound) && |chunk| <= bound
    ensures SmallChunks(chunks + [chunk], bound)
    ensures Packed(chunks, chunkSize) && (chunks != [] ==> |chunks[|chunks| - 1]| + |chunk| + 1 > chunkSize) ==>
              Packed(chunks + [chunk], chunkSize)
  {
  }

  lemma BoundGrows(sentences: seq<string>, i: nat, chunks: seq<string>, chunkSize: int)
    requires i < |sentences|
    ensures Longest(sentences[..i]) <= Longest(sentences[..i + 1]) && |sentences[i]| <= Longest(sentences[..i + 1])
    ensures SmallChunks(chunks, Larger(chunkSize, Longest(sentences[..i]))) ==>
              SmallChunks(chunks, Larger(chunkSize, Longest(sentences[..i + 1])))
  {
    assert sentences[..i + 1][..i] == sentences[..i];
  }

  ghost predicate AllTrimmed(space: Space, sentences: seq<string>) {
    forall i :: 0 <= i < |sentences| ==> Trimmed(space, sentences[i])
  }

  function Larger(a: int, b: nat): nat {
    if a < b then b else a
  }

  // ----- Greedy gathering is optimal -----

  ghost predicate AllProper(space: Space, sentences: seq<string>) {
    AllTrimmed(space, sentences) && forall i :: 0 <= i < |sentences| ==> sentences[i] != ""
  }

  /** Sentences a to b - 1, with a space between any two. */
  ghost function Spaced(sentences: seq<string>, a: nat, b: nat): string
    requires a < b <= |sentences|
  {
    if b == a + 1 then sentences[a] else Spaced(sentences, a, b - 1) + " " + sentences[b - 1]
  }

  /** Fewer neighbours take less room. */
  lemma {:induction false} SpacedGrows(sentences: seq<string>, a: nat, a': nat, b': nat, b: nat)
    requires a <= a' < b' <= b <= |sentences|
    ensures |Spaced(sentences, a', b')| <= |Spaced(sentences, a, b)|
    decreases b
  {
    if b' < b {
      SpacedGrows(sentences, a, a', b', b - 1);
    } else if b' > a' + 1 {
      SpacedGrows(sentences, a, a', b' - 1, b - 1);
    }
  }

  /** Places to cut, the first of them before all sentences. */
  ghost predicate Cuts(sentences: seq<string>, cuts: seq<nat>)
    ensures Cuts(sentences, cuts) ==> cuts != [] && cuts[|cuts| - 1] <= |sentences|
  {
    var n := |cuts|;
    && n > 0
    && if n == 1 then cuts[0] == 0
       else cuts[n - 2] < cuts[n - 1] <= |sentences| && Cuts(sentences, cuts[..n - 1])
  }

  /** The groups of neighbours between the cuts. */
  ghost function Groups(sentences: seq<string>, cuts: seq<nat>): (groups: seq<string>)
    requires Cuts(sentences, cuts)
    ensures |groups| == |cuts| - 1
  {
    var n := |cuts|;
    if n == 1 then [] else Groups(sentences, cuts[..n - 1]) + [Spaced(sentences, cuts[n - 2], cuts[n - 1])]
  }

  /** The chunks are groups of neighbours, and there is no sentence outside of them. */
  ghost predicate AreGroups(sentences: seq<string>, chunks: seq<string>) {
    exists cuts ::
      Cuts(sentences, cuts) && cuts[|cuts| - 1] == |sentences| && chunks == Groups(sentences, cuts)
  }

  /** No grouping within the size has fewer groups than count. */
  ghost predicate Fewest(sentences: seq<string>, count: nat, size: int) {
    forall groups :: AreGroups(sentences, groups) && SmallChunks(groups, size) ==> count <= |groups|
  }

  /** Cuts that are made where the next sentence would be too much, and nowhere else. */
  ghost predicate Greedy(sentences: seq<string>, cuts: seq<nat>, size: int)
    requires Cuts(sentences, cuts)
  {
    var n := |cuts|;
    n == 1 || (cuts[n - 1] < |sentences| && |Spaced(sentences, cuts[n - 2], cuts[n - 1] + 1)| > size
               && Greedy(sentences, cuts[..n - 1], size))
  }

  lemma CutsSnoc(sentences: seq<string>, cuts: seq<nat>, cut: nat, size: int)
    requires Cuts(sentences, cuts) && cuts[|cuts| - 1] < cut <= |sentences|
    ensures Cuts(sentences, cuts + [cut])
    ensures Groups(sentences, cuts + [cut]) ==
            Groups(sentences, cuts) + [Spaced(sentences, cuts[|cuts| - 1], cut)]
    ensures Greedy(sentences, cuts, size) && cut < |sentences|
            && |Spaced(sentences, cuts[|cuts| - 1], cut + 1)| > size ==>
              Greedy(sentences, cuts + [cut], size)
  {
    assert (cuts + [cut])[..|cuts|] == cuts;
  }

  /** No grouping within the size gets ahead of the greedy one. */
  lemma {:induction false} GreedyStaysAhead(
    sentences: seq<string>, greedy: seq<nat>, cuts: seq<nat>, size: int)
    requires Cuts(sentences, greedy) && Greedy(sentences, greedy, size)
    requires Cuts(sentences, cuts) && SmallChunks(Groups(sentences, cuts), size)
    requires |cuts| == |greedy|
    ensures cuts[|cuts| - 1] <= greedy[|greedy| - 1]
    decreases |cuts|
  {
    var n := |cuts|;
    if n > 1 {
      var before := cuts[..n - 1];
      assert Groups(sentences, cuts)[n - 2] == Spaced(sentences, cuts[n - 2], cuts[n - 1]);
      assert SmallChunks(Groups(sentences, before), size) by {
        forall i | 0 <= i < n - 2 ensures |Groups(sentences, before)[i]| <= size {
          assert Groups(sentences, before)[i] == Groups(sentences, cuts)[i];
        }
      }
      GreedyStaysAhead(sentences, greedy[..n - 1], before, size);
      if greedy[n - 1] < cuts[n - 1] {
        SpacedGrows(sentences, cuts[n - 2], greedy[n - 2], greedy[n - 1] + 1, cuts[n - 1]);
        assert false;
      }
    }
  }

  /** The first cuts of a greedy grouping are greedy, and none of them is behind the last sentence. */
  lemma {:induction false} GreedyStarts(sentences: seq<string>, greedy: seq<nat>, size: int, k: nat)
    requires Cuts(sentences, greedy) && Greedy(sentences, greedy, size) && sentences != [] && 0 < k <= |greedy|
    ensures Cuts(sentences, greedy[..k]) && Greedy(sentences, greedy[..k], size)
    ensures greedy[k - 1] < |sentences|
    decreases |greedy|
  {
    var n := |greedy|;
    if k < n {
      GreedyStarts(sentences, greedy[..n - 1], size, k);
      assert greedy[..n - 1][..k] == greedy[..k];
    } else {
      assert greedy[..k] == greedy;
    }
  }

  lemma GreedyIsFewest(sentences: seq<string>, greedy: seq<nat>, size: int)
    requires Cuts(sentences, greedy) && Greedy(sentences, greedy, size) && sentences != []
    ensures Fewest(sentences, |greedy|, size)
  {
    hide Groups, Greedy;
    forall groups | AreGroups(sentences, groups) && SmallChunks(groups, size) ensures |greedy| <= |groups| {
      var cuts :| Cuts(sentences, cuts) && cuts[|cuts| - 1] == |sentences| && groups == Groups(sentences, cuts);
      if |cuts| <= |greedy| {
        GreedyStarts(sentences, greedy, size, |cuts|);
        GreedyStaysAhead(sentences, greedy[..|cuts|], cuts, size);
        assert false;
      }
    }
  }

  /** How the loop stands after i sentences: the groups it has closed, and the open one. */
  ghost predicate Gathering(
    sentences: seq<string>, i: nat, cuts: seq<nat>, chunks: seq<string>, current: string, size: int)
  {
    && i <= |sentences| && Cuts(sentences, cuts) && Greedy(sentences, cuts, size)
    && chunks == Groups(sentences, cuts)
    && if i == 0 then cuts == [0] && current == ""
       else cuts[|cuts| - 1] < i && current == Spaced(sentences, cuts[|cuts| - 1], i) && current != ""
  }

  lemma NothingGathered(sentences: seq<string>, size: int)
    ensures Gathering(sentences, 0, [0], [], "", size)
  {
  }

  /** A sentence that does not fit opens a group. */
  lemma GroupOpens(
    sentences: seq<string>, i: nat, cuts: seq<nat>, chunks: seq<string>, current: string, size: int)
    requires Gathering(sentences, i, cuts, chunks, current, size) && i < |sentences| && sentences[i] != ""
    requires current != "" && |current| + |sentences[i]| + 1 > size
    ensures Gathering(sentences, i + 1, cuts + [i], chunks + [current], sentences[i], size)
  {
    hide Cuts, Groups, Greedy;
    CutsSnoc(sentences, cuts, i, size);
  }

  /** A sentence that fits widens the group. */
  lemma GroupWidens(space: Space, sentences: seq<string>, i: nat, cuts: seq<nat>, chunks: seq<string>,
                    current: string, size: int)
    requires space(' ') && Gathering(sentences, i, cuts, chunks, current, size) && i < |sentences|
    requires Trimmed(space, current) && Trimmed(space, sentences[i]) && sentences[i] != ""
    ensures Gathering(sentences, i + 1, cuts, chunks, Strip(space, current + " " + sentences[i]), size)
  {
    hide Cuts, Groups, Greedy;
    GlueExact(space, current, sentences[i]);
  }

  lemma GlueExact(space: Space, current: string, sentence: string)
    requires space(' ') && Trimmed(space, current) && Trimmed(space, sentence) && sentence != ""
    ensures Strip(space, current + " " + sentence) ==
            if current == "" then sentence else current + " " + sentence
  {
    var s := current + " " + sentence;
    assert s[|s| - 1] == sentence[|sentence| - 1];
    if current == "" {
      assert s[0] == ' ' && s[1..] == sentence;
      assert LeftStrip(space, s) == sentence;
    } else {
      assert s[0] == current[0] && LeftStrip(space, s) == s;
    }
  }

  /** At the end the open group is closed, if there is one. */
  lemma AllGathered(sentences: seq<string>, cuts: seq<nat>, chunks: seq<string>, current: string, size: int)
    requires Gathering(sentences, |sentences|, cuts, chunks, current, size)
    ensures var all := if current == "" then chunks else chunks + [current];
            AreGroups(sentences, all) && Fewest(sentences, |all|, size)
  {
    if sentences == [] {
      assert Groups(sentences, cuts) == [];
    } else {
      hide Cuts, Groups, Greedy;
      CutsSnoc(sentences, cuts, |sentences|, size);
      GreedyIsFewest(sentences, cuts, size);
      assert Groups(sentences, cuts + [|sentences|]) == chunks + [current];
    }
  }

  /** What the loop has achieved after i sentences. */
  ghost predicate SoFar(space: Space, sentences: seq<string>, i: nat, chunks: seq<string>, current: string,
                        cuts: seq<nat>, size: int)
  {
    && i <= |sentences|
    && SmallChunks(chunks, Larger(size, Longest(sentences[..i])))
    && |current| <= Larger(size, Longest(sentences[..i]))
    && Ink(space, Join(chunks)) + Ink(space, current) == Ink(space, Join(sentences[..i]))
    && (AllTrimmed(space, sentences) ==>
          && Packed(chunks, size) && Trimmed(space, current)
          && (chunks != [] ==> |chunks[|chunks| - 1]| + |current| + 1 > size))
    && (AllProper(space, sentences) ==> Gathering(sentences, i, cuts, chunks, current, size))
  }

  lemma SoFarNothing(space: Space, sentences: seq<string>, size: int)
    ensures SoFar(space, sentences, 0, [], "", [0], size)
  {
    hide Ink, Join, Trimmed, Packed, SmallChunks, Longest, Gathering;
    NothingYet(space, size);
    NothingGathered(sentences, size);
    assert sentences[..0] == [];
  }

  /** The gathered text is put away, and the next sentence begins a new one. */
  lemma SoFarOpens(space: Space, sentences: seq<string>, i: nat, chunks: seq<string>, current: string,
                   cuts: seq<nat>, size: int)
    requires SoFar(space, sentences, i, chunks, current, cuts, size) && i < |sentences|
    requires current != "" && |current| + |sentences[i]| + 1 > size
    ensures SoFar(space, sentences, i + 1, chunks + [Strip(space, current)], sentences[i], cuts + [i], size)
  {
    hide Ink, Strip, Join, Trimmed, Packed, SmallChunks, Longest, Gathering;
    assert sentences[..i + 1] == sentences[..i] + [sentences[i]];
    BoundGrows(sentences, i, chunks, size);
    InkAfterAppend(space, sentences[..i], sentences[i]);
    AppendStripped(space, chunks, current, Larger(size, Longest(sentences[..i + 1])), size);
    if AllProper(space, sentences) {
      GroupOpens(sentences, i, cuts, chunks, current, size);
    }
  }

  /** The next sentence is added to the gathered text. */
  lemma SoFarWidens(space: Space, sentences: seq<string>, i: nat, chunks: seq<string>, current: string,
                    cuts: seq<nat>, size: int)
    requires space(' ') && SoFar(space, sentences, i, chunks, current, cuts, size) && i < |sentences|
    requires current == "" || |current| + |sentences[i]| + 1 <= size
    ensures SoFar(space, sentences, i + 1, chunks, Strip(space, current + " " + sentences[i]), cuts, size)
  {
    hide Ink, Strip, Join, Trimmed, Packed, SmallChunks, Longest, Gathering;
    var sentence := sentences[i];
    assert sentences[..i + 1] == sentences[..i] + [sentence];
    BoundGrows(sentences, i, chunks, size);
    InkAfterAppend(space, sentences[..i], sentence);
    GlueKeeps(space, current, sentence);
    GlueOntoNothing(space, sentence);
    if Trimmed(space, current) && Trimmed(space, sentence) {
      GlueGrows(space, current, sentence);
    }
    if AllProper(space, sentences) {
      GroupWidens(space, sentences, i, cuts, chunks, current, size);
    }
  }

  /** After the last sentence the gathered text is put away, if there is any. */
  lemma SoFarEnds(space: Space, sentences: seq<string>, chunks: seq<string>, current: string, cuts: seq<nat>, size: int)
    requires SoFar(space, sentences, |sentences|, chunks, current, cuts, size)
    ensures var all := if Strip(space, current) != "" then chunks + [Strip(space, current)] else chunks;
            && SmallChunks(all, Larger(size, Longest(sentences)))
            && Ink(space, Join(all)) == Ink(space, Join(sentences))
            && (AllTrimmed(space, sentences) ==> Packed(all, size))
            && (AllProper(space, sentences) ==> AreGroups(sentences, all) && Fewest(sentences, |all|, size))
  {
    hide Ink, Strip, Join, Trimmed, Packed, SmallChunks, Longest, Gathering, AreGroups, Fewest;
    assert sentences[..|sentences|] == sentences;
    if AllProper(space, sentences) {
      AllGathered(sentences, cuts, chunks, current, size);
    }
    AppendStripped(space, chunks, current, Larger(size, Longest(sentences)), size);
  }

  /**
   Sentences are gathered greedily. No chunk is longer than the chunk size or the longest
   single sentence, and all characters but whitespace survive, in order. For sentences
   without surrounding whitespace no two neighbouring chunks would fit into one. If none of
   them is empty either, the chunks are groups of neighbouring sentences, and no grouping
   within the chunk size has fewer.
   */
  method ChunkSemantic(space: Space, sentences: seq<string>, chunkSize: int) returns (chunks: seq<string>)
    requires space(' ')
    ensures SmallChunks(chunks, Larger(chunkSize, Longest(sentences)))
    ensures Ink(space, Join(chunks)) == Ink(space, Join(sentences))
    ensures AllTrimmed(space, sentences) ==> Packed(chunks, chunkSize)
    ensures AllProper(space, sentences) ==>
              AreGroups(sentences, chunks) && Fewest(sentences, |chunks|, chunkSize)
  {
    hide SoFar, Ink, Strip, Join, Trimmed, Packed, SmallChunks, Longest, AreGroups, Fewest, AllTrimmed, AllProper;
    chunks := [];
    var current := "";
    ghost var cuts: seq<nat> := [0];
    SoFarNothing(space, sentences, chunkSize);
    for i := 0 to |sentences|
      invariant SoFar(space, sentences, i, chunks, current, cuts, chunkSize)
    {
      var sentence := sentences[i];
      if current != "" && |current| + |sentence| + 1 > chunkSize {
        SoFarOpens(space, sentences, i, chunks, current, cuts, chunkSize);
        cuts := cuts + [i];
        chunks := chunks + [Strip(space, current)];
        current := sentence;
      } else {
        SoFarWidens(space, sentences, i, chunks, current, cuts, chunkSize);
        current := Strip(space, current + " " + sentence);
      }
    }
    SoFarEnds(space, sentences, chunks, current, cuts, chunkSize);
    if Strip(space, current) != "" {
      chunks := chunks + [Strip(space, current)];
    }
  }

  lemma NothingYet(space: Space, chunkSize: int)
    ensures SmallChunks([], Larger(chunkSize, Longest([]))) && Packed([], chunkSize) && Trimmed(space, "")
    ensures Ink(space, Join([])) == Ink(space, "") == ""
  {
  }

  /** Putting the gathered text away. */
  lemma AppendStripped(space: Space, chunks: seq<string>, current: string, bound: nat, chunkSize: int)
    requires SmallChunks(chunks, bound) && |current| <= bound
    ensures var chunks' := chunks + [Strip(space, current)];
            && SmallChunks(chunks', bound)
            && Ink(space, Join(chunks')) == Ink(space, Join(chunks)) + Ink(space, current)
            && (Trimmed(space, current) ==> Strip(space, current) == current)
    ensures Strip(space, current) == "" ==> Ink(space, current) == ""
    ensures Trimmed(space, current) && Packed(chunks, chunkSize) ==>
              (chunks != [] ==> |chunks[|chunks| - 1]| + |current| + 1 > chunkSize) ==>
                Packed(chunks + [Strip(space, current)], chunkSize)
  {
    StripKeeps(space, current);
    InkAfterAppend(space, chunks, Strip(space, current));
    if Trimmed(space, current) {
      TrimmedStays(space, current);
    }
    ChunkAppended(chunks, Strip(space, current), bound, chunkSize);
  }

  // ----- Choosing a strategy -----

  datatype Strategy = Fixed | Semantic | Structural

  /** The text together with the pieces that the two regular expressions cut it into. */
  datatype Document = Document(text: string, sentences: seq<string>, blocks: seq<string>)

  method ChunkText(space: Space, doc: Document, strategy: Strategy, chunkSize: int, overlap: int)
    returns (chunks: seq<string>)
    requires space(' ')
    requires doc.text == "" || strategy.Semantic? || chunkSize >= 1
             || (strategy.Fixed? && overlap < chunkSize) || (strategy.Structural? && AllBlank(space, doc.blocks))
    ensures doc.text == "" ==> chunks == []
    ensures doc.text != "" && strategy.Fixed? ==>
              chunks == Windows(doc.text, chunkSize, Effective(chunkSize, overlap), 0)
    ensures doc.text != "" && strategy.Structural? ==> chunks == AllBlockChunks(space, doc.blocks, chunkSize)
    ensures doc.text != "" && strategy.Semantic? ==>
              && Ink(space, Join(chunks)) == Ink(space, Join(doc.sentences))
              && (AllTrimmed(space, doc.sentences) ==> Packed(chunks, chunkSize))
              && (AllProper(space, doc.sentences) ==>
                    AreGroups(doc.sentences, chunks) && Fewest(doc.sentences, |chunks|, chunkSize))
    ensures chunkSize >= 1 || strategy.Semantic? ==>
              SmallChunks(chunks, Larger(chunkSize, if strategy.Semantic? then Longest(doc.sentences) else 0))
  {
    if doc.text == "" {
      return [];
    }
    match strategy {
      case Structural =>
        chunks := ChunkStructural(space, doc.blocks, chunkSize);
        forall i | 0 <= i < |chunks| && chunkSize >= 1 ensures |chunks[i]| <= chunkSize {
          StructuralBound(space, doc.blocks, chunkSize, i);
        }
      case Semantic =>
        chunks := ChunkSemantic(space, doc.sentences, chunkSize);
      case Fixed =>
        chunks := ChunkFixed(doc.text, chunkSize, overlap);
        forall i | 0 <= i < |chunks| && chunkSize >= 1 ensures |chunks[i]| <= chunkSize {
          WindowsAreSmall(doc.text, chunkSize, Effective(chunkSize, overlap), 0, i);
        }
    }
  }
}

/** Splitting long texts for Telegram (channel/telegram.go). */
module Telegram {
  import opened Bytes
  import opened Utf8

  const MAX_LENGTH := 4096

  /** getPlainTextNearestValidSplit. */
  function PlainSplit(s: Text, idx: nat): (r: nat)
    ensures r <= idx
    ensures idx >= |s| ==> r == idx
    ensures 0 < r < |s| ==> !IsContinuation(s[r])
    ensures forall j :: r < j <= idx && j < |s| ==> IsContinuation(s[j])
  {
    if idx >= |s| then idx
    else if idx == 0 then 0
    else if !IsContinuation(s[idx]) then idx
    else PlainSplit(s, idx - 1)
  }

  /** The last newline of s[..n], if any. */
  function LastNewline(s: Text, n: nat): (i: Option<nat>)
    requires n <= |s|
    ensures i.Some? ==> i.value < n && s[i.value] == NEWLINE
    ensures i.Some? ==> forall j :: i.value < j < n ==> s[j] != NEWLINE
    ensures i.None? ==> forall j :: 0 <= j < n ==> s[j] != NEWLINE
  {
    if n == 0 then None else if s[n - 1] == NEWLINE then Some(n - 1) else LastNewline(s, n - 1)
  }

  /** r comes right after the last newline at or before idx; without one it is idx. */
  ghost predicate IsLineSplit(s: Text, idx: nat, r: nat)
    requires idx < |s|
  {
    if NEWLINE in s[..idx + 1] then 0 < r <= idx + 1 && s[r - 1] == NEWLINE && NEWLINE !in s[r..idx + 1] else r == idx
  }

  /** getMarkdownNearestValidSplit. */
  function MarkdownSplit(s: Text, idx: nat): (r: nat)
    ensures idx == 0 || idx >= |s| ==> r == idx
    ensures 0 < idx < |s| ==> IsLineSplit(s, idx, r)
  {
    if idx >= |s| then idx
    else if idx == 0 then 0
    else match LastNewline(s, idx + 1)
         case Some(i) =>
           assert s[..idx + 1][i] == NEWLINE;
           i + 1
         case None => idx
  }

  method MarkdownNearestValidSplit(s: Text, idx: nat) returns (r: nat)
    ensures idx == 0 || idx >= |s| ==> r == idx
    ensures 0 < idx < |s| ==> IsLineSplit(s, idx, r)
    ensures r == MarkdownSplit(s, idx)
  {
    if idx >= |s| {
      return idx;
    }
    if idx == 0 {
      return 0;
    }
    var i: int := idx;
    while i >= 0
      invariant -1 <= i <= idx
      invariant forall j :: i < j <= idx ==> s[j] != NEWLINE
    {
      if s[i] == NEWLINE {
        assert s[..idx + 1][i] == NEWLINE;
        return i + 1;
      }
      i := i - 1;
    }
    return idx;
  }

  // Where chunks start

  /** Positions a chunk can start at: in plain text the start of a character, in Markdown the start of a line. */
  ghost predicate IsBoundary(s: Text, markdown: bool, p: nat) {
    p <= |s| &&
    (p == 0 || p == |s|
     || (if markdown then s[p - 1] == NEWLINE || (forall j :: 0 <= j < p ==> s[j] != NEWLINE)
         else !IsContinuation(s[p])))
  }

  /** One turn of the loop. */
  function NextIdx(s: Text, markdown: bool, idx: nat): (next: nat)
    requires idx < |s| && IsBoundary(s, markdown, idx)
    ensures idx <= next <= |s| && IsBoundary(s, markdown, next)
  {
    var cut := idx + MAX_LENGTH;
    if cut > |s| then |s|
    else if markdown then MarkdownSplit(s, cut)
    else PlainSplit(s, cut)
  }

  /** Where the loop stands after n turns. */
  function Position(s: Text, markdown: bool, n: nat): (p: nat)
    ensures p <= |s| && IsBoundary(s, markdown, p)
  {
    if n == 0 then 0
    else
      var before := Position(s, markdown, n - 1);
      if before == |s| then before else NextIdx(s, markdown, before)
  }

  /** The definition of Position, for proofs that keep it hidden. */
  lemma PositionNext(s: Text, markdown: bool, n: nat)
    ensures Position(s, markdown, 0) == 0
    ensures Position(s, markdown, n + 1) ==
              if Position(s, markdown, n) == |s| then |s| else NextIdx(s, markdown, Position(s, markdown, n))
  {
  }

  lemma {:induction false} PositionsAscend(s: Text, markdown: bool, m: nat, n: nat)
    requires m <= n
    ensures Position(s, markdown, m) <= Position(s, markdown, n)
  {
    if m < n {
      PositionsAscend(s, markdown, m, n - 1);
    }
  }

  /** The chunk of turn i. */
  function Chunk(s: Text, markdown: bool, i: nat): Text {
    PositionsAscend(s, markdown, i, i + 1);
    s[Position(s, markdown, i)..Position(s, markdown, i + 1)]
  }

  lemma ChunkIs(s: Text, markdown: bool, i: nat, next: nat)
    requires next == Position(s, markdown, i + 1)
    ensures Position(s, markdown, i) <= next && Chunk(s, markdown, i) == s[Position(s, markdown, i)..next]
  {
    PositionsAscend(s, markdown, i, i + 1);
  }

  ghost predicate Terminates(s: Text, markdown: bool) {
    exists n: nat :: Position(s, markdown, n) == |s|
  }

  /** The chunks of a completed loop, in order. */
  ghost predicate IsChunking(s: Text, markdown: bool, chunks: seq<Text>) {
    && (forall i :: 0 <= i < |chunks| ==> Position(s, markdown, i) < |s| && chunks[i] == Chunk(s, markdown, i))
    && Position(s, markdown, |chunks|) == |s|
  }

  method GetNextIdx(text: Text, markdown: bool, idx: nat) returns (nextIdx: nat)
    requires idx < |text| && IsBoundary(text, markdown, idx)
    ensures nextIdx == NextIdx(text, markdown, idx)
  {
    nextIdx := idx + MAX_LENGTH;
    if nextIdx > |text| {
      nextIdx := |text|;
    } else if markdown {
      nextIdx := MarkdownNearestValidSplit(text, nextIdx);
    } else {
      nextIdx := PlainSplit(text, nextIdx);
    }
  }

  /** What the loop sends, one chunk after the other, while accepts(i) says the i-th post succeeded. */
  ghost predicate IsSending(s: Text, markdown: bool, sent: seq<Text>, failed: bool, accepts: nat -> bool) {
    && (forall i :: 0 <= i < |sent| ==> Position(s, markdown, i) < |s| && sent[i] == Chunk(s, markdown, i))
    && (forall i :: 0 <= i < |sent| && (failed ==> i < |sent| - 1) ==> accepts(i))
    && (failed ==> sent != [] && !accepts(|sent| - 1))
  }

  /**
   * The loop of SendTelegramMessage. A rejected post ends it with an error; it must end in one way or the other.
   */
  method SendTelegramMessage(content: Text, description: Text, accepts: nat -> bool)
    returns (sent: seq<Text>, failed: bool)
    requires Terminates(if content == [] then description else content, content != []) || exists k :: !accepts(k)
    ensures var text := if content == [] then description else content;
            IsSending(text, content != [], sent, failed, accepts)
            && (!failed ==> IsChunking(text, content != [], sent))
  {
    hide NextIdx, Position, Chunk;
    var text, markdown := description, false;
    if content != [] {
      text, markdown := content, true;
    }
    ghost var turns: nat :| Position(text, markdown, turns) == |text| || !accepts(turns);
    var idx := 0;
    sent, failed := [], false;
    PositionNext(text, markdown, 0);
    while idx < |text|
      invariant idx == Position(text, markdown, |sent|)
      invariant IsSending(text, markdown, sent, false, accepts)
      invariant |sent| <= turns
      decreases turns - |sent|
    {
      var k := |sent|;
      var nextIdx := GetNextIdx(text, markdown, idx);
      PositionNext(text, markdown, k);
      ChunkIs(text, markdown, k, nextIdx);
      sent := sent + [text[idx..nextIdx]];
      idx := nextIdx;
      if !accepts(k) {
        failed := true;
        return;
      }
    }
  }

  // When the loop ends

  /** MAX_LENGTH continuation bytes right after the byte at p. */
  ghost predicate IsContinuationRun(s: Text, p: nat) {
    p + MAX_LENGTH < |s| && forall j :: p < j <= p + MAX_LENGTH ==> IsContinuation(s[j])
  }

  /** A line that begins after a newline at q and is longer than MAX_LENGTH. */
  ghost predicate IsLongLine(s: Text, q: nat) {
    q + 1 + MAX_LENGTH < |s| && s[q] == NEWLINE
    && forall j :: q < j <= q + 1 + MAX_LENGTH ==> s[j] != NEWLINE
  }

  /** A place the loop cannot get past. */
  ghost predicate IsTrap(s: Text, markdown: bool, p: nat) {
    if markdown then p > 0 && IsLongLine(s, p - 1) else IsContinuationRun(s, p)
  }

  /** From a boundary the loop fails to advance exactly at a trap. */
  lemma StuckAtTrap(s: Text, markdown: bool, p: nat)
    requires p < |s| && IsBoundary(s, markdown, p)
    ensures NextIdx(s, markdown, p) == p <==> IsTrap(s, markdown, p)
  {
    var cut := p + MAX_LENGTH;
    if cut < |s| && markdown {
      match LastNewline(s, cut + 1) {
        case Some(i) =>
        case None =>
      }
    }
  }

  /** The loop never passes a trap. */
  lemma {:induction false} TrapHolds(s: Text, markdown: bool, p: nat, n: nat)
    requires IsTrap(s, markdown, p)
    ensures Position(s, markdown, n) <= p
  {
    hide Position;
    PositionNext(s, markdown, if n > 0 then n - 1 else 0);
    if n > 0 {
      TrapHolds(s, markdown, p, n - 1);
      TrapStops(s, markdown, p, Position(s, markdown, n - 1));
    }
  }

  /** Nor does one turn that starts before a trap. */
  lemma TrapStops(s: Text, markdown: bool, p: nat, idx: nat)
    requires IsTrap(s, markdown, p) && idx <= p && idx < |s| && IsBoundary(s, markdown, idx)
    ensures p < |s| && NextIdx(s, markdown, idx) <= p
  {
    assert idx + MAX_LENGTH <= p + MAX_LENGTH < |s|;
    if markdown {
      assert s[p - 1] == NEWLINE;
    }
  }

  lemma {:induction false} NoTrapAdvances(s: Text, markdown: bool, n: nat)
    requires forall p :: !IsTrap(s, markdown, p)
    ensures Position(s, markdown, n) == |s| || Position(s, markdown, n) >= n
  {
    if n > 0 {
      NoTrapAdvances(s, markdown, n - 1);
      if Position(s, markdown, n - 1) < |s| {
        StuckAtTrap(s, markdown, Position(s, markdown, n - 1));
      }
    }
  }

  /**
   * The loop ends exactly when the text has no trap: in plain text, no run of MAX_LENGTH continuation bytes
   * after another byte; in Markdown, no line after the first that is longer than MAX_LENGTH.
   */
  lemma TerminatesExactly(s: Text, markdown: bool)
    ensures Terminates(s, markdown) <==> forall p: nat :: !IsTrap(s, markdown, p)
  {
    if p: nat :| IsTrap(s, markdown, p) {
      forall n: nat ensures Position(s, markdown, n) < |s| {
        TrapHolds(s, markdown, p, n);
      }
    } else {
      NoTrapAdvances(s, markdown, |s|);
    }
  }

  /** Valid UTF-8 has no run of four continuation bytes, so plain text always gets through. */
  lemma ValidTerminates(s: Text)
    requires Valid(s)
    ensures Terminates(s, false)
  {
    forall p: nat ensures !IsTrap(s, false, p) {
      if p + MAX_LENGTH < |s| {
        StartAmongFour(s, p + 1);
      }
    }
    TerminatesExactly(s, false);
  }

  // What the chunks are

  /** The chunks, joined. */
  function Concat(parts: seq<Text>): Text {
    if parts == [] then [] else Concat(parts[..|parts| - 1]) + parts[|parts| - 1]
  }

  lemma {:induction false} PrefixSent(s: Text, markdown: bool, chunks: seq<Text>)
    requires forall i :: 0 <= i < |chunks| ==> chunks[i] == Chunk(s, markdown, i)
    ensures Concat(chunks) == s[..Position(s, markdown, |chunks|)]
  {
    hide Position;
    PositionNext(s, markdown, 0);
    if chunks != [] {
      var n := |chunks| - 1;
      PrefixSent(s, markdown, chunks[..n]);
      PositionsAscend(s, markdown, n, n + 1);
      var a, b := Position(s, markdown, n), Position(s, markdown, n + 1);
      assert s[..a] + s[a..b] == s[..b];
    }
  }

  /** The chunks of a completed loop put the text together again. */
  lemma ChunksReassemble(s: Text, markdown: bool, chunks: seq<Text>)
    requires IsChunking(s, markdown, chunks)
    ensures Concat(chunks) == s
  {
    PrefixSent(s, markdown, chunks);
    assert s[..|s|] == s;
  }

  /** Every turn of a completed loop advances, so no chunk is empty. */
  lemma {:induction false} TurnOf(s: Text, markdown: bool, chunks: seq<Text>, i: nat, a: nat, b: nat)
    requires IsChunking(s, markdown, chunks) && i < |chunks|
    requires a == Position(s, markdown, i) && b == Position(s, markdown, i + 1)
    ensures a < b <= |s| && a < |s| && b == NextIdx(s, markdown, a) && chunks[i] == s[a..b]
    ensures b < |s| <==> i < |chunks| - 1
  {
    ChunkIs(s, markdown, i, b);
    PositionNext(s, markdown, i);
    assert chunks[i] == Chunk(s, markdown, i);
    if a == b {
      StuckAtTrap(s, markdown, a);
      TrapHolds(s, markdown, a, |chunks|);
    }
    if i < |chunks| - 1 {
      assert chunks[i + 1] == Chunk(s, markdown, i + 1);
    }
  }

  lemma ValidSlice(s: Text, a: nat, b: nat)
    requires Valid(s) && a <= b && IsBoundary(s, false, a) && IsBoundary(s, false, b)
    ensures Valid(s[a..b])
  {
    hide Valid, IsContinuation;
    if s != [] {
      ValidStart(s);
    }
    CutAtStart(s, a);
    assert b < |s| ==> s[a..][b - a] == s[b];
    CutAtStart(s[a..], b - a);
    assert s[a..][..b - a] == s[a..b];
  }

  lemma PlainStep(s: Text, a: nat)
    requires Valid(s) && a < |s| && IsBoundary(s, false, a)
    ensures NextIdx(s, false, a) <= a + MAX_LENGTH
    ensures NextIdx(s, false, a) < |s| ==> NextIdx(s, false, a) >= a + MAX_LENGTH - 3
  {
    if a + MAX_LENGTH < |s| {
      StartAmongFour(s, a + MAX_LENGTH - 3);
    }
  }

  /** A plain chunk of valid UTF-8 is valid, at most MAX_LENGTH bytes, and at most 3 shorter unless it is the last. */
  lemma {:induction false} PlainChunk(s: Text, chunks: seq<Text>, i: nat)
    requires Valid(s) && IsChunking(s, false, chunks) && i < |chunks|
    ensures Valid(chunks[i]) && |chunks[i]| <= 4096
    ensures i < |chunks| - 1 ==> |chunks[i]| >= 4093
  {
    hide Position, NextIdx, Valid, IsChunking;
    var a, b := Position(s, false, i), Position(s, false, i + 1);
    TurnOf(s, false, chunks, i, a, b);
    PlainStep(s, a);
    ValidSlice(s, a, b);
  }

  /** The first line is no longer than MAX_LENGTH. */
  ghost predicate FirstLineFits(s: Text) {
    |s| <= MAX_LENGTH || exists j :: 0 <= j <= MAX_LENGTH && s[j] == NEWLINE
  }

  lemma MarkdownStep(s: Text, p: nat)
    requires p < |s| && IsBoundary(s, true, p)
    ensures var next, cut := NextIdx(s, true, p), p + MAX_LENGTH;
            && next <= cut + 1
            && (next == cut + 1 <==> cut < |s| && s[cut] == NEWLINE)
            && (FirstLineFits(s) ==> next == |s| || (next > 0 && s[next - 1] == NEWLINE))
  {
  }

  /**
   * A Markdown chunk holds at most MAX_LENGTH bytes, or one more exactly when the byte at the cut is a
   * newline; unless the first line is too long, every chunk ends with a newline or with the text, so that
   * no line is cut.
   */
  lemma {:induction false} MarkdownChunk(s: Text, chunks: seq<Text>, i: nat)
    requires IsChunking(s, true, chunks) && i < |chunks|
    ensures |chunks[i]| <= 4097
    ensures var cut := Position(s, true, i) + 4096;
            |chunks[i]| == 4097 <==> cut < |s| && s[cut] == NEWLINE
    ensures FirstLineFits(s) ==>
              i == |chunks| - 1 || (chunks[i] != [] && chunks[i][|chunks[i]| - 1] == NEWLINE)
  {
    hide Position, NextIdx, IsChunking, FirstLineFits;
    var a, b := Position(s, true, i), Position(s, true, i + 1);
    TurnOf(s, true, chunks, i, a, b);
    MarkdownStep(s, a);
    assert s[a..b][b - a - 1] == s[b - 1];
  }

  /**
   * A Markdown chunk is as long as whole lines allow: where it ends at a line, no other line ends between there and
   * the cut; where none ends before the cut, it ends at the cut.
   */
  lemma {:induction false} MarkdownChunkIsLongest(s: Text, chunks: seq<Text>, i: nat)
    requires IsChunking(s, true, chunks) && i < |chunks|
    ensures var a, b := Position(s, true, i), Position(s, true, i + 1);
            && chunks[i] == s[a..b]
            && if a + 4096 >= |s| then b == |s|
               else if NEWLINE in s[a..a + 4097] then s[b - 1] == NEWLINE && NEWLINE !in s[b..a + 4097]
               else b == a + 4096
  {
    hide Position, NextIdx, IsChunking, IsLineSplit;
    var a, b := Position(s, true, i), Position(s, true, i + 1);
    TurnOf(s, true, chunks, i, a, b);
    LongestStep(s, a);
  }

  lemma LongestStep(s: Text, a: nat)
    requires a < |s| && IsBoundary(s, true, a) && a < NextIdx(s, true, a)
    ensures var b := NextIdx(s, true, a);
            if a + 4096 >= |s| then b == |s|
            else if NEWLINE in s[a..a + 4097] then b <= a + 4097 && s[b - 1] == NEWLINE && NEWLINE !in s[b..a + 4097]
            else b == a + 4096
  {
    var cut, b := a + 4096, NextIdx(s, true, a);
    if cut < |s| {
      var upTo := s[..cut + 1];
      assert forall j :: a <= j <= cut ==> upTo[j] == s[a..cut + 1][j - a];
      if NEWLINE in upTo {
        assert s[a..cut + 1][b - 1 - a] == NEWLINE;
      }
    }
  }

  // Whole characters in Markdown

  /** A first line that is cut is cut every MAX_LENGTH bytes; the other cuts follow a newline. */
  lemma {:induction false} MarkdownPositions(s: Text, n: nat)
    ensures var p := Position(s, true, n);
            || p == |s| || (p > 0 && s[p - 1] == NEWLINE)
            || (p == MAX_LENGTH * n && (n > 0 ==> NEWLINE !in s[..p + 1]))
  {
    hide Position;
    PositionNext(s, true, if n > 0 then n - 1 else 0);
    if n > 0 {
      MarkdownPositions(s, n - 1);
      var q := Position(s, true, n - 1);
      if q < |s| {
        MarkdownCut(s, q);
      }
    }
  }

  lemma MarkdownCut(s: Text, q: nat)
    requires q < |s| && IsBoundary(s, true, q)
    ensures var next := NextIdx(s, true, q);
            || next == |s| || (next > 0 && s[next - 1] == NEWLINE)
            || (next == q + MAX_LENGTH && NEWLINE !in s[..next + 1])
    ensures q + MAX_LENGTH < |s| && NEWLINE !in s[..q + MAX_LENGTH + 1] ==> NextIdx(s, true, q) == q + MAX_LENGTH
  {
    var cut := q + MAX_LENGTH;
    if cut < |s| {
      var line := LastNewline(s, cut + 1);
      if line.Some? {
        assert s[..cut + 1][line.value] == NEWLINE;
      } else {
        assert forall j :: 0 <= j <= cut ==> s[..cut + 1][j] == s[j];
      }
    }
  }

  lemma {:induction false} FirstLinePosition(s: Text, k: nat)
    requires MAX_LENGTH * k < |s| && (k > 0 ==> NEWLINE !in s[..MAX_LENGTH * k + 1])
    ensures Position(s, true, k) == MAX_LENGTH * k
  {
    hide Position;
    PositionNext(s, true, if k > 0 then k - 1 else 0);
    if k > 0 {
      var shorter, longer := s[..MAX_LENGTH * (k - 1) + 1], s[..MAX_LENGTH * k + 1];
      assert forall j :: 0 <= j < |shorter| ==> shorter[j] == longer[j];
      FirstLinePosition(s, k - 1);
      MarkdownCut(s, MAX_LENGTH * (k - 1));
    }
  }

  /** After a newline a character starts. */
  lemma {:induction false} AfterNewline(s: Text, p: nat)
    requires Valid(s) && 0 < p < |s| && s[p - 1] == NEWLINE
    ensures !IsContinuation(s[p])
  {
    hide CharLen;
    var n := CharLen(s);
    NewlineEndsCharacter(s, p);
    if p == n {
      ValidStart(s[n..]);
    } else {
      assert s[n..][p - n - 1] == NEWLINE && s[n..][p - n] == s[p];
      AfterNewline(s[n..], p - n);
    }
  }

  lemma NewlineEndsCharacter(s: Text, p: nat)
    requires 0 < p <= |s| && s[p - 1] == NEWLINE && CharLen(s) > 0
    ensures CharLen(s) <= p
  {
  }

  /** No cut of a first line that is too long falls inside a character. */
  ghost predicate FirstLineCutsWhole(s: Text) {
    forall k: nat :: k >= 1 && MAX_LENGTH * k < |s| && NEWLINE !in s[..MAX_LENGTH * k + 1] ==>
      !IsContinuation(s[MAX_LENGTH * k])
  }

  lemma WholeBoundary(s: Text, n: nat)
    requires Valid(s) && FirstLineCutsWhole(s)
    ensures IsBoundary(s, false, Position(s, true, n))
  {
    hide Position, Valid;
    MarkdownPositions(s, n);
    var p := Position(s, true, n);
    if 0 < p < |s| && s[p - 1] == NEWLINE {
      AfterNewline(s, p);
    }
  }

  /**
   * On valid UTF-8 all Markdown chunks are valid exactly when no character of a first line that is too long lies
   * across a multiple of MAX_LENGTH.
   */
  lemma {:induction false} MarkdownChunksValid(s: Text, chunks: seq<Text>)
    requires Valid(s) && IsChunking(s, true, chunks)
    ensures (forall i :: 0 <= i < |chunks| ==> Valid(chunks[i])) <==> FirstLineCutsWhole(s)
  {
    hide Position, NextIdx, Valid, IsChunking;
    if FirstLineCutsWhole(s) {
      forall i | 0 <= i < |chunks| ensures Valid(chunks[i]) {
        var a, b := Position(s, true, i), Position(s, true, i + 1);
        TurnOf(s, true, chunks, i, a, b);
        WholeBoundary(s, i);
        WholeBoundary(s, i + 1);
        ValidSlice(s, a, b);
      }
    }
    if forall i :: 0 <= i < |chunks| ==> Valid(chunks[i]) {
      forall k: nat | k >= 1 && MAX_LENGTH * k < |s| && NEWLINE !in s[..MAX_LENGTH * k + 1]
        ensures !IsContinuation(s[MAX_LENGTH * k])
      {
        FirstLinePosition(s, k);
        ChunkAt(s, chunks, k);
        TurnOf(s, true, chunks, k, Position(s, true, k), Position(s, true, k + 1));
        ValidStart(chunks[k]);
      }
    }
  }

  lemma ChunkAt(s: Text, chunks: seq<Text>, k: nat)
    requires IsChunking(s, true, chunks) && Position(s, true, k) < |s|
    ensures k < |chunks|
  {
    if k >= |chunks| {
      PositionsAscend(s, true, |chunks|, k);
    }
  }

  // The plain split is the shortest

  /** Some way to cut s into valid pieces short enough to send. */
  ghost predicate IsPlainSplit(s: Text, parts: seq<Text>) {
    Concat(parts) == s && forall i :: 0 <= i < |parts| ==> Valid(parts[i]) && |parts[i]| <= 4096
  }

  lemma {:induction false} PrefixOfConcat(parts: seq<Text>, k: nat)
    requires k <= |parts|
    ensures Concat(parts[..k]) <= Concat(parts)
    decreases |parts| - k
  {
    if k == |parts| {
      assert parts[..k] == parts;
    } else {
      assert parts[..k + 1][..k] == parts[..k];
      PrefixOfConcat(parts, k + 1);
    }
  }

  lemma WholePrefix(parts: seq<Text>)
    ensures parts[..|parts|] == parts
  {
  }

  /** A cut between valid pieces falls before the start of a character. */
  lemma {:induction false} CutIsStart(parts: seq<Text>, k: nat)
    requires k <= |parts| && forall i :: 0 <= i < |parts| ==> Valid(parts[i])
    requires |Concat(parts[..k])| < |Concat(parts)|
    ensures !IsContinuation(Concat(parts)[|Concat(parts[..k])|])
    decreases |parts| - k
  {
    PrefixOfConcat(parts, k);
    WholePrefix(parts);
    if k < |parts| {
      assert parts[..k + 1][..k] == parts[..k];
      assert Concat(parts[..k + 1]) == Concat(parts[..k]) + parts[k];
      if parts[k] == [] {
        CutIsStart(parts, k + 1);
      } else {
        PrefixOfConcat(parts, k + 1);
        assert Concat(parts)[|Concat(parts[..k])|] == Concat(parts[..k + 1])[|Concat(parts[..k])|] == parts[k][0];
      }
    }
  }

  /** After k turns the loop is at least as far as k pieces of any other split. */
  lemma {:induction false} GreedyStaysAhead(s: Text, parts: seq<Text>, k: nat)
    requires IsPlainSplit(s, parts) && k <= |parts|
    ensures |Concat(parts[..k])| <= Position(s, false, k)
  {
    PrefixOfConcat(parts, k);
    if k > 0 {
      GreedyStaysAhead(s, parts, k - 1);
      assert parts[..k][..k - 1] == parts[..k - 1];
      var d := |Concat(parts[..k])|;
      assert d <= Position(s, false, k - 1) + MAX_LENGTH;
      if d < |s| {
        CutIsStart(parts, k);
      }
    }
  }

  /** No split into valid pieces of at most MAX_LENGTH bytes has fewer pieces than the loop sends. */
  lemma FewestChunks(s: Text, chunks: seq<Text>, parts: seq<Text>)
    requires IsChunking(s, false, chunks) && IsPlainSplit(s, parts)
    ensures |chunks| <= |parts|
  {
    GreedyStaysAhead(s, parts, |parts|);
    WholePrefix(parts);
  }

  /** Some way to cut s between lines into pieces that Telegram might take, or one byte longer if that is a newline. */
  ghost predicate IsLinesSplit(s: Text, parts: seq<Text>) {
    && Concat(parts) == s
    && (forall i :: 0 <= i < |parts| ==> |parts[i]| <= 4096 || (|parts[i]| == 4097 && parts[i][4096] == NEWLINE))
    && (forall k :: 0 < k < |parts| ==> EndsLine(Concat(parts[..k])))
  }

  predicate EndsLine(s: Text) {
    s != [] && s[|s| - 1] == NEWLINE
  }

  lemma {:induction false} LinesStayAhead(s: Text, parts: seq<Text>, k: nat)
    requires IsLinesSplit(s, parts) && k <= |parts|
    ensures |Concat(parts[..k])| <= Position(s, true, k)
  {
    hide Position, NextIdx;
    PrefixOfConcat(parts, k);
    PositionNext(s, true, if k > 0 then k - 1 else 0);
    if k > 0 {
      LinesStayAhead(s, parts, k - 1);
      assert parts[..k][..k - 1] == parts[..k - 1];
      var d, q := |Concat(parts[..k])|, Position(s, true, k - 1);
      WholePrefix(parts);
      if q < |s| {
        assert d == |Concat(parts[..k - 1])| + |parts[k - 1]|;
        if |parts[k - 1]| == 4097 {
          assert Concat(parts[..k])[d - 1] == parts[k - 1][4096];
        }
        LinesStep(s, q, d);
      }
    }
  }

  lemma LinesStep(s: Text, q: nat, d: nat)
    requires q < |s| && IsBoundary(s, true, q) && d <= |s| && d <= q + 4097
    requires d == 0 || d == |s| || s[d - 1] == NEWLINE
    requires d == q + 4097 ==> s[d - 1] == NEWLINE
    ensures d <= NextIdx(s, true, q)
  {
    var cut := q + 4096;
    if cut < |s| && 0 < d && s[d - 1] == NEWLINE {
      assert s[..cut + 1][d - 1] == NEWLINE;
      var next := NextIdx(s, true, q);
      assert forall j :: next <= j <= cut ==> s[next..cut + 1][j - next] == s[j];
    }
  }

  /** In Markdown no split between lines has fewer pieces than the loop sends. */
  lemma FewestLineChunks(s: Text, chunks: seq<Text>, parts: seq<Text>)
    requires IsChunking(s, true, chunks) && IsLinesSplit(s, parts)
    ensures |chunks| <= |parts|
  {
    LinesStayAhead(s, parts, |parts|);
    WholePrefix(parts);
  }

  // Texts that show the limits

  /** In Markdown, a line of more than MAX_LENGTH bytes anywhere after a newline. */
  lemma LongLineNeverEnds(before: Text, line: Text, after: Text)
    requires |line| > MAX_LENGTH && NEWLINE !in line
    ensures !Terminates(before + [NEWLINE] + line + after, true)
  {
    var s := before + [NEWLINE] + line + after;
    var q := |before|;
    assert forall j :: q < j <= q + |line| ==> s[j] == line[j - q - 1];
    assert IsLongLine(s, q);
    assert IsTrap(s, true, q + 1);
    TerminatesExactly(s, true);
  }

  /** 4097 letters in the second line are enough. */
  lemma ShortestLongLine()
    ensures !Terminates([NEWLINE] + Repeated(LETTER, 4097), true)
  {
    var line := Repeated(LETTER, MAX_LENGTH + 1);
    LongLineNeverEnds([], line, []);
    assert [] + [NEWLINE] + line + [] == [NEWLINE] + line;
  }

  /** In plain text, MAX_LENGTH continuation bytes in a row anywhere but at the start. */
  lemma ContinuationsNeverEnd(before: Text, run: Text, after: Text)
    requires before != [] && |run| >= MAX_LENGTH && forall i :: 0 <= i < |run| ==> IsContinuation(run[i])
    ensures !Terminates(before + run + after, false)
  {
    var s, p := before + run + after, |before| - 1;
    assert forall j :: p < j <= p + |run| ==> s[j] == run[j - p - 1];
    assert IsTrap(s, false, p);
    TerminatesExactly(s, false);
  }

  /** At the start the loop steps over as many. */
  lemma ContinuationsAtTheStart()
    ensures Terminates(Repeated(0x80, MAX_LENGTH) + [LETTER], false)
  {
    var s := Repeated(0x80, MAX_LENGTH) + [LETTER];
    forall p: nat ensures !IsTrap(s, false, p) {
      assert s[MAX_LENGTH] == LETTER;
    }
    TerminatesExactly(s, false);
  }

  /** A Markdown chunk one byte over the limit: the newline at the cut goes with the line before it. */
  lemma OverlongChunk()
    ensures var s := Repeated(LETTER, 4096) + [NEWLINE]; |s| == 4097 && IsChunking(s, true, [s])
  {
    var s := Repeated(LETTER, MAX_LENGTH) + [NEWLINE];
    PositionNext(s, true, 0);
    MarkdownStep(s, 0);
    ChunkIs(s, true, 0, |s|);
    assert s[0..|s|] == s;
  }
}

/**
 * The scanner split callback that cuts the input stream into chunks of
 * LINES_PER_CHUNK lines. Given the unread bytes `data` and whether the
 * input is exhausted, it returns how many bytes to consume and the token:
 * everything before the K-th newline (that newline is consumed but dropped),
 * or, at the end of input, all remaining bytes verbatim.
 *
 * The scanner itself is modelled by calling the callback on the whole
 * unread remainder with atEOF = true; PrefixStable justifies this: a token
 * the callback cuts from a shorter buffer is the one it cuts from any longer
 * one, and a shorter buffer without a token consumes nothing.
 */
module Chunker {
  import opened Bytes
  import opened Options
  import Machine

  /** `linesPerChunk` */
  const LINES_PER_CHUNK: nat := 1000

  /** The callback's `(advance, token)`; `None` is the nil token. */
  datatype SplitResult = SplitResult(advance: nat, token: Option<seq<byte>>)

  lemma CountCons(x: byte, s: seq<byte>, c: byte)
    ensures Count([x] + s, c) == (if x == c then 1 else 0) + Count(s, c)
  {
    CountAppend([x], s, c);
    assert [x][..0] == [];
  }

  lemma CountSnoc(s: seq<byte>, i: int, c: byte)
    requires 0 <= i < |s|
    ensures Count(s[..i + 1], c) == Count(s[..i], c) + (if s[i] == c then 1 else 0)
  {
    assert s[..i + 1][..i] == s[..i];
  }

  /** Counting newlines from the front: the first byte, then the rest. */
  lemma CountFront(data: seq<byte>, j: nat)
    requires j < |data|
    ensures Count(data, NL) == (if data[0] == NL then 1 else 0) + Count(data[1..], NL)
    ensures Count(data[..j + 1], NL) == (if data[0] == NL then 1 else 0) + Count(data[1..][..j], NL)
  {
    assert data == [data[0]] + data[1..];
    CountCons(data[0], data[1..], NL);
    assert data[..j + 1] == [data[0]] + data[1..][..j];
    CountCons(data[0], data[1..][..j], NL);
  }

  /** The index of the k-th newline of data, if it has k. */
  function NthNewline(data: seq<byte>, k: nat): (r: Option<nat>)
    requires k >= 1
    ensures r.Some? ==> r.value < |data| && data[r.value] == NL && Count(data[..r.value], NL) == k - 1
    ensures r.None? <==> Count(data, NL) < k
    decreases |data|
  {
    if data == [] then None
    else
      CountFront(data, 0);
      if data[0] == NL && k == 1 then Some(0)
      else
        match NthNewline(data[1..], if data[0] == NL then k - 1 else k)
        case None => None
        case Some(j) =>
          CountFront(data, j);
          Some(j + 1)
  }

  /** A newline with k - 1 newlines before it is the k-th. */
  lemma {:induction false} NthNewlineAt(data: seq<byte>, k: nat, i: nat)
    requires k >= 1 && i < |data| && data[i] == NL && Count(data[..i], NL) == k - 1
    ensures NthNewline(data, k) == Some(i)
    decreases |data|
  {
    if i > 0 {
      CountFront(data, i - 1);
      var k' := if data[0] == NL then k - 1 else k;
      assert k' >= 1;
      NthNewlineAt(data[1..], k', i - 1);
    }
  }

  /** The callback as a function of its inputs (go/main.go, the `scanner.Split` closure). */
  function Cut(data: seq<byte>, atEOF: bool, k: nat): (r: SplitResult)
    requires k >= 1
    ensures r.token.Some? ==> 1 <= r.advance <= |data|
    ensures r.token.None? ==> r.advance == 0
    ensures atEOF && data != [] ==> r.token.Some?
  {
    if atEOF && data == [] then SplitResult(0, None)
    else
      match NthNewline(data, k)
      case Some(i) => SplitResult(i + 1, Some(data[..i]))
      case None => if atEOF then SplitResult(|data|, Some(data)) else SplitResult(0, None)
  }

  /** The callback as written: one pass over data counting newlines. */
  method SplitCallback(data: seq<byte>, atEOF: bool, k: nat) returns (advance: nat, token: Option<seq<byte>>)
    requires k >= 1
    ensures SplitResult(advance, token) == Cut(data, atEOF, k)
  {
    if atEOF && |data| == 0 {
      return 0, None;
    }
    var newlineCount := 0;
    var lastNewlineIndex := -1;
    for i := 0 to |data|
      invariant newlineCount == Count(data[..i], NL) < k
      invariant -1 <= lastNewlineIndex < i
    {
      CountSnoc(data, i, NL);
      if data[i] == NL {
        newlineCount := newlineCount + 1;
        lastNewlineIndex := i;
      }
      if newlineCount >= k {
        NthNewlineAt(data, k, i);
        return lastNewlineIndex + 1, Some(data[..lastNewlineIndex]);
      }
    }
    assert data[..|data|] == data;
    if atEOF {
      return |data|, Some(data);
    }
    return 0, None;
  }

  /**
   * A full chunk: the K-th newline is consumed and dropped, the token holds
   * K - 1 newlines, which is K lines once split on newlines.
   */
  lemma FullChunk(data: seq<byte>, atEOF: bool, k: nat)
    requires k >= 1 && Count(data, NL) >= k
    ensures var r := Cut(data, atEOF, k);
            && r.token.Some?
            && data[..r.advance] == r.token.value + [NL]
            && Count(r.token.value, NL) == k - 1
            && |Split(r.token.value, NL)| == k
  {
    var i := NthNewline(data, k).value;
    assert data[..i + 1] == data[..i] + [NL];
  }

  /** End of input: nothing left gives no token; a remainder is returned verbatim. */
  lemma AtEndOfInput(data: seq<byte>, k: nat)
    requires k >= 1
    ensures data == [] ==> Cut(data, true, k) == SplitResult(0, None)
    ensures data != [] && Count(data, NL) < k ==> Cut(data, true, k) == SplitResult(|data|, Some(data))
  {
  }

  /** Before the end of input, fewer than K newlines: consume nothing, no token (ask for more). */
  lemma ShortData(data: seq<byte>, k: nat)
    requires k >= 1 && Count(data, NL) < k
    ensures Cut(data, false, k) == SplitResult(0, None)
  {
  }

  /**
   * Reading more data never changes a token already cut: what the callback
   * returns on a prefix of the stream with a token is what it returns on
   * any extension of it, at the end of input or not.
   */
  lemma PrefixStable(data: seq<byte>, more: seq<byte>, atEOF: bool, k: nat)
    requires k >= 1 && Cut(data, false, k).token.Some?
    ensures Cut(data + more, atEOF, k) == Cut(data, false, k)
  {
    var i := NthNewline(data, k).value;
    var whole := data + more;
    assert whole[..i] == data[..i];
    NthNewlineAt(whole, k, i);
  }

  /** The chunks the scanner hands out for a whole stream. */
  function ChunksOf(stream: seq<byte>, k: nat): (cs: seq<seq<byte>>)
    requires k >= 1
    ensures cs == [] <==> stream == []
    ensures |cs| <= |stream|
    decreases |stream|
  {
    if stream == [] then []
    else
      var r := Cut(stream, true, k);
      [r.token.value] + ChunksOf(stream[r.advance..], k)
  }

  /** Proof helper: regrouping a concatenation; it models nothing by itself. */
  lemma PushChunk(done: seq<seq<byte>>, c: seq<byte>, rest: seq<seq<byte>>)
    ensures done + ([c] + rest) == (done + [c]) + rest
  {
  }

  /** `for scanner.Scan() { ... scanner.Bytes() ... }`: the chunks in order. */
  method ChunkStream(stream: seq<byte>, k: nat) returns (chunks: seq<seq<byte>>)
    requires k >= 1
    ensures chunks == ChunksOf(stream, k)
  {
    chunks := [];
    var rest := stream;
    var advance, token := SplitCallback(rest, true, k);
    while token.Some?
      invariant SplitResult(advance, token) == Cut(rest, true, k)
      invariant chunks + ChunksOf(rest, k) == ChunksOf(stream, k)
      decreases |rest|
    {
      PushChunk(chunks, token.value, ChunksOf(rest[advance..], k));
      chunks := chunks + [token.value];
      rest := rest[advance..];
      advance, token := SplitCallback(rest, true, k);
    }
    assert chunks + [] == chunks;
  }

  /******** Byte accounting ********/

  /** The chunks glued back together with the newlines between them. */
  function JoinLines(cs: seq<seq<byte>>): seq<byte>
    decreases |cs|
  {
    if cs == [] then []
    else if |cs| == 1 then cs[0]
    else cs[0] + [NL] + JoinLines(cs[1..])
  }

  /** All lines of all chunks, in order. */
  function AllLines(cs: seq<seq<byte>>): seq<seq<byte>>
    decreases |cs|
  {
    if cs == [] then [] else Split(cs[0], NL) + AllLines(cs[1..])
  }

  /**
   * The stream ends exactly at a chunk boundary: its last byte is the K-th,
   * 2K-th, ... newline, which the last full chunk consumes and drops.
   */
  predicate EndsOnBoundary(stream: seq<byte>, k: nat)
    requires k >= 1
  {
    stream != [] && stream[|stream| - 1] == NL && Count(stream, NL) % k == 0
  }


  /** The stream around a full chunk: the token, the dropped newline, the rest. */
  lemma FullChunkSplits(stream: seq<byte>, k: nat)
    requires k >= 1 && NthNewline(stream, k).Some?
    ensures var i := NthNewline(stream, k).value;
            var c, rest := stream[..i], stream[i + 1..];
            && Cut(stream, true, k) == SplitResult(i + 1, Some(c))
            && stream == c + [NL] + rest
            && Count(stream, NL) == k + Count(rest, NL)
  {
    var i := NthNewline(stream, k).value;
    var c, rest := stream[..i], stream[i + 1..];
    assert stream == c + [NL] + rest;
    CountAppend(c + [NL], rest, NL);
    CountAppend(c, [NL], NL);
    assert Count([NL], NL) == 1 by { assert [NL][..0] == []; }
  }

  /** Dropping a full chunk and its newline does not move the end onto or off a boundary. */
  lemma BoundaryAfterChunk(stream: seq<byte>, rest: seq<byte>, k: nat)
    requires k >= 1 && rest != [] && |rest| <= |stream|
    requires stream[|stream| - |rest|..] == rest
    requires Count(stream, NL) == k + Count(rest, NL)
    ensures EndsOnBoundary(stream, k) == EndsOnBoundary(rest, k)
  {
    assert stream[|stream| - 1] == rest[|rest| - 1];
    Machine.ModShift(Count(rest, NL), 1, k);
  }

  lemma JoinCons(c: seq<byte>, cs: seq<seq<byte>>)
    requires cs != []
    ensures JoinLines([c] + cs) == c + [NL] + JoinLines(cs)
  {
    assert ([c] + cs)[1..] == cs;
  }

  /** Proof helper: regrouping a concatenation; it models nothing by itself. */
  lemma JoinAssoc(c: seq<byte>, j: seq<byte>, b: seq<byte>)
    ensures c + [NL] + (j + b) == (c + [NL] + j) + b
  {
  }

  /**
   * Every byte of the stream is in some chunk or is a dropped boundary
   * newline: the chunks joined by newlines give the stream back, save for
   * the final newline when the stream ends on a boundary.
   */
  lemma {:induction false} ChunksReassemble(stream: seq<byte>, k: nat)
    requires k >= 1
    ensures stream == JoinLines(ChunksOf(stream, k)) + (if EndsOnBoundary(stream, k) then [NL] else [])
    decreases |stream|
  {
    if stream == [] {
    } else if NthNewline(stream, k).None? {
      ReassembleRemainder(stream, k);
    } else {
      FullChunkSplits(stream, k);
      var rest := stream[NthNewline(stream, k).value + 1..];
      if rest == [] {
        ReassembleLastFull(stream, k);
      } else {
        ChunksReassemble(rest, k);
        ReassembleFull(stream, k);
      }
    }
  }

  /** No K-th newline: the whole stream is the one chunk, and it does not end on a boundary. */
  lemma ReassembleRemainder(stream: seq<byte>, k: nat)
    requires k >= 1 && stream != [] && NthNewline(stream, k).None?
    ensures ChunksOf(stream, k) == [stream] && !EndsOnBoundary(stream, k)
  {
    assert stream[|stream|..] == [];
    var n := Count(stream, NL);
    if stream[|stream| - 1] == NL {
      assert NL in stream;
      Machine.DivModUnique(n, k, 0, n);
    }
  }

  /** The K-th newline is the last byte: one chunk, and the stream ends on a boundary. */
  lemma ReassembleLastFull(stream: seq<byte>, k: nat)
    requires k >= 1 && NthNewline(stream, k).Some?
    requires NthNewline(stream, k).value == |stream| - 1
    ensures ChunksOf(stream, k) == [stream[..|stream| - 1]] && EndsOnBoundary(stream, k)
    ensures stream == stream[..|stream| - 1] + [NL]
  {
    FullChunkSplits(stream, k);
    var c, rest := stream[..|stream| - 1], stream[|stream|..];
    assert rest == [];
    assert Cut(stream, true, k) == SplitResult(|stream|, Some(c));
    assert ChunksOf(stream, k) == [c] + ChunksOf(rest, k);
    assert Count(stream, NL) == k;
    Machine.DivModUnique(k, k, 1, 0);
  }

  /** A full chunk with more to come: reassembling the rest reassembles the stream. */
  lemma ReassembleFull(stream: seq<byte>, k: nat)
    requires k >= 1 && NthNewline(stream, k).Some?
    requires NthNewline(stream, k).value < |stream| - 1
    requires var rest := stream[NthNewline(stream, k).value + 1..];
             rest == JoinLines(ChunksOf(rest, k)) + (if EndsOnBoundary(rest, k) then [NL] else [])
    ensures stream == JoinLines(ChunksOf(stream, k)) + (if EndsOnBoundary(stream, k) then [NL] else [])
  {
    FullChunkSplits(stream, k);
    var i := NthNewline(stream, k).value;
    var c, rest := stream[..i], stream[i + 1..];
    var cs' := ChunksOf(rest, k);
    assert ChunksOf(stream, k) == [c] + cs';
    JoinCons(c, cs');
    assert stream[|stream| - |rest|..] == rest;
    BoundaryAfterChunk(stream, rest, k);
    JoinAssoc(c, JoinLines(cs'), if EndsOnBoundary(rest, k) then [NL] else []);
  }

  /** Splitting the joined chunks into lines gives the chunks' lines. */
  lemma {:induction false} LinesOfJoin(cs: seq<seq<byte>>)
    requires cs != []
    ensures Split(JoinLines(cs), NL) == AllLines(cs)
    decreases |cs|
  {
    if |cs| == 1 {
      assert AllLines(cs) == Split(cs[0], NL) + AllLines([]);
      assert Split(cs[0], NL) + [] == Split(cs[0], NL);
    } else {
      LinesOfJoin(cs[1..]);
      SplitConcat(cs[0], JoinLines(cs[1..]), NL);
    }
  }

  /**
   * The lines the workers see are the lines of the stream; when the stream
   * ends on a chunk boundary the empty line after its final newline is not
   * among them.
   */
  lemma LinesAccounted(stream: seq<byte>, k: nat)
    requires k >= 1 && stream != []
    ensures Split(stream, NL) ==
              AllLines(ChunksOf(stream, k)) + (if EndsOnBoundary(stream, k) then [[]] else [])
  {
    var cs := ChunksOf(stream, k);
    ChunksReassemble(stream, k);
    LinesOfJoin(cs);
    if EndsOnBoundary(stream, k) {
      var joined := JoinLines(cs);
      assert stream == joined + [NL] + [];
      SplitConcat(joined, [], NL);
      assert Split([], NL) == [[]];
    } else {
      assert stream == JoinLines(cs);
    }
  }

  /** Splitting text that ends in a newline leaves an empty last line. */
  lemma TrailingNewlineSplit(s: seq<byte>)
    requires s != [] && s[|s| - 1] == NL
    ensures var lines := Split(s, NL); lines[|lines| - 1] == []
  {
    var init := s[..|s| - 1];
    assert s == init + [NL] + [];
    SplitConcat(init, [], NL);
    assert Split([], NL) == [[]];
  }

  /**
   * A stream that ends in a newline but not on a chunk boundary hands the
   * workers an empty last line: the EOF chunk keeps the trailing newline.
   */
  lemma TrailingNewlineEmptyLine(stream: seq<byte>, k: nat)
    requires k >= 1 && stream != [] && stream[|stream| - 1] == NL && Count(stream, NL) % k != 0
    ensures var lines := AllLines(ChunksOf(stream, k)); lines != [] && lines[|lines| - 1] == []
  {
    LinesAccounted(stream, k);
    TrailingNewlineSplit(stream);
  }

  /** Chunk sizes: fewer than K newlines each, exactly K - 1 in all but the last. */
  predicate SizedChunks(cs: seq<seq<byte>>, k: nat)
  {
    && (forall j :: 0 <= j < |cs| ==> Count(cs[j], NL) < k)
    && (forall j :: 0 <= j < |cs| - 1 ==> Count(cs[j], NL) == k - 1)
  }

  lemma SizedCons(c: seq<byte>, cs: seq<seq<byte>>, k: nat)
    requires SizedChunks(cs, k) && Count(c, NL) < k
    requires cs != [] ==> Count(c, NL) == k - 1
    ensures SizedChunks([c] + cs, k)
  {
    var all := [c] + cs;
    assert forall j :: 1 <= j < |all| ==> all[j] == cs[j - 1];
  }

  /** Every chunk holds fewer than K newlines, and every chunk but the last exactly K - 1. */
  lemma {:induction false} ChunkSizes(stream: seq<byte>, k: nat)
    requires k >= 1
    ensures SizedChunks(ChunksOf(stream, k), k)
    decreases |stream|
  {
    if stream != [] {
      var r := Cut(stream, true, k);
      var rest := stream[r.advance..];
      ChunkSizes(rest, k);
      if NthNewline(stream, k).None? {
        assert rest == [];
      }
      SizedCons(r.token.value, ChunksOf(rest, k), k);
    }
  }
}

/**
 * Byte strings and the few `bytes` package routines the pipeline relies on:
 * `bytes.IndexByte`, `bytes.SplitSeq` with a one-byte separator, counting a
 * byte, and Go's `string <`, which compares bytewise.
 */
module Bytes {

  type byte = x: int | 0 <= x < 256

  const NL: byte := 10      // '\n'
  const MINUS: byte := 45   // '-'
  const DOT: byte := 46     // '.'
  const ZERO: byte := 48    // '0'
  const SEMI: byte := 59    // ';'

  /** `bytes.IndexByte`: the index of the first c in s, or -1. */
  function IndexByte(s: seq<byte>, c: byte): (r: int)
    ensures -1 <= r < |s|
    ensures r == -1 <==> c !in s
    ensures r >= 0 ==> s[r] == c && c !in s[..r]
  {
    if s == [] then -1
    else if s[0] == c then 0
    else
      var i := IndexByte(s[1..], c);
      if i == -1 then -1
      else
        assert s[..i + 1] == [s[0]] + s[1..][..i];
        i + 1
  }

  /** The number of occurrences of c in s. */
  function Count(s: seq<byte>, c: byte): (n: nat)
    ensures n <= |s|
  {
    if s == [] then 0
    else Count(s[..|s| - 1], c) + (if s[|s| - 1] == c then 1 else 0)
  }

  /** No occurrence is a count of zero. */
  lemma {:induction false} CountZero(s: seq<byte>, c: byte)
    ensures Count(s, c) == 0 <==> c !in s
    decreases |s|
  {
    if s != [] {
      var init := s[..|s| - 1];
      CountZero(init, c);
      assert s == init + [s[|s| - 1]];
    }
  }

  lemma {:induction false} CountAppend(a: seq<byte>, b: seq<byte>, c: byte)
    ensures Count(a + b, c) == Count(a, c) + Count(b, c)
    decreases |b|
  {
    if b == [] {
      assert a + b == a;
    } else {
      var b' := b[..|b| - 1];
      assert (a + b)[..|a + b| - 1] == a + b';
      CountAppend(a, b', c);
    }
  }

  /**
   * `bytes.SplitSeq(s, [sep])`: the pieces of s between occurrences of sep.
   * There is always one more piece than separators; an empty s gives one
   * empty piece.
   */
  function Split(s: seq<byte>, sep: byte): (pieces: seq<seq<byte>>)
    ensures |pieces| == Count(s, sep) + 1
    ensures forall i :: 0 <= i < |pieces| ==> sep !in pieces[i]
    decreases |s|
  {
    var i := IndexByte(s, sep);
    if i == -1 then CountZero(s, sep); [s]
    else
      CountAtFirst(s, sep, i);
      var rest := Split(s[i + 1..], sep);
      NoneInCons(s[..i], rest, sep);
      [s[..i]] + rest
  }

  /** A first piece without sep, before pieces without sep. */
  lemma NoneInCons(head: seq<byte>, rest: seq<seq<byte>>, sep: byte)
    requires sep !in head && forall i :: 0 <= i < |rest| ==> sep !in rest[i]
    ensures forall i :: 0 <= i < |rest| + 1 ==> sep !in ([head] + rest)[i]
  {
    forall i | 0 <= i < |rest| + 1
      ensures sep !in ([head] + rest)[i]
    {
      if i > 0 {
        assert ([head] + rest)[i] == rest[i - 1];
      }
    }
  }

  /** Counting from the first occurrence of c at index i. */
  lemma CountAtFirst(s: seq<byte>, c: byte, i: int)
    requires 0 <= i < |s| && s[i] == c && c !in s[..i]
    ensures Count(s, c) == 1 + Count(s[i + 1..], c)
  {
    CountAppend(s[..i], s[i..], c);
    CountAppend([s[i]], s[i + 1..], c);
    assert s == s[..i] + s[i..] && s[i..] == [s[i]] + s[i + 1..];
    assert [s[i]][..0] == [];
    CountZero(s[..i], c);
  }

  /** The first c in a + [c] + b is the one after a, when a holds none. */
  lemma IndexByteAt(a: seq<byte>, b: seq<byte>, c: byte)
    requires c !in a
    ensures IndexByte(a + [c] + b, c) == |a|
  {
    var s := a + [c] + b;
    var i := IndexByte(s, c);
    assert s[|a|] == c;
    assert forall j :: 0 <= j < |a| ==> s[j] == a[j];
  }

  /** Splitting at a separator splits the pieces there too. */
  lemma {:induction false} SplitAt(a: seq<byte>, b: seq<byte>, sep: byte)
    requires sep !in a
    ensures Split(a + [sep] + b, sep) == [a] + Split(b, sep)
  {
    var s := a + [sep] + b;
    assert s[..|a|] == a && s[|a| + 1..] == b;
    IndexByteAt(a, b, sep);
  }

  /** Splitting a concatenation whose first part ends in a separator. */
  lemma {:induction false} SplitConcat(a: seq<byte>, b: seq<byte>, sep: byte)
    ensures Split(a + [sep] + b, sep) == Split(a, sep) + Split(b, sep)
    decreases |a|
  {
    if sep !in a {
      SplitAt(a, b, sep);
      assert Split(a, sep) == [a];
    } else {
      var i := IndexByte(a, sep);
      var head, rest := a[..i], a[i + 1..];
      var tail := rest + [sep] + b;
      assert a == head + [sep] + rest;
      var whole, left, right, middle := Split(a + [sep] + b, sep), Split(a, sep), Split(b, sep), Split(rest, sep);
      assert whole == [head] + (middle + right) by {
        Reassociate(head, sep, rest, b);
        SplitAt(head, tail, sep);
        SplitConcat(rest, b, sep);
      }
      assert left == [head] + middle by {
        SplitAt(head, rest, sep);
      }
      ConsAssoc(head, middle, right);
    }
  }

  /** Proof helper: regrouping a concatenation; it models nothing by itself. */
  lemma Reassociate<T>(h: seq<T>, x: T, r: seq<T>, b: seq<T>)
    ensures (h + [x] + r) + [x] + b == h + [x] + (r + [x] + b)
  {
  }

  /** Reorderings have the same length. */
  lemma PermLength<T>(a: seq<T>, b: seq<T>)
    requires multiset(a) == multiset(b)
    ensures |a| == |b|
  {
    assert |a| == |multiset(a)| == |multiset(b)| == |b|;
  }

  /** Proof helper: regrouping a concatenation; it models nothing by itself. */
  lemma SnocAssoc<T>(x: seq<T>, y: seq<T>, e: T)
    ensures (x + y) + [e] == x + (y + [e])
  {
  }

  /** Proof helper: regrouping a concatenation; it models nothing by itself. */
  lemma ConsAssoc<T>(h: T, m: seq<T>, r: seq<T>)
    ensures [h] + (m + r) == ([h] + m) + r
  {
  }

  /** Go's `a < b` on strings: bytewise lexicographic order. */
  predicate Less(a: seq<byte>, b: seq<byte>)
    decreases |a|
  {
    if a == [] then b != []
    else if b == [] then false
    else if a[0] != b[0] then a[0] < b[0]
    else Less(a[1..], b[1..])
  }

  lemma {:induction false} LessIrreflexive(a: seq<byte>)
    ensures !Less(a, a)
    decreases |a|
  {
    if a != [] { LessIrreflexive(a[1..]); }
  }

  lemma {:induction false} LessTransitive(a: seq<byte>, b: seq<byte>, c: seq<byte>)
    requires Less(a, b) && Less(b, c)
    ensures Less(a, c)
    decreases |a|
  {
    if a != [] && b != [] && c != [] && a[0] == b[0] && b[0] == c[0] {
      LessTransitive(a[1..], b[1..], c[1..]);
    }
  }

  /** Distinct strings are always ordered one way or the other. */
  lemma {:induction false} LessTotal(a: seq<byte>, b: seq<byte>)
    requires a != b
    ensures Less(a, b) || Less(b, a)
    decreases |a|
  {
    if a != [] && b != [] && a[0] == b[0] {
      assert a == [a[0]] + a[1..] && b == [b[0]] + b[1..];
      LessTotal(a[1..], b[1..]);
    }
  }

  lemma LessAsymmetric(a: seq<byte>, b: seq<byte>)
    requires Less(a, b)
    ensures !Less(b, a)
  {
    if Less(b, a) {
      LessTransitive(a, b, a);
      LessIrreflexive(a);
    }
  }
}

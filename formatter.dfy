/**
 * The end of V11: the merged entries are copied out of the map in its
 * iteration order, sorted by City (`sort.Slice` with `<` on strings, which
 * compares bytes), and printed as `{City=min/mean/max, ...}`. Min and Max
 * are tenths printed with one decimal; the text of the mean, a float64
 * computation, is a parameter.
 */
module Formatter {
  import opened Bytes
  import opened Machine
  import opened Fnv
  import opened RecordParser
  import opened PartialTable
  import opened Reducer

  const OPEN: byte := 123
  const CLOSE: byte := 125
  const EQUALS: byte := 61
  const SLASH: byte := 47
  const COMMA: byte := 44
  const SPACE: byte := 32

  /******** Copying the entries out of the map ********/

  /** No element occurs twice. */
  predicate Distinct<T(==)>(s: seq<T>)
  {
    forall i, j :: 0 <= i < j < |s| ==> s[i] != s[j]
  }

  /**
   * `for _, value := range values { sortedValues[idx] = value; idx++ }`:
   * the entries in some order, `order` being the keys as visited.
   */
  method Collect(values: Table) returns (a: array<Aggregate>, ghost order: seq<int>)
    ensures fresh(a) && a.Length == |values| == |order|
    ensures Distinct(order)
    ensures forall i :: 0 <= i < |order| ==> order[i] in values && a[i] == values[order[i]]
    ensures forall fp :: fp in values ==> fp in order
  {
    a := new Aggregate[|values|];
    var pending := values.Keys;
    var idx := 0;
    order := [];
    while pending != {}
      invariant idx == |order| && idx + |pending| == |values|
      invariant forall fp :: fp in pending <==> fp in values && fp !in order
      invariant Distinct(order)
      invariant forall i :: 0 <= i < idx ==> order[i] in values && a[i] == values[order[i]]
      decreases |pending|
    {
      // A witness, so that the choice below is known to exist.
      ghost var chosen := Pick(pending);
      var key :| key in pending;
      a[idx] := values[key];
      order := order + [key];
      idx := idx + 1;
      pending := pending - {key};
    }
  }

  /******** Sorting by City ********/

  /** Entry x may come before entry y: y's City is not smaller. */
  predicate Before(x: Aggregate, y: Aggregate)
  {
    !Less(y.city, x.city)
  }

  /** What `sort.Slice` promises for `City <`: no later City is smaller than an earlier one. */
  predicate Ordered(s: seq<Aggregate>)
  {
    forall i, j :: 0 <= i < j < |s| ==> Before(s[i], s[j])
  }

  /** Cities strictly increase. */
  predicate StrictlySorted(s: seq<Aggregate>)
  {
    forall i, j :: 0 <= i < j < |s| ==> Less(s[i].city, s[j].city)
  }

  lemma BeforeTransitive(x: Aggregate, y: Aggregate, z: Aggregate)
    requires Before(x, y) && Before(y, z)
    ensures Before(x, z)
  {
    if Less(z.city, x.city) {
      if x.city == y.city {
      } else {
        LessTotal(x.city, y.city);
        LessTransitive(z.city, x.city, y.city);
      }
    }
  }

  /**
   * Inserting s[j] into its place: s[..i+1] is in order except that s[j]
   * may still be smaller than s[j-1]; everything after j belongs after
   * everything before it.
   */
  ghost predicate Inserting(s: seq<Aggregate>, i: nat, j: nat)
    requires j <= i < |s|
  {
    && (forall k, l {:trigger Before(s[k], s[l])} :: 0 <= k < l <= i && k != j && l != j ==> Before(s[k], s[l]))
    && (forall k, l {:trigger Before(s[k], s[l])} :: 0 <= k < j < l <= i ==> Before(s[k], s[l]))
    && (forall l {:trigger Before(s[j], s[l])} :: j < l <= i ==> Before(s[j], s[l]))
  }

  lemma InsertStart(s: seq<Aggregate>, i: nat)
    requires i < |s| && Ordered(s[..i])
    ensures Inserting(s, i, i)
  {
    forall k, l | 0 <= k < l <= i && k != i && l != i
      ensures Before(s[k], s[l])
    {
      assert s[k] == s[..i][k] && s[l] == s[..i][l];
    }
  }

  lemma InsertSwap(s: seq<Aggregate>, i: nat, j: nat)
    requires 0 < j <= i < |s| && Inserting(s, i, j) && Less(s[j].city, s[j - 1].city)
    ensures Inserting(s[j - 1 := s[j]][j := s[j - 1]], i, j - 1)
  {
    LessAsymmetric(s[j].city, s[j - 1].city);
  }

  lemma InsertDone(s: seq<Aggregate>, i: nat, j: nat)
    requires j <= i < |s| && Inserting(s, i, j)
    requires j == 0 || !Less(s[j].city, s[j - 1].city)
    ensures Ordered(s[..i + 1])
  {
    forall k | 0 <= k < j
      ensures Before(s[k], s[j])
    {
      if k < j - 1 {
        BeforeTransitive(s[k], s[j - 1], s[j]);
      }
    }
    var p := s[..i + 1];
    forall k, l | 0 <= k < l < |p|
      ensures Before(p[k], p[l])
    {
      assert p[k] == s[k] && p[l] == s[l];
    }
  }

  /**
   * `sort.Slice(sortedValues, ...)`, as insertion by adjacent swaps: the
   * array is rearranged into City order.
   */
  method SortByCity(a: array<Aggregate>)
    modifies a
    ensures Ordered(a[..])
    ensures multiset(a[..]) == multiset(old(a[..]))
  {
    var i := 0;
    while i < a.Length
      invariant 0 <= i <= a.Length
      invariant Ordered(a[..i])
      invariant multiset(a[..]) == multiset(old(a[..]))
    {
      InsertOne(a, i);
      i := i + 1;
    }
    assert a[..a.Length] == a[..];
  }

  /** Move a[i] down past the larger Cities before it. */
  method InsertOne(a: array<Aggregate>, i: nat)
    requires i < a.Length && Ordered(a[..i])
    modifies a
    ensures Ordered(a[..i + 1])
    ensures multiset(a[..]) == multiset(old(a[..]))
    ensures a[i + 1..] == old(a[i + 1..])
  {
    InsertStart(a[..], i);
    var j := i;
    while j > 0 && Less(a[j].city, a[j - 1].city)
      invariant 0 <= j <= i
      invariant Inserting(a[..], i, j)
      invariant multiset(a[..]) == multiset(old(a[..]))
      invariant a[i + 1..] == old(a[i + 1..])
    {
      ghost var s := a[..];
      InsertSwap(s, i, j);
      SwapKeeps(s, j - 1, j);
      a[j - 1], a[j] := a[j], a[j - 1];
      assert a[..] == s[j - 1 := s[j]][j := s[j - 1]];
      j := j - 1;
    }
    InsertDone(a[..], i, j);
  }

  /** Swapping two elements keeps the multiset. */
  lemma SwapKeeps<T>(s: seq<T>, i: nat, j: nat)
    requires i < j < |s|
    ensures multiset(s[i := s[j]][j := s[i]]) == multiset(s)
  {
    var t := s[i := s[j]][j := s[i]];
    assert s == s[..i] + [s[i]] + s[i + 1..j] + [s[j]] + s[j + 1..];
    assert t == s[..i] + [s[j]] + s[i + 1..j] + [s[i]] + s[j + 1..];
  }

  /******** Sorted entries of a well-keyed table ********/

  /** A repeated element occurs at least twice. */
  lemma RepeatCounts<T>(s: seq<T>, i: nat, j: nat)
    requires i < j < |s| && s[i] == s[j]
    ensures multiset(s)[s[i]] >= 2
  {
    assert s == s[..j] + [s[j]] + s[j + 1..];
    assert s[i] in multiset(s[..j]);
  }

  /** An element of a sequence without repeats occurs once. */
  lemma {:induction false} DistinctCounts<T>(s: seq<T>, x: T)
    requires Distinct(s)
    ensures multiset(s)[x] <= 1
    decreases |s|
  {
    if s != [] {
      var init := s[..|s| - 1];
      assert s == init + [s[|s| - 1]];
      assert Distinct(init);
      DistinctCounts(init, x);
      if x == s[|s| - 1] {
        assert x !in init;
      }
    }
  }

  /** A rearrangement of a sequence without repeats has none. */
  lemma DistinctPerm<T>(s: seq<T>, t: seq<T>)
    requires multiset(s) == multiset(t) && Distinct(t)
    ensures Distinct(s)
  {
    forall i, j | 0 <= i < j < |s|
      ensures s[i] != s[j]
    {
      if s[i] == s[j] {
        RepeatCounts(s, i, j);
        DistinctCounts(t, s[i]);
      }
    }
  }

  /** e is the entry filed under its own City's fingerprint. */
  predicate Filed(values: Table, e: Aggregate)
  {
    Fingerprint(e.city) in values && values[Fingerprint(e.city)] == e
  }

  /**
   * Entries of a table held once each, in City order, have strictly
   * increasing Cities: two filed entries with one City are one entry.
   */
  lemma OrderedIsStrict(s: seq<Aggregate>, values: Table)
    requires Ordered(s) && Distinct(s)
    requires forall i :: 0 <= i < |s| ==> Filed(values, s[i])
    ensures StrictlySorted(s)
  {
    forall i, j | 0 <= i < j < |s|
      ensures Less(s[i].city, s[j].city)
    {
      if s[i].city != s[j].city {
        LessTotal(s[i].city, s[j].city);
      }
    }
  }

  /** The collected entries are distinct: distinct keys hold entries with distinct Cities. */
  lemma CollectedDistinct(s: seq<Aggregate>, order: seq<int>, values: Table)
    requires WellKeyed(values) && |s| == |order| && Distinct(order)
    requires forall i :: 0 <= i < |order| ==> order[i] in values && s[i] == values[order[i]]
    ensures Distinct(s)
    ensures forall i :: 0 <= i < |s| ==> Filed(values, s[i])
  {
    forall i | 0 <= i < |s|
      ensures Fingerprint(s[i].city) == order[i] && Filed(values, s[i])
    {
      assert s[i] == values[order[i]];
    }
    forall i, j | 0 <= i < j < |s|
      ensures s[i] != s[j]
    {
      assert Fingerprint(s[i].city) == order[i] && Fingerprint(s[j].city) == order[j];
    }
  }

  /**
   * The sorted copy of the collected entries: every entry of the table
   * once, each filed under its City, in strictly increasing City order.
   */
  lemma SortedEntries(collected: seq<Aggregate>, order: seq<int>, es: seq<Aggregate>, values: Table)
    requires WellKeyed(values) && |collected| == |order| == |values| && Distinct(order)
    requires forall i :: 0 <= i < |order| ==> order[i] in values && collected[i] == values[order[i]]
    requires forall fp :: fp in values ==> fp in order
    requires multiset(es) == multiset(collected) && Ordered(es)
    ensures StrictlySorted(es) && |es| == |values|
    ensures forall i :: 0 <= i < |es| ==> Filed(values, es[i])
    ensures forall fp :: fp in values ==> values[fp] in es
  {
    CollectedDistinct(collected, order, values);
    DistinctPerm(es, collected);
    PermLength(es, collected);
    forall i | 0 <= i < |es|
      ensures Filed(values, es[i])
    {
      assert es[i] in multiset(collected);
    }
    OrderedIsStrict(es, values);
    forall fp | fp in values
      ensures values[fp] in es
    {
      var i :| 0 <= i < |order| && order[i] == fp;
      assert collected[i] in multiset(es);
    }
  }

  /** Two strictly sorted sequences with the same elements are the same sequence. */
  lemma {:induction false} SortedUnique(s: seq<Aggregate>, t: seq<Aggregate>)
    requires StrictlySorted(s) && StrictlySorted(t)
    requires forall x :: x in s <==> x in t
    ensures s == t
    decreases |s|
  {
    if s != [] && t != [] {
      HeadsAgree(s, t);
      forall x
        ensures x in s[1..] <==> x in t[1..]
      {
        if x in s[1..] {
          TailMember(s, t, x);
        }
        if x in t[1..] {
          TailMember(t, s, x);
        }
      }
      TailSorted(s);
      TailSorted(t);
      SortedUnique(s[1..], t[1..]);
      assert s == [s[0]] + s[1..] && t == [t[0]] + t[1..];
    } else {
      EmptyBoth(s, t);
    }
  }

  /** The least elements agree: neither can come after the other. */
  lemma HeadsAgree(s: seq<Aggregate>, t: seq<Aggregate>)
    requires StrictlySorted(s) && StrictlySorted(t) && s != [] && t != []
    requires forall x :: x in s <==> x in t
    ensures s[0] == t[0]
  {
    assert s[0] in s && t[0] in t;
    var i :| 0 <= i < |t| && t[i] == s[0];
    var j :| 0 <= j < |s| && s[j] == t[0];
    if i != 0 {
      assert Less(t[0].city, t[i].city);
      if j != 0 {
        assert Less(s[0].city, s[j].city);
        LessAsymmetric(s[0].city, s[j].city);
      } else {
        LessIrreflexive(t[0].city);
      }
    }
  }

  /** Past the shared head, an element of one tail is in the other. */
  lemma TailMember(s: seq<Aggregate>, t: seq<Aggregate>, x: Aggregate)
    requires StrictlySorted(s) && s != [] && t != [] && s[0] == t[0]
    requires forall y :: y in s <==> y in t
    requires x in s[1..]
    ensures x in t[1..]
  {
    var k :| 0 <= k < |s| - 1 && s[1..][k] == x;
    assert Less(s[0].city, s[k + 1].city);
    LessIrreflexive(s[0].city);
    assert x in t;
    var m :| 0 <= m < |t| && t[m] == x;
    assert m != 0;
    assert t[1..][m - 1] == x;
  }

  lemma TailSorted(s: seq<Aggregate>)
    requires StrictlySorted(s) && s != []
    ensures StrictlySorted(s[1..])
  {
    forall i, j | 0 <= i < j < |s| - 1
      ensures Less(s[1..][i].city, s[1..][j].city)
    {
      assert s[1..][i] == s[i + 1] && s[1..][j] == s[j + 1];
    }
  }

  /** Sequences with the same elements are empty together. */
  lemma EmptyBoth<T>(s: seq<T>, t: seq<T>)
    requires forall x :: x in s <==> x in t
    ensures s == [] <==> t == []
  {
    if s != [] {
      assert s[0] in t;
    }
    if t != [] {
      assert t[0] in s;
    }
  }

  /******** The output text ********/

  /** `fmt.Sprintf("%s=%.1f/%.1f/%.1f", ...)` for one entry. */
  function Line(e: Aggregate, mean: (int64, int32) -> seq<byte>): seq<byte>
  {
    e.city + [EQUALS] + RenderTenths(e.min) + [SLASH] + mean(e.sum, e.count) + [SLASH] + RenderTenths(e.max)
  }

  /** The lines of es, in order. */
  function Lines(es: seq<Aggregate>, mean: (int64, int32) -> seq<byte>): (ls: seq<seq<byte>>)
    ensures |ls| == |es| && forall k :: 0 <= k < |es| ==> ls[k] == Line(es[k], mean)
  {
    seq(|es|, k requires 0 <= k < |es| => Line(es[k], mean))
  }

  /** The lines of es, separated by ", ". */
  function Body(es: seq<Aggregate>, mean: (int64, int32) -> seq<byte>): seq<byte>
  {
    Join(Lines(es, mean), [COMMA, SPACE])
  }

  /** The whole output, in braces. */
  function Output(es: seq<Aggregate>, mean: (int64, int32) -> seq<byte>): seq<byte>
  {
    [OPEN] + Body(es, mean) + [CLOSE]
  }

  /** Where the line of es[i] starts in Body(es): after the earlier lines and their separators. */
  function Offset(es: seq<Aggregate>, mean: (int64, int32) -> seq<byte>, i: nat): nat
    requires i <= |es|
  {
    JoinOffset(Lines(es, mean), [COMMA, SPACE], i)
  }

  /** In the output, each line sits at its offset in the body. */
  lemma LineAt(es: seq<Aggregate>, mean: (int64, int32) -> seq<byte>, i: nat)
    requires i < |es|
    ensures At(Body(es, mean), Offset(es, mean, i), Line(es[i], mean))
  {
    var ls := Lines(es, mean);
    assert ls[i] == Line(es[i], mean);
    JoinAt(ls, [COMMA, SPACE], i);
  }

  /** Each line but the last is followed by ", "; the last ends the body. */
  lemma SeparatorAfter(es: seq<Aggregate>, mean: (int64, int32) -> seq<byte>, i: nat)
    requires i < |es|
    ensures i < |es| - 1 ==> At(Body(es, mean), Offset(es, mean, i) + |Line(es[i], mean)|, [COMMA, SPACE])
    ensures i == |es| - 1 ==> Offset(es, mean, i) + |Line(es[i], mean)| == |Body(es, mean)|
  {
    JoinAfter(Lines(es, mean), [COMMA, SPACE], i);
  }

  /******** Joining pieces with a separator ********/

  /** The pieces of ls with sep between neighbours. */
  function Join<T>(ls: seq<seq<T>>, sep: seq<T>): seq<T>
    decreases |ls|
  {
    if ls == [] then []
    else if |ls| == 1 then ls[0]
    else Join(ls[..|ls| - 1], sep) + sep + ls[|ls| - 1]
  }

  /** Where ls[i] starts in Join(ls, sep). */
  function JoinOffset<T>(ls: seq<seq<T>>, sep: seq<T>, i: nat): nat
    requires i <= |ls|
    decreases i
  {
    if i == 0 then 0 else JoinOffset(ls, sep, i - 1) + |ls[i - 1]| + |sep|
  }

  /** x occurs in b starting at offset o. */
  ghost predicate At<T>(b: seq<T>, o: nat, x: seq<T>)
  {
    o + |x| <= |b| && b[o..o + |x|] == x
  }

  lemma AtWhole<T>(x: seq<T>)
    ensures At(x, 0, x)
  {
    assert x[0..|x|] == x;
  }

  lemma AtLeft<T>(x: seq<T>, y: seq<T>, o: nat, z: seq<T>)
    requires At(x, o, z)
    ensures At(x + y, o, z)
  {
    assert (x + y)[o..o + |z|] == x[o..o + |z|];
  }

  lemma AtRight<T>(x: seq<T>, y: seq<T>, o: nat, z: seq<T>)
    requires At(y, o, z)
    ensures At(x + y, |x| + o, z)
  {
    assert (x + y)[|x| + o..|x| + o + |z|] == y[o..o + |z|];
  }

  /** Each piece sits at its offset. */
  lemma {:induction false} JoinAt<T>(ls: seq<seq<T>>, sep: seq<T>, i: nat)
    requires i < |ls|
    ensures At(Join(ls, sep), JoinOffset(ls, sep, i), ls[i])
    decreases |ls|
  {
    if |ls| == 1 {
      AtWhole(ls[0]);
    } else {
      var init, last := ls[..|ls| - 1], ls[|ls| - 1];
      var bi := Join(init, sep);
      JoinOffsetPrefix(ls, init, sep, i);
      if i < |init| {
        assert init[i] == ls[i];
        JoinAt(init, sep, i);
        AtLeft(bi, sep + last, JoinOffset(init, sep, i), ls[i]);
        assert Join(ls, sep) == bi + (sep + last);
      } else {
        JoinEnd(init, sep);
        AtWhole(last);
        AtRight(bi + sep, last, 0, last);
      }
    }
  }

  /** Each piece but the last is followed by sep; the last ends the text. */
  lemma {:induction false} JoinAfter<T>(ls: seq<seq<T>>, sep: seq<T>, i: nat)
    requires i < |ls|
    ensures var b, o := Join(ls, sep), JoinOffset(ls, sep, i) + |ls[i]|;
            if i < |ls| - 1 then At(b, o, sep) else o == |b|
    decreases |ls|
  {
    if |ls| > 1 {
      var init, last := ls[..|ls| - 1], ls[|ls| - 1];
      var bi := Join(init, sep);
      JoinOffsetPrefix(ls, init, sep, i);
      var o := JoinOffset(init, sep, i) + |ls[i]|;
      if i < |init| {
        assert init[i] == ls[i];
        JoinAfter(init, sep, i);
        if i < |init| - 1 {
          AtLeft(bi, sep + last, o, sep);
          assert Join(ls, sep) == bi + (sep + last);
        } else {
          AtWhole(sep);
          AtRight(bi, sep, 0, sep);
          AtLeft(bi + sep, last, o, sep);
        }
      } else {
        JoinEnd(init, sep);
      }
    }
  }

  /** Offsets only look at the earlier pieces. */
  lemma {:induction false} JoinOffsetPrefix<T>(ls: seq<seq<T>>, pre: seq<seq<T>>, sep: seq<T>, i: nat)
    requires i <= |pre| <= |ls| && pre == ls[..|pre|]
    ensures JoinOffset(ls, sep, i) == JoinOffset(pre, sep, i)
    decreases i
  {
    if i > 0 {
      JoinOffsetPrefix(ls, pre, sep, i - 1);
      assert pre[i - 1] == ls[i - 1];
    }
  }

  /** The text ends one separator before the offset past its last piece. */
  lemma {:induction false} JoinEnd<T>(ls: seq<seq<T>>, sep: seq<T>)
    requires ls != []
    ensures |Join(ls, sep)| + |sep| == JoinOffset(ls, sep, |ls|)
    decreases |ls|
  {
    if |ls| > 1 {
      var init := ls[..|ls| - 1];
      JoinEnd(init, sep);
      JoinOffsetPrefix(ls, init, sep, |init|);
    }
  }

  /** An empty table prints as `{}`. */
  lemma EmptyOutput(mean: (int64, int32) -> seq<byte>)
    ensures Output([], mean) == [OPEN, CLOSE]
  {
  }

  /** Each line names its City and renders Min and Max so that they parse back. */
  lemma LineFields(e: Aggregate, mean: (int64, int32) -> seq<byte>)
    ensures var l := Line(e, mean);
            var m := RenderTenths(e.min);
            l[..|e.city| + 1] == e.city + [EQUALS] &&
            l[|e.city| + 1..|e.city| + 1 + |m|] == m && ValueOf(m) == e.min
  {
    RenderRoundTrip(e.min);
    var l := Line(e, mean);
    assert l == (e.city + [EQUALS]) + RenderTenths(e.min) + ([SLASH] + mean(e.sum, e.count) + [SLASH] + RenderTenths(e.max));
  }

  /**
   * The output loop: `output := "{"`, each line followed by ", " unless it
   * is the last, then `"}"`.
   */
  method Render(sorted: array<Aggregate>, mean: (int64, int32) -> seq<byte>) returns (output: seq<byte>)
    ensures output == Output(sorted[..], mean)
  {
    ghost var es := sorted[..];
    output := [OPEN];
    for idx := 0 to sorted.Length
      invariant output == [OPEN] + Body(es[..idx], mean) + Separator(idx, |es|)
    {
      RenderStep(es, mean, idx);
      ghost var before := output;
      output := output + Line(sorted[idx], mean);
      if idx < sorted.Length - 1 {
        output := output + [COMMA, SPACE];
      }
      assert output == before + Line(es[idx], mean) + Separator(idx + 1, |es|);
    }
    assert es[..|es|] == es;
    output := output + [CLOSE];
  }

  /** The separator the loop has written after idx of n lines. */
  function Separator(idx: nat, n: nat): seq<byte>
  {
    if 0 < idx < n then [COMMA, SPACE] else []
  }

  /** The loop step: the next line, then a separator unless it was the last. */
  lemma RenderStep(es: seq<Aggregate>, mean: (int64, int32) -> seq<byte>, idx: nat)
    requires idx < |es|
    ensures [OPEN] + Body(es[..idx], mean) + Separator(idx, |es|) + Line(es[idx], mean) + Separator(idx + 1, |es|) ==
              [OPEN] + Body(es[..idx + 1], mean) + Separator(idx + 1, |es|)
  {
    BodySnoc(es[..idx + 1], mean);
    assert es[..idx + 1][..idx] == es[..idx];
    Regroup([OPEN], Body(es[..idx], mean), Separator(idx, |es|), Line(es[idx], mean), Separator(idx + 1, |es|));
  }

  /** Proof helper: regrouping a concatenation; it models nothing by itself. */
  lemma Regroup<T>(a: seq<T>, b: seq<T>, c: seq<T>, d: seq<T>, e: seq<T>)
    ensures a + b + c + d + e == a + (b + c + d) + e
  {
  }

  /** One more entry: its line after the others, behind a separator if there are others. */
  lemma BodySnoc(es: seq<Aggregate>, mean: (int64, int32) -> seq<byte>)
    requires es != []
    ensures var init := es[..|es| - 1];
            Body(es, mean) == Body(init, mean) + (if init == [] then [] else [COMMA, SPACE]) + Line(es[|es| - 1], mean)
  {
    var ls, init := Lines(es, mean), es[..|es| - 1];
    assert ls[..|ls| - 1] == Lines(init, mean);
  }

  /******** The whole tail ********/

  /**
   * Collect, sort and print the merged table. The printed entries are the
   * table's entries in strictly increasing City order, so the text is the
   * same whatever order the map was visited in (OutputUnique).
   */
  method Format(values: Table, mean: (int64, int32) -> seq<byte>) returns (output: seq<byte>, ghost es: seq<Aggregate>)
    requires WellKeyed(values)
    ensures output == Output(es, mean)
    ensures StrictlySorted(es) && |es| == |values|
    ensures forall i :: 0 <= i < |es| ==> Filed(values, es[i])
    ensures forall fp :: fp in values ==> values[fp] in es
  {
    var a, order := Collect(values);
    ghost var collected := a[..];
    SortByCity(a);
    es := a[..];
    SortedEntries(collected, order, es, values);
    output := Render(a, mean);
  }

  /** The printed text depends only on the table. */
  lemma OutputUnique(values: Table, s: seq<Aggregate>, t: seq<Aggregate>, mean: (int64, int32) -> seq<byte>)
    requires StrictlySorted(s) && StrictlySorted(t)
    requires forall i :: 0 <= i < |s| ==> Filed(values, s[i])
    requires forall i :: 0 <= i < |t| ==> Filed(values, t[i])
    requires forall fp :: fp in values ==> values[fp] in s && values[fp] in t
    ensures Output(s, mean) == Output(t, mean)
  {
    forall x
      ensures x in s <==> x in t
    {
      if x in s {
        var i :| 0 <= i < |s| && s[i] == x;
      }
      if x in t {
        var i :| 0 <= i < |t| && t[i] == x;
      }
    }
    SortedUnique(s, t);
  }
}

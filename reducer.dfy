/**
 * The reduce step: the per-worker tables are folded, worker by worker and
 * key by key, into one final table. A fingerprint the final table lacks
 * takes the worker's entry as it is; one it has gets the smaller Min, the
 * larger Max, and the worker's Sum and Count added (with int64 and int32
 * wrap-around). The City already in the final table is kept.
 */
module Reducer {
  import opened Bytes
  import opened Machine
  import opened RecordParser
  import opened PartialTable

  /** Folding one worker's entry a into the final entry f. */
  function Combine(f: Aggregate, a: Aggregate): (r: Aggregate)
    ensures r.city == f.city
    ensures r.min <= f.min && r.min <= a.min && (r.min == f.min || r.min == a.min)
    ensures f.max <= r.max && a.max <= r.max && (r.max == f.max || r.max == a.max)
    ensures r.sum == Wrap64(f.sum + a.sum) && r.count == Wrap32(f.count + a.count)
  {
    Aggregate(f.city, if f.min > a.min then a.min else f.min, if f.max < a.max then a.max else f.max,
              Wrap64(f.sum + a.sum), Wrap32(f.count + a.count))
  }

  /** A non-empty set has an element to pick. */
  lemma Pick<T>(s: set<T>) returns (x: T)
    requires s != {}
    ensures x in s
  {
    var none: set<T> := {};
    assert !(forall y :: y in s <==> y in none);
    x :| x in s;
  }

  /** The final entry for fp once t has been folded into values. */
  function MergedAt(values: Table, t: Table, fp: int): Aggregate
    requires fp in values || fp in t
  {
    if fp !in t then values[fp]
    else if fp !in values then t[fp]
    else Combine(values[fp], t[fp])
  }

  /** The final table after folding in every entry of t, in any order. */
  function Merged(values: Table, t: Table): (r: Table)
    ensures forall fp {:trigger fp in r} :: fp in r <==> fp in values || fp in t
    ensures forall fp {:trigger r[fp]} :: fp in values && fp !in t ==> r[fp] == values[fp]
    ensures forall fp {:trigger r[fp]} :: fp in t && fp !in values ==> r[fp] == t[fp]
    ensures forall fp {:trigger r[fp]} :: fp in values && fp in t ==> r[fp] == Combine(values[fp], t[fp])
  {
    map fp | fp in values.Keys + t.Keys :: MergedAt(values, t, fp)
  }

  /** The final table after folding in the tables of ts in order, from nothing. */
  function MergeAll(ts: seq<Table>): (r: Table)
    ensures forall fp {:trigger fp in r} :: fp in r <==> exists j :: 0 <= j < |ts| && fp in ts[j]
    decreases |ts|
  {
    if ts == [] then map[] else Merged(MergeAll(ts[..|ts| - 1]), ts[|ts| - 1])
  }

  /**
   * `for key, val := range resultMap { ... }`: fold one worker's table into
   * values. Go visits the keys in an unspecified order; any order gives the
   * same table.
   */
  method MergeInto(values: Table, t: Table) returns (result: Table)
    ensures result == Merged(values, t)
  {
    result := values;
    var pending := t.Keys;
    ghost var done: set<int> := {};
    while pending != {}
      invariant done <= t.Keys && pending == t.Keys - done
      invariant forall fp :: fp in result <==> fp in values || fp in done
      invariant forall fp :: fp in result ==> result[fp] == if fp in done then MergedAt(values, t, fp) else values[fp]
      decreases |pending|
    {
      // A witness, so that the choice below is known to exist.
      ghost var chosen := Pick(pending);
      var key :| key in pending;
      var val := t[key];
      if key !in result {
        result := result[key := val];
      } else {
        assert key in values && MergedAt(values, t, key) == Combine(result[key], val);
        var finalVal := result[key];
        if finalVal.min > val.min {
          finalVal := finalVal.(min := val.min);
        }
        finalVal := finalVal.(sum := Wrap64(finalVal.sum + val.sum));
        finalVal := finalVal.(count := Wrap32(finalVal.count + val.count));
        if finalVal.max < val.max {
          finalVal := finalVal.(max := val.max);
        }
        result := result[key := finalVal];
      }
      done := done + {key};
      pending := pending - {key};
    }
    forall fp
      ensures fp in result <==> fp in Merged(values, t)
      ensures fp in result ==> result[fp] == Merged(values, t)[fp]
    {
      assert fp in t ==> fp in done;
    }
    SameMap(result, Merged(values, t));
  }

  /** Maps with the same values under the same keys are equal. */
  lemma SameMap<K, V>(a: map<K, V>, b: map<K, V>)
    requires forall k :: k in a <==> k in b
    requires forall k :: k in a ==> a[k] == b[k]
    ensures a == b
  {
  }

  /** `for _, resultMap := range resultMaps { ... }`: the final table. */
  method Reduce(tables: seq<Table>) returns (values: Table)
    ensures values == MergeAll(tables)
  {
    values := map[];
    for j := 0 to |tables|
      invariant values == MergeAll(tables[..j])
    {
      assert tables[..j + 1][..j] == tables[..j];
      values := MergeInto(values, tables[j]);
    }
    assert tables[..|tables|] == tables;
  }

  /** Merging keeps every entry filed under its City's fingerprint, with Min <= Max. */
  lemma MergedWellKeyed(values: Table, t: Table)
    requires WellKeyed(values) && WellKeyed(t)
    ensures WellKeyed(Merged(values, t))
  {
  }

  lemma {:induction false} MergeAllWellKeyed(ts: seq<Table>)
    requires forall j :: 0 <= j < |ts| ==> WellKeyed(ts[j])
    ensures WellKeyed(MergeAll(ts))
    decreases |ts|
  {
    if ts != [] {
      MergeAllWellKeyed(ts[..|ts| - 1]);
      MergedWellKeyed(MergeAll(ts[..|ts| - 1]), ts[|ts| - 1]);
    }
  }

  /******** The merged table described by the records each worker saw ********/

  /** All records, worker after worker. */
  function Flatten(rss: seq<seq<Record>>): seq<Record>
    decreases |rss|
  {
    if rss == [] then [] else Flatten(rss[..|rss| - 1]) + rss[|rss| - 1]
  }

  /** The tables the workers build from their records. */
  function TablesOf(rss: seq<seq<Record>>): (ts: seq<Table>)
    ensures |ts| == |rss|
    decreases |rss|
  {
    if rss == [] then [] else TablesOf(rss[..|rss| - 1]) + [TableOf(rss[|rss| - 1])]
  }

  /** The number of workers that saw fingerprint fp. */
  function Holders(rss: seq<seq<Record>>, fp: int): (h: nat)
    ensures h <= |rss|
    decreases |rss|
  {
    if rss == [] then 0
    else Holders(rss[..|rss| - 1], fp) + (if ValuesOf(rss[|rss| - 1], fp) != [] then 1 else 0)
  }

  lemma {:induction false} ValuesOfAppend(a: seq<Record>, b: seq<Record>, fp: int)
    ensures ValuesOf(a + b, fp) == ValuesOf(a, fp) + ValuesOf(b, fp)
    decreases |b|
  {
    if b == [] {
      assert a + b == a;
    } else {
      var b' := b[..|b| - 1];
      assert (a + b)[..|a + b| - 1] == a + b';
      ValuesOfAppend(a, b', fp);
    }
  }

  lemma {:induction false} FirstKeyAppend(a: seq<Record>, b: seq<Record>, fp: int)
    requires ValuesOf(a + b, fp) != []
    ensures ValuesOf(a, fp) != [] ==> FirstKey(a + b, fp) == FirstKey(a, fp)
    ensures ValuesOf(a, fp) == [] ==> ValuesOf(b, fp) != [] && FirstKey(a + b, fp) == FirstKey(b, fp)
    decreases |b|
  {
    ValuesOfAppend(a, b, fp);
    if b == [] {
      assert a + b == a;
    } else {
      var b' := b[..|b| - 1];
      assert (a + b)[..|a + b| - 1] == a + b';
      ValuesOfAppend(a, b', fp);
      if ValuesOf(a + b', fp) != [] {
        FirstKeyAppend(a, b', fp);
      }
    }
  }

  /** The minimum of a concatenation is the smaller of the two minima. */
  lemma MinOfAppend(v1: seq<int32>, v2: seq<int32>)
    requires v1 != [] && v2 != []
    ensures MinOf(v1 + v2) == if MinOf(v1) > MinOf(v2) then MinOf(v2) else MinOf(v1)
  {
    var v := v1 + v2;
    MinOfIsLeast(v1);
    MinOfIsLeast(v2);
    MinOfIsLeast(v);
    var m := if MinOf(v1) > MinOf(v2) then MinOf(v2) else MinOf(v1);
    var i :| 0 <= i < |v| && v[i] == MinOf(v);
    if i < |v1| {
      assert v[i] == v1[i];
    } else {
      assert v[i] == v2[i - |v1|];
    }
    assert m in v;
  }

  lemma MaxOfAppend(v1: seq<int32>, v2: seq<int32>)
    requires v1 != [] && v2 != []
    ensures MaxOf(v1 + v2) == if MaxOf(v1) < MaxOf(v2) then MaxOf(v2) else MaxOf(v1)
  {
    var v := v1 + v2;
    MaxOfIsGreatest(v1);
    MaxOfIsGreatest(v2);
    MaxOfIsGreatest(v);
    var m := if MaxOf(v1) < MaxOf(v2) then MaxOf(v2) else MaxOf(v1);
    var i :| 0 <= i < |v| && v[i] == MaxOf(v);
    if i < |v1| {
      assert v[i] == v1[i];
    } else {
      assert v[i] == v2[i - |v1|];
    }
    assert m in v;
  }

  lemma {:induction false} SumOfAppend(v1: seq<int32>, v2: seq<int32>)
    ensures SumOf(v1 + v2) == SumOf(v1) + SumOf(v2)
    decreases |v2|
  {
    if v2 == [] {
      assert v1 + v2 == v1;
    } else {
      var v2' := v2[..|v2| - 1];
      assert (v1 + v2)[..|v1 + v2| - 1] == v1 + v2';
      SumOfAppend(v1, v2');
    }
  }

  lemma WrapSums(s1: int, s2: int)
    ensures Wrap64(Wrap64(s1) + Wrap64(s2)) == Wrap64(s1 + s2)
  {
    Wrap64Add(s1, Wrap64(s2));
    Wrap64Add(s1, s2);
  }

  lemma WrapCounts(n1: int, n2: int)
    ensures Wrap32(Wrap32(n1) + Wrap32(n2)) == Wrap32(n1 + n2)
  {
    Wrap32Add(n1, Wrap32(n2));
    Wrap32Add(n1, n2);
  }

  /** Combining two summaries summarises the concatenated values. */
  lemma SummaryCombine(c1: seq<byte>, v1: seq<int32>, h1: int, c2: seq<byte>, v2: seq<int32>, h2: int)
    requires v1 != [] && v2 != []
    ensures Combine(Summary(c1, v1, h1), Summary(c2, v2, h2)) == Summary(c1, v1 + v2, h1 + h2)
  {
    MinOfAppend(v1, v2);
    MaxOfAppend(v1, v2);
    SumOfAppend(v1, v2);
    WrapSums(SumOf(v1), SumOf(v2));
    var n1, n2 := |v1| - h1, |v2| - h2;
    assert |v1 + v2| - (h1 + h2) == n1 + n2;
    WrapCounts(n1, n2);
  }

  /** No worker saw fp exactly when fp occurs in none of the records. */
  lemma {:induction false} HoldersNone(rss: seq<seq<Record>>, fp: int)
    ensures Holders(rss, fp) == 0 <==> ValuesOf(Flatten(rss), fp) == []
    decreases |rss|
  {
    if rss != [] {
      var init := rss[..|rss| - 1];
      HoldersNone(init, fp);
      ValuesOfAppend(Flatten(init), rss[|rss| - 1], fp);
    }
  }

  /**
   * The merged table holds exactly the fingerprints some worker saw. Its
   * entry has the City first seen in worker order, the least and greatest
   * value, the total, and a Count of the number of values less the number
   * of workers that saw the fingerprint.
   */
  lemma {:induction false} MergeAllSummarises(rss: seq<seq<Record>>)
    ensures forall fp :: fp in MergeAll(TablesOf(rss)) <==> ValuesOf(Flatten(rss), fp) != []
    ensures forall fp :: fp in MergeAll(TablesOf(rss)) ==>
              MergeAll(TablesOf(rss))[fp] ==
                Summary(FirstKey(Flatten(rss), fp), ValuesOf(Flatten(rss), fp), Holders(rss, fp))
    decreases |rss|
  {
    if rss != [] {
      var init, last := rss[..|rss| - 1], rss[|rss| - 1];
      assert rss == init + [last];
      MergeAllSummarises(init);
      TableOfSummarises(last);
      WorkerSnoc(init, last);
      forall fp
        ensures fp in MergeAll(TablesOf(rss)) <==> ValuesOf(Flatten(rss), fp) != []
        ensures fp in MergeAll(TablesOf(rss)) ==>
                  MergeAll(TablesOf(rss))[fp] ==
                    Summary(FirstKey(Flatten(rss), fp), ValuesOf(Flatten(rss), fp), Holders(rss, fp))
      {
        HoldersNone(init, fp);
        MergedSummary(MergeAll(TablesOf(init)), TableOf(last), Flatten(init), last, Holders(init, fp), fp);
      }
    }
  }

  /** The description of the merged table, for one fingerprint. */
  lemma MergeAllSummary(rss: seq<seq<Record>>, fp: int)
    ensures fp in MergeAll(TablesOf(rss)) <==> ValuesOf(Flatten(rss), fp) != []
    ensures fp in MergeAll(TablesOf(rss)) ==>
              MergeAll(TablesOf(rss))[fp] ==
                Summary(FirstKey(Flatten(rss), fp), ValuesOf(Flatten(rss), fp), Holders(rss, fp))
  {
    MergeAllSummarises(rss);
  }

  /** One more worker: its table is merged last and its records come last. */
  lemma WorkerSnoc(init: seq<seq<Record>>, last: seq<Record>)
    ensures MergeAll(TablesOf(init + [last])) == Merged(MergeAll(TablesOf(init)), TableOf(last))
    ensures Flatten(init + [last]) == Flatten(init) + last
    ensures forall fp :: Holders(init + [last], fp) == Holders(init, fp) + (if ValuesOf(last, fp) != [] then 1 else 0)
  {
    var rss := init + [last];
    assert rss[..|rss| - 1] == init;
    var ts := TablesOf(rss);
    assert ts[..|ts| - 1] == TablesOf(init);
  }

  /**
   * Merging the table of the records `last` into a table that summarises
   * the records `before` (h workers holding fp) summarises before + last.
   */
  lemma MergedSummary(m: Table, t: Table, before: seq<Record>, last: seq<Record>, h: nat, fp: int)
    requires fp in m <==> ValuesOf(before, fp) != []
    requires fp in m ==> m[fp] == Summary(FirstKey(before, fp), ValuesOf(before, fp), h)
    requires ValuesOf(before, fp) == [] ==> h == 0
    requires fp in t <==> ValuesOf(last, fp) != []
    requires fp in t ==> t[fp] == Summary(FirstKey(last, fp), ValuesOf(last, fp), 1)
    ensures fp in Merged(m, t) <==> ValuesOf(before + last, fp) != []
    ensures fp in Merged(m, t) ==>
              Merged(m, t)[fp] == Summary(FirstKey(before + last, fp), ValuesOf(before + last, fp),
                                          h + if ValuesOf(last, fp) != [] then 1 else 0)
  {
    ValuesOfAppend(before, last, fp);
    var v := ValuesOf(before + last, fp);
    if v != [] {
      FirstKeyAppend(before, last, fp);
      if ValuesOf(last, fp) == [] {
        OnlyBefore(m, t, before, last, h, fp);
        assert Merged(m, t)[fp] == Summary(FirstKey(before + last, fp), v, h + 0);
      } else if ValuesOf(before, fp) == [] {
        OnlyLast(m, t, before, last, h, fp);
        assert Merged(m, t)[fp] == Summary(FirstKey(before + last, fp), v, h + 1);
      } else {
        InBoth(m, t, before, last, h, fp);
        assert Merged(m, t)[fp] == Summary(FirstKey(before + last, fp), v, h + 1);
      }
    } else {
      assert fp !in Merged(m, t);
    }
  }

  lemma OnlyBefore(m: Table, t: Table, before: seq<Record>, last: seq<Record>, h: nat, fp: int)
    requires ValuesOf(before, fp) != [] && ValuesOf(last, fp) == []
    requires fp in m && fp !in t
    requires m[fp] == Summary(FirstKey(before, fp), ValuesOf(before, fp), h)
    requires ValuesOf(before + last, fp) == ValuesOf(before, fp) + ValuesOf(last, fp)
    requires FirstKey(before + last, fp) == FirstKey(before, fp)
    ensures Merged(m, t)[fp] == Summary(FirstKey(before + last, fp), ValuesOf(before + last, fp), h)
  {
    assert ValuesOf(before + last, fp) == ValuesOf(before, fp);
  }

  lemma OnlyLast(m: Table, t: Table, before: seq<Record>, last: seq<Record>, h: nat, fp: int)
    requires ValuesOf(before, fp) == [] && ValuesOf(last, fp) != [] && h == 0
    requires fp !in m && fp in t
    requires t[fp] == Summary(FirstKey(last, fp), ValuesOf(last, fp), 1)
    requires ValuesOf(before + last, fp) == ValuesOf(before, fp) + ValuesOf(last, fp)
    requires FirstKey(before + last, fp) == FirstKey(last, fp)
    ensures Merged(m, t)[fp] == Summary(FirstKey(before + last, fp), ValuesOf(before + last, fp), h + 1)
  {
    assert ValuesOf(before + last, fp) == ValuesOf(last, fp);
  }

  lemma InBoth(m: Table, t: Table, before: seq<Record>, last: seq<Record>, h: nat, fp: int)
    requires ValuesOf(before, fp) != [] && ValuesOf(last, fp) != []
    requires fp in m && fp in t
    requires m[fp] == Summary(FirstKey(before, fp), ValuesOf(before, fp), h)
    requires t[fp] == Summary(FirstKey(last, fp), ValuesOf(last, fp), 1)
    requires ValuesOf(before + last, fp) == ValuesOf(before, fp) + ValuesOf(last, fp)
    requires FirstKey(before + last, fp) == FirstKey(before, fp)
    ensures Merged(m, t)[fp] == Summary(FirstKey(before + last, fp), ValuesOf(before + last, fp), h + 1)
  {
    SummaryCombine(FirstKey(before, fp), ValuesOf(before, fp), h, FirstKey(last, fp), ValuesOf(last, fp), 1);
  }
}

/**
 * The per-worker partial aggregate table: a Go map from the 64-bit key
 * fingerprint to a `ValuesV3{City, Min, Max, Sum, Count}` record that the
 * worker updates in place through a pointer.
 *
 * On the first sighting of a fingerprint the entry is created with Count left
 * at its zero value; only later sightings increment it. So an entry that has
 * absorbed n values has Count n - 1. Sum is int64 and Count int32, and both
 * wrap. Fingerprint collisions are not resolved: two keys with one
 * fingerprint share one entry, labelled with the first key seen.
 */
module PartialTable {
  import opened Bytes
  import opened Machine
  import opened Fnv
  import opened RecordParser
  import opened Options

  datatype Aggregate = Aggregate(city: seq<byte>, min: int32, max: int32, sum: int64, count: int32)

  type Table = map<int, Aggregate>

  /** The entry `&ValuesV3{City: key, Min: v, Sum: v, Max: v}` with Count 0. */
  function FirstSighting(key: seq<byte>, v: int32): (a: Aggregate)
    ensures a == Summary(key, [v], 1)
  {
    assert SumOf([v]) == v by { assert [v][..0] == []; }
    Wrap64Identity(v);
    Wrap32Identity(0);
    Aggregate(key, v, v, v, 0)
  }

  /** A later sighting: Min and Max widened to v, Sum += v, Count++; City kept. */
  function LaterSighting(a: Aggregate, v: int32): (b: Aggregate)
    ensures b.city == a.city
    ensures b.min <= v <= b.max && b.min <= a.min && a.max <= b.max
    ensures (b.min == v || b.min == a.min) && (b.max == v || b.max == a.max)
    ensures b.sum == Wrap64(a.sum + v) && b.count == Wrap32(a.count + 1)
  {
    Aggregate(a.city, if a.min > v then v else a.min, if a.max < v then v else a.max,
              Wrap64(a.sum + v), Wrap32(a.count + 1))
  }

  /**
   * The table after the worker has observed value v under key. Only the
   * entry of key's fingerprint changes: a new entry is the first sighting;
   * an existing one keeps its City, widens Min and Max to cover v, adds v
   * to Sum and one to Count.
   */
  function Observed(t: Table, key: seq<byte>, v: int32): (t': Table)
    ensures var fp := Fingerprint(key);
            && (forall g :: g in t' <==> g in t || g == fp)
            && (forall g :: g in t && g != fp ==> t'[g] == t[g])
            && (fp !in t ==> t'[fp] == Aggregate(key, v, v, v, 0))
            && (fp in t ==>
                  var a, a' := t[fp], t'[fp];
                  && a'.city == a.city
                  && a'.min <= v <= a'.max && a'.min <= a.min && a.max <= a'.max
                  && (a'.min == v || a'.min == a.min) && (a'.max == v || a'.max == a.max)
                  && a'.sum == Wrap64(a.sum + v) && a'.count == Wrap32(a.count + 1))
  {
    var fp := Fingerprint(key);
    if fp !in t then t[fp := FirstSighting(key, v)] else t[fp := LaterSighting(t[fp], v)]
  }

  /** The table after observing records rs in order. */
  function ObserveAll(t: Table, rs: seq<Record>): Table
    decreases |rs|
  {
    if rs == [] then t
    else
      var last := rs[|rs| - 1];
      Observed(ObserveAll(t, rs[..|rs| - 1]), last.key, last.value)
  }

  lemma ObserveAllSnoc(t: Table, rs: seq<Record>, r: Record)
    ensures ObserveAll(t, rs + [r]) == Observed(ObserveAll(t, rs), r.key, r.value)
  {
    assert (rs + [r])[..|rs|] == rs;
  }

  /** The table a worker builds from nothing by observing rs. */
  function TableOf(rs: seq<Record>): Table
  {
    ObserveAll(map[], rs)
  }

  /** Each entry is filed under its City's fingerprint and has Min <= Max. */
  ghost predicate WellKeyed(t: Table)
  {
    forall fp :: fp in t ==> Fingerprint(t[fp].city) == fp && t[fp].min <= t[fp].max
  }

  /******** An independent description of a table: per fingerprint, the values seen ********/

  /** The values of the records whose key has fingerprint fp, in order. */
  function ValuesOf(rs: seq<Record>, fp: int): (vs: seq<int32>)
    ensures |vs| <= |rs|
    decreases |rs|
  {
    if rs == [] then []
    else
      var last := rs[|rs| - 1];
      ValuesOf(rs[..|rs| - 1], fp) + (if Fingerprint(last.key) == fp then [last.value] else [])
  }

  /** The key of the first record with fingerprint fp. */
  function FirstKey(rs: seq<Record>, fp: int): (key: seq<byte>)
    requires ValuesOf(rs, fp) != []
    ensures Fingerprint(key) == fp
    ensures exists i :: 0 <= i < |rs| && rs[i].key == key
    decreases |rs|
  {
    var init := rs[..|rs| - 1];
    if ValuesOf(init, fp) != [] then
      var k := FirstKey(init, fp);
      assert forall i :: 0 <= i < |init| ==> init[i] == rs[i];
      k
    else rs[|rs| - 1].key
  }

  /** No values under fp: no record has fingerprint fp. */
  lemma {:induction false} NoValuesNoRecord(rs: seq<Record>, fp: int)
    requires ValuesOf(rs, fp) == []
    ensures forall j :: 0 <= j < |rs| ==> Fingerprint(rs[j].key) != fp
    decreases |rs|
  {
    if rs != [] {
      var init := rs[..|rs| - 1];
      NoValuesNoRecord(init, fp);
      forall j | 0 <= j < |rs| - 1
        ensures Fingerprint(rs[j].key) != fp
      {
        assert rs[j] == init[j];
      }
    }
  }

  /**
   * The kept key is that of the first record with fingerprint fp: the worker
   * stores `City: string(keyBytes)` only when the fingerprint is not found.
   */
  lemma {:induction false} FirstKeyIsFirst(rs: seq<Record>, fp: int) returns (i: nat)
    requires ValuesOf(rs, fp) != []
    ensures i < |rs| && rs[i].key == FirstKey(rs, fp) && Fingerprint(rs[i].key) == fp
    ensures forall j :: 0 <= j < i ==> Fingerprint(rs[j].key) != fp
    decreases |rs|
  {
    var init := rs[..|rs| - 1];
    if ValuesOf(init, fp) != [] {
      i := FirstKeyIsFirst(init, fp);
      assert rs[i] == init[i];
      forall j | 0 <= j < i
        ensures Fingerprint(rs[j].key) != fp
      {
        assert rs[j] == init[j];
      }
    } else {
      i := |rs| - 1;
      NoValuesNoRecord(init, fp);
      forall j | 0 <= j < i
        ensures Fingerprint(rs[j].key) != fp
      {
        assert rs[j] == init[j];
      }
    }
  }

  /** The least of vs, found left to right as the worker finds it. */
  function MinOf(vs: seq<int32>): int32
    requires vs != []
    decreases |vs|
  {
    if |vs| == 1 then vs[0]
    else
      var m := MinOf(vs[..|vs| - 1]);
      if m > vs[|vs| - 1] then vs[|vs| - 1] else m
  }

  /** The greatest of vs. */
  function MaxOf(vs: seq<int32>): int32
    requires vs != []
    decreases |vs|
  {
    if |vs| == 1 then vs[0]
    else
      var m := MaxOf(vs[..|vs| - 1]);
      if m < vs[|vs| - 1] then vs[|vs| - 1] else m
  }

  /** MinOf is one of the values and no value is below it. */
  lemma {:induction false} MinOfIsLeast(vs: seq<int32>)
    requires vs != []
    ensures MinOf(vs) in vs
    ensures forall i :: 0 <= i < |vs| ==> MinOf(vs) <= vs[i]
    decreases |vs|
  {
    if |vs| > 1 {
      var init := vs[..|vs| - 1];
      MinOfIsLeast(init);
      assert forall i :: 0 <= i < |init| ==> init[i] == vs[i];
    }
  }

  /** MaxOf is one of the values and no value is above it. */
  lemma {:induction false} MaxOfIsGreatest(vs: seq<int32>)
    requires vs != []
    ensures MaxOf(vs) in vs
    ensures forall i :: 0 <= i < |vs| ==> vs[i] <= MaxOf(vs)
    decreases |vs|
  {
    if |vs| > 1 {
      var init := vs[..|vs| - 1];
      MaxOfIsGreatest(init);
      assert forall i :: 0 <= i < |init| ==> init[i] == vs[i];
    }
  }

  /** The exact (unbounded) sum of vs. */
  function SumOf(vs: seq<int32>): int
    decreases |vs|
  {
    if vs == [] then 0 else SumOf(vs[..|vs| - 1]) + vs[|vs| - 1]
  }

  /** The entry that n >= 1 values vs, first seen under city, must produce. */
  function Summary(city: seq<byte>, vs: seq<int32>, holders: int): Aggregate
    requires vs != []
  {
    Aggregate(city, MinOf(vs), MaxOf(vs), Wrap64(SumOf(vs)), Wrap32(|vs| - holders))
  }

  /**
   * The table built from rs holds exactly the fingerprints that occur in rs,
   * and the entry for fp has City = the first key with fp, Min and Max = the
   * least and greatest value seen, Sum = their total (int64) and Count = one
   * less than their number (int32).
   */
  lemma {:induction false} TableOfSummarises(rs: seq<Record>)
    ensures forall fp :: fp in TableOf(rs) <==> ValuesOf(rs, fp) != []
    ensures forall fp :: fp in TableOf(rs) ==>
              TableOf(rs)[fp] == Summary(FirstKey(rs, fp), ValuesOf(rs, fp), 1)
    decreases |rs|
  {
    if rs != [] {
      var init, last := rs[..|rs| - 1], rs[|rs| - 1];
      assert rs == init + [last];
      TableOfSummarises(init);
      forall fp
        ensures fp in TableOf(rs) <==> ValuesOf(rs, fp) != []
        ensures fp in TableOf(rs) ==> TableOf(rs)[fp] == Summary(FirstKey(rs, fp), ValuesOf(rs, fp), 1)
      {
        SummaryStep(init, last, fp);
      }
    }
  }

  /** One observation keeps the description of one fingerprint's entry true. */
  lemma SummaryStep(init: seq<Record>, last: Record, fp: int)
    requires fp in TableOf(init) <==> ValuesOf(init, fp) != []
    requires fp in TableOf(init) ==> TableOf(init)[fp] == Summary(FirstKey(init, fp), ValuesOf(init, fp), 1)
    ensures var rs := init + [last];
            && (fp in TableOf(rs) <==> ValuesOf(rs, fp) != [])
            && (fp in TableOf(rs) ==> TableOf(rs)[fp] == Summary(FirstKey(rs, fp), ValuesOf(rs, fp), 1))
  {
    var rs := init + [last];
    assert rs[..|rs| - 1] == init;
    assert TableOf(rs) == Observed(TableOf(init), last.key, last.value);
    if Fingerprint(last.key) != fp {
      assert ValuesOf(rs, fp) == ValuesOf(init, fp);
    } else if ValuesOf(init, fp) == [] {
      FirstSightingSummary(init, last);
    } else {
      LaterSightingSummary(init, last);
    }
  }

  lemma FirstSightingSummary(init: seq<Record>, last: Record)
    requires ValuesOf(init, Fingerprint(last.key)) == []
    ensures var rs, fp := init + [last], Fingerprint(last.key);
            ValuesOf(rs, fp) != [] &&
            FirstSighting(last.key, last.value) == Summary(FirstKey(rs, fp), ValuesOf(rs, fp), 1)
  {
    var rs, fp := init + [last], Fingerprint(last.key);
    var v := last.value;
    assert rs[..|rs| - 1] == init;
    assert ValuesOf(rs, fp) == [v];
    assert FirstKey(rs, fp) == last.key;
    assert SumOf([v]) == v by { assert [v][..0] == []; }
    Wrap64Identity(v);
    Wrap32Identity(0);
  }

  lemma LaterSightingSummary(init: seq<Record>, last: Record)
    requires ValuesOf(init, Fingerprint(last.key)) != []
    ensures var rs, fp := init + [last], Fingerprint(last.key);
            var vs := ValuesOf(init, fp);
            ValuesOf(rs, fp) != [] &&
            LaterSighting(Summary(FirstKey(init, fp), vs, 1), last.value) ==
              Summary(FirstKey(rs, fp), ValuesOf(rs, fp), 1)
  {
    var rs, fp := init + [last], Fingerprint(last.key);
    assert rs[..|rs| - 1] == init;
    var vs := ValuesOf(init, fp);
    var v := last.value;
    assert ValuesOf(rs, fp) == vs + [v];
    assert FirstKey(rs, fp) == FirstKey(init, fp);
    SummarySnoc(FirstKey(init, fp), vs, v);
  }

  /** A later sighting of v turns the summary of vs into the summary of vs + [v]. */
  lemma SummarySnoc(city: seq<byte>, vs: seq<int32>, v: int32)
    requires vs != []
    ensures LaterSighting(Summary(city, vs, 1), v) == Summary(city, vs + [v], 1)
  {
    SnocSummary(vs, v);
    SumSnocWrap(vs, v);
    Wrap32Add(|vs| - 1, 1);
  }

  lemma SumSnocWrap(vs: seq<int32>, v: int32)
    ensures Wrap64(SumOf(vs + [v])) == Wrap64(Wrap64(SumOf(vs)) + v)
  {
    assert (vs + [v])[..|vs|] == vs;
    Wrap64Add(SumOf(vs), v);
  }

  /** Min, Max and Sum of vs + [v] from those of vs. */
  lemma SnocSummary(vs: seq<int32>, v: int32)
    requires vs != []
    ensures MinOf(vs + [v]) == if MinOf(vs) > v then v else MinOf(vs)
    ensures MaxOf(vs + [v]) == if MaxOf(vs) < v then v else MaxOf(vs)
    ensures SumOf(vs + [v]) == SumOf(vs) + v
  {
    assert (vs + [v])[..|vs|] == vs;
  }

  /** The invariant every table keeps: Observed preserves WellKeyed. */
  lemma ObservedWellKeyed(t: Table, key: seq<byte>, v: int32)
    requires WellKeyed(t)
    ensures WellKeyed(Observed(t, key, v))
  {
  }

  /** Every table built by observations keeps the invariant. */
  lemma {:induction false} ObserveAllWellKeyed(t: Table, rs: seq<Record>)
    requires WellKeyed(t)
    ensures WellKeyed(ObserveAll(t, rs))
    decreases |rs|
  {
    if rs != [] {
      var init, last := rs[..|rs| - 1], rs[|rs| - 1];
      ObserveAllWellKeyed(t, init);
      ObservedWellKeyed(ObserveAll(t, init), last.key, last.value);
    }
  }

  /**
   * After n >= 1 observations under one fingerprint: Min <= every observed
   * value <= Max, both are attained, Sum is the exact total reduced to int64
   * and Count is n - 1. Entries exist exactly for observed fingerprints.
   */
  lemma TableBounds(rs: seq<Record>, fp: int)
    ensures fp in TableOf(rs) <==> exists i :: 0 <= i < |rs| && Fingerprint(rs[i].key) == fp
    ensures fp in TableOf(rs) ==>
              var a := TableOf(rs)[fp];
              var vs := ValuesOf(rs, fp);
              && (forall i :: 0 <= i < |rs| && Fingerprint(rs[i].key) == fp ==>
                    a.min <= rs[i].value <= a.max)
              && a.min in vs && a.max in vs
              && a.sum == Wrap64(SumOf(vs))
              && a.count == Wrap32(|vs| - 1)
              && a.city == FirstKey(rs, fp)
  {
    TableOfSummarises(rs);
    forall i | 0 <= i < |rs| && Fingerprint(rs[i].key) == fp
      ensures rs[i].value in ValuesOf(rs, fp)
    {
      ValuesOfContains(rs, i);
    }
    if ValuesOf(rs, fp) != [] {
      var i := FirstKeyIndex(rs, fp);
      MinOfIsLeast(ValuesOf(rs, fp));
      MaxOfIsGreatest(ValuesOf(rs, fp));
    }
  }

  lemma {:induction false} ValuesOfContains(rs: seq<Record>, i: int)
    requires 0 <= i < |rs|
    ensures rs[i].value in ValuesOf(rs, Fingerprint(rs[i].key))
    decreases |rs|
  {
    if i < |rs| - 1 {
      ValuesOfContains(rs[..|rs| - 1], i);
    }
  }

  lemma {:induction false} FirstKeyIndex(rs: seq<Record>, fp: int) returns (i: int)
    requires ValuesOf(rs, fp) != []
    ensures 0 <= i < |rs| && Fingerprint(rs[i].key) == fp
    decreases |rs|
  {
    var init := rs[..|rs| - 1];
    if ValuesOf(init, fp) != [] {
      i := FirstKeyIndex(init, fp);
    } else {
      i := |rs| - 1;
    }
  }

  /**
   * The worker's table. The Go map of pointers becomes a map of values held in
   * a field: updating the entry through its pointer is replacing the entry.
   */
  class PartialTable {
    var entries: Table

    ghost predicate Valid()
      reads this
    {
      WellKeyed(entries)
    }

    /** `make(map[int64]*ValuesV3)` */
    constructor ()
      ensures Valid() && entries == map[]
    {
      entries := map[];
    }

    /** Fold one parsed line into the table (go/main.go, the `found` branch and its else). */
    method Observe(key: seq<byte>, v: int32)
      requires Valid()
      modifies this
      ensures Valid()
      ensures entries == Observed(old(entries), key, v)
    {
      var fp := Fingerprint(key);
      if fp !in entries {
        entries := entries[fp := Aggregate(key, v, v, v, 0)];
      } else {
        var val := entries[fp];
        if val.min > v {
          val := val.(min := v);
        }
        val := val.(sum := Wrap64(val.sum + v));
        val := val.(count := Wrap32(val.count + 1));
        if val.max < v {
          val := val.(max := v);
        }
        assert val == LaterSighting(entries[fp], v);
        entries := entries[fp := val];
      }
      ObservedWellKeyed(old(entries), key, v);
    }

    /**
     * The worker's work on one chunk: split it on newlines and parse and
     * observe every line in order. `ok` is false when a line is malformed;
     * the Go worker then panics and the whole run aborts, so what the table
     * holds afterwards is never looked at.
     */
    method ConsumeChunk(chunk: seq<byte>) returns (ok: bool)
      requires Valid()
      modifies this
      ensures Valid()
      ensures ok <==> ParseLines(Split(chunk, NL)).Some?
      ensures ok ==> entries == ObserveAll(old(entries), ParseLines(Split(chunk, NL)).value)
    {
      var lines := Split(chunk, NL);
      ghost var rs: seq<Record> := [];
      for i := 0 to |lines|
        invariant Valid()
        invariant ParseLines(lines[..i]) == Some(rs)
        invariant entries == ObserveAll(old(entries), rs)
      {
        var r := ParseRecord(lines[i]);
        ParseLinesExtend(lines, i, rs);
        if r.Malformed? {
          return false;
        }
        ObserveAllSnoc(old(entries), rs, r.record);
        Observe(r.record.key, r.record.value);
        rs := rs + [r.record];
      }
      assert lines[..|lines|] == lines;
      ok := true;
    }
  }
}

/**
 * The whole V11 run on one byte stream, with the worker goroutines replaced
 * by a sequential fold: the scanner cuts the stream into chunks, each chunk
 * goes to one of n workers (chosen by `schedule`, standing in for whichever
 * goroutine receives it from the channel), every worker folds the lines of
 * its chunks into its own table, and the reducer merges the n tables in
 * worker order. A malformed line makes its worker panic, which ends the
 * program; that is the `None` outcome.
 */
module Pipeline {
  import opened Options
  import opened Bytes
  import opened Machine
  import opened RecordParser
  import opened PartialTable
  import opened Chunker
  import opened Reducer
  import opened Fnv

  /******** What the program computes ********/

  /** The records of one chunk, when every line of it parses. */
  function ChunkRecords(chunk: seq<byte>): Option<seq<Record>>
  {
    ParseLines(Split(chunk, NL))
  }

  /** No worker panics: every line of every chunk parses. */
  predicate AllParse(chunks: seq<seq<byte>>)
  {
    forall i :: 0 <= i < |chunks| ==> ChunkRecords(chunks[i]).Some?
  }

  /** The records of a chunk that parses (nothing for one that does not). */
  function RecordsOf(chunk: seq<byte>): seq<Record>
  {
    match ChunkRecords(chunk)
    case Some(rs) => rs
    case None => []
  }

  /** The records of all chunks, in stream order. */
  function AllRecords(chunks: seq<seq<byte>>): seq<Record>
    decreases |chunks|
  {
    if chunks == [] then [] else RecordsOf(chunks[0]) + AllRecords(chunks[1..])
  }

  /** The records worker w folds in: those of the chunks sent to it, in the order sent. */
  function WorkerRecords(chunks: seq<seq<byte>>, schedule: nat -> nat, n: nat, w: int): seq<Record>
    requires n >= 1
    decreases |chunks|
  {
    if chunks == [] then []
    else
      var i := |chunks| - 1;
      WorkerRecords(chunks[..i], schedule, n, w) + (if schedule(i) % n == w then RecordsOf(chunks[i]) else [])
  }

  /** The record lists of the n workers. */
  function WorkerLists(chunks: seq<seq<byte>>, schedule: nat -> nat, n: nat): (rss: seq<seq<Record>>)
    requires n >= 1
    ensures |rss| == n
  {
    seq(n, w => WorkerRecords(chunks, schedule, n, w))
  }

  /**
   * The reduced table of the run, or None when some worker panics on a
   * malformed line.
   */
  function Outcome(chunks: seq<seq<byte>>, schedule: nat -> nat, n: nat): Option<Table>
    requires n >= 1
  {
    if AllParse(chunks) then Some(MergeAll(TablesOf(WorkerLists(chunks, schedule, n)))) else None
  }

  /******** The run, with its n worker tables as objects ********/

  /**
   * Start n workers with empty tables, hand chunk i to worker
   * `schedule(i) % n`, then reduce the tables in worker order.
   */
  method Run(chunks: seq<seq<byte>>, schedule: nat -> nat, n: nat) returns (result: Option<Table>)
    requires n >= 1
    ensures result == Outcome(chunks, schedule, n)
  {
    var workers := StartWorkers(n);
    for i := 0 to |chunks|
      invariant forall j :: 0 <= j < n ==> fresh(workers[j])
      invariant forall j :: 0 <= j < n ==> workers[j].entries == TableOf(WorkerRecords(chunks[..i], schedule, n, j))
      invariant AllParse(chunks[..i])
    {
      var w := schedule(i) % n;
      ObserveAllWellKeyed(map[], WorkerRecords(chunks[..i], schedule, n, w));
      label Before:
      var ok := workers[w].ConsumeChunk(chunks[i]);
      if !ok {
        assert !AllParse(chunks) by {
          assert !ChunkRecords(chunks[i]).Some?;
        }
        return None;
      }
      assert workers[w].entries == ObserveAll(TableOf(WorkerRecords(chunks[..i], schedule, n, w)), RecordsOf(chunks[i]));
      forall j | 0 <= j < n
        ensures workers[j].entries == TableOf(WorkerRecords(chunks[..i + 1], schedule, n, j))
      {
        WorkerTableSnoc(chunks, schedule, n, i, j);
        if j != w {
          assert workers[j] != workers[w];
          assert workers[j].entries == old@Before(workers[j].entries);
        }
      }
      AllParseSnoc(chunks, i);
    }
    assert chunks[..|chunks|] == chunks;
    var tables := TablesOfWorkers(workers);
    TablesAre(tables, WorkerLists(chunks, schedule, n));
    var values := Reduce(tables);
    result := Some(values);
  }

  /**
   * The workers' tables, in worker order, as values: `resultMaps` read after
   * the pool is done. It bridges the worker objects to the reduce; the source
   * has no such copy.
   */
  method TablesOfWorkers(workers: seq<PartialTable>) returns (tables: seq<Table>)
    ensures |tables| == |workers|
    ensures forall j :: 0 <= j < |workers| ==> tables[j] == workers[j].entries
  {
    tables := [];
    for w := 0 to |workers|
      invariant |tables| == w
      invariant forall j :: 0 <= j < w ==> tables[j] == workers[j].entries
    {
      tables := tables + [workers[w].entries];
    }
  }

  /** `make(map[int64]*ValuesV3)` for each of the n workers: n distinct, empty tables. */
  method StartWorkers(n: nat) returns (workers: seq<PartialTable>)
    ensures |workers| == n
    ensures forall j :: 0 <= j < n ==> fresh(workers[j]) && workers[j].Valid() && workers[j].entries == map[]
    ensures forall j, k :: 0 <= j < k < n ==> workers[j] != workers[k]
  {
    workers := [];
    for w := 0 to n
      invariant |workers| == w
      invariant forall j :: 0 <= j < w ==> fresh(workers[j]) && workers[j].Valid() && workers[j].entries == map[]
      invariant forall j, k :: 0 <= j < k < w ==> workers[j] != workers[k]
    {
      var t := new PartialTable();
      workers := workers + [t];
    }
  }

  /** Observing a + b is observing a, then b. */
  lemma {:induction false} ObserveAllAppend(t: Table, a: seq<Record>, b: seq<Record>)
    ensures ObserveAll(t, a + b) == ObserveAll(ObserveAll(t, a), b)
    decreases |b|
  {
    if b == [] {
      assert a + b == a;
    } else {
      var b', r := b[..|b| - 1], b[|b| - 1];
      calc {
        ObserveAll(t, a + b);
      ==  { assert a + b == (a + b') + [r]; ObserveAllSnoc(t, a + b', r); }
        Observed(ObserveAll(t, a + b'), r.key, r.value);
      ==  { ObserveAllAppend(t, a, b'); }
        Observed(ObserveAll(ObserveAll(t, a), b'), r.key, r.value);
      ==  { assert b == b' + [r]; ObserveAllSnoc(ObserveAll(t, a), b', r); }
        ObserveAll(ObserveAll(t, a), b);
      }
    }
  }

  /** One more chunk adds its records to the worker it is sent to and to no other. */
  lemma WorkerRecordsSnoc(chunks: seq<seq<byte>>, schedule: nat -> nat, n: nat, i: nat, w: nat)
    requires n >= 1 && i < |chunks|
    ensures WorkerRecords(chunks[..i + 1], schedule, n, w) ==
              WorkerRecords(chunks[..i], schedule, n, w) + (if schedule(i) % n == w then RecordsOf(chunks[i]) else [])
  {
    assert chunks[..i + 1][..i] == chunks[..i];
  }

  /** A parsed chunk is observed by the worker it is sent to; the other tables stay as they are. */
  lemma WorkerTableSnoc(chunks: seq<seq<byte>>, schedule: nat -> nat, n: nat, i: nat, j: nat)
    requires n >= 1 && i < |chunks|
    ensures TableOf(WorkerRecords(chunks[..i + 1], schedule, n, j)) ==
              if schedule(i) % n == j then ObserveAll(TableOf(WorkerRecords(chunks[..i], schedule, n, j)), RecordsOf(chunks[i]))
              else TableOf(WorkerRecords(chunks[..i], schedule, n, j))
  {
    var before := WorkerRecords(chunks[..i], schedule, n, j);
    WorkerRecordsSnoc(chunks, schedule, n, i, j);
    if schedule(i) % n == j {
      ObserveAllAppend(map[], before, RecordsOf(chunks[i]));
    } else {
      assert before + [] == before;
    }
  }

  /** One more chunk that parses keeps every chunk parsing. */
  lemma AllParseSnoc(chunks: seq<seq<byte>>, i: nat)
    requires i < |chunks| && AllParse(chunks[..i]) && ChunkRecords(chunks[i]).Some?
    ensures AllParse(chunks[..i + 1])
  {
    var prefix := chunks[..i + 1];
    forall k | 0 <= k < |prefix|
      ensures ChunkRecords(prefix[k]).Some?
    {
      if k < i {
        assert prefix[k] == chunks[..i][k];
      }
    }
  }

  /** The tables of the record lists, one by one. */
  lemma TablesAre(tables: seq<Table>, rss: seq<seq<Record>>)
    requires |tables| == |rss|
    requires forall j :: 0 <= j < |rss| ==> tables[j] == TableOf(rss[j])
    ensures tables == TablesOf(rss)
  {
    forall j | 0 <= j < |rss|
      ensures tables[j] == TablesOf(rss)[j]
    {
      TablesOfIndex(rss, j);
    }
  }

  /** The j-th table is the table of the j-th record list. */
  lemma {:induction false} TablesOfIndex(rss: seq<seq<Record>>, j: nat)
    requires j < |rss|
    ensures TablesOf(rss)[j] == TableOf(rss[j])
    decreases |rss|
  {
    if j < |rss| - 1 {
      TablesOfIndex(rss[..|rss| - 1], j);
    }
  }

  /******** The partition: workers see all records between them ********/

  /** Appending R to the w-th list adds R to the records of all lists. */
  lemma {:induction false} FlattenUpdate(rss: seq<seq<Record>>, w: nat, extra: seq<Record>)
    requires w < |rss|
    ensures multiset(Flatten(rss[w := rss[w] + extra])) == multiset(Flatten(rss)) + multiset(extra)
    decreases |rss|
  {
    var rss' := rss[w := rss[w] + extra];
    var init, init' := rss[..|rss| - 1], rss'[..|rss'| - 1];
    if w == |rss| - 1 {
      assert init' == init;
    } else {
      assert init' == init[w := init[w] + extra];
      FlattenUpdate(init, w, extra);
    }
  }

  /** Sending chunk i to worker `schedule(i) % n` extends that worker's list. */
  lemma WorkerListsSnoc(chunks: seq<seq<byte>>, schedule: nat -> nat, n: nat, i: nat)
    requires n >= 1 && i < |chunks|
    ensures var w := schedule(i) % n;
            WorkerLists(chunks[..i + 1], schedule, n) ==
              WorkerLists(chunks[..i], schedule, n)[w := WorkerLists(chunks[..i], schedule, n)[w] + RecordsOf(chunks[i])]
  {
    var w := schedule(i) % n;
    var before := WorkerLists(chunks[..i], schedule, n);
    var after := WorkerLists(chunks[..i + 1], schedule, n);
    forall j | 0 <= j < n
      ensures after[j] == before[w := before[w] + RecordsOf(chunks[i])][j]
    {
      WorkerRecordsSnoc(chunks, schedule, n, i, j);
      if j != w {
        assert before[j] + [] == before[j];
      }
    }
  }

  /** The records of all chunks, one more chunk at the end. */
  lemma {:induction false} AllRecordsSnoc(chunks: seq<seq<byte>>, c: seq<byte>)
    ensures AllRecords(chunks + [c]) == AllRecords(chunks) + RecordsOf(c)
    decreases |chunks|
  {
    if chunks == [] {
      assert AllRecords([c]) == RecordsOf(c) + AllRecords([]);
    } else {
      assert (chunks + [c])[1..] == chunks[1..] + [c];
      AllRecordsSnoc(chunks[1..], c);
    }
  }

  /** Between them the workers see exactly the records of the stream, each once. */
  lemma {:induction false} Partition(chunks: seq<seq<byte>>, schedule: nat -> nat, n: nat)
    requires n >= 1
    ensures multiset(Flatten(WorkerLists(chunks, schedule, n))) == multiset(AllRecords(chunks))
    decreases |chunks|
  {
    if chunks == [] {
      var rss := WorkerLists(chunks, schedule, n);
      FlattenEmpty(rss);
    } else {
      var i := |chunks| - 1;
      var init := chunks[..i];
      Partition(init, schedule, n);
      WorkerListsSnoc(chunks, schedule, n, i);
      AllRecordsSnoc(init, chunks[i]);
      LastSplit(chunks);
      PartitionStep(WorkerLists(init, schedule, n), WorkerLists(chunks, schedule, n), schedule(i) % n,
                    RecordsOf(chunks[i]), AllRecords(init), AllRecords(chunks));
    }
  }

  /** Proof helper: a non-empty sequence is its prefix and its last element. */
  lemma LastSplit<T>(s: seq<T>)
    requires s != []
    ensures s[..|s| - 1 + 1] == s && s[..|s| - 1] + [s[|s| - 1]] == s
  {
  }

  /** The partition invariant survives sending one more chunk's records to worker w. */
  lemma PartitionStep(before: seq<seq<Record>>, after: seq<seq<Record>>, w: nat, extra: seq<Record>,
                      seen: seq<Record>, seen': seq<Record>)
    requires w < |before| && after == before[w := before[w] + extra] && seen' == seen + extra
    requires multiset(Flatten(before)) == multiset(seen)
    ensures multiset(Flatten(after)) == multiset(seen')
  {
    FlattenUpdate(before, w, extra);
  }

  /** Lists that are all empty flatten to nothing. */
  lemma {:induction false} FlattenEmpty(rss: seq<seq<Record>>)
    requires forall j :: 0 <= j < |rss| ==> rss[j] == []
    ensures Flatten(rss) == []
    decreases |rss|
  {
    if rss != [] {
      FlattenEmpty(rss[..|rss| - 1]);
    }
  }

  /******** Order does not matter for Min, Max and Sum ********/

  /**
   * The last element of a sits somewhere in its reordering b; without it,
   * a is a reordering of b without it.
   */
  lemma Locate<T>(a: seq<T>, b: seq<T>) returns (j: nat)
    requires a != [] && multiset(a) == multiset(b)
    ensures j < |b| && b[j] == a[|a| - 1]
    ensures a == a[..|a| - 1] + [a[|a| - 1]]
    ensures b == b[..j] + [b[j]] + b[j + 1..]
    ensures multiset(a[..|a| - 1]) == multiset(b[..j] + b[j + 1..])
  {
    var x := a[|a| - 1];
    assert x in multiset(b);
    j :| 0 <= j < |b| && b[j] == x;
    assert a == a[..|a| - 1] + [x];
    assert b == b[..j] + [x] + b[j + 1..];
    assert multiset(a) == multiset(a[..|a| - 1]) + multiset{x};
    assert multiset(b) == multiset(b[..j]) + multiset{x} + multiset(b[j + 1..]);
    assert multiset(b[..j] + b[j + 1..]) == multiset(b[..j]) + multiset(b[j + 1..]);
    assert multiset(a[..|a| - 1]) == multiset(a) - multiset{x};
  }

  /** A sequence with the same multiset as nothing is empty. */
  lemma EmptyPerm<T>(a: seq<T>, b: seq<T>)
    requires a == [] && multiset(a) == multiset(b)
    ensures b == []
  {
    assert |b| == |multiset(b)| == 0;
  }

  /** Putting x back in the middle or at the end gives the same multiset. */
  lemma InsertBack<T>(a: seq<T>, l: seq<T>, x: seq<T>, r: seq<T>)
    requires multiset(a) == multiset(l + r)
    ensures multiset(a + x) == multiset(l + x + r)
  {
  }

  /** Reordering the records reorders the values seen under each fingerprint. */
  lemma {:induction false} ValuesOfPerm(a: seq<Record>, b: seq<Record>, fp: int)
    requires multiset(a) == multiset(b)
    ensures multiset(ValuesOf(a, fp)) == multiset(ValuesOf(b, fp))
    decreases |a|
  {
    if a == [] {
      EmptyPerm(a, b);
    } else {
      var j := Locate(a, b);
      var a', l, x, r := a[..|a| - 1], b[..j], [b[j]], b[j + 1..];
      ValuesOfPerm(a', l + r, fp);
      ValuesOfAppend(l, r, fp);
      ValuesOfAppend(l, x, fp);
      ValuesOfAppend(l + x, r, fp);
      ValuesOfAppend(a', x, fp);
      InsertBack(ValuesOf(a', fp), ValuesOf(l, fp), ValuesOf(x, fp), ValuesOf(r, fp));
    }
  }

  /** Reordering values keeps their total. */
  lemma {:induction false} SumOfPerm(a: seq<int32>, b: seq<int32>)
    requires multiset(a) == multiset(b)
    ensures SumOf(a) == SumOf(b)
    decreases |a|
  {
    if a == [] {
      EmptyPerm(a, b);
    } else {
      var j := Locate(a, b);
      var a', l, x, r := a[..|a| - 1], b[..j], [b[j]], b[j + 1..];
      SumOfPerm(a', l + r);
      SumOfAppend(l, r);
      SumOfAppend(l, x);
      SumOfAppend(l + x, r);
      SumOfAppend(a', x);
    }
  }

  lemma MinOfPerm(a: seq<int32>, b: seq<int32>)
    requires a != [] && b != [] && multiset(a) == multiset(b)
    ensures MinOf(a) == MinOf(b)
  {
    MinOfIsLeast(a);
    MinOfIsLeast(b);
    assert MinOf(a) in multiset(b) && MinOf(b) in multiset(a);
  }

  lemma MaxOfPerm(a: seq<int32>, b: seq<int32>)
    requires a != [] && b != [] && multiset(a) == multiset(b)
    ensures MaxOf(a) == MaxOf(b)
  {
    MaxOfIsGreatest(a);
    MaxOfIsGreatest(b);
    assert MaxOf(a) in multiset(b) && MaxOf(b) in multiset(a);
  }

  /** A summary depends only on which values were seen, not on their order. */
  lemma SummaryPerm(city: seq<byte>, a: seq<int32>, b: seq<int32>, holders: int)
    requires a != [] && multiset(a) == multiset(b)
    ensures b != [] && Summary(city, a, holders) == Summary(city, b, holders)
  {
    PermLength(a, b);
    MinOfPerm(a, b);
    MaxOfPerm(a, b);
    SumOfPerm(a, b);
  }

  /** Someone who saw fp holds it. */
  lemma {:induction false} HoldersPositive(rss: seq<seq<Record>>, fp: int)
    requires ValuesOf(Flatten(rss), fp) != []
    ensures 1 <= Holders(rss, fp)
  {
    HoldersNone(rss, fp);
  }

  /******** The result of a run ********/

  /**
   * Whatever the schedule: the table holds exactly the fingerprints of the
   * stream's records, and each entry is the summary of all values seen
   * under its fingerprint (Min, Max, Sum over all of them, Count their
   * number less the number of workers that saw it, each worker table
   * starting its Count at 0), under a City that is a key of the stream with
   * that fingerprint.
   */
  lemma RunSummarises(chunks: seq<seq<byte>>, schedule: nat -> nat, n: nat, fp: int)
    requires n >= 1 && AllParse(chunks)
    ensures var values, rs := Outcome(chunks, schedule, n).value, AllRecords(chunks);
            fp in values <==> ValuesOf(rs, fp) != []
    ensures var values, rs := Outcome(chunks, schedule, n).value, AllRecords(chunks);
            var holders := Holders(WorkerLists(chunks, schedule, n), fp);
            fp in values ==>
              values[fp] == Summary(values[fp].city, ValuesOf(rs, fp), holders) && 1 <= holders <= n
    ensures var values, rs := Outcome(chunks, schedule, n).value, AllRecords(chunks);
            fp in values ==>
              Fingerprint(values[fp].city) == fp && exists i :: 0 <= i < |rs| && rs[i].key == values[fp].city
  {
    var rss := WorkerLists(chunks, schedule, n);
    Partition(chunks, schedule, n);
    SummaryTransfer(rss, AllRecords(chunks), fp);
  }

  /** The reduced table keeps the invariant of every worker table. */
  lemma OutcomeWellKeyed(chunks: seq<seq<byte>>, schedule: nat -> nat, n: nat)
    requires n >= 1 && Outcome(chunks, schedule, n).Some?
    ensures WellKeyed(Outcome(chunks, schedule, n).value)
  {
    var rss := WorkerLists(chunks, schedule, n);
    forall j | 0 <= j < |rss|
      ensures WellKeyed(TablesOf(rss)[j])
    {
      TablesOfIndex(rss, j);
      ObserveAllWellKeyed(map[], rss[j]);
    }
    MergeAllWellKeyed(TablesOf(rss));
  }

  /** The summary of the workers' records, restated for any reordering rs of them. */
  lemma SummaryTransfer(rss: seq<seq<Record>>, rs: seq<Record>, fp: int)
    requires multiset(Flatten(rss)) == multiset(rs)
    ensures var values := MergeAll(TablesOf(rss));
            fp in values <==> ValuesOf(rs, fp) != []
    ensures var values := MergeAll(TablesOf(rss));
            fp in values ==>
              values[fp] == Summary(values[fp].city, ValuesOf(rs, fp), Holders(rss, fp)) &&
              1 <= Holders(rss, fp) <= |rss|
    ensures var values := MergeAll(TablesOf(rss));
            fp in values ==>
              Fingerprint(values[fp].city) == fp && exists i :: 0 <= i < |rs| && rs[i].key == values[fp].city
  {
    var flat := Flatten(rss);
    var values := MergeAll(TablesOf(rss));
    MergeAllSummary(rss, fp);
    ValuesOfPerm(flat, rs, fp);
    var vf, vr := ValuesOf(flat, fp), ValuesOf(rs, fp);
    PermLength(vf, vr);
    if vf != [] {
      var holders := Holders(rss, fp);
      var city := FirstKey(flat, fp);
      assert values[fp] == Summary(city, vf, holders);
      SummaryPerm(city, vf, vr, holders);
      HoldersPositive(rss, fp);
      var i :| 0 <= i < |flat| && flat[i].key == city;
      assert flat[i] in multiset(rs);
      var k :| 0 <= k < |rs| && rs[k] == flat[i];
    }
  }

  /** Min, Max and Sum do not depend on which worker gets which chunk. */
  lemma ScheduleIndependent(chunks: seq<seq<byte>>, s1: nat -> nat, s2: nat -> nat, n1: nat, n2: nat)
    requires n1 >= 1 && n2 >= 1
    ensures Outcome(chunks, s1, n1).Some? <==> Outcome(chunks, s2, n2).Some?
    ensures Outcome(chunks, s1, n1).Some? ==>
              var v1, v2 := Outcome(chunks, s1, n1).value, Outcome(chunks, s2, n2).value;
              v1.Keys == v2.Keys &&
              forall fp :: fp in v1 ==>
                v1[fp].min == v2[fp].min && v1[fp].max == v2[fp].max && v1[fp].sum == v2[fp].sum
  {
    if AllParse(chunks) {
      var v1, v2 := Outcome(chunks, s1, n1).value, Outcome(chunks, s2, n2).value;
      forall fp
        ensures fp in v1 <==> fp in v2
        ensures fp in v1 ==> v1[fp].min == v2[fp].min && v1[fp].max == v2[fp].max && v1[fp].sum == v2[fp].sum
      {
        RunSummarises(chunks, s1, n1, fp);
        RunSummarises(chunks, s2, n2, fp);
        if fp in v1 {
          var vs := ValuesOf(AllRecords(chunks), fp);
          assert v1[fp] == Summary(v1[fp].city, vs, Holders(WorkerLists(chunks, s1, n1), fp));
          assert v2[fp] == Summary(v2[fp].city, vs, Holders(WorkerLists(chunks, s2, n2), fp));
        }
      }
      SameKeys(v1, v2);
    }
  }

  /** Maps with the same keys have equal key sets. */
  lemma SameKeys<K, V>(a: map<K, V>, b: map<K, V>)
    requires forall k :: k in a <==> k in b
    ensures a.Keys == b.Keys
  {
  }

  /**
   * With a single worker, every entry is the summary of its values with one
   * holder: Count is exactly one less than the number of values.
   */
  lemma SingleWorkerCount(chunks: seq<seq<byte>>, schedule: nat -> nat, fp: int)
    requires AllParse(chunks) && ValuesOf(AllRecords(chunks), fp) != []
    ensures var values := Outcome(chunks, schedule, 1).value;
            fp in values && values[fp] == Summary(values[fp].city, ValuesOf(AllRecords(chunks), fp), 1)
  {
    RunSummarises(chunks, schedule, 1, fp);
    assert Holders(WorkerLists(chunks, schedule, 1), fp) == 1;
  }

  /******** From the byte stream ********/

  /** A worker panics somewhere exactly when some line of some chunk is malformed. */
  lemma {:induction false} ChunksParse(chunks: seq<seq<byte>>)
    ensures AllParse(chunks) <==> ParseLines(AllLines(chunks)).Some?
    ensures AllParse(chunks) ==> ParseLines(AllLines(chunks)).value == AllRecords(chunks)
    decreases |chunks|
  {
    if chunks != [] {
      ChunksParse(chunks[1..]);
      ParseLinesAppend(Split(chunks[0], NL), AllLines(chunks[1..]));
      AllParseCons(chunks);
    }
  }

  /** Every chunk parses: the first one and every later one. */
  lemma AllParseCons(chunks: seq<seq<byte>>)
    requires chunks != []
    ensures AllParse(chunks) <==> ChunkRecords(chunks[0]).Some? && AllParse(chunks[1..])
  {
    if ChunkRecords(chunks[0]).Some? && AllParse(chunks[1..]) {
      forall i | 0 <= i < |chunks|
        ensures ChunkRecords(chunks[i]).Some?
      {
        if i > 0 {
          assert chunks[i] == chunks[1..][i - 1];
        }
      }
    }
    if AllParse(chunks) {
      forall i | 0 <= i < |chunks| - 1
        ensures ChunkRecords(chunks[1..][i]).Some?
      {
        assert chunks[1..][i] == chunks[i + 1];
      }
    }
  }

  /**
   * The program on a whole stream: it succeeds exactly when every line the
   * workers see parses, and those lines are the stream's newline-separated
   * lines, except that a stream ending exactly on a chunk boundary loses the
   * empty line after its final newline.
   */
  lemma StreamRun(stream: seq<byte>, schedule: nat -> nat, n: nat)
    requires n >= 1
    ensures var chunks := ChunksOf(stream, LINES_PER_CHUNK);
            Outcome(chunks, schedule, n).Some? <==> ParseLines(AllLines(chunks)).Some?
    ensures var chunks := ChunksOf(stream, LINES_PER_CHUNK);
            AllParse(chunks) ==> AllRecords(chunks) == ParseLines(AllLines(chunks)).value
    ensures stream != [] ==>
              Split(stream, NL) == AllLines(ChunksOf(stream, LINES_PER_CHUNK)) +
                                   (if EndsOnBoundary(stream, LINES_PER_CHUNK) then [[]] else [])
  {
    ChunksParse(ChunksOf(stream, LINES_PER_CHUNK));
    if stream != [] {
      LinesAccounted(stream, LINES_PER_CHUNK);
    }
  }

  /**
   * A stream whose last byte is a newline that does not complete a chunk of
   * 1000 lines ends in an empty line, which has no `;`: the run fails.
   */
  lemma TrailingNewlineFails(stream: seq<byte>, schedule: nat -> nat, n: nat)
    requires n >= 1
    requires stream != [] && stream[|stream| - 1] == NL && Count(stream, NL) % LINES_PER_CHUNK != 0
    ensures Outcome(ChunksOf(stream, LINES_PER_CHUNK), schedule, n) == None
  {
    var chunks := ChunksOf(stream, LINES_PER_CHUNK);
    TrailingNewlineEmptyLine(stream, LINES_PER_CHUNK);
    var lines := AllLines(chunks);
    NoSeparatorFails(lines[|lines| - 1]);
    ChunksParse(chunks);
  }
}

/**
 * Rows of MasterCompositeWorkDone for one composite, as values, and what a synchronisation does to them: a report adds
 * curves row by row, a replacement puts the master's totals in place of the slave's rows.
 */
module CurveTables {

  /** The names of the factoring methods. */
  const ECM: string := "ECM"
  const PM1: string := "P-1"
  const PP1: string := "P+1"

  /** The primary key within one composite. */
  datatype Key = Key(factorMethod: string, b1: int)

  /** LocalCurves and CurvesSinceLastReport. */
  datatype Row = Row(local: int, since: int)

  type Table = map<Key, Row>

  /** Curves per key, as they are sent between servers. */
  type Counts = map<Key, int>

  /**
   * A row of work; a message about composites or factors, which the receiver can handle or not and which leaves the
   * rows of work alone; the end; or something that the receiver does not understand.
   */
  datatype SyncMessage = Work(key: Key, curves: int) | Detail(handled: bool) | EndOfComposite | Other

  function Local(t: Table, k: Key): int {
    if k in t then t[k].local else 0
  }

  function Since(t: Table, k: Key): int {
    if k in t then t[k].since else 0
  }

  function Count(c: Counts, k: Key): int {
    if k in c then c[k] else 0
  }

  /** The upsert of AddWorkDone. */
  function AddWork(t: Table, k: Key, n: int): Table {
    t[k := Row(Local(t, k) + n, Since(t, k) + n)]
  }

  /** What SendWorkToMaster selects. */
  function Pending(t: Table): Counts {
    map k | k in t && t[k].since > 0 :: t[k].since
  }

  /** What SendWorkToMaster leaves behind in its transaction. */
  function Reported(t: Table): Table {
    map k | k in t :: if t[k].since > 0 then Row(t[k].local, 0) else t[k]
  }

  /** The master's rows after a whole report. */
  function Merged(t: Table, report: Counts): Table {
    map k | k in t.Keys + report.Keys :: Row(Local(t, k) + Count(report, k), Since(t, k) + Count(report, k))
  }

  /** What SendWorkToSlave selects. */
  function Totals(t: Table): Counts {
    map k | k in t :: t[k].local
  }

  /** The slave's rows after it has deleted its own and inserted those of the master. */
  function Installed(rows: Counts): Table {
    map k | k in rows :: Row(rows[k], 0)
  }

  lemma AddWorkCounts(t: Table, k: Key, n: int, q: Key)
    ensures Local(AddWork(t, k, n), q) == Local(t, q) + (if q == k then n else 0)
    ensures Since(AddWork(t, k, n), q) == Since(t, q) + (if q == k then n else 0)
  {
  }

  lemma MergedCounts(t: Table, report: Counts, q: Key)
    ensures Local(Merged(t, report), q) == Local(t, q) + Count(report, q)
    ensures Since(Merged(t, report), q) == Since(t, q) + Count(report, q)
  {
  }

  /** A report misses nothing but rows that count below zero. */
  lemma PendingCounts(t: Table, q: Key)
    ensures Count(Pending(t), q) == if Since(t, q) > 0 then Since(t, q) else 0
  {
  }

  lemma InstalledCounts(t: Table, q: Key)
    ensures Local(Installed(Totals(t)), q) == Local(t, q) && Since(Installed(Totals(t)), q) == 0
  {
  }

  // ---------------------------------------------------------------- streams of work messages

  predicate Understood(m: SyncMessage) {
    m.Work? || (m.Detail? && m.handled)
  }

  /** The rows of work among the messages. */
  function Works(msgs: seq<SyncMessage>): (w: seq<SyncMessage>)
    ensures forall i :: 0 <= i < |w| ==> w[i].Work?
  {
    if |msgs| == 0 then []
    else Works(msgs[..|msgs| - 1]) + (if msgs[|msgs| - 1].Work? then [msgs[|msgs| - 1]] else [])
  }

  lemma {:induction false} OnlyWorks(msgs: seq<SyncMessage>)
    requires forall i :: 0 <= i < |msgs| ==> msgs[i].Work?
    ensures Works(msgs) == msgs
  {
    if |msgs| > 0 {
      OnlyWorks(msgs[..|msgs| - 1]);
    }
  }

  lemma WorksOneMore(msgs: seq<SyncMessage>, i: nat)
    requires i < |msgs|
    ensures msgs[i].Work? ==> Works(msgs[..i + 1]) == Works(msgs[..i]) + [msgs[i]]
    ensures !msgs[i].Work? ==> Works(msgs[..i + 1]) == Works(msgs[..i])
  {
    assert msgs[..i + 1][..i] == msgs[..i];
  }

  /** Every key at most once. */
  predicate Distinct(msgs: seq<SyncMessage>) {
    && (forall i :: 0 <= i < |msgs| ==> msgs[i].Work?)
    && forall i, j :: 0 <= i < j < |msgs| ==> msgs[i].key != msgs[j].key
  }

  /** The counts that the work messages carry. */
  function Carried(msgs: seq<SyncMessage>): Counts
    requires Distinct(msgs)
  {
    if |msgs| == 0 then map[]
    else
      var last := msgs[|msgs| - 1];
      Carried(msgs[..|msgs| - 1])[last.key := last.curves]
  }

  lemma {:induction false} CarriedKeys(msgs: seq<SyncMessage>)
    requires Distinct(msgs)
    ensures forall k :: k in Carried(msgs) <==> exists i :: 0 <= i < |msgs| && msgs[i].key == k
  {
    if |msgs| > 0 {
      var front, last := msgs[..|msgs| - 1], msgs[|msgs| - 1];
      CarriedKeys(front);
      forall k
        ensures k in Carried(msgs) <==> exists i :: 0 <= i < |msgs| && msgs[i].key == k
      {
        if k in Carried(front) {
          var i :| 0 <= i < |front| && front[i].key == k;
          assert msgs[i].key == k;
        }
        assert msgs[|msgs| - 1] == last;
        if i :| 0 <= i < |msgs| && msgs[i].key == k {
          assert i < |front| ==> front[i].key == k;
        }
      }
    }
  }

  /** The loop of the master over the work messages of a slave. */
  function Applied(t: Table, msgs: seq<SyncMessage>): Table
    requires forall i :: 0 <= i < |msgs| ==> msgs[i].Work?
  {
    if |msgs| == 0 then t
    else AddWork(Applied(t, msgs[..|msgs| - 1]), msgs[|msgs| - 1].key, msgs[|msgs| - 1].curves)
  }

  /** In whatever order the rows arrive, the loop merges the report. */
  lemma {:induction false} AppliedIsMerged(t: Table, msgs: seq<SyncMessage>)
    requires Distinct(msgs)
    ensures Applied(t, msgs) == Merged(t, Carried(msgs))
  {
    if |msgs| == 0 {
      assert Merged(t, map[]) == t;
    } else {
      var front, last := msgs[..|msgs| - 1], msgs[|msgs| - 1];
      AppliedIsMerged(t, front);
      CarriedKeys(front);
      MergeOneMore(t, Carried(front), last.key, last.curves);
    }
  }

  lemma MergeOneMore(t: Table, report: Counts, k: Key, n: int)
    requires k !in report
    ensures Merged(t, report[k := n]) == AddWork(Merged(t, report), k, n)
  {
  }

  /** The loop of the slave over the rows of the master: an insert that meets the primary key fails. */
  function Inserted(t: Table, msgs: seq<SyncMessage>): Table
    requires forall i :: 0 <= i < |msgs| ==> msgs[i].Work?
  {
    if |msgs| == 0 then t
    else Inserted(t, msgs[..|msgs| - 1])[msgs[|msgs| - 1].key := Row(msgs[|msgs| - 1].curves, 0)]
  }

  lemma {:induction false} InsertedIsInstalled(msgs: seq<SyncMessage>)
    requires Distinct(msgs)
    ensures Inserted(map[], msgs) == Installed(Carried(msgs))
  {
    if |msgs| > 0 {
      InsertedIsInstalled(msgs[..|msgs| - 1]);
      assert Installed(Carried(msgs))
          == Installed(Carried(msgs[..|msgs| - 1]))[msgs[|msgs| - 1].key := Row(msgs[|msgs| - 1].curves, 0)];
    }
  }

  // ---------------------------------------------------------------- total work

  /** The work in ECM rows: curves weighted by their bound. */
  function RowWork(t: Table, k: Key, ecm: string): int {
    if k.factorMethod == ecm then Local(t, k) * k.b1 else 0
  }

  ghost function SumOver(t: Table, keys: set<Key>, ecm: string): int
    decreases keys
  {
    if keys == {} then 0
    else
      var k :| k in keys;
      RowWork(t, k, ecm) + SumOver(t, keys - {k}, ecm)
  }

  /** The sum that FinalizeChanges stores as TotalWorkDone. */
  ghost function TotalWork(t: Table, ecm: string): int {
    SumOver(t, t.Keys, ecm)
  }

  /** The sum does not depend on the order of the rows. */
  lemma {:induction false} SumSplits(t: Table, keys: set<Key>, k: Key, ecm: string)
    requires k in keys
    ensures SumOver(t, keys, ecm) == RowWork(t, k, ecm) + SumOver(t, keys - {k}, ecm)
    decreases keys
  {
    hide RowWork;
    var j :| j in keys && SumOver(t, keys, ecm) == RowWork(t, j, ecm) + SumOver(t, keys - {j}, ecm);
    if j != k {
      SumSplits(t, keys - {j}, k, ecm);
      SumSplits(t, keys - {k}, j, ecm);
      assert keys - {j} - {k} == keys - {k} - {j};
    }
  }

  lemma {:induction false} SumAgrees(t: Table, u: Table, keys: set<Key>, ecm: string)
    requires forall k :: k in keys ==> RowWork(t, k, ecm) == RowWork(u, k, ecm)
    ensures SumOver(t, keys, ecm) == SumOver(u, keys, ecm)
    decreases keys
  {
    hide RowWork;
    if keys != {} {
      var k :| k in keys && SumOver(t, keys, ecm) == RowWork(t, k, ecm) + SumOver(t, keys - {k}, ecm);
      SumSplits(u, keys, k, ecm);
      SumAgrees(t, u, keys - {k}, ecm);
    }
  }

  /** Returning n curves adds n times their bound, and nothing when the method is not ECM. */
  lemma AddWorkTotals(t: Table, k: Key, n: int, ecm: string)
    ensures TotalWork(AddWork(t, k, n), ecm) == TotalWork(t, ecm) + (if k.factorMethod == ecm then n * k.b1 else 0)
  {
    var u, rest := AddWork(t, k, n), t.Keys - {k};
    assert u.Keys - {k} == rest;
    SumSplits(u, u.Keys, k, ecm);
    SumAgrees(t, u, rest, ecm);
    AddWorkRow(t, k, n, ecm);
    hide RowWork;
    if k in t {
      SumSplits(t, t.Keys, k, ecm);
    } else {
      assert rest == t.Keys;
    }
  }

  lemma AddWorkRow(t: Table, k: Key, n: int, ecm: string)
    ensures RowWork(AddWork(t, k, n), k, ecm) == RowWork(t, k, ecm) + (if k.factorMethod == ecm then n * k.b1 else 0)
    ensures k !in t ==> RowWork(t, k, ecm) == 0
  {
    assert (Local(t, k) + n) * k.b1 == Local(t, k) * k.b1 + n * k.b1;
  }
}

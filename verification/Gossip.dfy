/** Any number of nodes exchange the rows of their statistics matrices. A node writes only its own
    rows; all other rows it knows from reports. Reports may be lost, doubled, delayed and reordered,
    may hold any selection of the sender's rows, and are merged by version. */
module Gossip {
  import opened StatRow
  import opened StatMessage

  /** One row: what the writer reports about a message. */
  datatype Key = Key(message: string, writer: NodeId)
  type Replica = map<Key, View>
  type Report = map<Key, Row>

  /** written holds the rows the writer has had, in order; sent the reports that may still arrive. */
  datatype Net = Net(replicas: map<NodeId, Replica>, written: map<Key, seq<Row>>, sent: set<Report>)

  datatype Step =
    | Observation(key: Key, bin: nat, value: int)
    | Send(from: NodeId, report: Report)
    | Deliver(to: NodeId, report: Report)

  /** The node exists, sends what it has and receives what was sent. */
  ghost predicate Possible(net: Net, step: Step) {
    match step
    case Observation(key, _, _) => key.writer in net.replicas
    case Send(from, report) =>
      && from in net.replicas
      && forall k :: k in report ==> k in net.replicas[from] && report[k] == net.replicas[from][k].row
    case Deliver(to, report) =>
      to in net.replicas && report in net.sent
  }

  /** And the bins of one row never go down. */
  ghost predicate Enabled(net: Net, axeLength: nat, step: Step)
    ensures Enabled(net, axeLength, step) ==> Possible(net, step)
  {
    && Possible(net, step)
    && (step.Observation? ==>
          var p := net.replicas[step.key.writer];
          step.bin <= axeLength && (step.key in p ==> p[step.key].row.version <= step.bin))
  }

  ghost function Noted(p: Replica, axeLength: nat, key: Key, bin: nat, value: int): View {
    if key in p then SetBin(p[key], bin, value, false) else FirstBin(axeLength, bin, value)
  }

  /** The row of a report at a node that may know the row already. */
  ghost function Heard(p: Replica, axeLength: nat, k: Key, r: Row): View {
    if k in p then Merge(p[k], r) else TakeReport(Blank(axeLength), r)
  }

  ghost function Merged(p: Replica, axeLength: nat, report: Report): Replica {
    map k | k in p.Keys + report.Keys :: if k in report then Heard(p, axeLength, k, report[k]) else p[k]
  }

  ghost function Next(net: Net, axeLength: nat, step: Step): Net
    requires Possible(net, step)
  {
    match step
    case Observation(key, bin, value) =>
      var v := Noted(net.replicas[key.writer], axeLength, key, bin, value);
      net.(replicas := net.replicas[key.writer := net.replicas[key.writer][key := v]],
           written := net.written[key := if key in net.written then net.written[key] + [v.row] else [v.row]])
    case Send(from, report) =>
      net.(sent := net.sent + {report})
    case Deliver(to, report) =>
      net.(replicas := net.replicas[to := Merged(net.replicas[to], axeLength, report)])
  }

  /** Nobody knows anything. */
  ghost function Start(nodes: set<NodeId>): Net {
    Net(map n | n in nodes :: map[], map[], {})
  }

  /** Any steps that are possible, whatever the bins. */
  ghost predicate IsTrace(nodes: set<NodeId>, axeLength: nat, steps: seq<Step>)
    decreases |steps|, 0
  {
    steps == [] ||
    var before := steps[..|steps| - 1];
    IsTrace(nodes, axeLength, before) && Possible(After(nodes, axeLength, before), steps[|steps| - 1])
  }

  ghost function After(nodes: set<NodeId>, axeLength: nat, steps: seq<Step>): Net
    requires IsTrace(nodes, axeLength, steps)
    decreases |steps|, 1
  {
    if steps == [] then Start(nodes)
    else Next(After(nodes, axeLength, steps[..|steps| - 1]), axeLength, steps[|steps| - 1])
  }

  ghost predicate IsRun(nodes: set<NodeId>, axeLength: nat, steps: seq<Step>)
    ensures IsRun(nodes, axeLength, steps) ==> IsTrace(nodes, axeLength, steps)
    decreases |steps|
  {
    steps == [] ||
    var before := steps[..|steps| - 1];
    IsRun(nodes, axeLength, before) && Enabled(After(nodes, axeLength, before), axeLength, steps[|steps| - 1])
  }

  // -------- what every state keeps --------

  type Written = map<Key, seq<Row>>

  ghost predicate Known(w: Written, k: Key, r: Row) {
    k in w && r in w[k]
  }

  ghost predicate ReplicaOk(w: Written, axeLength: nat, p: Replica) {
    forall k :: k in p ==> Known(w, k, p[k].row) && ViewOk(p[k], axeLength)
  }

  ghost predicate ReportOk(w: Written, p: Report) {
    forall k :: k in p ==> Known(w, k, p[k])
  }

  /** The rows the writer has had: one start index, and none newer than its present row. */
  ghost predicate RowsOk(rows: seq<Row>, axeLength: nat, newest: int) {
    && rows != []
    && forall r :: r in rows ==> RowOk(r, axeLength) && r.start == rows[0].start && r.version <= newest
  }

  ghost predicate WrittenOk(w: Written, axeLength: nat, replicas: map<NodeId, Replica>, k: Key)
    requires k in w
  {
    && k.writer in replicas && k in replicas[k.writer]
    && RowsOk(w[k], axeLength, replicas[k.writer][k].row.version)
  }

  ghost predicate Inv(net: Net, axeLength: nat) {
    && (forall n :: n in net.replicas ==> ReplicaOk(net.written, axeLength, net.replicas[n]))
    && (forall k :: k in net.written ==> WrittenOk(net.written, axeLength, net.replicas, k))
    && (forall p :: p in net.sent ==> ReportOk(net.written, p))
  }

  /** No row is lost or goes back to an older version. */
  ghost predicate ReplicaNotOlder(p: Replica, q: Replica) {
    forall k :: k in p ==> k in q && p[k].row.version <= q[k].row.version
  }

  ghost predicate NoneOlder(before: Net, after: Net) {
    && before.replicas.Keys == after.replicas.Keys
    && forall n :: n in before.replicas ==> ReplicaNotOlder(before.replicas[n], after.replicas[n])
  }

  lemma WrittenStays(w: Written, axeLength: nat, before: map<NodeId, Replica>, after: map<NodeId, Replica>, k: Key)
    requires k in w && WrittenOk(w, axeLength, before, k)
    requires k.writer in after && ReplicaNotOlder(before[k.writer], after[k.writer])
    ensures WrittenOk(w, axeLength, after, k)
  {
    hide RowOk;
  }

  /** The writer appends its new row. */
  ghost function Append(w: Written, key: Key, r: Row): Written {
    w[key := if key in w then w[key] + [r] else [r]]
  }

  lemma AppendKnows(w: Written, key: Key, r: Row)
    ensures forall k, s :: Known(Append(w, key, r), k, s) <==> Known(w, k, s) || (k == key && s == r)
  {
    assert forall s :: s in Append(w, key, r)[key] <==> (key in w && s in w[key]) || s == r;
  }

  lemma AppendKeepsReplica(w: Written, key: Key, r: Row, axeLength: nat, p: Replica)
    requires ReplicaOk(w, axeLength, p)
    ensures ReplicaOk(Append(w, key, r), axeLength, p)
  {
    hide ViewOk, Append;
    AppendKnows(w, key, r);
  }

  lemma AppendKeepsReport(w: Written, key: Key, r: Row, p: Report)
    requires ReportOk(w, p)
    ensures ReportOk(Append(w, key, r), p)
  {
    hide Append;
    AppendKnows(w, key, r);
  }

  lemma AppendRowsOk(rows: seq<Row>, axeLength: nat, newest: int, r: Row)
    requires rows != [] ==> RowsOk(rows, axeLength, newest)
    requires RowOk(r, axeLength) && newest <= r.version && (rows != [] ==> r.start == rows[0].start)
    ensures RowsOk(rows + [r], axeLength, r.version)
  {
    hide RowOk;
  }

  lemma NotedOk(net: Net, axeLength: nat, key: Key, bin: nat, value: int)
    requires Inv(net, axeLength) && Enabled(net, axeLength, Observation(key, bin, value))
    ensures
      var p := net.replicas[key.writer];
      var v := Noted(p, axeLength, key, bin, value);
      && ViewOk(v, axeLength) && RowOk(v.row, axeLength) && v.row.version == bin
      && RowsOk(Append(net.written, key, v.row)[key], axeLength, bin)
  {
    hide RowOk, ReportOk, WrittenOk;
    var p := net.replicas[key.writer];
    var v := Noted(p, axeLength, key, bin, value);
    assert ReplicaOk(net.written, axeLength, p);
    if key in net.written { WriterIn(net.written, axeLength, net.replicas, key); }
    if key in p {
      assert Known(net.written, key, p[key].row);
      SetBinOk(p[key], axeLength, bin, value);
      ViewRow(v, axeLength);
      AppendRowsOk(net.written[key], axeLength, p[key].row.version, v.row);
    } else {
      FirstBinOk(axeLength, bin, value);
      ViewRow(v, axeLength);
      AppendRowsOk([], axeLength, bin, v.row);
      assert [] + [v.row] == [v.row];
    }
  }

  lemma ViewRow(v: View, axeLength: nat)
    requires ViewOk(v, axeLength)
    ensures RowOk(v.row, axeLength)
  {
  }

  lemma ObservationKeeps(net: Net, axeLength: nat, key: Key, bin: nat, value: int)
    requires Inv(net, axeLength) && Enabled(net, axeLength, Observation(key, bin, value))
    ensures
      var next := Next(net, axeLength, Observation(key, bin, value));
      Inv(next, axeLength) && NoneOlder(net, next)
  {
    hide Noted, RowOk, ViewOk, ReplicaOk, ReportOk, RowsOk, Known;
    NotedOk(net, axeLength, key, bin, value);
    var next := Next(net, axeLength, Observation(key, bin, value));
    var p := net.replicas[key.writer];
    var v := Noted(p, axeLength, key, bin, value);
    assert next.written == Append(net.written, key, v.row);
    forall n | n in next.replicas ensures ReplicaOk(next.written, axeLength, next.replicas[n]) {
      AppendKeepsReplica(net.written, key, v.row, axeLength, net.replicas[n]);
      if n == key.writer {
        AppendKnows(net.written, key, v.row);
        ReplicaPlus(next.written, axeLength, p, key, v);
      }
    }
    assert ReplicaNotOlder(p, next.replicas[key.writer]);
    forall k | k in next.written ensures WrittenOk(next.written, axeLength, next.replicas, k) {
      if k != key {
        assert WrittenOk(net.written, axeLength, net.replicas, k);
        assert WrittenOk(next.written, axeLength, net.replicas, k);
        WrittenStays(next.written, axeLength, net.replicas, next.replicas, k);
      }
    }
    forall q | q in next.sent ensures ReportOk(next.written, q) {
      AppendKeepsReport(net.written, key, v.row, q);
    }
  }

  lemma ReplicaPlus(w: Written, axeLength: nat, p: Replica, k: Key, v: View)
    requires ReplicaOk(w, axeLength, p) && Known(w, k, v.row) && ViewOk(v, axeLength)
    ensures ReplicaOk(w, axeLength, p[k := v])
  {
    hide Known, ViewOk;
  }

  lemma SnapshotOk(w: Written, axeLength: nat, p: Replica, report: Report)
    requires ReplicaOk(w, axeLength, p)
    requires forall k :: k in report ==> k in p && report[k] == p[k].row
    ensures ReportOk(w, report)
  {
    hide Known, ViewOk;
  }

  lemma SendKeeps(net: Net, axeLength: nat, from: NodeId, report: Report)
    requires Inv(net, axeLength) && Enabled(net, axeLength, Send(from, report))
    ensures
      var next := Next(net, axeLength, Send(from, report));
      Inv(next, axeLength) && NoneOlder(net, next)
  {
    hide ReplicaOk, ReportOk, WrittenOk;
    SnapshotOk(net.written, axeLength, net.replicas[from], report);
  }

  /** A known row is merged into what a node has. */
  lemma HeardOk(w: Written, axeLength: nat, p: Replica, k: Key, r: Row, newest: int)
    requires ReplicaOk(w, axeLength, p) && Known(w, k, r) && RowsOk(w[k], axeLength, newest)
    ensures
      var v := Heard(p, axeLength, k, r);
      && ViewOk(v, axeLength) && Known(w, k, v.row)
      && (k in p ==> p[k].row.version <= v.row.version)
  {
    hide RowOk, ViewOk, TakeReport, Blank;
    if k in p {
      assert Known(w, k, p[k].row);
      MergeOk(p[k], r, axeLength);
      assert TakeReport(p[k], r).row == r by { TakenRow(p[k], r); }
    } else {
      FirstReportOk(r, axeLength);
      TakenRow(Blank(axeLength), r);
    }
  }

  lemma TakenRow(v: View, r: Row)
    ensures TakeReport(v, r).row == r
  {
  }

  lemma MergedOk(net: Net, axeLength: nat, p: Replica, report: Report)
    requires Inv(net, axeLength) && ReplicaOk(net.written, axeLength, p) && ReportOk(net.written, report)
    ensures ReplicaOk(net.written, axeLength, Merged(p, axeLength, report))
    ensures ReplicaNotOlder(p, Merged(p, axeLength, report))
  {
    hide RowsOk, ViewOk, Heard, Known;
    var w := net.written;
    var q := Merged(p, axeLength, report);
    forall k | k in report
      ensures ViewOk(q[k], axeLength) && Known(w, k, q[k].row) && (k in p ==> p[k].row.version <= q[k].row.version)
    {
      assert Known(w, k, report[k]);
      InWritten(w, k, report[k]);
      assert WrittenOk(w, axeLength, net.replicas, k);
      HeardOk(w, axeLength, p, k, report[k], net.replicas[k.writer][k].row.version);
    }
  }

  lemma InWritten(w: Written, k: Key, r: Row)
    requires Known(w, k, r)
    ensures k in w
  {
  }

  lemma DeliverKeeps(net: Net, axeLength: nat, to: NodeId, report: Report)
    requires Inv(net, axeLength) && Enabled(net, axeLength, Deliver(to, report))
    ensures
      var next := Next(net, axeLength, Deliver(to, report));
      Inv(next, axeLength) && NoneOlder(net, next)
  {
    hide RowsOk, ReplicaOk, ReportOk, WrittenOk, Merged;
    var next := Next(net, axeLength, Deliver(to, report));
    MergedOk(net, axeLength, net.replicas[to], report);
    forall n | n in net.replicas ensures ReplicaNotOlder(net.replicas[n], next.replicas[n]) {}
    forall k | k in next.written ensures WrittenOk(next.written, axeLength, next.replicas, k) {
      WriterIn(net.written, axeLength, net.replicas, k);
      WrittenStays(net.written, axeLength, net.replicas, next.replicas, k);
    }
  }

  lemma WriterIn(w: Written, axeLength: nat, replicas: map<NodeId, Replica>, k: Key)
    requires k in w && WrittenOk(w, axeLength, replicas, k)
    ensures k.writer in replicas && k in replicas[k.writer]
    ensures RowsOk(w[k], axeLength, replicas[k.writer][k].row.version)
  {
  }

  lemma StepKeeps(net: Net, axeLength: nat, step: Step)
    requires Inv(net, axeLength) && Enabled(net, axeLength, step)
    ensures Inv(Next(net, axeLength, step), axeLength) && NoneOlder(net, Next(net, axeLength, step))
  {
    hide Inv, NoneOlder, Enabled, Next;
    match step
    case Observation(key, bin, value) => ObservationKeeps(net, axeLength, key, bin, value);
    case Send(from, report) => SendKeeps(net, axeLength, from, report);
    case Deliver(to, report) => DeliverKeeps(net, axeLength, to, report);
  }

  lemma {:induction false} RunKeeps(nodes: set<NodeId>, axeLength: nat, steps: seq<Step>)
    requires IsRun(nodes, axeLength, steps)
    ensures Inv(After(nodes, axeLength, steps), axeLength)
    decreases |steps|
  {
    if steps != [] {
      RunKeeps(nodes, axeLength, steps[..|steps| - 1]);
      StepKeeps(After(nodes, axeLength, steps[..|steps| - 1]), axeLength, steps[|steps| - 1]);
    }
  }

  // -------- the main results, over runs --------

  lemma {:induction false} PrefixRuns(nodes: set<NodeId>, axeLength: nat, steps: seq<Step>, i: nat)
    requires IsRun(nodes, axeLength, steps) && i <= |steps|
    ensures IsRun(nodes, axeLength, steps[..i])
    decreases |steps|
  {
    if i < |steps| {
      PrefixRuns(nodes, axeLength, steps[..|steps| - 1], i);
      assert steps[..|steps| - 1][..i] == steps[..i];
    } else {
      assert steps[..i] == steps;
    }
  }

  /** In every run, no node ever goes back to an older version of a row, or loses it. */
  lemma {:induction false} VersionsNeverDecrease(nodes: set<NodeId>, axeLength: nat, steps: seq<Step>, i: nat)
    requires IsRun(nodes, axeLength, steps) && i <= |steps|
    ensures IsRun(nodes, axeLength, steps[..i])
    ensures NoneOlder(After(nodes, axeLength, steps[..i]), After(nodes, axeLength, steps))
    decreases |steps|
  {
    PrefixRuns(nodes, axeLength, steps, i);
    if i == |steps| {
      assert steps[..i] == steps;
    } else {
      var before := steps[..|steps| - 1];
      assert before[..i] == steps[..i];
      VersionsNeverDecrease(nodes, axeLength, before, i);
      RunKeeps(nodes, axeLength, before);
      StepKeeps(After(nodes, axeLength, before), axeLength, steps[|steps| - 1]);
    }
  }

  /** After the first j steps the writer itself had this row. */
  ghost predicate WriterHad(nodes: set<NodeId>, axeLength: nat, steps: seq<Step>, j: nat, k: Key, r: Row)
  {
    && j <= |steps| && IsRun(nodes, axeLength, steps[..j])
    && var p := After(nodes, axeLength, steps[..j]).replicas;
       k.writer in p && k in p[k.writer] && p[k.writer][k].row == r
  }

  lemma {:induction false} WrittenRowsWereHad(nodes: set<NodeId>, axeLength: nat, steps: seq<Step>, k: Key, r: Row)
    requires IsRun(nodes, axeLength, steps) && Known(After(nodes, axeLength, steps).written, k, r)
    ensures exists j: nat :: WriterHad(nodes, axeLength, steps, j, k, r)
    decreases |steps|
  {
    if steps == [] {
      assert false;
    } else {
      var n := |steps| - 1;
      var before := steps[..n];
      if Known(After(nodes, axeLength, before).written, k, r) {
        WrittenRowsWereHad(nodes, axeLength, before, k, r);
        var j: nat :| WriterHad(nodes, axeLength, before, j, k, r);
        assert before[..j] == steps[..j];
        assert WriterHad(nodes, axeLength, steps, j, k, r);
      } else {
        assert steps[..|steps|] == steps;
        assert WriterHad(nodes, axeLength, steps, |steps|, k, r);
      }
    }
  }

  /** In every run, every row a node has stored is a row its writer had at the same time or before,
      with its bits and start index, and the writer itself is not behind. */
  lemma StoredRowsAreOldRowsOfTheWriter(nodes: set<NodeId>, axeLength: nat, steps: seq<Step>, n: NodeId, k: Key)
    requires IsRun(nodes, axeLength, steps)
    requires n in After(nodes, axeLength, steps).replicas && k in After(nodes, axeLength, steps).replicas[n]
    ensures
      var p := After(nodes, axeLength, steps).replicas;
      && (exists j: nat :: WriterHad(nodes, axeLength, steps, j, k, p[n][k].row))
      && k.writer in p && k in p[k.writer]
      && p[n][k].row.version <= p[k.writer][k].row.version
      && p[n][k].row.start == p[k.writer][k].row.start
  {
    hide After, IsRun, WriterHad, RowOk, ViewOk;
    RunKeeps(nodes, axeLength, steps);
    var net := After(nodes, axeLength, steps);
    assert ReplicaOk(net.written, axeLength, net.replicas[n]) && Known(net.written, k, net.replicas[n][k].row);
    assert WrittenOk(net.written, axeLength, net.replicas, k);
    assert ReplicaOk(net.written, axeLength, net.replicas[k.writer]) && Known(net.written, k, net.replicas[k.writer][k].row);
    WrittenRowsWereHad(nodes, axeLength, steps, k, net.replicas[n][k].row);
  }

  /** The rows a node has about one message. */
  ghost function MessageRows(p: Replica, message: string): map<NodeId, View> {
    map k | k in p && k.message == message :: k.writer := p[k]
  }

  /** In every reachable state, on every node and for every message: in each bin the copies are at
      most the nodes that have seen the message, these at most the rows, and the seen counts never
      fall along the axis. */
  lemma CountsAreBounded(nodes: set<NodeId>, axeLength: nat, steps: seq<Step>, n: NodeId, message: string)
    requires IsRun(nodes, axeLength, steps) && n in After(nodes, axeLength, steps).replicas
    ensures
      var views := MessageRows(After(nodes, axeLength, steps).replicas[n], message);
      && AllShaped(views, axeLength)
      && (forall i :: 0 <= i < axeLength ==>
            CopyCounts(views, axeLength)[i] <= SeenCounts(views, axeLength)[i] <= |views|)
      && (forall i, j :: 0 <= i <= j < axeLength ==>
            SeenCounts(views, axeLength)[i] <= SeenCounts(views, axeLength)[j])
  {
    hide After, IsRun, SeenCounts, CopyCounts, RowOk, ViewOk;
    RunKeeps(nodes, axeLength, steps);
    var p := After(nodes, axeLength, steps).replicas[n];
    assert ReplicaOk(After(nodes, axeLength, steps).written, axeLength, p);
    CountBounds(MessageRows(p, message), axeLength);
  }

  // -------- merging --------

  /** The newer of two rows; of two rows with the same version the second. */
  function Newer(a: Row, b: Row): Row {
    if a.version <= b.version then b else a
  }

  /** Merging row after row is merging the newest row: merging is associative and idempotent, and
      the seen-map does not depend on the order. */
  lemma MergeIsNewer(v: View, r1: Row, r2: Row, axeLength: nat)
    requires ViewOk(v, axeLength) && RowOk(r1, axeLength) && RowOk(r2, axeLength)
    requires r1.start == r2.start == v.row.start
    ensures Merge(v, r1) == View(Newer(v.row, r1), v.seen)
    ensures Merge(Merge(v, r1), r2) == Merge(v, Newer(r1, r2))
    ensures Merge(Merge(v, r1), r1) == Merge(v, r1)
    ensures Newer(Newer(v.row, r1), r2) == Newer(v.row, Newer(r1, r2))
  {
    assert TakeReport(v, r1).seen == v.seen && TakeReport(v, r2).seen == v.seen;
    assert TakeReport(Merge(v, r1), r2).seen == v.seen;
  }

  /** The order of two reports matters exactly when they are different rows of one version and
      neither is already out of date. */
  lemma MergeCommutesExactly(v: View, r1: Row, r2: Row, axeLength: nat)
    requires ViewOk(v, axeLength) && RowOk(r1, axeLength) && RowOk(r2, axeLength)
    requires r1.start == r2.start == v.row.start
    ensures Merge(Merge(v, r1), r2) == Merge(Merge(v, r2), r1)
            <==> r1.version != r2.version || r1.version < v.row.version || r1 == r2
  {
    MergeIsNewer(v, r1, r2, axeLength);
    MergeIsNewer(v, r2, r1, axeLength);
    MergeIsNewer(v, Newer(r1, r2), r1, axeLength);
    MergeIsNewer(v, Newer(r2, r1), r1, axeLength);
  }

  // -------- agreement --------

  /** One version names one row content. */
  ghost predicate Coherent(rows: seq<Row>) {
    forall r, s :: r in rows && s in rows && r.version == s.version ==> r == s
  }

  /** The writer sets a bit within the bin of its version: it drops the message and takes it again
      in one bin. */
  ghost predicate TakenAgain(present: Row, axeLength: nat, bin: nat, value: int) {
    bin == present.version < axeLength == |present.bits| && value == 1 && present.bits[bin] == 0
  }

  /** A step keeps the rows of a key coherent exactly unless the writer takes the message again. */
  lemma CoherentExactly(net: Net, axeLength: nat, step: Step, k: Key)
    requires Inv(net, axeLength) && Enabled(net, axeLength, step)
    requires k in net.written && Coherent(net.written[k])
    ensures k.writer in net.replicas && k in net.replicas[k.writer]
    ensures
      var next := Next(net, axeLength, step);
      && k in next.written
      && (Coherent(next.written[k])
          <==> !(&& step.Observation? && step.key == k
                 && TakenAgain(net.replicas[k.writer][k].row, axeLength, step.bin, step.value)))
  {
    hide *;
    CurrentRow(net, axeLength, k);
    var next := Next(net, axeLength, step);
    if step.Observation? && step.key == k {
      NotedOk(net, axeLength, k, step.bin, step.value);
      NextObservation(net, axeLength, k, step.bin, step.value);
      var v := net.replicas[k.writer][k];
      CoherentAppend(net.written[k], v.row, next.replicas[k.writer][k].row, axeLength);
      ChangeInBin(net.replicas[k.writer], axeLength, k, step.bin, step.value);
    } else {
      NextOther(net, axeLength, step, k);
    }
  }

  lemma ChangeInBin(p: Replica, axeLength: nat, k: Key, bin: nat, value: int)
    requires k in p && ViewOk(p[k], axeLength) && p[k].row.version <= bin <= axeLength
    ensures
      var r := Noted(p, axeLength, k, bin, value).row;
      (r.version == p[k].row.version ==> r == p[k].row) <==> !TakenAgain(p[k].row, axeLength, bin, value)
  {
    if bin == p[k].row.version { SameVersionChange(p[k], axeLength, value); }
  }

  /** A row that a node holds was written. */
  lemma HeldIsWritten(net: Net, axeLength: nat, n: NodeId, k: Key)
    requires Inv(net, axeLength) && n in net.replicas && k in net.replicas[n]
    ensures Known(net.written, k, net.replicas[n][k].row)
  {
    hide Known, ViewOk, WrittenOk, ReportOk;
    assert ReplicaOk(net.written, axeLength, net.replicas[n]);
  }

  lemma CurrentRow(net: Net, axeLength: nat, k: Key)
    requires Inv(net, axeLength) && k in net.written
    ensures k.writer in net.replicas && k in net.replicas[k.writer]
    ensures ViewOk(net.replicas[k.writer][k], axeLength)
    ensures net.replicas[k.writer][k].row in net.written[k]
    ensures RowsOk(net.written[k], axeLength, net.replicas[k.writer][k].row.version)
  {
    hide RowOk, ViewOk, RowsOk, ReportOk;
    assert WrittenOk(net.written, axeLength, net.replicas, k);
    assert ReplicaOk(net.written, axeLength, net.replicas[k.writer]);
    assert Known(net.written, k, net.replicas[k.writer][k].row);
  }

  lemma NextObservation(net: Net, axeLength: nat, k: Key, bin: nat, value: int)
    requires Enabled(net, axeLength, Observation(k, bin, value)) && k in net.written
    ensures
      var next := Next(net, axeLength, Observation(k, bin, value));
      && k.writer in next.replicas && k in next.replicas[k.writer] && k in next.written
      && next.replicas[k.writer][k] == Noted(net.replicas[k.writer], axeLength, k, bin, value)
      && next.written[k] == net.written[k] + [next.replicas[k.writer][k].row]
    ensures k in net.replicas[k.writer] ==> net.replicas[k.writer][k].row.version <= bin <= axeLength
  {
    hide Noted;
  }

  lemma NextOther(net: Net, axeLength: nat, step: Step, k: Key)
    requires Enabled(net, axeLength, step) && k in net.written
    requires !(step.Observation? && step.key == k)
    ensures k in Next(net, axeLength, step).written && Next(net, axeLength, step).written[k] == net.written[k]
  {
    hide Noted, Merged;
  }

  lemma CoherentAppend(rows: seq<Row>, present: Row, r: Row, axeLength: nat)
    requires Coherent(rows) && present in rows && RowsOk(rows, axeLength, present.version)
    requires r.version >= present.version
    ensures Coherent(rows + [r]) <==> (present.version == r.version ==> r == present)
  {
    hide RowOk;
    assert forall x :: x in rows + [r] <==> x in rows || x == r;
  }

  lemma OneMoreStep(nodes: set<NodeId>, axeLength: nat, steps: seq<Step>, step: Step)
    requires IsRun(nodes, axeLength, steps) && Enabled(After(nodes, axeLength, steps), axeLength, step)
    ensures IsRun(nodes, axeLength, steps + [step])
    ensures After(nodes, axeLength, steps + [step]) == Next(After(nodes, axeLength, steps), axeLength, step)
  {
    hide Enabled, Next;
    assert (steps + [step])[..|steps|] == steps;
  }

  /** What reached a node about a key, in order. */
  ghost function Received(steps: seq<Step>, n: NodeId, k: Key): seq<Row>
    decreases |steps|
  {
    if steps == [] then []
    else
      var before := Received(steps[..|steps| - 1], n, k);
      var s := steps[|steps| - 1];
      if s.Deliver? && s.to == n && k in s.report then before + [s.report[k]] else before
  }

  /** In every run, a node that is not the writer holds the newest of the rows that reached it. */
  lemma {:induction false} HoldsNewestReceived(nodes: set<NodeId>, axeLength: nat, steps: seq<Step>, n: NodeId, k: Key)
    requires IsRun(nodes, axeLength, steps) && n != k.writer && n in After(nodes, axeLength, steps).replicas
    ensures
      var p := After(nodes, axeLength, steps).replicas[n];
      var rows := Received(steps, n, k);
      && (k in p <==> rows != [])
      && (k in p ==> p[k].row in rows && forall r :: r in rows ==> r.version <= p[k].row.version)
      && (forall r :: r in rows ==> Known(After(nodes, axeLength, steps).written, k, r))
    decreases |steps|
  {
    if steps != [] {
      var before := steps[..|steps| - 1];
      var net := After(nodes, axeLength, before);
      HoldsNewestReceived(nodes, axeLength, before, n, k);
      RunKeeps(nodes, axeLength, before);
      OneMoreReceived(net, axeLength, steps[|steps| - 1], Received(before, n, k), n, k);
    }
  }

  ghost predicate HoldsNewest(p: Replica, rows: seq<Row>, k: Key) {
    && (k in p <==> rows != [])
    && (k in p ==> p[k].row in rows && forall r :: r in rows ==> r.version <= p[k].row.version)
  }

  lemma OneMoreReceived(net: Net, axeLength: nat, s: Step, rows: seq<Row>, n: NodeId, k: Key)
    requires Inv(net, axeLength) && Enabled(net, axeLength, s) && n != k.writer && n in net.replicas
    requires HoldsNewest(net.replicas[n], rows, k) && forall r :: r in rows ==> Known(net.written, k, r)
    ensures
      var next := Next(net, axeLength, s);
      var more := if s.Deliver? && s.to == n && k in s.report then rows + [s.report[k]] else rows;
      n in next.replicas && HoldsNewest(next.replicas[n], more, k) && forall r :: r in more ==> Known(next.written, k, r)
  {
    hide RowOk, ViewOk, Inv, Noted, Heard;
    if s.Deliver? && s.to == n && k in s.report {
      DeliveredIsKnown(net, axeLength, s.report, k);
      HeardNewest(net.replicas[n], axeLength, k, s.report[k], rows);
    } else if s.Observation? {
      AppendKnows(net.written, s.key, Noted(net.replicas[s.key.writer], axeLength, s.key, s.bin, s.value).row);
    }
  }

  lemma DeliveredIsKnown(net: Net, axeLength: nat, report: Report, k: Key)
    requires Inv(net, axeLength) && report in net.sent && k in report
    ensures Known(net.written, k, report[k])
  {
    hide WrittenOk, ReplicaOk, Known;
    assert ReportOk(net.written, report);
  }

  lemma HeardNewest(p: Replica, axeLength: nat, k: Key, r: Row, rows: seq<Row>)
    requires HoldsNewest(p, rows, k)
    ensures HoldsNewest(p[k := Heard(p, axeLength, k, r)], rows + [r], k)
  {
    assert forall x :: x in rows + [r] <==> x in rows || x == r;
  }

  /** In every run in which one version of a row names one content, nodes that received the same
      reports about it, in any order and number, hold the same row and the same seen-map. */
  lemma SameReportsSameRow(nodes: set<NodeId>, axeLength: nat, steps: seq<Step>, n1: NodeId, n2: NodeId, k: Key)
    requires IsRun(nodes, axeLength, steps)
    requires n1 in After(nodes, axeLength, steps).replicas && n2 in After(nodes, axeLength, steps).replicas
    requires n1 != k.writer && n2 != k.writer
    requires k in After(nodes, axeLength, steps).written && Coherent(After(nodes, axeLength, steps).written[k])
    requires forall r :: r in Received(steps, n1, k) <==> r in Received(steps, n2, k)
    ensures
      var p := After(nodes, axeLength, steps).replicas;
      (k in p[n1] <==> k in p[n2]) && (k in p[n1] ==> p[n1][k] == p[n2][k])
  {
    hide After, IsRun, Received, RowOk;
    HoldsNewestReceived(nodes, axeLength, steps, n1, k);
    HoldsNewestReceived(nodes, axeLength, steps, n2, k);
    RunKeeps(nodes, axeLength, steps);
    var net := After(nodes, axeLength, steps);
    assert ReplicaOk(net.written, axeLength, net.replicas[n1]) && ReplicaOk(net.written, axeLength, net.replicas[n2]);
    assert Received(steps, n1, k) == [] <==> Received(steps, n2, k) == [] by {
      if Received(steps, n1, k) != [] { assert Received(steps, n1, k)[0] in Received(steps, n1, k); }
      if Received(steps, n2, k) != [] { assert Received(steps, n2, k)[0] in Received(steps, n2, k); }
    }
  }

  /** A node that received the writer's present row holds exactly this row. */
  lemma LastReportConverges(nodes: set<NodeId>, axeLength: nat, steps: seq<Step>, n: NodeId, k: Key)
    requires IsRun(nodes, axeLength, steps)
    requires n in After(nodes, axeLength, steps).replicas && n != k.writer
    requires k in After(nodes, axeLength, steps).written && Coherent(After(nodes, axeLength, steps).written[k])
    requires
      var p := After(nodes, axeLength, steps).replicas;
      k.writer in p && k in p[k.writer] && p[k.writer][k].row in Received(steps, n, k)
    ensures
      var p := After(nodes, axeLength, steps).replicas;
      k in p[n] && p[n][k] == p[k.writer][k]
  {
    hide After, IsRun, Received, RowOk;
    HoldsNewestReceived(nodes, axeLength, steps, n, k);
    RunKeeps(nodes, axeLength, steps);
    var net := After(nodes, axeLength, steps);
    assert ReplicaOk(net.written, axeLength, net.replicas[n]) && ReplicaOk(net.written, axeLength, net.replicas[k.writer]);
    assert Known(net.written, k, net.replicas[n][k].row) && Known(net.written, k, net.replicas[k.writer][k].row);
    assert WrittenOk(net.written, axeLength, net.replicas, k);
  }
}

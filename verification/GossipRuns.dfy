/** Runs of the gossip on a clock, and a run in which two nodes disagree for good. */
module GossipRuns {
  import opened StatRow
  import opened StatMessage
  import opened StatAxis
  import opened Gossip

  // -------- runs on a clock --------

  /** A local update carries the elapsed time of the message instead of a bin; Close generates the
      last version of a row. */
  datatype Event =
    | Update(key: Key, et: real, value: int)
    | Close(key: Key)
    | Exchange(step: Step)

  /** The step that an event is, with the bin that the elapsed time is converted to. */
  ghost predicate IsStep(e: Event, axeLength: nat, axeSubdivision: nat, step: Step) {
    match e
    case Update(key, et, value) =>
      step.Observation? && step.key == key && step.value == value && IsBin(axeLength, axeSubdivision, et, step.bin)
    case Close(key) => step == Observation(key, axeLength, 0)
    case Exchange(s) => step == s && !s.Observation?
  }

  ghost predicate AreSteps(es: seq<Event>, axeLength: nat, axeSubdivision: nat, steps: seq<Step>) {
    |es| == |steps| && forall i :: 0 <= i < |es| ==> IsStep(es[i], axeLength, axeSubdivision, steps[i])
  }

  /** The elapsed time of a message does not go back. */
  ghost predicate InOrder(first: Event, second: Event) {
    first.Update? && second.Update? && first.key == second.key ==> first.et <= second.et
  }

  ghost predicate OnTime(es: seq<Event>) {
    forall i, j :: 0 <= i < j < |es| ==> InOrder(es[i], es[j])
  }

  lemma {:induction false} PrefixTraces(nodes: set<NodeId>, axeLength: nat, steps: seq<Step>, i: nat)
    requires IsTrace(nodes, axeLength, steps) && i <= |steps|
    ensures IsTrace(nodes, axeLength, steps[..i])
    ensures i < |steps| ==>
              && Possible(After(nodes, axeLength, steps[..i]), steps[i])
              && IsTrace(nodes, axeLength, steps[..i + 1])
              && After(nodes, axeLength, steps[..i + 1]) == Next(After(nodes, axeLength, steps[..i]), axeLength, steps[i])
    decreases |steps|
  {
    hide Possible, Next;
    if i < |steps| {
      var before := steps[..|steps| - 1];
      PrefixTraces(nodes, axeLength, before, i);
      assert before[..i] == steps[..i];
      if i < |before| {
        assert before[..i + 1] == steps[..i + 1];
      } else {
        assert steps[..i + 1] == steps && steps[..i + 1][..i] == steps[..i];
      }
    } else {
      assert steps[..i] == steps;
    }
  }

  lemma BinOnAxis(e: Event, axeLength: nat, axeSubdivision: nat, step: Step)
    requires IsStep(e, axeLength, axeSubdivision, step) && step.Observation?
    ensures step.bin <= axeLength
  {
  }

  // What holds in every state, whatever the order of bins: all bits of the rows of a key lie at or before the
  // bin of some update of this key.

  ghost predicate Reached(es: seq<Event>, steps: seq<Step>, n: nat, k: Key, i: int)
    requires n <= |es| == |steps|
  {
    exists j :: 0 <= j < n && es[j].Update? && es[j].key == k && steps[j].Observation? && i <= steps[j].bin
  }

  ghost predicate RowKnown(w: Written, axeLength: nat, es: seq<Event>, steps: seq<Step>, n: nat, k: Key, r: Row)
    requires n <= |es| == |steps|
  {
    && k in w && w[k] != [] && RowOk(r, axeLength) && r.start == w[k][0].start
    && Reached(es, steps, n, k, r.start)
    && forall i :: 0 <= i < axeLength && r.bits[i] == 1 ==> Reached(es, steps, n, k, i)
  }

  ghost predicate ReplicaKnown(w: Written, axeLength: nat, es: seq<Event>, steps: seq<Step>, n: nat, p: Replica)
    requires n <= |es| == |steps|
  {
    forall k :: k in p ==> ViewOk(p[k], axeLength) && RowKnown(w, axeLength, es, steps, n, k, p[k].row)
  }

  ghost predicate ReportKnown(w: Written, axeLength: nat, es: seq<Event>, steps: seq<Step>, n: nat, p: Report)
    requires n <= |es| == |steps|
  {
    forall k :: k in p ==> RowKnown(w, axeLength, es, steps, n, k, p[k])
  }

  ghost predicate TraceInv(net: Net, axeLength: nat, es: seq<Event>, steps: seq<Step>, n: nat)
    requires n <= |es| == |steps|
  {
    && (forall m :: m in net.replicas ==> ReplicaKnown(net.written, axeLength, es, steps, n, net.replicas[m]))
    && (forall k :: k in net.written ==> k.writer in net.replicas && k in net.replicas[k.writer])
    && (forall p :: p in net.sent ==> ReportKnown(net.written, axeLength, es, steps, n, p))
  }

  lemma StillReached(es: seq<Event>, steps: seq<Step>, n: nat, k: Key, i: int)
    requires n < |es| == |steps| && Reached(es, steps, n, k, i)
    ensures Reached(es, steps, n + 1, k, i)
  {
  }

  /** Rows that were written stay known when more is written. */
  lemma StillKnown(w: Written, w2: Written, axeLength: nat, es: seq<Event>, steps: seq<Step>, n: nat, k: Key, r: Row)
    requires n < |es| == |steps| && RowKnown(w, axeLength, es, steps, n, k, r)
    requires k in w2 && w[k] <= w2[k]
    ensures RowKnown(w2, axeLength, es, steps, n + 1, k, r)
  {
    hide Reached;
    StillReached(es, steps, n, k, r.start);
    forall i | 0 <= i < axeLength && r.bits[i] == 1 ensures Reached(es, steps, n + 1, k, i) {
      StillReached(es, steps, n, k, i);
    }
  }

  ghost predicate Grows(w: Written, w2: Written) {
    forall k :: k in w ==> k in w2 && w[k] <= w2[k]
  }

  lemma ReplicaStays(w: Written, w2: Written, axeLength: nat, es: seq<Event>, steps: seq<Step>, n: nat, p: Replica)
    requires n < |es| == |steps| && ReplicaKnown(w, axeLength, es, steps, n, p) && Grows(w, w2)
    ensures ReplicaKnown(w2, axeLength, es, steps, n + 1, p)
  {
    hide RowKnown, ViewOk;
    forall k | k in p ensures RowKnown(w2, axeLength, es, steps, n + 1, k, p[k].row) {
      KnownIsWritten(w, axeLength, es, steps, n, k, p[k].row);
      StillKnown(w, w2, axeLength, es, steps, n, k, p[k].row);
    }
  }

  lemma KnownIsWritten(w: Written, axeLength: nat, es: seq<Event>, steps: seq<Step>, n: nat, k: Key, r: Row)
    requires n <= |es| == |steps| && RowKnown(w, axeLength, es, steps, n, k, r)
    ensures k in w
  {
  }

  lemma ReportStays(w: Written, w2: Written, axeLength: nat, es: seq<Event>, steps: seq<Step>, n: nat, p: Report)
    requires n < |es| == |steps| && ReportKnown(w, axeLength, es, steps, n, p) && Grows(w, w2)
    ensures ReportKnown(w2, axeLength, es, steps, n + 1, p)
  {
    hide RowKnown;
    forall k | k in p ensures RowKnown(w2, axeLength, es, steps, n + 1, k, p[k]) {
      KnownIsWritten(w, axeLength, es, steps, n, k, p[k]);
      StillKnown(w, w2, axeLength, es, steps, n, k, p[k]);
    }
  }

  /** What was reached before an update lies at or before its bin. */
  lemma ReachedBefore(axeLength: nat, axeSubdivision: nat, es: seq<Event>, steps: seq<Step>, n: nat, k: Key, i: int)
    requires AreSteps(es, axeLength, axeSubdivision, steps) && OnTime(es) && n < |es|
    requires es[n].Update? && es[n].key == k && Reached(es, steps, n, k, i)
    ensures steps[n].Observation? && i <= steps[n].bin
  {
    var j :| 0 <= j < n && es[j].Update? && es[j].key == k && steps[j].Observation? && i <= steps[j].bin;
    assert IsStep(es[j], axeLength, axeSubdivision, steps[j]) && IsStep(es[n], axeLength, axeSubdivision, steps[n]);
    assert InOrder(es[j], es[n]);
    BinsNeverGoDown(axeLength, axeSubdivision, es[j].et, steps[j].bin, es[n].et, steps[n].bin);
  }

  /** An update whose bin is not before any bit of the row. */
  lemma UpdatedView(v: View, axeLength: nat, bin: nat, value: int)
    requires ViewOk(v, axeLength) && bin <= axeLength && v.row.start <= bin
    requires forall i :: 0 <= i < axeLength && v.row.bits[i] == 1 ==> i <= bin
    ensures ViewOk(SetBin(v, bin, value, false), axeLength)
  {
    SetBinOkIff(v, axeLength, bin, value);
  }

  lemma UpdateKnown(net: Net, axeLength: nat, axeSubdivision: nat, es: seq<Event>, steps: seq<Step>, n: nat, k: Key)
    requires AreSteps(es, axeLength, axeSubdivision, steps) && OnTime(es) && n < |es|
    requires TraceInv(net, axeLength, es, steps, n) && Possible(net, steps[n])
    requires es[n].Update? && es[n].key == k
    ensures steps[n].Observation? && steps[n].key == k && k.writer in net.replicas
    ensures
      var v := Noted(net.replicas[k.writer], axeLength, k, steps[n].bin, steps[n].value);
      && ViewOk(v, axeLength)
      && RowKnown(Append(net.written, k, v.row), axeLength, es, steps, n + 1, k, v.row)
  {
    hide ReportKnown, OnTime;
    assert IsStep(es[n], axeLength, axeSubdivision, steps[n]);
    BinOnAxis(es[n], axeLength, axeSubdivision, steps[n]);
    var p, bin, value := net.replicas[k.writer], steps[n].bin, steps[n].value;
    assert ReplicaKnown(net.written, axeLength, es, steps, n, p);
    assert Reached(es, steps, n + 1, k, bin);
    if k in p {
      UpdatedKnown(net.written, axeLength, axeSubdivision, es, steps, n, k, p[k], bin, value);
    } else {
      FirstBinOk(axeLength, bin, value);
      FirstKnown(axeLength, es, steps, n, k, bin, value);
      assert k !in net.written;
    }
  }

  lemma FirstKnown(axeLength: nat, es: seq<Event>, steps: seq<Step>, n: nat, k: Key, bin: nat, value: int)
    requires n < |es| == |steps| && bin <= axeLength && Reached(es, steps, n + 1, k, bin)
    ensures
      var r := FirstBin(axeLength, bin, value).row;
      forall w: Written :: k in w && w[k] == [r] ==> RowKnown(w, axeLength, es, steps, n + 1, k, r)
  {
    hide Reached;
    FirstBinOk(axeLength, bin, value);
  }

  lemma UpdatedKnown(w: Written, axeLength: nat, axeSubdivision: nat, es: seq<Event>, steps: seq<Step>, n: nat, k: Key,
                     v: View, bin: nat, value: int)
    requires AreSteps(es, axeLength, axeSubdivision, steps) && OnTime(es) && n < |es|
    requires ViewOk(v, axeLength) && RowKnown(w, axeLength, es, steps, n, k, v.row)
    requires es[n].Update? && es[n].key == k && steps[n].Observation? && steps[n].bin == bin <= axeLength
    ensures
      var x := SetBin(v, bin, value, false);
      && ViewOk(x, axeLength)
      && RowKnown(Append(w, k, x.row), axeLength, es, steps, n + 1, k, x.row)
  {
    hide IsStep, OnTime, Reached;
    ReachedBefore(axeLength, axeSubdivision, es, steps, n, k, v.row.start);
    forall i | 0 <= i < axeLength && v.row.bits[i] == 1 ensures i <= bin && Reached(es, steps, n + 1, k, i) {
      ReachedBefore(axeLength, axeSubdivision, es, steps, n, k, i);
      StillReached(es, steps, n, k, i);
    }
    UpdatedView(v, axeLength, bin, value);
    StillReached(es, steps, n, k, v.row.start);
    BinReached(es, steps, n, k, bin);
    SameStart(w, axeLength, es, steps, n, k, v, bin, value);
  }

  lemma BinReached(es: seq<Event>, steps: seq<Step>, n: nat, k: Key, bin: nat)
    requires n < |es| == |steps| && es[n].Update? && es[n].key == k && steps[n].Observation? && steps[n].bin == bin
    ensures Reached(es, steps, n + 1, k, bin)
  {
  }

  lemma SameStart(w: Written, axeLength: nat, es: seq<Event>, steps: seq<Step>, n: nat, k: Key, v: View, bin: nat,
                  value: int)
    requires n < |es| == |steps| && RowKnown(w, axeLength, es, steps, n, k, v.row)
    ensures
      var x := SetBin(v, bin, value, false);
      && x.row.start == v.row.start && k in Append(w, k, x.row) && Append(w, k, x.row)[k] != []
      && Append(w, k, x.row)[k][0].start == v.row.start
  {
    hide RowOk, Reached;
  }

  /** Closing a row changes none of its bits. */
  lemma CloseKnown(net: Net, axeLength: nat, axeSubdivision: nat, es: seq<Event>, steps: seq<Step>, n: nat, k: Key)
    requires AreSteps(es, axeLength, axeSubdivision, steps) && n < |es|
    requires TraceInv(net, axeLength, es, steps, n) && Possible(net, steps[n])
    requires es[n] == Close(k) && k.writer in net.replicas && k in net.replicas[k.writer]
    ensures steps[n] == Observation(k, axeLength, 0)
    ensures
      var v := Noted(net.replicas[k.writer], axeLength, k, axeLength, 0);
      && ViewOk(v, axeLength)
      && RowKnown(Append(net.written, k, v.row), axeLength, es, steps, n + 1, k, v.row)
  {
    hide ReportKnown, Reached;
    assert IsStep(es[n], axeLength, axeSubdivision, steps[n]);
    var p := net.replicas[k.writer];
    assert ReplicaKnown(net.written, axeLength, es, steps, n, p);
    var v := p[k];
    SetBinOk(v, axeLength, axeLength, 0);
    StillReached(es, steps, n, k, v.row.start);
    SameStart(net.written, axeLength, es, steps, n, k, v, axeLength, 0);
    var x := SetBin(v, axeLength, 0, false);
    forall i | 0 <= i < axeLength && x.row.bits[i] == 1 ensures Reached(es, steps, n + 1, k, i) {
      assert v.row.bits[i] == 1;
      StillReached(es, steps, n, k, i);
    }
  }

  /** A row is added to what the writer has. */
  lemma ObservationTrace(net: Net, axeLength: nat, es: seq<Event>, steps: seq<Step>, n: nat)
    requires n < |es| == |steps| && TraceInv(net, axeLength, es, steps, n) && Possible(net, steps[n])
    requires steps[n].Observation?
    requires
      var k := steps[n].key;
      var v := Noted(net.replicas[k.writer], axeLength, k, steps[n].bin, steps[n].value);
      ViewOk(v, axeLength) && RowKnown(Append(net.written, k, v.row), axeLength, es, steps, n + 1, k, v.row)
    ensures TraceInv(Next(net, axeLength, steps[n]), axeLength, es, steps, n + 1)
  {
    hide Noted, ViewOk, RowKnown, ReplicaKnown, ReportKnown;
    var next, k := Next(net, axeLength, steps[n]), steps[n].key;
    var p := net.replicas[k.writer];
    var v := Noted(p, axeLength, k, steps[n].bin, steps[n].value);
    var w := Append(net.written, k, v.row);
    assert next.written == w;
    AppendGrows(net.written, k, v.row);
    forall m | m in next.replicas ensures ReplicaKnown(w, axeLength, es, steps, n + 1, next.replicas[m]) {
      ReplicaStays(net.written, w, axeLength, es, steps, n, net.replicas[m]);
      if m == k.writer { ReplicaGains(w, axeLength, es, steps, n + 1, p, k, v); }
    }
    forall q | q in next.sent ensures ReportKnown(w, axeLength, es, steps, n + 1, q) {
      ReportStays(net.written, w, axeLength, es, steps, n, q);
    }
  }

  lemma AppendGrows(w: Written, k: Key, r: Row)
    ensures Grows(w, Append(w, k, r))
  {
  }

  lemma ReplicaGains(w: Written, axeLength: nat, es: seq<Event>, steps: seq<Step>, n: nat, p: Replica, k: Key, v: View)
    requires n <= |es| == |steps| && ReplicaKnown(w, axeLength, es, steps, n, p)
    requires ViewOk(v, axeLength) && RowKnown(w, axeLength, es, steps, n, k, v.row)
    ensures ReplicaKnown(w, axeLength, es, steps, n, p[k := v])
  {
    hide ViewOk, RowKnown;
  }

  lemma HeardKnown(w: Written, axeLength: nat, es: seq<Event>, steps: seq<Step>, n: nat, p: Replica, k: Key, r: Row)
    requires n <= |es| == |steps| && ReplicaKnown(w, axeLength, es, steps, n, p)
    requires RowKnown(w, axeLength, es, steps, n, k, r)
    ensures
      var v := Heard(p, axeLength, k, r);
      ViewOk(v, axeLength) && RowKnown(w, axeLength, es, steps, n, k, v.row)
  {
    hide Reached, RowOk, ViewOk, TakeReport, Blank;
    if k in p {
      MergeOk(p[k], r, axeLength);
      TakenRow(p[k], r);
    } else {
      FirstReportOk(r, axeLength);
      TakenRow(Blank(axeLength), r);
    }
  }

  lemma MergedKnown(w: Written, axeLength: nat, es: seq<Event>, steps: seq<Step>, n: nat, p: Replica, report: Report)
    requires n <= |es| == |steps| && ReplicaKnown(w, axeLength, es, steps, n, p)
    requires ReportKnown(w, axeLength, es, steps, n, report)
    ensures ReplicaKnown(w, axeLength, es, steps, n, Merged(p, axeLength, report))
  {
    hide ViewOk, RowKnown, Heard;
    var q := Merged(p, axeLength, report);
    forall k | k in report ensures ViewOk(q[k], axeLength) && RowKnown(w, axeLength, es, steps, n, k, q[k].row) {
      HeardKnown(w, axeLength, es, steps, n, p, k, report[k]);
    }
  }

  lemma ExchangeTrace(net: Net, axeLength: nat, es: seq<Event>, steps: seq<Step>, n: nat)
    requires n < |es| == |steps| && TraceInv(net, axeLength, es, steps, n) && Possible(net, steps[n])
    requires !steps[n].Observation?
    ensures TraceInv(Next(net, axeLength, steps[n]), axeLength, es, steps, n + 1)
  {
    hide ReplicaKnown, ReportKnown, Merged;
    var next, w := Next(net, axeLength, steps[n]), net.written;
    assert Grows(w, w);
    if steps[n].Send? {
      SentKnown(w, axeLength, es, steps, n, net.replicas[steps[n].from], steps[n].report);
    } else {
      MergedKnown(w, axeLength, es, steps, n, net.replicas[steps[n].to], steps[n].report);
    }
    forall m | m in next.replicas ensures ReplicaKnown(w, axeLength, es, steps, n + 1, next.replicas[m]) {
      ReplicaStays(w, w, axeLength, es, steps, n, next.replicas[m]);
    }
    forall q | q in next.sent ensures ReportKnown(w, axeLength, es, steps, n + 1, q) {
      ReportStays(w, w, axeLength, es, steps, n, q);
    }
    forall k | k in next.written ensures k.writer in next.replicas && k in next.replicas[k.writer] {
      if steps[n].Deliver? { MergedHas(net.replicas[steps[n].to], axeLength, steps[n].report); }
    }
  }

  lemma MergedHas(p: Replica, axeLength: nat, report: Report)
    ensures p.Keys <= Merged(p, axeLength, report).Keys
  {
    hide Heard;
  }

  lemma SentKnown(w: Written, axeLength: nat, es: seq<Event>, steps: seq<Step>, n: nat, p: Replica, report: Report)
    requires n <= |es| == |steps| && ReplicaKnown(w, axeLength, es, steps, n, p)
    requires forall k :: k in report ==> k in p && report[k] == p[k].row
    ensures ReportKnown(w, axeLength, es, steps, n, report)
  {
    hide ViewOk, RowKnown;
  }

  /** Only rows that exist are closed. */
  ghost predicate ClosesRows(nodes: set<NodeId>, axeLength: nat, es: seq<Event>, steps: seq<Step>)
    requires |es| == |steps|
  {
    forall i, k :: 0 <= i < |es| && es[i] == Close(k) && IsTrace(nodes, axeLength, steps[..i]) ==>
      var replicas := After(nodes, axeLength, steps[..i]).replicas;
      k.writer in replicas && k in replicas[k.writer]
  }

  lemma {:induction false} TraceKeeps(nodes: set<NodeId>, axeLength: nat, axeSubdivision: nat, es: seq<Event>,
                                      steps: seq<Step>, n: nat)
    requires AreSteps(es, axeLength, axeSubdivision, steps) && OnTime(es)
    requires IsTrace(nodes, axeLength, steps) && ClosesRows(nodes, axeLength, es, steps) && n <= |steps|
    ensures IsTrace(nodes, axeLength, steps[..n])
    ensures TraceInv(After(nodes, axeLength, steps[..n]), axeLength, es, steps, n)
  {
    hide OnTime, IsTrace, TraceInv, Possible, Next;
    PrefixTraces(nodes, axeLength, steps, n);
    if n == 0 {
      assert steps[..0] == [];
      TraceStart(nodes, axeLength, es, steps);
    } else {
      TraceKeeps(nodes, axeLength, axeSubdivision, es, steps, n - 1);
      PrefixTraces(nodes, axeLength, steps, n - 1);
      TraceStep(nodes, axeLength, axeSubdivision, es, steps, n - 1);
    }
  }

  lemma TraceStart(nodes: set<NodeId>, axeLength: nat, es: seq<Event>, steps: seq<Step>)
    requires |es| == |steps|
    ensures IsTrace(nodes, axeLength, [])
    ensures TraceInv(After(nodes, axeLength, []), axeLength, es, steps, 0)
  {
  }

  lemma TraceStep(nodes: set<NodeId>, axeLength: nat, axeSubdivision: nat, es: seq<Event>, steps: seq<Step>, n: nat)
    requires AreSteps(es, axeLength, axeSubdivision, steps) && OnTime(es) && n < |es|
    requires ClosesRows(nodes, axeLength, es, steps) && IsTrace(nodes, axeLength, steps[..n])
    requires TraceInv(After(nodes, axeLength, steps[..n]), axeLength, es, steps, n)
    requires Possible(After(nodes, axeLength, steps[..n]), steps[n])
    ensures TraceInv(Next(After(nodes, axeLength, steps[..n]), axeLength, steps[n]), axeLength, es, steps, n + 1)
  {
    hide OnTime, IsTrace, After, TraceInv, Next, Noted, RowKnown;
    var net := After(nodes, axeLength, steps[..n]);
    assert IsStep(es[n], axeLength, axeSubdivision, steps[n]);
    match es[n]
    case Update(k, _, _) =>
      UpdateKnown(net, axeLength, axeSubdivision, es, steps, n, k);
      ObservationTrace(net, axeLength, es, steps, n);
    case Close(k) =>
      CloseKnown(net, axeLength, axeSubdivision, es, steps, n, k);
      ObservationTrace(net, axeLength, es, steps, n);
    case Exchange(_) =>
      ExchangeTrace(net, axeLength, es, steps, n);
  }

  /** With elapsed times that do not go back, whenever rows are closed and however reports are lost, doubled
      and reordered: every node counts at most as many copies as nodes that have seen a message and at most as
      many of these as rows, and its seen counts never fall along the axis. */
  lemma ClockedCountsAreBounded(nodes: set<NodeId>, axeLength: nat, axeSubdivision: nat, es: seq<Event>,
                                steps: seq<Step>, n: NodeId, message: string)
    requires AreSteps(es, axeLength, axeSubdivision, steps) && OnTime(es)
    requires IsTrace(nodes, axeLength, steps) && ClosesRows(nodes, axeLength, es, steps)
    ensures n in After(nodes, axeLength, steps).replicas ==>
              var views := MessageRows(After(nodes, axeLength, steps).replicas[n], message);
              && AllShaped(views, axeLength)
              && (forall i :: 0 <= i < axeLength ==>
                    CopyCounts(views, axeLength)[i] <= SeenCounts(views, axeLength)[i] <= |views|)
              && (forall i, j :: 0 <= i <= j < axeLength ==>
                    SeenCounts(views, axeLength)[i] <= SeenCounts(views, axeLength)[j])
  {
    hide IsTrace, After, OnTime, SeenCounts, CopyCounts, RowKnown, ViewOk;
    TraceKeeps(nodes, axeLength, axeSubdivision, es, steps, |steps|);
    assert steps[..|steps|] == steps;
    if n in After(nodes, axeLength, steps).replicas {
      var p := After(nodes, axeLength, steps).replicas[n];
      assert ReplicaKnown(After(nodes, axeLength, steps).written, axeLength, es, steps, |steps|, p);
      CountBounds(MessageRows(p, message), axeLength);
    }
  }

  // -------- clocked runs in which no version goes down --------

  /** The version of every row that was written is the bin of an observation. */
  lemma {:induction false} VersionsAreBins(nodes: set<NodeId>, axeLength: nat, steps: seq<Step>, k: Key, r: Row)
    requires IsRun(nodes, axeLength, steps) && Known(After(nodes, axeLength, steps).written, k, r)
    ensures exists i :: 0 <= i < |steps| && steps[i].Observation? && steps[i].key == k && steps[i].bin == r.version
    decreases |steps|
  {
    hide Noted, Merged;
    if steps != [] {
      var n := |steps| - 1;
      var before := steps[..n];
      var net := After(nodes, axeLength, before);
      if Known(net.written, k, r) {
        VersionsAreBins(nodes, axeLength, before, k, r);
        var i :| 0 <= i < n && before[i].Observation? && before[i].key == k && before[i].bin == r.version;
        assert steps[i] == before[i];
      } else {
        NewRow(net, axeLength, steps[n], k, r);
      }
    }
  }

  lemma NewRow(net: Net, axeLength: nat, step: Step, k: Key, r: Row)
    requires Enabled(net, axeLength, step) && !Known(net.written, k, r)
    requires Known(Next(net, axeLength, step).written, k, r)
    ensures step.Observation? && step.key == k && step.bin == r.version
  {
    hide Merged;
    if step.Observation? {
      var v := Noted(net.replicas[step.key.writer], axeLength, step.key, step.bin, step.value);
      AppendKnows(net.written, step.key, v.row);
      assert Next(net, axeLength, step).written == Append(net.written, step.key, v.row);
      assert v.row.version == step.bin;
    }
  }

  /** An update within the axis, after the row was closed. */
  ghost predicate Reopens(es: seq<Event>, steps: seq<Step>, axeLength: nat, j: nat)
    requires |es| == |steps|
  {
    && j < |es| && es[j].Update? && steps[j].Observation? && steps[j].bin < axeLength
    && exists i :: 0 <= i < j && es[i] == Close(es[j].key)
  }

  lemma BinOfEvent(axeLength: nat, axeSubdivision: nat, es: seq<Event>, steps: seq<Step>, i: nat, n: nat)
    requires AreSteps(es, axeLength, axeSubdivision, steps) && OnTime(es) && i < n < |steps|
    requires steps[i].Observation? && steps[n].Observation? && steps[i].key == steps[n].key
    requires !Reopens(es, steps, axeLength, n)
    ensures steps[i].bin <= steps[n].bin <= axeLength
  {
    assert IsStep(es[i], axeLength, axeSubdivision, steps[i]) && IsStep(es[n], axeLength, axeSubdivision, steps[n]);
    BinOnAxis(es[i], axeLength, axeSubdivision, steps[i]);
    BinOnAxis(es[n], axeLength, axeSubdivision, steps[n]);
    if es[n].Update? && es[i].Update? {
      assert InOrder(es[i], es[n]);
      BinsNeverGoDown(axeLength, axeSubdivision, es[i].et, steps[i].bin, es[n].et, steps[n].bin);
    }
  }

  /** The observation that gave the writer's row its version. */
  lemma LastObservation(nodes: set<NodeId>, axeLength: nat, steps: seq<Step>, n: nat, k: Key) returns (i: nat)
    requires n <= |steps| && IsRun(nodes, axeLength, steps[..n])
    requires
      var p := After(nodes, axeLength, steps[..n]).replicas;
      k.writer in p && k in p[k.writer]
    ensures
      var p := After(nodes, axeLength, steps[..n]).replicas;
      i < n && steps[i].Observation? && steps[i].key == k && steps[i].bin == p[k.writer][k].row.version
  {
    hide IsRun, After, Inv, Known;
    RunKeeps(nodes, axeLength, steps[..n]);
    var net := After(nodes, axeLength, steps[..n]);
    HeldIsWritten(net, axeLength, k.writer, k);
    VersionsAreBins(nodes, axeLength, steps[..n], k, net.replicas[k.writer][k].row);
    i :| 0 <= i < n && steps[..n][i].Observation? && steps[..n][i].key == k
         && steps[..n][i].bin == net.replicas[k.writer][k].row.version;
  }

  lemma StepIsEnabled(nodes: set<NodeId>, axeLength: nat, axeSubdivision: nat, es: seq<Event>, steps: seq<Step>,
                      n: nat)
    requires AreSteps(es, axeLength, axeSubdivision, steps) && OnTime(es)
    requires n < |steps| && IsRun(nodes, axeLength, steps[..n]) && !Reopens(es, steps, axeLength, n)
    requires Possible(After(nodes, axeLength, steps[..n]), steps[n])
    ensures Enabled(After(nodes, axeLength, steps[..n]), axeLength, steps[n])
  {
    hide IsRun, After, OnTime, Reopens;
    var step := steps[n];
    if step.Observation? {
      var p := After(nodes, axeLength, steps[..n]).replicas[step.key.writer];
      assert IsStep(es[n], axeLength, axeSubdivision, step);
      BinOnAxis(es[n], axeLength, axeSubdivision, step);
      if step.key in p {
        var i := LastObservation(nodes, axeLength, steps, n, step.key);
        BinOfEvent(axeLength, axeSubdivision, es, steps, i, n);
      }
    }
  }

  /** The writer's row has the last version from the step that closes it on, as long as versions do not go down. */
  lemma ClosedStays(nodes: set<NodeId>, axeLength: nat, steps: seq<Step>, k: Key, i: nat, n: nat)
    requires i < n <= |steps| && IsRun(nodes, axeLength, steps[..n]) && steps[i] == Observation(k, axeLength, 0)
    ensures
      var p := After(nodes, axeLength, steps[..n]).replicas;
      k.writer in p && k in p[k.writer] && p[k.writer][k].row.version >= axeLength
  {
    hide IsRun, After, Enabled, Next;
    PrefixRuns(nodes, axeLength, steps[..n], i + 1);
    assert steps[..n][..i + 1] == steps[..i + 1];
    VersionsNeverDecrease(nodes, axeLength, steps[..n], i + 1);
    JustClosed(nodes, axeLength, steps[..i + 1], k);
  }

  lemma JustClosed(nodes: set<NodeId>, axeLength: nat, steps: seq<Step>, k: Key)
    requires steps != [] && IsRun(nodes, axeLength, steps) && steps[|steps| - 1] == Observation(k, axeLength, 0)
    ensures
      var p := After(nodes, axeLength, steps).replicas;
      k.writer in p && k in p[k.writer] && p[k.writer][k].row.version == axeLength
  {
    hide FirstBin;
    assert FirstBin(axeLength, axeLength, 0).row.version == axeLength by { VersionOfFirst(axeLength); }
  }

  lemma VersionOfFirst(axeLength: nat)
    ensures FirstBin(axeLength, axeLength, 0).row.version == axeLength
  {
  }

  lemma ReopeningIsNoRun(nodes: set<NodeId>, axeLength: nat, axeSubdivision: nat, es: seq<Event>, steps: seq<Step>,
                         j: nat)
    requires AreSteps(es, axeLength, axeSubdivision, steps) && Reopens(es, steps, axeLength, j)
    requires IsTrace(nodes, axeLength, steps)
    ensures !IsRun(nodes, axeLength, steps)
  {
    hide IsTrace, After, Possible;
    if IsRun(nodes, axeLength, steps) {
      PrefixRuns(nodes, axeLength, steps, j);
      PrefixRuns(nodes, axeLength, steps, j + 1);
      assert steps[..j + 1][..j] == steps[..j];
      var i :| 0 <= i < j && es[i] == Close(es[j].key);
      assert IsStep(es[i], axeLength, axeSubdivision, steps[i]) && IsStep(es[j], axeLength, axeSubdivision, steps[j]);
      ClosedStays(nodes, axeLength, steps, es[j].key, i, j);
    }
  }

  lemma {:induction false} UnreopenedRuns(nodes: set<NodeId>, axeLength: nat, axeSubdivision: nat, es: seq<Event>,
                                          steps: seq<Step>, n: nat)
    requires AreSteps(es, axeLength, axeSubdivision, steps) && OnTime(es)
    requires IsTrace(nodes, axeLength, steps) && n <= |steps|
    requires forall j: nat :: !Reopens(es, steps, axeLength, j)
    ensures IsRun(nodes, axeLength, steps[..n])
  {
    hide OnTime, Enabled, Possible, Reopens;
    if n > 0 {
      UnreopenedRuns(nodes, axeLength, axeSubdivision, es, steps, n - 1);
      PrefixTraces(nodes, axeLength, steps, n - 1);
      StepIsEnabled(nodes, axeLength, axeSubdivision, es, steps, n - 1);
      OneMoreStep(nodes, axeLength, steps[..n - 1], steps[n - 1]);
      assert steps[..n - 1] + [steps[n - 1]] == steps[..n];
    }
  }

  /** Events on a clock that does not go back are a run of the gossip, in which no version goes down, if and only
      if no row is updated within the axis after it was closed. */
  lemma ClockedRunsIff(nodes: set<NodeId>, axeLength: nat, axeSubdivision: nat, es: seq<Event>, steps: seq<Step>)
    requires AreSteps(es, axeLength, axeSubdivision, steps) && OnTime(es) && IsTrace(nodes, axeLength, steps)
    ensures IsRun(nodes, axeLength, steps) <==> forall j: nat :: !Reopens(es, steps, axeLength, j)
  {
    hide IsRun, IsTrace, Reopens, OnTime, IsStep;
    if forall j: nat :: !Reopens(es, steps, axeLength, j) {
      UnreopenedRuns(nodes, axeLength, axeSubdivision, es, steps, |steps|);
      assert steps[..|steps|] == steps;
    } else {
      var j: nat :| Reopens(es, steps, axeLength, j);
      ReopeningIsNoRun(nodes, axeLength, axeSubdivision, es, steps, j);
    }
  }

  // -------- two nodes that disagree --------

  const ROW: Key := Key("m", "a")
  const NODES: set<NodeId> := {"a", "b", "c"}

  /** The writer takes the message in bin 0, drops it in bin 1 and takes it again in bin 1. */
  function Taken(axeLength: nat): View { FirstBin(axeLength, 0, 1) }
  function Dropped(axeLength: nat): View { SetBin(Taken(axeLength), 1, 0, false) }
  function Again(axeLength: nat): View { SetBin(Dropped(axeLength), 1, 1, false) }

  /** One node receives the last two rows in order, another one in the opposite order. */
  function Disagreement(axeLength: nat): seq<Step> {
    var r, s := map[ROW := Dropped(axeLength).row], map[ROW := Again(axeLength).row];
    [Observation(ROW, 0, 1), Observation(ROW, 1, 0), Send("a", r), Observation(ROW, 1, 1), Send("a", s),
     Deliver("b", r), Deliver("b", s), Deliver("c", s), Deliver("c", r)]
  }

  lemma ThreeRows(axeLength: nat)
    requires axeLength >= 2
    ensures Taken(axeLength).row.version == 0
    ensures Dropped(axeLength).row.version == Again(axeLength).row.version == 1
    ensures Dropped(axeLength).row != Again(axeLength).row
  {
    assert Dropped(axeLength).row.bits[1] == 0 && Again(axeLength).row.bits[1] == 1;
  }

  function At(a: Replica, b: Replica, c: Replica, rows: seq<Row>, sent: set<Report>): Net {
    Net(map["a" := a, "b" := b, "c" := c], map[ROW := rows], sent)
  }

  lemma FirstStep(axeLength: nat, step: Step)
    requires step == Observation(ROW, 0, 1)
    ensures IsRun(NODES, axeLength, [step])
    ensures After(NODES, axeLength, [step]) == At(map[ROW := Taken(axeLength)], map[], map[], [Taken(axeLength).row], {})
  {
    hide FirstBin;
    var net := Start(NODES);
    assert After(NODES, axeLength, []) == net;
    assert [] + [step] == [step];
    OneMoreStep(NODES, axeLength, [], step);
    var next := Next(net, axeLength, step);
    assert next.replicas == At(map[ROW := Taken(axeLength)], map[], map[], [], {}).replicas;
    assert next.written == map[ROW := [Taken(axeLength).row]];
  }

  lemma Observes(axeLength: nat, v: View, rows: seq<Row>, sent: set<Report>, bin: nat, value: int)
    requires v.row.version <= bin <= axeLength
    ensures
      var net, w := At(map[ROW := v], map[], map[], rows, sent), SetBin(v, bin, value, false);
      && Enabled(net, axeLength, Observation(ROW, bin, value))
      && Next(net, axeLength, Observation(ROW, bin, value)) == At(map[ROW := w], map[], map[], rows + [w.row], sent)
  {
    hide SetBin;
    var net, w := At(map[ROW := v], map[], map[], rows, sent), SetBin(v, bin, value, false);
    var next := Next(net, axeLength, Observation(ROW, bin, value));
    assert map[ROW := v][ROW := w] == map[ROW := w];
    assert next.replicas == At(map[ROW := w], map[], map[], rows, sent).replicas;
    assert next.written == map[ROW := rows + [w.row]];
  }

  lemma Sends(axeLength: nat, v: View, rows: seq<Row>, sent: set<Report>)
    ensures
      var net, r := At(map[ROW := v], map[], map[], rows, sent), map[ROW := v.row];
      && Enabled(net, axeLength, Send("a", r))
      && Next(net, axeLength, Send("a", r)) == At(map[ROW := v], map[], map[], rows, sent + {r})
  {
  }

  lemma Delivers(axeLength: nat, a: Replica, b: Replica, c: Replica, rows: seq<Row>, sent: set<Report>, report: Report)
    requires report in sent
    ensures
      var net := At(a, b, c, rows, sent);
      && Enabled(net, axeLength, Deliver("b", report)) && Enabled(net, axeLength, Deliver("c", report))
      && Next(net, axeLength, Deliver("b", report)) == At(a, Merged(b, axeLength, report), c, rows, sent)
      && Next(net, axeLength, Deliver("c", report)) == At(a, b, Merged(c, axeLength, report), rows, sent)
  {
    hide Merged;
  }

  /** Two reports of one version, one after the other: the second one stays. */
  lemma LastStays(axeLength: nat, r: Row, s: Row)
    requires r.version == s.version
    ensures
      var p := Merged(Merged(map[], axeLength, map[ROW := r]), axeLength, map[ROW := s]);
      ROW in p && p[ROW].row == s
  {
  }

  lemma WriterSteps(axeLength: nat)
    requires axeLength >= 2
    ensures IsRun(NODES, axeLength, Disagreement(axeLength)[..5])
    ensures
      After(NODES, axeLength, Disagreement(axeLength)[..5])
      == At(map[ROW := Again(axeLength)], map[], map[],
            [Taken(axeLength).row, Dropped(axeLength).row, Again(axeLength).row],
            {map[ROW := Dropped(axeLength).row], map[ROW := Again(axeLength).row]})
  {
    hide At, Enabled, Possible, Next, IsTrace, IsRun, After, FirstBin, SetBin;
    var steps := Disagreement(axeLength);
    var t, d, a := Taken(axeLength), Dropped(axeLength), Again(axeLength);
    ThreeRows(axeLength);
    FirstStep(axeLength, steps[0]);
    assert steps[..1] == [steps[0]];
    Observes(axeLength, t, [t.row], {}, 1, 0);
    NextStep(axeLength, steps, 1);
    Sends(axeLength, d, [t.row] + [d.row], {});
    NextStep(axeLength, steps, 2);
    Observes(axeLength, d, [t.row] + [d.row], {} + {map[ROW := d.row]}, 1, 1);
    NextStep(axeLength, steps, 3);
    Sends(axeLength, a, [t.row] + [d.row] + [a.row], {} + {map[ROW := d.row]});
    NextStep(axeLength, steps, 4);
    assert [t.row] + [d.row] + [a.row] == [t.row, d.row, a.row];
    assert {} + {map[ROW := d.row]} + {map[ROW := a.row]} == {map[ROW := d.row], map[ROW := a.row]};
  }

  lemma NextStep(axeLength: nat, steps: seq<Step>, i: nat)
    requires i < |steps| && IsRun(NODES, axeLength, steps[..i])
    requires Enabled(After(NODES, axeLength, steps[..i]), axeLength, steps[i])
    ensures IsRun(NODES, axeLength, steps[..i + 1])
    ensures After(NODES, axeLength, steps[..i + 1]) == Next(After(NODES, axeLength, steps[..i]), axeLength, steps[i])
  {
    hide Enabled, Next;
    assert steps[..i + 1] == steps[..i] + [steps[i]];
    OneMoreStep(NODES, axeLength, steps[..i], steps[i]);
  }

  lemma ReaderSteps(axeLength: nat, rows: seq<Row>, a: Replica)
    requires axeLength >= 2 && IsRun(NODES, axeLength, Disagreement(axeLength)[..5])
    requires
      After(NODES, axeLength, Disagreement(axeLength)[..5])
      == At(a, map[], map[], rows, {map[ROW := Dropped(axeLength).row], map[ROW := Again(axeLength).row]})
    ensures IsRun(NODES, axeLength, Disagreement(axeLength))
    ensures
      var net := After(NODES, axeLength, Disagreement(axeLength));
      && net.written == map[ROW := rows] && net.replicas.Keys == NODES
      && ROW in net.replicas["b"] && net.replicas["b"][ROW].row == Again(axeLength).row
      && ROW in net.replicas["c"] && net.replicas["c"][ROW].row == Dropped(axeLength).row
  {
    hide Enabled, Possible, Next, IsTrace, IsRun, After, FirstBin, SetBin, Merged, Taken, Dropped, Again;
    ThreeRows(axeLength);
    var steps := Disagreement(axeLength);
    var d, s := Dropped(axeLength).row, Again(axeLength).row;
    var r1, r2 := map[ROW := d], map[ROW := s];
    var b1 := Merged(map[], axeLength, r1);
    var b2 := Merged(b1, axeLength, r2);
    var c1 := Merged(map[], axeLength, r2);
    var c2 := Merged(c1, axeLength, r1);
    Delivers(axeLength, a, map[], map[], rows, {r1, r2}, r1);
    NextStep(axeLength, steps, 5);
    Delivers(axeLength, a, b1, map[], rows, {r1, r2}, r2);
    NextStep(axeLength, steps, 6);
    Delivers(axeLength, a, b2, map[], rows, {r1, r2}, r2);
    NextStep(axeLength, steps, 7);
    Delivers(axeLength, a, b2, c1, rows, {r1, r2}, r1);
    NextStep(axeLength, steps, 8);
    assert steps[..9] == steps;
    LastStays(axeLength, d, s);
    LastStays(axeLength, s, d);
  }

  lemma ReceivedRows(axeLength: nat, n: NodeId)
    requires n in {"b", "c"}
    ensures
      var d, s := Dropped(axeLength).row, Again(axeLength).row;
      Received(Disagreement(axeLength), n, ROW) == if n == "b" then [d, s] else [s, d]
  {
    hide Received, Taken, Dropped, Again;
    var steps := Disagreement(axeLength);
    NothingReceived(n);
    assert steps[..0] == [];
    ReceivedNext(steps, n, 0);
    ReceivedNext(steps, n, 1);
    ReceivedNext(steps, n, 2);
    ReceivedNext(steps, n, 3);
    ReceivedNext(steps, n, 4);
    ReceivedNext(steps, n, 5);
    ReceivedNext(steps, n, 6);
    ReceivedNext(steps, n, 7);
    ReceivedNext(steps, n, 8);
    assert steps[..9] == steps;
  }

  lemma NothingReceived(n: NodeId)
    ensures Received([], n, ROW) == []
  {
  }

  lemma ReceivedNext(steps: seq<Step>, n: NodeId, i: nat)
    requires i < |steps|
    ensures
      var s := steps[i];
      Received(steps[..i + 1], n, ROW)
      == if s.Deliver? && s.to == n && ROW in s.report then Received(steps[..i], n, ROW) + [s.report[ROW]]
         else Received(steps[..i], n, ROW)
  {
    assert steps[..i + 1][..i] == steps[..i];
  }

  /** On every axis of two bins or more there is such a run: two nodes received the same rows, in
      different order, and hold different ones. */
  lemma SameReportsDifferentRows(axeLength: nat) returns (steps: seq<Step>)
    requires axeLength >= 2
    ensures IsRun(NODES, axeLength, steps)
    ensures forall r :: r in Received(steps, "b", ROW) <==> r in Received(steps, "c", ROW)
    ensures
      var net := After(NODES, axeLength, steps);
      && ROW in net.written && !Coherent(net.written[ROW])
      && net.replicas.Keys == NODES && ROW in net.replicas["b"] && ROW in net.replicas["c"]
      && net.replicas["b"][ROW].row != net.replicas["c"][ROW].row
  {
    hide IsRun, After, Received, Disagreement, Taken, Dropped, Again;
    steps := Disagreement(axeLength);
    ThreeRows(axeLength);
    var rows := [Taken(axeLength).row, Dropped(axeLength).row, Again(axeLength).row];
    WriterSteps(axeLength);
    ReaderSteps(axeLength, rows, map[ROW := Again(axeLength)]);
    ReceivedRows(axeLength, "b");
    ReceivedRows(axeLength, "c");
    assert rows[1] in rows && rows[2] in rows;
  }
}

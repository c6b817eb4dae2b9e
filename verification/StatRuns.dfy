/** Runs of the operations on one message of the statistics matrix: when its cached counts are up to date,
    when they contradict each other, and what a null entry does to them. */
module StatRuns {
  import opened Collections
  import opened StatRow
  import opened StatMessage

  // -------- what one operation does to the counts --------

  /** A bin of the axis, or the one after it, that is not before the version of the row. */
  ghost predicate Forward(views: map<NodeId, View>, axeLength: nat, node: NodeId, bin: nat) {
    bin <= axeLength && (node in views ==> views[node].row.version <= bin)
  }

  /** A row of the node, as its writer made it: all rows of one writer have one start index. */
  ghost predicate Fits(views: map<NodeId, View>, axeLength: nat, node: NodeId, row: Row) {
    RowOk(row, axeLength) && (node in views ==> row.start == views[node].row.start)
  }

  /** The bins recorded for a node do not go down, and received rows are rows of their writer. */
  ghost predicate Rises(s: Msg, axeLength: nat, op: Op) {
    match op
    case Record(node, bin, _, _, _, _) => Forward(s.views, axeLength, node, bin)
    case Learn(node, row, _, _) => Fits(s.views, axeLength, node, row)
    case _ => true
  }

  lemma RowsAreShaped(views: map<NodeId, View>, axeLength: nat)
    requires ViewsOk(views, axeLength)
    ensures AllShaped(views, axeLength)
  {
  }

  lemma SameSeen(v: View, w: View, axeLength: nat)
    requires ViewOk(v, axeLength) && ViewOk(w, axeLength) && v.row.start == w.row.start
    ensures v.seen == w.seen
  {
  }

  /** The row of one node changes or is new. */
  ghost predicate Changes(views: map<NodeId, View>, axeLength: nat, node: NodeId, v: View) {
    && ViewsOk(views, axeLength) && ViewOk(v, axeLength)
    && (node in views ==> v.row.start == views[node].row.start)
  }

  lemma ObservedChanges(views: map<NodeId, View>, axeLength: nat, node: NodeId, bin: nat, value: int)
    requires ViewsOk(views, axeLength) && Forward(views, axeLength, node, bin)
    ensures AllShaped(views, axeLength)
    ensures
      var after := Observed(views, axeLength, node, bin, value);
      && node in after && after == views[node := after[node]] && Changes(views, axeLength, node, after[node])
      && (node !in views ==> after[node].row.start == bin)
  {
    hide ViewOk;
    RowsAreShaped(views, axeLength);
    if node in views {
      SetBinOk(views[node], axeLength, bin, value);
    } else {
      FirstBinOk(axeLength, bin, value);
    }
  }

  lemma ToldChanges(views: map<NodeId, View>, axeLength: nat, node: NodeId, row: Row)
    requires ViewsOk(views, axeLength) && Fits(views, axeLength, node, row)
    ensures AllShaped(views, axeLength) && |row.bits| == axeLength
    ensures
      var after := Told(views, axeLength, node, row);
      && node in after && after == views[node := after[node]] && Changes(views, axeLength, node, after[node])
      && (node !in views ==> after[node].row == row)
  {
    hide ViewOk;
    RowsAreShaped(views, axeLength);
    if node in views {
      MergeOk(views[node], row, axeLength);
    } else {
      FirstReportOk(row, axeLength);
    }
  }

  lemma ChangedOk(views: map<NodeId, View>, axeLength: nat, node: NodeId, v: View)
    requires Changes(views, axeLength, node, v)
    ensures AllShaped(views, axeLength) && ViewsOk(views[node := v], axeLength)
    ensures AllShaped(views[node := v], axeLength)
  {
    hide ViewOk;
    RowsAreShaped(views, axeLength);
    RowsAreShaped(views[node := v], axeLength);
  }

  lemma SeenAtChanged(views: map<NodeId, View>, axeLength: nat, node: NodeId, v: View, i: nat)
    requires Changes(views, axeLength, node, v) && i < axeLength
    ensures SeenAt(views[node := v], i)
            == if node !in views && v.row.start <= i then SeenAt(views, i) + {node} else SeenAt(views, i)
  {
    if node in views { SameSeen(v, views[node], axeLength); }
  }

  /** Only a new node is added to the seen counts, from its first bin on. */
  lemma SeenChanged(views: map<NodeId, View>, axeLength: nat, node: NodeId, v: View)
    requires Changes(views, axeLength, node, v)
    requires AllShaped(views, axeLength) && AllShaped(views[node := v], axeLength)
    ensures
      forall i :: 0 <= i < axeLength ==>
        SeenCounts(views[node := v], axeLength)[i]
        == SeenCounts(views, axeLength)[i] + if node !in views && v.row.start <= i then 1 else 0
  {
    hide Changes;
    forall i | 0 <= i < axeLength
      ensures |SeenAt(views[node := v], i)|
              == |SeenAt(views, i)| + if node !in views && v.row.start <= i then 1 else 0
    {
      SeenAtChanged(views, axeLength, node, v, i);
    }
  }

  /** The bit of the node before the change. */
  ghost function OldBit(views: map<NodeId, View>, node: NodeId, i: nat): int
    requires node in views ==> i < |views[node].row.bits|
  {
    if node in views then views[node].row.bits[i] else 0
  }

  lemma CopiesAtChanged(views: map<NodeId, View>, axeLength: nat, node: NodeId, v: View, i: nat)
    requires AllShaped(views, axeLength) && Shaped(v, axeLength) && i < axeLength
    ensures
      var rest := CopiesAt(views, i) - {node};
      && CopiesAt(views[node := v], i) == (if v.row.bits[i] == 1 then rest + {node} else rest)
      && CopiesAt(views, i) == (if OldBit(views, node, i) == 1 then rest + {node} else rest)
  {
  }

  lemma BitIsBinary(v: View, axeLength: nat, i: nat)
    requires ViewOk(v, axeLength) && i < axeLength
    ensures v.row.bits[i] == 0 || v.row.bits[i] == 1
  {
  }

  lemma BitsChanged(views: map<NodeId, View>, axeLength: nat, node: NodeId, v: View, i: nat)
    requires Changes(views, axeLength, node, v) && i < axeLength
    ensures |CopiesAt(views[node := v], i)| == |CopiesAt(views, i)| + v.row.bits[i] - OldBit(views, node, i)
  {
    hide CopiesAt, ViewOk;
    BitIsBinary(v, axeLength, i);
    if node in views { BitIsBinary(views[node], axeLength, i); }
    RowsAreShaped(views, axeLength);
    ChangedOk(views, axeLength, node, v);
    assert Shaped(views[node := v][node], axeLength);
    CopiesAtChanged(views, axeLength, node, v, i);
  }

  /** Every bin gains the new bit and loses the old one. */
  lemma CopiesChanged(views: map<NodeId, View>, axeLength: nat, node: NodeId, v: View)
    requires Changes(views, axeLength, node, v)
    requires AllShaped(views, axeLength) && AllShaped(views[node := v], axeLength)
    ensures
      forall i :: 0 <= i < axeLength ==>
        CopyCounts(views[node := v], axeLength)[i]
        == CopyCounts(views, axeLength)[i] + v.row.bits[i] - OldBit(views, node, i)
  {
    hide CopyCounts, ViewsOk;
    ChangedOk(views, axeLength, node, v);
    CopiesAreCounted(views, axeLength);
    CopiesAreCounted(views[node := v], axeLength);
    forall i | 0 <= i < axeLength
      ensures |CopiesAt(views[node := v], i)| == |CopiesAt(views, i)| + v.row.bits[i] - OldBit(views, node, i)
    {
      BitsChanged(views, axeLength, node, v, i);
    }
  }

  lemma CountSizes(views: map<NodeId, View>, axeLength: nat)
    requires AllShaped(views, axeLength)
    ensures |SeenCounts(views, axeLength)| == |CopyCounts(views, axeLength)| == axeLength
  {
  }

  lemma SeenKeptIff(views: map<NodeId, View>, axeLength: nat, node: NodeId, v: View)
    requires Changes(views, axeLength, node, v)
    requires AllShaped(views, axeLength) && AllShaped(views[node := v], axeLength)
    ensures SeenCounts(views[node := v], axeLength) == SeenCounts(views, axeLength)
            <==> node in views || v.row.start == axeLength
  {
    hide SeenCounts, CopyCounts;
    SeenChanged(views, axeLength, node, v);
    CountSizes(views, axeLength);
    CountSizes(views[node := v], axeLength);
    if node !in views && v.row.start < axeLength {
      var i := v.row.start;
      assert SeenCounts(views[node := v], axeLength)[i] != SeenCounts(views, axeLength)[i];
    } else {
      assert SeenCounts(views[node := v], axeLength) == SeenCounts(views, axeLength);
    }
  }

  lemma CopiesKeptIff(views: map<NodeId, View>, axeLength: nat, node: NodeId, v: View)
    requires Changes(views, axeLength, node, v)
    requires AllShaped(views, axeLength) && AllShaped(views[node := v], axeLength)
    ensures CopyCounts(views[node := v], axeLength) == CopyCounts(views, axeLength)
            <==> forall i :: 0 <= i < axeLength ==> v.row.bits[i] == OldBit(views, node, i)
  {
    hide SeenCounts, CopyCounts;
    CopiesChanged(views, axeLength, node, v);
    CountSizes(views, axeLength);
    CountSizes(views[node := v], axeLength);
    if forall i :: 0 <= i < axeLength ==> v.row.bits[i] == OldBit(views, node, i) {
      assert CopyCounts(views[node := v], axeLength) == CopyCounts(views, axeLength);
    } else {
      var i :| 0 <= i < axeLength && v.row.bits[i] != OldBit(views, node, i);
      assert CopyCounts(views[node := v], axeLength)[i] != CopyCounts(views, axeLength)[i];
    }
  }

  /** The observation sets a bit that was not set. */
  ghost predicate SetsBit(views: map<NodeId, View>, axeLength: nat, node: NodeId, bin: nat, value: int)
    requires AllShaped(views, axeLength)
  {
    value == 1 && bin < axeLength && (node in views ==> views[node].row.bits[bin] == 0)
  }

  lemma SetsOneBit(views: map<NodeId, View>, axeLength: nat, node: NodeId, bin: nat, value: int, i: nat)
    requires AllShaped(views, axeLength) && ViewsOk(views, axeLength) && Forward(views, axeLength, node, bin)
    requires i < axeLength
    ensures
      var after := Observed(views, axeLength, node, bin, value);
      after[node].row.bits[i]
      == if SetsBit(views, axeLength, node, bin, value) && i == bin then 1 else OldBit(views, node, i)
  {
  }

  // -------- one operation, and the next report --------

  /** If the seen counts were up to date, the next report after a local update is exactly when the
      clock has moved since the last report, the node is known, or the bin is not on the axis. */
  lemma SeenUpToDateIff(s: Msg, axeLength: nat, node: NodeId, bin: nat, value: int, lt: int, ttl: int, now: int)
    requires MsgOk(s, axeLength) && ViewsOk(s.views, axeLength) && !s.frozen
    requires s.mi == SeenCounts(s.views, axeLength) && Forward(s.views, axeLength, node, bin)
    ensures
      var r := Recorded(s, axeLength, node, bin, value, lt, ttl, now);
      AskedSeen(r, axeLength, now).mi == SeenCounts(r.views, axeLength)
      <==> now > s.lastMi || node in s.views || bin == axeLength
  {
    hide SeenCounts, ViewsOk, Observed, Changes;
    ObservedChanges(s.views, axeLength, node, bin, value);
    var v := Observed(s.views, axeLength, node, bin, value)[node];
    ChangedOk(s.views, axeLength, node, v);
    SeenKeptIff(s.views, axeLength, node, v);
  }

  /** The same for the copies, unless the update sets a bit that was not set. */
  lemma CopiesUpToDateIff(s: Msg, axeLength: nat, node: NodeId, bin: nat, value: int, lt: int, ttl: int, now: int)
    requires MsgOk(s, axeLength) && ViewsOk(s.views, axeLength) && !s.frozen
    requires s.ni == CopyCounts(s.views, axeLength) && Forward(s.views, axeLength, node, bin)
    ensures
      var r := Recorded(s, axeLength, node, bin, value, lt, ttl, now);
      AskedCopies(r, axeLength, now).ni == CopyCounts(r.views, axeLength)
      <==> now > s.lastNi || !SetsBit(s.views, axeLength, node, bin, value)
  {
    hide CopyCounts, ViewsOk, Observed, Changes;
    ObservedChanges(s.views, axeLength, node, bin, value);
    var v := Observed(s.views, axeLength, node, bin, value)[node];
    ChangedOk(s.views, axeLength, node, v);
    CopiesKeptIff(s.views, axeLength, node, v);
    forall i | 0 <= i < axeLength
      ensures v.row.bits[i]
              == if SetsBit(s.views, axeLength, node, bin, value) && i == bin then 1 else OldBit(s.views, node, i)
    {
      SetsOneBit(s.views, axeLength, node, bin, value, i);
    }
    if SetsBit(s.views, axeLength, node, bin, value) { assert v.row.bits[bin] != OldBit(s.views, node, bin); }
  }

  /** A received row does not make a report due: the next report is exact if and only if there was an update
      since the last one, or the row adds no node on the axis. */
  lemma LearnedSeenUpToDateIff(s: Msg, axeLength: nat, node: NodeId, row: Row, ttl: int, now: int)
    requires MsgOk(s, axeLength) && ViewsOk(s.views, axeLength) && !s.frozen
    requires s.mi == SeenCounts(s.views, axeLength) && Fits(s.views, axeLength, node, row)
    ensures |row.bits| == axeLength
    ensures
      var r := Learned(s, axeLength, node, row, ttl);
      AskedSeen(r, axeLength, now).mi == SeenCounts(r.views, axeLength)
      <==> s.lastMi < s.updated || node in s.views || row.start == axeLength
  {
    hide SeenCounts, ViewsOk, Told, Changes;
    ToldChanges(s.views, axeLength, node, row);
    var v := Told(s.views, axeLength, node, row)[node];
    ChangedOk(s.views, axeLength, node, v);
    SeenKeptIff(s.views, axeLength, node, v);
    SomeRow(s.views, node, v);
  }

  lemma SomeRow(views: map<NodeId, View>, node: NodeId, v: View)
    ensures |views[node := v]| > 0
  {
    assert node in views[node := v];
  }

  /** For the copies: or the row is older than the known one, or holds the same bits. */
  lemma LearnedCopiesUpToDateIff(s: Msg, axeLength: nat, node: NodeId, row: Row, ttl: int, now: int)
    requires MsgOk(s, axeLength) && ViewsOk(s.views, axeLength) && !s.frozen
    requires s.ni == CopyCounts(s.views, axeLength) && Fits(s.views, axeLength, node, row)
    ensures |row.bits| == axeLength
    ensures
      var r := Learned(s, axeLength, node, row, ttl);
      AskedCopies(r, axeLength, now).ni == CopyCounts(r.views, axeLength)
      <==> || s.lastNi < s.updated || (node in s.views && row.version < s.views[node].row.version)
           || forall i :: 0 <= i < axeLength ==> row.bits[i] == OldBit(s.views, node, i)
  {
    hide CopyCounts, ViewsOk, Changes;
    ToldChanges(s.views, axeLength, node, row);
    var v := Told(s.views, axeLength, node, row)[node];
    ChangedOk(s.views, axeLength, node, v);
    CopiesKeptIff(s.views, axeLength, node, v);
    SomeRow(s.views, node, v);
  }

  // -------- runs --------

  ghost predicate OpsOk(ops: seq<Op>, axeLength: nat) {
    forall op :: op in ops ==> OpOk(op, axeLength)
  }

  function Front(ops: seq<Op>): seq<Op>
    requires ops != []
  {
    ops[..|ops| - 1]
  }

  function Last(ops: seq<Op>): Op
    requires ops != []
  {
    ops[|ops| - 1]
  }

  ghost function Run(s: Msg, axeLength: nat, ops: seq<Op>): (e: Msg)
    requires MsgOk(s, axeLength) && OpsOk(ops, axeLength)
    ensures MsgOk(e, axeLength)
  {
    if ops == [] then s else Apply(Run(s, axeLength, Front(ops)), axeLength, Last(ops))
  }

  /** The clock does not go back, and it has moved between a report and the next local update. */
  ghost predicate Ticks(s: Msg, op: Op) {
    op.now >= s.updated && (op.Record? ==> op.now > s.lastMi && op.now > s.lastNi)
  }

  ghost predicate Ticking(s: Msg, axeLength: nat, ops: seq<Op>)
    requires MsgOk(s, axeLength) && OpsOk(ops, axeLength)
  {
    ops == [] || (Ticking(s, axeLength, Front(ops)) && Ticks(Run(s, axeLength, Front(ops)), Last(ops)))
  }

  ghost predicate Rising(s: Msg, axeLength: nat, ops: seq<Op>)
    requires MsgOk(s, axeLength) && OpsOk(ops, axeLength)
  {
    ops == [] || (Rising(s, axeLength, Front(ops)) && Rises(Run(s, axeLength, Front(ops)), axeLength, Last(ops)))
  }

  // -------- when reports are exact --------

  /** A row was received while no report of the seen counts was due, and there was no local update since. */
  ghost predicate MissedForSeen(s: Msg, axeLength: nat, ops: seq<Op>)
    requires MsgOk(s, axeLength) && OpsOk(ops, axeLength)
  {
    ops != [] &&
    var e, op := Run(s, axeLength, Front(ops)), Last(ops);
    if op.Learn? && e.lastMi >= e.updated then true else !op.Record? && MissedForSeen(s, axeLength, Front(ops))
  }

  ghost predicate MissedForCopies(s: Msg, axeLength: nat, ops: seq<Op>)
    requires MsgOk(s, axeLength) && OpsOk(ops, axeLength)
  {
    ops != [] &&
    var e, op := Run(s, axeLength, Front(ops)), Last(ops);
    if op.Learn? && e.lastNi >= e.updated then true else !op.Record? && MissedForCopies(s, axeLength, Front(ops))
  }

  /** The counts are the fold unless a report is due. */
  ghost predicate SeenCached(s: Msg, axeLength: nat)
    requires MsgOk(s, axeLength)
  {
    !s.frozen ==> Current(s.mi, SeenCounts(s.views, axeLength), s.lastMi, s.updated, Rows(s))
  }

  ghost predicate CopiesCached(s: Msg, axeLength: nat)
    requires MsgOk(s, axeLength)
  {
    !s.frozen ==> Current(s.ni, CopyCounts(s.views, axeLength), s.lastNi, s.updated, Rows(s))
  }

  lemma RecordCaches(s: Msg, axeLength: nat, op: Op)
    requires MsgOk(s, axeLength) && op.Record? && Ticks(s, op)
    ensures SeenCached(Apply(s, axeLength, op), axeLength) && CopiesCached(Apply(s, axeLength, op), axeLength)
  {
    hide SeenCounts, CopyCounts;
    assert op.node in Observed(s.views, axeLength, op.node, op.bin, op.value);
  }

  lemma ClosedCounts(s: Msg, axeLength: nat, endpoint: NodeId, now: int)
    requires MsgOk(s, axeLength)
    ensures
      var c := Closed(s, axeLength, endpoint, now);
      && SeenCounts(c.views, axeLength) == SeenCounts(s.views, axeLength)
      && CopyCounts(c.views, axeLength) == CopyCounts(s.views, axeLength)
      && c.views.Keys == s.views.Keys && |c.views| == |s.views| && s.nulls <= c.nulls && Rows(s) <= Rows(c)
  {
    var c := Closed(s, axeLength, endpoint, now);
    if endpoint in s.views { LastVersionKeepsCounts(s.views, axeLength, endpoint); }
    assert c.views.Keys == s.views.Keys && |c.views| == |c.views.Keys| && |s.views| == |s.views.Keys|;
    SubsetSize(s.nulls, c.nulls);
  }

  lemma StepCaches(s: Msg, axeLength: nat, op: Op)
    requires MsgOk(s, axeLength) && OpOk(op, axeLength) && Ticks(s, op)
    ensures
      var e := Apply(s, axeLength, op);
      && (op.Record? || (SeenCached(s, axeLength) && !(op.Learn? && s.lastMi >= s.updated)) ==> SeenCached(e, axeLength))
      && (op.Record? || (CopiesCached(s, axeLength) && !(op.Learn? && s.lastNi >= s.updated)) ==>
            CopiesCached(e, axeLength))
  {
    hide SeenCounts, CopyCounts, Told;
    match op
    case Record(_, _, _, _, _, _) => RecordCaches(s, axeLength, op);
    case Learn(node, row, _, _) => ToldHasRow(s.views, axeLength, node, row);
    case AskSeen(_) =>
    case AskCopies(_) =>
    case Validate(endpoint, now) => ClosedCounts(s, axeLength, endpoint, now);
  }

  lemma ToldHasRow(views: map<NodeId, View>, axeLength: nat, node: NodeId, row: Row)
    requires AllShaped(views, axeLength) && |row.bits| == axeLength
    ensures |Told(views, axeLength, node, row)| > 0
  {
    assert node in Told(views, axeLength, node, row);
  }

  lemma {:induction false} RunCaches(s: Msg, axeLength: nat, ops: seq<Op>)
    requires MsgOk(s, axeLength) && OpsOk(ops, axeLength) && Ticking(s, axeLength, ops)
    requires SeenCached(s, axeLength) && CopiesCached(s, axeLength)
    ensures !MissedForSeen(s, axeLength, ops) ==> SeenCached(Run(s, axeLength, ops), axeLength)
    ensures !MissedForCopies(s, axeLength, ops) ==> CopiesCached(Run(s, axeLength, ops), axeLength)
    decreases |ops|
  {
    hide Apply, Ticks, SeenCached, CopiesCached, OpOk;
    if ops != [] {
      RunCaches(s, axeLength, Front(ops));
      StepCaches(Run(s, axeLength, Front(ops)), axeLength, Last(ops));
    }
  }

  /** Every report of a message that still has its rows is the fold over these rows, unless a row came in
      when no report was due and no local update followed it. */
  lemma RunReportsFold(s: Msg, axeLength: nat, ops: seq<Op>, now: int)
    requires MsgOk(s, axeLength) && OpsOk(ops, axeLength) && Ticking(s, axeLength, ops)
    requires SeenCached(s, axeLength) && CopiesCached(s, axeLength)
    ensures
      var e := Run(s, axeLength, ops);
      !e.frozen ==>
        && (!MissedForSeen(s, axeLength, ops) ==> AskedSeen(e, axeLength, now).mi == SeenCounts(e.views, axeLength))
        && (!MissedForCopies(s, axeLength, ops) ==> AskedCopies(e, axeLength, now).ni == CopyCounts(e.views, axeLength))
  {
    hide Run, Ticking, MissedForSeen, MissedForCopies, SeenCounts, CopyCounts;
    RunCaches(s, axeLength, ops);
  }

  // -------- counts of different age --------

  ghost predicate Updates(op: Op) { op.Record? || op.Learn? }

  /** The seen counts were recomputed, and the rows did not change since. */
  ghost predicate SeenIsFresh(s: Msg, axeLength: nat, ops: seq<Op>)
    requires MsgOk(s, axeLength) && OpsOk(ops, axeLength)
  {
    ops == [] ||
    if Last(ops).AskSeen? && FoldsSeen(Run(s, axeLength, Front(ops))) then true
    else !Updates(Last(ops)) && SeenIsFresh(s, axeLength, Front(ops))
  }

  /** No row changed between the last recomputation of the seen counts and that of the copies. */
  ghost predicate SeenIsNewer(s: Msg, axeLength: nat, ops: seq<Op>)
    requires MsgOk(s, axeLength) && OpsOk(ops, axeLength)
  {
    ops == [] ||
    if Last(ops).AskSeen? && FoldsSeen(Run(s, axeLength, Front(ops))) then true
    else if Last(ops).AskCopies? && FoldsCopies(Run(s, axeLength, Front(ops))) then
      SeenIsFresh(s, axeLength, Front(ops))
    else SeenIsNewer(s, axeLength, Front(ops))
  }

  ghost predicate Below(counts: seq<int>, bound: seq<int>) {
    |counts| == |bound| && forall i :: 0 <= i < |counts| ==> counts[i] <= bound[i]
  }

  ghost predicate Monotone(counts: seq<int>) {
    forall i, j :: 0 <= i <= j < |counts| ==> counts[i] <= counts[j]
  }

  /** What a run keeps: the rows are well formed, no count is above the seen counts of the present
      rows, and the copies are below the seen counts if the latter are new enough. */
  ghost predicate CountsOk(s: Msg, axeLength: nat, recent: bool, newer: bool)
    requires MsgOk(s, axeLength)
  {
    && Monotone(s.mi) && ViewsOk(s.views, axeLength)
    && (s.frozen || newer ==> Below(s.ni, s.mi))
    && (!s.frozen ==>
          && Below(s.mi, SeenCounts(s.views, axeLength)) && Below(s.ni, SeenCounts(s.views, axeLength))
          && (recent ==> s.mi == SeenCounts(s.views, axeLength)))
  }

  lemma FoldsAreOk(views: map<NodeId, View>, axeLength: nat)
    requires ViewsOk(views, axeLength) && AllShaped(views, axeLength)
    ensures Monotone(SeenCounts(views, axeLength))
    ensures Below(CopyCounts(views, axeLength), SeenCounts(views, axeLength))
    ensures Below(SeenCounts(views, axeLength), SeenCounts(views, axeLength))
  {
    CountBounds(views, axeLength);
  }

  lemma NewIsOk(axeLength: nat, ttl: int, now: int)
    ensures CountsOk(New(axeLength, ttl, now), axeLength, true, true)
  {
    NewIsCached(axeLength, ttl, now);
  }

  lemma NewIsCached(axeLength: nat, ttl: int, now: int)
    ensures
      var s := New(axeLength, ttl, now);
      s.mi == SeenCounts(s.views, axeLength) && s.ni == CopyCounts(s.views, axeLength)
  {
    assert forall i :: 0 <= i < axeLength ==> SeenAt(map[], i) == {};
  }

  lemma ChangeCounts(s: Msg, e: Msg, axeLength: nat, node: NodeId, v: View, newer: bool)
    requires MsgOk(s, axeLength) && MsgOk(e, axeLength) && CountsOk(s, axeLength, false, newer)
    requires Changes(s.views, axeLength, node, v) && e.views == s.views[node := v]
    requires e.mi == s.mi && e.ni == s.ni && e.frozen == s.frozen
    ensures CountsOk(e, axeLength, false, newer)
  {
    hide SeenCounts, CopyCounts, ViewsOk, Changes;
    ChangedOk(s.views, axeLength, node, v);
    SeenChanged(s.views, axeLength, node, v);
    CountSizes(s.views, axeLength);
    CountSizes(e.views, axeLength);
  }

  lemma UpdateCounts(s: Msg, axeLength: nat, op: Op, newer: bool)
    requires MsgOk(s, axeLength) && OpOk(op, axeLength) && Updates(op) && CountsOk(s, axeLength, false, newer)
    requires Rises(s, axeLength, op)
    ensures CountsOk(Apply(s, axeLength, op), axeLength, false, newer)
  {
    hide SeenCounts, CopyCounts, ViewsOk, Changes, Observed, Told, Forward, Fits;
    RowsOfCounts(s, axeLength, false, newer);
    var e := Apply(s, axeLength, op);
    if op.Record? {
      ObservedChanges(s.views, axeLength, op.node, op.bin, op.value);
    } else {
      ToldChanges(s.views, axeLength, op.node, op.row);
    }
    ChangeCounts(s, e, axeLength, op.node, e.views[op.node], newer);
  }

  lemma RowsOfCounts(s: Msg, axeLength: nat, recent: bool, newer: bool)
    requires MsgOk(s, axeLength) && CountsOk(s, axeLength, recent, newer)
    ensures ViewsOk(s.views, axeLength)
  {
  }

  lemma AskCounts(s: Msg, axeLength: nat, op: Op, recent: bool, newer: bool)
    requires MsgOk(s, axeLength) && (op.AskSeen? || op.AskCopies?) && CountsOk(s, axeLength, recent, newer)
    ensures
      CountsOk(Apply(s, axeLength, op), axeLength, recent || (op.AskSeen? && FoldsSeen(s)),
               if op.AskSeen? then FoldsSeen(s) || newer else if FoldsCopies(s) then recent else newer)
  {
    hide SeenCounts, CopyCounts, ViewsOk, Rows;
    FoldsAreOk(s.views, axeLength);
  }

  lemma ClosedRows(s: Msg, axeLength: nat, endpoint: NodeId, now: int)
    requires MsgOk(s, axeLength) && ViewsOk(s.views, axeLength)
    ensures ViewsOk(Closed(s, axeLength, endpoint, now).views, axeLength)
  {
    hide ViewOk, SetBin;
    if endpoint in s.views && s.views[endpoint].row.version < axeLength {
      SetBinOk(s.views[endpoint], axeLength, axeLength, 0);
    }
  }

  lemma NoRows(axeLength: nat)
    ensures ViewsOk(map[], axeLength)
  {
  }

  lemma ClosedKeeps(s: Msg, axeLength: nat, endpoint: NodeId, now: int)
    requires MsgOk(s, axeLength)
    ensures
      var c := Closed(s, axeLength, endpoint, now);
      c.mi == s.mi && c.ni == s.ni && c.frozen == s.frozen
  {
  }

  lemma ValidateCounts(s: Msg, axeLength: nat, op: Op, recent: bool, newer: bool)
    requires MsgOk(s, axeLength) && op.Validate? && CountsOk(s, axeLength, recent, newer)
    ensures CountsOk(Apply(s, axeLength, op), axeLength, recent, newer)
  {
    hide SeenCounts, CopyCounts, ViewsOk, Closed, IsComplete;
    var c := Closed(s, axeLength, op.endpoint, op.now);
    ClosedCounts(s, axeLength, op.endpoint, op.now);
    ClosedRows(s, axeLength, op.endpoint, op.now);
    FoldsAreOk(c.views, axeLength);
    NoRows(axeLength);
    ClosedKeeps(s, axeLength, op.endpoint, op.now);
  }

  lemma WeakerFlags(s: Msg, axeLength: nat, recent: bool, newer: bool, recent2: bool, newer2: bool)
    requires MsgOk(s, axeLength) && CountsOk(s, axeLength, recent, newer)
    requires (recent2 ==> recent) && (newer2 ==> newer)
    ensures CountsOk(s, axeLength, recent2, newer2)
  {
    hide SeenCounts, CopyCounts, ViewsOk;
  }

  lemma StepCounts(s: Msg, axeLength: nat, op: Op, recent: bool, newer: bool, recent2: bool, newer2: bool)
    requires MsgOk(s, axeLength) && OpOk(op, axeLength) && CountsOk(s, axeLength, recent, newer)
    requires Rises(s, axeLength, op)
    requires recent2 ==> (op.AskSeen? && FoldsSeen(s)) || (!Updates(op) && recent)
    requires newer2 ==> || (op.AskSeen? && FoldsSeen(s))
                        || if op.AskCopies? && FoldsCopies(s) then recent else newer
    ensures CountsOk(Apply(s, axeLength, op), axeLength, recent2, newer2)
  {
    hide CountsOk, Apply, Rises, FoldsSeen, FoldsCopies;
    var e := Apply(s, axeLength, op);
    if Updates(op) {
      WeakerFlags(s, axeLength, recent, newer, false, newer);
      UpdateCounts(s, axeLength, op, newer);
      WeakerFlags(e, axeLength, false, newer, recent2, newer2);
    } else if op.Validate? {
      ValidateCounts(s, axeLength, op, recent, newer);
      WeakerFlags(e, axeLength, recent, newer, recent2, newer2);
    } else {
      AskCounts(s, axeLength, op, recent, newer);
      WeakerFlags(e, axeLength, recent || (op.AskSeen? && FoldsSeen(s)),
                  if op.AskSeen? then FoldsSeen(s) || newer else if FoldsCopies(s) then recent else newer,
                  recent2, newer2);
    }
  }

  lemma {:induction false} RunCounts(axeLength: nat, ttl: int, start: int, ops: seq<Op>)
    requires OpsOk(ops, axeLength) && Rising(New(axeLength, ttl, start), axeLength, ops)
    ensures
      var s := New(axeLength, ttl, start);
      CountsOk(Run(s, axeLength, ops), axeLength, SeenIsFresh(s, axeLength, ops), SeenIsNewer(s, axeLength, ops))
    decreases |ops|
  {
    hide CountsOk, Apply, Rises, New, FoldsSeen, FoldsCopies, Updates, OpOk;
    var s := New(axeLength, ttl, start);
    if ops == [] {
      NewIsOk(axeLength, ttl, start);
    } else {
      RunCounts(axeLength, ttl, start, Front(ops));
      StepCounts(Run(s, axeLength, Front(ops)), axeLength, Last(ops),
                 SeenIsFresh(s, axeLength, Front(ops)), SeenIsNewer(s, axeLength, Front(ops)),
                 SeenIsFresh(s, axeLength, ops), SeenIsNewer(s, axeLength, ops));
    }
  }

  /** The kept counts of a message after any run of local updates, received rows, reports and validations:
      the seen counts grow along the axis and stay below the number of rows, and the copies stay below the
      seen counts if no row changed between the last recomputations of the two. */
  lemma ReportsAreBounded(axeLength: nat, ttl: int, start: int, ops: seq<Op>)
    requires OpsOk(ops, axeLength) && Rising(New(axeLength, ttl, start), axeLength, ops)
    ensures
      var s := New(axeLength, ttl, start);
      var e := Run(s, axeLength, ops);
      && (forall i, j :: 0 <= i <= j < axeLength ==> e.mi[i] <= e.mi[j])
      && (!e.frozen ==> forall i :: 0 <= i < axeLength ==> e.mi[i] <= |e.views|)
      && (SeenIsNewer(s, axeLength, ops) || e.frozen ==> forall i :: 0 <= i < axeLength ==> e.ni[i] <= e.mi[i])
  {
    hide Run, SeenCounts, CopyCounts, ViewsOk, SeenIsNewer, SeenIsFresh, Rising;
    RunCounts(axeLength, ttl, start, ops);
    var e := Run(New(axeLength, ttl, start), axeLength, ops);
    CountBounds(e.views, axeLength);
  }

  /** What the row of a node is if the update makes it. */
  ghost function FirstRow(op: Op, axeLength: nat): Row
    requires Updates(op)
  {
    if op.Record? then FirstBin(axeLength, op.bin, op.value).row else op.row
  }

  /** After one update that only the copies are recomputed for, they exceed the seen counts exactly when it
      adds a node that holds a copy in a bin in which every node that has seen the message holds one. */
  lemma CopiesOvertakeIff(s: Msg, axeLength: nat, op: Op, now: int)
    requires MsgOk(s, axeLength) && OpOk(op, axeLength) && ViewsOk(s.views, axeLength) && !s.frozen
    requires s.mi == SeenCounts(s.views, axeLength)
    requires Updates(op) && Rises(s, axeLength, op) && FoldsCopies(Apply(s, axeLength, op))
    ensures |FirstRow(op, axeLength).bits| == axeLength
    ensures
      var e := AskedCopies(Apply(s, axeLength, op), axeLength, now);
      (exists i :: 0 <= i < axeLength && e.ni[i] > e.mi[i])
      <==> && op.node !in s.views
           && exists i :: 0 <= i < axeLength && FirstRow(op, axeLength).bits[i] == 1
                          && CopyCounts(s.views, axeLength)[i] == SeenCounts(s.views, axeLength)[i]
  {
    hide SeenCounts, CopyCounts, ViewsOk, Changes, Forward, Fits, Rows;
    var r := Apply(s, axeLength, op);
    if op.Record? {
      ObservedChanges(s.views, axeLength, op.node, op.bin, op.value);
    } else {
      ToldChanges(s.views, axeLength, op.node, op.row);
    }
    var v := r.views[op.node];
    OvertakesIff(s.views, axeLength, op.node, v);
    CountSizes(s.views, axeLength);
    assert AskedCopies(r, axeLength, now).ni == CopyCounts(r.views, axeLength);
  }

  lemma OvertakesIff(views: map<NodeId, View>, axeLength: nat, node: NodeId, v: View)
    requires Changes(views, axeLength, node, v)
    ensures AllShaped(views, axeLength) && AllShaped(views[node := v], axeLength)
    ensures |SeenCounts(views, axeLength)| == |CopyCounts(views, axeLength)| == axeLength == |v.row.bits|
    ensures |CopyCounts(views[node := v], axeLength)| == axeLength
    ensures
      var seen, copies := SeenCounts(views, axeLength), CopyCounts(views, axeLength);
      (exists i :: 0 <= i < axeLength && CopyCounts(views[node := v], axeLength)[i] > seen[i])
      <==> node !in views && exists i :: 0 <= i < axeLength && v.row.bits[i] == 1 && copies[i] == seen[i]
  {
    hide SeenCounts, CopyCounts, ViewsOk;
    ChangedOk(views, axeLength, node, v);
    CountSizes(views, axeLength);
    CountSizes(views[node := v], axeLength);
    CountBounds(views, axeLength);
    CountBounds(views[node := v], axeLength);
    SeenChanged(views, axeLength, node, v);
    CopiesChanged(views, axeLength, node, v);
    var after, seen, copies :=
      CopyCounts(views[node := v], axeLength), SeenCounts(views, axeLength), CopyCounts(views, axeLength);
    forall i | 0 <= i < axeLength
      ensures after[i] > seen[i] <==> node !in views && v.row.bits[i] == 1 && copies[i] == seen[i]
    {
      BitIsBinary(v, axeLength, i);
    }
  }

  /** The row of another node is known from its report, and the seen counts are asked for before the node itself
      takes a copy in the same bin. */
  ghost function Overtaking(axeLength: nat, bin: nat): seq<Op> {
    [Learn("b", FirstBin(axeLength, bin, 1).row, 9, 2), AskSeen(3), Record("a", bin, 1, 0, 9, 4), AskCopies(5)]
  }

  /** On every axis and for every bin such a run reports two copies and one node that has seen the message. */
  lemma OneCountIsOlder(axeLength: nat, bin: nat) returns (e: Msg)
    requires bin < axeLength
    ensures OpsOk(Overtaking(axeLength, bin), axeLength)
    ensures Ticking(New(axeLength, 9, 1), axeLength, Overtaking(axeLength, bin))
    ensures Rising(New(axeLength, 9, 1), axeLength, Overtaking(axeLength, bin))
    ensures IsSafe(New(axeLength, 9, 1), axeLength, Overtaking(axeLength, bin))
    ensures e == Run(New(axeLength, 9, 1), axeLength, Overtaking(axeLength, bin))
    ensures e.ni[bin] == 2 && e.mi[bin] == 1
  {
    var s0 := New(axeLength, 9, 1);
    var ops := Overtaking(axeLength, bin);
    FirstBinOk(axeLength, bin, 1);
    var s1 := Apply(s0, axeLength, ops[0]);
    var s2 := Apply(s1, axeLength, ops[1]);
    var s3 := Apply(s2, axeLength, ops[2]);
    e := Apply(s3, axeLength, ops[3]);
    TwoCopies(axeLength, bin, s1, s2, s3, e);
    hide Apply, New, FirstBin, Fits, Forward, Run, Ticking, Rising, IsSafe;
    NoStep(s0, axeLength);
    LeadsOn(s0, axeLength, [], s0, ops[0]);
    LeadsOn(s0, axeLength, [] + [ops[0]], s1, ops[1]);
    LeadsOn(s0, axeLength, [] + [ops[0]] + [ops[1]], s2, ops[2]);
    LeadsOn(s0, axeLength, [] + [ops[0]] + [ops[1]] + [ops[2]], s3, ops[3]);
    assert [] + [ops[0]] + [ops[1]] + [ops[2]] + [ops[3]] == ops;
  }

  lemma TwoCopies(axeLength: nat, bin: nat, s1: Msg, s2: Msg, s3: Msg, e: Msg)
    requires bin < axeLength && OpsOk(Overtaking(axeLength, bin), axeLength)
    requires
      var s0, ops := New(axeLength, 9, 1), Overtaking(axeLength, bin);
      && s1 == Apply(s0, axeLength, ops[0]) && s2 == Apply(s1, axeLength, ops[1])
      && s3 == Apply(s2, axeLength, ops[2]) && e == Apply(s3, axeLength, ops[3])
    ensures
      var s0, ops := New(axeLength, 9, 1), Overtaking(axeLength, bin);
      && Ticks(s0, ops[0]) && Ticks(s1, ops[1]) && Ticks(s2, ops[2]) && Ticks(s3, ops[3])
      && Rises(s0, axeLength, ops[0]) && Rises(s2, axeLength, ops[2])
      && s0.nulls == s1.nulls == s2.nulls == s3.nulls == {}
      && e.ni[bin] == 2 && e.mi[bin] == 1
  {
    hide SeenCounts, CopyCounts, Observed, Told, ViewsOk, Changes, FirstBin;
    var s0, ops := New(axeLength, 9, 1), Overtaking(axeLength, bin);
    NewIsCached(axeLength, 9, 1);
    NoRows(axeLength);
    FirstCopy(axeLength, bin);
    ToldChanges(s0.views, axeLength, "b", ops[0].row);
    TakenBy(s0.views, axeLength, "b", s1.views["b"], bin);
    SomeRow(s0.views, "b", s1.views["b"]);
    ObservedChanges(s2.views, axeLength, "a", bin, 1);
    NewCopy(s2.views, axeLength, "a", bin);
    TakenBy(s2.views, axeLength, "a", s3.views["a"], bin);
    SomeRow(s2.views, "a", s3.views["a"]);
  }

  lemma FirstCopy(axeLength: nat, bin: nat)
    requires bin < axeLength
    ensures RowOk(FirstBin(axeLength, bin, 1).row, axeLength)
    ensures FirstBin(axeLength, bin, 1).row.start == bin && FirstBin(axeLength, bin, 1).row.bits[bin] == 1
  {
  }

  lemma NewCopy(views: map<NodeId, View>, axeLength: nat, node: NodeId, bin: nat)
    requires AllShaped(views, axeLength) && node !in views && bin < axeLength
    ensures Observed(views, axeLength, node, bin, 1)[node] == FirstBin(axeLength, bin, 1)
  {
  }

  /** A new node with its first copy in a bin adds one to both counts of the bin. */
  lemma TakenBy(views: map<NodeId, View>, axeLength: nat, node: NodeId, v: View, bin: nat)
    requires Changes(views, axeLength, node, v) && node !in views && bin < axeLength
    requires v.row.start == bin && |v.row.bits| == axeLength && v.row.bits[bin] == 1
    ensures ViewsOk(views[node := v], axeLength)
    ensures AllShaped(views, axeLength) && AllShaped(views[node := v], axeLength)
    ensures SeenCounts(views[node := v], axeLength)[bin] == SeenCounts(views, axeLength)[bin] + 1
    ensures CopyCounts(views[node := v], axeLength)[bin] == CopyCounts(views, axeLength)[bin] + 1
  {
    hide SeenCounts, CopyCounts, ViewsOk, Changes;
    ChangedOk(views, axeLength, node, v);
    SeenChanged(views, axeLength, node, v);
    CopiesChanged(views, axeLength, node, v);
    CountSizes(views, axeLength);
    CountSizes(views[node := v], axeLength);
  }

  /** A run that leads to a state, with the clock ticking, with rows that rise, and without reading a null entry. */
  ghost predicate Leads(s: Msg, axeLength: nat, ops: seq<Op>, e: Msg)
    requires MsgOk(s, axeLength)
  {
    && OpsOk(ops, axeLength) && Run(s, axeLength, ops) == e
    && Ticking(s, axeLength, ops) && Rising(s, axeLength, ops) && IsSafe(s, axeLength, ops)
  }

  lemma LeadsOn(s: Msg, axeLength: nat, ops: seq<Op>, e: Msg, op: Op)
    requires MsgOk(s, axeLength) && MsgOk(e, axeLength) && Leads(s, axeLength, ops, e) && OpOk(op, axeLength)
    requires Ticks(e, op) && Rises(e, axeLength, op) && !ReadsNull(e, axeLength, op)
    ensures Leads(s, axeLength, ops + [op], Apply(e, axeLength, op))
  {
    hide Apply, Run, Ticking, Rising, IsSafe, Ticks, Rises, ReadsNull, MsgOk, OpOk, OpsOk;
    LastStep(s, axeLength, ops, op);
  }

  lemma NoStep(s: Msg, axeLength: nat)
    requires MsgOk(s, axeLength)
    ensures Leads(s, axeLength, [], s)
  {
  }

  lemma LastStep(s: Msg, axeLength: nat, ops: seq<Op>, op: Op)
    requires MsgOk(s, axeLength) && OpsOk(ops, axeLength) && OpOk(op, axeLength)
    ensures OpsOk(ops + [op], axeLength)
    ensures
      var all, e := ops + [op], Run(s, axeLength, ops);
      && Run(s, axeLength, all) == Apply(e, axeLength, op)
      && (Ticking(s, axeLength, all) <==> Ticking(s, axeLength, ops) && Ticks(e, op))
      && (Rising(s, axeLength, all) <==> Rising(s, axeLength, ops) && Rises(e, axeLength, op))
      && (IsSafe(s, axeLength, all) <==> IsSafe(s, axeLength, ops) && !ReadsNull(e, axeLength, op))
  {
    hide Apply, MsgOk, Ticks, Rises, ReadsNull, OpOk;
    assert Front(ops + [op]) == ops && Last(ops + [op]) == op;
  }

  // -------- exactly which rows make a report stale --------

  /** A row of a new node was received while no report of the seen counts was due, and there was no local
      update since. */
  ghost predicate MissedNode(s: Msg, axeLength: nat, ops: seq<Op>)
    requires MsgOk(s, axeLength) && OpsOk(ops, axeLength)
  {
    ops != [] &&
    var e, op := Run(s, axeLength, Front(ops)), Last(ops);
    if op.Learn? && e.lastMi >= e.updated && op.node !in e.views && op.row.start < axeLength then true
    else !op.Record? && MissedNode(s, axeLength, Front(ops))
  }

  ghost predicate Stale(s: Msg, axeLength: nat)
    requires MsgOk(s, axeLength)
  {
    s.lastMi >= s.updated && s.mi != SeenCounts(s.views, axeLength)
  }

  lemma LearnStales(s: Msg, axeLength: nat, op: Op, recent: bool, newer: bool)
    requires MsgOk(s, axeLength) && OpOk(op, axeLength) && op.Learn? && !s.frozen && Rises(s, axeLength, op)
    requires CountsOk(s, axeLength, recent, newer)
    ensures Stale(s, axeLength) ==> Stale(Apply(s, axeLength, op), axeLength)
    ensures s.lastMi >= s.updated && op.node !in s.views && op.row.start < axeLength ==>
              Stale(Apply(s, axeLength, op), axeLength)
    ensures SeenCached(s, axeLength) && (op.node in s.views || op.row.start >= axeLength) ==>
              SeenCached(Apply(s, axeLength, op), axeLength)
  {
    hide SeenCounts, CopyCounts, ViewsOk, Changes, Told, Fits;
    RowsOfCounts(s, axeLength, recent, newer);
    var e := Apply(s, axeLength, op);
    ToldChanges(s.views, axeLength, op.node, op.row);
    var v := e.views[op.node];
    ChangedOk(s.views, axeLength, op.node, v);
    SeenChanged(s.views, axeLength, op.node, v);
    CountSizes(s.views, axeLength);
    CountSizes(e.views, axeLength);
    if s.mi != SeenCounts(s.views, axeLength) {
      var i :| 0 <= i < axeLength && s.mi[i] != SeenCounts(s.views, axeLength)[i];
      assert e.mi[i] < SeenCounts(e.views, axeLength)[i];
    }
    RowStart(op.row, axeLength, s, op);
    if op.node !in s.views && op.row.start < axeLength {
      var i := op.row.start;
      assert e.mi[i] < SeenCounts(e.views, axeLength)[i];
    } else {
      assert op.node !in s.views ==> v.row == op.row;
      assert SeenCounts(e.views, axeLength) == SeenCounts(s.views, axeLength);
      SameRows(s, e, axeLength, op.node, v);
    }
  }

  lemma RowStart(row: Row, axeLength: nat, s: Msg, op: Op)
    requires op.Learn? && op.row == row && Rises(s, axeLength, op)
    ensures 0 <= row.start <= axeLength
  {
  }

  lemma SameRows(s: Msg, e: Msg, axeLength: nat, node: NodeId, v: View)
    requires e.views == s.views[node := v] && e.nulls == s.nulls
    ensures Rows(e) > 0
  {
    assert node in e.views;
  }

  lemma OtherKeepsStale(s: Msg, axeLength: nat, op: Op)
    requires MsgOk(s, axeLength) && !Updates(op) && !Apply(s, axeLength, op).frozen && Stale(s, axeLength)
    ensures Stale(Apply(s, axeLength, op), axeLength)
  {
    hide SeenCounts, CopyCounts;
    if op.Validate? { ClosedCounts(s, axeLength, op.endpoint, op.now); }
  }

  lemma OtherCaches(s: Msg, axeLength: nat, op: Op)
    requires MsgOk(s, axeLength) && OpOk(op, axeLength) && Ticks(s, op) && !op.Learn?
    requires op.Record? || SeenCached(s, axeLength)
    ensures SeenCached(Apply(s, axeLength, op), axeLength)
  {
    StepCaches(s, axeLength, op);
  }

  lemma FrozenStays(s: Msg, axeLength: nat, op: Op)
    requires MsgOk(s, axeLength) && OpOk(op, axeLength) && s.frozen
    ensures
      var e := Apply(s, axeLength, op);
      e.frozen && e.mi == s.mi && e.ni == s.ni
  {
  }

  lemma {:induction false} RunMisses(axeLength: nat, ttl: int, start: int, ops: seq<Op>)
    requires OpsOk(ops, axeLength)
    requires Ticking(New(axeLength, ttl, start), axeLength, ops) && Rising(New(axeLength, ttl, start), axeLength, ops)
    ensures
      var s := New(axeLength, ttl, start);
      var e := Run(s, axeLength, ops);
      !e.frozen ==> if MissedNode(s, axeLength, ops) then Stale(e, axeLength) else SeenCached(e, axeLength)
    decreases |ops|
  {
    hide New, Apply, Ticks, Rises, SeenCached, SeenCounts, OpOk, CountsOk, SeenIsFresh, SeenIsNewer;
    var s := New(axeLength, ttl, start);
    if ops == [] {
      CachedAtFirst(axeLength, ttl, start);
    } else {
      var e, op := Run(s, axeLength, Front(ops)), Last(ops);
      RunMisses(axeLength, ttl, start, Front(ops));
      if e.frozen {
        FrozenStays(e, axeLength, op);
      } else if op.Learn? {
        RunCounts(axeLength, ttl, start, Front(ops));
        LearnStales(e, axeLength, op, SeenIsFresh(s, axeLength, Front(ops)), SeenIsNewer(s, axeLength, Front(ops)));
        if e.lastMi < e.updated { NotDue(e, axeLength, op); }
      } else if !Apply(e, axeLength, op).frozen {
        if MissedNode(s, axeLength, Front(ops)) && !op.Record? {
          OtherKeepsStale(e, axeLength, op);
        } else {
          OtherCaches(e, axeLength, op);
        }
      }
    }
  }

  lemma CachedAtFirst(axeLength: nat, ttl: int, start: int)
    ensures SeenCached(New(axeLength, ttl, start), axeLength)
  {
    NewIsCached(axeLength, ttl, start);
  }

  /** While a report is due, a received row does not make it stale. */
  lemma NotDue(s: Msg, axeLength: nat, op: Op)
    requires MsgOk(s, axeLength) && OpOk(op, axeLength) && op.Learn? && s.lastMi < s.updated
    ensures SeenCached(Apply(s, axeLength, op), axeLength)
  {
    ToldHasRow(s.views, axeLength, op.node, op.row);
  }

  /** In every run from a new message, with the clock ticking after a report: the next report of the seen counts
      is the fold over the rows if and only if no row of a new node came in after the last report without a
      local update after it. */
  lemma SeenReportIff(axeLength: nat, ttl: int, start: int, ops: seq<Op>, now: int)
    requires OpsOk(ops, axeLength)
    requires Ticking(New(axeLength, ttl, start), axeLength, ops) && Rising(New(axeLength, ttl, start), axeLength, ops)
    ensures
      var s := New(axeLength, ttl, start);
      var e := Run(s, axeLength, ops);
      !e.frozen ==>
        (AskedSeen(e, axeLength, now).mi == SeenCounts(e.views, axeLength) <==> !MissedNode(s, axeLength, ops))
  {
    hide New, Run, MissedNode, SeenCounts, Ticking, Rising;
    RunMisses(axeLength, ttl, start, ops);
  }

  // -------- the clocks of a message --------

  /** When the message was created, by the last local update: the present less the life time it brought. */
  function Birth(ops: seq<Op>, start: int): int {
    if ops == [] then start
    else if Last(ops).Record? then Last(ops).now - Last(ops).lt
    else Birth(Front(ops), start)
  }

  /** The TTL that came with the last row. */
  function TtlOf(ops: seq<Op>, ttl: int): int {
    if ops == [] then ttl
    else if Last(ops).Record? || Last(ops).Learn? then Last(ops).ttl
    else TtlOf(Front(ops), ttl)
  }

  /** The time of the last local update. */
  function LastRecord(ops: seq<Op>, start: int): int {
    if ops == [] then start else if Last(ops).Record? then Last(ops).now else LastRecord(Front(ops), start)
  }

  /** The times of the last reports that were due. */
  ghost function LastReports(s: Msg, axeLength: nat, ops: seq<Op>): (int, int)
    requires MsgOk(s, axeLength) && OpsOk(ops, axeLength)
  {
    if ops == [] then (s.lastMi, s.lastNi)
    else
      var e, rest, op := Run(s, axeLength, Front(ops)), LastReports(s, axeLength, Front(ops)), Last(ops);
      if op.AskSeen? && e.updated > rest.0 && Rows(e) > 0 then (op.now, rest.1)
      else if op.AskCopies? && e.updated > rest.1 && Rows(e) > 0 then (rest.0, op.now)
      else rest
  }

  ghost predicate PastTtl(s: Msg, now: int) { now - s.lastLtUpdate + s.lifeTime >= s.ttl }

  /** In every run the clocks of a message can be read off the operations: its age is counted from the birth that
      the last local update told, however often the life time was asked for. */
  lemma {:induction false} ClocksAreTold(axeLength: nat, ttl: int, start: int, ops: seq<Op>)
    requires OpsOk(ops, axeLength)
    ensures
      var s := New(axeLength, ttl, start);
      var e := Run(s, axeLength, ops);
      && e.lastLtUpdate - e.lifeTime == Birth(ops, start) && e.ttl == TtlOf(ops, ttl)
      && e.updated == LastRecord(ops, start) && (e.lastMi, e.lastNi) == LastReports(s, axeLength, ops)
    decreases |ops|
  {
    hide OpOk, Apply, New, Rows;
    var s := New(axeLength, ttl, start);
    if ops == [] {
      NewClocks(axeLength, ttl, start);
    } else {
      ClocksAreTold(axeLength, ttl, start, Front(ops));
      StepClocks(Run(s, axeLength, Front(ops)), axeLength, Last(ops));
    }
  }

  lemma NewClocks(axeLength: nat, ttl: int, start: int)
    ensures
      var s := New(axeLength, ttl, start);
      s.lastLtUpdate == s.updated == start && s.lifeTime == 0 && s.ttl == ttl
  {
  }

  lemma StepClocks(s: Msg, axeLength: nat, op: Op)
    requires MsgOk(s, axeLength) && OpOk(op, axeLength)
    ensures
      var e := Apply(s, axeLength, op);
      && e.lastLtUpdate - e.lifeTime == (if op.Record? then op.now - op.lt else s.lastLtUpdate - s.lifeTime)
      && e.ttl == (if Updates(op) then op.ttl else s.ttl)
      && e.updated == (if op.Record? then op.now else s.updated)
      && e.lastMi == (if op.AskSeen? && s.updated > s.lastMi && Rows(s) > 0 then op.now else s.lastMi)
      && e.lastNi == (if op.AskCopies? && s.updated > s.lastNi && Rows(s) > 0 then op.now else s.lastNi)
  {
    hide SeenCounts, CopyCounts, Observed, Told, IsComplete;
  }

  /** A message is past its time to live exactly from its birth plus its TTL on. */
  lemma PastTtlIff(axeLength: nat, ttl: int, start: int, ops: seq<Op>, now: int)
    requires OpsOk(ops, axeLength)
    ensures PastTtl(Run(New(axeLength, ttl, start), axeLength, ops), now)
            <==> now >= Birth(ops, start) + TtlOf(ops, ttl)
  {
    hide Run, New, LastReports;
    ClocksAreTold(axeLength, ttl, start, ops);
  }

  /** Past its time to live the row of the endpoint gets the last version. Nothing else of the rows changes. */
  lemma ClosingChanges(s: Msg, axeLength: nat, endpoint: NodeId, now: int)
    requires MsgOk(s, axeLength)
    ensures
      var c := Closed(s, axeLength, endpoint, now);
      && c.views.Keys == s.views.Keys
      && (forall k :: k in s.views ==>
            && c.views[k].seen == s.views[k].seen
            && c.views[k].row.bits == s.views[k].row.bits && c.views[k].row.start == s.views[k].row.start
            && c.views[k].row.version
               == if k == endpoint && PastTtl(s, now) && s.views[k].row.version < axeLength then axeLength
                  else s.views[k].row.version)
      && c.nulls == (if PastTtl(s, now) && endpoint !in s.views then s.nulls + {endpoint} else s.nulls)
      && c.lastLtUpdate == now && (forall later :: PastTtl(c, later) <==> PastTtl(s, later))
  {
    if endpoint in s.views {
      var w := SetBin(s.views[endpoint], axeLength, 0, false);
      assert w.seen == s.views[endpoint].seen && w.row.bits == s.views[endpoint].row.bits;
    }
  }

  // -------- frozen messages --------

  /** A message is frozen exactly when it has two or more entries and every row has the last version, or is that
      of the endpoint past the time to live. Freezing takes the fold of the last rows, and without null
      entries two or more of them. */
  lemma FreezeTakesFold(s: Msg, axeLength: nat, endpoint: NodeId, now: int)
    requires MsgOk(s, axeLength) && !s.frozen
    ensures
      var f, c := Validated(s, axeLength, endpoint, now), Closed(s, axeLength, endpoint, now);
      && (f.frozen
          <==> && |s.views| + |c.nulls| >= 2
               && forall k :: k in s.views ==>
                    s.views[k].row.version >= axeLength || (k == endpoint && PastTtl(s, now)))
      && (f.frozen ==> f.mi == SeenCounts(s.views, axeLength) && f.ni == CopyCounts(s.views, axeLength)
                       && f.views == map[] && f.nulls == {})
      && (f.frozen && axeLength > 0 && !ReadsNull(s, axeLength, Validate(endpoint, now)) ==> |s.views| >= 2)
  {
    hide SetBin, Closed;
    ClosedCounts(s, axeLength, endpoint, now);
    ClosingChanges(s, axeLength, endpoint, now);
    ClosedKeeps(s, axeLength, endpoint, now);
  }

  lemma FrozenCountsAreBounded(s: Msg, axeLength: nat, endpoint: NodeId, now: int)
    requires MsgOk(s, axeLength) && !s.frozen && Validated(s, axeLength, endpoint, now).frozen
    requires ViewsOk(s.views, axeLength)
    ensures
      var f := Validated(s, axeLength, endpoint, now);
      && (forall i :: 0 <= i < axeLength ==> f.ni[i] <= f.mi[i] <= |s.views|)
      && (forall i, j :: 0 <= i <= j < axeLength ==> f.mi[i] <= f.mi[j])
  {
    hide SeenCounts, CopyCounts, ViewsOk, Validated;
    FreezeTakesFold(s, axeLength, endpoint, now);
    CountBounds(s.views, axeLength);
  }

  /** A frozen message answers the same for ever, whatever is recorded after. */
  lemma {:induction false} FrozenForEver(s: Msg, axeLength: nat, ops: seq<Op>)
    requires MsgOk(s, axeLength) && OpsOk(ops, axeLength) && s.frozen
    ensures
      var e := Run(s, axeLength, ops);
      e.frozen && e.mi == s.mi && e.ni == s.ni
    decreases |ops|
  {
    hide Apply, OpOk;
    if ops != [] {
      FrozenForEver(s, axeLength, Front(ops));
      FrozenStays(Run(s, axeLength, Front(ops)), axeLength, Last(ops));
    }
  }

  // -------- null entries --------

  /** No operation of the run ends the program by reading a null entry. */
  ghost predicate IsSafe(s: Msg, axeLength: nat, ops: seq<Op>)
    requires MsgOk(s, axeLength) && OpsOk(ops, axeLength)
  {
    ops == [] ||
    (IsSafe(s, axeLength, Front(ops)) && !ReadsNull(Run(s, axeLength, Front(ops)), axeLength, Last(ops)))
  }

  /** The rows are those of other names than the one that isValid looks up: the router writes the row of its
      local id and looks up that of its endpoint. */
  ghost predicate EndpointApart(ops: seq<Op>, endpoint: NodeId) {
    forall op :: op in ops ==> (Updates(op) ==> op.node != endpoint) && (op.Validate? ==> op.endpoint == endpoint)
  }

  /** isValid was called past the time to live. */
  ghost predicate Expired(ops: seq<Op>, ttl: int, start: int) {
    ops != [] &&
    (|| (Last(ops).Validate? && Last(ops).now >= Birth(Front(ops), start) + TtlOf(Front(ops), ttl))
     || Expired(Front(ops), ttl, start))
  }

  ghost predicate NoEndpointRow(s: Msg, endpoint: NodeId, expired: bool) {
    endpoint !in s.views && s.nulls == if expired && !s.frozen then {endpoint} else {}
  }

  lemma StepApart(s: Msg, axeLength: nat, op: Op, endpoint: NodeId, expired: bool)
    requires MsgOk(s, axeLength) && OpOk(op, axeLength) && NoEndpointRow(s, endpoint, expired)
    requires (Updates(op) ==> op.node != endpoint) && (op.Validate? ==> op.endpoint == endpoint)
    ensures NoEndpointRow(Apply(s, axeLength, op), endpoint, expired || (op.Validate? && PastTtl(s, op.now)))
  {
  }

  /** In every run in which the endpoint has no row: isValid never closes a row with the last version, and a
      message that is not frozen has a null entry exactly if isValid was called past its time to live. */
  lemma {:induction false} EndpointHasNoRow(axeLength: nat, ttl: int, start: int, ops: seq<Op>, endpoint: NodeId)
    requires OpsOk(ops, axeLength) && EndpointApart(ops, endpoint)
    ensures
      var s := New(axeLength, ttl, start);
      var e := Run(s, axeLength, ops);
      && (forall now :: Closed(e, axeLength, endpoint, now).views == e.views)
      && e.nulls == (if Expired(ops, ttl, start) && !e.frozen then {endpoint} else {})
      && endpoint !in e.views
    decreases |ops|
  {
    hide Apply, OpOk, PastTtl;
    if ops != [] {
      EndpointHasNoRow(axeLength, ttl, start, Front(ops), endpoint);
      assert Last(ops) in ops;
      PastTtlIff(axeLength, ttl, start, Front(ops), Last(ops).now);
      StepApart(Run(New(axeLength, ttl, start), axeLength, Front(ops)), axeLength, Last(ops), endpoint,
                Expired(Front(ops), ttl, start));
    }
  }

  lemma StepKeepsNull(s: Msg, axeLength: nat, op: Op)
    requires MsgOk(s, axeLength) && OpOk(op, axeLength) && axeLength > 0 && s.nulls != {} && !s.frozen
    requires !ReadsNull(s, axeLength, op)
    ensures
      var e := Apply(s, axeLength, op);
      e.mi == s.mi && e.ni == s.ni && !e.frozen && s.nulls <= e.nulls
  {
    hide SeenCounts, CopyCounts;
  }

  /** Once a message has a null entry, its counts never change again and it is never frozen: every operation
      that would recompute them or discard its rows ends the program. */
  lemma {:induction false} CountsStop(s: Msg, axeLength: nat, ops: seq<Op>)
    requires MsgOk(s, axeLength) && OpsOk(ops, axeLength) && axeLength > 0 && s.nulls != {} && !s.frozen
    requires IsSafe(s, axeLength, ops)
    ensures
      var e := Run(s, axeLength, ops);
      e.mi == s.mi && e.ni == s.ni && !e.frozen && s.nulls <= e.nulls
    decreases |ops|
  {
    hide Apply, OpOk, ReadsNull;
    if ops != [] {
      CountsStop(s, axeLength, Front(ops));
      StepKeepsNull(Run(s, axeLength, Front(ops)), axeLength, Last(ops));
    }
  }

  /** So after isValid was called past the time to live, the next report after a local update ends the program. */
  lemma NextReportEnds(axeLength: nat, ttl: int, start: int, ops: seq<Op>, endpoint: NodeId, now: int)
    requires OpsOk(ops, axeLength) && EndpointApart(ops, endpoint) && axeLength > 0
    ensures
      var s := New(axeLength, ttl, start);
      var e := Run(s, axeLength, ops);
      ReadsNull(e, axeLength, AskSeen(now)) <==> Expired(ops, ttl, start) && !e.frozen && e.lastMi < e.updated
  {
    hide Run, Expired, New;
    EndpointHasNoRow(axeLength, ttl, start, ops, endpoint);
  }
}

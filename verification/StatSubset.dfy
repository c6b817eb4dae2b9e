/** The text of a selection of rows, as DtnStatMessage::getSubSetDescription prints it. The
    separator before a row depends on its place among all rows, not among the picked ones. */
module StatSubset {
  import opened Collections
  import opened Text
  import opened StatText
  import opened StatExchange
  import opened StatDelta

  /** The printed rows: all but the very first row of the message are preceded by a separator. */
  function PickedRows(ns: seq<NodeText>, picked: set<string>): string {
    if ns == [] then ""
    else
      var front, n := PickedRows(ns[..|ns| - 1], picked), ns[|ns| - 1];
      if n.id in picked then front + (if |ns| > 1 then "$" else "") + PrintNode(n) else front
  }

  function PrintSubset(m: MessageText, picked: set<string>): string {
    if m.nodes == [] then "" else Head(m) + "*" + PickedRows(m.nodes, picked)
  }

  ghost predicate SubsetPrintable(ns: seq<NodeText>, picked: set<string>, axeLength: nat) {
    forall n :: n in ns ==> n.id != "" && (n.id in picked ==> n.version <= axeLength)
  }

  lemma NextPicked(ns: seq<NodeText>, picked: set<string>, k: nat)
    requires k < |ns|
    ensures
      PickedRows(ns[..k + 1], picked)
      == if ns[k].id in picked then PickedRows(ns[..k], picked) + (if k > 0 then "$" else "") + PrintNode(ns[k])
         else PickedRows(ns[..k], picked)
  {
    hide PrintNode;
    assert ns[..k + 1][..k] == ns[..k];
  }

  lemma NextPrintable(ns: seq<NodeText>, picked: set<string>, axeLength: nat, k: nat)
    requires k < |ns|
    ensures SubsetPrintable(ns[..k + 1], picked, axeLength)
            <==> SubsetPrintable(ns[..k], picked, axeLength) && ns[k].id != ""
                 && (ns[k].id in picked ==> ns[k].version <= axeLength)
    ensures SubsetPrintable(ns, picked, axeLength) ==> SubsetPrintable(ns[..k + 1], picked, axeLength)
  {
    assert ns[..k + 1] == ns[..k] + [ns[k]];
  }

  method GetSubSetDescription(m: MessageText, picked: set<string>, axeLength: nat) returns (d: Option<string>)
    ensures d == if SubsetPrintable(m.nodes, picked, axeLength) then Some(PrintSubset(m, picked)) else None
  {
    hide PrintFixed, PrintNode, PickedRows;
    var text := m.id;
    text := text + "+";
    text := text + PrintFixed(m.ttl);
    if m.nodes == [] { return Some(""); }
    text := text + "*";
    var rows := SubsetRows(m.nodes, picked, axeLength);
    if rows.None? { return None; }
    return Some(text + rows.value);
  }

  /** The loop over the rows. */
  method SubsetRows(ns: seq<NodeText>, picked: set<string>, axeLength: nat) returns (d: Option<string>)
    ensures d == if SubsetPrintable(ns, picked, axeLength) then Some(PickedRows(ns, picked)) else None
  {
    var k, rows := 0, "";
    assert PickedRows([], picked) == "" && ns[..0] == [];
    hide PrintNode, PickedRows, SubsetPrintable;
    assert SubsetPrintable(ns[..0], picked, axeLength) by { NonePrintable(picked, axeLength); }
    while k < |ns|
      invariant k <= |ns| && rows == PickedRows(ns[..k], picked) && SubsetPrintable(ns[..k], picked, axeLength)
    {
      var n := ns[k];
      NextPicked(ns, picked, k);
      NextPrintable(ns, picked, axeLength, k);
      if n.id != "" && n.id in picked {
        if k > 0 { rows := rows + "$"; } else { assert rows + "" == rows; }
        if n.version > axeLength { return None; }
        var row := NodeDescription(n);
        rows := rows + row;
      } else if n.id == "" {
        return None;
      }
      k := k + 1;
    }
    assert ns[..k] == ns;
    return Some(rows);
  }

  lemma NonePrintable(picked: set<string>, axeLength: nat)
    ensures SubsetPrintable([], picked, axeLength)
  {
  }

  /** If the first row is picked the printed rows are the picked rows with separators between them;
      otherwise there is one separator in front. */
  lemma {:induction false} RowsOfSelection(ns: seq<NodeText>, picked: set<string>)
    requires Distinct(ns)
    ensures
      var rows := Join(PrintNodes(Chosen(ns, picked)), '$');
      PickedRows(ns, picked) == if ns == [] || ns[0].id in picked || Chosen(ns, picked) == [] then rows
                                else "$" + rows
    ensures ns != [] && ns[0].id in picked ==> Chosen(ns, picked) != []
  {
    JoinNone();
    if ns != [] {
      var k := |ns| - 1;
      assert Distinct(ns[..k]);
      RowsOfSelection(ns[..k], picked);
      hide PrintNode, Join, PrintNodes, Distinct;
      if ns[k].id in picked { JoinChosen(Chosen(ns[..k], picked), ns[k]); }
    }
  }

  lemma JoinChosen(c: seq<NodeText>, n: NodeText)
    ensures
      var rows, row, sep: string := Join(PrintNodes(c), '$'), PrintNode(n), "$";
      && Join(PrintNodes(c + [n]), '$') == (if c == [] then row else rows + sep + row)
      && (sep + rows) + sep + row == sep + (rows + sep + row) && (c == [] ==> rows == "")
      && "" + sep + row == sep + row && "" + "" + row == row
  {
    hide PrintNode, Join;
    JoinNone();
    assert PrintNodes(c + [n])[..|c|] == PrintNodes(c);
    JoinMore(PrintNodes(c + [n]));
    Separators(Join(PrintNodes(c), '$'), PrintNode(n));
  }

  lemma Separators(rows: string, row: string)
    ensures ("$" + rows) + "$" + row == "$" + (rows + "$" + row)
    ensures "" + "$" + row == "$" + row && "" + "" + row == row
  {
  }

  lemma JoinNone()
    ensures PrintNodes([]) == [] && Join([], '$') == ""
  {
  }

  lemma JoinMore(parts: seq<string>)
    requires parts != []
    ensures
      var k := |parts| - 1;
      Join(parts, '$') == if k == 0 then parts[0] else Join(parts[..k], '$') + "$" + parts[k]
  {
  }

  /** A message without rows leaves no text, not even its id, where the full text has its head. */
  lemma WithoutRows(m: MessageText, picked: set<string>, axeLength: nat)
    requires m.nodes == []
    ensures PrintSubset(m, picked) == "" && PrintMessage(m) == Head(m) != ""
    ensures SubsetPrintable(m.nodes, picked, axeLength)
  {
    assert '+' in m.id + "+";
    assert Head(m)[|m.id|] == '+';
    assert Head(m) + "" == Head(m);
  }

  ghost predicate Selected(m: MessageText, picked: set<string>, axeLength: nat) {
    && GoodMessage(m, axeLength) && Distinct(m.nodes) && Chosen(m.nodes, picked) != []
    && |PrintSubset(m, picked)| < NPOS
  }

  function Selection(m: MessageText, picked: set<string>): MessageText {
    MessageText(m.id, m.ttl, Chosen(m.nodes, picked))
  }

  lemma {:induction false} ChosenAreRows(ns: seq<NodeText>, picked: set<string>)
    ensures forall n :: n in Chosen(ns, picked) ==> n in ns
  {
    if ns != [] { ChosenAreRows(ns[..|ns| - 1], picked); }
  }

  lemma SelectionIsGood(m: MessageText, picked: set<string>, axeLength: nat)
    requires GoodMessage(m, axeLength)
    ensures GoodMessage(Selection(m, picked), axeLength)
  {
    ChosenAreRows(m.nodes, picked);
  }

  lemma CountOfRest(ns: seq<NodeText>, axeLength: nat)
    requires GoodNodes(ns, axeLength)
    ensures Count("*" + ("$" + Join(PrintNodes(ns), '$')), '*') == 1
    ensures Count("*" + ("$" + Join(PrintNodes(ns), '$')), '$') == |ns|
  {
    hide PrintNode;
    var body := Join(PrintNodes(ns), '$');
    CountNodesPart(ns, axeLength);
    assert NodesPart(ns) == "*" + body;
    CountConcat("*", body, '*');
    CountConcat("*", body, '$');
    CountConcat("$", body, '*');
    CountConcat("$", body, '$');
    CountConcat("*", "$" + body, '*');
    CountConcat("*", "$" + body, '$');
  }

  /** Without the first row, the text announces one row more than it holds. */
  lemma OneRowTooMany(m: MessageText, picked: set<string>, axeLength: nat)
    requires Selected(m, picked, axeLength) && m.nodes[0].id !in picked
    ensures NumNodes(PrintSubset(m, picked)) == |Chosen(m.nodes, picked)| + 1
  {
    hide Count, PrintNode, Head, Join;
    var c := Chosen(m.nodes, picked);
    var tail := "*" + ("$" + Join(PrintNodes(c), '$'));
    RowsOfSelection(m.nodes, picked);
    Assoc(Head(m), "*", PickedRows(m.nodes, picked));
    assert PrintSubset(m, picked) == Head(m) + tail;
    SelectionIsGood(m, picked, axeLength);
    HeadAvoids(m, axeLength);
    CountOfRest(c, axeLength);
    forall ch | ch in {'*', '$'} ensures Count(Head(m) + tail, ch) == Count(tail, ch) {
      CountConcat(Head(m), tail, ch);
      CountNone(Head(m), ch);
    }
  }

  lemma {:induction false} CollectedSize<T>(piece: nat -> Option<seq<T>>, n: nat)
    requires forall p: nat :: piece(p).Some? ==> |piece(p).value| == 1
    requires Collect(piece, n).Some?
    ensures |Collect(piece, n).value| == n
  {
    if n > 0 { CollectedSize(piece, n - 1); }
  }

  lemma AllAnnouncedRows(msg: string, axeLength: nat)
    requires ParseMessage(msg, axeLength).Some?
    ensures |ParseMessage(msg, axeLength).value.nodes| == NumNodes(msg)
  {
    hide BundleId, BundleTtl, ParseNode, NodeAt, NumNodes;
    CollectedSize(NodeReader(msg, axeLength), NumNodes(msg));
  }

  /** Reading the text of a selection gives the selected rows exactly when the first row of the
      message is one of them and the format carries the selection. */
  lemma SelectionSurvivesIff(m: MessageText, picked: set<string>, axeLength: nat)
    requires Selected(m, picked, axeLength)
    ensures ParseMessage(PrintSubset(m, picked), axeLength) == Some(Selection(m, picked))
            <==> m.nodes[0].id in picked && MessageSurvives(Selection(m, picked))
  {
    hide MessageSurvives, ParseMessage, Join, PrintNode, Head, Chosen, PickedRows, GoodMessage;
    ChosenNotEmpty(m.nodes, picked);
    var s := Selection(m, picked);
    SelectionIsGood(m, picked, axeLength);
    if m.nodes[0].id in picked {
      RowsOfSelection(m.nodes, picked);
      var rows := Join(PrintNodes(s.nodes), '$');
      Assoc(Head(m), "*", rows);
      SameHead(m, s);
      assert PrintSubset(m, picked) == PrintMessage(s);
      assert PrintMessage(s) + "" == PrintMessage(s);
      MessageRoundTripIff(s, "", axeLength);
    } else {
      OneRowTooMany(m, picked, axeLength);
      if ParseMessage(PrintSubset(m, picked), axeLength).Some? {
        AllAnnouncedRows(PrintSubset(m, picked), axeLength);
      }
    }
  }

  lemma ChosenNotEmpty(ns: seq<NodeText>, picked: set<string>)
    requires Chosen(ns, picked) != []
    ensures ns != []
  {
  }

  lemma SameHead(m: MessageText, s: MessageText)
    requires m.id == s.id && m.ttl == s.ttl
    ensures Head(m) == Head(s)
  {
  }
}

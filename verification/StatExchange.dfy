/** The statistics text as the program handles it: loops that append to, count in and cut strings.
    Each method is proved to compute the function of StatText that describes it. */
module StatExchange {
  import opened Collections
  import opened Text
  import opened StatText

  method NumberOfMessagesFromStat(stat: string) returns (n: nat)
    requires '#' in stat
    ensures n == NumMessages(stat)
  {
    var nn, i := 0, 0;
    while stat[i] != '#'
      invariant i <= IndexOf(stat, '#') && nn == Count(stat[..i], '\\')
      decreases |stat| - i
    {
      assert stat[..i + 1] == stat[..i] + [stat[i]];
      CountConcat(stat[..i], [stat[i]], '\\');
      if stat[i] == '\\' { nn := nn + 1; }
      i := i + 1;
    }
    AtMark(stat, i, '#');
    n := nn + 1;
  }

  lemma AtMark(s: string, i: nat, c: char)
    requires i < |s| && i <= IndexOf(s, c) && s[i] == c
    ensures IndexOf(s, c) == i
  {
    var before := s[..IndexOf(s, c)];
    assert forall k :: 0 <= k < |before| ==> before[k] == s[k] && before[k] != c;
  }

  method NumberOfStatNodesForABundle(msg: string) returns (n: nat)
    ensures n == NumNodes(msg)
  {
    var e, j, i := 0, 0, 0;
    while i < |msg|
      invariant i <= |msg| && e == Count(msg[..i], '*') && j == Count(msg[..i], '$')
    {
      assert msg[..i + 1] == msg[..i] + [msg[i]];
      CountConcat(msg[..i], [msg[i]], '*');
      CountConcat(msg[..i], [msg[i]], '$');
      if msg[i] == '*' { e := e + 1; }
      if msg[i] == '$' { j := j + 1; }
      i := i + 1;
    }
    assert msg[..|msg|] == msg;
    if e == 1 && j == 0 { return 1; }
    if e == 0 { return 0; }
    return j + 1;
  }

  lemma CutRest(s: string, pos: nat, sep: char)
    requires pos == Find(s, sep) && |s| < NPOS
    ensures Substr(s, SizeT(pos + 1), NPOS) == Some(DropParts(s, sep, 1))
    ensures pos != NPOS ==> pos < |s| && DropParts(s, sep, 1) == s[pos + 1..]
    ensures |DropParts(s, sep, 1)| <= |s|
  {
    if sep in s {
      assert DropParts(s, sep, 1) == s[pos + 1..];
      assert SizeT(pos + 1) == pos + 1;
      assert s[pos + 1..|s|] == s[pos + 1..];
    } else {
      assert SizeT(pos + 1) == 0;
      assert s[0..|s|] == s;
    }
  }

  lemma DropMore(s: string, sep: char, k: nat)
    requires k >= 1
    ensures DropParts(DropParts(s, sep, 1), sep, k - 1) == DropParts(s, sep, k)
  {
    if sep in s {
      assert DropParts(s, sep, 1) == s[IndexOf(s, sep) + 1..];
    }
  }

  lemma NoMoreParts(s: string, sep: char, k: nat)
    requires Find(s, sep) == NPOS && |s| < NPOS
    ensures DropParts(s, sep, k) == s
  {
  }

  method MessageFromStat(stat: string, p: nat) returns (id: Option<string>)
    requires p >= 1 && (stat != "" ==> '#' in stat) && |stat| < NPOS
    ensures id == MessageAt(stat, p)
  {
    hide DropParts, NumMessages, Find, IndexOf, Substr;
    id := Some("");
    if |stat| != 0 {
      if p == 1 {
        var nm := NumberOfMessagesFromStat(stat);
        var pos := if nm == 1 then Find(stat, '#') else Find(stat, '\\');
        if pos != NPOS { id := Substr(stat, 0, pos); }
      } else {
        var rs, j, pos := stat, 1, Find(stat, '\\');
        while j < p
          invariant 1 <= j <= p && pos == Find(rs, '\\') && |rs| < NPOS
          invariant DropParts(rs, '\\', p - j) == DropParts(stat, '\\', p - 1)
        {
          CutRest(rs, pos, '\\');
          DropMore(rs, '\\', p - j);
          rs := Substr(rs, SizeT(pos + 1), NPOS).value;
          pos := Find(rs, '\\');
          j := j + 1;
        }
        DropNothing(rs, '\\');
        var pos2, pos3 := Find(rs, 'R'), Find(rs, '\\');
        id := if pos3 != NPOS then Substr(rs, pos2, pos3) else Substr(rs, pos2, NPOS);
      }
    }
  }

  method NodeFromStat(msg: string, p: nat) returns (node: Option<string>)
    requires p >= 1 && |msg| < NPOS
    ensures node == NodeAt(msg, p)
  {
    hide DropParts, NumNodes, Find, IndexOf, Substr;
    node := Some("");
    var n := NumberOfStatNodesForABundle(msg);
    if n >= p {
      if p == 1 {
        node := Substr(msg, SizeT(Find(msg, '*') + 1), SizeT(Find(msg, '$') - 1));
      } else {
        var bundle, j, pos := msg, 1, Find(msg, '$');
        while pos != NPOS && j < p
          invariant 1 <= j <= p && pos == Find(bundle, '$') && |bundle| < NPOS
          invariant DropParts(bundle, '$', p - j) == DropParts(msg, '$', p - 1)
          decreases p - j
        {
          CutRest(bundle, pos, '$');
          DropMore(bundle, '$', p - j);
          bundle := bundle[pos + 1..];
          pos := Find(bundle, '$');
          j := j + 1;
        }
        DropNothing(bundle, '$');
        if pos == NPOS { NoMoreParts(bundle, '$', p - j); }
        var pos2 := Find(bundle, 'R');
        var pos3: int := Find(bundle, '\\');
        if pos3 == NPOS {
          node := Substr(bundle, pos2, NPOS);
        } else {
          node := Substr(bundle, pos2, SizeT(pos3 - 1));
        }
      }
    }
  }

  /** The map holds exactly the entries of the table. */
  ghost predicate IsTable(m: map<int, int>, xs: seq<int>) {
    forall i :: (i in m <==> 0 <= i < |xs|) && (i in m ==> m[i] == xs[i])
  }

  lemma NextEntry(table: string, pos: nat)
    requires pos == Find(table, ',') && |table| < NPOS
    ensures pos != NPOS ==> pos < |table| && TableInts(table) == [Atoi(table[..pos])] + TableInts(table[pos + 1..])
    ensures pos == NPOS ==> TableInts(table) == [Atoi(table)]
  {
    hide Atoi, IndexOf;
  }

  /** The bitmap of a row as the map that updateBitMap reads from. */
  method NodeBitMap(node: string) returns (m: Option<map<int, int>>)
    requires |node| < NPOS
    ensures m.Some? <==> Field(node, '[', ']').Some?
    ensures m.Some? ==> IsTable(m.value, TableInts(Field(node, '[', ']').value))
  {
    hide TableInts, Find, Atoi;
    var cut := Field(node, '[', ']');
    if cut.None? { return None; }
    var table, i := cut.value, 0;
    var r: map<int, int> := map[];
    var pos1 := Find(table, ',');
    ghost var xs := TableInts(table);
    NextEntry(table, pos1);
    while pos1 != NPOS
      invariant pos1 == Find(table, ',') && |table| < NPOS && 0 <= i < |xs|
      invariant TableInts(table) == xs[i..]
      invariant IsTable(r, xs[..i])
      decreases |table|
    {
      NextEntry(table, pos1);
      assert xs[i] == xs[i..][0] && xs[i + 1..] == xs[i..][1..];
      r := r[i := Atoi(table[..pos1])];
      i := i + 1;
      table := table[pos1 + 1..];
      pos1 := Find(table, ',');
      NextEntry(table, pos1);
      assert |xs[i..]| > 0;
    }
    NextEntry(table, pos1);
    assert xs[i..] == [Atoi(table)] && xs[i] == xs[i..][0] && |xs| == i + 1;
    return Some(r[i := Atoi(table)]);
  }

  /** A row from its text; None where the program ends. */
  method NodeReport(text: string, axeLength: nat) returns (n: Option<NodeText>)
    requires |text| < NPOS
    ensures n == ParseNode(text, axeLength)
  {
    hide TableInts, Field, NodeId, NodeMeeting, NodeVersion, MiIndex;
    var id, meeting := NodeId(text), NodeMeeting(text);
    var version, start := NodeVersion(text, axeLength), MiIndex(text, axeLength);
    var m := NodeBitMap(text);
    if id.None? || meeting.None? || version.None? || start.None? || m.None? { return None; }
    ghost var xs := TableInts(Field(text, '[', ']').value);
    var bits: seq<int> := [];
    var i := 0;
    while i < axeLength
      invariant i <= axeLength && bits == FirstBits(xs, i)
    {
      bits := bits + [if i in m.value then m.value[i] else 0];
      i := i + 1;
    }
    return Some(NodeText(id.value, meeting.value, version.value, start.value, bits));
  }

  /** A row without a node id or with a version beyond the axis ends the program. */
  ghost predicate Printable(m: MessageText, axeLength: nat) {
    forall n :: n in m.nodes ==> n.id != "" && n.version <= axeLength
  }

  /** Appends the rows of a message one by one, as getDescription does. */
  method GetDescription(m: MessageText, axeLength: nat) returns (d: Option<string>)
    ensures d == if Printable(m, axeLength) then Some(PrintMessage(m)) else None
  {
    hide PrintFixed, PrintInt, PrintNode;
    var text := m.id;
    text := text + "+";
    text := text + PrintFixed(m.ttl);
    if m.nodes != [] {
      text := text + "*";
      var k, rows := 0, "";
      while k < |m.nodes|
        invariant k <= |m.nodes| && rows == Join(PrintNodes(m.nodes[..k]), '$')
        invariant forall n :: n in m.nodes[..k] ==> n.id != "" && n.version <= axeLength
      {
        assert m.nodes[k] in m.nodes;
        if m.nodes[k].id == "" { return None; }
        if k > 0 { rows := rows + "$"; }
        if m.nodes[k].version > axeLength { return None; }
        var row := NodeDescription(m.nodes[k]);
        rows := rows + row;
        assert PrintNodes(m.nodes[..k + 1])[..k] == PrintNodes(m.nodes[..k]);
        assert m.nodes[..k + 1] == m.nodes[..k] + [m.nodes[k]];
        k := k + 1;
      }
      assert m.nodes[..k] == m.nodes;
      Assoc(Head(m), "*", rows);
      text := text + rows;
    } else {
      assert text + NodesPart(m.nodes) == text;
    }
    return Some(text);
  }

  method NodeDescription(n: NodeText) returns (d: string)
    ensures d == PrintNode(n)
  {
    hide PrintFixed, PrintInt;
    d := n.id;
    d := d + "=" + PrintFixed(n.meeting);
    d := d + "@" + PrintInt(n.version);
    d := d + "?" + PrintInt(n.start);
    var k, table := 0, "";
    while k < |n.bits|
      invariant k <= |n.bits| && table == Join(PrintInts(n.bits[..k]), ',')
    {
      if k > 0 { table := table + ","; }
      table := table + PrintInt(n.bits[k]);
      assert PrintInts(n.bits[..k + 1])[..k] == PrintInts(n.bits[..k]);
      k := k + 1;
    }
    assert n.bits[..k] == n.bits;
    d := d + "[" + table + "]";
  }

  method GetStatToSend(ms: seq<MessageText>, axeLength: nat) returns (stat: Option<string>)
    ensures
      stat == if forall m :: m in ms ==> Printable(m, axeLength) then Some(PrintStat(ms)) else None
  {
    hide PrintMessage, Printable;
    var text := "";
    if ms != [] {
      var k := 0;
      while k < |ms|
        invariant k <= |ms| && text == Join(PrintMessages(ms[..k]), '\\')
        invariant forall m :: m in ms[..k] ==> Printable(m, axeLength)
      {
        assert ms[k] in ms;
        if k > 0 { text := text + "\\"; }
        var tmp := GetDescription(ms[k], axeLength);
        if tmp.None? { return None; }
        text := text + tmp.value;
        assert PrintMessages(ms[..k + 1])[..k] == PrintMessages(ms[..k]);
        assert ms[..k + 1] == ms[..k] + [ms[k]];
        k := k + 1;
      }
      assert ms[..k] == ms;
      text := text + "#";
    }
    return Some(text);
  }

  /** The rows that one received message asks to merge. */
  method MessageReport(text: string, axeLength: nat) returns (m: Option<MessageText>)
    requires |text| < NPOS
    ensures m == ParseMessage(text, axeLength)
  {
    hide BundleId, BundleTtl, NumNodes, NodeAt, ParseNode;
    var id, ttl := BundleId(text), BundleTtl(text);
    if id.None? || ttl.None? { return None; }
    var nn := NumberOfStatNodesForABundle(text);
    var nodes, i := Some([]), 0;
    while i < nn && nodes.Some?
      invariant i <= nn && (nodes.Some? ==> Collect(NodeReader(text, axeLength), i) == nodes)
      invariant nodes.None? ==> Collect(NodeReader(text, axeLength), i) == None
    {
      var node := NodeFromStat(text, i + 1);
      var n := None;
      if node.Some? {
        NodeAtShrinks(text, i + 1);
        n := NodeReport(node.value, axeLength);
      }
      nodes := if n.Some? then Some(nodes.value + [n.value]) else None;
      assert NodeReader(text, axeLength)(i + 1) == if n.Some? then Some([n.value]) else None;
      i := i + 1;
    }
    if nodes.None? {
      CollectFails(NodeReader(text, axeLength), i, nn);
      return None;
    }
    return Some(MessageText(id.value, ttl.value, nodes.value));
  }

  lemma {:induction false} CollectFails<T>(piece: nat -> Option<seq<T>>, i: nat, n: nat)
    requires i <= n && Collect(piece, i) == None
    ensures Collect(piece, n) == None
  {
    if i < n { CollectFails(piece, i, n - 1); }
  }

  /** Everything that a received statistics text asks to merge, in order. */
  method UpdateNetworkStat(recv: string, axeLength: nat) returns (ms: Option<seq<MessageText>>)
    requires (recv != "" ==> '#' in recv) && |recv| < NPOS
    ensures ms == ParseStat(recv, axeLength)
  {
    hide BundleId, NumMessages, MessageAt, ParseMessage;
    ms := Some([]);
    if |recv| != 0 {
      var nm := NumberOfMessagesFromStat(recv);
      var i := 0;
      while i < nm && ms.Some?
        invariant i <= nm && Collect(MessageReader(recv, axeLength), i) == ms
      {
        var text := MessageFromStat(recv, i + 1);
        var piece: Option<seq<MessageText>> := None;
        if text.Some? {
          MessageAtShrinks(recv, i + 1);
          var id := BundleId(text.value);
          if id == Some("") {
            piece := Some([]);
          } else if id.Some? {
            var m := MessageReport(text.value, axeLength);
            if m.Some? { piece := Some([m.value]); }
          }
        }
        assert MessageReader(recv, axeLength)(i + 1) == piece;
        ms := if piece.Some? then Some(ms.value + piece.value) else None;
        i := i + 1;
      }
      if ms.None? { CollectFails(MessageReader(recv, axeLength), i, nm); }
    }
  }

  /** One node prints its matrix, the other reads the text: it is asked to merge exactly that
      matrix if and only if the format carries it. */
  method Exchange(ms: seq<MessageText>, axeLength: nat) returns (received: Option<seq<MessageText>>)
    requires GoodMatrix(ms, axeLength)
    ensures received == Some(ms) <==> MatrixSurvives(ms)
  {
    var stat := GetStatToSend(ms, axeLength);
    MatrixRoundTripIff(ms, axeLength);
    received := UpdateNetworkStat(stat.value, axeLength);
  }
}

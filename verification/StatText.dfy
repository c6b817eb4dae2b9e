/** The statistics matrix as text: the printers DtnStatMessage::getDescription and
    StatisticsManager::getStatToSend, and the extractors that read the text back. Several
    extractors pass an end position where substr expects a length, so what they cut out runs past
    the field; reading back still works because the number readers stop at the next separator. */
module StatText {
  import opened Collections
  import opened Text

  /** One row of a message: what is printed for one node. Times are in millionths. */
  datatype NodeText = NodeText(id: string, meeting: int, version: int, start: int, bits: seq<int>)

  datatype MessageText = MessageText(id: string, ttl: int, nodes: seq<NodeText>)

  // -------- printing --------

  function PrintInts(xs: seq<int>): (r: seq<string>)
    ensures |r| == |xs| && forall i :: 0 <= i < |xs| ==> r[i] == PrintInt(xs[i])
  {
    seq(|xs|, i requires 0 <= i < |xs| => PrintInt(xs[i]))
  }

  function PrintNode(n: NodeText): string {
    n.id + "=" + PrintFixed(n.meeting) + "@" + PrintInt(n.version) + "?" + PrintInt(n.start)
    + "[" + Join(PrintInts(n.bits), ',') + "]"
  }

  function PrintNodes(ns: seq<NodeText>): (r: seq<string>)
    ensures |r| == |ns| && forall i :: 0 <= i < |ns| ==> r[i] == PrintNode(ns[i])
  {
    seq(|ns|, i requires 0 <= i < |ns| => PrintNode(ns[i]))
  }

  /** The text of a message up to the mark before the first row. */
  function Head(m: MessageText): string { m.id + "+" + PrintFixed(m.ttl) }

  function NodesPart(ns: seq<NodeText>): string {
    if ns == [] then "" else "*" + Join(PrintNodes(ns), '$')
  }

  function PrintMessage(m: MessageText): string { Head(m) + NodesPart(m.nodes) }

  function PrintMessages(ms: seq<MessageText>): (r: seq<string>)
    ensures |r| == |ms| && forall i :: 0 <= i < |ms| ==> r[i] == PrintMessage(ms[i])
  {
    seq(|ms|, i requires 0 <= i < |ms| => PrintMessage(ms[i]))
  }

  /** getStatToSend leaves its output alone when the matrix is empty. */
  function PrintStat(ms: seq<MessageText>): string {
    if ms == [] then "" else Join(PrintMessages(ms), '\\') + "#"
  }

  // -------- extracting; None means that the program ends --------

  /** Messages announced by the text: separators before the end mark, plus one. */
  function NumMessages(stat: string): nat {
    Count(stat[..IndexOf(stat, '#')], '\\') + 1
  }

  /** Drops up to k leading parts; without a separator the text stays (npos + 1 is 0). */
  function DropParts(s: string, sep: char, k: nat): string {
    if k == 0 || sep !in s then s else DropParts(s[IndexOf(s, sep) + 1..], sep, k - 1)
  }

  function MessageAt(stat: string, p: nat): Option<string> {
    if stat == "" then Some("")
    else if p == 1 then
      var pos := if NumMessages(stat) == 1 then Find(stat, '#') else Find(stat, '\\');
      if pos == NPOS then Some("") else Substr(stat, 0, pos)
    else
      var rs := DropParts(stat, '\\', if p == 0 then 0 else p - 1);
      Substr(rs, Find(rs, 'R'), Find(rs, '\\'))
  }

  function BundleId(msg: string): Option<string> {
    Substr(msg, 0, Find(msg, '+'))
  }

  /** The text between two separators, as the extractors cut it: the position of the second one
      is used as a length. */
  function Field(text: string, open: char, close: char): Option<string> {
    Substr(text, SizeT(Find(text, open) + 1), SizeT(Find(text, close) - 1))
  }

  function BundleTtl(msg: string): Option<int> {
    var r :- Field(msg, '+', '*');
    Some(Atof(r))
  }

  function NumNodes(msg: string): nat {
    var e, j := Count(msg, '*'), Count(msg, '$');
    if e == 0 then 0 else j + 1
  }

  function NodeAt(msg: string, p: nat): Option<string> {
    if NumNodes(msg) < p then Some("")
    else if p == 1 then Field(msg, '*', '$')
    else
      var b := DropParts(msg, '$', if p == 0 then 0 else p - 1);
      var pos3 := Find(b, '\\');
      Substr(b, Find(b, 'R'), if pos3 == NPOS then NPOS else SizeT(pos3 - 1))
  }

  /** strchr finds nothing in a node without '=', and strlen of the null pointer fails. */
  function NodeId(node: string): Option<string> {
    if '=' !in node then None else Some(node[..IndexOf(node, '=')])
  }

  function NodeMeeting(node: string): Option<int> {
    var lm :- Field(node, '=', '@');
    Some(Atof(lm))
  }

  /** A version or start index beyond the axis ends the program. */
  function Bounded(field: string, axeLength: nat): Option<int> {
    if Atoi(field) > axeLength then None else Some(Atoi(field))
  }

  function NodeVersion(node: string, axeLength: nat): Option<int> {
    var lm :- Field(node, '@', '?');
    Bounded(lm, axeLength)
  }

  function MiIndex(node: string, axeLength: nat): Option<int> {
    var lm :- Field(node, '?', '[');
    Bounded(lm, axeLength)
  }

  /** The numbers of a comma-separated table. */
  function TableInts(table: string): seq<int> {
    if ',' !in table then [Atoi(table)]
    else
      var i := IndexOf(table, ',');
      [Atoi(table[..i])] + TableInts(table[i + 1..])
  }

  /** updateBitMap copies the first axeLength entries; missing ones read as 0. */
  function FirstBits(entries: seq<int>, axeLength: nat): seq<int> {
    seq(axeLength, i requires 0 <= i < axeLength => if i < |entries| then entries[i] else 0)
  }

  function BitMap(node: string, axeLength: nat): Option<seq<int>> {
    var table :- Field(node, '[', ']');
    Some(FirstBits(TableInts(table), axeLength))
  }

  function ParseNode(node: string, axeLength: nat): Option<NodeText> {
    var id :- NodeId(node);
    var meeting :- NodeMeeting(node);
    var version :- NodeVersion(node, axeLength);
    var start :- MiIndex(node, axeLength);
    var bits :- BitMap(node, axeLength);
    Some(NodeText(id, meeting, version, start, bits))
  }

  /** The pieces read for 1 .. n, one after the other. */
  function Collect<T>(piece: nat -> Option<seq<T>>, n: nat): Option<seq<T>> {
    if n == 0 then Some([])
    else
      var front :- Collect(piece, n - 1);
      var last :- piece(n);
      Some(front + last)
  }

  function ReadNode(msg: string, p: nat, axeLength: nat): Option<seq<NodeText>> {
    var text :- NodeAt(msg, p);
    var node :- ParseNode(text, axeLength);
    Some([node])
  }

  function NodeReader(msg: string, axeLength: nat): nat -> Option<seq<NodeText>> {
    (p: nat) => ReadNode(msg, p, axeLength)
  }

  function ParseNodes(msg: string, axeLength: nat): Option<seq<NodeText>> {
    Collect(NodeReader(msg, axeLength), NumNodes(msg))
  }

  function ParseMessage(msg: string, axeLength: nat): Option<MessageText> {
    var id :- BundleId(msg);
    var ttl :- BundleTtl(msg);
    var nodes :- ParseNodes(msg, axeLength);
    Some(MessageText(id, ttl, nodes))
  }

  /** A message without an id is skipped. */
  function ReadMessage(stat: string, p: nat, axeLength: nat): Option<seq<MessageText>> {
    var text :- MessageAt(stat, p);
    var id :- BundleId(text);
    if id == "" then Some([])
    else
      var m :- ParseMessage(text, axeLength);
      Some([m])
  }

  function MessageReader(stat: string, axeLength: nat): nat -> Option<seq<MessageText>> {
    (p: nat) => ReadMessage(stat, p, axeLength)
  }

  function ParseStat(stat: string, axeLength: nat): Option<seq<MessageText>> {
    if stat == "" then Some([])
    else Collect(MessageReader(stat, axeLength), NumMessages(stat))
  }

  // -------- what the format can carry --------

  predicate Avoids(s: string, cs: set<char>) {
    forall c :: c in s ==> c !in cs
  }

  ghost predicate GoodNode(n: NodeText, axeLength: nat) {
    && n.id != "" && Avoids(n.id, {'=', '@', '?', '[', ']', '*', '$', '\\', '#'})
    && n.version <= axeLength && n.start <= axeLength
    && |n.bits| == axeLength
  }

  ghost predicate StartsWithR(s: string) { s != "" && s[0] == 'R' }

  ghost predicate GoodMessage(m: MessageText, axeLength: nat) {
    && m.id != "" && Avoids(m.id, {'*', '$', '\\', '#'})
    && (forall n :: n in m.nodes ==> GoodNode(n, axeLength))
  }

  ghost predicate GoodMatrix(ms: seq<MessageText>, axeLength: nat) {
    && (forall m :: m in ms ==> GoodMessage(m, axeLength))
    && |PrintStat(ms)| < NPOS
  }

  // Rows and messages after the first are looked for by the letter R, and a message id ends at
  // its first plus sign.

  ghost predicate LaterRowsFound(ns: seq<NodeText>) {
    forall k :: 1 <= k < |ns| ==> StartsWithR(ns[k].id)
  }

  ghost predicate MessageSurvives(m: MessageText) {
    '+' !in m.id && LaterRowsFound(m.nodes)
  }

  ghost predicate MatrixSurvives(ms: seq<MessageText>) {
    forall k :: 0 <= k < |ms| ==> MessageSurvives(ms[k]) && (k > 0 ==> StartsWithR(ms[k].id))
  }

  // -------- one node --------

  ghost predicate Tail(rest: string, c: char) { rest == "" || rest[0] == c }

  lemma IntsAvoid(bits: seq<int>, c: char)
    requires !IsDigit(c) && c != '-' && c != ','
    ensures c !in Join(PrintInts(bits), ',')
  {
    JoinAvoids(PrintInts(bits), ',', c);
  }

  /** The piece before the first comma starts with the printed number. */
  lemma FirstPiece(x: int, rest: string)
    requires Tail(rest, ']')
    ensures TableInts(PrintInt(x) + rest)[0] == x
  {
    var s := PrintInt(x) + rest;
    assert ',' !in PrintInt(x);
    FindPast(PrintInt(x), rest, ',');
    var k := IndexOf(rest, ',');
    var cut := s[..IndexOf(s, ',')];
    assert cut == PrintInt(x) + rest[..k];
    AtoiOfPrint(x, rest[..k]);
    assert ',' !in s ==> cut == s;
  }

  lemma NextPieces(x: int, next: string)
    ensures TableInts(PrintInt(x) + [','] + next) == [x] + TableInts(next)
  {
    var s := PrintInt(x) + [','] + next;
    FindAfter(PrintInt(x), ',', next);
    assert s[|PrintInt(x)|] == ',';
    assert s[..|PrintInt(x)|] == PrintInt(x) && s[|PrintInt(x)| + 1..] == next;
    AtoiOfPrint(x, "");
    assert PrintInt(x) + "" == PrintInt(x);
  }

  lemma OneEntry(bits: seq<int>, rest: string)
    requires |bits| == 1 && Tail(rest, ']')
    ensures bits <= TableInts(Join(PrintInts(bits), ',') + rest)
  {
    FirstPiece(bits[0], rest);
  }

  lemma MoreEntries(bits: seq<int>, rest: string)
    requires |bits| >= 2
    ensures TableInts(Join(PrintInts(bits), ',') + rest)
         == [bits[0]] + TableInts(Join(PrintInts(bits[1..]), ',') + rest)
  {
    hide Join, TableInts;
    var parts := PrintInts(bits);
    JoinHead(parts, ',');
    assert PrintInts(bits[1..]) == parts[1..];
    var tail := Join(parts[1..], ',');
    Assoc(parts[0] + [','], tail, rest);
    NextPieces(bits[0], tail + rest);
  }

  /** The first entries of the table are the printed bits, whatever follows the closing bracket. */
  lemma {:induction false} TableOfPrint(bits: seq<int>, rest: string)
    requires |bits| > 0 && Tail(rest, ']')
    ensures bits <= TableInts(Join(PrintInts(bits), ',') + rest)
  {
    hide *;
    if |bits| == 1 {
      OneEntry(bits, rest);
    } else {
      MoreEntries(bits, rest);
      TableOfPrint(bits[1..], rest);
      assert bits == [bits[0]] + bits[1..];
    }
  }

  // The text of one row up to each separator, and the text of row and rest from it on.

  function UpToMeeting(n: NodeText): string { n.id + "=" + PrintFixed(n.meeting) }
  function UpToVersion(n: NodeText): string { UpToMeeting(n) + "@" + PrintInt(n.version) }
  function UpToStart(n: NodeText): string { UpToVersion(n) + "?" + PrintInt(n.start) }
  function UpToBits(n: NodeText): string { UpToStart(n) + "[" + Join(PrintInts(n.bits), ',') }

  function FromClose(rest: string): string { "]" + rest }
  function FromBits(n: NodeText, rest: string): string {
    "[" + (Join(PrintInts(n.bits), ',') + FromClose(rest))
  }
  function FromStart(n: NodeText, rest: string): string { "?" + (PrintInt(n.start) + FromBits(n, rest)) }
  function FromVersion(n: NodeText, rest: string): string {
    "@" + (PrintInt(n.version) + FromStart(n, rest))
  }

  lemma Regroup(p: string, sep: string, q: string, t: string)
    ensures p + sep + q + t == p + (sep + (q + t))
  {
  }

  lemma Layout(n: NodeText, rest: string)
    ensures
      var s := PrintNode(n) + rest;
      && s == UpToBits(n) + FromClose(rest) && s == UpToStart(n) + FromBits(n, rest)
      && s == UpToVersion(n) + FromStart(n, rest) && s == UpToMeeting(n) + FromVersion(n, rest)
      && s == n.id + ("=" + (PrintFixed(n.meeting) + FromVersion(n, rest)))
  {
    assert PrintNode(n) == UpToBits(n) + "]";
    Regroup(UpToBits(n), "]", "", rest);
    assert UpToBits(n) + "]" + "" == UpToBits(n) + "]" && "" + rest == rest;
    Regroup(UpToStart(n), "[", Join(PrintInts(n.bits), ','), FromClose(rest));
    Regroup(UpToVersion(n), "?", PrintInt(n.start), FromBits(n, rest));
    Regroup(UpToMeeting(n), "@", PrintInt(n.version), FromStart(n, rest));
    Regroup(n.id, "=", PrintFixed(n.meeting), FromVersion(n, rest));
  }

  lemma FieldEnds(p: string, open: char, q: string, t: string, close: char)
    requires t != "" && t[0] == close && open !in p && close !in p && close != open && close !in q
    ensures
      var s := p + ([open] + (q + t));
      IndexOf(s, open) == |p| && IndexOf(s, close) == |p| + 1 + |q|
  {
    FindPast(p, [open] + (q + t), open);
    FindPast(p, [open] + (q + t), close);
    FindPast([open], q + t, close);
    FindPast(q, t, close);
    assert IndexOf(t, close) == 0;
  }

  lemma FieldCut(s: string, i: nat, open: char, q: string, t: string, close: char) returns (k: nat)
    requires |s| < NPOS && i < |s| && IndexOf(s, open) == i && IndexOf(s, close) == i + 1 + |q| < |s|
    requires s[i + 1..] == q + t
    ensures k == (if i < |t| then i else |t|) && Field(s, open, close) == Some(q + t[..k])
  {
    hide IndexOf, Substr;
    var len := i + |q|;
    k := if len - |q| < |t| then len - |q| else |t|;
    CutField(s, i + 1, q, t, len);
  }

  /** An over-long field is the printed value followed by a part of what comes after it: as many characters as stand
      before the field, or all there are. */
  lemma FieldOf(s: string, p: string, open: char, q: string, t: string, close: char) returns (k: nat)
    requires s == p + ([open] + (q + t)) && t != "" && t[0] == close
    requires open !in p && close !in p && close != open && close !in q
    requires |s| < NPOS
    ensures k == (if |p| < |t| then |p| else |t|)
    ensures Field(s, open, close) == Some(q + t[..k]) && Tail(t[..k], close)
  {
    FieldEnds(p, open, q, t, close);
    AfterSeparator(p, open, q + t);
    k := FieldCut(s, |p|, open, q, t, close);
  }

  /** Without the closing separator the cut runs to the end of the text. */
  lemma OpenField(s: string, p: string, open: char, q: string, t: string, close: char)
    requires s == p + ([open] + (q + t)) && open !in p && close !in s && |s| < NPOS
    ensures Field(s, open, close) == Some(q + t)
  {
    FindPast(p, [open] + (q + t), open);
    assert IndexOf([open] + (q + t), open) == 0;
    AfterSeparator(p, open, q + t);
    OpenFieldCut(s, |p|, open, q, t, close);
  }

  lemma OpenFieldCut(s: string, i: nat, open: char, q: string, t: string, close: char)
    requires |s| < NPOS && i < |s| && IndexOf(s, open) == i && close !in s && s[i + 1..] == q + t
    ensures Field(s, open, close) == Some(q + t)
  {
    assert Find(s, close) == NPOS && Find(s, open) == i;
    CutField(s, i + 1, q, t, NPOS - 1);
    assert t[..|t|] == t;
  }

  const ROW_CHARS: set<char> := {'=', '@', '?', '[', ']'}

  lemma IdOf(n: NodeText, rest: string)
    requires n.id != "" && Avoids(n.id, ROW_CHARS)
    ensures NodeId(PrintNode(n) + rest) == Some(n.id)
  {
    Layout(n, rest);
    var t := "=" + (PrintFixed(n.meeting) + FromVersion(n, rest));
    var s := n.id + t;
    FindPast(n.id, t, '=');
    assert IndexOf(t, '=') == 0;
    assert s[|n.id|] == t[0];
    assert s[..|n.id|] == n.id;
  }

  lemma MeetingOf(n: NodeText, rest: string)
    requires n.id != "" && Avoids(n.id, ROW_CHARS) && |PrintNode(n) + rest| < NPOS
    ensures NodeMeeting(PrintNode(n) + rest) == Some(n.meeting)
  {
    Layout(n, rest);
    var t := FromVersion(n, rest);
    var k := FieldOf(PrintNode(n) + rest, n.id, '=', PrintFixed(n.meeting), t, '@');
    AtofOfPrint(n.meeting, t[..k]);
  }

  lemma VersionOf(n: NodeText, rest: string, axeLength: nat)
    requires n.id != "" && Avoids(n.id, ROW_CHARS) && |PrintNode(n) + rest| < NPOS
    requires n.version <= axeLength
    ensures NodeVersion(PrintNode(n) + rest, axeLength) == Some(n.version)
  {
    Layout(n, rest);
    var t := FromStart(n, rest);
    var k := FieldOf(PrintNode(n) + rest, UpToMeeting(n), '@', PrintInt(n.version), t, '?');
    AtoiOfPrint(n.version, t[..k]);
  }

  lemma StartOf(n: NodeText, rest: string, axeLength: nat)
    requires n.id != "" && Avoids(n.id, ROW_CHARS) && |PrintNode(n) + rest| < NPOS
    requires n.start <= axeLength
    ensures MiIndex(PrintNode(n) + rest, axeLength) == Some(n.start)
  {
    Layout(n, rest);
    var t := FromBits(n, rest);
    var k := FieldOf(PrintNode(n) + rest, UpToVersion(n), '?', PrintInt(n.start), t, '[');
    AtoiOfPrint(n.start, t[..k]);
  }

  lemma StartHasNoClose(n: NodeText)
    requires n.id != "" && Avoids(n.id, ROW_CHARS)
    ensures UpToStart(n) != "" && '[' !in UpToStart(n) && ']' !in UpToStart(n)
  {
  }

  lemma BitsOfTable(bits: seq<int>, rest: string)
    requires Tail(rest, ']')
    ensures FirstBits(TableInts(Join(PrintInts(bits), ',') + rest), |bits|) == bits
  {
    if |bits| > 0 { TableOfPrint(bits, rest); }
  }

  lemma BitsOf(n: NodeText, rest: string)
    requires n.id != "" && Avoids(n.id, ROW_CHARS) && |PrintNode(n) + rest| < NPOS
    ensures BitMap(PrintNode(n) + rest, |n.bits|) == Some(n.bits)
  {
    Layout(n, rest);
    var table, t := Join(PrintInts(n.bits), ','), FromClose(rest);
    IntsAvoid(n.bits, ']');
    StartHasNoClose(n);
    var k := FieldOf(PrintNode(n) + rest, UpToStart(n), '[', table, t, ']');
    BitsOfTable(n.bits, t[..k]);
  }

  /** A row is read back exactly, whatever text follows it. */
  lemma NodeRoundTrip(n: NodeText, rest: string, axeLength: nat)
    requires GoodNode(n, axeLength) && |PrintNode(n) + rest| < NPOS
    ensures ParseNode(PrintNode(n) + rest, axeLength) == Some(n)
  {
    IdOf(n, rest);
    MeetingOf(n, rest);
    VersionOf(n, rest, axeLength);
    StartOf(n, rest, axeLength);
    BitsOf(n, rest);
  }

  // -------- one message --------

  lemma DropStep(h: string, rest: string, part: string, sep: char, next: string, k: nat)
    requires k >= 1 && sep !in h && sep !in part && rest == part + [sep] + next
    ensures DropParts(h + rest, sep, k) == DropParts(next, sep, k - 1)
  {
    var s := h + rest;
    assert s == (h + part) + [sep] + next;
    FindAfter(h + part, sep, next);
    assert s[|h + part|] == sep;
    assert s[|h + part| + 1..] == next;
  }

  ghost predicate NoneHas(parts: seq<string>, sep: char) {
    forall i :: 0 <= i < |parts| ==> sep !in parts[i]
  }

  lemma DropNext(parts: seq<string>, sep: char, j: nat, k: nat, tail: string)
    requires k >= 1 && j + 1 < |parts| && sep !in parts[j]
    ensures DropParts(Rest(parts, sep, j, tail), sep, k) == DropParts(Rest(parts, sep, j + 1, tail), sep, k - 1)
  {
    RestStep(parts, sep, j, tail);
  }

  lemma DropNothing(s: string, sep: char)
    ensures DropParts(s, sep, 0) == s
  {
  }

  /** Skipping k parts. */
  lemma {:induction false} DropRest(parts: seq<string>, sep: char, j: nat, k: nat, tail: string)
    requires j + k < |parts| && NoneHas(parts, sep)
    ensures DropParts(Rest(parts, sep, j, tail), sep, k) == Rest(parts, sep, j + k, tail)
    decreases k
  {
    hide DropParts, Rest;
    if k == 0 {
      DropNothing(Rest(parts, sep, j, tail), sep);
    } else {
      DropNext(parts, sep, j, k, tail);
      DropRest(parts, sep, j + 1, k - 1, tail);
    }
  }

  lemma DropFirst(h: string, parts: seq<string>, sep: char, k: nat, tail: string)
    requires 1 <= k < |parts| && sep !in h && sep !in parts[0]
    ensures DropParts(h + Rest(parts, sep, 0, tail), sep, k) == DropParts(Rest(parts, sep, 1, tail), sep, k - 1)
  {
    RestStep(parts, sep, 0, tail);
    DropStep(h, Rest(parts, sep, 0, tail), parts[0], sep, Rest(parts, sep, 1, tail), k);
  }

  /** The same when text without separators stands before the parts. */
  lemma DropToPart(h: string, parts: seq<string>, sep: char, k: nat, tail: string)
    requires 1 <= k < |parts| && sep !in h && NoneHas(parts, sep)
    ensures DropParts(h + Rest(parts, sep, 0, tail), sep, k) == Rest(parts, sep, k, tail)
  {
    DropFirst(h, parts, sep, k, tail);
    DropRest(parts, sep, 1, k - 1, tail);
  }

  /** What is left from part k on is that part followed by nothing of it. */
  function AfterPart(parts: seq<string>, sep: char, k: nat, tail: string): string
    requires k < |parts|
  {
    if k + 1 < |parts| then [sep] + Rest(parts, sep, k + 1, tail) else tail
  }

  lemma RestIsPart(parts: seq<string>, sep: char, k: nat, tail: string)
    requires k < |parts| && sep !in parts[k]
    ensures Rest(parts, sep, k, tail) == parts[k] + AfterPart(parts, sep, k, tail)
  {
    if k + 1 < |parts| { RestStep(parts, sep, k, tail); } else { RestLast(parts, sep, tail); }
  }

  lemma NodeTextAvoids(n: NodeText, c: char)
    requires c !in n.id && c in {'*', '$', '\\', '#'}
    ensures c !in PrintNode(n)
  {
    IntsAvoid(n.bits, c);
    assert c !in UpToMeeting(n);
    assert c !in UpToVersion(n);
    assert c !in UpToStart(n);
    assert c !in UpToBits(n);
    assert PrintNode(n) == UpToBits(n) + "]";
  }

  ghost predicate GoodNodes(ns: seq<NodeText>, axeLength: nat) {
    && |ns| > 0
    && (forall n :: n in ns ==> GoodNode(n, axeLength))
  }

  lemma NodesAvoid(ns: seq<NodeText>, axeLength: nat)
    requires GoodNodes(ns, axeLength)
    ensures forall p, c :: p in PrintNodes(ns) && c in {'*', '$', '\\', '#'} ==> c !in p
  {
    forall p, c | p in PrintNodes(ns) && c in {'*', '$', '\\', '#'} ensures c !in p {
      var k :| 0 <= k < |ns| && p == PrintNode(ns[k]);
      assert ns[k] in ns;
      NodeTextAvoids(ns[k], c);
    }
  }

  /** The end of the text that reaches the extractors of a message: only the last message of
      several carries the end mark. */
  ghost predicate End(t: string) { t == "" || t == "#" }

  lemma HeadLayout(m: MessageText, t: string)
    ensures PrintMessage(m) + t == Head(m) + (NodesPart(m.nodes) + t)
  {
    Assoc(Head(m), NodesPart(m.nodes), t);
  }

  lemma NodesLayout(ns: seq<NodeText>, t: string)
    requires ns != []
    ensures NodesPart(ns) + t == ['*'] + Rest(PrintNodes(ns), '$', 0, t)
  {
    assert PrintNodes(ns)[0..] == PrintNodes(ns);
  }

  lemma MessageLayout(m: MessageText, t: string)
    requires m.nodes != []
    ensures PrintMessage(m) + t == Head(m) + (['*'] + Rest(PrintNodes(m.nodes), '$', 0, t))
    ensures PrintMessage(m) + t == (Head(m) + "*") + Rest(PrintNodes(m.nodes), '$', 0, t)
  {
    HeadLayout(m, t);
    NodesLayout(m.nodes, t);
    Regroup(Head(m), "*", "", Rest(PrintNodes(m.nodes), '$', 0, t));
  }

  lemma HeadAvoids(m: MessageText, axeLength: nat)
    requires GoodMessage(m, axeLength)
    ensures forall c :: c in {'*', '$', '\\', '#'} ==> c !in Head(m)
  {
  }

  /** The id that is read: the text before the first plus sign. */
  function IdRead(m: MessageText): string { m.id[..IndexOf(m.id, '+')] }

  /** The TTL that is read: the number after the first plus sign of the text. */
  function TtlRead(m: MessageText): int { Atof(Head(m)[IndexOf(Head(m), '+') + 1..]) }

  lemma HeadSplit(m: MessageText)
    ensures
      var h, i := Head(m), IndexOf(m.id, '+');
      && IndexOf(h, '+') == i < |h| && h[..i] == IdRead(m) && '+' !in h[..i]
      && h == h[..i] + "+" + h[i + 1..] && h[i + 1..] != ""
      && (i == |m.id| ==> h[i + 1..] == PrintFixed(m.ttl))
  {
    hide PrintFixed, IndexOf;
    Assoc(m.id, "+", PrintFixed(m.ttl));
    FirstPlus(m.id, PrintFixed(m.ttl));
  }

  lemma FirstPlus(a: string, q: string)
    requires q != ""
    ensures
      var h, i := a + ("+" + q), IndexOf(a, '+');
      && IndexOf(h, '+') == i < |h| && h[..i] == a[..i]
      && h == h[..i] + "+" + h[i + 1..] && h[i + 1..] != "" && (i == |a| ==> h[i + 1..] == q)
  {
    hide IndexOf;
    var h, i := a + ("+" + q), IndexOf(a, '+');
    if i == |a| {
      FindAfter(a, '+', q);
      Assoc(a, "+", q);
      AfterSeparator(a, '+', q);
    } else {
      FindEarly(a, "+" + q, '+');
    }
    assert h == h[..i] + [h[i]] + h[i + 1..];
  }

  lemma IdOfMessage(m: MessageText, t: string)
    ensures BundleId(PrintMessage(m) + t) == Some(IdRead(m))
  {
    hide Head, IdRead, IndexOf;
    HeadLayout(m, t);
    HeadSplit(m);
    var i := IndexOf(m.id, '+');
    var next := NodesPart(m.nodes) + t;
    FindEarly(Head(m), next, '+');
    assert (Head(m) + next)[0..i] == Head(m)[..i];
  }

  /** Message ids are cut at their first plus sign, so exactly the ids without one survive. */
  lemma IdSurvivesIff(m: MessageText, t: string)
    ensures BundleId(PrintMessage(m) + t) == Some(m.id) <==> '+' !in m.id
  {
    IdOfMessage(m, t);
    if '+' !in m.id { assert m.id[..|m.id|] == m.id; }
  }

  lemma {:induction false} FindEarly(a: string, b: string, c: char)
    requires c in a
    ensures IndexOf(a + b, c) == IndexOf(a, c)
  {
    assert (a + b)[0] == a[0];
    if a[0] != c {
      assert (a + b)[1..] == a[1..] + b;
      FindEarly(a[1..], b, c);
    }
  }

  lemma TtlOfMessage(m: MessageText, t: string, axeLength: nat)
    requires GoodMessage(m, axeLength) && End(t) && |PrintMessage(m) + t| < NPOS
    ensures BundleTtl(PrintMessage(m) + t) == Some(TtlRead(m))
  {
    hide Field, Head, IndexOf, Atof, PrintMessage, IdRead, NodesPart;
    HeadLayout(m, t);
    HeadSplit(m);
    HeadAvoids(m, axeLength);
    var h, i, next := Head(m), IndexOf(m.id, '+'), NodesPart(m.nodes) + t;
    var p, q := h[..i], h[i + 1..];
    Regroup(p, "+", q, next);
    var k := TtlField(PrintMessage(m) + t, p, q, m, t, axeLength);
    AtofStops(q, next[..k]);
  }

  lemma TtlField(s: string, p: string, q: string, m: MessageText, t: string, axeLength: nat) returns (k: nat)
    requires GoodMessage(m, axeLength) && End(t) && s == PrintMessage(m) + t && |s| < NPOS
    requires Head(m) == p + "+" + q && '+' !in p && s == p + ("+" + (q + (NodesPart(m.nodes) + t)))
    ensures
      var next := NodesPart(m.nodes) + t;
      k <= |next| && Field(s, '+', '*') == Some(q + next[..k]) && (next[..k] == "" || next[0] in {'*', '#'})
  {
    hide Field, Head, PrintMessage, NodesPart, PrintNode, GoodMessage;
    var next := NodesPart(m.nodes) + t;
    HeadAvoids(m, axeLength);
    PartsAvoid(p, q, Head(m), '*');
    if m.nodes == [] {
      NoRows(t);
      NoStar(s, p, q, t);
      OpenField(s, p, '+', q, next, '*');
      k := |next|;
      assert next[..k] == next;
    } else {
      NodesLayout(m.nodes, t);
      k := FieldOf(s, p, '+', q, next, '*');
    }
  }

  lemma PartsAvoid(p: string, q: string, h: string, c: char)
    requires h == p + "+" + q && c !in h
    ensures c !in p && c !in q
  {
    assert p == h[..|p|] && q == h[|p| + 1..];
  }

  lemma NoRows(t: string)
    ensures NodesPart([]) + t == t
  {
  }

  lemma NoStar(s: string, p: string, q: string, t: string)
    requires s == p + ("+" + (q + t)) && '*' !in p && '*' !in q && End(t)
    ensures '*' !in s
  {
  }

  lemma TtlSurvives(m: MessageText)
    requires '+' !in m.id
    ensures TtlRead(m) == m.ttl && IdRead(m) == m.id
  {
    HeadSplit(m);
    AtofOfPrint(m.ttl, "");
    assert PrintFixed(m.ttl) + "" == PrintFixed(m.ttl);
  }

  lemma CountParts(m: MessageText, t: string, c: char)
    ensures Count(PrintMessage(m) + t, c) == Count(Head(m), c) + Count(NodesPart(m.nodes), c) + Count(t, c)
  {
    hide Count, Head, NodesPart;
    CountConcat(Head(m) + NodesPart(m.nodes), t, c);
    CountConcat(Head(m), NodesPart(m.nodes), c);
  }

  lemma CountNodesPart(ns: seq<NodeText>, axeLength: nat)
    requires GoodNodes(ns, axeLength)
    ensures Count(NodesPart(ns), '*') == 1 && Count(NodesPart(ns), '$') == |ns| - 1
  {
    var parts := PrintNodes(ns);
    var body := Join(parts, '$');
    NodesAvoid(ns, axeLength);
    JoinAvoids(parts, '$', '*');
    JoinCount(parts, '$');
    CountNone(body, '*');
    assert ("*" + body)[1..] == body;
  }

  lemma CountsOfMessage(m: MessageText, t: string, axeLength: nat)
    requires GoodMessage(m, axeLength) && End(t)
    ensures NumNodes(PrintMessage(m) + t) == |m.nodes|
  {
    hide Count, Head, NodesPart, PrintMessage;
    HeadAvoids(m, axeLength);
    forall c | c in {'*', '$'}
      ensures Count(PrintMessage(m) + t, c) == Count(NodesPart(m.nodes), c)
    {
      CountNone(Head(m), c);
      CountNone(t, c);
      CountParts(m, t, c);
    }
    if m.nodes == [] {
      NoNodesPart();
    } else {
      CountNodesPart(m.nodes, axeLength);
    }
  }

  lemma NoNodesPart()
    ensures forall c :: Count(NodesPart([]), c) == 0
  {
  }

  lemma FirstField(s: string, m: MessageText, t: string, axeLength: nat) returns (rest: string)
    requires GoodMessage(m, axeLength) && End(t) && s == PrintMessage(m) + t && |s| < NPOS && m.nodes != []
    ensures Field(s, '*', '$') == Some(PrintNode(m.nodes[0]) + rest)
  {
    hide PrintMessage, PrintNode, Field, Rest;
    var parts := PrintNodes(m.nodes);
    MessageLayout(m, t);
    NodesAvoid(m.nodes, axeLength);
    HeadAvoids(m, axeLength);
    RestIsPart(parts, '$', 0, t);
    var after := AfterPart(parts, '$', 0, t);
    if |parts| == 1 {
      assert '$' !in s;
      OpenField(s, Head(m), '*', parts[0], after, '$');
      rest := after;
    } else {
      var k := FieldOf(s, Head(m), '*', parts[0], after, '$');
      rest := after[..k];
    }
  }

  lemma FirstNode(s: string, m: MessageText, t: string, axeLength: nat) returns (rest: string)
    requires GoodMessage(m, axeLength) && End(t) && s == PrintMessage(m) + t && |s| < NPOS && m.nodes != []
    ensures NodeAt(s, 1) == Some(PrintNode(m.nodes[0]) + rest)
  {
    hide PrintMessage, PrintNode, Field, NumNodes;
    CountsOfMessage(m, t, axeLength);
    rest := FirstField(s, m, t, axeLength);
  }

  lemma NoBackslash(m: MessageText, t: string, axeLength: nat, k: nat)
    requires GoodMessage(m, axeLength) && End(t) && k < |m.nodes|
    ensures '\\' !in Rest(PrintNodes(m.nodes), '$', k, t)
  {
    NodesAvoid(m.nodes, axeLength);
    var parts := PrintNodes(m.nodes);
    forall p | p in parts[k..] ensures '\\' !in p {
      assert p in parts;
    }
    JoinAvoids(parts[k..], '$', '\\');
  }

  /** What is left of a text when it is cut at its first R. */
  function FromR(b: string): Option<string> {
    if 'R' in b then Some(b[IndexOf(b, 'R')..]) else None
  }

  /** A row after the first is read from the first R that follows the separator before it. */
  lemma LaterNodeText(s: string, m: MessageText, t: string, axeLength: nat, k: nat)
    requires GoodMessage(m, axeLength) && End(t) && s == PrintMessage(m) + t && |s| < NPOS
    requires 1 <= k < |m.nodes|
    ensures
      NodeAt(s, k + 1) == FromR(PrintNode(m.nodes[k]) + AfterPart(PrintNodes(m.nodes), '$', k, t))
  {
    hide DropParts, Rest, AfterPart, PrintMessage, PrintNode, NumNodes, NodeAt, FromR;
    var parts := PrintNodes(m.nodes);
    CountsOfMessage(m, t, axeLength);
    MessageLayout(m, t);
    NodesAvoid(m.nodes, axeLength);
    HeadAvoids(m, axeLength);
    DropToPart(Head(m) + "*", parts, '$', k, t);
    DropShrinks(s, '$', k);
    RestIsPart(parts, '$', k, t);
    NoBackslash(m, t, axeLength, k);
    CutAtR(s, k, PrintNode(m.nodes[k]) + AfterPart(parts, '$', k, t));
  }

  /** So it is read exactly when its id starts with that letter. */
  lemma LaterNodeIff(s: string, m: MessageText, t: string, axeLength: nat, k: nat)
    requires GoodMessage(m, axeLength) && End(t) && s == PrintMessage(m) + t && |s| < NPOS
    requires 1 <= k < |m.nodes|
    ensures (exists rest :: NodeAt(s, k + 1) == Some(PrintNode(m.nodes[k]) + rest))
            <==> StartsWithR(m.nodes[k].id)
  {
    hide PrintMessage, PrintNode, NodeAt, AfterPart;
    LaterNodeText(s, m, t, axeLength, k);
    var q, rest := PrintNode(m.nodes[k]), AfterPart(PrintNodes(m.nodes), '$', k, t);
    assert m.nodes[k] in m.nodes;
    NodeStart(m.nodes[k]);
    StartOfR(q + rest);
    if StartsWithR(m.nodes[k].id) { assert NodeAt(s, k + 1) == Some(q + rest); }
  }

  lemma StartOfR(b: string)
    requires b != ""
    ensures FromR(b).Some? ==> FromR(b).value != "" && FromR(b).value[0] == 'R'
    ensures b[0] == 'R' ==> FromR(b) == Some(b)
  {
  }

  lemma NodeStart(n: NodeText)
    requires n.id != ""
    ensures PrintNode(n) != "" && PrintNode(n)[0] == n.id[0]
  {
    Layout(n, "");
    assert PrintNode(n) + "" == PrintNode(n);
  }

  lemma CutAtR(s: string, k: nat, b: string)
    requires k >= 1 && NumNodes(s) >= k + 1 && DropParts(s, '$', k) == b && |b| < NPOS && '\\' !in b
    ensures NodeAt(s, k + 1) == FromR(b)
  {
    if 'R' in b {
      var i := IndexOf(b, 'R');
      assert b[i..|b|] == b[i..];
    }
  }

  lemma {:induction false} DropShrinks(s: string, sep: char, k: nat)
    ensures |DropParts(s, sep, k)| <= |s|
  {
    if k != 0 && sep in s { DropShrinks(s[IndexOf(s, sep) + 1..], sep, k - 1); }
  }

  lemma NodeFrom(s: string, text: string, n: NodeText, rest: string, axeLength: nat, k: nat)
    requires NodeAt(s, k + 1) == Some(text) && text == PrintNode(n) + rest && |text| < NPOS
    requires GoodNode(n, axeLength)
    ensures NodeReader(s, axeLength)(k + 1) == Some([n])
  {
    NodeRoundTrip(n, rest, axeLength);
    assert ParseNode(text, axeLength) == Some(n);
  }

  /** A text that starts with R is never read as a row whose id does not. */
  lemma WrongRow(s: string, n: NodeText, axeLength: nat, k: nat)
    requires n.id != "" && n.id[0] != 'R'
    requires NodeAt(s, k + 1).Some? ==> NodeAt(s, k + 1).value != "" && NodeAt(s, k + 1).value[0] == 'R'
    ensures NodeReader(s, axeLength)(k + 1) != Some([n])
  {
    hide NodeAt, NodeMeeting, NodeVersion, MiIndex, BitMap;
  }

  lemma NodeAtShrinks(s: string, p: nat)
    requires NodeAt(s, p).Some?
    ensures |NodeAt(s, p).value| <= |s|
  {
    hide IndexOf, NumNodes, DropParts, Find;
    DropShrinks(s, '$', if p == 0 then 0 else p - 1);
  }

  lemma OneNode(s: string, m: MessageText, t: string, axeLength: nat, k: nat)
    requires GoodMessage(m, axeLength) && End(t) && s == PrintMessage(m) + t && |s| < NPOS
    requires k < |m.nodes|
    ensures NodeReader(s, axeLength)(k + 1) == Some([m.nodes[k]]) <==> k == 0 || StartsWithR(m.nodes[k].id)
  {
    hide NodeAt, PrintMessage, PrintNode, NodeReader, AfterPart, FromR;
    var n := m.nodes[k];
    assert n in m.nodes;
    var rest: string;
    if k == 0 {
      rest := FirstNode(s, m, t, axeLength);
    } else {
      rest := AfterPart(PrintNodes(m.nodes), '$', k, t);
      LaterNodeText(s, m, t, axeLength, k);
      NodeStart(n);
      StartOfR(PrintNode(n) + rest);
    }
    if k == 0 || StartsWithR(n.id) {
      NodeAtShrinks(s, k + 1);
      NodeFrom(s, PrintNode(n) + rest, n, rest, axeLength, k);
    } else {
      WrongRow(s, n, axeLength, k);
    }
  }

  lemma {:induction false} CollectAll<T>(piece: nat -> Option<seq<T>>, xs: seq<T>, n: nat)
    requires n <= |xs| && forall k: nat :: k < n ==> piece(k + 1) == Some([xs[k]])
    ensures Collect(piece, n) == Some(xs[..n])
  {
    if n > 0 {
      CollectAll(piece, xs, n - 1);
      assert piece((n - 1) + 1) == Some([xs[n - 1]]);
      assert xs[..n] == xs[..n - 1] + [xs[n - 1]];
    }
  }

  lemma {:induction false} CollectBound<T>(piece: nat -> Option<seq<T>>, n: nat)
    requires forall p: nat :: piece(p).Some? ==> |piece(p).value| <= 1
    requires Collect(piece, n).Some?
    ensures |Collect(piece, n).value| <= n
  {
    if n > 0 { CollectBound(piece, n - 1); }
  }

  /** n pieces of at most one element that make up n elements are those elements. */
  lemma {:induction false} CollectedPieces<T>(piece: nat -> Option<seq<T>>, xs: seq<T>)
    requires forall p: nat :: piece(p).Some? ==> |piece(p).value| <= 1
    requires Collect(piece, |xs|) == Some(xs)
    ensures forall k: nat :: k < |xs| ==> piece(k + 1) == Some([xs[k]])
  {
    var n := |xs|;
    if n > 0 {
      CollectBound(piece, n - 1);
      assert piece(n).value == [xs[n - 1]] && Collect(piece, n - 1) == Some(xs[..n - 1]);
      CollectedPieces(piece, xs[..n - 1]);
      forall k: nat | k < n ensures piece(k + 1) == Some([xs[k]]) {
        if k < n - 1 { assert xs[..n - 1][k] == xs[k]; }
      }
    }
  }

  lemma CollectIff<T>(piece: nat -> Option<seq<T>>, xs: seq<T>)
    requires forall p: nat :: piece(p).Some? ==> |piece(p).value| <= 1
    ensures Collect(piece, |xs|) == Some(xs) <==> forall k: nat :: k < |xs| ==> piece(k + 1) == Some([xs[k]])
  {
    assert xs[..|xs|] == xs;
    if Collect(piece, |xs|) == Some(xs) {
      CollectedPieces(piece, xs);
    } else if forall k: nat :: k < |xs| ==> piece(k + 1) == Some([xs[k]]) {
      CollectAll(piece, xs, |xs|);
    }
  }

  lemma NodesRoundTripIff(s: string, m: MessageText, t: string, axeLength: nat)
    requires GoodMessage(m, axeLength) && End(t) && s == PrintMessage(m) + t && |s| < NPOS
    ensures ParseNodes(s, axeLength) == Some(m.nodes) <==> LaterRowsFound(m.nodes)
  {
    hide PrintMessage, NodeReader, NumNodes;
    CountsOfMessage(m, t, axeLength);
    var piece := NodeReader(s, axeLength);
    forall k: nat | k < |m.nodes|
      ensures piece(k + 1) == Some([m.nodes[k]]) <==> k == 0 || StartsWithR(m.nodes[k].id)
    {
      OneNode(s, m, t, axeLength, k);
    }
    NodePieces(s, axeLength);
    CollectIff(piece, m.nodes);
  }

  lemma NodePieces(s: string, axeLength: nat)
    ensures forall p: nat :: NodeReader(s, axeLength)(p).Some? ==> |NodeReader(s, axeLength)(p).value| <= 1
  {
    hide NodeAt, ParseNode;
  }

  /** What is read from the text of a message: the id up to its first plus sign, the number after
      it as the TTL, and all rows exactly when the later ones start with R. */
  lemma MessageReadIff(m: MessageText, t: string, axeLength: nat)
    requires GoodMessage(m, axeLength) && End(t) && |PrintMessage(m) + t| < NPOS
    ensures ParseMessage(PrintMessage(m) + t, axeLength) == Some(MessageText(IdRead(m), TtlRead(m), m.nodes))
            <==> LaterRowsFound(m.nodes)
    ensures
      var r := ParseMessage(PrintMessage(m) + t, axeLength);
      r.Some? ==> r.value.id == IdRead(m) && r.value.ttl == TtlRead(m)
  {
    hide BundleId, BundleTtl, ParseNodes, PrintMessage, IdRead, TtlRead, LaterRowsFound;
    IdOfMessage(m, t);
    TtlOfMessage(m, t, axeLength);
    NodesRoundTripIff(PrintMessage(m) + t, m, t, axeLength);
  }

  /** A message is read back exactly when its id has no plus sign and its later rows start with R. */
  lemma MessageRoundTripIff(m: MessageText, t: string, axeLength: nat)
    requires GoodMessage(m, axeLength) && End(t) && |PrintMessage(m) + t| < NPOS
    ensures ParseMessage(PrintMessage(m) + t, axeLength) == Some(m) <==> MessageSurvives(m)
  {
    hide ParseMessage, PrintMessage, TtlRead, LaterRowsFound;
    MessageReadIff(m, t, axeLength);
    if '+' !in m.id { TtlSurvives(m); }
  }

  // -------- the whole matrix --------

  lemma MessageAvoids(m: MessageText, axeLength: nat)
    requires GoodMessage(m, axeLength)
    ensures '\\' !in PrintMessage(m) && '#' !in PrintMessage(m)
  {
    HeadAvoids(m, axeLength);
    if m.nodes != [] {
      NodesAvoid(m.nodes, axeLength);
      JoinAvoids(PrintNodes(m.nodes), '$', '\\');
      JoinAvoids(PrintNodes(m.nodes), '$', '#');
    }
  }

  lemma MessagesAvoid(ms: seq<MessageText>, axeLength: nat)
    requires GoodMatrix(ms, axeLength)
    ensures NoneHas(PrintMessages(ms), '\\') && NoneHas(PrintMessages(ms), '#')
  {
    forall i | 0 <= i < |ms| ensures '\\' !in PrintMessage(ms[i]) && '#' !in PrintMessage(ms[i]) {
      assert ms[i] in ms;
      MessageAvoids(ms[i], axeLength);
    }
  }

  lemma CountsOfStat(ms: seq<MessageText>, axeLength: nat)
    requires GoodMatrix(ms, axeLength) && ms != []
    ensures NumMessages(PrintStat(ms)) == |ms|
  {
    hide PrintMessage, Join, Count;
    var body := Join(PrintMessages(ms), '\\');
    MessagesAvoid(ms, axeLength);
    forall p | p in PrintMessages(ms) ensures '\\' !in p && '#' !in p {
      var i :| 0 <= i < |ms| && p == PrintMessages(ms)[i];
    }
    JoinAvoids(PrintMessages(ms), '\\', '#');
    JoinCount(PrintMessages(ms), '\\');
    FindAfter(body, '#', "");
    assert PrintStat(ms) == body + ['#'] + "";
    assert PrintStat(ms)[..|body|] == body;
  }

  lemma CutFirst(s: string, q: string, t: string)
    requires s == q + t && t != "" && '#' !in q && '\\' !in q && |s| < NPOS
    requires t[0] == if NumMessages(s) == 1 then '#' else '\\'
    ensures MessageAt(s, 1) == Some(q)
  {
    FindPast(q, t, t[0]);
    assert IndexOf(t, t[0]) == 0;
    assert s[0..|q|] == q;
  }

  lemma FirstMessage(ms: seq<MessageText>, axeLength: nat)
    requires GoodMatrix(ms, axeLength) && ms != []
    ensures MessageAt(PrintStat(ms), 1) == Some(PrintMessage(ms[0]))
  {
    hide PrintMessage, MessageAt, PrintStat, Rest;
    var parts := PrintMessages(ms);
    CountsOfStat(ms, axeLength);
    MessagesAvoid(ms, axeLength);
    StatIsRest(ms);
    RestIsPart(parts, '\\', 0, "#");
    CutFirst(PrintStat(ms), parts[0], AfterPart(parts, '\\', 0, "#"));
  }

  lemma StatIsRest(ms: seq<MessageText>)
    requires ms != []
    ensures PrintStat(ms) == Rest(PrintMessages(ms), '\\', 0, "#")
  {
    assert PrintMessages(ms)[0..] == PrintMessages(ms);
  }

  /** Only the last of several messages keeps the end mark. */
  function EndOf(ms: seq<MessageText>, k: nat): string {
    if k > 0 && k + 1 == |ms| then "#" else ""
  }

  lemma MessageIsCut(s: string, k: nat)
    requires k >= 1 && s != ""
    ensures
      var b := DropParts(s, '\\', k);
      MessageAt(s, k + 1) == Substr(b, Find(b, 'R'), Find(b, '\\'))
  {
    hide DropParts, NumMessages, Find, IndexOf, Substr;
  }

  lemma CutMessage(s: string, k: nat, q: string, t: string)
    requires k >= 1 && DropParts(s, '\\', k) == q + t && |q + t| < NPOS && s != ""
    requires q != "" && '\\' !in q && (t == "#" || (t != "" && t[0] == '\\'))
    ensures q[0] == 'R' ==> MessageAt(s, k + 1) == Some(if t == "#" then q + t else q)
    ensures MessageAt(s, k + 1).Some? ==> MessageAt(s, k + 1).value != "" && MessageAt(s, k + 1).value[0] == 'R'
  {
    hide DropParts, MessageAt;
    MessageIsCut(s, k);
    var b := q + t;
    assert b[0] == q[0];
    assert q[0] == 'R' ==> IndexOf(b, 'R') == 0;
    FindPast(q, t, '\\');
    assert b[0..|b|] == b && b[0..|q|] == q;
  }

  lemma DropMessages(ms: seq<MessageText>, axeLength: nat, k: nat)
    requires GoodMatrix(ms, axeLength) && k < |ms|
    ensures
      DropParts(PrintStat(ms), '\\', k) == PrintMessage(ms[k]) + AfterPart(PrintMessages(ms), '\\', k, "#")
  {
    MessagesAvoid(ms, axeLength);
    StatIsRest(ms);
    DropAt(PrintStat(ms), PrintMessages(ms), '\\', k, "#");
  }

  lemma DropAt(s: string, parts: seq<string>, sep: char, k: nat, tail: string)
    requires k < |parts| && NoneHas(parts, sep) && s == Rest(parts, sep, 0, tail)
    ensures DropParts(s, sep, k) == parts[k] + AfterPart(parts, sep, k, tail)
  {
    hide DropParts, AfterPart;
    DropRest(parts, sep, 0, k, tail);
    RestIsPart(parts, sep, k, tail);
  }

  lemma AfterMessage(parts: seq<string>, k: nat) returns (t: string)
    requires k < |parts|
    ensures t == AfterPart(parts, '\\', k, "#")
    ensures if k + 1 == |parts| then t == "#" else t != "" && t[0] == '\\'
  {
    t := AfterPart(parts, '\\', k, "#");
  }

  lemma LaterMessage(ms: seq<MessageText>, axeLength: nat, k: nat)
    requires GoodMatrix(ms, axeLength) && 1 <= k < |ms|
    ensures StartsWithR(ms[k].id) ==> MessageAt(PrintStat(ms), k + 1) == Some(PrintMessage(ms[k]) + EndOf(ms, k))
    ensures
      var text := MessageAt(PrintStat(ms), k + 1);
      text.Some? ==> text.value != "" && text.value[0] == 'R'
  {
    hide PrintMessage, DropParts, PrintStat, MessageAt, AfterPart;
    assert ms[k] in ms;
    var q := PrintMessage(ms[k]);
    MessageAvoids(ms[k], axeLength);
    DropMessages(ms, axeLength, k);
    DropShrinks(PrintStat(ms), '\\', k);
    StartOfMessage(ms[k]);
    var t := AfterMessage(PrintMessages(ms), k);
    CutMessage(PrintStat(ms), k, q, t);
    assert q + "" == q;
  }

  /** A message after the first is read exactly when its id starts with R. */
  lemma LaterMessageIff(ms: seq<MessageText>, axeLength: nat, k: nat)
    requires GoodMatrix(ms, axeLength) && 1 <= k < |ms|
    ensures MessageAt(PrintStat(ms), k + 1) == Some(PrintMessage(ms[k]) + EndOf(ms, k))
            <==> StartsWithR(ms[k].id)
  {
    hide PrintMessage, PrintStat, MessageAt;
    assert ms[k] in ms;
    LaterMessage(ms, axeLength, k);
    StartOfMessage(ms[k]);
  }

  lemma StartOfMessage(m: MessageText)
    requires m.id != ""
    ensures PrintMessage(m) != "" && PrintMessage(m)[0] == m.id[0]
  {
  }

  lemma OneMessage(ms: seq<MessageText>, axeLength: nat, k: nat)
    requires GoodMatrix(ms, axeLength) && k < |ms|
    ensures MessageReader(PrintStat(ms), axeLength)(k + 1) == Some([ms[k]])
            <==> MessageSurvives(ms[k]) && (k > 0 ==> StartsWithR(ms[k].id))
  {
    hide MessageAt, PrintStat, MessageReader, PrintMessage, MessageSurvives;
    assert ms[k] in ms;
    var t, stat := EndOf(ms, k), PrintStat(ms);
    if k == 0 {
      FirstMessage(ms, axeLength);
      assert PrintMessage(ms[0]) + "" == PrintMessage(ms[0]);
    } else {
      LaterMessage(ms, axeLength, k);
    }
    if k == 0 || StartsWithR(ms[k].id) {
      MessageAtShrinks(stat, k + 1);
      MessageFrom(stat, PrintMessage(ms[k]) + t, ms[k], t, axeLength, k);
    } else {
      WrongMessage(stat, ms[k], axeLength, k);
    }
  }

  /** A text that starts with R is never read as a message whose id does not. */
  lemma WrongMessage(s: string, m: MessageText, axeLength: nat, k: nat)
    requires m.id != "" && m.id[0] != 'R'
    requires MessageAt(s, k + 1).Some? ==> MessageAt(s, k + 1).value != "" && MessageAt(s, k + 1).value[0] == 'R'
    ensures MessageReader(s, axeLength)(k + 1) != Some([m])
  {
    hide MessageAt, BundleTtl, ParseNodes;
  }

  lemma MessageAtShrinks(s: string, p: nat)
    requires MessageAt(s, p).Some?
    ensures |MessageAt(s, p).value| <= |s|
  {
    hide IndexOf, NumMessages, DropParts;
    DropShrinks(s, '\\', if p == 0 then 0 else p - 1);
  }

  lemma MessageFrom(s: string, text: string, m: MessageText, t: string, axeLength: nat, k: nat)
    requires MessageAt(s, k + 1) == Some(text) && text == PrintMessage(m) + t && |text| < NPOS
    requires GoodMessage(m, axeLength) && End(t)
    ensures MessageReader(s, axeLength)(k + 1) == Some([m]) <==> MessageSurvives(m)
  {
    hide MessageAt, ParseMessage, PrintMessage, BundleId;
    MessageRoundTripIff(m, t, axeLength);
    IdSurvivesIff(m, t);
  }

  lemma MessagePieces(s: string, axeLength: nat)
    ensures forall p: nat :: MessageReader(s, axeLength)(p).Some? ==> |MessageReader(s, axeLength)(p).value| <= 1
  {
    hide MessageAt, ParseMessage, BundleId;
  }

  /** Reading the text of a matrix gives back the matrix (every message id and TTL, and for every
      row the node id, meeting time, version, start index and the bits of the axis) exactly when no
      message id holds a plus sign and every message and row after the first starts with R. */
  lemma MatrixRoundTripIff(ms: seq<MessageText>, axeLength: nat)
    requires GoodMatrix(ms, axeLength)
    ensures ParseStat(PrintStat(ms), axeLength) == Some(ms) <==> MatrixSurvives(ms)
  {
    hide MessageReader, NumMessages, MessageAt, PrintMessage, MessageSurvives;
    if ms != [] {
      CountsOfStat(ms, axeLength);
      var piece := MessageReader(PrintStat(ms), axeLength);
      forall k: nat | k < |ms|
        ensures piece(k + 1) == Some([ms[k]]) <==> MessageSurvives(ms[k]) && (k > 0 ==> StartsWithR(ms[k].id))
      {
        OneMessage(ms, axeLength, k);
      }
      MessagePieces(PrintStat(ms), axeLength);
      CollectIff(piece, ms);
    }
  }
}

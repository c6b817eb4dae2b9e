/** What becomes of bundle keys in the statistics text. The router uses the key of a bundle as the
    id of its message, and such a key holds a plus sign and starts with a number. */
module StatKeys {
  import opened Text
  import opened StatText
  import opened Gbof

  /** A message about the bundle with these numbers. */
  predicate IsAbout(m: MessageText, ts: int, len: int, offset: int, frag: bool, uri: string) {
    m.id == KeyFromNumbers(ts, len, offset, frag, uri)
  }

  /** The part of the key before the plus sign, and the part after it. */
  function FrontOfKey(ts: int, offset: int, uri: string): string {
    PrintInt(ts) + "[" + uri + "]" + PrintInt(offset)
  }

  function BackOfKey(len: int, frag: bool): string {
    PrintInt(len) + (if frag then ":1" else ":0")
  }

  lemma KeySplit(ts: int, len: int, offset: int, frag: bool, uri: string)
    ensures KeyFromNumbers(ts, len, offset, frag, uri)
            == FrontOfKey(ts, offset, uri) + "+" + BackOfKey(len, frag)
  {
    hide PrintInt;
    assert KeyFromNumbers(ts, len, offset, frag, uri)
        == FrontOfKey(ts, offset, uri) + "+" + PrintInt(len) + (if frag then ":1" else ":0");
  }

  /** No key survives as the id of a message, and none is found as a later message. */
  lemma KeyIsNotCarried(m: MessageText, t: string, ts: int, len: int, offset: int, frag: bool, uri: string)
    requires IsAbout(m, ts, len, offset, frag, uri)
    ensures BundleId(PrintMessage(m) + t) != Some(m.id)
    ensures !StartsWithR(m.id)
  {
    hide PrintInt, PrintMessage, BundleId;
    KeySplit(ts, len, offset, frag, uri);
    assert m.id[|FrontOfKey(ts, offset, uri)|] == '+';
    var c := PrintInt(ts)[0];
    assert m.id[0] == c && (IsDigit(c) || c == '-');
    IdSurvivesIff(m, t);
  }

  /** So no matrix with a message about a bundle is read back. */
  lemma KeysAreNotReadBack(ms: seq<MessageText>, axeLength: nat, k: nat,
                           ts: int, len: int, offset: int, frag: bool, uri: string)
    requires GoodMatrix(ms, axeLength) && k < |ms| && IsAbout(ms[k], ts, len, offset, frag, uri)
    ensures ParseStat(PrintStat(ms), axeLength) != Some(ms)
  {
    hide ParseStat, PrintStat, PrintMessage, BundleId;
    MatrixRoundTripIff(ms, axeLength);
    KeyIsNotCarried(ms[k], "", ts, len, offset, frag, uri);
    IdSurvivesIff(ms[k], "");
    assert !MessageSurvives(ms[k]);
  }

  /** What a message about a bundle is read as, when the URI has no plus sign of its own: the id
      lacks length and fragment flag, the length stands in for the TTL, and the rows are intact if
      and only if the later ones start with R. */
  lemma KeyIsReadAs(m: MessageText, t: string, axeLength: nat,
                    ts: int, len: int, offset: int, frag: bool, uri: string)
    requires GoodMessage(m, axeLength) && End(t) && |PrintMessage(m) + t| < NPOS
    requires IsAbout(m, ts, len, offset, frag, uri) && '+' !in uri
    ensures ParseMessage(PrintMessage(m) + t, axeLength)
            == Some(MessageText(FrontOfKey(ts, offset, uri), len * MICRO, m.nodes))
            <==> LaterRowsFound(m.nodes)
  {
    hide ParseMessage, PrintMessage, PrintInt, LaterRowsFound;
    MessageReadIff(m, t, axeLength);
    KeyId(m, ts, len, offset, frag, uri);
    KeyTtl(m, ts, len, offset, frag, uri);
  }

  lemma KeyId(m: MessageText, ts: int, len: int, offset: int, frag: bool, uri: string)
    requires IsAbout(m, ts, len, offset, frag, uri) && '+' !in uri
    ensures IdRead(m) == FrontOfKey(ts, offset, uri) && IndexOf(m.id, '+') == |IdRead(m)|
    ensures m.id == IdRead(m) + "+" + BackOfKey(len, frag)
  {
    hide PrintInt, IndexOf;
    KeySplit(ts, len, offset, frag, uri);
    var front := FrontOfKey(ts, offset, uri);
    assert '+' !in front;
    FindAfter(front, '+', BackOfKey(len, frag));
    assert m.id[..|front|] == front;
  }

  lemma KeyTtl(m: MessageText, ts: int, len: int, offset: int, frag: bool, uri: string)
    requires IsAbout(m, ts, len, offset, frag, uri) && '+' !in uri
    ensures TtlRead(m) == len * MICRO
  {
    hide PrintInt, PrintFixed, IndexOf, Atof, FrontOfKey;
    KeyId(m, ts, len, offset, frag, uri);
    var front, flag := IdRead(m), if frag then ":1" else ":0";
    var rest := flag + "+" + PrintFixed(m.ttl);
    HeadSplit(m);
    assert Head(m) == (front + "+") + (PrintInt(len) + rest);
    assert Head(m)[|front| + 1..] == PrintInt(len) + rest;
    AtofOfInt(len, rest);
  }
}

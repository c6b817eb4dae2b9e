/** The key of a bundle, made from the values that identify it. */
module Gbof {
  import opened Text

  function MakeKey(ts: string, len: string, offset: string, frag: bool, uri: string): string {
    ts + "[" + uri + "]" + offset + "+" + len + (if frag then ":1" else ":0")
  }

  /** The key for numbers, which are printed in decimal. */
  function KeyFromNumbers(ts: int, len: int, offset: int, frag: bool, uri: string): string {
    MakeKey(PrintInt(ts), PrintInt(len), PrintInt(offset), frag, uri)
  }

  /** Text is cut in one way only at the first separator. */
  lemma {:induction false} FirstCut(a: string, b: string, x: string, y: string, c: char)
    requires a + [c] + b == x + [c] + y && c !in a && c !in x
    ensures a == x && b == y
  {
    FindAfter(a, c, b);
    FindAfter(x, c, y);
    assert (a + [c] + b)[..|a|] == a && (x + [c] + y)[..|x|] == x;
    assert (a + [c] + b)[|a| + 1..] == b && (x + [c] + y)[|x| + 1..] == y;
  }

  /** And in one way only at the last one. */
  lemma LastCut(a: string, b: string, x: string, y: string, c: char)
    requires a + [c] + b == x + [c] + y && c !in b && c !in y
    ensures a == x && b == y
  {
    var s := a + [c] + b;
    assert s[|a|] == c && s[|x|] == c;
    assert s[..|a|] == a && s[..|x|] == x && s[|a| + 1..] == b && s[|x| + 1..] == y;
  }

  lemma Suffix(a: string, x: string, p: string, q: string)
    requires a + p == x + q && |p| == |q|
    ensures a == x && p == q
  {
    assert (a + p)[..|a|] == a && (x + q)[..|x|] == x;
    assert (a + p)[|a|..] == p && (x + q)[|x|..] == q;
  }

  /** The key opens with the time stamp and closes with the length and a digit, which is one for a fragment. */
  lemma KeyOpensAndCloses(ts: string, len: string, offset: string, frag: bool, uri: string)
    ensures
      var key := MakeKey(ts, len, offset, frag, uri);
      && ts + "[" <= key && |key| == |ts| + |uri| + |offset| + |len| + 5
      && key[|key| - 3 - |len|..] == "+" + len + (if frag then ":1" else ":0")
  {
    var p := ts + "[" + uri + "]" + offset;
    var q := "+" + len + (if frag then ":1" else ":0");
    assert MakeKey(ts, len, offset, frag, uri) == p + q;
    assert (p + q)[|p|..] == q;
  }

  predicate Plain(ts: string, len: string, offset: string) {
    '[' !in ts && '+' !in len && ']' !in offset
  }

  /** Whatever the URI holds, equal keys mean equal values, if the other fields keep clear of the
      separators. */
  lemma KeyDeterminesFields(ts: string, len: string, offset: string, frag: bool, uri: string,
                            ts2: string, len2: string, offset2: string, frag2: bool, uri2: string)
    requires Plain(ts, len, offset) && Plain(ts2, len2, offset2)
    requires MakeKey(ts, len, offset, frag, uri) == MakeKey(ts2, len2, offset2, frag2, uri2)
    ensures ts == ts2 && len == len2 && offset == offset2 && frag == frag2 && uri == uri2
  {
    var m := ts + "[" + uri + "]" + offset + "+" + len;
    var m2 := ts2 + "[" + uri2 + "]" + offset2 + "+" + len2;
    var f, f2 := if frag then ":1" else ":0", if frag2 then ":1" else ":0";
    Suffix(m, m2, f, f2);
    assert f[1] == f2[1];
    LastCut(ts + "[" + uri + "]" + offset, len, ts2 + "[" + uri2 + "]" + offset2, len2, '+');
    LastCut(ts + "[" + uri, offset, ts2 + "[" + uri2, offset2, ']');
    FirstCut(ts, uri, ts2, uri2, '[');
  }

  /** The key is injective: equal keys mean the same time stamp, URI, offset, length and fragment flag. */
  lemma KeyIsInjective(ts: int, len: int, offset: int, frag: bool, uri: string,
                       ts2: int, len2: int, offset2: int, frag2: bool, uri2: string)
    requires KeyFromNumbers(ts, len, offset, frag, uri) == KeyFromNumbers(ts2, len2, offset2, frag2, uri2)
    ensures ts == ts2 && len == len2 && offset == offset2 && frag == frag2 && uri == uri2
  {
    hide PrintInt, MakeKey;
    KeyDeterminesFields(PrintInt(ts), PrintInt(len), PrintInt(offset), frag, uri,
                        PrintInt(ts2), PrintInt(len2), PrintInt(offset2), frag2, uri2);
    PrintIntInjective(ts, ts2);
    PrintIntInjective(len, len2);
    PrintIntInjective(offset, offset2);
  }

  lemma PrintIntInjective(m: int, n: int)
    requires PrintInt(m) == PrintInt(n)
    ensures m == n
  {
    hide PrintInt;
    AtoiOfPrint(m, "");
    AtoiOfPrint(n, "");
    assert PrintInt(m) + "" == PrintInt(n) + "";
  }

  /** A separator in another field breaks it: two fields that differ, one key. */
  lemma SeparatorInTimestamp()
    ensures MakeKey("1", "0", "0", false, "a[b") == MakeKey("1[a", "0", "0", false, "b")
  {
    assert MakeKey("1", "0", "0", false, "a[b") == "1[a[b]0+0:0";
    assert MakeKey("1[a", "0", "0", false, "b") == "1[a[b]0+0:0";
  }
}

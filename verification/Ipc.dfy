/** The framing of the client API: messages of a client are a type byte, a length and a body; replies
    are a status, a length and a body. Both go over a stream socket, which may move any number of bytes
    at a time. */
module Ipc {
  import opened Text
  import opened Xdr
  import opened XdrStream

  const MAX_API_MSG: nat := 65536
  const DTN_SUCCESS: int := 0
  const DTN_EXDR: int := 130
  const DTN_ECOMM: int := 131

  /** What a read or write call does: it moves some bytes, is interrupted, or fails. */
  datatype Io = Moved(n: nat) | Interrupted | Failed

  /** The bytes moved by a call that asks for max bytes when avail are there. */
  function Amount(io: Io, max: nat, avail: nat): (k: nat)
    ensures k <= max && k <= avail
  {
    var m := if max < avail then max else avail;
    if io.Moved? then (if io.n < 1 then (if m > 0 then 1 else 0) else if io.n < m then io.n else m) else 0
  }

  function Frame(kind: Byte, body: Stream): Stream
    requires |body| < 0x1_0000_0000
  {
    [kind] + EncU32(|body|) + body
  }

  function Reply(status: U32, body: Stream): Stream
    requires |body| < 0x1_0000_0000
  {
    EncU32(status) + EncU32(|body|) + body
  }

  /** Whether so many bytes can be written. */
  function Sends(schedule: seq<Io>, rest: nat): bool
    decreases |schedule|
  {
    if schedule == [] then false
    else
      var k := Amount(schedule[0], rest, rest);
      if k == 0 then schedule[0].Interrupted? && Sends(schedule[1..], rest)
      else k == rest || Sends(schedule[1..], rest - k)
  }

  /** The next read moves the whole header of a request if it is there. */
  predicate HeaderWhole(schedule: seq<Io>) {
    schedule != [] && schedule[0].Moved? && schedule[0].n >= 5
  }

  /** How many bytes dtnipc_recv takes from a stream that holds avail bytes, of which the first eight
      announce len; None if it fails. The rest of a message is read with room for all of the buffer. */
  function Takes(schedule: seq<Io>, avail: nat, len: U32): Option<nat> {
    if schedule == [] || Amount(schedule[0], 8, avail) != 8 then None
    else TakesMore(schedule[1..], avail, (len + 8) % 0x1_0000_0000, 8)
  }

  function TakesMore(schedule: seq<Io>, avail: nat, upTo: nat, nread: nat): Option<nat>
    requires nread <= avail && nread <= MAX_API_MSG
    decreases |schedule|
  {
    if nread >= upTo then Some(nread)
    else if schedule == [] then None
    else
      var k := Amount(schedule[0], MAX_API_MSG - nread, avail - nread);
      if k > 0 then TakesMore(schedule[1..], avail, upTo, nread + k)
      else if schedule[0].Interrupted? then TakesMore(schedule[1..], avail, upTo, nread)
      else None
  }

  /** The status and the length at the head of a stream. */
  function Announced(s: Stream): (U32, U32) {
    if |s| < 8 then (0, 0) else (Word(s[0], s[1], s[2], s[3]), Word(s[4], s[5], s[6], s[7]))
  }

  function Took(schedule: seq<Io>, incoming: Stream): Option<nat> {
    Takes(schedule, |incoming|, Announced(incoming).1)
  }

  const DTN_SEND: Byte := 10

  /** A reply was read from the stream, under some outcome of the read calls. */
  ghost predicate ReplyRead(before: Stream, after: Stream, status: int, len: int) {
    exists sch: seq<Io> ::
      && Took(sch, before).Some? && Took(sch, before).value <= |before|
      && after == before[Took(sch, before).value..]
      && status == AsInt(Announced(before).0) && len == AsInt(Announced(before).1)
  }

  /** The bytes taken from the stream are in the buffer. */
  ghost predicate InBuffer(b: Stream, before: Stream, after: Stream) {
    && |after| <= |before| && |before| - |after| <= |b|
    && b[..|before| - |after|] == before[..|before| - |after|]
  }

  /** A reply was read that has an error status, which is then kept as the error, or a length that is
      negative as an int. */
  ghost predicate RefusedReply(before: Stream, after: Stream, oldErr: int, err: int) {
    exists status, len ::
      ReplyRead(before, after, status, len)
      && if len < 0 then err == oldErr else status != DTN_SUCCESS && err == status
  }

  function AsInt(x: U32): (r: int)
    ensures -0x8000_0000 <= r < 0x8000_0000 && (r - x) % 0x1_0000_0000 == 0
  {
    var y: int := x;
    if y < 0x8000_0000 then y else y - 0x1_0000_0000
  }

  /** dtnipc_handle. The socket is its two streams: what was written, and what the other side will
      have sent; schedule holds the outcomes of the coming calls. */
  class IpcHandle {
    const buf: array<Byte>
    const encode: XdrMem
    const decode: XdrMem
    var err: int
    var inPoll: bool
    var open: bool
    var outgoing: Stream
    var incoming: Stream
    var schedule: seq<Io>

    ghost predicate Valid()
      reads this, encode, decode
    {
      && buf.Length == MAX_API_MSG && encode != decode
      && encode.buf == buf && encode.base == 8 && encode.size == MAX_BODY && encode.Valid()
      && decode.buf == buf && decode.base == 8 && decode.size == MAX_BODY && decode.Valid()
    }

    constructor (incoming: Stream, schedule: seq<Io>)
      ensures Valid() && fresh(buf) && fresh(encode) && fresh(decode)
      ensures outgoing == [] && this.incoming == incoming && this.schedule == schedule
      ensures encode.pos == 0 && decode.pos == 0 && !inPoll && open && err == DTN_SUCCESS
    {
      var b := new Byte[MAX_API_MSG](i => 0);
      buf := b;
      encode := new XdrMem(b, 8, MAX_BODY);
      decode := new XdrMem(b, 8, MAX_BODY);
      err, inPoll, open := DTN_SUCCESS, false, true;
      outgoing, this.incoming, this.schedule := [], incoming, schedule;
    }

    method NextIo() returns (io: Io)
      modifies this`schedule
      ensures io == if old(schedule) == [] then Failed else old(schedule)[0]
      ensures schedule == if old(schedule) == [] then [] else old(schedule)[1..]
    {
      if schedule == [] { return Failed; }
      io, schedule := schedule[0], schedule[1..];
    }

    method SetErrno(e: int)
      modifies this`err
      ensures err == e && (old(Valid()) ==> Valid())
    {
      err := e;
    }

    method SetPoll(p: bool)
      modifies this`inPoll
      ensures inPoll == p && (old(Valid()) ==> Valid())
    {
      inPoll := p;
    }

    /** After a communication error the socket is closed and nothing more is sent. */
    method Fail()
      modifies this`err, this`open
      ensures err == DTN_ECOMM && !open
    {
      err, open := DTN_ECOMM, false;
    }

    /** Puts the type and the length before the encoded body, and resets the encoder. */
    method Pack(kind: Byte) returns (msglen: nat)
      requires Valid()
      modifies encode, buf
      ensures Valid() && encode.pos == 0
      ensures msglen == |Frame(kind, old(encode.Written()))| && 3 + msglen <= buf.Length
      ensures buf[3..3 + msglen] == Frame(kind, old(encode.Written()))
    {
      hide Frame;
      ghost var body := encode.Written();
      var len: U32 := encode.pos;
      msglen := len + 5;
      assert body == buf[8..8 + len];
      buf[3] := kind;
      var word := EncU32(len);
      forall i | 0 <= i < 4 { buf[4 + i] := word[i]; }
      assert buf[8..8 + len] == body;
      Framed(buf[..], kind, body);
      assert buf[..][3..8 + len] == buf[3..8 + len];
      var reset := encode.SetPos(0);
    }

    /** Writes part of the buffer, however many calls it takes. */
    method WriteAll(start: nat, msglen: nat) returns (ok: bool)
      requires start + msglen <= buf.Length && msglen > 0
      modifies this`outgoing, this`schedule, this`err, this`open
      ensures ok == Sends(old(schedule), msglen)
      ensures ok ==> outgoing == old(outgoing) + buf[start..start + msglen]
      ensures ok ==> err == old(err) && open == old(open)
      ensures !ok ==> err == DTN_ECOMM && !open
      ensures !ok ==> CutOff(old(outgoing), outgoing, buf[start..start + msglen])
    {
      hide Amount, CutOff;
      ghost var all, before := buf[..], outgoing;
      assert buf[start..start + msglen] == all[start..start + msglen];
      var bp, rest := start, msglen;
      assert outgoing == before + all[start..bp];
      while true
        invariant start <= bp && bp + rest == start + msglen && rest > 0
        invariant outgoing == before + all[start..bp]
        invariant err == old(err) && open == old(open)
        invariant Sends(old(schedule), msglen) == Sends(schedule, rest)
        decreases |schedule|
      {
        var io := NextIo();
        var k := Amount(io, rest, rest);
        if k == 0 {
          if io.Interrupted? { continue; }
          CutAt(before, outgoing, all, start, bp, start + msglen);
          Fail();
          return false;
        }
        SomeAmount(io, rest, rest);
        Extend(before, all, start, bp, bp + k);
        assert buf[bp..bp + k] == all[bp..bp + k];
        outgoing := outgoing + buf[bp..bp + k];
        bp := bp + k;
        rest := rest - k;
        if rest == 0 { return true; }
      }
    }

    /** dtnipc_send. Whatever the sizes of the partial writes, a message goes out whole or the
        connection is given up in the middle of it. */
    method Send(kind: Byte) returns (ok: bool)
      requires Valid()
      modifies this`outgoing, this`schedule, this`err, this`open, encode, buf
      ensures Valid() && encode.pos == 0
      ensures ok == Sends(old(schedule), |old(encode.Written())| + 5)
      ensures ok ==> outgoing == old(outgoing) + Frame(kind, old(encode.Written()))
      ensures ok ==> err == old(err) && open == old(open)
      ensures !ok ==> err == DTN_ECOMM && !open
      ensures !ok ==> CutOff(old(outgoing), outgoing, Frame(kind, old(encode.Written())))
    {
      hide Frame;
      var msglen := Pack(kind);
      FrameSize(kind, old(encode.Written()));
      ok := WriteAll(3, msglen);
    }

    /** Reads into the buffer until upTo bytes are there, each time as much as the buffer can hold. */
    method ReadMore(upTo: nat) returns (taken: Option<nat>)
      requires buf.Length == MAX_API_MSG
      modifies this`incoming, this`schedule, this`err, this`open, buf
      ensures
        var all := old(buf[..8]) + old(incoming);
        && taken == TakesMore(old(schedule), |all|, upTo, 8)
        && (taken.Some? ==> taken.value <= |all| && taken.value <= MAX_API_MSG && incoming == all[taken.value..]
                            && buf[..taken.value] == all[..taken.value]
                            && err == old(err) && open == old(open))
        && (taken.None? ==> err == DTN_ECOMM && !open)
    {
      hide Amount;
      ghost var all := buf[..8] + incoming;
      var nread := 8;
      while nread < upTo
        invariant 8 <= nread <= MAX_API_MSG && nread <= |all|
        invariant incoming == all[nread..] && buf[..nread] == all[..nread]
        invariant err == old(err) && open == old(open)
        invariant TakesMore(old(schedule), |all|, upTo, 8) == TakesMore(schedule, |all|, upTo, nread)
        decreases |schedule|
      {
        var io := NextIo();
        var k := Amount(io, MAX_API_MSG - nread, |incoming|);
        if k == 0 {
          if io.Interrupted? { continue; }
          Fail();
          return None;
        }
        SomeAmount(io, MAX_API_MSG - nread, |incoming|);
        var data := incoming[..k];
        forall i | 0 <= i < k { buf[nread + i] := data[i]; }
        incoming := incoming[k..];
        Moving(all, nread, k, buf[..]);
        assert buf[..nread + k] == buf[..][..nread + k];
        nread := nread + k;
      }
      return Some(nread);
    }
  
    /** The sending half of dtn_send. */
    method SendBundle(a: SendArgs) returns (ok: bool)
      requires Valid() && encode.pos == 0
      modifies this`outgoing, this`schedule, this`err, this`open, encode, buf
      ensures Valid()
      ensures ok <==> SendOk(a) && SendSize(a) <= MAX_BODY && Sends(old(schedule), SendSize(a) + 5)
      ensures ok ==> encode.pos == 0 && outgoing == old(outgoing) + Frame(DTN_SEND, EncSend(a))
      ensures !(SendOk(a) && SendSize(a) <= MAX_BODY) ==> err == DTN_EXDR && outgoing == old(outgoing)
      ensures SendOk(a) && SendSize(a) <= MAX_BODY && !ok ==>
                err == DTN_ECOMM && !open && CutOff(old(outgoing), outgoing, Frame(DTN_SEND, EncSend(a)))
    {
      hide SendOk, SendSize, Frame, EncSend, Sends, CutOff;
      assert encode.Written() == [];
      ok := encode.EncodeSend(a);
      assert [] + EncSend(a) == EncSend(a);
      if !ok {
        err := DTN_EXDR;
        return;
      }
      ok := Send(DTN_SEND);
    }

    /** dtnipc_recv. The result is the length of the reply as an int, or -1. If the reply was not alone
        in the stream and has a body, more than the reply may be taken. */
    method Recv() returns (r: int, status: int)
      requires Valid()
      modifies this`incoming, this`schedule, this`err, this`open, decode, buf
      ensures Valid() && decode.pos == 0
      ensures
        var taken := Took(old(schedule), old(incoming));
        && (taken.None? ==> r == -1 && err == DTN_ECOMM && !open)
        && (taken.Some? ==>
              && err == old(err) && open == old(open)
              && InBuffer(buf[..], old(incoming), incoming)
              && ReplyRead(old(incoming), incoming, status, r))
    {
      hide Word, TakesMore, AsInt;
      ghost var all := incoming;
      var reset := decode.SetPos(0);
      var io := NextIo();
      var k := Amount(io, 8, |incoming|);
      if k != 8 {
        Fail();
        return -1, 0;
      }
      var data := incoming[..8];
      forall i | 0 <= i < 8 { buf[i] := data[i]; }
      incoming := incoming[8..];
      assert buf[..8] == all[..8] && all[..8] + all[8..] == all;
      var statuscode := Word(buf[0], buf[1], buf[2], buf[3]);
      var len: int := Word(buf[4], buf[5], buf[6], buf[7]);
      assert Announced(all) == (statuscode, len);
      assert buf[..8] + incoming == all;
      var taken := ReadMore((len + 8) % 0x1_0000_0000);
      if taken.None? { return -1, AsInt(statuscode); }
      assert taken == Took(old(schedule), all);
      assert buf[..][..taken.value] == all[..taken.value];
      r, status := AsInt(len), AsInt(statuscode);

    }

    /** dtnipc_send_recv: 0 for success and -1 for an error. As long as the connection is not given up, the
        request has gone out whole, whatever the answer was. */
    method SendRecv(kind: Byte) returns (r: int)
      requires Valid()
      modifies this`outgoing, this`incoming, this`schedule, this`err, this`open, encode, decode, buf
      ensures Valid() && (r == 0 || r == -1)
      ensures r == 0 || open ==> outgoing == old(outgoing) + Frame(kind, old(encode.Written()))
      ensures
        || outgoing == old(outgoing) + Frame(kind, old(encode.Written()))
        || CutOff(old(outgoing), outgoing, Frame(kind, old(encode.Written())))
      ensures r == 0 ==> open == old(open)
      ensures old(open) && !open ==> r == -1 && err == DTN_ECOMM
      ensures r == 0 ==> InBuffer(buf[..], old(incoming), incoming) && decode.pos == 0
      ensures r == 0 ==> exists len :: ReplyRead(old(incoming), incoming, DTN_SUCCESS, len)
      ensures r == -1 && open && old(open) ==> RefusedReply(old(incoming), incoming, old(err), err)
    {
      hide Frame, Took, Announced, InBuffer, CutOff;
      var ok := Send(kind);
      if !ok { return -1; }
      ghost var sch := schedule;
      var len, status := Recv();
      if !open { return -1; }
      assert ReplyRead(old(incoming), incoming, status, len);
      if len < 0 { return -1; }
      if status != DTN_SUCCESS {
        err := status;
        return -1;
      }
      return 0;
    }
  }

  ghost predicate CutOff(before: Stream, after: Stream, frame: Stream) {
    exists k :: 0 <= k < |frame| && after == before + frame[..k]
  }

  lemma CutAt(before: Stream, after: Stream, all: Stream, i: nat, j: nat, k: nat)
    requires i <= j < k <= |all| && after == before + all[i..j]
    ensures CutOff(before, after, all[i..k])
  {
    assert all[i..j] == all[i..k][..j - i];
  }

  lemma Extend(before: Stream, all: Stream, i: nat, j: nat, k: nat)
    requires i <= j <= k <= |all|
    ensures (before + all[i..j]) + all[j..k] == before + all[i..k]
  {
    assert all[i..j] + all[j..k] == all[i..k];
  }

  lemma FrameSize(kind: Byte, body: Stream)
    requires |body| < 0x1_0000_0000
    ensures |Frame(kind, body)| == |body| + 5
  {
  }

  lemma SomeAmount(io: Io, max: nat, avail: nat)
    requires Amount(io, max, avail) > 0
    ensures io.Moved?
  {
  }

  lemma Moving(all: Stream, nread: nat, k: nat, b: Stream)
    requires nread + k <= |all| && nread + k <= |b|
    requires b[..nread] == all[..nread] && b[nread..nread + k] == all[nread..][..k]
    ensures b[..nread + k] == all[..nread + k] && all[nread..][k..] == all[nread + k..]
  {
    assert b[..nread + k] == b[..nread] + b[nread..nread + k];
    assert all[..nread + k] == all[..nread] + all[nread..][..k];
  }

  /** The buffer from its fourth byte on. */
  lemma Framed(b: Stream, kind: Byte, body: Stream)
    requires |b| == MAX_API_MSG && |body| <= MAX_BODY
    requires b[3] == kind && b[4..8] == EncU32(|body|) && b[8..8 + |body|] == body
    ensures b[3..8 + |body|] == Frame(kind, body)
  {
    hide EncU32;
  }

  // -------- when a message gets through --------

  /** The bytes that calls can move: each at least one byte, unless it is interrupted or fails. */
  function Most(io: Io): nat { if io.Moved? then (if io.n < 1 then 1 else io.n) else 0 }

  function Moves(schedule: seq<Io>): nat {
    if schedule == [] then 0 else Most(schedule[0]) + Moves(schedule[1..])
  }

  /** The calls that come before the first one that fails can move so many bytes. */
  ghost predicate MovesBeforeFailure(schedule: seq<Io>, rest: nat) {
    exists k :: 0 <= k <= |schedule| && Failed !in schedule[..k] && Moves(schedule[..k]) >= rest
  }

  lemma FirstCall(schedule: seq<Io>, rest: nat)
    requires schedule != [] && rest > 0
    ensures
      var m := Most(schedule[0]);
      MovesBeforeFailure(schedule, rest)
      <==> !schedule[0].Failed? && (m >= rest || MovesBeforeFailure(schedule[1..], rest - m))
  {
    var m, tail := Most(schedule[0]), schedule[1..];
    forall k | 0 < k <= |schedule|
      ensures (Failed !in schedule[..k] <==> !schedule[0].Failed? && Failed !in tail[..k - 1])
      ensures Moves(schedule[..k]) == m + Moves(tail[..k - 1])
    {
      assert schedule[..k] == [schedule[0]] + tail[..k - 1];
      assert schedule[..k][1..] == tail[..k - 1];
    }
    if m >= rest && !schedule[0].Failed? {
      assert Failed !in schedule[..1] && Moves(schedule[..1]) >= rest;
    } else if !schedule[0].Failed? && MovesBeforeFailure(tail, rest - m) {
      var k :| 0 <= k <= |tail| && Failed !in tail[..k] && Moves(tail[..k]) >= rest - m;
      assert Failed !in schedule[..k + 1] && Moves(schedule[..k + 1]) >= rest;
    }
  }

  /** A message goes out whole if and only if the writes before the first failure can move it all. */
  lemma {:induction false} SendsIff(schedule: seq<Io>, rest: nat)
    requires rest > 0
    ensures Sends(schedule, rest) <==> MovesBeforeFailure(schedule, rest)
    decreases |schedule|
  {
    hide MovesBeforeFailure;
    if schedule == [] {
      assert !MovesBeforeFailure(schedule, rest) by { NoCalls(rest); }
    } else {
      FirstCall(schedule, rest);
      var m := Most(schedule[0]);
      if m < rest { SendsIff(schedule[1..], rest - m); }
    }
  }

  lemma NoCalls(rest: nat)
    requires rest > 0
    ensures !MovesBeforeFailure([], rest)
  {
    var none: seq<Io> := [];
    assert none[..0] == [];
  }

  /** The rest of a message is read if and only if it is there, the buffer can hold it, and the reads before
      the first failure can move it all. */
  lemma {:induction false} TakesMoreIff(schedule: seq<Io>, avail: nat, upTo: nat, nread: nat)
    requires nread <= avail && nread <= MAX_API_MSG && nread < upTo
    ensures
      TakesMore(schedule, avail, upTo, nread).Some?
      <==> upTo <= avail && upTo <= MAX_API_MSG && MovesBeforeFailure(schedule, upTo - nread)
    decreases |schedule|
  {
    hide MovesBeforeFailure;
    if schedule == [] {
      NoCalls(upTo - nread);
    } else {
      FirstCall(schedule, upTo - nread);
      var k := Amount(schedule[0], MAX_API_MSG - nread, avail - nread);
      if nread + k < upTo {
        TakesMoreIff(schedule[1..], avail, upTo, nread + k);
      } else {
        assert TakesMore(schedule[1..], avail, upTo, nread + k) == Some(nread + k);
      }
    }
  }

  // -------- how much is taken --------

  lemma {:induction false} TakesMoreBounds(schedule: seq<Io>, avail: nat, upTo: nat, nread: nat)
    requires nread <= avail && nread <= MAX_API_MSG && TakesMore(schedule, avail, upTo, nread).Some?
    ensures
      var t := TakesMore(schedule, avail, upTo, nread).value;
      t >= upTo && nread <= t <= avail && t <= MAX_API_MSG && (nread >= upTo ==> t == nread)
    decreases |schedule|
  {
    hide Amount;
    if nread < upTo {
      var k := Amount(schedule[0], MAX_API_MSG - nread, avail - nread);
      TakesMoreBounds(schedule[1..], avail, upTo, nread + k);
    }
  }

  lemma ReplyAnnounces(status: U32, body: Stream, more: Stream)
    requires |body| < 0x1_0000_0000
    ensures Announced(Reply(status, body) + more) == (status, |body|)
    ensures |Reply(status, body)| == |body| + 8
  {
    hide Word;
    var s := Reply(status, body) + more;
    WordOfBytes(status);
    WordOfBytes(|body|);
    var a, b := EncU32(status), EncU32(|body|);
    assert s[..8] == a + b;
    assert s[0] == a[0] && s[1] == a[1] && s[2] == a[2] && s[3] == a[3];
    assert s[4] == b[0] && s[5] == b[1] && s[6] == b[2] && s[7] == b[3];
  }

  /** However the reads are split, exactly the reply is taken: this is guaranteed if and only if the
      reply has no body, or nothing follows it, or it fills the buffer. */
  lemma ExactlyOneReplyIff(status: U32, body: Stream, more: Stream)
    requires |body| <= MAX_BODY
    ensures
      (forall sch :: Took(sch, Reply(status, body) + more).Some? ==>
         Took(sch, Reply(status, body) + more).value == |Reply(status, body)|)
      <==> body == [] || more == [] || |body| == MAX_BODY
  {
    hide Reply, Announced, Amount;
    var s := Reply(status, body) + more;
    ReplyAnnounces(status, body, more);
    forall sch | Took(sch, s).Some?
      ensures
        var t := Took(sch, s).value;
        |body| + 8 <= t <= |s| && t <= MAX_API_MSG && (body == [] ==> t == 8)
    {
      TakesMoreBounds(sch[1..], |s|, |body| + 8, 8);
    }
    if body != [] && more != [] && |body| < MAX_BODY {
      var sch := [Moved(8), Moved(MAX_API_MSG)];
      TooMuch(|body|, |s|);
      assert Took(sch, s).Some? && Took(sch, s).value > |body| + 8;
    }
  }

  /** A reply is read if and only if its header comes with one read, and the reads after it can move its body
      before one of them fails. */
  lemma ReplyIsReadIff(schedule: seq<Io>, status: U32, body: Stream, more: Stream)
    requires |body| <= MAX_BODY
    ensures
      Took(schedule, Reply(status, body) + more).Some?
      <==> && schedule != [] && schedule[0].Moved? && schedule[0].n >= 8
           && (body == [] || MovesBeforeFailure(schedule[1..], |body|))
  {
    hide Reply, Announced, MovesBeforeFailure;
    ReplyAnnounces(status, body, more);
    if schedule != [] && body != [] {
      TakesMoreIff(schedule[1..], |Reply(status, body) + more|, |body| + 8, 8);
    }
  }

  lemma TooMuch(len: U32, avail: nat)
    requires 0 < len < MAX_BODY && len + 8 < avail
    ensures
      var t := Takes([Moved(8), Moved(MAX_API_MSG)], avail, len);
      t.Some? && t.value > len + 8
  {
    var sch := [Moved(8), Moved(MAX_API_MSG)];
    assert sch[1..] == [Moved(MAX_API_MSG)];
    var k := Amount(Moved(MAX_API_MSG), MAX_API_MSG - 8, avail - 8);
    assert TakesMore([Moved(MAX_API_MSG)], avail, len + 8, 8) == TakesMore([], avail, len + 8, 8 + k) by {
      assert [Moved(MAX_API_MSG)][1..] == [];
    }
  }

  // -------- the server's side --------

  /** Reading a request in APIClient::run. */
  class RequestReader {
    const buf: array<Byte>
    const decode: XdrMem
    var incoming: Stream
    var schedule: seq<Io>

    ghost predicate Valid()
      reads this, decode
    {
      && buf.Length == MAX_API_MSG
      && decode.buf == buf && decode.base == 8 && decode.size == MAX_BODY && decode.Valid()
    }

    constructor (schedule: seq<Io>)
      ensures Valid() && fresh(buf) && fresh(decode) && incoming == [] && this.schedule == schedule
    {
      var b := new Byte[MAX_API_MSG](i => 0);
      buf := b;
      decode := new XdrMem(b, 8, MAX_BODY);
      incoming, this.schedule := [], schedule;
    }

    /** The type of the next message, whose body is then ready for decoding. None closes the session: the
        five header bytes came in pieces, or the stream ended. The rest of a message is read in any pieces. */
    method ReadRequest() returns (kind: Option<Byte>)
      requires Valid() && |incoming| >= 5 ==> Word(incoming[1], incoming[2], incoming[3], incoming[4]) <= MAX_BODY
      requires Valid()
      modifies this, decode, buf
      ensures Valid()
      ensures
        forall k: Byte, body: Stream, more: Stream ::
          |body| <= MAX_BODY && old(incoming) == Frame(k, body) + more && kind.Some? ==>
            kind == Some(k) && incoming == more && decode.pos == 0 && body <= decode.Ahead()
      ensures
        forall k: Byte, body: Stream, more: Stream ::
          |body| <= MAX_BODY && old(incoming) == Frame(k, body) + more && HeaderWhole(old(schedule)) ==> kind.Some?
      ensures
        kind.Some?
        <==> && HeaderWhole(old(schedule)) && |old(incoming)| >= 5
             && |old(incoming)| - 5 >= Word(old(incoming)[1], old(incoming)[2], old(incoming)[3], old(incoming)[4])
    {
      hide Word, Frame;
      var reset := decode.SetPos(0);
      ghost var all := incoming;
      if schedule == [] { return None; }
      var ret := Amount(schedule[0], 5, |incoming|);
      schedule := schedule[1..];
      forall k: Byte, body: Stream, more: Stream | |body| <= MAX_BODY && all == Frame(k, body) + more
        ensures |all| >= 5 + |body| && Word(all[1], all[2], all[3], all[4]) == |body|
      {
        FrameParts(k, body, more);
      }
      if ret < 5 { return None; }
      var head := incoming[..5];
      forall i | 0 <= i < 5 { buf[3 + i] := head[i]; }
      var len := Word(buf[4], buf[5], buf[6], buf[7]);
      incoming := incoming[5..];
      if |incoming| < len { return None; }
      var rest := incoming[..len];
      forall i | 0 <= i < len { buf[8 + i] := rest[i]; }
      incoming := incoming[len..];
      assert buf[8..8 + len] == rest;
      assert decode.Ahead() == buf[8..MAX_API_MSG];
      assert buf[8..MAX_API_MSG][..len] == buf[8..8 + len];
      forall k: Byte, body: Stream, more: Stream | |body| <= MAX_BODY && all == Frame(k, body) + more
        ensures all[0] == k && len == |body| && rest == body && all[5..][len..] == more
      {
        FrameParts(k, body, more);
      }
      return Some(buf[3]);
    }
  
    /** A message of type DTN_SEND, as handle_send unpacks it. */
    method ReceiveBundle() returns (r: Option<SendArgs>)
      requires Valid() && |incoming| >= 5 ==> Word(incoming[1], incoming[2], incoming[3], incoming[4]) <= MAX_BODY
      requires Valid()
      modifies this, decode, buf
      ensures Valid()
      ensures
        forall a: SendArgs, more: Stream ::
          SendOk(a) && SendSize(a) <= MAX_BODY && old(incoming) == Frame(DTN_SEND, EncSend(a)) + more && r.Some? ==>
            r == Some(a) && incoming == more
      ensures
        forall a: SendArgs, more: Stream ::
          && SendOk(a) && SendSize(a) <= MAX_BODY
          && old(incoming) == Frame(DTN_SEND, EncSend(a)) + more && HeaderWhole(old(schedule)) ==>
            r.Some?
      ensures
        forall k: Byte, body: Stream, more: Stream ::
          |body| <= MAX_BODY && k != DTN_SEND && old(incoming) == Frame(k, body) + more ==> r.None?
    {
      hide SendOk, SendSize, EncSend, DecSend, Frame, Word, HeaderWhole, XdrMem.Ahead;
      ghost var all := incoming;
      var kind := ReadRequest();
      if kind != Some(DTN_SEND) { return None; }
      ghost var ahead := decode.Ahead();
      r := decode.DecodeSend();
      forall a: SendArgs, more: Stream
        | SendOk(a) && SendSize(a) <= MAX_BODY && all == Frame(DTN_SEND, EncSend(a)) + more
        ensures DecSend(ahead) == Some((a, ahead[|EncSend(a)|..])) && incoming == more
      {
        assert ahead == EncSend(a) + ahead[|EncSend(a)|..];
        SendRoundTrip(a, ahead[|EncSend(a)|..]);
      }
    }
  }

  lemma FrameParts(kind: Byte, body: Stream, more: Stream)
    requires |body| <= MAX_BODY
    ensures
      var s := Frame(kind, body) + more;
      && |s| >= 5 + |body| && s[0] == kind && Word(s[1], s[2], s[3], s[4]) == |body|
      && s[5..][..|body|] == body && s[5..][|body|..] == more
  {
    hide Word;
    WordOfBytes(|body|);
    var s := Frame(kind, body) + more;
    var b := EncU32(|body|);
    assert s[1..5] == b;
    assert s[1] == b[0] && s[2] == b[1] && s[3] == b[2] && s[4] == b[3];
    assert s[5..] == body + more;
  }

  /** A bundle on its way from dtn_send to handle_send: whatever the partial writes and reads, the server
      unpacks what the client packed, as soon as the writes do not fail and the header is read whole; and a
      send that breaks a limit or does not fit is refused by the client. */
  method TransferSend(h: IpcHandle, server: RequestReader, a: SendArgs) returns (r: Option<SendArgs>)
    requires h.Valid() && server.Valid() && h.encode.pos == 0 && server.incoming == []
    requires h.buf != server.buf && h.encode != server.decode && h.decode != server.decode
    modifies h, h.encode, h.buf, server, server.decode, server.buf
    ensures r.Some? ==> r == Some(a)
    ensures
      && SendOk(a) && SendSize(a) <= MAX_BODY
      && Sends(old(h.schedule), SendSize(a) + 5) && HeaderWhole(old(server.schedule)) ==>
        r == Some(a)
    ensures !(SendOk(a) && SendSize(a) <= MAX_BODY) ==> r.None? && h.err == DTN_EXDR && h.outgoing == old(h.outgoing)
  {
    hide SendOk, SendSize, EncSend, Frame, Word, Sends, HeaderWhole, IpcHandle.Valid;
    var sent := |h.outgoing|;
    var ok := h.SendBundle(a);
    if !ok { return None; }
    server.incoming := h.outgoing[sent..];
    assert server.incoming == Frame(DTN_SEND, EncSend(a)) + [];
    FrameParts(DTN_SEND, EncSend(a), []);
    r := server.ReceiveBundle();
  }
}

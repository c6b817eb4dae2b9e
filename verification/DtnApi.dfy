/** The client library: the calls that poll, receive, send and bind, with their guard against calls in the
    middle of a poll. */
module DtnApi {
  import opened Collections
  import opened Text
  import opened Xdr
  import opened XdrStream
  import opened Ipc

  const DTN_EINVAL: int := 129
  const DTN_EINPOLL: int := 137

  const DTN_BIND: Byte := 8
  const DTN_RECV: Byte := 11
  const DTN_BEGIN_POLL: Byte := 12
  const DTN_CANCEL_POLL: Byte := 13

  lemma TookBounds(sch: seq<Io>, s: Stream)
    requires Took(sch, s).Some? && |s| >= 8 && Announced(s).1 <= MAX_BODY
    ensures
      var t := Took(sch, s).value;
      8 + Announced(s).1 <= t <= |s| && (Announced(s).1 == 0 ==> t == 8)
  {
    hide Amount, Announced;
    TakesMoreBounds(sch[1..], |s|, Announced(s).1 + 8, 8);
  }

  /** A reply without a body is taken alone, whatever follows it. */
  lemma EmptyReply(status: U32, more: Stream, after: Stream, st: int, len: int)
    requires ReplyRead(Reply(status, []) + more, after, st, len)
    ensures after == more && st == AsInt(status) && len == 0
  {
    hide Reply, Announced, Took;
    var s := Reply(status, []) + more;
    var sch: seq<Io> :| Took(sch, s).Some? && Took(sch, s).value <= |s| && after == s[Took(sch, s).value..]
                        && st == AsInt(Announced(s).0) && len == AsInt(Announced(s).1);
    ReplyAnnounces(status, [], more);
    TookBounds(sch, s);
    assert s[8..] == more;
  }

  lemma EmptyReplies(before: Stream, after: Stream, st: int, len: int)
    requires ReplyRead(before, after, st, len)
    ensures forall status: U32, more: Stream | before == Reply(status, []) + more ::
              after == more && st == AsInt(status) && len == 0
  {
    hide Reply, AsInt, ReplyRead;
    forall status: U32, more: Stream | before == Reply(status, []) + more
      ensures after == more && st == AsInt(status) && len == 0
    {
      EmptyReply(status, more, after, st, len);
    }
  }

  /** A reply that is alone is taken whole. */
  lemma LoneReply(status: U32, body: Stream, after: Stream, st: int, len: int)
    requires |body| <= MAX_BODY && ReplyRead(Reply(status, body), after, st, len)
    ensures after == [] && st == AsInt(status) && len == |body|
  {
    hide Reply, Announced, Took;
    var s := Reply(status, body);
    var sch: seq<Io> :| Took(sch, s).Some? && Took(sch, s).value <= |s| && after == s[Took(sch, s).value..]
                        && st == AsInt(Announced(s).0) && len == AsInt(Announced(s).1);
    ReplyAnnounces(status, body, []);
    assert s + [] == s;
    TookBounds(sch, s);
  }

  /** dtn_begin_poll. The reply is left to the call that ends the poll. */
  method BeginPoll(h: IpcHandle, timeout: U32) returns (ok: bool)
    requires h.Valid() && h.encode.pos == 0
    modifies h, h.encode, h.buf
    ensures h.Valid() && h.incoming == old(h.incoming)
    ensures old(h.inPoll) ==> !ok && h.inPoll && h.err == DTN_EINPOLL && h.outgoing == old(h.outgoing)
    ensures !old(h.inPoll) ==> h.inPoll && (ok <==> Sends(old(h.schedule), 9))
    ensures ok ==> h.encode.pos == 0 && h.outgoing == old(h.outgoing) + Frame(DTN_BEGIN_POLL, EncU32(timeout))
    ensures !old(h.inPoll) && !ok ==>
              && h.err == DTN_ECOMM && !h.open
              && CutOff(old(h.outgoing), h.outgoing, Frame(DTN_BEGIN_POLL, EncU32(timeout)))
  {
    hide Frame, EncU32, Sends, CutOff;
    if h.inPoll {
      h.err := DTN_EINPOLL;
      return false;
    }
    h.inPoll := true;
    assert h.encode.Written() == [] && [] + EncU32(timeout) == EncU32(timeout);
    ok := h.encode.EncodeU32(timeout);  // four bytes always fit
    ok := h.Send(DTN_BEGIN_POLL);
  }

  /** dtn_cancel_poll, as the code has it: the second reply is read only if the first one says success,
      although both are on their way. */
  method CancelPoll(h: IpcHandle) returns (r: int)
    requires h.Valid() && h.encode.pos == 0 && h.open
    modifies h, h.encode, h.decode, h.buf
    ensures h.Valid()
    ensures !old(h.inPoll) ==> r == -1 && h.err == DTN_EINVAL && h.outgoing == old(h.outgoing)
                               && h.incoming == old(h.incoming)
    ensures old(h.inPoll) ==> !h.inPoll
    ensures old(h.inPoll) ==>
              || h.outgoing == old(h.outgoing) + Frame(DTN_CANCEL_POLL, [])
              || (!h.open && CutOff(old(h.outgoing), h.outgoing, Frame(DTN_CANCEL_POLL, [])))
    ensures !h.open ==> r == -1 && (h.err == -1 || h.err == DTN_ECOMM)
    ensures old(h.inPoll) && h.open ==>
              forall poll: U32, cancel: U32, more: Stream ::
                old(h.incoming) == Reply(poll, []) + (Reply(cancel, []) + more) ==>
                  if AsInt(poll) == DTN_SUCCESS then
                    h.incoming == more && h.err == AsInt(cancel) && (r == 0 <==> AsInt(cancel) == DTN_SUCCESS)
                  else
                    h.incoming == Reply(cancel, []) + more && r == -1 && h.err == -1
  {
    hide Frame, Reply, AsInt, ReplyRead, RefusedReply, CutOff, IpcHandle.Valid, XdrMem.Valid, XdrMem.Written;
    if !h.inPoll {
      h.SetErrno(DTN_EINVAL);
      return -1;
    }
    h.SetPoll(false);
    ghost var before := h.incoming;
    NothingWritten(h.encode);
    var first := h.SendRecv(DTN_CANCEL_POLL);
    ghost var between := h.incoming;
    if h.open { FirstReply(before, between, first, old(h.err), h.err); }
    if first != 0 {
      h.SetErrno(first);
      return -1;
    }
    r := SecondReply(h);
  }

  lemma NothingWritten(e: XdrMem)
    requires e.Valid() && e.pos == 0
    ensures e.Written() == []
  {
  }

  /** The second wait of dtn_cancel_poll. */
  method SecondReply(h: IpcHandle) returns (r: int)
    requires h.Valid() && h.open
    modifies h, h.decode, h.buf
    ensures h.Valid() && h.inPoll == old(h.inPoll) && h.outgoing == old(h.outgoing)
    ensures !h.open ==> r == -1 && h.err == DTN_ECOMM
    ensures h.open ==>
              forall cancel: U32, more: Stream | old(h.incoming) == Reply(cancel, []) + more ::
                h.incoming == more && h.err == AsInt(cancel) && (r == 0 <==> AsInt(cancel) == DTN_SUCCESS)
  {
    hide Frame, Reply, AsInt, ReplyRead, Took, IpcHandle.Valid, XdrMem.Valid;
    ghost var between := h.incoming;
    var len, status := h.Recv();
    if h.open { EmptyReplies(between, h.incoming, status, len); }
    if len != 0 { return -1; }
    h.SetErrno(status);
    if status != DTN_SUCCESS { return -1; }
    return 0;
  }

  lemma FirstReply(before: Stream, between: Stream, first: int, oldErr: int, err: int)
    requires first == 0 || first == -1
    requires first == 0 ==> exists len :: ReplyRead(before, between, DTN_SUCCESS, len)
    requires first == -1 ==> RefusedReply(before, between, oldErr, err)
    ensures forall poll: U32, rest: Stream | before == Reply(poll, []) + rest ::
              between == rest && (first == 0 <==> AsInt(poll) == DTN_SUCCESS) && (first != 0 ==> err == AsInt(poll))
  {
    hide Reply, AsInt, ReplyRead;
    forall poll: U32, rest: Stream | before == Reply(poll, []) + rest
      ensures between == rest && (first == 0 <==> AsInt(poll) == DTN_SUCCESS) && (first != 0 ==> err == AsInt(poll))
    {
      OneReply(before, between, first, poll, rest, oldErr, err);
    }
  }

  lemma OneReply(before: Stream, between: Stream, first: int, poll: U32, rest: Stream, oldErr: int, err: int)
    requires before == Reply(poll, []) + rest && (first == 0 || first == -1)
    requires first == 0 ==> exists len :: ReplyRead(before, between, DTN_SUCCESS, len)
    requires first == -1 ==> RefusedReply(before, between, oldErr, err)
    ensures between == rest && (first == 0 <==> AsInt(poll) == DTN_SUCCESS) && (first != 0 ==> err == AsInt(poll))
  {
    hide Reply, AsInt, ReplyRead;
    if first == 0 {
      var len :| ReplyRead(before, between, DTN_SUCCESS, len);
      EmptyReply(poll, rest, between, DTN_SUCCESS, len);
    } else {
      var status, len :| ReplyRead(before, between, status, len)
                         && if len < 0 then err == oldErr else status != DTN_SUCCESS && err == status;
      EmptyReply(poll, rest, between, status, len);
    }
  }

  /** The end of a poll in dtn_recv and dtn_session_update: the reply to begin_poll is read first. */
  method CollectPoll(h: IpcHandle) returns (ok: bool)
    requires h.Valid() && h.open
    modifies h, h.decode, h.buf
    ensures h.Valid() && !h.inPoll && h.outgoing == old(h.outgoing) && h.encode.pos == old(h.encode.pos)
    ensures ok ==> h.open
    ensures !h.open ==> h.err == DTN_ECOMM
    ensures h.open ==>
              forall poll: U32, more: Stream | old(h.incoming) == Reply(poll, []) + more ::
                h.incoming == more && (ok <==> AsInt(poll) == DTN_SUCCESS) && (!ok ==> h.err == AsInt(poll))
  {
    hide Frame, Reply, AsInt, ReplyRead, InBuffer, Took, IpcHandle.Valid, XdrMem.Valid;
    ghost var before := h.incoming;
    h.SetPoll(false);
    var len, status := h.Recv();
    if h.open { EmptyReplies(before, h.incoming, status, len); }
    if len != 0 { return false; }
    if status != DTN_SUCCESS {
      h.SetErrno(status);
      return false;
    }
    return h.open;
  }

  function EncDelivery(v: Spec, p: Payload): Stream { EncSpec(v) + EncPayload(p) }

  ghost predicate Deliverable(v: Spec, p: Payload) {
    SpecOk(v) && PayloadOk(p) && |EncDelivery(v, p)| <= MAX_BODY
  }

  const DTN_PAYLOAD_FILE: I32 := 0
  const DTN_PAYLOAD_MEM: I32 := 1

  /** The request of dtn_recv and its reply. The payload must be where the caller wants it, or in a file from which it
      is then read. */
  method RequestBundle(h: IpcHandle, location: I32, timeout: U32) returns (r: Option<(Spec, Payload)>)
    requires h.Valid() && h.encode.pos == 0 && h.open
    modifies h, h.encode, h.decode, h.buf
    ensures h.Valid() && h.inPoll == old(h.inPoll)
    ensures r.Some? || h.open ==>
              h.outgoing == old(h.outgoing) + Frame(DTN_RECV, EncI32(location) + EncU32(timeout))
    ensures h.open ==>
              forall v: Spec, p: Payload | Deliverable(v, p) && old(h.incoming) == Reply(0, EncDelivery(v, p)) ::
                && h.incoming == []
                && if p.location == location || (location == DTN_PAYLOAD_MEM && p.location == DTN_PAYLOAD_FILE) then
                     r == Some((v, p))
                   else r.None? && h.err == DTN_EXDR
    ensures h.open ==>
              forall status: U32, more: Stream |
                old(h.incoming) == Reply(status, []) + more && AsInt(status) != DTN_SUCCESS ::
                r.None? && h.incoming == more && h.err == AsInt(status)
    ensures !h.open ==> r.None? && h.err == DTN_ECOMM
  {
    hide Frame, Reply, AsInt, ReplyRead, InBuffer, Took, EncI32, EncU32, EncDelivery, Deliverable, DecSpec,
         DecPayload, CutOff;
    ghost var before := h.incoming;
    PackReceive(h, location, timeout);
    ghost var err0 := h.err;
    var ret := h.SendRecv(DTN_RECV);
    if h.open { FirstReply(before, h.incoming, ret, err0, h.err); }
    if ret != 0 {
      if h.open { NotDelivered(before, h.incoming, err0, h.err); }
      return None;
    }
    ghost var ahead := h.decode.Ahead();
    assert ahead == h.buf[..][8..];
    Deliveries(before, h.incoming, h.buf[..], ahead);
    r := None;
    var spec := h.decode.DecodeSpec();
    if spec.None? {
      h.SetErrno(DTN_EXDR);
      return;
    }
    var payload := h.decode.DecodePayload();
    if payload.None? {
      h.SetErrno(DTN_EXDR);
      return;
    }
    if location == DTN_PAYLOAD_MEM && payload.value.location == DTN_PAYLOAD_FILE {
      return Some((spec.value, payload.value));
    } else if location != payload.value.location {
      h.SetErrno(DTN_EXDR);
      return;
    }
    return Some((spec.value, payload.value));
  }

  lemma NotDelivered(before: Stream, after: Stream, oldErr: int, err: int)
    requires RefusedReply(before, after, oldErr, err)
    ensures forall v: Spec, p: Payload | Deliverable(v, p) :: before != Reply(0, EncDelivery(v, p))
  {
    hide Reply, ReplyRead, AsInt, EncSpec, EncPayload, SpecOk, PayloadOk;
    var status, len :| ReplyRead(before, after, status, len)
                       && if len < 0 then err == oldErr else status != DTN_SUCCESS && err == status;
    forall v: Spec, p: Payload | Deliverable(v, p) ensures before != Reply(0, EncDelivery(v, p)) {
      if before == Reply(0, EncDelivery(v, p)) {
        LoneReply(0, EncDelivery(v, p), after, status, len);
        ZeroIsSuccess();
      }
    }
  }

  method PackReceive(h: IpcHandle, location: I32, timeout: U32)
    requires h.Valid() && h.encode.pos == 0
    modifies h.encode, h.buf
    ensures h.Valid() && h.encode.Written() == EncI32(location) + EncU32(timeout)
  {
    hide EncI32, EncU32;
    assert h.encode.Written() == [] && [] + EncI32(location) == EncI32(location);
    var ok := h.encode.EncodeI32(location);  // eight bytes always fit
    ok := h.encode.EncodeU32(timeout);
  }

  lemma Deliveries(before: Stream, after: Stream, b: Stream, ahead: Stream)
    requires |b| == MAX_API_MSG && ahead == b[8..] && InBuffer(b, before, after)
    requires exists len :: ReplyRead(before, after, DTN_SUCCESS, len)
    ensures forall v: Spec, p: Payload | Deliverable(v, p) && before == Reply(0, EncDelivery(v, p)) ::
              && after == [] && DecSpec(ahead).Some? && DecSpec(ahead).value.0 == v
              && DecPayload(DecSpec(ahead).value.1).Some? && DecPayload(DecSpec(ahead).value.1).value.0 == p
  {
    hide Reply, ReplyRead, AsInt, EncSpec, DecSpec, EncPayload, DecPayload, SpecOk, PayloadOk;
    var len :| ReplyRead(before, after, DTN_SUCCESS, len);
    forall v: Spec, p: Payload | Deliverable(v, p) && before == Reply(0, EncDelivery(v, p))
      ensures
        && after == [] && DecSpec(ahead).Some? && DecSpec(ahead).value.0 == v
        && DecPayload(DecSpec(ahead).value.1).Some? && DecPayload(DecSpec(ahead).value.1).value.0 == p
    {
      var body := EncDelivery(v, p);
      LoneReply(0, body, after, DTN_SUCCESS, len);
      ReplyBody(b, body);
      var rest := ahead[|body|..];
      assert ahead == body + rest;
      Assoc(EncSpec(v), EncPayload(p), rest);
      SpecRoundTrip(v, EncPayload(p) + rest);
      PayloadRoundTrip(p, rest);
    }
  }

  lemma ReplyBody(b: Stream, body: Stream)
    requires |b| == MAX_API_MSG && |body| <= MAX_BODY
    requires b[..|Reply(0, body)|] == Reply(0, body)
    ensures b[8..][..|body|] == body
  {
    var r := Reply(0, body);
    assert r[8..] == body;
    assert b[8..][..|body|] == b[..|r|][8..];
  }

  /** dtn_recv up to the copying of payload files: alone, or as the end of a poll. What the server packed is what the
      client gets, if it is in the place that the client asked for. */
  method Receive(h: IpcHandle, location: I32, timeout: U32) returns (r: Option<(Spec, Payload)>)
    requires h.Valid() && h.encode.pos == 0 && h.open
    modifies h, h.encode, h.decode, h.buf
    ensures h.Valid() && !h.inPoll
    ensures r.Some? || (h.open && !old(h.inPoll)) ==>
              h.outgoing == old(h.outgoing) + Frame(DTN_RECV, EncI32(location) + EncU32(timeout))
    ensures old(h.inPoll) && h.open ==>
              forall poll: U32, more: Stream | old(h.incoming) == Reply(poll, []) + more && AsInt(poll) == DTN_SUCCESS ::
                h.outgoing == old(h.outgoing) + Frame(DTN_RECV, EncI32(location) + EncU32(timeout))
    ensures h.open ==>
              forall v: Spec, p: Payload |
                Deliverable(v, p)
                && old(h.incoming) == if old(h.inPoll) then Reply(0, []) + Reply(0, EncDelivery(v, p))
                                      else Reply(0, EncDelivery(v, p)) ::
                && h.incoming == []
                && if p.location == location || (location == DTN_PAYLOAD_MEM && p.location == DTN_PAYLOAD_FILE) then
                     r == Some((v, p))
                   else r.None? && h.err == DTN_EXDR
    ensures h.open ==>
              forall status: U32, more: Stream |
                AsInt(status) != DTN_SUCCESS
                && old(h.incoming) == if old(h.inPoll) then Reply(0, []) + (Reply(status, []) + more)
                                      else Reply(status, []) + more ::
                r.None? && h.incoming == more && h.err == AsInt(status)
    ensures !h.open ==> r.None? && h.err == DTN_ECOMM
    ensures old(h.inPoll) && h.open ==>
              forall poll: U32, more: Stream | old(h.incoming) == Reply(poll, []) + more && AsInt(poll) != DTN_SUCCESS ::
                r.None? && h.incoming == more && h.err == AsInt(poll) && h.outgoing == old(h.outgoing)
  {
    hide Frame, Reply, AsInt, IpcHandle.Valid, EncI32, EncU32, EncDelivery, Deliverable;
    if h.inPoll {
      var ok := CollectPoll(h);
      ZeroIsSuccess();
      if !ok { return None; }
    }
    r := RequestBundle(h, location, timeout);
  }

  lemma ZeroIsSuccess()
    ensures AsInt(0) == DTN_SUCCESS
  {
  }

  /** dtn_bind, as one of the calls that are refused during a poll. */
  method Bind(h: IpcHandle, regid: U32) returns (r: int)
    requires h.Valid() && h.encode.pos == 0 && h.open
    modifies h, h.encode, h.decode, h.buf
    ensures h.Valid() && h.inPoll == old(h.inPoll)
    ensures old(h.inPoll) ==> r == -1 && h.err == DTN_EINPOLL && h.outgoing == old(h.outgoing)
                              && h.incoming == old(h.incoming)
    ensures r == 0 || (!old(h.inPoll) && h.open) ==> h.outgoing == old(h.outgoing) + Frame(DTN_BIND, EncU32(regid))
    ensures !old(h.inPoll) && h.open ==>
              forall status: U32, more: Stream | old(h.incoming) == Reply(status, []) + more ::
                h.incoming == more && (r == 0 <==> AsInt(status) == DTN_SUCCESS) && (r != 0 ==> h.err == AsInt(status))
    ensures !h.open ==> r == -1 && h.err == DTN_ECOMM
  {
    hide Frame, Reply, AsInt, ReplyRead, RefusedReply, InBuffer, IpcHandle.Valid, EncU32;
    if h.inPoll {
      h.SetErrno(DTN_EINPOLL);
      return -1;
    }
    PackRegid(h, regid);
    ghost var before := h.incoming;
    r := h.SendRecv(DTN_BIND);
    if h.open { FirstReply(before, h.incoming, r, old(h.err), h.err); }
  }

  method PackRegid(h: IpcHandle, regid: U32)
    requires h.Valid() && h.encode.pos == 0
    modifies h.encode, h.buf
    ensures h.Valid() && h.encode.Written() == EncU32(regid)
  {
    hide EncU32;
    assert h.encode.Written() == [] && [] + EncU32(regid) == EncU32(regid);
    var ok := h.encode.EncodeU32(regid);  // four bytes always fit
  }
}

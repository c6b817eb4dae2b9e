/** The bytes of the replies in a running session: reading as much as the buffer holds takes exactly one
    reply, because of what the protocol lets be in the stream. */
module IpcRuns {
  import opened Text
  import opened Xdr
  import opened Ipc
  import P = IpcProtocol

  /** A reply as it is sent. */
  datatype Sent = Sent(status: U32, body: Stream)

  ghost predicate Matches(replies: seq<P.Reply>, sent: seq<Sent>) {
    && |sent| == |replies|
    && forall i :: 0 <= i < |sent| ==> |sent[i].body| <= MAX_BODY && (replies[i].hasBody <==> sent[i].body != [])
  }

  function Bytes(sent: seq<Sent>): Stream
    requires forall i :: 0 <= i < |sent| ==> |sent[i].body| <= MAX_BODY
  {
    if sent == [] then [] else Reply(sent[0].status, sent[0].body) + Bytes(sent[1..])
  }

  /** While a reply with a body waits to be taken, the only step that is possible is to take it. */
  lemma OnlyTaking(steps: seq<P.Step>, e: P.State, step: P.Step)
    requires P.Reaches(P.Initial(), steps, e) && e.unread == 0 && P.Enabled(e, P.Take) && e.replies[0].hasBody
    requires P.Enabled(e, step)
    ensures step == P.Take
  {
    hide P.Reaches;
    P.NothingFollowsABody(steps, e, 0);
  }

  /** Until the client takes a reply, the replies that wait for it stay in front. */
  lemma {:induction false} RepliesWait(e: P.State, more: seq<P.Step>, f: P.State)
    requires P.Reaches(e, more, f) && P.Take !in more
    ensures e.replies <= f.replies
    decreases |more|
  {
    if more != [] {
      var next := P.Next(e, more[0]);
      assert more[0] in more;
      assert forall s :: s in more[1..] ==> s in more;
      assert e.replies <= next.replies;
      RepliesWait(next, more[1..], f);
    }
  }

  lemma FirstStep(e: P.State, more: seq<P.Step>, f: P.State)
    requires P.Reaches(e, more, f)
    ensures if more == [] then e == f else more[0] in more && P.Enabled(e, more[0])
  {
  }

  /** In every run without an early return of dtn_cancel_poll, over all splits of the reads, and whatever steps
      are taken while the client reads: dtnipc_recv takes exactly the reply to the call, and leaves those that
      were sent after it. If the reply has a body, there are no such steps. */
  lemma ExactlyOneReplyInEveryRun(steps: seq<P.Step>, e: P.State, more: seq<P.Step>, f: P.State, sent: seq<Sent>,
                                  sch: seq<Io>)
    requires P.Reaches(P.Initial(), steps, e) && e.unread == 0 && P.Enabled(e, P.Take)
    requires P.Reaches(e, more, f) && P.Take !in more && Matches(f.replies, sent)
    ensures e.replies <= f.replies && (e.replies[0].hasBody ==> more == [] && f == e)
    ensures
      var stream := Bytes(sent);
      Took(sch, stream).Some? ==>
        Took(sch, stream).value <= |stream| && stream[Took(sch, stream).value..] == Bytes(sent[1..])
  {
    hide P.Reaches, P.Enabled, Reply, Took;
    RepliesWait(e, more, f);
    assert e.replies != [] by { Waits(e); }
    var w, rest := sent[0], Bytes(sent[1..]);
    assert w.body != [] <==> e.replies[0].hasBody;
    FirstStep(e, more, f);
    if e.replies[0].hasBody {
      P.NothingFollowsABody(steps, e, 0);
      if more != [] { OnlyTaking(steps, e, more[0]); }
      assert |sent| == 1 && rest == [];
    }
    ExactlyOneReplyIff(w.status, w.body, rest);
    assert (Reply(w.status, w.body) + rest)[|Reply(w.status, w.body)|..] == rest;
  }

  lemma Waits(e: P.State)
    requires P.Enabled(e, P.Take)
    ensures e.replies != []
  {
  }
}

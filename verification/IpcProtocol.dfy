/** A client of the API and its server thread, step by step. The two talk over two first-in first-out
    streams. A client call sends one request and waits for one reply, except that dtn_begin_poll leaves its
    reply to a later call, and dtn_cancel_poll wants two replies. */
module IpcProtocol {

  /** Call stands for the requests that are not about polling or receiving: local eid, register, unregister,
      find registration, bind, unbind, send and cancel. */
  datatype Request = BeginPoll | CancelPoll | Receive | SessionUpdate | Call(kind: nat)

  datatype Status = Success | Timeout | Error(code: int)

  const DTN_ECOMM: int := 131

  /** A reply with the request it answers. */
  datatype Reply = Reply(to: Request, status: Status, hasBody: bool)

  /** Where the client is. InPoll is the time between begin_poll and the call that ends the poll;
      Collecting the first wait of dtn_recv or dtn_session_update after a poll; Cancelling and Cancelled
      the two waits of dtn_cancel_poll. Closed is the end: the server closed the session. */
  datatype Client =
    | Idle
    | InPoll
    | Waiting(call: Request)
    | Collecting(call: Request)
    | Cancelling
    | Cancelled(first: Reply)
    | Closed

  /** Where the server thread is. A blocked begin_poll that reads a cancel request answers the cancel
      request at once and then owes the reply to the poll. Ended is a session that the server closed. */
  datatype Server = Ready | Handling(request: Request) | PollCancelled | Ended

  /** issued and taken record what the client has sent and consumed, unread how often dtn_cancel_poll
      returned early, and lost how many replies the client was waiting for when its session ended. */
  datatype State = State(client: Client, requests: seq<Request>, server: Server, replies: seq<Reply>,
                         issued: seq<Request>, taken: seq<Reply>, unread: nat, lost: nat)

  datatype Step =
    | Issue(call: Request)                              // a call from Idle
    | EndPoll(call: Request)                            // receive, session update or cancel in a poll
    | Refused(call: Request)                            // a call that is not allowed now returns at once
    | Take                                              // dtnipc_recv
    | ReadRequest                                       // the loop of APIClient::run
    | Finish(status: Status, hasBody: bool)             // a handler returns and its response is sent
    | ReadCancel                                        // a blocked begin_poll finds a cancel request
    | FinishPoll
    | Unexpected                                        // a blocked handler finds other data and ends the session
    | Fail                                              // dtnipc_recv finds the stream closed

  function Initial(): State { State(Idle, [], Ready, [], [], [], 0, 0) }

  ghost predicate EndsPoll(r: Request) { r == Receive || r == SessionUpdate || r == CancelPoll }

  /** The handlers that wait for a bundle and watch the stream of requests meanwhile. */
  ghost predicate Blocks(r: Request) { r == BeginPoll || r == Receive || r == SessionUpdate }

  predicate Waits(c: Client) { c != Idle && c != InPoll && c != Closed }

  ghost predicate Enabled(s: State, step: Step) {
    match step
    case Issue(call) => s.client == Idle && call != CancelPoll
    case EndPoll(call) => s.client == InPoll && EndsPoll(call)
    case Refused(call) => (s.client == InPoll && !EndsPoll(call)) || (s.client == Idle && call == CancelPoll)
    case Take => Waits(s.client) && s.replies != []
    case ReadRequest => s.server == Ready && s.requests != []
    case Finish(status, hasBody) =>
      && s.server.Handling? && status != Error(DTN_ECOMM)
      && (s.server.request == BeginPoll ==> !hasBody)
      && (s.server.request == CancelPoll ==> status == Success && !hasBody)
    case ReadCancel => s.server == Handling(BeginPoll) && s.requests != [] && s.requests[0] == CancelPoll
    case FinishPoll => s.server == PollCancelled
    case Unexpected =>
      && s.server.Handling? && Blocks(s.server.request) && s.requests != []
      && !(s.server.request == BeginPoll && s.requests[0] == CancelPoll)
    case Fail => Waits(s.client) && s.server == Ended && s.replies == []
  }

  function Sent(s: State, call: Request, client: Client): State {
    s.(client := client, requests := s.requests + [call], issued := s.issued + [call])
  }

  function Answered(s: State, r: Reply, server: Server): State {
    s.(server := server, replies := s.replies + [r])
  }

  /** The client after the reply r. dtn_cancel_poll compares the 0 or -1 of its first wait with status
      codes, so it goes on to the second wait only if the first reply says success. */
  function Received(s: State, r: Reply): State {
    match s.client
    case Waiting(_) => s.(client := Idle)
    case Collecting(call) =>
      if r.status == Success && !r.hasBody then Sent(s, call, Waiting(call)) else s.(client := Idle)
    case Cancelling =>
      if r.status == Success then s.(client := Cancelled(r)) else s.(client := Idle, unread := s.unread + 1)
    case Cancelled(_) => s.(client := Idle)
    case Idle => s
    case InPoll => s
    case Closed => s
  }

  ghost function Next(s: State, step: Step): State
    requires Enabled(s, step)
  {
    match step
    case Issue(call) => Sent(s, call, if call == BeginPoll then InPoll else Waiting(call))
    case EndPoll(call) =>
      if call == CancelPoll then Sent(s, call, Cancelling) else s.(client := Collecting(call))
    case Refused(_) => s
    case Take => Received(s.(replies := s.replies[1..], taken := s.taken + [s.replies[0]]), s.replies[0])
    case ReadRequest => s.(server := Handling(s.requests[0]), requests := s.requests[1..])
    case Finish(status, hasBody) => Answered(s, Reply(s.server.request, status, hasBody), Ready)
    case ReadCancel => Answered(s.(requests := s.requests[1..]), Reply(CancelPoll, Success, false), PollCancelled)
    case FinishPoll => Answered(s, Reply(BeginPoll, Success, false), Ready)
    case Unexpected => Answered(s, Reply(s.server.request, Error(DTN_ECOMM), false), Ended)
    case Fail => s.(client := Closed, lost := s.lost + Owed(s.client))
  }

  ghost predicate Reaches(s: State, steps: seq<Step>, e: State)
    decreases |steps|
  {
    if steps == [] then s == e else Enabled(s, steps[0]) && Reaches(Next(s, steps[0]), steps[1..], e)
  }

  // -------- what is owed --------

  function InHand(server: Server): seq<Request> {
    match server
    case Ready => []
    case Handling(r) => [r]
    case PollCancelled => [BeginPoll]
    case Ended => []
  }

  function To(replies: seq<Reply>): (r: seq<Request>)
    ensures |r| == |replies| && forall i :: 0 <= i < |r| ==> r[i] == replies[i].to
  {
    seq(|replies|, i requires 0 <= i < |replies| => replies[i].to)
  }

  /** The requests whose reply the client has not consumed. */
  function Outstanding(s: State): multiset<Request> {
    multiset(s.requests) + multiset(InHand(s.server)) + multiset(To(s.replies))
  }

  /** The replies the client means to consume before it is idle. */
  function Owed(c: Client): nat {
    match c
    case Idle => 0
    case Cancelling => 2
    case InPoll => 1
    case Waiting(_) => 1
    case Collecting(_) => 1
    case Cancelled(_) => 1
    case Closed => 0
  }

  ghost predicate Conserved(s: State) {
    && multiset(s.issued) == multiset(To(s.taken)) + Outstanding(s)
    && |Outstanding(s)| == Owed(s.client) + s.unread + s.lost
  }

  lemma ToSnoc(replies: seq<Reply>, r: Reply)
    ensures To(replies + [r]) == To(replies) + [r.to]
  {
  }

  lemma ToHead(replies: seq<Reply>)
    requires replies != []
    ensures To(replies) == [replies[0].to] + To(replies[1..])
  {
  }

  lemma SentConserves(s: State, call: Request, client: Client)
    requires Conserved(s) && Owed(client) == Owed(s.client) + 1
    ensures Conserved(Sent(s, call, client))
  {
    hide To, InHand;
  }

  /** A reply is taken, and the client goes on to a state that waits for one reply less. */
  lemma TakenConserves(s: State, client: Client, unread: nat)
    requires Conserved(s) && s.replies != [] && Owed(client) + unread + 1 == Owed(s.client) + s.unread
    ensures Conserved(s.(replies := s.replies[1..], taken := s.taken + [s.replies[0]], client := client,
                         unread := unread))
  {
    ToHead(s.replies);
    ToSnoc(s.taken, s.replies[0]);
    hide To, InHand;
  }

  lemma TakeConserves(s: State)
    requires Conserved(s) && Enabled(s, Take)
    ensures Conserved(Next(s, Take))
  {
    hide Conserved;
    match s.client
    case Waiting(_) => TakenConserves(s, Idle, s.unread);
    case Collecting(call) =>
      TakenConserves(s, Idle, s.unread);
      var t := s.(replies := s.replies[1..], taken := s.taken + [s.replies[0]], client := Idle, unread := s.unread);
      SentConserves(t, call, Waiting(call));
    case Cancelling =>
      TakenConserves(s, Cancelled(s.replies[0]), s.unread);
      TakenConserves(s, Idle, s.unread + 1);
    case Cancelled(_) => TakenConserves(s, Idle, s.unread);
  }

  lemma AnsweredConserves(s: State, r: Reply, server: Server)
    requires Conserved(s) && multiset(InHand(s.server)) == multiset(InHand(server)) + multiset{r.to}
    ensures Conserved(Answered(s, r, server))
  {
    ToSnoc(s.replies, r);
    hide To, InHand;
  }

  lemma ReadConserves(s: State, server: Server)
    requires Conserved(s) && s.requests != []
    requires multiset(InHand(server)) == multiset(InHand(s.server)) + multiset{s.requests[0]}
    ensures Conserved(s.(requests := s.requests[1..], server := server))
  {
    assert s.requests == [s.requests[0]] + s.requests[1..];
    hide To, InHand;
  }

  /** The server reads a cancel request and answers it in one step. */
  lemma ReadCancelConserves(s: State)
    requires Conserved(s) && Enabled(s, ReadCancel)
    ensures Conserved(Next(s, ReadCancel))
  {
    var n := Next(s, ReadCancel);
    ToSnoc(s.replies, Reply(CancelPoll, Success, false));
    hide To, Conserved;
    assert s.requests == [CancelPoll] + s.requests[1..];
    OneMoves(CancelPoll, s.requests[1..], multiset(InHand(s.server)), To(s.replies));
    SameOutstanding(s, n);
  }

  lemma OneMoves(c: Request, rest: seq<Request>, inHand: multiset<Request>, to: seq<Request>)
    ensures multiset([c] + rest) + inHand + multiset(to) == multiset(rest) + inHand + multiset(to + [c])
  {
  }

  lemma SameOutstanding(s: State, n: State)
    requires Conserved(s) && Outstanding(n) == Outstanding(s) && n.issued == s.issued && n.taken == s.taken
    requires n.client == s.client && n.unread == s.unread && n.lost == s.lost
    ensures Conserved(n)
  {
    hide To, Outstanding;
  }

  lemma StepConserves(s: State, step: Step)
    requires Conserved(s) && Enabled(s, step)
    ensures Conserved(Next(s, step))
  {
    hide Conserved, InHand, To, Answered;
    match step
    case Issue(call) => SentConserves(s, call, if call == BeginPoll then InPoll else Waiting(call));
    case EndPoll(call) =>
      SentConserves(s, call, Cancelling);
      CollectingConserves(s, call);
    case Refused(_) =>
    case Take => TakeConserves(s);
    case ReadRequest => ReadRequestConserves(s);
    case Finish(_, _) => ServerConserves(s, step);
    case ReadCancel => ReadCancelConserves(s);
    case FinishPoll => ServerConserves(s, step);
    case Unexpected => ServerConserves(s, step);
    case Fail => FailConserves(s);
  }

  lemma ReadRequestConserves(s: State)
    requires Conserved(s) && Enabled(s, ReadRequest)
    ensures Conserved(Next(s, ReadRequest))
  {
    hide Conserved;
    ReadConserves(s, Handling(s.requests[0]));
  }

  /** The server answers what it has in hand. */
  lemma AnswerConserves(s: State, step: Step, r: Reply, server: Server)
    requires Conserved(s) && Enabled(s, step) && Next(s, step) == Answered(s, r, server)
    requires InHand(s.server) == [r.to] && InHand(server) == []
    ensures Conserved(Next(s, step))
  {
    hide Conserved, Answered, Next, Enabled, InHand;
    AnsweredConserves(s, r, server);
  }

  lemma ServerConserves(s: State, step: Step)
    requires Conserved(s) && Enabled(s, step) && (step.Finish? || step == FinishPoll || step == Unexpected)
    ensures Conserved(Next(s, step))
  {
    hide Conserved, To;
    match step
    case Finish(status, hasBody) => AnswerConserves(s, step, Reply(s.server.request, status, hasBody), Ready);
    case FinishPoll => AnswerConserves(s, step, Reply(BeginPoll, Success, false), Ready);
    case Unexpected => AnswerConserves(s, step, Reply(s.server.request, Error(DTN_ECOMM), false), Ended);
  }

  lemma FailConserves(s: State)
    requires Conserved(s) && Enabled(s, Fail)
    ensures Conserved(Next(s, Fail))
  {
  }

  lemma CollectingConserves(s: State, call: Request)
    requires Conserved(s) && s.client == InPoll
    ensures Conserved(s.(client := Collecting(call)))
  {
  }

  /** In every interleaving each request is answered once: the requests sent are the requests of the replies
      consumed and of those that are outstanding; and the outstanding ones number 0 when the client is
      idle, 1 in a call or a poll and 2 only inside dtn_cancel_poll, plus one for every time that
      dtn_cancel_poll returned early, and plus those that a closed session left without a reply. */
  lemma {:induction false} EveryRequestIsAnsweredOnce(s: State, steps: seq<Step>, e: State)
    requires Conserved(s) && Reaches(s, steps, e)
    ensures Conserved(e)
    decreases |steps|
  {
    if steps != [] {
      StepConserves(s, steps[0]);
      EveryRequestIsAnsweredOnce(Next(s, steps[0]), steps[1..], e);
    }
  }

  lemma InitiallyConserved()
    ensures Conserved(Initial()) && Sync(Initial())
  {
    NothingOutstanding();
    InitiallySync();
  }

  lemma NothingOutstanding()
    ensures Conserved(Initial())
  {
    var s := Initial();
    assert To([]) == [];
    assert Outstanding(s) == multiset{};
  }

  lemma InitiallySync()
    ensures Sync(Initial())
  {
  }

  // -------- where the outstanding requests are --------

  /** One request: sent, being handled, or answered. */
  ghost predicate OneIn(s: State, r: Request) {
    || (s.requests == [r] && s.server == Ready && s.replies == [])
    || (s.requests == [] && s.server == Handling(r) && s.replies == [])
    || (s.requests == [] && s.server == Ready && |s.replies| == 1 && s.replies[0].to == r)
  }

  ghost predicate Plain(r: Reply, to: Request) {
    r.to == to && !r.hasBody && (to == CancelPoll ==> r.status == Success)
  }

  /** A poll and its cancel request. */
  ghost predicate BothIn(s: State) {
    || (s.requests == [BeginPoll, CancelPoll] && s.server == Ready && s.replies == [])
    || (s.requests == [CancelPoll] && s.server == Handling(BeginPoll) && s.replies == [])
    || (s.requests == [] && s.server == PollCancelled && |s.replies| == 1 && Plain(s.replies[0], CancelPoll))
    || (s.requests == [] && s.server == Ready && |s.replies| == 2
        && ((Plain(s.replies[0], CancelPoll) && Plain(s.replies[1], BeginPoll))
            || (Plain(s.replies[0], BeginPoll) && Plain(s.replies[1], CancelPoll))))
    || (s.requests == [CancelPoll] && s.server == Ready && |s.replies| == 1 && Plain(s.replies[0], BeginPoll))
    || (s.requests == [] && s.server == Handling(CancelPoll) && |s.replies| == 1 && Plain(s.replies[0], BeginPoll))
  }

  ghost predicate LastIn(s: State, first: Reply) {
    if first.to == CancelPoll then
      s.requests == [] && ((s.server == PollCancelled && s.replies == [])
                           || (s.server == Ready && |s.replies| == 1 && Plain(s.replies[0], BeginPoll)))
    else
      first.to == BeginPoll && OneIn(s, CancelPoll)
  }

  /** The streams and the server match what the client waits for. */
  ghost predicate Sync(s: State) {
    && (forall i :: 0 <= i < |s.replies| && (s.replies[i].to == BeginPoll || s.replies[i].to == CancelPoll) ==>
          Plain(s.replies[i], s.replies[i].to))
    && match s.client
       case Idle => s.requests == [] && s.server == Ready && s.replies == []
       case InPoll => OneIn(s, BeginPoll)
       case Waiting(r) => OneIn(s, r) && r != BeginPoll && r != CancelPoll
       case Collecting(r) => OneIn(s, BeginPoll) && (r == Receive || r == SessionUpdate)
       case Cancelling => BothIn(s)
       case Cancelled(first) => LastIn(s, first)
       case Closed => false
  }

  lemma ClientKeepsSync(s: State, step: Step)
    requires Sync(s) && Enabled(s, step) && (step.Issue? || step.EndPoll? || step.Refused? || step.Take?)
    ensures Next(s, step).unread == s.unread ==> Sync(Next(s, step))
  {
  }

  lemma ServerKeepsSync(s: State, step: Step)
    requires Sync(s) && Enabled(s, step) && !(step.Issue? || step.EndPoll? || step.Refused? || step.Take?)
    ensures Next(s, step).unread == s.unread && Sync(Next(s, step))
  {
  }

  lemma {:induction false} RunKeepsSync(s: State, steps: seq<Step>, e: State)
    requires Sync(s) && Reaches(s, steps, e)
    ensures s.unread <= e.unread && (e.unread == s.unread ==> Sync(e))
    decreases |steps|
  {
    hide Sync, Enabled, Next;
    if steps != [] {
      StepUnread(s, steps[0]);
      if steps[0].Issue? || steps[0].EndPoll? || steps[0].Refused? || steps[0].Take? {
        ClientKeepsSync(s, steps[0]);
      } else {
        ServerKeepsSync(s, steps[0]);
      }
      UnreadGrows(Next(s, steps[0]), steps[1..], e);
      if e.unread == s.unread { RunKeepsSync(Next(s, steps[0]), steps[1..], e); }
    }
  }

  lemma StepUnread(s: State, step: Step)
    requires Enabled(s, step)
    ensures s.unread <= Next(s, step).unread
  {
  }

  lemma {:induction false} UnreadGrows(s: State, steps: seq<Step>, e: State)
    requires Reaches(s, steps, e)
    ensures s.unread <= e.unread
    decreases |steps|
  {
    hide Enabled, Next;
    if steps != [] {
      StepUnread(s, steps[0]);
      UnreadGrows(Next(s, steps[0]), steps[1..], e);
    }
  }

  // -------- the main results --------

  lemma BodyIsAlone(e: State, i: nat)
    requires Sync(e) && i < |e.replies| && e.replies[i].hasBody
    ensures |e.replies| == 1 && e.requests == [] && e.server == Ready
    ensures e.client == Waiting(e.replies[0].to)
  {
  }

  /** As long as no dtn_cancel_poll returned early: a reply with a body is alone in its stream, nothing is on
      the way to the server and the server owes nothing, so that nothing can follow it before the client has
      taken it. */
  lemma NothingFollowsABody(steps: seq<Step>, e: State, i: nat)
    requires Reaches(Initial(), steps, e) && e.unread == 0
    requires i < |e.replies| && e.replies[i].hasBody
    ensures |e.replies| == 1 && e.requests == [] && e.server == Ready
    ensures e.client == Waiting(e.replies[0].to)
  {
    hide Reaches, Sync, Conserved;
    InitiallyConserved();
    RunKeepsSync(Initial(), steps, e);
    BodyIsAlone(e, i);
  }

  lemma NoDataWhileBlocked(e: State)
    requires Sync(e)
    ensures e.server != Ended && e.client != Closed && !Enabled(e, Unexpected)
    ensures e.server.Handling? && e.requests != [] ==>
              e.server.request == BeginPoll && e.requests == [CancelPoll] && e.client == Cancelling
  {
  }

  /** As long as no dtn_cancel_poll returned early: a handler that is not begin_poll never finds data from
      the client while it is blocked, and a blocked begin_poll finds only a cancel request; so no session
      is ended by the server. */
  lemma BlockedHandlersSeeNoData(steps: seq<Step>, e: State)
    requires Reaches(Initial(), steps, e) && e.unread == 0
    ensures e.server != Ended && e.client != Closed && !Enabled(e, Unexpected)
    ensures e.server.Handling? && e.requests != [] ==>
              e.server.request == BeginPoll && e.requests == [CancelPoll] && e.client == Cancelling
  {
    hide Reaches, Sync, Conserved;
    InitiallyConserved();
    RunKeepsSync(Initial(), steps, e);
    NoDataWhileBlocked(e);
  }

  ghost predicate OwnReply(e: State)
    requires Enabled(e, Take)
  {
    var r := e.replies[0];
    && (e.client.Waiting? ==> r.to == e.client.call)
    && (e.client.Collecting? ==> r.to == BeginPoll && !r.hasBody)
    && (e.client.Collecting? && r.status == Success ==>
          Next(e, Take).client == Waiting(e.client.call) && Next(e, Take).issued == e.issued + [e.client.call])
    && (e.client.Waiting? || (e.client.Collecting? && r.status != Success) ==>
          Next(e, Take).client == Idle && Next(e, Take).issued == e.issued)
    && (e.client == Cancelling ==> (r.to == BeginPoll || r.to == CancelPoll) && !r.hasBody)
    && (e.client.Cancelled? ==>
          {e.client.first.to, r.to} == {BeginPoll, CancelPoll} && Outstanding(Next(e, Take)) == multiset{})
  }

  lemma SyncOwnReply(e: State)
    requires Sync(e) && Enabled(e, Take)
    ensures OwnReply(e)
  {
    ToHead(e.replies);
  }

  /** A call takes the reply to its own request, which is sent when the poll before it was answered with success, and
      returns with this reply. A poll and its cancel request get exactly two
      replies, one each, whether the cancel request was read inside begin_poll or after it. */
  lemma CallsGetTheirReply(steps: seq<Step>, e: State)
    requires Reaches(Initial(), steps, e) && e.unread == 0 && Enabled(e, Take)
    ensures OwnReply(e)
  {
    hide Reaches, Sync, Conserved, OwnReply;
    InitiallyConserved();
    RunKeepsSync(Initial(), steps, e);
    SyncOwnReply(e);
  }

  /** What has to happen before the client is idle: a request is read, handled and its reply taken. */
  function Work(s: State): nat {
    3 * |s.requests| + 2 * |InHand(s.server)| + |s.replies| + if s.client.Collecting? then 4 else 0
  }

  lemma WorkGoesOn(e: State)
    requires Sync(e) && Waits(e.client)
    ensures Work(e) > 0 && exists step :: Enabled(e, step)
    ensures forall step :: Enabled(e, step) ==> Work(Next(e, step)) < Work(e)
  {
    if e.replies != [] {
      assert Enabled(e, Take);
    } else if e.server == Ready {
      assert Enabled(e, ReadRequest);
    } else if e.server == PollCancelled {
      assert Enabled(e, FinishPoll);
    } else {
      assert Enabled(e, Finish(Success, false));
    }
  }

  /** As long as no dtn_cancel_poll returned early, no call waits for ever: while the client waits for a reply some
      step is possible, and every step that is possible brings it nearer to its end. */
  lemma CallsReturn(steps: seq<Step>, e: State)
    requires Reaches(Initial(), steps, e) && e.unread == 0 && Waits(e.client)
    ensures Work(e) > 0 && exists step :: Enabled(e, step)
    ensures forall step :: Enabled(e, step) ==> Work(Next(e, step)) < Work(e)
  {
    hide Reaches, Sync, Conserved, Enabled, Next, Work;
    InitiallyConserved();
    RunKeepsSync(Initial(), steps, e);
    WorkGoesOn(e);
  }

  lemma SuccessfulCancel(e: State)
    requires Sync(e) && e.client == Cancelling && e.replies != [] && e.replies[0].status == Success
    ensures Sync(Next(e, Take))
  {
    ClientKeepsSync(e, Take);
    hide Sync;
  }

  lemma EarlyCancel(e: State)
    requires Sync(e) && e.client == Cancelling && e.replies != [] && e.replies[0].status != Success
    ensures !Sync(Next(e, Take))
    ensures e.replies[0].to == BeginPoll && Next(e, Take).client == Idle
    ensures Outstanding(Next(e, Take)) == multiset{CancelPoll}
  {
    var n := Next(e, Take);
    assert n.client == Idle && n.replies == e.replies[1..] && n.requests == e.requests && n.server == e.server;
    if e.requests == [CancelPoll] && e.server == Ready && |e.replies| == 1 {
      assert To(n.replies) == [];
    } else if e.requests == [] && e.server == Ready && |e.replies| == 2 {
      assert To(n.replies) == [CancelPoll];
    } else {
      assert To(n.replies) == [];
    }
  }

  /** dtn_cancel_poll leaves client and server in step exactly when the first reply it takes says success.
      Otherwise it returns with one request outstanding: the first reply was the poll's, and not a
      success. */
  lemma CancelStaysInStepIff(steps: seq<Step>, e: State)
    requires Reaches(Initial(), steps, e) && e.unread == 0 && e.client == Cancelling && e.replies != []
    ensures Sync(Next(e, Take)) <==> e.replies[0].status == Success
    ensures e.replies[0].status != Success ==>
              && e.replies[0].to == BeginPoll && Next(e, Take).client == Idle
              && Outstanding(Next(e, Take)) == multiset{CancelPoll}
  {
    hide Reaches, Sync, Conserved, Outstanding;
    InitiallyConserved();
    RunKeepsSync(Initial(), steps, e);
    if e.replies[0].status == Success { SuccessfulCancel(e); } else { EarlyCancel(e); }
  }

  // -------- after an early return --------

  /** What is on its way, in the order in which it is answered: replies, the request in hand, requests. */
  function Pipeline(s: State): seq<Request> { To(s.replies) + InHand(s.server) + s.requests }

  /** Between calls, or in a call that waits for one reply; no poll is on its way. */
  ghost predicate InCalls(s: State) {
    && (s.client == Idle || s.client.Waiting? || s.client == Closed)
    && BeginPoll !in Pipeline(s) && s.server != PollCancelled
  }

  /** The replies taken and to come answer the requests in the order in which they were sent. */
  ghost predicate InTurn(s: State, e: State) {
    && |s.taken| <= |e.taken| && s.issued <= e.issued && s.taken <= e.taken
    && To(e.taken[|s.taken|..]) + Pipeline(e) == Pipeline(s) + e.issued[|s.issued|..]
    && (e.client == Idle ==> |e.taken| - |s.taken| == |e.issued| - |s.issued|)
    && (e.client.Waiting? ==> |e.taken| - |s.taken| + 1 == |e.issued| - |s.issued|)
  }

  lemma InTurnNow(s: State)
    requires InCalls(s) && s.client == Idle
    ensures InTurn(s, s)
  {
    assert s.taken[|s.taken|..] == [] && s.issued[|s.issued|..] == [];
  }

  lemma SendsInTurn(s: State, e: State, call: Request)
    requires InTurn(s, e) && InCalls(e) && e.client == Idle && call != BeginPoll
    ensures InTurn(s, Sent(e, call, Waiting(call))) && InCalls(Sent(e, call, Waiting(call)))
  {
    var n := Sent(e, call, Waiting(call));
    hide To, InHand;
    assert n.issued[|s.issued|..] == e.issued[|s.issued|..] + [call];
    assert Pipeline(n) == Pipeline(e) + [call];
    var late, sent := To(e.taken[|s.taken|..]), e.issued[|s.issued|..];
    assert late + (Pipeline(e) + [call]) == (late + Pipeline(e)) + [call];
    assert Pipeline(s) + (sent + [call]) == (Pipeline(s) + sent) + [call];
  }

  lemma PipelineAfterTake(e: State)
    requires InCalls(e) && Enabled(e, Take)
    ensures Pipeline(e) == [e.replies[0].to] + Pipeline(Next(e, Take))
    ensures InCalls(Next(e, Take)) && Next(e, Take).client == Idle
  {
    var n := Next(e, Take);
    ToHead(e.replies);
    hide To, InHand;
    assert Pipeline(e) == [e.replies[0].to] + Pipeline(n);
    assert forall x :: x in Pipeline(n) ==> x in [e.replies[0].to] + Pipeline(n);
  }

  lemma OneMoreTaken(taken: seq<Reply>, base: nat, r: Reply, pipe: seq<Request>)
    requires base <= |taken|
    ensures To((taken + [r])[base..]) + pipe == To(taken[base..]) + ([r.to] + pipe)
  {
    assert (taken + [r])[base..] == taken[base..] + [r];
    ToSnoc(taken[base..], r);
    assert To(taken[base..]) + [r.to] + pipe == To(taken[base..]) + ([r.to] + pipe);
  }

  lemma TakesInTurn(s: State, e: State)
    requires InTurn(s, e) && InCalls(e) && Enabled(e, Take)
    ensures InTurn(s, Next(e, Take)) && InCalls(Next(e, Take))
  {
    hide Pipeline, InCalls, To;
    PipelineAfterTake(e);
    OneMoreTaken(e.taken, |s.taken|, e.replies[0], Pipeline(Next(e, Take)));
    TakeLogs(e);
  }

  lemma TakeLogs(e: State)
    requires InCalls(e) && Enabled(e, Take)
    ensures Next(e, Take).taken == e.taken + [e.replies[0]] && Next(e, Take).issued == e.issued && e.client.Waiting?
  {
  }

  /** The server moves a request on: the pipeline stays as it is. */
  lemma ServesInTurn(s: State, e: State, step: Step)
    requires InTurn(s, e) && InCalls(e) && Enabled(e, step)
    requires step == ReadRequest || step.Finish? || step == Unexpected
    ensures InTurn(s, Next(e, step)) && InCalls(Next(e, step))
  {
    var n := Next(e, step);
    if step == ReadRequest {
      assert e.requests == [e.requests[0]] + e.requests[1..];
    } else {
      ToSnoc(e.replies, n.replies[|e.replies|]);
    }
    assert Pipeline(n) == Pipeline(e);
  }

  lemma StepInTurn(s: State, e: State, step: Step)
    requires InTurn(s, e) && InCalls(e) && Enabled(e, step) && step != Issue(BeginPoll)
    ensures InTurn(s, Next(e, step)) && InCalls(Next(e, step))
  {
    match step
    case Issue(call) => SendsInTurn(s, e, call);
    case EndPoll(_) =>
    case Refused(_) =>
    case Take => TakesInTurn(s, e);
    case ReadRequest => ServesInTurn(s, e, step);
    case Finish(_, _) => ServesInTurn(s, e, step);
    case ReadCancel => HandledIsOnItsWay(e);
    case FinishPoll =>
    case Unexpected => ServesInTurn(s, e, step);
    case Fail => assert Pipeline(Next(e, Fail)) == Pipeline(e);
  }

  lemma HandledIsOnItsWay(e: State)
    requires e.server.Handling?
    ensures e.server.request in Pipeline(e)
  {
    assert e.server.request in InHand(e.server);
  }

  lemma {:induction false} RunInTurn(s: State, e: State, more: seq<Step>, f: State)
    requires InTurn(s, e) && InCalls(e) && Reaches(e, more, f) && Issue(BeginPoll) !in more
    ensures InTurn(s, f)
    decreases |more|
  {
    hide InTurn, InCalls, Enabled, Next;
    if more != [] {
      assert more[0] in more;
      assert forall x :: x in more[1..] ==> x in more;
      StepInTurn(s, e, more[0]);
      RunInTurn(s, Next(e, more[0]), more[1..], f);
    }
  }

  /** From a state between two calls on, as long as no poll begins: the j-th reply that is taken answers the j-th
      request of those on their way at first and those sent later. */
  lemma CallsAreBehind(s: State, more: seq<Step>, f: State, j: nat)
    requires s.client == Idle && InCalls(s) && Reaches(s, more, f) && Issue(BeginPoll) !in more
    requires |s.taken| + j < |f.taken|
    ensures s.issued <= f.issued && s.taken <= f.taken
    ensures
      var due := Pipeline(s) + f.issued[|s.issued|..];
      j < |due| && f.taken[|s.taken| + j].to == due[j]
    ensures f.client == Idle ==> |f.taken| - |s.taken| == |f.issued| - |s.issued|
  {
    hide Reaches, InCalls, Pipeline;
    InTurnNow(s);
    RunInTurn(s, s, more, f);
    var late := f.taken[|s.taken|..];
    assert To(late)[j] == f.taken[|s.taken| + j].to;
    assert (To(late) + Pipeline(f))[j] == To(late)[j];
  }

  lemma EarlyPipeline(e: State)
    requires Sync(e) && e.client == Cancelling && e.replies != [] && e.replies[0].status != Success
    ensures Pipeline(Next(e, Take)) == [CancelPoll] && InCalls(Next(e, Take)) && Next(e, Take).client == Idle
  {
  }

  /** After the first early return of dtn_cancel_poll, until the next poll, every call takes the reply to the
      request before its own: the first one takes the reply to the cancel request. */
  lemma OneReplyBehind(steps: seq<Step>, e: State, more: seq<Step>, f: State, j: nat)
    requires Reaches(Initial(), steps, e) && e.unread == 0
    requires e.client == Cancelling && e.replies != [] && e.replies[0].status != Success
    requires Reaches(Next(e, Take), more, f) && Issue(BeginPoll) !in more
    requires |e.taken| + 1 + j < |f.taken|
    ensures e.issued <= f.issued
    ensures
      var calls := f.issued[|e.issued|..];
      && j <= |calls| && f.taken[|e.taken| + 1 + j].to == (if j == 0 then CancelPoll else calls[j - 1])
      && (f.client == Idle ==> |f.taken| - |e.taken| - 1 == |calls|)
  {
    hide Reaches, Sync, Conserved, Pipeline, InCalls;
    InitiallyConserved();
    RunKeepsSync(Initial(), steps, e);
    EarlyPipeline(e);
    EarlyLogs(e);
    CallsAreBehind(Next(e, Take), more, f, j);
  }

  lemma EarlyLogs(e: State)
    requires e.client == Cancelling && e.replies != [] && e.replies[0].status != Success
    ensures |Next(e, Take).taken| == |e.taken| + 1 && Next(e, Take).issued == e.issued
  {
  }

  /** The poll times out while the client cancels it: dtn_cancel_poll takes the timeout and returns, and the
      next call takes the reply to the cancel request although the server has not even read the
      request of that call. */
  lemma CrossedTimeout() returns (steps: seq<Step>, e: State)
    ensures Reaches(Initial(), steps, e) && e.unread == 1
    ensures e.client == Waiting(Call(0)) && e.requests == [Call(0)] && Enabled(e, Take)
    ensures e.replies[0].to == CancelPoll && Next(e, Take).client == Idle
  {
    hide Reaches;
    steps, e := [], Initial();
    ReachesSelf(e);
    steps, e := More(Initial(), steps, e, Issue(BeginPoll));
    steps, e := More(Initial(), steps, e, ReadRequest);
    steps, e := More(Initial(), steps, e, Finish(Timeout, false));
    steps, e := More(Initial(), steps, e, EndPoll(CancelPoll));
    steps, e := More(Initial(), steps, e, Take);
    steps, e := More(Initial(), steps, e, ReadRequest);
    steps, e := More(Initial(), steps, e, Finish(Success, false));
    steps, e := More(Initial(), steps, e, Issue(Call(0)));
  }

  /** Then a call after dtn_recv ends the session: dtn_recv has taken the reply to the cancel request and
      returned, so that its blocked handler finds the request of the next call. */
  lemma LateCallEndsSession() returns (steps: seq<Step>, e: State)
    ensures Reaches(Initial(), steps, e) && e.unread == 1
    ensures e.server == Ended && e.requests == [Call(0)] && e.client == Waiting(Call(0))
    ensures e.replies == [Reply(Receive, Error(DTN_ECOMM), false)]
  {
    hide Reaches;
    steps, e := [], Initial();
    ReachesSelf(e);
    steps, e := More(Initial(), steps, e, Issue(BeginPoll));
    steps, e := More(Initial(), steps, e, ReadRequest);
    steps, e := More(Initial(), steps, e, Finish(Timeout, false));
    steps, e := More(Initial(), steps, e, EndPoll(CancelPoll));
    steps, e := More(Initial(), steps, e, Take);
    steps, e := More(Initial(), steps, e, ReadRequest);
    steps, e := More(Initial(), steps, e, Finish(Success, false));
    steps, e := More(Initial(), steps, e, Issue(Receive));
    steps, e := More(Initial(), steps, e, Take);
    steps, e := More(Initial(), steps, e, ReadRequest);
    steps, e := More(Initial(), steps, e, Issue(Call(0)));
    steps, e := More(Initial(), steps, e, Unexpected);
  }

  lemma ReachesSelf(s: State)
    ensures Reaches(s, [], s)
  {
  }

  lemma More(s: State, steps: seq<Step>, e: State, step: Step) returns (longer: seq<Step>, f: State)
    requires Reaches(s, steps, e) && Enabled(e, step)
    ensures longer == steps + [step] && f == Next(e, step) && Reaches(s, longer, f)
    decreases |steps|
  {
    hide Enabled, Next;
    longer, f := steps + [step], Next(e, step);
    if steps == [] {
      assert longer[1..] == [];
    } else {
      var l, g := More(Next(s, steps[0]), steps[1..], e, step);
      assert longer[1..] == l;
    }
  }
}

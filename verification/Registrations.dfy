/** The registrations that API clients bind: many client sessions share one registration table. Handlers and
    daemon events are atomic steps. */
module Registrations {
  import opened Text

  type RegId = nat
  type ClientId = nat

  const DTN_SUCCESS: int := 0
  const DTN_EINVAL: int := 129
  const DTN_EXDR: int := 130
  const DTN_ENOTFOUND: int := 135
  const DTN_EBUSY: int := 138

  /** api tells the registrations of API clients from those of the daemon. */
  datatype Registration = Registration(api: bool, active: bool, expired: bool)

  /** posted holds the registrations for which an expiration event was posted. */
  datatype State = State(table: map<RegId, Registration>, bindings: map<ClientId, seq<RegId>>,
                         posted: seq<RegId>, nextRegid: RegId)

  ghost predicate BoundBy(s: State, c: ClientId, r: RegId) {
    c in s.bindings && r in s.bindings[c]
  }

  ghost predicate NoDuplicates(rs: seq<RegId>) {
    forall i, j :: 0 <= i < j < |rs| ==> rs[i] != rs[j]
  }

  ghost predicate ClientOk(s: State, c: ClientId)
    requires c in s.bindings
  {
    && NoDuplicates(s.bindings[c])
    && forall r :: r in s.bindings[c] ==> r in s.table && s.table[r].api && s.table[r].active
  }

  ghost predicate ClientActive(s: State, r: RegId)
    requires r in s.table
  {
    s.table[r].api && s.table[r].active
  }

  /** The daemon's own registrations are always active, and no client binds them. */
  ghost predicate Inv(s: State) {
    && (forall c :: c in s.bindings ==> ClientOk(s, c))
    && (forall c, d, r :: BoundBy(s, c, r) && BoundBy(s, d, r) ==> c == d)
    && (forall r :: r in s.table && ClientActive(s, r) ==> exists c :: BoundBy(s, c, r))
    && (forall r :: r in s.table && !s.table[r].api ==> s.table[r].active)
    && (forall r :: r in s.table ==> r < s.nextRegid)
  }

  // -------- the steps --------

  datatype Step =
    | Connect(client: ClientId)
    | Register(client: ClientId, initPassive: bool)
    | Unregister(client: ClientId, regid: RegId)
    | Bind(client: ClientId, regid: RegId)
    | Unbind(client: ClientId, regid: RegId)
    | Close(client: ClientId)
    | DaemonRegisters                    // a registration of the daemon itself
    | DaemonExpires(regid: RegId)        // the lifetime of a registration ends
    | DaemonRemoves(regid: RegId)        // only inactive registrations are removed

  ghost predicate Enabled(s: State, step: Step) {
    match step
    case Connect(c) => c !in s.bindings
    case DaemonRegisters => true
    case DaemonExpires(r) => r in s.table
    case DaemonRemoves(r) => r in s.table && !s.table[r].active
    case _ => step.client in s.bindings
  }

  function SetActive(s: State, r: RegId, active: bool): State {
    if r in s.table then s.(table := s.table[r := s.table[r].(active := active)]) else s
  }

  function Registered(s: State, c: ClientId, initPassive: bool): State
    requires c in s.bindings
  {
    var r := s.nextRegid;
    s.(nextRegid := r + 1, table := s.table[r := Registration(true, !initPassive, false)],
       bindings := if initPassive then s.bindings else s.bindings[c := s.bindings[c] + [r]])
  }

  /** What a registration asks for. The two low bits of the flags are the failure action, the next three are
      about sessions. */
  datatype RegisterArgs = RegisterArgs(endpointValid: bool, flags: nat, initPassive: bool)

  /** None stands for a request that does not unpack. */
  function RegisterStatus(args: Option<RegisterArgs>): int {
    if args.None? then DTN_EXDR
    else if !args.value.endpointValid || args.value.flags % 4 == 0 || args.value.flags >= 32 then DTN_EINVAL
    else DTN_SUCCESS
  }

  function UnregisterStatus(s: State, c: ClientId, r: RegId): int
    requires c in s.bindings
  {
    if r !in s.table then DTN_ENOTFOUND
    else if s.table[r].active then
      if r in s.bindings[c] then (if s.table[r].expired then DTN_EINVAL else DTN_SUCCESS) else DTN_EBUSY
    else DTN_SUCCESS
  }

  /** A registration that the client has bound is only marked; one that nobody has bound is removed. */
  function Unregistered(s: State, c: ClientId, r: RegId): State
    requires c in s.bindings
  {
    if UnregisterStatus(s, c, r) != DTN_SUCCESS then s
    else if s.table[r].active then s.(table := s.table[r := s.table[r].(expired := true)])
    else s.(table := s.table - {r})
  }

  function BindStatus(s: State, r: RegId): int {
    if r !in s.table || !s.table[r].api then DTN_ENOTFOUND
    else if s.table[r].active then DTN_EBUSY
    else DTN_SUCCESS
  }

  function Bound(s: State, c: ClientId, r: RegId): State
    requires c in s.bindings
  {
    if BindStatus(s, r) != DTN_SUCCESS then s
    else SetActive(s, r, true).(bindings := s.bindings[c := s.bindings[c] + [r]])
  }

  function UnbindStatus(s: State, c: ClientId, r: RegId): int
    requires c in s.bindings
  {
    if r !in s.table || !s.table[r].api || r !in s.bindings[c] then DTN_ENOTFOUND else DTN_SUCCESS
  }

  /** The first occurrence is erased. */
  function Without(rs: seq<RegId>, r: RegId): seq<RegId> {
    if rs == [] then [] else if rs[0] == r then rs[1..] else [rs[0]] + Without(rs[1..], r)
  }

  /** A registration that is let go becomes inactive, and if it has expired this is announced. */
  function Released(s: State, r: RegId): State {
    if r !in s.table then s
    else SetActive(s, r, false).(posted := if s.table[r].expired then s.posted + [r] else s.posted)
  }

  function Unbound(s: State, c: ClientId, r: RegId): State
    requires c in s.bindings
  {
    if UnbindStatus(s, c, r) != DTN_SUCCESS then s
    else Released(s, r).(bindings := s.bindings[c := Without(s.bindings[c], r)])
  }

  function ReleasedAll(s: State, rs: seq<RegId>): State
    decreases |rs|
  {
    if rs == [] then s else ReleasedAll(Released(s, rs[0]), rs[1..])
  }

  function Closed(s: State, c: ClientId): State
    requires c in s.bindings
  {
    ReleasedAll(s, s.bindings[c]).(bindings := s.bindings - {c})
  }

  ghost function Next(s: State, step: Step): State
    requires Enabled(s, step)
  {
    match step
    case Connect(c) => s.(bindings := s.bindings[c := []])
    case Register(c, initPassive) => Registered(s, c, initPassive)
    case Unregister(c, r) => Unregistered(s, c, r)
    case Bind(c, r) => Bound(s, c, r)
    case Unbind(c, r) => Unbound(s, c, r)
    case Close(c) => Closed(s, c)
    case DaemonRegisters =>
      s.(nextRegid := s.nextRegid + 1, table := s.table[s.nextRegid := Registration(false, true, false)])
    case DaemonExpires(r) => s.(table := s.table[r := s.table[r].(expired := true)])
    case DaemonRemoves(r) => s.(table := s.table - {r})
  }

  // -------- every step keeps the invariant --------

  lemma {:induction false} WithoutMembers(rs: seq<RegId>, r: RegId)
    requires NoDuplicates(rs)
    ensures NoDuplicates(Without(rs, r))
    ensures forall x :: x in Without(rs, r) <==> x in rs && x != r
    decreases |rs|
  {
    if rs != [] {
      WithoutMembers(rs[1..], r);
      assert forall x :: x in rs <==> x == rs[0] || x in rs[1..];
      if rs[0] != r {
        var w := [rs[0]] + Without(rs[1..], r);
        assert forall x :: x in w <==> x == rs[0] || x in Without(rs[1..], r);
        assert rs[0] !in rs[1..];
      } else {
        assert rs[0] !in rs[1..];
      }
    }
  }

  /** What releasing a list of registrations changes. */
  lemma {:induction false} ReleasedTable(s: State, rs: seq<RegId>)
    requires NoDuplicates(rs)
    ensures
      var n := ReleasedAll(s, rs);
      && n.table.Keys == s.table.Keys && n.bindings == s.bindings && n.nextRegid == s.nextRegid
      && (forall r :: r in s.table && r in rs ==> n.table[r] == s.table[r].(active := false))
      && (forall r :: r in s.table && r !in rs ==> n.table[r] == s.table[r])
    decreases |rs|
  {
    if rs != [] {
      assert rs[0] !in rs[1..];
      ReleasedTable(Released(s, rs[0]), rs[1..]);
      assert forall x :: x in rs <==> x == rs[0] || x in rs[1..];
    }
  }

  lemma CloseKeeps(s: State, c: ClientId)
    requires Inv(s) && c in s.bindings
    ensures Inv(Closed(s, c))
  {
    var n := Closed(s, c);
    assert ClientOk(s, c);
    ReleasedTable(s, s.bindings[c]);
    forall d | d in n.bindings ensures ClientOk(n, d) {
      assert ClientOk(s, d);
      forall r | r in n.bindings[d] ensures r in n.table && n.table[r].api && n.table[r].active {
        assert BoundBy(s, d, r);
        assert !BoundBy(s, c, r);
      }
    }
    forall r | r in n.table && ClientActive(n, r) ensures exists d :: BoundBy(n, d, r) {
      var d :| BoundBy(s, d, r);
      assert BoundBy(n, d, r);
    }
    forall a, b, r | BoundBy(n, a, r) && BoundBy(n, b, r) ensures a == b {
      assert BoundBy(s, a, r) && BoundBy(s, b, r);
    }
  }

  lemma UnbindKeeps(s: State, c: ClientId, r: RegId)
    requires Inv(s) && c in s.bindings
    ensures Inv(Unbound(s, c, r))
  {
    var n := Unbound(s, c, r);
    if UnbindStatus(s, c, r) == DTN_SUCCESS {
      assert ClientOk(s, c);
      WithoutMembers(s.bindings[c], r);
      assert forall d, x :: BoundBy(n, d, x) <==> BoundBy(s, d, x) && (d != c || x != r);
      assert BoundBy(s, c, r);
      forall d | d in n.bindings ensures ClientOk(n, d) {
        assert ClientOk(s, d);
        forall x | x in n.bindings[d] ensures x in n.table && n.table[x].api && n.table[x].active {
          assert BoundBy(n, d, x);
        }
      }
      forall x | x in n.table && ClientActive(n, x) ensures exists d :: BoundBy(n, d, x) {
        var d :| BoundBy(s, d, x);
        assert BoundBy(n, d, x);
      }
    }
  }

  /** A registration is added to the end of a client's list. */
  lemma PushKeeps(s: State, c: ClientId, r: RegId, n: State)
    requires Inv(s) && c in s.bindings && (r in s.table ==> !s.table[r].active)
    requires r < n.nextRegid && s.nextRegid <= n.nextRegid
    requires exists reg: Registration :: reg.api && reg.active && n.table == s.table[r := reg]
    requires n.bindings == s.bindings[c := s.bindings[c] + [r]]
    ensures Inv(n)
  {
    forall d | d in s.bindings ensures r !in s.bindings[d] {
      assert ClientOk(s, d);
    }
    assert forall d, x :: BoundBy(n, d, x) <==> BoundBy(s, d, x) || (d == c && x == r);
    forall d | d in n.bindings ensures ClientOk(n, d) {
      assert ClientOk(s, d);
    }
    forall x | x in n.table && ClientActive(n, x) ensures exists d :: BoundBy(n, d, x) {
      if x == r {
        assert BoundBy(n, c, r);
      } else {
        var d :| BoundBy(s, d, x);
        assert BoundBy(n, d, x);
      }
    }
  }

  /** The bindings stay and so does what is active. */
  lemma SameBindingsKeep(s: State, n: State)
    requires Inv(s) && n.bindings == s.bindings && s.nextRegid <= n.nextRegid
    requires forall r :: r in n.table ==> r < n.nextRegid
    requires forall r :: r in s.table && s.table[r].active ==>
                         r in n.table && n.table[r].active && n.table[r].api == s.table[r].api
    requires forall r :: r in n.table && ClientActive(n, r) ==> r in s.table && s.table[r].active
    requires forall r :: r in n.table && !n.table[r].api ==> n.table[r].active
    ensures Inv(n)
  {
    forall d | d in n.bindings ensures ClientOk(n, d) {
      assert ClientOk(s, d);
    }
    assert forall d, x :: BoundBy(n, d, x) <==> BoundBy(s, d, x);
    forall x | x in n.table && ClientActive(n, x) ensures exists d :: BoundBy(n, d, x) {
      var d :| BoundBy(s, d, x);
      assert BoundBy(n, d, x);
    }
  }

  lemma ConnectKeeps(s: State, c: ClientId)
    requires Inv(s) && c !in s.bindings
    ensures Inv(Next(s, Connect(c)))
  {
    var n := Next(s, Connect(c));
    assert forall d, x :: BoundBy(n, d, x) <==> BoundBy(s, d, x);
    forall d | d in n.bindings ensures ClientOk(n, d) {
      if d != c { assert ClientOk(s, d); }
    }
    forall x | x in n.table && ClientActive(n, x) ensures exists d :: BoundBy(n, d, x) {
      var d :| BoundBy(s, d, x);
      assert BoundBy(n, d, x);
    }
  }

  lemma StepKeeps(s: State, step: Step)
    requires Inv(s) && Enabled(s, step)
    ensures Inv(Next(s, step))
  {
    hide ClientOk, BoundBy, Without, ReleasedAll;
    match step
    case Connect(c) => ConnectKeeps(s, c);
    case Register(c, initPassive) =>
      if initPassive { SameBindingsKeep(s, Next(s, step)); }
      else {
        assert Next(s, step).table == s.table[s.nextRegid := Registration(true, true, false)];
        PushKeeps(s, c, s.nextRegid, Next(s, step));
      }
    case Unregister(c, r) => SameBindingsKeep(s, Next(s, step));
    case Bind(c, r) =>
      if BindStatus(s, r) == DTN_SUCCESS {
        assert Next(s, step).table == s.table[r := s.table[r].(active := true)];
        PushKeeps(s, c, r, Next(s, step));
      }
    case Unbind(c, r) => UnbindKeeps(s, c, r);
    case Close(c) => CloseKeeps(s, c);
    case DaemonRegisters => SameBindingsKeep(s, Next(s, step));
    case DaemonExpires(r) => SameBindingsKeep(s, Next(s, step));
    case DaemonRemoves(r) => SameBindingsKeep(s, Next(s, step));
  }

  lemma RegisterKeeps(s: State, c: ClientId, initPassive: bool)
    requires Inv(s) && c in s.bindings
    ensures Inv(Registered(s, c, initPassive))
  {
    StepKeeps(s, Register(c, initPassive));
  }

  // -------- the main results, over runs --------

  ghost predicate Reaches(s: State, steps: seq<Step>, e: State)
    decreases |steps|
  {
    if steps == [] then s == e else Enabled(s, steps[0]) && Reaches(Next(s, steps[0]), steps[1..], e)
  }

  lemma {:induction false} RunKeeps(s: State, steps: seq<Step>, e: State)
    requires Inv(s) && Reaches(s, steps, e)
    ensures Inv(e)
    decreases |steps|
  {
    hide Inv, Enabled, Next;
    if steps != [] {
      StepKeeps(s, steps[0]);
      RunKeeps(Next(s, steps[0]), steps[1..], e);
    }
  }

  function Initial(): State { State(map[], map[], [], 1) }

  /** The places in all clients' lists where a registration occurs. */
  ghost predicate OccursAt(s: State, r: RegId, c: ClientId, i: nat) {
    c in s.bindings && i < |s.bindings[c]| && s.bindings[c][i] == r
  }

  /** In every run, across any number of clients and any order of handlers and daemon events, a registration of
      an API client is active exactly when it occurs in exactly one client's bindings, exactly once. */
  lemma ActiveIffBoundOnce(steps: seq<Step>, e: State, r: RegId)
    requires Reaches(Initial(), steps, e) && r in e.table && e.table[r].api
    ensures e.table[r].active <==> exists c, i: nat :: OccursAt(e, r, c, i)
    ensures forall c, d, i: nat, j: nat :: OccursAt(e, r, c, i) && OccursAt(e, r, d, j) ==> c == d && i == j
  {
    RunKeeps(Initial(), steps, e);
    hide Reaches;
    if e.table[r].active {
      var c :| BoundBy(e, c, r);
      var i: nat :| i < |e.bindings[c]| && e.bindings[c][i] == r;
      assert OccursAt(e, r, c, i);
    }
    forall c, i: nat | OccursAt(e, r, c, i) ensures e.table[r].active && BoundBy(e, c, r) {
      assert ClientOk(e, c);
    }
    forall c, d, i: nat, j: nat | OccursAt(e, r, c, i) && OccursAt(e, r, d, j) ensures c == d && i == j {
      assert BoundBy(e, c, r) && BoundBy(e, d, r);
      assert ClientOk(e, c);
    }
  }

  /** A registration of the daemon itself is active and bound by no client, and no client can bind, unbind or
      unregister it. */
  lemma DaemonOutOfReach(steps: seq<Step>, e: State, r: RegId, c: ClientId)
    requires Reaches(Initial(), steps, e) && r in e.table && !e.table[r].api && c in e.bindings
    ensures e.table[r].active && !BoundBy(e, c, r)
    ensures UnregisterStatus(e, c, r) == DTN_EBUSY && Unregistered(e, c, r) == e
    ensures BindStatus(e, r) == DTN_ENOTFOUND && Bound(e, c, r) == e
    ensures UnbindStatus(e, c, r) == DTN_ENOTFOUND && Unbound(e, c, r) == e
  {
    RunKeeps(Initial(), steps, e);
    hide Reaches;
    assert ClientOk(e, c);
  }

  /** Bound, and already unregistered by the client. */
  ghost predicate Doomed(s: State, c: ClientId, r: RegId) {
    BoundBy(s, c, r) && r in s.table && s.table[r].active && s.table[r].expired
  }

  function Occurrences(rs: seq<RegId>, r: RegId): nat {
    if rs == [] then 0 else (if rs[0] == r then 1 else 0) + Occurrences(rs[1..], r)
  }

  ghost predicate LetsGo(step: Step, c: ClientId, r: RegId) {
    step == Unbind(c, r) || step == Close(c)
  }

  lemma {:induction false} OccurrencesSnoc(rs: seq<RegId>, x: RegId, r: RegId)
    ensures Occurrences(rs + [x], r) == Occurrences(rs, r) + if x == r then 1 else 0
    decreases |rs|
  {
    if rs == [] {
      assert [] + [x] == [x] && [x][1..] == [];
    } else {
      assert (rs + [x])[1..] == rs[1..] + [x];
      OccurrencesSnoc(rs[1..], x, r);
    }
  }

  lemma {:induction false} ReleasedPosts(s: State, rs: seq<RegId>, r: RegId)
    requires NoDuplicates(rs) && r in s.table
    ensures
      Occurrences(ReleasedAll(s, rs).posted, r)
      == Occurrences(s.posted, r) + if r in rs && s.table[r].expired then 1 else 0
    decreases |rs|
  {
    if rs != [] {
      assert rs[0] !in rs[1..];
      var n := Released(s, rs[0]);
      OccurrencesSnoc(s.posted, rs[0], r);
      ReleasedPosts(n, rs[1..], r);
    }
  }

  lemma DoomedStep(s: State, step: Step, c: ClientId, r: RegId)
    requires Inv(s) && Doomed(s, c, r) && Enabled(s, step)
    ensures
      var n := Next(s, step);
      if LetsGo(step, c, r) then
        r in n.table && !n.table[r].active && Occurrences(n.posted, r) == Occurrences(s.posted, r) + 1
      else
        Doomed(n, c, r) && Occurrences(n.posted, r) == Occurrences(s.posted, r)
  {
    assert ClientOk(s, c);
    match step
    case Connect(_) =>
    case Register(_, _) =>
    case Unregister(_, _) =>
    case Bind(d, x) =>
    case Unbind(d, x) => DoomedUnbind(s, d, x, c, r);
    case Close(d) => DoomedClose(s, d, c, r);
    case DaemonRegisters =>
    case DaemonExpires(_) =>
    case DaemonRemoves(_) =>
  }

  lemma DoomedUnbind(s: State, d: ClientId, x: RegId, c: ClientId, r: RegId)
    requires Inv(s) && Doomed(s, c, r) && d in s.bindings
    ensures
      var n := Unbound(s, d, x);
      if d == c && x == r then
        r in n.table && !n.table[r].active && Occurrences(n.posted, r) == Occurrences(s.posted, r) + 1
      else
        Doomed(n, c, r) && Occurrences(n.posted, r) == Occurrences(s.posted, r)
  {
    assert ClientOk(s, c) && ClientOk(s, d);
    OccurrencesSnoc(s.posted, x, r);
    WithoutMembers(s.bindings[d], x);
    if x == r && d != c {
      assert !BoundBy(s, d, r);
    }
  }

  lemma DoomedClose(s: State, d: ClientId, c: ClientId, r: RegId)
    requires Inv(s) && Doomed(s, c, r) && d in s.bindings
    ensures
      var n := Closed(s, d);
      if d == c then
        r in n.table && !n.table[r].active && Occurrences(n.posted, r) == Occurrences(s.posted, r) + 1
      else
        Doomed(n, c, r) && Occurrences(n.posted, r) == Occurrences(s.posted, r)
  {
    assert ClientOk(s, d);
    ReleasedTable(s, s.bindings[d]);
    ReleasedPosts(s, s.bindings[d], r);
    if d != c { assert !BoundBy(s, d, r); }
  }

  /** A registration that is unregistered while bound stays in the table, active and bound to its client,
      and its expiration is not announced, until this client unbinds it or closes. */
  lemma {:induction false} HeldUntilLetGo(s: State, steps: seq<Step>, e: State, c: ClientId, r: RegId)
    requires Inv(s) && Doomed(s, c, r) && Reaches(s, steps, e)
    requires forall step :: step in steps ==> !LetsGo(step, c, r)
    ensures Doomed(e, c, r) && Occurrences(e.posted, r) == Occurrences(s.posted, r)
    decreases |steps|
  {
    hide Inv, Doomed, Enabled, Next, LetsGo, Occurrences;
    if steps != [] {
      DoomedStep(s, steps[0], c, r);
      StepKeeps(s, steps[0]);
      HeldUntilLetGo(Next(s, steps[0]), steps[1..], e, c, r);
    }
  }

  /** Unregistering a bound registration dooms it, once. */
  lemma UnregisterDooms(s: State, c: ClientId, r: RegId)
    requires Inv(s) && c in s.bindings && r in s.bindings[c]
    ensures Doomed(Unregistered(s, c, r), c, r)
    ensures UnregisterStatus(s, c, r) == if s.table[r].expired then DTN_EINVAL else DTN_SUCCESS
    ensures Unregistered(s, c, r).posted == s.posted
  {
    assert ClientOk(s, c);
  }

  // -------- what a step changes, told by who holds a registration --------

  ghost predicate Held(s: State, r: RegId) { exists c :: BoundBy(s, c, r) }

  /** The step makes the client the holder of the registration. */
  ghost predicate TakesUp(s: State, step: Step, c: ClientId, r: RegId) {
    || (step == Register(c, false) && r == s.nextRegid)
    || (step == Bind(c, r) && r in s.table && s.table[r].api && !Held(s, r))
  }

  ghost predicate Drops(s: State, step: Step, r: RegId)
    requires r in s.table
  {
    step == DaemonRemoves(r) || (step.Unregister? && step.regid == r && s.table[r].api && !Held(s, r))
  }

  lemma HeldIffActive(s: State, r: RegId)
    requires Inv(s)
    ensures Held(s, r) <==> r in s.table && ClientActive(s, r)
    ensures forall c, d :: BoundBy(s, c, r) && BoundBy(s, d, r) ==> c == d
  {
    if Held(s, r) {
      var c :| BoundBy(s, c, r);
      assert ClientOk(s, c);
    }
  }

  /** Who holds a registration after a step: the clients that held it and did not let it go, and the one that
      registered it active or bound it while nobody held it. */
  lemma HoldersAfter(s: State, step: Step, c: ClientId, r: RegId)
    requires Inv(s) && Enabled(s, step)
    ensures BoundBy(Next(s, step), c, r) <==> (BoundBy(s, c, r) && !LetsGo(step, c, r)) || TakesUp(s, step, c, r)
  {
    HeldIffActive(s, r);
    if c in s.bindings { assert ClientOk(s, c); }
    match step
    case Unbind(d, x) =>
      HeldIffActive(s, x);
      assert ClientOk(s, d);
      WithoutMembers(s.bindings[d], x);
    case Close(d) =>
      assert ClientOk(s, d);
      ReleasedTable(s, s.bindings[d]);
    case _ =>
  }

  /** Which registrations there are after a step, and what is known of them. */
  lemma KnownAfter(s: State, step: Step, r: RegId)
    requires Inv(s) && Enabled(s, step)
    ensures
      var n := Next(s, step);
      && (r in n.table
          <==> || (r in s.table && !Drops(s, step, r))
               || (r == s.nextRegid && (step.Register? || step.DaemonRegisters?)))
      && (r in n.table ==> (n.table[r].api <==> if r in s.table then s.table[r].api else step.Register?))
      && (r in n.table ==>
            (n.table[r].expired
             <==> && r in s.table
                  && (s.table[r].expired || step == DaemonExpires(r)
                      || (step.Unregister? && step.regid == r && BoundBy(s, step.client, r)))))
  {
    HeldIffActive(s, r);
    match step
    case Unregister(d, x) =>
      assert ClientOk(s, d);
    case Close(d) =>
      assert ClientOk(s, d);
      ReleasedTable(s, s.bindings[d]);
    case _ =>
  }

  /** The expiration of a registration is announced when its holder lets it go, once, and at no other step. */
  lemma AnnouncedAfter(s: State, step: Step, r: RegId)
    requires Inv(s) && Enabled(s, step) && r in s.table
    ensures
      Occurrences(Next(s, step).posted, r)
      == Occurrences(s.posted, r)
         + if s.table[r].expired && exists c :: BoundBy(s, c, r) && LetsGo(step, c, r) then 1 else 0
  {
    match step
    case Unbind(d, x) =>
      assert ClientOk(s, d);
      OccurrencesSnoc(s.posted, x, r);
      assert BoundBy(s, d, x) <==> x in s.bindings[d];
    case Close(d) =>
      assert ClientOk(s, d);
      ReleasedPosts(s, s.bindings[d], r);
      assert BoundBy(s, d, r) <==> r in s.bindings[d];
    case _ =>
  }

  /** What the answers to a client say about a registration. */
  lemma AnswersMean(s: State, c: ClientId, r: RegId)
    requires Inv(s) && c in s.bindings
    ensures BindStatus(s, r) == if r !in s.table || !s.table[r].api then DTN_ENOTFOUND
                                else if Held(s, r) then DTN_EBUSY else DTN_SUCCESS
    ensures UnbindStatus(s, c, r) == if BoundBy(s, c, r) then DTN_SUCCESS else DTN_ENOTFOUND
    ensures UnregisterStatus(s, c, r) == if r !in s.table then DTN_ENOTFOUND
                                         else if Doomed(s, c, r) then DTN_EINVAL
                                         else if BoundBy(s, c, r) || (s.table[r].api && !Held(s, r)) then DTN_SUCCESS
                                         else DTN_EBUSY
  {
    HeldIffActive(s, r);
    assert ClientOk(s, c);
  }

  ghost predicate FlagsOf(flags: nat, action: nat, session: nat) {
    1 <= action <= 3 && session < 8 && flags == action + 4 * session
  }

  /** A registration is accepted exactly if its flags are one of the three failure actions and any of the eight
      combinations of session flags, and nothing else. */
  lemma AcceptedIff(args: Option<RegisterArgs>)
    ensures
      RegisterStatus(args) == DTN_SUCCESS
      <==> && args.Some? && args.value.endpointValid
           && exists action: nat, session: nat :: FlagsOf(args.value.flags, action, session)
    ensures args.None? ==> RegisterStatus(args) == DTN_EXDR
    ensures args.Some? && RegisterStatus(args) != DTN_SUCCESS ==> RegisterStatus(args) == DTN_EINVAL
  {
    if args.Some? && args.value.flags % 4 != 0 && args.value.flags < 32 {
      var action, session: nat := args.value.flags % 4, args.value.flags / 4;
      assert FlagsOf(args.value.flags, action, session);
    }
  }

  /** Regids are given once: a registration that is gone never comes back. */
  lemma {:induction false} GoneForGood(s: State, steps: seq<Step>, e: State, r: RegId)
    requires Inv(s) && Reaches(s, steps, e) && r < s.nextRegid && r !in s.table
    ensures r !in e.table
    decreases |steps|
  {
    hide Inv, Enabled, Next, Drops;
    if steps != [] {
      KnownAfter(s, steps[0], r);
      StepKeeps(s, steps[0]);
      RegidsGrow(s, steps[0]);
      GoneForGood(Next(s, steps[0]), steps[1..], e, r);
    }
  }

  lemma RegidsGrow(s: State, step: Step)
    requires Inv(s) && Enabled(s, step)
    ensures Next(s, step).nextRegid == s.nextRegid + if step.Register? || step.DaemonRegisters? then 1 else 0
  {
    match step
    case Close(c) =>
      assert ClientOk(s, c);
      ReleasedTable(s, s.bindings[c]);
    case _ =>
  }

  /** A registration that nobody holds is gone as soon as a client unregisters it, in every run from then on:
      it is not found, and nobody can bind it again. */
  lemma UnregisteredIsGone(s: State, c: ClientId, r: RegId, steps: seq<Step>, e: State, d: ClientId)
    requires Inv(s) && c in s.bindings && r in s.table && !s.table[r].active
    requires Reaches(Next(s, Unregister(c, r)), steps, e) && d in e.bindings
    ensures UnregisterStatus(s, c, r) == DTN_SUCCESS
    ensures r !in e.table && !Held(e, r) && BindStatus(e, r) == DTN_ENOTFOUND
    ensures UnregisterStatus(e, d, r) == UnbindStatus(e, d, r) == DTN_ENOTFOUND
  {
    hide Reaches;
    var n := Next(s, Unregister(c, r));
    HeldIffActive(s, r);
    KnownAfter(s, Unregister(c, r), r);
    StepKeeps(s, Unregister(c, r));
    GoneForGood(n, steps, e, r);
    RunKeeps(n, steps, e);
    HeldIffActive(e, r);
  }

  // -------- the handlers --------

  /** The registration table and the sessions of its clients. */
  class ApiServer {
    var table: map<RegId, Registration>
    var bindings: map<ClientId, seq<RegId>>
    var posted: seq<RegId>
    var nextRegid: RegId

    ghost function Now(): State
      reads this
    {
      State(table, bindings, posted, nextRegid)
    }

    constructor ()
      ensures Now() == Initial() && Inv(Now())
    {
      table, bindings, posted, nextRegid := map[], map[], [], 1;
    }

    method IsBound(c: ClientId, regid: RegId) returns (b: bool)
      requires c in bindings
      ensures b <==> regid in bindings[c]
    {
      var i := 0;
      while i < |bindings[c]|
        invariant 0 <= i <= |bindings[c]| && regid !in bindings[c][..i]
      {
        if bindings[c][i] == regid { return true; }
        i := i + 1;
      }
      return false;
    }

    method HandleRegister(c: ClientId, args: Option<RegisterArgs>) returns (status: int, regid: RegId)
      requires Inv(Now()) && c in bindings
      modifies this
      ensures Inv(Now()) && status == RegisterStatus(args)
      ensures status == DTN_SUCCESS ==>
                Now() == Registered(old(Now()), c, args.value.initPassive) && regid == old(nextRegid)
      ensures status != DTN_SUCCESS ==> Now() == old(Now())
    {
      hide Inv;
      status, regid := DTN_SUCCESS, 0;
      if args.None? { return DTN_EXDR, regid; }
      if !args.value.endpointValid { return DTN_EINVAL, regid; }
      var failureAction := args.value.flags % 4;
      if failureAction != 1 && failureAction != 2 && failureAction != 3 { return DTN_EINVAL, regid; }
      var otherFlags := args.value.flags / 32;
      if otherFlags != 0 { return DTN_EINVAL, regid; }
      var initPassive := args.value.initPassive;
      RegisterKeeps(Now(), c, initPassive);
      regid, nextRegid := nextRegid, nextRegid + 1;
      var reg := Registration(true, false, false);
      if !initPassive {
        bindings := bindings[c := bindings[c] + [regid]];
        reg := reg.(active := true);
      }
      table := table[regid := reg];
    }

    method HandleUnregister(c: ClientId, regid: RegId) returns (status: int)
      requires Inv(Now()) && c in bindings
      modifies this
      ensures Inv(Now()) && Now() == Unregistered(old(Now()), c, regid)
      ensures status == UnregisterStatus(old(Now()), c, regid)
    {
      StepKeeps(Now(), Unregister(c, regid));
      if regid !in table { return DTN_ENOTFOUND; }
      var mine := IsBound(c, regid);
      if mine && table[regid].active {
        if table[regid].expired { return DTN_EINVAL; }
        table := table[regid := table[regid].(expired := true)];
        return DTN_SUCCESS;
      }
      if table[regid].active { return DTN_EBUSY; }
      table := table - {regid};
      return DTN_SUCCESS;
    }

    method HandleBind(c: ClientId, regid: RegId) returns (status: int)
      requires Inv(Now()) && c in bindings
      modifies this
      ensures Inv(Now()) && Now() == Bound(old(Now()), c, regid) && status == BindStatus(old(Now()), regid)
    {
      StepKeeps(Now(), Bind(c, regid));
      if regid !in table { return DTN_ENOTFOUND; }
      if !table[regid].api { return DTN_ENOTFOUND; }
      if table[regid].active { return DTN_EBUSY; }
      bindings := bindings[c := bindings[c] + [regid]];
      table := table[regid := table[regid].(active := true)];
      return DTN_SUCCESS;
    }

    /** A registration that is let go becomes inactive; if it has expired, the daemon is told. */
    method Release(regid: RegId)
      requires regid in table
      modifies this`table, this`posted
      ensures Now() == Released(old(Now()), regid)
    {
      table := table[regid := table[regid].(active := false)];
      if table[regid].expired { posted := posted + [regid]; }
    }

    /** The assertion holds in every reachable state. */
    method HandleUnbind(c: ClientId, regid: RegId) returns (status: int)
      requires Inv(Now()) && c in bindings
      modifies this
      ensures Inv(Now()) && Now() == Unbound(old(Now()), c, regid)
      ensures status == UnbindStatus(old(Now()), c, regid)
    {
      StepKeeps(Now(), Unbind(c, regid));
      if regid !in table { return DTN_ENOTFOUND; }
      if !table[regid].api { return DTN_ENOTFOUND; }
      ghost var mine := bindings[c];
      var i := 0;
      while i < |bindings[c]|
        invariant 0 <= i <= |bindings[c]| && regid !in bindings[c][..i] && Now() == old(Now())
      {
        if bindings[c][i] == regid {
          WithoutAt(mine, regid, i);
          assert ClientOk(Now(), c);
          bindings := bindings[c := bindings[c][..i] + bindings[c][i + 1..]];
          assert table[regid].active;
          Release(regid);
          return DTN_SUCCESS;
        }
        i := i + 1;
      }
      return DTN_ENOTFOUND;
    }

    method CloseClient(c: ClientId)
      requires Inv(Now()) && c in bindings
      modifies this
      ensures Inv(Now()) && Now() == Closed(old(Now()), c)
    {
      hide Inv, Released, ReleasedAll, Closed;
      CloseKeeps(Now(), c);
      BoundAreKnown(Now(), c);
      ghost var rest := bindings - {c};
      ClosedIs(Now(), c);
      while bindings[c] != []
        invariant c in bindings && bindings - {c} == rest && table.Keys == old(table).Keys
        invariant forall r :: r in bindings[c] ==> r in table
        invariant ReleasedAll(Now(), bindings[c]).(bindings := rest) == Closed(old(Now()), c)
        decreases |bindings[c]|
      {
        var reg := bindings[c][0];
        ghost var before, more := Now(), bindings[c][1..];
        assert [reg] + more == bindings[c];
        bindings := bindings[c := bindings[c][1..]];
        ReleasedFirst(before, bindings, reg, more);
        Release(reg);
        assert bindings - {c} == rest;
      }
      ReleasedNone(Now());
      bindings := bindings - {c};
    }
  }

  lemma BoundAreKnown(s: State, c: ClientId)
    requires Inv(s) && c in s.bindings
    ensures forall r :: r in s.bindings[c] ==> r in s.table
  {
    assert ClientOk(s, c);
  }

  lemma ReleasedNone(s: State)
    ensures ReleasedAll(s, []) == s
  {
  }

  lemma ClosedIs(s: State, c: ClientId)
    requires c in s.bindings
    ensures Closed(s, c) == ReleasedAll(s, s.bindings[c]).(bindings := s.bindings - {c})
  {
  }

  lemma ReleasedFirst(s: State, b: map<ClientId, seq<RegId>>, r: RegId, more: seq<RegId>)
    ensures Released(s.(bindings := b), r).table.Keys == s.table.Keys
    ensures forall rest ::
              ReleasedAll(Released(s.(bindings := b), r), more).(bindings := rest)
              == ReleasedAll(s, [r] + more).(bindings := rest)
  {
    assert ([r] + more)[1..] == more;
    ReleasedApart(s, [r] + more, b);
  }

  lemma {:induction false} WithoutAt(rs: seq<RegId>, r: RegId, i: nat)
    requires i < |rs| && rs[i] == r && r !in rs[..i]
    ensures Without(rs, r) == rs[..i] + rs[i + 1..]
    decreases i
  {
    if i > 0 {
      assert rs[0] in rs[..i] && rs[1..][..i - 1] == rs[..i][1..];
      WithoutAt(rs[1..], r, i - 1);
      assert rs[1..][i..] == rs[i + 1..];
      assert rs[..i] == [rs[0]] + rs[1..][..i - 1];
    }
  }

  /** Releasing does not look at the bindings. */
  lemma {:induction false} ReleasedApart(s: State, rs: seq<RegId>, b: map<ClientId, seq<RegId>>)
    ensures ReleasedAll(s.(bindings := b), rs) == ReleasedAll(s, rs).(bindings := b)
    decreases |rs|
  {
    if rs != [] { ReleasedApart(Released(s, rs[0]), rs[1..], b); }
  }
}

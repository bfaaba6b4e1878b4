/**
 * The account, session and task services as one concurrent protocol.  Only a single
 * Redis command is atomic, so every request is a small program, a `Thread`, that
 * advances one command (or one in-memory action on the session map) at a time, and
 * any number of threads interleave.  Any command may be answered by an error reply.
 */
module Protocol {
  import opened MachineInts

  /** A peer socket address. */
  type Addr = nat

  /** What `c_str()` passes to the command formatter: everything before the first NUL. */
  function CStr(s: string): (r: string)
    ensures r <= s && '\0' !in r
    ensures r == s <==> '\0' !in s
    ensures |r| < |s| ==> s[|r|] == '\0'
  {
    if s == [] || s[0] == '\0' then []
    else
      assert s == [s[0]] + s[1..];
      [s[0]] + CStr(s[1..])
  }

  /** role.proto; a cleared sub-message reads as its default values. */
  datatype Role = Role(playerId: int, returning: bool, username: string, mainTask: int)

  const NO_ROLE := Role(0, false, "", 0)

  datatype Progress = NotExist | Started | Finish

  /** task_db.proto. */
  datatype TaskInfo = TaskInfo(tasks: map<int, Progress>, x: int, y: int)

  const NO_TASKS := TaskInfo(map[], 0, 0)

  /** The Redis contents; the four key families have disjoint prefixes. */
  datatype Store = Store(
    passwords: map<string, string>,   // __password_<account>
    roles: map<string, Role>,         // __role_<account>
    gid: nat,                         // gid
    tasks: map<int, TaskInfo>)        // __taskinfo_<gid>

  /** What all threads share: Redis and the role manager's address map. */
  datatype Shared = Shared(store: Store, sessions: map<Addr, Role>)

  const EMPTY := Shared(Store(map[], map[], 0, map[]), map[])

  /** A coordinate whose conversion to `int32` is defined. */
  type Position = d: real | -2147483649.0 < d < 2147483648.0

  /** Conversion of a double to an integer: toward zero. */
  function Truncate(d: real): (r: int)
    ensures d >= 0.0 ==> r as real <= d < (r + 1) as real
    ensures d < 0.0 ==> (r - 1) as real < d <= r as real
  {
    if d >= 0.0 then d.Floor else -((-d).Floor)
  }

  datatype Credentials = Credentials(rpcId: int, account: string, password: string)
  datatype Report = Report(rpcId: int, finished: seq<int>, x: Position, y: Position)

  datatype Request =
    | Login(who: Credentials)
    | Register(who: Credentials)
    | Query(rpcId: int)
    | Update(report: Report)
    | Erase(rpcId: int)

  datatype ErrorCode = Succeed | UnknownError | PasswordWrong | NotRegistered | AccountAlreadyExist

  datatype Response =
    | LoginRsp(rpcId: int, error: ErrorCode, returning: bool)
    | RegisterRsp(rpcId: int, error: ErrorCode)
    | QueryRsp(rpcId: int, error: ErrorCode, done: set<int>, x: real, y: real)
    | UpdateRsp(rpcId: int, error: ErrorCode)
    | EraseRsp(rpcId: int, error: ErrorCode)

  /** How Redis answers one command; reading progress parses even an error text. */
  datatype Fate = Ok | Err(parsed: TaskInfo)

  /** A request in progress; each constructor names the command it is about to issue. */
  datatype Thread =
    | RegisterCheck(who: Credentials)
    | RegisterPassword(who: Credentials)
    | RegisterId(who: Credentials)
    | RegisterRole(who: Credentials, gid: int)
    | LoginSession(addr: Addr, who: Credentials)
    | LoginBind(addr: Addr, who: Credentials, pulled: Role)
    | LoginPassword(who: Credentials)
    | LoginPull(who: Credentials)
    | LoginPush(who: Credentials, pushed: Role)
    | EraseClear(addr: Addr, rpcId: int)
    | ErasePush(rpcId: int, cleared: Role)
    | UpdateStart(addr: Addr, report: Report)
    | UpdatePull(report: Report, session: Role)
    | UpdatePush(report: Report, session: Role, info: TaskInfo)
    | QueryStart(addr: Addr, rpcId: int)
    | QueryPull(rpcId: int, session: Role)
    | Done(rsp: Response)

  function Start(addr: Addr, req: Request): Thread {
    match req
    case Login(who) => LoginSession(addr, who)
    case Register(who) => RegisterCheck(who)
    case Query(rpcId) => QueryStart(addr, rpcId)
    case Update(report) => UpdateStart(addr, report)
    case Erase(rpcId) => EraseClear(addr, rpcId)
  }

  /** The role handed to a service: the session's, or a fresh empty one. */
  function SessionRole(m: Shared, addr: Addr): Role {
    if addr in m.sessions then m.sessions[addr] else NO_ROLE
  }

  /** The in-place edit of the update service. */
  function ApplyReport(info: TaskInfo, r: Report): TaskInfo {
    TaskInfo(info.tasks + (map i | i in r.finished :: Finish), Truncate(r.x), Truncate(r.y))
  }

  function Finished(info: TaskInfo): set<int> {
    set i | i in info.tasks && info.tasks[i] == Finish
  }

  /** What reading a progress key leaves in the service's cache. */
  function PulledTasks(m: Shared, gid: int, fate: Fate): Option<TaskInfo> {
    if fate.Err? then Some(fate.parsed)
    else if gid in m.store.tasks then Some(m.store.tasks[gid])
    else None
  }

  function QueryAnswer(rpcId: int, pulled: Option<TaskInfo>): Response {
    match pulled
    case None => QueryRsp(rpcId, UnknownError, {}, 0.0, 0.0)
    case Some(info) => QueryRsp(rpcId, Succeed, Finished(info), info.x as real, info.y as real)
  }

  /** `incr` refuses to leave the 64-bit range. */
  predicate CanIncr(store: Store) {
    store.gid + 1 < TWO_63
  }

  function SetRole(m: Shared, role: Role): Shared {
    m.(store := m.store.(roles := m.store.roles[CStr(role.username) := role]))
  }

  /** One atomic action of one thread. */
  function Advance(t: Thread, m: Shared, fate: Fate): (Thread, Shared) {
    match t
    case RegisterCheck(who) =>
      if fate.Ok? && CStr(who.account) !in m.store.passwords then (RegisterPassword(who), m)
      else (Done(RegisterRsp(who.rpcId, AccountAlreadyExist)), m)
    case RegisterPassword(who) =>
      if fate.Ok? then
        (RegisterId(who),
         m.(store := m.store.(passwords := m.store.passwords[CStr(who.account) := CStr(who.password)])))
      else (Done(RegisterRsp(who.rpcId, UnknownError)), m)
    case RegisterId(who) =>
      if fate.Ok? && CanIncr(m.store) then
        (RegisterRole(who, I32(m.store.gid + 1)), m.(store := m.store.(gid := m.store.gid + 1)))
      else (Done(RegisterRsp(who.rpcId, UnknownError)), m)
    case RegisterRole(who, gid) =>
      if fate.Ok? then
        (Done(RegisterRsp(who.rpcId, Succeed)), SetRole(m, Role(gid, false, who.account, 0)))
      else (Done(RegisterRsp(who.rpcId, UnknownError)), m)
    case LoginSession(addr, who) =>
      if fate.Ok? && CStr(who.account) in m.store.roles then
        (LoginBind(addr, who, m.store.roles[CStr(who.account)]), m)
      else (LoginPassword(who), m)
    case LoginBind(addr, who, pulled) =>
      (LoginPassword(who),
       if addr in m.sessions then m else m.(sessions := m.sessions[addr := pulled]))
    case LoginPassword(who) =>
      if fate.Err? || CStr(who.account) !in m.store.passwords then
        (Done(LoginRsp(who.rpcId, NotRegistered, false)), m)
      else if who.password != m.store.passwords[CStr(who.account)] then
        (Done(LoginRsp(who.rpcId, PasswordWrong, false)), m)
      else (LoginPull(who), m)
    case LoginPull(who) =>
      if fate.Err? || CStr(who.account) !in m.store.roles then
        (Done(LoginRsp(who.rpcId, UnknownError, false)), m)
      else
        var role := m.store.roles[CStr(who.account)];
        if role.returning then (Done(LoginRsp(who.rpcId, Succeed, true)), m)
        else (LoginPush(who, role.(returning := true)), m)
    case LoginPush(who, role) =>
      (Done(LoginRsp(who.rpcId, Succeed, false)), if fate.Ok? then SetRole(m, role) else m)
    case EraseClear(addr, rpcId) =>
      (ErasePush(rpcId, NO_ROLE),
       if addr in m.sessions then m.(sessions := m.sessions[addr := NO_ROLE]) else m)
    case ErasePush(rpcId, role) =>
      if fate.Ok? then (Done(EraseRsp(rpcId, Succeed)), SetRole(m, role))
      else (Done(EraseRsp(rpcId, UnknownError)), m)
    case UpdateStart(addr, report) =>
      (UpdatePull(report, SessionRole(m, addr)), m)
    case UpdatePull(report, session) =>
      var pulled := PulledTasks(m, session.playerId, fate);
      (UpdatePush(report, session, ApplyReport(if pulled.Some? then pulled.value else NO_TASKS, report)), m)
    case UpdatePush(report, session, info) =>
      (Done(UpdateRsp(report.rpcId, Succeed)),
       if fate.Ok? then m.(store := m.store.(tasks := m.store.tasks[session.playerId := info])) else m)
    case QueryStart(addr, rpcId) =>
      (QueryPull(rpcId, SessionRole(m, addr)), m)
    case QueryPull(rpcId, session) =>
      (Done(QueryAnswer(rpcId, PulledTasks(m, session.playerId, fate))), m)
    case Done(rsp) => (t, m)
  }

  // ----- interleaved runs -----

  /** A successful task write, in the order the writes reached the store. */
  datatype Written = Written(gid: int, report: Report)

  /**
   * The last three fields are history: which account each increment of the gid counter
   * was made for, which reports have been stored, and which accounts' registrations have
   * been answered SUCCEED (by key).  No action reads them.
   */
  datatype State = State(m: Shared, threads: map<nat, Thread>,
                         issued: seq<string>, writes: seq<Written>, registered: seq<string>)

  const INITIAL := State(EMPTY, map[], [], [], [])

  /** A request arrives under a fresh thread number, or some thread takes its next action. */
  datatype Event = Arrive(tid: nat, addr: Addr, req: Request) | Act(tid: nat, fate: Fate)

  function Next(s: State, e: Event): State {
    match e
    case Arrive(tid, addr, req) =>
      if tid in s.threads then s else s.(threads := s.threads[tid := Start(addr, req)])
    case Act(tid, fate) =>
      if tid !in s.threads then s
      else
        var t := s.threads[tid];
        var (t', m') := Advance(t, s.m, fate);
        State(m', s.threads[tid := t'],
              if t.RegisterId? && t'.RegisterRole? then s.issued + [t.who.account] else s.issued,
              if t.UpdatePush? && fate.Ok? then s.writes + [Written(t.session.playerId, t.report)] else s.writes,
              if t.RegisterRole? && fate.Ok? then s.registered + [CStr(t.who.account)] else s.registered)
  }

  function RunFrom(s: State, es: seq<Event>): State {
    if es == [] then s else Next(RunFrom(s, es[..|es| - 1]), es[|es| - 1])
  }

  /** Every reachable state is `Run(es)` for some event sequence, starting from the empty, unseeded store. */
  function Run(es: seq<Event>): State {
    RunFrom(INITIAL, es)
  }

  lemma {:induction false} RunAppend(s: State, a: seq<Event>, b: seq<Event>)
    ensures RunFrom(s, a + b) == RunFrom(RunFrom(s, a), b)
  {
    if b == [] {
      assert a + b == a;
    } else {
      RunAppend(s, a, b[..|b| - 1]);
      InitOfAppend(a, b);
    }
  }

  /** None of these events is an action of this thread. */
  predicate Idle(more: seq<Event>, tid: nat) {
    forall i :: 0 <= i < |more| && more[i].Act? ==> more[i].tid != tid
  }

  lemma {:induction false} Waits(s: State, more: seq<Event>, tid: nat)
    requires tid in s.threads && Idle(more, tid)
    ensures tid in RunFrom(s, more).threads && RunFrom(s, more).threads[tid] == s.threads[tid]
    ensures s.writes <= RunFrom(s, more).writes
  {
    if more != [] {
      Waits(s, more[..|more| - 1], tid);
    }
  }

  // ----- a request running alone -----

  /** Actions that talk to Redis; the others only touch the session map. */
  predicate IsCommand(t: Thread) {
    !(t.LoginBind? || t.EraseClear? || t.UpdateStart? || t.QueryStart? || t.Done?)
  }

  /** Upper bound on the remaining actions. */
  function Remaining(t: Thread): nat {
    match t
    case LoginSession(_, _) => 5
    case RegisterCheck(_) => 4
    case LoginBind(_, _, _) => 4
    case RegisterPassword(_) => 3
    case LoginPassword(_) => 3
    case UpdateStart(_, _) => 3
    case RegisterId(_) => 2
    case LoginPull(_) => 2
    case EraseClear(_, _) => 2
    case UpdatePull(_, _) => 2
    case QueryStart(_, _) => 2
    case Done(_) => 0
    case _ => 1
  }

  lemma AdvanceShrinks(t: Thread, m: Shared, fate: Fate)
    requires !t.Done?
    ensures Remaining(Advance(t, m, fate).0) < Remaining(t)
  {
  }

  /** The environment's answers to the commands to come; an exhausted script means success. */
  function Fate0(fates: seq<Fate>): Fate {
    if fates == [] then Ok else fates[0]
  }

  function Fates1(fates: seq<Fate>): seq<Fate> {
    if fates == [] then [] else fates[1..]
  }

  datatype Outcome = Outcome(m: Shared, rsp: Response, fates: seq<Fate>)

  /** A thread taken to completion with nothing in between. */
  function Complete(t: Thread, m: Shared, fates: seq<Fate>): Outcome
    decreases Remaining(t)
  {
    if t.Done? then Outcome(m, t.rsp, fates)
    else if IsCommand(t) then
      AdvanceShrinks(t, m, Fate0(fates));
      var (t', m') := Advance(t, m, Fate0(fates));
      Complete(t', m', Fates1(fates))
    else
      AdvanceShrinks(t, m, Ok);
      var (t', m') := Advance(t, m, Ok);
      Complete(t', m', fates)
  }

  function Serve(m: Shared, addr: Addr, req: Request, fates: seq<Fate>): Outcome {
    Complete(Start(addr, req), m, fates)
  }

  /** The events of a thread running alone to completion. */
  function AloneEvents(tid: nat, t: Thread, m: Shared, fates: seq<Fate>): seq<Event>
    decreases Remaining(t)
  {
    if t.Done? then []
    else
      var fate := if IsCommand(t) then Fate0(fates) else Ok;
      AdvanceShrinks(t, m, fate);
      var (t', m') := Advance(t, m, fate);
      [Act(tid, fate)] + AloneEvents(tid, t', m', if IsCommand(t) then Fates1(fates) else fates)
  }

  lemma RunCons(s: State, e: Event, es: seq<Event>)
    ensures RunFrom(s, [e] + es) == RunFrom(Next(s, e), es)
  {
    RunAppend(s, [e], es);
    assert [e][..0] == [];
  }

  /** `Complete` unfolded by one action. */
  lemma CompleteStep(t: Thread, m: Shared, fates: seq<Fate>, fate: Fate, rest: seq<Fate>)
    requires !t.Done?
    requires fate == if IsCommand(t) then Fate0(fates) else Ok
    requires rest == if IsCommand(t) then Fates1(fates) else fates
    ensures Complete(t, m, fates) == Complete(Advance(t, m, fate).0, Advance(t, m, fate).1, rest)
    ensures Remaining(Advance(t, m, fate).0) < Remaining(t)
  {
    AdvanceShrinks(t, m, fate);
  }

  /** The memory after the handler has bound an unbound address, when the read of the role is answered so. */
  function Bound(m: Shared, addr: Addr, who: Credentials, fate: Fate): Shared {
    var key := CStr(who.account);
    if fate.Ok? && key in m.store.roles && addr !in m.sessions
    then m.(sessions := m.sessions[addr := m.store.roles[key]])
    else m
  }

  /** The handler's part of a login: it binds the address, then the service runs. */
  lemma LoginBinds(m: Shared, addr: Addr, who: Credentials, fates: seq<Fate>)
    ensures Serve(m, addr, Login(who), fates) ==
            Complete(LoginPassword(who), Bound(m, addr, who, Fate0(fates)), Fates1(fates))
  {
    var t, f1 := LoginSession(addr, who), Fates1(fates);
    CompleteStep(t, m, fates, Fate0(fates), f1);
    var (t1, _) := Advance(t, m, Fate0(fates));
    if t1.LoginBind? {
      CompleteStep(t1, m, f1, Ok, f1);
    }
  }

  /** Running alone is one of the interleavings: `Complete` is what the machine computes. */
  lemma {:induction false} AloneIsARun(s: State, tid: nat, fates: seq<Fate>)
    requires tid in s.threads
    ensures var t := s.threads[tid];
            var s' := RunFrom(s, AloneEvents(tid, t, s.m, fates));
            var o := Complete(t, s.m, fates);
            s'.m == o.m && s'.threads == s.threads[tid := Done(o.rsp)]
    decreases Remaining(s.threads[tid])
  {
    var t := s.threads[tid];
    if !t.Done? {
      var fate := if IsCommand(t) then Fate0(fates) else Ok;
      var rest := if IsCommand(t) then Fates1(fates) else fates;
      CompleteStep(t, s.m, fates, fate, rest);
      AloneStep(s, tid, fates, fate, rest);
      AloneIsARun(Next(s, Act(tid, fate)), tid, rest);
    }
  }

  /** A thread running alone takes its first action and runs on. */
  lemma AloneStep(s: State, tid: nat, fates: seq<Fate>, fate: Fate, rest: seq<Fate>)
    requires tid in s.threads && !s.threads[tid].Done?
    requires fate == if IsCommand(s.threads[tid]) then Fate0(fates) else Ok
    requires rest == if IsCommand(s.threads[tid]) then Fates1(fates) else fates
    ensures var s1 := Next(s, Act(tid, fate));
            && tid in s1.threads
            && RunFrom(s, AloneEvents(tid, s.threads[tid], s.m, fates)) ==
               RunFrom(s1, AloneEvents(tid, s1.threads[tid], s1.m, rest))
  {
    var s1 := Next(s, Act(tid, fate));
    RunCons(s, Act(tid, fate), AloneEvents(tid, s1.threads[tid], s1.m, rest));
  }

  /** The account a registration thread is about. */
  function Registering(t: Thread): Option<string> {
    match t
    case RegisterCheck(who) => Some(CStr(who.account))
    case RegisterPassword(who) => Some(CStr(who.account))
    case RegisterId(who) => Some(CStr(who.account))
    case RegisterRole(who, _) => Some(CStr(who.account))
    case _ => None
  }

  /** What a thread answering `rsp` adds to the history of successful registrations. */
  function NewlyRegistered(t: Thread, rsp: Response): seq<string> {
    if Registering(t).Some? && rsp.error == Succeed then [Registering(t).value] else []
  }

  /** A thread running alone enters the history of registrations exactly when it answers SUCCEED. */
  lemma {:induction false} AloneRegisters(s: State, tid: nat, fates: seq<Fate>)
    requires tid in s.threads
    ensures var t := s.threads[tid];
            RunFrom(s, AloneEvents(tid, t, s.m, fates)).registered ==
            s.registered + NewlyRegistered(t, Complete(t, s.m, fates).rsp)
    decreases Remaining(s.threads[tid])
  {
    var t := s.threads[tid];
    if !t.Done? {
      var fate := if IsCommand(t) then Fate0(fates) else Ok;
      var rest := if IsCommand(t) then Fates1(fates) else fates;
      CompleteStep(t, s.m, fates, fate, rest);
      AloneStep(s, tid, fates, fate, rest);
      AloneRegisters(Next(s, Act(tid, fate)), tid, rest);
      RegisteringStep(t, s.m, fate);
    }
  }

  /** A registration stays about its account until it is answered; only its last command answers SUCCEED. */
  lemma RegisteringStep(t: Thread, m: Shared, fate: Fate)
    ensures var t' := Advance(t, m, fate).0;
            && (Registering(t').Some? ==> Registering(t') == Registering(t))
            && (Registering(t).Some? && t'.Done? ==>
                  (t'.rsp.error == Succeed <==> t.RegisterRole? && fate.Ok?))
            && (Registering(t).Some? && !t'.Done? ==> Registering(t').Some?)
  {
  }

  /** The events of one request served with nothing in between. */
  function ServeEvents(m: Shared, tid: nat, addr: Addr, req: Request, fates: seq<Fate>): seq<Event> {
    [Arrive(tid, addr, req)] + AloneEvents(tid, Start(addr, req), m, fates)
  }

  /** Serving one request with nothing in between is a run of the machine. */
  lemma ServeIsARun(s: State, tid: nat, addr: Addr, req: Request, fates: seq<Fate>)
    requires tid !in s.threads
    ensures var s' := RunFrom(s, ServeEvents(s.m, tid, addr, req, fates));
            var o := Serve(s.m, addr, req, fates);
            && s'.m == o.m && s'.threads == s.threads[tid := Done(o.rsp)]
            && s'.registered == s.registered + NewlyRegistered(Start(addr, req), o.rsp)
  {
    var a := Next(s, Arrive(tid, addr, req));
    RunCons(s, Arrive(tid, addr, req), AloneEvents(tid, a.threads[tid], a.m, fates));
    AloneIsARun(a, tid, fates);
    AloneRegisters(a, tid, fates);
  }
}

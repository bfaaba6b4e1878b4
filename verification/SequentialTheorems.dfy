/**
 * Requests served one after the other, each with its own pattern of failing commands:
 * what registration, login and erasure mean over a whole history of calls.
 */
module SequentialTheorems {
  import opened MachineInts
  import opened Protocol
  import opened AccountTheorems
  import opened RegistrationTheorems

  /** One request: who sent it, what it asks, and how Redis answers its commands. */
  datatype Call = Call(addr: Addr, req: Request, fates: seq<Fate>)

  /** The answer to the `i`-th command of a call. */
  function At(fates: seq<Fate>, i: nat): Fate {
    if i < |fates| then fates[i] else Ok
  }

  /** The answers left for the commands of later requests, once `k` commands have been issued. */
  function Skip(fates: seq<Fate>, k: nat): seq<Fate> {
    if k <= |fates| then fates[k..] else []
  }

  /** Whose progress a request from this address is about: the bound role's player, or player 0. */
  function PlayerOf(m: Shared, addr: Addr): int {
    if addr in m.sessions then m.sessions[addr].playerId else 0
  }

  /** What an update starts from when its read is answered so; an error text is read like data. */
  function Base(m: Shared, gid: int, fate: Fate): TaskInfo {
    if fate.Err? then fate.parsed
    else if gid in m.store.tasks then m.store.tasks[gid]
    else NO_TASKS
  }

  /** The shared state after a history of calls, from the empty store. */
  function After(calls: seq<Call>): Shared {
    if calls == [] then EMPTY
    else
      var c := calls[|calls| - 1];
      Serve(After(calls[..|calls| - 1]), c.addr, c.req, c.fates).m
  }

  /** The response to the `i`-th call. */
  function Answer(calls: seq<Call>, i: nat): Response
    requires i < |calls|
  {
    Serve(After(calls[..i]), calls[i].addr, calls[i].req, calls[i].fates).rsp
  }

  // ----- what one request does -----

  lemma DropFates(fates: seq<Fate>, i: nat)
    ensures Fate0(fates) == At(fates, 0) && At(Fates1(fates), i) == At(fates, i + 1)
  {
  }

  lemma SkipFates(fates: seq<Fate>, i: nat)
    ensures Skip(Fates1(fates), i) == Skip(fates, i + 1)
    ensures Skip(fates, 1) == Fates1(fates)
  {
  }

  /** The four commands of a registration, seen from outside. */
  lemma RegisterEffect(m: Shared, addr: Addr, who: Credentials, fates: seq<Fate>)
    ensures var o := Serve(m, addr, Register(who), fates);
            var key := CStr(who.account);
            var named := At(fates, 0).Ok? && key !in m.store.passwords && At(fates, 1).Ok?;
            var drawn := named && At(fates, 2).Ok? && m.store.gid + 1 < TWO_63;
            var created := drawn && At(fates, 3).Ok?;
            && o.rsp.RegisterRsp? && o.rsp.rpcId == who.rpcId && (o.rsp.error == Succeed <==> created)
            && o.m.store.passwords == (if named then m.store.passwords[key := CStr(who.password)] else m.store.passwords)
            && o.m.store.roles ==
               (if created then m.store.roles[key := Role(I32(m.store.gid + 1), false, who.account, 0)] else m.store.roles)
            && (o.rsp.error == AccountAlreadyExist <==> At(fates, 0).Err? || key in m.store.passwords)
            && (o.rsp.error != Succeed && o.rsp.error != AccountAlreadyExist ==> o.rsp.error == UnknownError)
            && o.m.store.gid == m.store.gid + (if drawn then 1 else 0)
            && o.m.sessions == m.sessions && o.m.store.tasks == m.store.tasks
            && o.fates == Skip(fates, if o.rsp.error == AccountAlreadyExist then 1 else if !named then 2 else if !drawn then 3 else 4)
  {
    var f1 := Fates1(fates);
    DropFates(fates, 0); DropFates(fates, 1); DropFates(fates, 2);
    CompleteStep(RegisterCheck(who), m, fates, Fate0(fates), f1);
    if At(fates, 0).Ok? && CStr(who.account) !in m.store.passwords {
      RegisterRest(m, who, f1);
      SkipFates(fates, 1); SkipFates(fates, 2); SkipFates(fates, 3);
    }
  }

  /** The commands behind the existence check. */
  lemma RegisterRest(m: Shared, who: Credentials, fates: seq<Fate>)
    ensures var o := Complete(RegisterPassword(who), m, fates);
            var key := CStr(who.account);
            var named := At(fates, 0).Ok?;
            var drawn := named && At(fates, 1).Ok? && CanIncr(m.store);
            var created := drawn && At(fates, 2).Ok?;
            && o.rsp.RegisterRsp? && o.rsp.rpcId == who.rpcId && (o.rsp.error == Succeed <==> created)
            && (o.rsp.error != Succeed ==> o.rsp.error == UnknownError)
            && o.m.store.passwords == (if named then m.store.passwords[key := CStr(who.password)] else m.store.passwords)
            && o.m.store.roles ==
               (if created then m.store.roles[key := Role(I32(m.store.gid + 1), false, who.account, 0)] else m.store.roles)
            && o.m.store.gid == m.store.gid + (if drawn then 1 else 0)
            && o.m.sessions == m.sessions && o.m.store.tasks == m.store.tasks
            && o.fates == Skip(fates, if !named then 1 else if !drawn then 2 else 3)
  {
    DropFates(fates, 0); DropFates(fates, 1);
    RegisterWrites(m, who, fates);
    SkipFates(fates, 1);
    if At(fates, 0).Ok? {
      RegisterTail(WithPassword(m, who), who, Fates1(fates));
      SkipFates(fates, 2);
    }
  }

  function WithPassword(m: Shared, who: Credentials): Shared {
    m.(store := m.store.(passwords := m.store.passwords[CStr(who.account) := CStr(who.password)]))
  }

  /** The password write: it fails, or the id is drawn next. */
  lemma RegisterWrites(m: Shared, who: Credentials, fates: seq<Fate>)
    ensures Complete(RegisterPassword(who), m, fates) ==
            if At(fates, 0).Ok? then Complete(RegisterId(who), WithPassword(m, who), Fates1(fates))
            else Outcome(m, RegisterRsp(who.rpcId, UnknownError), Fates1(fates))
  {
    CompleteStep(RegisterPassword(who), m, fates, Fate0(fates), Fates1(fates));
  }

  /** The last two commands: draw an id, store the initial role. */
  lemma RegisterTail(m: Shared, who: Credentials, fates: seq<Fate>)
    ensures var o := Complete(RegisterId(who), m, fates);
            var drawn := At(fates, 0).Ok? && CanIncr(m.store);
            var created := drawn && At(fates, 1).Ok?;
            && o.rsp.RegisterRsp? && o.rsp.rpcId == who.rpcId && (o.rsp.error == Succeed <==> created)
            && (o.rsp.error != Succeed ==> o.rsp.error == UnknownError)
            && o.m.store.gid == m.store.gid + (if drawn then 1 else 0)
            && o.fates == Skip(fates, if drawn then 2 else 1)
            && o.m.store.passwords == m.store.passwords
            && o.m.store.roles ==
               (if created then m.store.roles[CStr(who.account) := Role(I32(m.store.gid + 1), false, who.account, 0)]
                else m.store.roles)
            && o.m.sessions == m.sessions && o.m.store.tasks == m.store.tasks
  {
    DropFates(fates, 0);
    var f1 := Fates1(fates);
    CompleteStep(RegisterId(who), m, fates, Fate0(fates), f1);
    var (t1, m1) := Advance(RegisterId(who), m, Fate0(fates));
    if t1.RegisterRole? {
      CompleteStep(t1, m1, f1, Fate0(f1), Fates1(f1));
    }
  }

  /** Which refusal a login meets first: no password, a wrong one, or no role. */
  function LoginError(st: Store, key: string, password: string, readPassword: Fate, readRole: Fate): ErrorCode {
    if readPassword.Err? || key !in st.passwords then NotRegistered
    else if st.passwords[key] != password then PasswordWrong
    else if readRole.Err? || key !in st.roles then UnknownError
    else Succeed
  }

  /** How many commands the login service has issued when it answers so. */
  function LoginCommands(rsp: Response): nat
    requires rsp.LoginRsp?
  {
    match rsp.error
    case UnknownError => 2
    case Succeed => if rsp.returning then 2 else 3
    case _ => 1
  }

  /**
   * The session binding and the commands of a login: the whole answer, the whole new
   * memory.  Only a successful login is ever told that it is a returning visitor.
   */
  lemma LoginEffect(m: Shared, addr: Addr, who: Credentials, fates: seq<Fate>)
    requires StoreOk(m.store)
    ensures var o := Serve(m, addr, Login(who), fates);
            var key := CStr(who.account);
            var found := key in m.store.roles;
            var good := At(fates, 1).Ok? && key in m.store.passwords && m.store.passwords[key] == who.password
                        && At(fates, 2).Ok? && found;
            && o.rsp == LoginRsp(who.rpcId, LoginError(m.store, key, who.password, At(fates, 1), At(fates, 2)),
                                 good && m.store.roles[key].returning)
            && (o.rsp.error == Succeed <==> good)
            && o.m.sessions == (if At(fates, 0).Ok? && found && addr !in m.sessions
                                then m.sessions[addr := m.store.roles[key]] else m.sessions)
            && o.m.store == (if good && !m.store.roles[key].returning && At(fates, 3).Ok?
                             then m.store.(roles := m.store.roles[key := m.store.roles[key].(returning := true)])
                             else m.store)
            && o.fates == Skip(fates, 1 + LoginCommands(o.rsp))
  {
    DropFates(fates, 0); DropFates(fates, 1); DropFates(fates, 2);
    LoginBinds(m, addr, who, fates);
    LoginServiceEffect(Bound(m, addr, who, At(fates, 0)), who, Fates1(fates));
    SkipFates(fates, LoginCommands(Serve(m, addr, Login(who), fates).rsp));
  }

  /** The login service proper, after the session has been bound. */
  lemma LoginServiceEffect(m: Shared, who: Credentials, fates: seq<Fate>)
    requires StoreOk(m.store)
    ensures var o := Complete(LoginPassword(who), m, fates);
            var key := CStr(who.account);
            var good := At(fates, 0).Ok? && key in m.store.passwords && m.store.passwords[key] == who.password
                        && At(fates, 1).Ok? && key in m.store.roles;
            && o.rsp == LoginRsp(who.rpcId, LoginError(m.store, key, who.password, At(fates, 0), At(fates, 1)),
                                 good && m.store.roles[key].returning)
            && (o.rsp.error == Succeed <==> good)
            && o.m.sessions == m.sessions
            && o.m.store == (if good && !m.store.roles[key].returning && At(fates, 2).Ok?
                             then m.store.(roles := m.store.roles[key := m.store.roles[key].(returning := true)])
                             else m.store)
            && o.fates == Skip(fates, LoginCommands(o.rsp))
  {
    var f1 := Fates1(fates);
    DropFates(fates, 0); DropFates(fates, 1);
    SkipFates(fates, 0);
    LoginChecks(m, who, fates);
    var key := CStr(who.account);
    if At(fates, 0).Ok? && key in m.store.passwords && m.store.passwords[key] == who.password {
      LoginPullEffect(m, who, f1);
      SkipFates(fates, LoginCommands(Complete(LoginPull(who), m, f1).rsp) - 1);
    }
  }

  /** The password check: it refuses, or the role is read next. */
  lemma LoginChecks(m: Shared, who: Credentials, fates: seq<Fate>)
    ensures var key := CStr(who.account);
            Complete(LoginPassword(who), m, fates) ==
            if At(fates, 0).Ok? && key in m.store.passwords && m.store.passwords[key] == who.password
            then Complete(LoginPull(who), m, Fates1(fates))
            else
              var error := if At(fates, 0).Ok? && key in m.store.passwords then PasswordWrong else NotRegistered;
              Outcome(m, LoginRsp(who.rpcId, error, false), Fates1(fates))
  {
    CompleteStep(LoginPassword(who), m, fates, Fate0(fates), Fates1(fates));
  }

  /** The login service once the password has been accepted. */
  lemma LoginPullEffect(m: Shared, who: Credentials, fates: seq<Fate>)
    requires StoreOk(m.store)
    ensures var o := Complete(LoginPull(who), m, fates);
            var key := CStr(who.account);
            var good := At(fates, 0).Ok? && key in m.store.roles;
            && o.rsp == LoginRsp(who.rpcId, if good then Succeed else UnknownError,
                                 good && m.store.roles[key].returning)
            && o.m.sessions == m.sessions
            && o.m.store == (if good && !m.store.roles[key].returning && At(fates, 1).Ok?
                             then m.store.(roles := m.store.roles[key := m.store.roles[key].(returning := true)])
                             else m.store)
            && o.fates == Skip(fates, if good && !m.store.roles[key].returning then 2 else 1)
  {
    var f1 := Fates1(fates);
    DropFates(fates, 0);
    SkipFates(fates, 1); SkipFates(f1, 0);
    CompleteStep(LoginPull(who), m, fates, Fate0(fates), f1);
    var key := CStr(who.account);
    if At(fates, 0).Ok? && key in m.store.roles && !m.store.roles[key].returning {
      var pushed := m.store.roles[key].(returning := true);
      assert CStr(pushed.username) == key;
      LoginPushEffect(m, who, pushed, f1);
    }
  }

  lemma LoginPushEffect(m: Shared, who: Credentials, pushed: Role, fates: seq<Fate>)
    ensures Complete(LoginPush(who, pushed), m, fates) ==
            Outcome(if At(fates, 0).Ok? then SetRole(m, pushed) else m, LoginRsp(who.rpcId, Succeed, false), Fates1(fates))
  {
    CompleteStep(LoginPush(who, pushed), m, fates, Fate0(fates), Fates1(fates));
  }

  /** Erasing clears the caller's session and writes the empty role under the empty name. */
  lemma EraseEffect(m: Shared, addr: Addr, rpcId: int, fates: seq<Fate>)
    ensures var o := Serve(m, addr, Erase(rpcId), fates);
            && o.rsp == EraseRsp(rpcId, if At(fates, 0).Ok? then Succeed else UnknownError)
            && o.m.sessions == (if addr in m.sessions then m.sessions[addr := NO_ROLE] else m.sessions)
            && o.m.store == (if At(fates, 0).Ok? then m.store.(roles := m.store.roles["" := NO_ROLE]) else m.store)
            && o.fates == Skip(fates, 1)
  {
    DropFates(fates, 0);
    var t := EraseClear(addr, rpcId);
    CompleteStep(t, m, fates, Ok, fates);
    var m1 := Advance(t, m, Ok).1;
    CompleteStep(ErasePush(rpcId, NO_ROLE), m1, fates, Fate0(fates), Fates1(fates));
  }

  /** Progress requests touch nothing but the progress entry of the session's player id. */
  lemma TaskEffect(m: Shared, addr: Addr, req: Request, fates: seq<Fate>)
    requires req.Query? || req.Update?
    ensures var o := Serve(m, addr, req, fates);
            && o.m.sessions == m.sessions
            && o.m.store == m.store.(tasks := o.m.store.tasks)
            && (forall g :: g != PlayerOf(m, addr) ==>
                  (g in o.m.store.tasks <==> g in m.store.tasks)
                  && (g in m.store.tasks ==> o.m.store.tasks[g] == m.store.tasks[g]))
            && (req.Query? ==> o.m == m && o.rsp.QueryRsp?)
            && (req.Update? ==> o.rsp == UpdateRsp(req.report.rpcId, Succeed))
  {
    var t := Start(addr, req);
    CompleteStep(t, m, fates, Ok, fates);
    var (t1, m1) := Advance(t, m, Ok);
    CompleteStep(t1, m1, fates, Fate0(fates), Fates1(fates));
    if req.Update? {
      var (t2, m2) := Advance(t1, m1, Fate0(fates));
      CompleteStep(t2, m2, Fates1(fates), Fate0(Fates1(fates)), Fates1(Fates1(fates)));
    }
  }

  /**
   * What an update does, however its two commands are answered: it always reports success;
   * where the write goes through, the entry of the address's player becomes what was read
   * with the reported ids finished, all else in it kept, and the position truncated.
   */
  lemma UpdateStores(m: Shared, addr: Addr, report: Report, fates: seq<Fate>)
    ensures var o, gid := Serve(m, addr, Update(report), fates), PlayerOf(m, addr);
            var base := Base(m, gid, At(fates, 0));
            && o.rsp == UpdateRsp(report.rpcId, Succeed) && o.fates == Skip(fates, 2)
            && (At(fates, 1).Err? ==> o.m == m)
            && (At(fates, 1).Ok? ==>
                  && gid in o.m.store.tasks && Edited(base, report, o.m.store.tasks[gid])
                  && o.m == m.(store := m.store.(tasks := m.store.tasks[gid := o.m.store.tasks[gid]])))
  {
    DropFates(fates, 0); DropFates(fates, 1);
    var role, base := SessionRole(m, addr), Base(m, PlayerOf(m, addr), At(fates, 0));
    UpdateReads(m, addr, report, fates, role, UpdatePush(report, role, ApplyReport(base, report)));
    UpdateWrites(m, role, report, ApplyReport(base, report), Fates1(fates));
    EditedIff(base, report, ApplyReport(base, report));
  }

  /** The lookup and the read of an update; what is left is the write. */
  lemma UpdateReads(m: Shared, addr: Addr, report: Report, fates: seq<Fate>, role: Role, next: Thread)
    requires role == SessionRole(m, addr)
    requires next == UpdatePush(report, role, ApplyReport(Base(m, PlayerOf(m, addr), At(fates, 0)), report))
    ensures Serve(m, addr, Update(report), fates) == Complete(next, m, Fates1(fates))
  {
    PullStep(m, role, report, Fate0(fates));
    CompleteStep(UpdateStart(addr, report), m, fates, Ok, fates);
    CompleteStep(UpdatePull(report, role), m, fates, Fate0(fates), Fates1(fates));
  }

  lemma PullStep(m: Shared, role: Role, report: Report, fate: Fate)
    ensures Advance(UpdatePull(report, role), m, fate) ==
            (UpdatePush(report, role, ApplyReport(Base(m, role.playerId, fate), report)), m)
  {
  }

  lemma UpdateWrites(m: Shared, role: Role, report: Report, info: TaskInfo, fates: seq<Fate>)
    ensures Complete(UpdatePush(report, role, info), m, fates) ==
            Outcome(if At(fates, 0).Ok? then m.(store := m.store.(tasks := m.store.tasks[role.playerId := info])) else m,
                    UpdateRsp(report.rpcId, Succeed), Skip(fates, 1))
  {
    DropFates(fates, 0);
    CompleteStep(UpdatePush(report, role, info), m, fates, Fate0(fates), Fates1(fates));
  }

  /** An entry before and after a report: the reported ids are finished, the others are as they were. */
  ghost predicate Edited(before: TaskInfo, report: Report, after: TaskInfo) {
    && (forall id :: id in after.tasks <==> id in before.tasks || id in report.finished)
    && (forall id :: id in after.tasks ==>
          after.tasks[id] == if id in report.finished then Finish else before.tasks[id])
    && after.x == Truncate(report.x) && after.y == Truncate(report.y)
  }

  lemma EditedIff(before: TaskInfo, report: Report, after: TaskInfo)
    ensures Edited(before, report, after) <==> after == ApplyReport(before, report)
  {
    if Edited(before, report, after) {
      var made := ApplyReport(before, report).tasks;
      forall id ensures id in made <==> id in after.tasks {
      }
      forall id | id in made ensures made[id] == after.tasks[id] {
      }
      assert made == after.tasks;
    }
  }

  /** The answer that spells out an entry: its finished tasks and its position. */
  ghost predicate Shows(rsp: Response, rpcId: int, info: TaskInfo) {
    && rsp.QueryRsp? && rsp.rpcId == rpcId && rsp.error == Succeed
    && (forall id :: id in rsp.done <==> id in info.tasks && info.tasks[id] == Finish)
    && rsp.x == info.x as real && rsp.y == info.y as real
  }

  /**
   * What a query answers: the entry of the player its address is bound to, player 0's for
   * an unbound address; an error exactly when the read goes through and there is no entry.
   */
  lemma QueryReads(m: Shared, addr: Addr, rpcId: int, fates: seq<Fate>)
    ensures var o, gid := Serve(m, addr, Query(rpcId), fates), PlayerOf(m, addr);
            && o.m == m && o.fates == Skip(fates, 1)
            && (At(fates, 0).Ok? && gid in m.store.tasks ==> Shows(o.rsp, rpcId, m.store.tasks[gid]))
            && (At(fates, 0).Ok? && gid !in m.store.tasks ==> o.rsp == QueryRsp(rpcId, UnknownError, {}, 0.0, 0.0))
            && (At(fates, 0).Err? ==> Shows(o.rsp, rpcId, At(fates, 0).parsed))
  {
    DropFates(fates, 0);
    var t := QueryStart(addr, rpcId);
    CompleteStep(t, m, fates, Ok, fates);
    CompleteStep(Advance(t, m, Ok).0, m, fates, Fate0(fates), Fates1(fates));
  }

  // ----- histories -----

  lemma {:induction false} CompleteKeepsKeys(t: Thread, m: Shared, fates: seq<Fate>)
    requires StoreOk(m.store) && ThreadOk(t, m)
    ensures StoreOk(Complete(t, m, fates).m.store)
    decreases Remaining(t)
  {
    if !t.Done? {
      var fate := if IsCommand(t) then Fate0(fates) else Ok;
      var rest := if IsCommand(t) then Fates1(fates) else fates;
      CompleteStep(t, m, fates, fate, rest);
      AdvanceKeepsKeys(t, m, fate);
      CompleteKeepsKeys(Advance(t, m, fate).0, Advance(t, m, fate).1, rest);
    }
  }

  lemma {:induction false} AfterOk(calls: seq<Call>)
    ensures StoreOk(After(calls).store)
  {
    if calls != [] {
      var c := calls[|calls| - 1];
      AfterOk(calls[..|calls| - 1]);
      CompleteKeepsKeys(Start(c.addr, c.req), After(calls[..|calls| - 1]), c.fates);
    }
  }

  /** This call, answered so, registered the account stored under `key`. */
  predicate Registers(c: Call, rsp: Response, key: string) {
    c.req.Register? && CStr(c.req.who.account) == key && rsp.error == Succeed
  }

  /** How one call changes the passwords, and which accounts have a role. */
  lemma CallEffect(m: Shared, c: Call, key: string)
    requires StoreOk(m.store)
    ensures var o := Serve(m, c.addr, c.req, c.fates);
            && (key in m.store.passwords ==>
                  key in o.m.store.passwords && o.m.store.passwords[key] == m.store.passwords[key])
            && (key != "" ==>
                  (key in o.m.store.roles <==> key in m.store.roles || Registers(c, o.rsp, key)))
            && (Registers(c, o.rsp, key) ==>
                  key !in m.store.passwords && key in o.m.store.passwords
                  && o.m.store.passwords[key] == CStr(c.req.who.password))
  {
    match c.req
    case Register(who) => RegisterEffect(m, c.addr, who, c.fates);
    case Login(who) => LoginEffect(m, c.addr, who, c.fates);
    case Erase(rpcId) => EraseEffect(m, c.addr, rpcId, c.fates);
    case Query(_) => TaskEffect(m, c.addr, c.req, c.fates);
    case Update(_) => TaskEffect(m, c.addr, c.req, c.fates);
  }

  // ----- a history of calls is a run in which no two requests overlap -----

  /** The events of a whole history; call `i` is thread `i`. */
  function EventsOf(calls: seq<Call>): seq<Event> {
    if calls == [] then []
    else
      var n := |calls| - 1;
      EventsOf(calls[..n]) + ServeEvents(After(calls[..n]), n, calls[n].addr, calls[n].req, calls[n].fates)
  }

  ghost predicate AllDone(s: State) {
    forall a :: a in s.threads ==> s.threads[a].Done?
  }

  ghost predicate OneBusy(s: State) {
    forall a, b :: a in s.threads && b in s.threads && !s.threads[a].Done? && !s.threads[b].Done? ==> a == b
  }

  lemma ConsPrefix<T>(x: T, xs: seq<T>, k: nat)
    requires 0 < k <= |xs| + 1
    ensures ([x] + xs)[..k] == [x] + xs[..k - 1]
  {
  }

  lemma {:induction false} AloneIsSolo(s: State, tid: nat, fates: seq<Fate>, k: nat)
    requires tid in s.threads && forall a :: a in s.threads && a != tid ==> s.threads[a].Done?
    requires k <= |AloneEvents(tid, s.threads[tid], s.m, fates)|
    ensures OneBusy(RunFrom(s, AloneEvents(tid, s.threads[tid], s.m, fates)[..k]))
    decreases k
  {
    var t := s.threads[tid];
    var es := AloneEvents(tid, t, s.m, fates);
    if k == 0 {
      assert es[..0] == [];
    } else {
      var fate := if IsCommand(t) then Fate0(fates) else Ok;
      var s1 := Next(s, Act(tid, fate));
      var rest := AloneEvents(tid, s1.threads[tid], s1.m, if IsCommand(t) then Fates1(fates) else fates);
      assert es == [Act(tid, fate)] + rest;
      AloneIsSolo(s1, tid, if IsCommand(t) then Fates1(fates) else fates, k - 1);
      ConsPrefix(Act(tid, fate), rest, k);
      RunCons(s, Act(tid, fate), rest[..k - 1]);
    }
  }

  lemma ServeIsSolo(s: State, tid: nat, c: Call, k: nat)
    requires AllDone(s) && tid !in s.threads
    requires k <= |ServeEvents(s.m, tid, c.addr, c.req, c.fates)|
    ensures OneBusy(RunFrom(s, ServeEvents(s.m, tid, c.addr, c.req, c.fates)[..k]))
  {
    var es := ServeEvents(s.m, tid, c.addr, c.req, c.fates);
    if k == 0 {
      assert es[..0] == [];
    } else {
      var arrive := Arrive(tid, c.addr, c.req);
      RunConsPrefix(s, arrive, AloneEvents(tid, Start(c.addr, c.req), s.m, c.fates), k);
      ArrivedIsSolo(s, Next(s, arrive), tid, Start(c.addr, c.req), c.fates, k - 1);
    }
  }

  lemma ArrivedIsSolo(s: State, s1: State, tid: nat, t: Thread, fates: seq<Fate>, k: nat)
    requires AllDone(s) && tid !in s.threads && s1.m == s.m && s1.threads == s.threads[tid := t]
    requires k <= |AloneEvents(tid, t, s.m, fates)|
    ensures OneBusy(RunFrom(s1, AloneEvents(tid, t, s.m, fates)[..k]))
  {
    AloneIsSolo(s1, tid, fates, k);
  }

  lemma RunConsPrefix(s: State, e: Event, rest: seq<Event>, k: nat)
    requires 0 < k <= |rest| + 1
    ensures RunFrom(s, ([e] + rest)[..k]) == RunFrom(Next(s, e), rest[..k - 1])
  {
    ConsPrefix(e, rest, k);
    RunCons(s, e, rest[..k - 1]);
  }

  /** Serving the calls one after the other is a run of the machine. */
  lemma {:induction false} HistoryIsARun(calls: seq<Call>)
    ensures var s := Run(EventsOf(calls));
            && s.m == After(calls) && AllDone(s)
            && (forall tid :: tid in s.threads ==> tid < |calls|)
  {
    if calls != [] {
      var n := |calls| - 1;
      HistoryIsARun(calls[..n]);
      HistoryStep(calls, n);
    }
  }

  /** One more call; the run's history of registrations grows exactly when it is answered SUCCEED. */
  lemma HistoryStep(calls: seq<Call>, n: nat)
    requires n + 1 == |calls|
    requires var s := Run(EventsOf(calls[..n]));
             s.m == After(calls[..n]) && forall tid :: tid in s.threads ==> tid < n
    ensures var s, s' := Run(EventsOf(calls[..n])), Run(EventsOf(calls));
            && s'.m == After(calls) && s'.threads == s.threads[n := Done(Answer(calls, n))]
            && s'.registered == s.registered + NewlyRegistered(Start(calls[n].addr, calls[n].req), Answer(calls, n))
  {
    var c := calls[n];
    var s := Run(EventsOf(calls[..n]));
    ServeIsARun(s, n, c.addr, c.req, c.fates);
    RunAppend(INITIAL, EventsOf(calls[..n]), ServeEvents(s.m, n, c.addr, c.req, c.fates));
  }

  lemma {:induction false} HistoryIsSolo(calls: seq<Call>, k: nat)
    requires k <= |EventsOf(calls)|
    ensures OneBusy(Run(EventsOf(calls)[..k]))
  {
    if calls != [] {
      var n := |calls| - 1;
      var before := EventsOf(calls[..n]);
      if k <= |before| {
        HistoryIsSolo(calls[..n], k);
        assert EventsOf(calls)[..k] == before[..k];
      } else {
        HistoryIsARun(calls[..n]);
        LastCallIsSolo(calls, n, before, k - |before|);
      }
    }
  }

  lemma LastCallIsSolo(calls: seq<Call>, n: nat, before: seq<Event>, k: nat)
    requires n + 1 == |calls| && before == EventsOf(calls[..n]) && |before| + k <= |EventsOf(calls)|
    requires var s := Run(before);
             s.m == After(calls[..n]) && AllDone(s) && n !in s.threads
    ensures OneBusy(Run(EventsOf(calls)[..|before| + k]))
  {
    var c := calls[n];
    var last := ServeEvents(After(calls[..n]), n, c.addr, c.req, c.fates);
    assert EventsOf(calls)[..|before| + k] == before + last[..k];
    RunAppend(INITIAL, before, last[..k]);
    ServeIsSolo(Run(before), n, c, k);
  }

  /** So everything proved of runs with exclusive registrations holds of sequential histories. */
  lemma HistoryIsExclusive(calls: seq<Call>, key: string)
    ensures Exclusive(EventsOf(calls), key)
  {
    forall k | 0 <= k <= |EventsOf(calls)| ensures OneChecked(Run(EventsOf(calls)[..k]), key) {
      HistoryIsSolo(calls, k);
    }
  }

  lemma {:induction false} EarlierEvents(calls: seq<Call>, n: nat)
    requires n <= |calls|
    ensures EventsOf(calls[..n]) <= EventsOf(calls)
    decreases |calls|
  {
    if n == |calls| {
      assert calls[..n] == calls;
    } else {
      var last := |calls| - 1;
      assert calls[..last][..n] == calls[..n];
      EarlierEvents(calls[..last], n);
    }
  }

  lemma {:induction false} EarlierRegistrations(calls: seq<Call>, n: nat)
    requires n <= |calls|
    ensures Run(EventsOf(calls[..n])).registered <= Run(EventsOf(calls)).registered
    decreases |calls|
  {
    if n == |calls| {
      assert calls[..n] == calls;
    } else {
      var last := |calls| - 1;
      assert calls[..last][..n] == calls[..n];
      EarlierRegistrations(calls[..last], n);
      HistoryIsARun(calls[..last]);
      HistoryStep(calls, last);
    }
  }

  /** Once written, a password never changes, whatever is called and whatever fails. */
  lemma PasswordNeverChanges(calls: seq<Call>, n: nat, key: string)
    requires n <= |calls| && key in After(calls[..n]).store.passwords
    ensures key in After(calls).store.passwords
    ensures After(calls).store.passwords[key] == After(calls[..n]).store.passwords[key]
  {
    HistoryIsARun(calls);
    HistoryIsARun(calls[..n]);
    HistoryIsExclusive(calls, key);
    EarlierEvents(calls, n);
    var es, k := EventsOf(calls), |EventsOf(calls[..n])|;
    assert es[..k] == EventsOf(calls[..n]);
    PasswordIsFixed(es, k, key);
  }

  /** Call `i` registered the account stored under `key`. */
  predicate Registered(calls: seq<Call>, i: nat, key: string) {
    i < |calls| && Registers(calls[i], Answer(calls, i), key)
  }

  lemma AfterNext(calls: seq<Call>, i: nat)
    requires i < |calls|
    ensures After(calls[..i + 1]) == Serve(After(calls[..i]), calls[i].addr, calls[i].req, calls[i].fates).m
  {
    assert calls[..i + 1][..i] == calls[..i];
  }

  /** A successful registration fixes the account's password for the rest of the history. */
  lemma RegisteredPassword(calls: seq<Call>, i: nat, key: string)
    requires Registered(calls, i, key)
    ensures key in After(calls).store.passwords
    ensures After(calls).store.passwords[key] == CStr(calls[i].req.who.password)
  {
    AfterNext(calls, i);
    AfterOk(calls[..i]);
    CallEffect(After(calls[..i]), calls[i], key);
    PasswordNeverChanges(calls, i + 1, key);
  }

  lemma RegisteredEarlier(calls: seq<Call>, i: nat, j: nat, key: string)
    requires i < j <= |calls|
    ensures Registered(calls[..j], i, key) <==> Registered(calls, i, key)
  {
    assert calls[..j][..i] == calls[..i];
  }

  /** Each successful registration is one entry of the run's history. */
  lemma CountedOnce(calls: seq<Call>, i: nat, key: string)
    requires Registered(calls, i, key)
    ensures Times(Run(EventsOf(calls[..i + 1])), key) == Times(Run(EventsOf(calls[..i])), key) + 1
  {
    var upTo := calls[..i + 1];
    assert upTo[..i] == calls[..i];
    HistoryIsARun(calls[..i]);
    HistoryStep(upTo, i);
    assert multiset([key])[key] == 1;
  }

  lemma TakenForGood(calls: seq<Call>, i: nat, j: nat, key: string)
    requires i < j && Registered(calls, i, key)
    ensures !Registered(calls, j, key)
  {
    if Registered(calls, j, key) {
      CountedOnce(calls, i, key);
      CountedOnce(calls, j, key);
      assert calls[..j][..i + 1] == calls[..i + 1];
      EarlierRegistrations(calls[..j], i + 1);
      PrefixCounts(Run(EventsOf(calls[..i + 1])).registered, Run(EventsOf(calls[..j])).registered, key);
      HistoryIsExclusive(calls[..j + 1], key);
      RegisteredOnce(EventsOf(calls[..j + 1]), key);
    }
  }

  lemma PrefixCounts(a: seq<string>, b: seq<string>, key: string)
    requires a <= b
    ensures multiset(a)[key] <= multiset(b)[key]
  {
    assert b == a + b[|a|..];
  }

  /** Register answers SUCCEED at most once per account. */
  lemma RegisterSucceedsOnce(calls: seq<Call>, i: nat, j: nat, key: string)
    requires Registered(calls, i, key) && Registered(calls, j, key)
    ensures i == j
  {
    if i < j {
      TakenForGood(calls, i, j, key);
    } else if j < i {
      TakenForGood(calls, j, i, key);
    }
  }

  lemma RoleStep(calls: seq<Call>, n: nat, key: string)
    requires n + 1 == |calls| && key != ""
    ensures key in After(calls).store.roles <==> key in After(calls[..n]).store.roles || Registered(calls, n, key)
  {
    AfterOk(calls[..n]);
    CallEffect(After(calls[..n]), calls[n], key);
  }

  /** An account has a stored role exactly when some registration of it succeeded. */
  lemma {:induction false} RoleIffRegistered(calls: seq<Call>, key: string)
    requires key != ""
    ensures key in After(calls).store.roles <==> exists i :: Registered(calls, i, key)
  {
    if calls != [] {
      var n := |calls| - 1;
      RoleIffRegistered(calls[..n], key);
      RoleStep(calls, n, key);
      forall i | 0 <= i < n ensures Registered(calls[..n], i, key) <==> Registered(calls, i, key) {
        RegisteredEarlier(calls, i, n, key);
      }
    }
  }

  /**
   * Whatever failed before: a login for a non-empty name whose own reads go through
   * answers SUCCEED if and only if some earlier registration of that account succeeded
   * with the password now given (as the store keeps it, that is, up to its first NUL).
   */
  lemma LoginSucceedsIff(calls: seq<Call>, j: nat, key: string)
    requires j < |calls| && calls[j].req.Login? && CStr(calls[j].req.who.account) == key != ""
    requires At(calls[j].fates, 1).Ok? && At(calls[j].fates, 2).Ok?
    ensures Answer(calls, j).error == Succeed <==>
            exists i: nat :: i < j && RegisteredWith(calls, i, key, calls[j].req.who.password)
  {
    var c := calls[j];
    AfterOk(calls[..j]);
    LoginEffect(After(calls[..j]), c.addr, c.req.who, c.fates);
    CredentialsIffRegistered(calls, j, key, c.req.who.password);
  }

  predicate RegisteredWith(calls: seq<Call>, i: nat, key: string, password: string) {
    Registered(calls, i, key) && CStr(calls[i].req.who.password) == password
  }

  lemma CredentialsIffRegistered(calls: seq<Call>, j: nat, key: string, password: string)
    requires j <= |calls| && key != ""
    ensures var st := After(calls[..j]).store;
            (key in st.roles && key in st.passwords && st.passwords[key] == password) <==>
            exists i: nat :: i < j && RegisteredWith(calls, i, key, password)
  {
    RoleIffRegistered(calls[..j], key);
    if i: nat :| i < j && RegisteredWith(calls, i, key, password) {
      RegisteredEarlier(calls, i, j, key);
      RegisteredPassword(calls[..j], i, key);
    }
    if i: nat :| Registered(calls[..j], i, key) {
      RegisteredEarlier(calls, i, j, key);
      RegisteredPassword(calls[..j], i, key);
      assert After(calls[..j]).store.passwords[key] == password ==> RegisteredWith(calls, i, key, password);
    }
  }
}

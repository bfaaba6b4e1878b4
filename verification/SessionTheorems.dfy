/**
 * Returning visitors and sessions over a whole history of calls: which login is the
 * first, which role an address is bound to, and how the session's copy of a role
 * relates to the stored one.
 */
module SessionTheorems {
  import opened MachineInts
  import opened Protocol
  import opened AccountTheorems
  import opened RegistrationTheorems
  import opened SequentialTheorems

  // ----- returning visitors -----

  predicate LogsIn(c: Call, rsp: Response, key: string) {
    c.req.Login? && CStr(c.req.who.account) == key && rsp.LoginRsp? && rsp.error == Succeed
  }

  /** A login that reported a first visit and got the flag into the store. */
  predicate Marks(c: Call, rsp: Response, key: string) {
    LogsIn(c, rsp, key) && !rsp.returning && At(c.fates, 3).Ok?
  }

  /** One call, answered `rsp`, takes the role stored under a non-empty key from `m` to `m'`. */
  ghost predicate TouchesOnly(m: Shared, c: Call, rsp: Response, m': Shared, key: string) {
    && (Flagged(m', key) <==> Flagged(m, key) || Marks(c, rsp, key))
    && (key in m.store.roles ==>
          key in m'.store.roles && m'.store.roles[key] == m.store.roles[key].(returning := Flagged(m', key)))
    && (LogsIn(c, rsp, key) ==> (rsp.returning <==> Flagged(m, key)))
  }

  lemma LoginTouches(m: Shared, c: Call, key: string)
    requires StoreOk(m.store) && key != "" && c.req.Login?
    ensures var o := Serve(m, c.addr, c.req, c.fates);
            TouchesOnly(m, c, o.rsp, o.m, key)
  {
    LoginEffect(m, c.addr, c.req.who, c.fates);
  }

  /** Against one named account, only its own registration and first logins touch the role. */
  lemma RoleEffect(m: Shared, c: Call, key: string)
    requires StoreOk(m.store) && key != ""
    ensures var o := Serve(m, c.addr, c.req, c.fates);
            TouchesOnly(m, c, o.rsp, o.m, key)
  {
    match c.req
    case Register(who) => RegisterEffect(m, c.addr, who, c.fates);
    case Login(who) => LoginTouches(m, c, key);
    case Erase(rpcId) => EraseEffect(m, c.addr, rpcId, c.fates);
    case Query(_) => TaskEffect(m, c.addr, c.req, c.fates);
    case Update(_) => TaskEffect(m, c.addr, c.req, c.fates);
  }

  predicate LoggedIn(calls: seq<Call>, i: nat, key: string) {
    i < |calls| && LogsIn(calls[i], Answer(calls, i), key)
  }

  predicate Marked(calls: seq<Call>, i: nat, key: string) {
    i < |calls| && Marks(calls[i], Answer(calls, i), key)
  }

  lemma MarkedEarlier(calls: seq<Call>, i: nat, j: nat, key: string)
    requires i < j <= |calls|
    ensures Marked(calls[..j], i, key) <==> Marked(calls, i, key)
  {
    assert calls[..j][..i] == calls[..i];
  }

  lemma FlagStep(calls: seq<Call>, n: nat, key: string)
    requires n + 1 == |calls| && key != ""
    ensures Flagged(After(calls), key) <==> Flagged(After(calls[..n]), key) || Marked(calls, n, key)
  {
    AfterOk(calls[..n]);
    RoleEffect(After(calls[..n]), calls[n], key);
  }

  /** The stored flag is set exactly when some login set it; no request ever resets it. */
  lemma {:induction false} FlaggedIffMarked(calls: seq<Call>, key: string)
    requires key != ""
    ensures Flagged(After(calls), key) <==> exists i :: Marked(calls, i, key)
  {
    if calls != [] {
      var n := |calls| - 1;
      FlaggedIffMarked(calls[..n], key);
      FlagStep(calls, n, key);
      forall i | 0 <= i < n ensures Marked(calls[..n], i, key) <==> Marked(calls, i, key) {
        MarkedEarlier(calls, i, n, key);
      }
    }
  }

  /**
   * Including refused logins and failed writes: a login is told "returning" exactly when it
   * succeeds and an earlier one got its mark stored.
   */
  lemma ToldReturningIff(calls: seq<Call>, j: nat, key: string)
    requires j < |calls| && calls[j].req.Login? && CStr(calls[j].req.who.account) == key != ""
    ensures Answer(calls, j).LoginRsp?
    ensures Answer(calls, j).returning <==>
            LoggedIn(calls, j, key) && exists i: nat :: i < j && Marked(calls, i, key)
  {
    AfterOk(calls[..j]);
    LoginEffect(After(calls[..j]), calls[j].addr, calls[j].req.who, calls[j].fates);
    RoleEffect(After(calls[..j]), calls[j], key);
    FlaggedIffMarked(calls[..j], key);
    if i: nat :| Marked(calls[..j], i, key) {
      MarkedEarlier(calls, i, j, key);
    }
    if i: nat :| i < j && Marked(calls, i, key) {
      MarkedEarlier(calls, i, j, key);
    }
  }

  /** Where the writes of logins succeed, exactly the first successful login is told it is the first. */
  lemma OnlyFirstLoginIsNew(calls: seq<Call>, j: nat, key: string)
    requires LoggedIn(calls, j, key) && key != ""
    requires forall i :: 0 <= i < |calls| && calls[i].req.Login? ==> At(calls[i].fates, 3).Ok?
    ensures !Answer(calls, j).returning <==> forall i: nat :: i < j ==> !LoggedIn(calls, i, key)
  {
    ToldReturningIff(calls, j, key);
    if i: nat :| i < j && Marked(calls, i, key) {
      assert LoggedIn(calls, i, key);
    }
    if i: nat :| i < j && LoggedIn(calls, i, key) {
      if !Answer(calls, i).returning {
        assert Marked(calls, i, key);
      } else {
        ToldReturningIff(calls, i, key);
        var k: nat :| k < i && Marked(calls, k, key);
      }
    }
  }

  // ----- session and store -----

  /** What one call does to the session map. */
  function SessionsAfter(m: Shared, c: Call): map<Addr, Role> {
    match c.req
    case Login(who) =>
      if At(c.fates, 0).Ok? && CStr(who.account) in m.store.roles && c.addr !in m.sessions
      then m.sessions[c.addr := m.store.roles[CStr(who.account)]] else m.sessions
    case Erase(_) => if c.addr in m.sessions then m.sessions[c.addr := NO_ROLE] else m.sessions
    case _ => m.sessions
  }

  lemma SessionEffect(m: Shared, c: Call)
    requires StoreOk(m.store)
    ensures Serve(m, c.addr, c.req, c.fates).m.sessions == SessionsAfter(m, c)
  {
    match c.req
    case Register(who) => RegisterEffect(m, c.addr, who, c.fates);
    case Login(who) => LoginEffect(m, c.addr, who, c.fates);
    case Erase(rpcId) => EraseEffect(m, c.addr, rpcId, c.fates);
    case Query(_) => TaskEffect(m, c.addr, c.req, c.fates);
    case Update(_) => TaskEffect(m, c.addr, c.req, c.fates);
  }

  /**
   * In every sequential history, with any failures, each session role is cleared, or
   * carries a name with an empty key, or equals the stored role of its name except that
   * the stored returning-visitor flag may have been set since.
   */
  lemma SessionsAlwaysAgree(calls: seq<Call>)
    ensures SessionsAgree(After(calls))
  {
    HistoryIsARun(calls);
    forall key ensures Exclusive(EventsOf(calls), key) {
      HistoryIsExclusive(calls, key);
    }
    SessionsAgreeInterleaved(EventsOf(calls));
  }

  // ----- which role an address is bound to -----

  /** Call `i` is a LOGIN from `addr` for an account whose role is stored and readable at that moment. */
  predicate Binds(calls: seq<Call>, i: nat, addr: Addr) {
    && i < |calls| && calls[i].addr == addr && calls[i].req.Login? && At(calls[i].fates, 0).Ok?
    && CStr(calls[i].req.who.account) in After(calls[..i]).store.roles
  }

  predicate ErasedAfter(calls: seq<Call>, i: nat, addr: Addr) {
    exists e: nat :: i < e < |calls| && calls[e].req.Erase? && calls[e].addr == addr
  }

  lemma BindsEarlier(calls: seq<Call>, i: nat, j: nat, addr: Addr)
    requires i < j <= |calls|
    ensures Binds(calls[..j], i, addr) <==> Binds(calls, i, addr)
  {
    assert calls[..j][..i] == calls[..i];
  }

  lemma BindStep(calls: seq<Call>, n: nat, addr: Addr)
    requires n + 1 == |calls|
    ensures addr in After(calls).sessions <==> addr in After(calls[..n]).sessions || Binds(calls, n, addr)
    ensures addr in After(calls[..n]).sessions ==>
              After(calls).sessions[addr] ==
              if calls[n].req.Erase? && calls[n].addr == addr then NO_ROLE else After(calls[..n]).sessions[addr]
    ensures addr !in After(calls[..n]).sessions && Binds(calls, n, addr) ==>
              After(calls).sessions[addr] == After(calls[..n]).store.roles[CStr(calls[n].req.who.account)]
  {
    AfterOk(calls[..n]);
    SessionEffect(After(calls[..n]), calls[n]);
  }

  /** An address is bound exactly when some earlier LOGIN from it named an account with a stored role. */
  lemma {:induction false} BoundIff(calls: seq<Call>, addr: Addr)
    ensures addr in After(calls).sessions <==> exists i :: Binds(calls, i, addr)
  {
    if calls != [] {
      var n := |calls| - 1;
      BoundIff(calls[..n], addr);
      BindStep(calls, n, addr);
      forall i | 0 <= i < n ensures Binds(calls[..n], i, addr) <==> Binds(calls, i, addr) {
        BindsEarlier(calls, i, n, addr);
      }
    }
  }

  /**
   * The first such LOGIN decides the binding for good: the address holds the role pulled
   * then, or the cleared role once it has sent an erase, whatever later logins say and
   * whether or not any of them was accepted.
   */
  lemma {:induction false} BoundToFirst(calls: seq<Call>, addr: Addr, i: nat)
    requires Binds(calls, i, addr) && forall k: nat :: k < i ==> !Binds(calls, k, addr)
    ensures addr in After(calls).sessions
    ensures After(calls).sessions[addr] ==
            if ErasedAfter(calls, i, addr) then NO_ROLE
            else After(calls[..i]).store.roles[CStr(calls[i].req.who.account)]
    decreases |calls|
  {
    var n := |calls| - 1;
    BindStep(calls, n, addr);
    if i == n {
      BoundIff(calls[..n], addr);
      forall k: nat | k < n ensures !Binds(calls[..n], k, addr) {
        BindsEarlier(calls, k, n, addr);
      }
    } else {
      forall k: nat | k <= i ensures Binds(calls[..n], k, addr) <==> Binds(calls, k, addr) {
        BindsEarlier(calls, k, n, addr);
      }
      BoundToFirst(calls[..n], addr, i);
      assert calls[..n][..i] == calls[..i];
      ErasedLater(calls, i, addr);
    }
  }

  lemma ErasedLater(calls: seq<Call>, i: nat, addr: Addr)
    requires i + 1 < |calls|
    ensures var n := |calls| - 1;
            ErasedAfter(calls, i, addr) <==>
            ErasedAfter(calls[..n], i, addr) || (calls[n].req.Erase? && calls[n].addr == addr)
  {
    var n := |calls| - 1;
    if e: nat :| i < e < n && calls[..n][e].req.Erase? && calls[..n][e].addr == addr {
      assert calls[e] == calls[..n][e];
    }
    if e: nat :| i < e < |calls| && calls[e].req.Erase? && calls[e].addr == addr {
      assert e < n ==> calls[..n][e] == calls[e];
    }
  }

  /**
   * The session is bound before the password is looked at: a LOGIN refused with
   * PASSWORD_WRONG still leaves an unbound address bound to the named account, and an
   * update sent from it afterwards is stored as that account's progress.
   */
  lemma RefusedLoginStillBinds(m: Shared, addr: Addr, who: Credentials, report: Report,
                               fates: seq<Fate>, fates': seq<Fate>)
    requires StoreOk(m.store) && addr !in m.sessions
    requires var key := CStr(who.account);
             key in m.store.roles && key in m.store.passwords && m.store.passwords[key] != who.password
    requires At(fates, 0).Ok? && At(fates, 1).Ok? && At(fates', 0).Ok? && At(fates', 1).Ok?
    ensures var role := m.store.roles[CStr(who.account)];
            var refused := Serve(m, addr, Login(who), fates);
            var base := if role.playerId in m.store.tasks then m.store.tasks[role.playerId] else NO_TASKS;
            && refused.rsp == LoginRsp(who.rpcId, PasswordWrong, false)
            && refused.m == m.(sessions := m.sessions[addr := role])
            && Serve(refused.m, addr, Update(report), fates').m.store ==
               m.store.(tasks := m.store.tasks[role.playerId := ApplyReport(base, report)])
  {
    LoginEffect(m, addr, who, fates);
    var refused := Serve(m, addr, Login(who), fates);
    UpdateStores(refused.m, addr, report, fates');
    var role := m.store.roles[CStr(who.account)];
    var base := if role.playerId in m.store.tasks then m.store.tasks[role.playerId] else NO_TASKS;
    EditedIff(base, report, Serve(refused.m, addr, Update(report), fates').m.store.tasks[role.playerId]);
  }
}

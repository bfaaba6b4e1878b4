/**
 * Registration under interleaving: a name is registered at most once, its password never
 * changes and every session agrees with the store, on exactly the runs in which no two
 * registrations of one account are between the existence check and the password write.
 */
module RegistrationTheorems {
  import opened MachineInts
  import opened Protocol
  import opened AccountTheorems
  import opened AccountLimits

  /** A registration of the account that has passed the existence check and not yet written the password. */
  predicate Checked(t: Thread, key: string) {
    t.RegisterPassword? && CStr(t.who.account) == key
  }

  /** A registration of the account that has written the password and is not yet answered. */
  predicate Named(t: Thread, key: string) {
    (t.RegisterId? || t.RegisterRole?) && CStr(t.who.account) == key
  }

  ghost predicate OneChecked(s: State, key: string) {
    forall a, b :: a in s.threads && b in s.threads && Checked(s.threads[a], key) && Checked(s.threads[b], key)
      ==> a == b
  }

  /** Registrations of this account never overlap between check and password write. */
  ghost predicate Exclusive(es: seq<Event>, key: string) {
    forall n :: 0 <= n <= |es| ==> OneChecked(Run(es[..n]), key)
  }

  lemma ExclusivePrefix(es: seq<Event>, key: string, n: nat)
    requires Exclusive(es, key) && n <= |es|
    ensures Exclusive(es[..n], key)
  {
    forall k | 0 <= k <= n ensures OneChecked(Run(es[..n][..k]), key) {
      assert es[..n][..k] == es[..k];
    }
  }

  function Times(s: State, key: string): nat {
    multiset(s.registered)[key]
  }

  // ----- at most once -----

  /** Once the password is written, no registration is waiting to write it again. */
  ghost predicate Taken(s: State, key: string) {
    key in s.m.store.passwords ==> forall a :: a in s.threads ==> !Checked(s.threads[a], key)
  }

  ghost predicate OneNamed(s: State, key: string) {
    forall a, b :: a in s.threads && b in s.threads && Named(s.threads[a], key) && Named(s.threads[b], key) ==> a == b
  }

  /** At most one registration of the account gets past its password write, then none is left. */
  ghost predicate Once(s: State, key: string) {
    && Taken(s, key) && OneNamed(s, key)
    && Times(s, key) <= 1
    && (forall a :: a in s.threads && Named(s.threads[a], key) ==>
          key in s.m.store.passwords && Times(s, key) == 0)
    && (Times(s, key) == 1 ==> key in s.m.store.passwords)
  }

  /** One command, seen from one account: who may enter each stage and who writes its password. */
  lemma AdvanceStages(t: Thread, m: Shared, fate: Fate, key: string)
    ensures var (t', m') := Advance(t, m, fate);
            && (Checked(t', key) ==> key !in m.store.passwords && !Checked(t, key))
            && (Named(t', key) ==> key in m'.store.passwords || Named(t, key))
            && (Named(t', key) ==> Checked(t, key) || Named(t, key))
            && (key in m.store.passwords ==> key in m'.store.passwords)
            && (key in m'.store.passwords && key !in m.store.passwords ==> Checked(t, key))
            && (!Checked(t, key) && key in m.store.passwords ==>
                  m'.store.passwords[key] == m.store.passwords[key])
  {
  }

  lemma NextRegisters(s: State, e: Event, key: string)
    ensures Times(Next(s, e), key) ==
            Times(s, key) + if e.Act? && e.tid in s.threads && s.threads[e.tid].RegisterRole? && e.fate.Ok?
                               && Named(s.threads[e.tid], key) then 1 else 0
  {
  }

  lemma NextKeepsTaken(s: State, e: Event, key: string)
    requires Taken(s, key) && OneChecked(s, key)
    ensures Taken(Next(s, e), key)
    ensures key in s.m.store.passwords ==>
              key in Next(s, e).m.store.passwords
              && Next(s, e).m.store.passwords[key] == s.m.store.passwords[key]
  {
    if e.Act? && e.tid in s.threads {
      AdvanceStages(s.threads[e.tid], s.m, e.fate, key);
    }
  }

  lemma NextKeepsOneNamed(s: State, e: Event, key: string)
    requires Taken(s, key) && OneNamed(s, key)
    requires forall a :: a in s.threads && Named(s.threads[a], key) ==> key in s.m.store.passwords
    ensures OneNamed(Next(s, e), key)
  {
    if e.Act? && e.tid in s.threads {
      AdvanceStages(s.threads[e.tid], s.m, e.fate, key);
    }
  }

  lemma NextKeepsOnce(s: State, e: Event, key: string)
    requires Once(s, key) && OneChecked(s, key)
    ensures Once(Next(s, e), key)
    ensures key in s.m.store.passwords ==>
              key in Next(s, e).m.store.passwords
              && Next(s, e).m.store.passwords[key] == s.m.store.passwords[key]
  {
    NextRegisters(s, e, key);
    NextKeepsTaken(s, e, key);
    NextKeepsOneNamed(s, e, key);
    if e.Act? && e.tid in s.threads {
      AdvanceStages(s.threads[e.tid], s.m, e.fate, key);
    }
  }

  lemma {:induction false} AlwaysOnce(es: seq<Event>, key: string)
    requires Exclusive(es, key)
    ensures Once(Run(es), key)
  {
    if es != [] {
      var n := |es| - 1;
      ExclusivePrefix(es, key, n);
      AlwaysOnce(es[..n], key);
      assert OneChecked(Run(es[..n]), key);
      NextKeepsOnce(Run(es[..n]), es[n], key);
    }
  }

  /**
   * Over every interleaving and failure pattern in which registrations of an account do
   * not overlap between check and password write: at most one of them answers SUCCEED.
   */
  lemma RegisteredOnce(es: seq<Event>, key: string)
    requires Exclusive(es, key)
    ensures Times(Run(es), key) <= 1
  {
    AlwaysOnce(es, key);
  }

  /** On the same runs, a stored password is never overwritten. */
  lemma {:induction false} PasswordIsFixed(es: seq<Event>, n: nat, key: string)
    requires Exclusive(es, key) && n <= |es| && key in Run(es[..n]).m.store.passwords
    ensures key in Run(es).m.store.passwords
    ensures Run(es).m.store.passwords[key] == Run(es[..n]).m.store.passwords[key]
    decreases |es|
  {
    if n == |es| {
      assert es[..n] == es;
    } else {
      var before := es[..|es| - 1];
      assert before[..n] == es[..n];
      ExclusivePrefix(es, key, |es| - 1);
      PasswordIsFixed(before, n, key);
      AlwaysOnce(before, key);
      assert OneChecked(Run(before), key);
      NextKeepsOnce(Run(before), es[|es| - 1], key);
    }
  }

  // ----- the condition is exact -----

  /** Only registrations that have already passed their check are run on. */
  predicate RunsOn(s: State, more: seq<Event>) {
    forall i :: 0 <= i < |more| ==> more[i].Act? && more[i].tid in s.threads && s.threads[more[i].tid].RegisterPassword?
  }

  /** Two registrations of one account past the check can both be answered SUCCEED. */
  lemma OverlapRegistersTwice(es: seq<Event>, t1: nat, t2: nat, key: string) returns (more: seq<Event>)
    requires var s := Run(es);
             && t1 in s.threads && t2 in s.threads && t1 != t2 && s.m.store.gid + 2 < TWO_63
             && Checked(s.threads[t1], key) && Checked(s.threads[t2], key)
    ensures RunsOn(Run(es), more) && Times(RunFrom(Run(es), more), key) >= 2
    ensures key in RunFrom(Run(es), more).m.store.passwords
    ensures RunFrom(Run(es), more).m.store.passwords[key] == CStr(Run(es).threads[t2].who.password)
  {
    var s := Run(es);
    more := FinishBoth(s, t1, t2, s.threads[t1].who, s.threads[t2].who);
    assert multiset(s.registered + [key] + [key]) == multiset(s.registered) + multiset{key, key};
  }

  lemma {:induction false} NobodyNewChecked(s: State, more: seq<Event>, key: string, tid: nat)
    requires RunsOn(s, more) && tid in RunFrom(s, more).threads && Checked(RunFrom(s, more).threads[tid], key)
    ensures tid in s.threads && Checked(s.threads[tid], key)
  {
    if more != [] {
      var n := |more| - 1;
      OnlyLeave(s, more[..n], more[n].tid);
      CheckedBefore(RunFrom(s, more[..n]), more[n], key, tid);
      NobodyNewChecked(s, more[..n], key, tid);
    }
  }

  lemma CheckedBefore(mid: State, e: Event, key: string, tid: nat)
    requires e.Act? && e.tid in mid.threads && !mid.threads[e.tid].RegisterCheck?
    requires tid in Next(mid, e).threads && Checked(Next(mid, e).threads[tid], key)
    ensures tid in mid.threads && Checked(mid.threads[tid], key)
  {
    AdvanceStages(mid.threads[e.tid], mid.m, e.fate, key);
  }

  /** A registration past its check never returns to the check. */
  lemma {:induction false} OnlyLeave(s: State, more: seq<Event>, tid: nat)
    requires RunsOn(s, more) && tid in s.threads && s.threads[tid].RegisterPassword?
    ensures var s' := RunFrom(s, more);
            tid in s'.threads && !s'.threads[tid].RegisterCheck?
  {
    if more != [] {
      OnlyLeave(s, more[..|more| - 1], tid);
    }
  }

  lemma {:induction false} StaysOnce(s: State, more: seq<Event>, key: string)
    requires Once(s, key) && OneChecked(s, key) && RunsOn(s, more)
    ensures Once(RunFrom(s, more), key) && OneChecked(RunFrom(s, more), key)
  {
    if more != [] {
      var n := |more| - 1;
      StaysOnce(s, more[..n], key);
      NextKeepsOnce(RunFrom(s, more[..n]), more[n], key);
      var s' := RunFrom(s, more);
      forall a, b | a in s'.threads && b in s'.threads && Checked(s'.threads[a], key) && Checked(s'.threads[b], key)
        ensures a == b
      {
        NobodyNewChecked(s, more, key, a);
        NobodyNewChecked(s, more, key, b);
      }
    }
  }

  /**
   * The exact condition: after any run that was exclusive so far, the registrations
   * already past their check can bring the account to two SUCCEED answers if and only if
   * two of them are past the check of that account at the same time.
   */
  lemma TwiceIffOverlap(es: seq<Event>, key: string)
    requires forall n :: 0 <= n < |es| ==> OneChecked(Run(es[..n]), key)
    requires Run(es).m.store.gid + 2 < TWO_63
    ensures !OneChecked(Run(es), key) <==>
            exists more :: RunsOn(Run(es), more) && Times(RunFrom(Run(es), more), key) >= 2
  {
    if OneChecked(Run(es), key) {
      assert es[..|es|] == es;
      AlwaysOnce(es, key);
      forall more | RunsOn(Run(es), more) ensures Times(RunFrom(Run(es), more), key) < 2 {
        StaysOnce(Run(es), more, key);
      }
    } else {
      var a, b :| a in Run(es).threads && b in Run(es).threads && a != b
                  && Checked(Run(es).threads[a], key) && Checked(Run(es).threads[b], key);
      var more := OverlapRegistersTwice(es, a, b, key);
    }
  }

  // ----- sessions and the store -----

  predicate Flagged(m: Shared, key: string) {
    key in m.store.roles && m.store.roles[key].returning
  }

  /** A session is cleared, unnamed, or a possibly older copy of the stored role. */
  ghost predicate Agrees(m: Shared, role: Role) {
    var key := CStr(role.username);
    role == NO_ROLE || key == "" ||
    (key in m.store.roles && m.store.roles[key] == role.(returning := Flagged(m, key))
     && (role.returning ==> Flagged(m, key)))
  }

  ghost predicate SessionsAgree(m: Shared) {
    forall a :: a in m.sessions ==> Agrees(m, m.sessions[a])
  }

  /** What the other requests' locals promise: copies agree, and nobody is about to recreate a role. */
  ghost predicate CopyOk(t: Thread, m: Shared) {
    match t
    case RegisterId(who) => CStr(who.account) == "" || CStr(who.account) !in m.store.roles
    case RegisterRole(who, _) => CStr(who.account) == "" || CStr(who.account) !in m.store.roles
    case LoginBind(_, _, pulled) => Agrees(m, pulled)
    case LoginPush(_, pushed) => CStr(pushed.username) == "" || (Agrees(m, pushed.(returning := false)) && pushed.returning)
    case UpdatePull(_, session) => Agrees(m, session)
    case UpdatePush(_, session, _) => Agrees(m, session)
    case QueryPull(_, session) => Agrees(m, session)
    case _ => true
  }

  ghost predicate CopiesOk(s: State) {
    && SessionsAgree(s.m)
    && (forall tid :: tid in s.threads ==> CopyOk(s.threads[tid], s.m))
  }

  /** The new memory keeps every named role but for a flag that may be set. */
  ghost predicate RolesKept(m: Shared, m': Shared) {
    forall k :: k in m.store.roles && k != "" ==>
      k in m'.store.roles && m'.store.roles[k] == m.store.roles[k].(returning := m'.store.roles[k].returning)
      && (m.store.roles[k].returning ==> m'.store.roles[k].returning)
  }

  lemma AgreesLater(m: Shared, m': Shared, role: Role)
    requires Agrees(m, role) && RolesKept(m, m')
    ensures Agrees(m', role)
  {
  }

  lemma AdvanceKeepsRoles(t: Thread, m: Shared, fate: Fate)
    requires StoreOk(m.store) && ThreadOk(t, m) && CopyOk(t, m)
    ensures RolesKept(m, Advance(t, m, fate).1)
  {
    if fate.Ok? && t.LoginPush? {
      PushKeepsRoles(m, t.pushed);
    } else if fate.Ok? && t.RegisterRole? {
      PushKeepsRoles(m, Role(t.gid, false, t.who.account, 0));
    } else if fate.Ok? && t.ErasePush? {
      PushKeepsRoles(m, t.cleared);
    } else {
      NoPushNoChange(t, m, fate);
    }
  }

  lemma PushKeepsRoles(m: Shared, role: Role)
    requires var key := CStr(role.username);
             key != "" && key in m.store.roles ==>
               role == m.store.roles[key].(returning := role.returning) && role.returning
    ensures RolesKept(m, SetRole(m, role))
  {
  }

  lemma NoPushNoChange(t: Thread, m: Shared, fate: Fate)
    requires fate.Ok? ==> !t.LoginPush? && !t.RegisterRole? && !t.ErasePush?
    ensures Advance(t, m, fate).1.store.roles == m.store.roles
  {
  }

  /** The advancing thread's own promises; a fresh name has no role, as roles need a password. */
  lemma AdvanceKeepsCopy(t: Thread, m: Shared, fate: Fate)
    requires StoreOk(m.store) && ThreadOk(t, m) && CopyOk(t, m) && SessionsAgree(m)
    requires t.RegisterPassword? ==> CStr(t.who.account) !in m.store.passwords
    ensures CopyOk(Advance(t, m, fate).0, Advance(t, m, fate).1)
  {
  }

  lemma AdvanceKeepsSessions(t: Thread, m: Shared, fate: Fate)
    requires SessionsAgree(m) && CopyOk(t, m) && RolesKept(m, Advance(t, m, fate).1)
    ensures SessionsAgree(Advance(t, m, fate).1)
  {
    var m' := Advance(t, m, fate).1;
    forall a | a in m'.sessions ensures Agrees(m', m'.sessions[a]) {
      if a in m.sessions && m'.sessions[a] == m.sessions[a] {
        AgreesLater(m, m', m.sessions[a]);
      } else if t.LoginBind? {
        AgreesLater(m, m', t.pulled);
      }
    }
  }

  /** A named role appears only when its one registration creates it. */
  lemma CreatedBy(t: Thread, m: Shared, fate: Fate, key: string)
    requires StoreOk(m.store) && ThreadOk(t, m) && CopyOk(t, m)
    requires key != "" && key !in m.store.roles && key in Advance(t, m, fate).1.store.roles
    ensures Named(t, key)
  {
  }

  lemma OtherCopies(s: State, e: Event, tid: nat)
    requires CopiesOk(s) && KeysOk(s) && forall key :: Once(s, key)
    requires e.Act? && e.tid in s.threads && tid in s.threads && tid != e.tid
    requires RolesKept(s.m, Next(s, e).m)
    ensures CopyOk(s.threads[tid], Next(s, e).m)
  {
    var u := s.threads[tid];
    match u
    case LoginBind(_, _, pulled) => AgreesLater(s.m, Next(s, e).m, pulled);
    case LoginPush(_, pushed) =>
      if CStr(pushed.username) != "" {
        AgreesLater(s.m, Next(s, e).m, pushed.(returning := false));
      }
    case RegisterId(who) => NotRecreated(s, e, tid, CStr(who.account));
    case RegisterRole(who, _) => NotRecreated(s, e, tid, CStr(who.account));
    case _ => SessionCopyLater(u, s.m, Next(s, e).m);
  }

  /** Progress requests hold a copy of the session's role. */
  lemma SessionCopyLater(t: Thread, m: Shared, m': Shared)
    requires CopyOk(t, m) && RolesKept(m, m')
    requires !t.RegisterId? && !t.RegisterRole? && !t.LoginBind? && !t.LoginPush?
    ensures CopyOk(t, m')
  {
    if t.UpdatePull? || t.UpdatePush? || t.QueryPull? {
      AgreesLater(m, m', t.session);
    }
  }

  lemma NotRecreated(s: State, e: Event, tid: nat, key: string)
    requires CopiesOk(s) && KeysOk(s) && Once(s, key)
    requires e.Act? && e.tid in s.threads && tid in s.threads && tid != e.tid && Named(s.threads[tid], key)
    ensures key == "" || key !in Next(s, e).m.store.roles
  {
    assert CopyOk(s.threads[tid], s.m);
    if key != "" && key in Next(s, e).m.store.roles {
      CreatedBy(s.threads[e.tid], s.m, e.fate, key);
    }
  }

  lemma CheckedIsFresh(s: State, tid: nat, key: string)
    requires Once(s, key) && tid in s.threads && Checked(s.threads[tid], key)
    ensures key !in s.m.store.passwords
  {
  }

  lemma NextKeepsCopies(s: State, e: Event)
    requires CopiesOk(s) && KeysOk(s) && forall key :: Once(s, key)
    ensures CopiesOk(Next(s, e))
  {
    if e.Act? && e.tid in s.threads {
      var t := s.threads[e.tid];
      assert ThreadOk(t, s.m) && CopyOk(t, s.m);
      if t.RegisterPassword? {
        CheckedIsFresh(s, e.tid, CStr(t.who.account));
      }
      AdvanceKeepsRoles(t, s.m, e.fate);
      AdvanceKeepsCopy(t, s.m, e.fate);
      AdvanceKeepsSessions(t, s.m, e.fate);
      forall tid | tid in s.threads && tid != e.tid ensures CopyOk(s.threads[tid], Next(s, e).m) {
        OtherCopies(s, e, tid);
      }
    }
  }

  /**
   * Over every interleaving and failure pattern in which registrations of one account do
   * not overlap: each session role is cleared, or carries a name with an empty key, or
   * equals the stored role of its name except that the stored returning-visitor flag may
   * have been set since; and so does every role that a request holds in flight, but for
   * the one a login is about to store, whose flag is newer.
   */
  lemma {:induction false} SessionsAgreeInterleaved(es: seq<Event>)
    requires forall key :: Exclusive(es, key)
    ensures CopiesOk(Run(es))
  {
    if es != [] {
      var n := |es| - 1;
      forall key ensures Exclusive(es[..n], key) && Once(Run(es[..n]), key) {
        ExclusivePrefix(es, key, n);
        AlwaysOnce(es[..n], key);
      }
      SessionsAgreeInterleaved(es[..n]);
      KeysAlwaysOk(es[..n]);
      NextKeepsCopies(Run(es[..n]), es[n]);
    }
  }

  // ----- what a login does with what it read, however others interleave -----

  /**
   * A login binds its address to the role as it was when it was read, whatever is stored in
   * between, unless the address has been bound meanwhile.
   */
  lemma LoginBindsWhatItRead(s: State, tid: nat, addr: Addr, who: Credentials, more: seq<Event>, fate: Fate)
    requires tid in s.threads && s.threads[tid] == LoginSession(addr, who) && Idle(more, tid)
    requires CStr(who.account) in s.m.store.roles
    ensures var before := RunFrom(Next(s, Act(tid, Ok)), more);
            var after := Next(before, Act(tid, fate));
            && after.m.store == before.m.store
            && after.m.sessions == (if addr in before.m.sessions then before.m.sessions
                                    else before.m.sessions[addr := s.m.store.roles[CStr(who.account)]])
  {
    Waits(Next(s, Act(tid, Ok)), more, tid);
  }

  /**
   * A first login writes back the whole role it read, with the flag set: whatever was stored
   * under its key in between, by an overlapping registration say, is undone.
   */
  lemma LoginWritesBack(s: State, tid: nat, who: Credentials, more: seq<Event>, fate: Fate)
    requires tid in s.threads && s.threads[tid] == LoginPull(who) && Idle(more, tid)
    requires var key := CStr(who.account);
             key in s.m.store.roles && !s.m.store.roles[key].returning
    ensures var role := s.m.store.roles[CStr(who.account)];
            var before := RunFrom(Next(s, Act(tid, Ok)), more);
            var after := Next(before, Act(tid, fate));
            && tid in after.threads && after.threads[tid] == Done(LoginRsp(who.rpcId, Succeed, false))
            && after.m.sessions == before.m.sessions
            && after.m.store == (if fate.Ok?
                                 then before.m.store.(roles := before.m.store.roles[CStr(role.username) :=
                                                                                    role.(returning := true)])
                                 else before.m.store)
  {
    Waits(Next(s, Act(tid, Ok)), more, tid);
  }
}

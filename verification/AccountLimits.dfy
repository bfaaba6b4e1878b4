/**
 * Where the account guarantees stop: ids repeat once the counter has passed 2^32, and
 * two registrations of one account that overlap both succeed.
 */
module AccountLimits {
  import opened MachineInts
  import opened Protocol
  import opened AccountTheorems

  /** A registration past its existence check, completed alone without failures. */
  lemma PastTheCheck(m: Shared, who: Credentials)
    requires CanIncr(m.store)
    ensures var key := CStr(who.account);
            Complete(RegisterPassword(who), m, []) ==
            Outcome(m.(store := m.store.(
                      passwords := m.store.passwords[key := CStr(who.password)],
                      gid := m.store.gid + 1,
                      roles := m.store.roles[key := Role(I32(m.store.gid + 1), false, who.account, 0)])),
                    RegisterRsp(who.rpcId, Succeed), [])
  {
    var (t1, m1) := Advance(RegisterPassword(who), m, Ok);
    var (t2, m2) := Advance(t1, m1, Ok);
    var (t3, m3) := Advance(t2, m2, Ok);
    assert Complete(RegisterPassword(who), m, []) == Complete(t1, m1, []);
    assert Complete(t1, m1, []) == Complete(t2, m2, []);
    assert Complete(t2, m2, []) == Complete(t3, m3, []);
  }

  /** Both threads have answered SUCCEED; the second password and the second id are in the store. */
  ghost predicate BothRegistered(s: State, t1: nat, t2: nat, w1: Credentials, w2: Credentials, gid: int) {
    var key := CStr(w2.account);
    && t1 in s.threads && s.threads[t1] == Done(RegisterRsp(w1.rpcId, Succeed))
    && t2 in s.threads && s.threads[t2] == Done(RegisterRsp(w2.rpcId, Succeed))
    && key in s.m.store.passwords && s.m.store.passwords[key] == CStr(w2.password)
    && key in s.m.store.roles && s.m.store.roles[key].playerId == gid
  }

  /**
   * The existence check and the password write are separate commands: whenever two
   * registrations of one account both pass the check, both answer SUCCEED, the second
   * password replaces the first, and the account ends with the second id.
   */
  lemma RegistrationsRace(s: State, t1: nat, t2: nat, w1: Credentials, w2: Credentials) returns (es: seq<Event>)
    requires t1 in s.threads && t2 in s.threads && t1 != t2
    requires s.threads[t1] == RegisterCheck(w1) && s.threads[t2] == RegisterCheck(w2)
    requires CStr(w1.account) == CStr(w2.account) && CStr(w1.account) !in s.m.store.passwords
    requires s.m.store.gid + 2 < TWO_63
    ensures BothRegistered(RunFrom(s, es), t1, t2, w1, w2, I32(s.m.store.gid + 2))
  {
    var checks := BothPass(s, t1, t2, w1, w2);
    es := FinishAfter(s, checks, t1, t2, w1, w2);
  }

  lemma FinishAfter(s: State, checks: seq<Event>, t1: nat, t2: nat, w1: Credentials, w2: Credentials)
    returns (es: seq<Event>)
    requires RunFrom(s, checks).m == s.m && s.m.store.gid + 2 < TWO_63 && t1 != t2
    requires t1 in RunFrom(s, checks).threads && RunFrom(s, checks).threads[t1] == RegisterPassword(w1)
    requires t2 in RunFrom(s, checks).threads && RunFrom(s, checks).threads[t2] == RegisterPassword(w2)
    ensures BothRegistered(RunFrom(s, es), t1, t2, w1, w2, I32(s.m.store.gid + 2))
  {
    var finish := FinishBoth(RunFrom(s, checks), t1, t2, w1, w2);
    RunAppend(s, checks, finish);
    es := checks + finish;
  }

  lemma BothPass(s: State, t1: nat, t2: nat, w1: Credentials, w2: Credentials) returns (es: seq<Event>)
    requires t1 in s.threads && t2 in s.threads && t1 != t2
    requires s.threads[t1] == RegisterCheck(w1) && s.threads[t2] == RegisterCheck(w2)
    requires CStr(w1.account) == CStr(w2.account) && CStr(w1.account) !in s.m.store.passwords
    ensures RunFrom(s, es).m == s.m
    ensures t1 in RunFrom(s, es).threads && RunFrom(s, es).threads[t1] == RegisterPassword(w1)
    ensures t2 in RunFrom(s, es).threads && RunFrom(s, es).threads[t2] == RegisterPassword(w2)
  {
    es := [Act(t1, Ok)] + ([Act(t2, Ok)] + []);
    RunCons(s, Act(t1, Ok), [Act(t2, Ok)] + []);
    RunCons(Next(s, Act(t1, Ok)), Act(t2, Ok), []);
  }

  lemma FinishBoth(b: State, t1: nat, t2: nat, w1: Credentials, w2: Credentials) returns (es: seq<Event>)
    requires t1 in b.threads && t2 in b.threads && t1 != t2 && b.m.store.gid + 2 < TWO_63
    requires b.threads[t1] == RegisterPassword(w1) && b.threads[t2] == RegisterPassword(w2)
    ensures BothRegistered(RunFrom(b, es), t1, t2, w1, w2, I32(b.m.store.gid + 2))
    ensures RunFrom(b, es).registered == b.registered + [CStr(w1.account)] + [CStr(w2.account)]
    ensures forall e :: e in es ==> e.Act? && (e.tid == t1 || e.tid == t2)
  {
    var es1 := FinishAlone(b, t1, w1);
    var es2 := FinishAlone(RunFrom(b, es1), t2, w2);
    es := es1 + es2;
    RunAppend(b, es1, es2);
  }

  /** A thread past the check runs to its end. */
  lemma FinishAlone(s: State, t: nat, who: Credentials) returns (es: seq<Event>)
    requires t in s.threads && s.threads[t] == RegisterPassword(who) && CanIncr(s.m.store)
    ensures var s' := RunFrom(s, es);
            var key := CStr(who.account);
            && s'.threads == s.threads[t := Done(RegisterRsp(who.rpcId, Succeed))]
            && s'.m.store.gid == s.m.store.gid + 1
            && s'.m.store.passwords == s.m.store.passwords[key := CStr(who.password)]
            && s'.m.store.roles == s.m.store.roles[key := Role(I32(s.m.store.gid + 1), false, who.account, 0)]
            && s'.registered == s.registered + [key]
    ensures forall e :: e in es ==> e == Act(t, Ok)
  {
    es := AloneEvents(t, s.threads[t], s.m, []);
    AloneIsARun(s, t, []);
    AloneRegisters(s, t, []);
    PastTheCheck(s.m, who);
    OnlyActs(t, s.threads[t], s.m, []);
  }

  lemma {:induction false} OnlyActs(tid: nat, t: Thread, m: Shared, fates: seq<Fate>)
    requires fates == []
    ensures forall e :: e in AloneEvents(tid, t, m, fates) ==> e == Act(tid, Ok)
    decreases Remaining(t)
  {
    if !t.Done? {
      var (t', m') := Advance(t, m, Ok);
      CompleteStep(t, m, fates, Ok, fates);
      OnlyActs(tid, t', m', fates);
    }
  }

  // ----- the counter wraps -----

  /** Account names of 33 letters: the number `n` in binary, spelled with two letters. */
  function Name(n: nat, width: nat): (r: string)
    ensures |r| == width && '\0' !in r
  {
    if width == 0 then "" else Name(n / 2, width - 1) + [if n % 2 == 0 then 'a' else 'b']
  }

  function Pow2(w: nat): nat {
    if w == 0 then 1 else 2 * Pow2(w - 1)
  }

  lemma {:induction false} NameInjective(a: nat, b: nat, width: nat)
    requires a < Pow2(width) && b < Pow2(width) && Name(a, width) == Name(b, width)
    ensures a == b
  {
    if width > 0 {
      var x, y := Name(a, width), Name(b, width);
      assert x[..width - 1] == Name(a / 2, width - 1) && y[..width - 1] == Name(b / 2, width - 1);
      assert x[width - 1] == y[width - 1];
      NameInjective(a / 2, b / 2, width - 1);
    }
  }

  lemma EnoughNames(width: nat)
    requires width == 33
    ensures Pow2(width) == 2 * TWO_32
  {
    assert Pow2(9) == 512;
    assert Pow2(17) == 256 * Pow2(9);
    assert Pow2(25) == 256 * Pow2(17);
    assert Pow2(33) == 256 * Pow2(25);
  }

  /** The state after registering the first `n` names of this width, one after the other. */
  ghost predicate Populated(s: State, n: nat, width: nat) {
    && s.m.store.gid == n
    && (forall tid :: tid in s.threads ==> tid < n)
    && (forall i :: n <= i < Pow2(width) ==> Name(i, width) !in s.m.store.passwords)
    && (forall i :: 0 <= i < n ==>
          && Name(i, width) in s.m.store.roles
          && s.m.store.roles[Name(i, width)] == Role(I32(i + 1), false, Name(i, width), 0))
  }

  lemma RegisterOne(s: State, n: nat, width: nat) returns (es: seq<Event>)
    requires Populated(s, n, width) && n < Pow2(width) && n + 1 < TWO_63
    ensures Populated(RunFrom(s, es), n + 1, width)
  {
    var who := Credentials(0, Name(n, width), "");
    assert CStr(who.account) == Name(n, width) && Name(n, width) !in s.m.store.passwords && n !in s.threads;
    es := RegisterFresh(s, n, who, []);
    OneMore(s, RunFrom(s, es), n, width);
  }

  /** A fresh account registered from start to end, with nothing in between. */
  lemma RegisterFresh(s: State, tid: nat, who: Credentials, fates: seq<Fate>) returns (es: seq<Event>)
    requires tid !in s.threads && CStr(who.account) !in s.m.store.passwords && CanIncr(s.m.store) && fates == []
    ensures var s' := RunFrom(s, es);
            var key := CStr(who.account);
            && s'.threads.Keys == s.threads.Keys + {tid}
            && s'.m.store.gid == s.m.store.gid + 1
            && s'.m.store.passwords == s.m.store.passwords[key := CStr(who.password)]
            && s'.m.store.roles == s.m.store.roles[key := Role(I32(s.m.store.gid + 1), false, who.account, 0)]
  {
    es := ServeEvents(s.m, tid, 0, Register(who), fates);
    ServeIsARun(s, tid, 0, Register(who), fates);
    FreshOutcome(s.m, 0, who, fates);
  }

  lemma FreshOutcome(m: Shared, addr: Addr, who: Credentials, fates: seq<Fate>)
    requires CStr(who.account) !in m.store.passwords && CanIncr(m.store) && fates == []
    ensures var st := Serve(m, addr, Register(who), fates).m.store;
            var key := CStr(who.account);
            && st.gid == m.store.gid + 1
            && st.passwords == m.store.passwords[key := CStr(who.password)]
            && st.roles == m.store.roles[key := Role(I32(m.store.gid + 1), false, who.account, 0)]
  {
    CompleteStep(RegisterCheck(who), m, fates, Ok, fates);
    PastTheCheck(m, who);
  }

  lemma OneMore(s: State, s': State, n: nat, width: nat)
    requires Populated(s, n, width) && n < Pow2(width) && s'.m.store.gid == n + 1
    requires s'.threads.Keys == s.threads.Keys + {n}
    requires s'.m.store.passwords.Keys == s.m.store.passwords.Keys + {Name(n, width)}
    requires s'.m.store.roles == s.m.store.roles[Name(n, width) := Role(I32(n + 1), false, Name(n, width), 0)]
    ensures Populated(s', n + 1, width)
  {
    forall tid | tid in s'.threads ensures tid < n + 1 {
      assert tid in s'.threads.Keys;
    }
    forall i | n + 1 <= i < Pow2(width) ensures Name(i, width) !in s'.m.store.passwords {
      OtherName(i, n, width);
      assert Name(i, width) !in s'.m.store.passwords.Keys;
    }
    forall i | 0 <= i < n ensures Name(i, width) != Name(n, width) {
      OtherName(i, n, width);
    }
  }

  lemma OtherName(i: nat, n: nat, width: nat)
    requires i != n && i < Pow2(width) && n < Pow2(width)
    ensures Name(i, width) != Name(n, width)
  {
    if Name(i, width) == Name(n, width) {
      NameInjective(i, n, width);
    }
  }

  lemma {:induction false} RegisterMany(n: nat, width: nat) returns (es: seq<Event>)
    requires n <= Pow2(width) && n < TWO_63
    ensures Populated(Run(es), n, width)
  {
    if n == 0 {
      es := [];
    } else {
      var before := RegisterMany(n - 1, width);
      var more := RegisterOne(Run(before), n - 1, width);
      es := before + more;
      RunAppend(INITIAL, before, more);
    }
  }

  /** Among that many registrations, the first and the last have the same id. */
  lemma FirstAndLast(s: State, last: nat, width: nat) returns (r1: Role, r2: Role)
    requires Populated(s, last + 1, width) && last == TWO_32 < Pow2(width)
    ensures Holds(s, r1) && Holds(s, r2)
    ensures r1.playerId == r2.playerId == 1
    ensures r1.username == Name(0, width) && r2.username == Name(last, width)
  {
    var first: nat := 0;
    assert Name(first, width) in s.m.store.roles && Name(last, width) in s.m.store.roles;
    r1, r2 := s.m.store.roles[Name(first, width)], s.m.store.roles[Name(last, width)];
    I32Collision(1, last + 1);
  }

  lemma WrapWithNames(width: nat) returns (es: seq<Event>, r1: Role, r2: Role)
    requires TWO_32 + 1 <= Pow2(width)
    ensures Run(es).m.store.gid == TWO_32 + 1
    ensures Holds(Run(es), r1) && Holds(Run(es), r2)
    ensures r1.playerId == r2.playerId == 1 && r1.username != r2.username
    ensures |r1.username| == |r2.username| == width
    ensures forall ch :: ch in r1.username + r2.username ==> ch == 'a' || ch == 'b'
  {
    var last: nat := TWO_32;
    es := RegisterMany(last + 1, width);
    r1, r2 := FirstAndLast(Run(es), last, width);
    OtherName(0, last, width);
    TwoLetters(0, width);
    TwoLetters(last, width);
  }

  /**
   * The bound in `IdsBelongToOneAccount` is tight: at 2^32 + 1 some run has two accounts
   * with id 1, both with ordinary names of 33 letters.
   */
  lemma IdsRepeatAfterWrap() returns (es: seq<Event>, r1: Role, r2: Role)
    ensures Run(es).m.store.gid == TWO_32 + 1
    ensures Holds(Run(es), r1) && Holds(Run(es), r2)
    ensures r1.playerId == r2.playerId == 1 && r1.username != r2.username
    ensures |r1.username| == |r2.username| == 33
    ensures forall ch :: ch in r1.username + r2.username ==> ch == 'a' || ch == 'b'
  {
    EnoughNames(33);
    es, r1, r2 := WrapWithNames(33);
  }

  lemma {:induction false} TwoLetters(n: nat, width: nat)
    ensures forall ch :: ch in Name(n, width) ==> ch == 'a' || ch == 'b'
  {
    if width > 0 {
      TwoLetters(n / 2, width - 1);
    }
  }
}

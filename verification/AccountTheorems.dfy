/**
 * Safety of the account protocol over every interleaving and failure pattern: roles
 * sit under their own key, roles of named accounts have a password, and player ids
 * are not shared between accounts.
 */
module AccountTheorems {
  import opened MachineInts
  import opened Protocol

  // ----- keys and passwords -----

  ghost predicate StoreOk(st: Store) {
    && (forall k :: k in st.roles ==> CStr(st.roles[k].username) == k)
    && (forall k :: k in st.roles && k != "" ==> k in st.passwords)
  }

  /** What a thread's locals promise about the store it is about to write. */
  ghost predicate ThreadOk(t: Thread, m: Shared) {
    match t
    case RegisterId(who) => CStr(who.account) in m.store.passwords
    case RegisterRole(who, _) => CStr(who.account) in m.store.passwords
    case LoginBind(_, who, pulled) => CStr(pulled.username) == CStr(who.account)
    case LoginPush(who, pushed) =>
      && CStr(pushed.username) == CStr(who.account)
      && (CStr(who.account) != "" ==> CStr(who.account) in m.store.passwords)
    case ErasePush(_, cleared) => cleared == NO_ROLE
    case _ => true
  }

  ghost predicate KeysOk(s: State) {
    && StoreOk(s.m.store)
    && (forall tid :: tid in s.threads ==> ThreadOk(s.threads[tid], s.m))
  }

  /** Passwords are never removed, which is all that one thread's promises need from the others. */
  lemma AdvanceKeepsKeys(t: Thread, m: Shared, fate: Fate)
    requires StoreOk(m.store) && ThreadOk(t, m)
    ensures var (t', m') := Advance(t, m, fate);
            StoreOk(m'.store) && ThreadOk(t', m') && m.store.passwords.Keys <= m'.store.passwords.Keys
  {
  }

  lemma NextKeepsKeys(s: State, e: Event)
    requires KeysOk(s)
    ensures KeysOk(Next(s, e))
  {
    if e.Act? && e.tid in s.threads {
      AdvanceKeepsKeys(s.threads[e.tid], s.m, e.fate);
      forall tid | tid in s.threads && tid != e.tid ensures ThreadOk(s.threads[tid], Next(s, e).m) {
        PromisesSurvive(s.threads[tid], s.m, Next(s, e).m);
      }
    }
  }

  lemma PromisesSurvive(t: Thread, m: Shared, m': Shared)
    requires ThreadOk(t, m) && m.store.passwords.Keys <= m'.store.passwords.Keys
    ensures ThreadOk(t, m')
  {
  }

  /**
   * Under every interleaving of requests and every failure pattern: each stored role's
   * username names the key it is stored under, each stored role of a non-empty name has
   * a stored password, and each login's pending write goes to the key it was read from.
   */
  lemma {:induction false} KeysAlwaysOk(es: seq<Event>)
    ensures KeysOk(Run(es))
  {
    if es != [] {
      KeysAlwaysOk(es[..|es| - 1]);
      NextKeepsKeys(Run(es[..|es| - 1]), es[|es| - 1]);
    }
  }

  // ----- player ids -----

  /** The `c`-th increment of the counter produced this id, on behalf of this account. */
  ghost predicate IssuedAs(issued: seq<string>, c: nat, id: int, account: string) {
    1 <= c <= |issued| && id == I32(c) && issued[c - 1] == account
  }

  /** Cleared, or carrying an id that was issued to the account it names. */
  ghost predicate Owned(issued: seq<string>, role: Role) {
    || (role.playerId == 0 && role.username == "")
    || exists c :: IssuedAs(issued, c, role.playerId, role.username)
  }

  /** The role, or the role about to be written, that a thread holds in its locals. */
  function Local(t: Thread): Option<Role> {
    match t
    case RegisterRole(who, gid) => Some(Role(gid, false, who.account, 0))
    case LoginBind(_, _, pulled) => Some(pulled)
    case LoginPush(_, pushed) => Some(pushed)
    case ErasePush(_, cleared) => Some(cleared)
    case UpdatePull(_, session) => Some(session)
    case UpdatePush(_, session, _) => Some(session)
    case QueryPull(_, session) => Some(session)
    case _ => None
  }

  /** The role occurs somewhere in the system: stored, in a session, or in flight. */
  ghost predicate Holds(s: State, role: Role) {
    || (exists k :: k in s.m.store.roles && s.m.store.roles[k] == role)
    || (exists a :: a in s.m.sessions && s.m.sessions[a] == role)
    || (exists tid :: tid in s.threads && Local(s.threads[tid]) == Some(role))
  }

  ghost predicate MemoryOwned(issued: seq<string>, m: Shared) {
    && |issued| == m.store.gid
    && (forall k :: k in m.store.roles ==> Owned(issued, m.store.roles[k]))
    && (forall a :: a in m.sessions ==> Owned(issued, m.sessions[a]))
  }

  ghost predicate LocalOwned(issued: seq<string>, t: Thread) {
    Local(t).Some? ==> Owned(issued, Local(t).value)
  }

  ghost predicate IdsOwned(s: State) {
    && MemoryOwned(s.issued, s.m)
    && (forall tid :: tid in s.threads ==> LocalOwned(s.issued, s.threads[tid]))
  }

  lemma OwnedGrows(issued: seq<string>, account: string, role: Role)
    requires Owned(issued, role)
    ensures Owned(issued + [account], role)
  {
    if c :| IssuedAs(issued, c, role.playerId, role.username) {
      assert IssuedAs(issued + [account], c, role.playerId, role.username);
    }
  }

  /** Every action but the increment moves roles around without changing id or name. */
  lemma AdvanceKeepsOwners(t: Thread, m: Shared, fate: Fate, issued: seq<string>)
    requires MemoryOwned(issued, m) && LocalOwned(issued, t)
    requires !(t.RegisterId? && Advance(t, m, fate).0.RegisterRole?)
    ensures MemoryOwned(issued, Advance(t, m, fate).1) && LocalOwned(issued, Advance(t, m, fate).0)
  {
    if t.LoginPull? && Advance(t, m, fate).0.LoginPush? {
      assert Owned(issued, m.store.roles[CStr(t.who.account)]);
    }
  }

  /** The increment issues a new id to the registering account and disturbs no other. */
  lemma IssueKeepsOwners(t: Thread, m: Shared, fate: Fate, issued: seq<string>)
    requires MemoryOwned(issued, m)
    requires t.RegisterId? && Advance(t, m, fate).0.RegisterRole?
    ensures MemoryOwned(issued + [t.who.account], Advance(t, m, fate).1)
    ensures LocalOwned(issued + [t.who.account], Advance(t, m, fate).0)
  {
    var account := t.who.account;
    forall k | k in m.store.roles ensures Owned(issued + [account], m.store.roles[k]) {
      OwnedGrows(issued, account, m.store.roles[k]);
    }
    forall a | a in m.sessions ensures Owned(issued + [account], m.sessions[a]) {
      OwnedGrows(issued, account, m.sessions[a]);
    }
    assert IssuedAs(issued + [account], m.store.gid + 1, I32(m.store.gid + 1), account);
  }

  lemma NextKeepsOwners(s: State, e: Event)
    requires IdsOwned(s)
    ensures IdsOwned(Next(s, e))
  {
    if e.Act? && e.tid in s.threads {
      var t := s.threads[e.tid];
      if t.RegisterId? && Advance(t, s.m, e.fate).0.RegisterRole? {
        IssueKeepsOwners(t, s.m, e.fate, s.issued);
        forall tid | tid in s.threads && Local(s.threads[tid]).Some?
          ensures Owned(s.issued + [t.who.account], Local(s.threads[tid]).value)
        {
          OwnedGrows(s.issued, t.who.account, Local(s.threads[tid]).value);
        }
      } else {
        AdvanceKeepsOwners(t, s.m, e.fate, s.issued);
      }
    }
  }

  lemma {:induction false} IdsAlwaysOwned(es: seq<Event>)
    ensures IdsOwned(Run(es))
  {
    if es != [] {
      IdsAlwaysOwned(es[..|es| - 1]);
      NextKeepsOwners(Run(es[..|es| - 1]), es[|es| - 1]);
    }
  }

  lemma HeldIsOwned(s: State, role: Role)
    requires IdsOwned(s) && Holds(s, role)
    ensures Owned(s.issued, role)
  {
  }

  /** Before the counter has passed 2^32, two owned roles with the same nonzero id name the same account. */
  lemma SameIdSameName(issued: seq<string>, r1: Role, r2: Role)
    requires |issued| <= TWO_32 && Owned(issued, r1) && Owned(issued, r2)
    requires r1.playerId == r2.playerId != 0
    ensures r1.username == r2.username && r1.playerId <= |issued|
  {
    var c1: nat :| IssuedAs(issued, c1, r1.playerId, r1.username);
    var c2: nat :| IssuedAs(issued, c2, r2.playerId, r2.username);
    NarrowingInjective(c1, c2);
  }

  /**
   * Under every interleaving and failure pattern, as long as the counter has not passed
   * 2^32: a nonzero player id found anywhere in the system is at most the counter, and
   * all roles carrying it carry the same username.
   */
  lemma IdsBelongToOneAccount(es: seq<Event>, r1: Role, r2: Role)
    requires Run(es).m.store.gid <= TWO_32
    requires Holds(Run(es), r1) && Holds(Run(es), r2)
    requires r1.playerId == r2.playerId != 0
    ensures r1.username == r2.username && r1.playerId <= Run(es).m.store.gid
  {
    IdsAlwaysOwned(es);
    HeldIsOwned(Run(es), r1);
    HeldIsOwned(Run(es), r2);
    SameIdSameName(Run(es).issued, r1, r2);
  }

  /** While the counter is below 2^32, every named role in the system has a nonzero id. */
  lemma NamedRolesHaveIds(es: seq<Event>, role: Role)
    requires Run(es).m.store.gid < TWO_32
    requires Holds(Run(es), role) && role.username != ""
    ensures role.playerId != 0
  {
    IdsAlwaysOwned(es);
    HeldIsOwned(Run(es), role);
    var c: nat :| IssuedAs(Run(es).issued, c, role.playerId, role.username);
    I32Collision(c, 0);
  }

  /** Narrowing to `int` keeps 1..2^32 apart, and only 2^32 itself becomes 0. */
  lemma NarrowingInjective(c1: nat, c2: nat)
    requires 1 <= c1 <= TWO_32 && 1 <= c2 <= TWO_32 && I32(c1) == I32(c2) != 0
    ensures c1 == c2 && I32(c1) <= c1
  {
    I32Collision(c1, c2);
  }

  // ----- bindings -----

  lemma AdvanceKeepsBinding(t: Thread, m: Shared, fate: Fate, addr: Addr)
    requires addr in m.sessions
    ensures var m' := Advance(t, m, fate).1;
            addr in m'.sessions && (m'.sessions[addr] == m.sessions[addr] || m'.sessions[addr] == NO_ROLE)
  {
  }

  /** Under every interleaving a bound address keeps its role: later logins never replace it, only an erase clears it. */
  lemma {:induction false} BindingLasts(s: State, more: seq<Event>, addr: Addr)
    requires addr in s.m.sessions
    ensures var s' := RunFrom(s, more);
            addr in s'.m.sessions && (s'.m.sessions[addr] == s.m.sessions[addr] || s'.m.sessions[addr] == NO_ROLE)
  {
    if more != [] {
      var n := |more| - 1;
      BindingLasts(s, more[..n], addr);
      var mid, e := RunFrom(s, more[..n]), more[n];
      if e.Act? && e.tid in mid.threads {
        AdvanceKeepsBinding(mid.threads[e.tid], mid.m, e.fate, addr);
      }
    }
  }
}

/**
 * The services and managers as the server runs them: objects that issue Redis commands
 * and update their fields in place.  Each operation is proved to compute what the
 * corresponding thread of `Protocol` computes when it runs alone.
 */
module Services {
  import opened MachineInts
  import opened Protocol

  /** A Redis reply; an error carries what the progress parser would make of its text. */
  datatype Reply<+T> = Nil | Str(value: T) | Status | Integer(n: int) | Error(parsed: TaskInfo)

  /** The connection.  `fates` scripts how the coming commands are answered. */
  class SyncRedisWrapper {
    var store: Store
    var fates: seq<Fate>

    constructor (store: Store, fates: seq<Fate>)
      ensures this.store == store && this.fates == fates
    {
      this.store, this.fates := store, fates;
    }

    method NextFate() returns (fate: Fate)
      modifies this`fates
      ensures fate == Fate0(old(fates)) && fates == Fates1(old(fates))
    {
      fate := Fate0(fates);
      fates := Fates1(fates);
    }

    /** `get __password_<account>` */
    method GetPassword(account: string) returns (reply: Reply<string>)
      modifies this`fates
      ensures fates == Fates1(old(fates))
      ensures reply == match Fate0(old(fates))
                       case Err(parsed) => Error(parsed)
                       case Ok => if CStr(account) in store.passwords then Str(store.passwords[CStr(account)]) else Nil
    {
      var fate := NextFate();
      if fate.Err? {
        return Error(fate.parsed);
      }
      var key := CStr(account);
      reply := if key in store.passwords then Str(store.passwords[key]) else Nil;
    }

    /** `set __password_<account> <password>` */
    method SetPassword(account: string, password: string) returns (reply: Reply<string>)
      modifies this
      ensures fates == Fates1(old(fates))
      ensures match Fate0(old(fates))
              case Err(parsed) => reply == Error(parsed) && store == old(store)
              case Ok => reply == Status
                         && store == old(store).(passwords := old(store).passwords[CStr(account) := CStr(password)])
    {
      var fate := NextFate();
      if fate.Err? {
        return Error(fate.parsed);
      }
      store := store.(passwords := store.passwords[CStr(account) := CStr(password)]);
      reply := Status;
    }

    /** `incr gid` */
    method IncrGid() returns (reply: Reply<string>)
      modifies this
      ensures fates == Fates1(old(fates))
      ensures if Fate0(old(fates)).Ok? && CanIncr(old(store))
              then store == old(store).(gid := old(store).gid + 1) && reply == Integer(store.gid)
              else store == old(store) && reply.Error?
    {
      var fate := NextFate();
      if fate.Err? {
        return Error(fate.parsed);
      }
      if !CanIncr(store) {
        return Error(NO_TASKS);
      }
      store := store.(gid := store.gid + 1);
      reply := Integer(store.gid);
    }

    /** `get __role_<account>` */
    method GetRole(account: string) returns (reply: Reply<Role>)
      modifies this`fates
      ensures fates == Fates1(old(fates))
      ensures reply == match Fate0(old(fates))
                       case Err(parsed) => Error(parsed)
                       case Ok => if CStr(account) in store.roles then Str(store.roles[CStr(account)]) else Nil
    {
      var fate := NextFate();
      if fate.Err? {
        return Error(fate.parsed);
      }
      var key := CStr(account);
      reply := if key in store.roles then Str(store.roles[key]) else Nil;
    }

    /** `set __role_<account> <role>` */
    method SetRole(account: string, role: Role) returns (reply: Reply<Role>)
      modifies this
      ensures fates == Fates1(old(fates))
      ensures match Fate0(old(fates))
              case Err(parsed) => reply == Error(parsed) && store == old(store)
              case Ok => reply == Status && store == old(store).(roles := old(store).roles[CStr(account) := role])
    {
      var fate := NextFate();
      if fate.Err? {
        return Error(fate.parsed);
      }
      store := store.(roles := store.roles[CStr(account) := role]);
      reply := Status;
    }

    /** `get __taskinfo_<gid>` */
    method GetTasks(gid: int) returns (reply: Reply<TaskInfo>)
      modifies this`fates
      ensures fates == Fates1(old(fates))
      ensures reply == match Fate0(old(fates))
                       case Err(parsed) => Error(parsed)
                       case Ok => if gid in store.tasks then Str(store.tasks[gid]) else Nil
    {
      var fate := NextFate();
      if fate.Err? {
        return Error(fate.parsed);
      }
      reply := if gid in store.tasks then Str(store.tasks[gid]) else Nil;
    }

    /** `set __taskinfo_<gid> <info>` */
    method SetTasks(gid: int, info: TaskInfo) returns (reply: Reply<TaskInfo>)
      modifies this
      ensures fates == Fates1(old(fates))
      ensures match Fate0(old(fates))
              case Err(parsed) => reply == Error(parsed) && store == old(store)
              case Ok => reply == Status && store == old(store).(tasks := old(store).tasks[gid := info])
    {
      var fate := NextFate();
      if fate.Err? {
        return Error(fate.parsed);
      }
      store := store.(tasks := store.tasks[gid := info]);
      reply := Status;
    }
  }

  /** A role object, shared between the session map and the services that edit it. */
  class RoleInfo {
    var role: Role

    constructor (role: Role)
      ensures this.role == role
    {
      this.role := role;
    }
  }

  class RoleinfoManager {
    const redis: SyncRedisWrapper
    var roles: map<Addr, RoleInfo>

    /** No two addresses share a role object. */
    ghost predicate Valid()
      reads this
    {
      forall a, b :: a in roles && b in roles && a != b ==> roles[a] != roles[b]
    }

    /** The session map by value. */
    ghost function Sessions(): map<Addr, Role>
      reads this, roles.Values
    {
      map a | a in roles :: roles[a].role
    }

    constructor (redis: SyncRedisWrapper)
      ensures this.redis == redis && roles == map[] && Valid()
    {
      this.redis, roles := redis, map[];
    }

    /** Insertion without overwriting. */
    method AddRole(addr: Addr, role: RoleInfo) returns (added: bool)
      modifies this
      ensures old(Valid()) && role !in old(roles).Values ==> Valid()
      ensures added <==> addr !in old(roles)
      ensures roles == if added then old(roles)[addr := role] else old(roles)
      ensures Sessions() == if added then old(Sessions())[addr := role.role] else old(Sessions())
      ensures roles.Values <= old(roles.Values) + {role}
    {
      added := addr !in roles;
      if added {
        roles := roles[addr := role];
      }
    }

    method GetRole(addr: Addr) returns (role: RoleInfo?)
      ensures if addr in roles then role == roles[addr] else role == null
    {
      role := if addr in roles then roles[addr] else null;
    }

    /** A fresh object each time, or null when there is no readable role. */
    method PullRoleInfoFromDB(username: string) returns (role: RoleInfo?)
      modifies redis`fates
      ensures redis.fates == Fates1(old(redis.fates))
      ensures role != null <==> Fate0(old(redis.fates)).Ok? && CStr(username) in redis.store.roles
      ensures role != null ==> fresh(role) && role.role == redis.store.roles[CStr(username)]
    {
      var reply := redis.GetRole(username);
      if !reply.Str? {
        return null;
      }
      role := new RoleInfo(reply.value);
    }

    method PushRoleToDB(role: Role) returns (pushed: bool)
      modifies redis
      ensures redis.fates == Fates1(old(redis.fates))
      ensures pushed <==> Fate0(old(redis.fates)).Ok?
      ensures redis.store == if pushed then old(redis.store).(roles := old(redis.store).roles[CStr(role.username) := role])
                             else old(redis.store)
    {
      var reply := redis.SetRole(role.username, role);
      pushed := reply.Status?;
    }
  }

  /** The state a service running alone reaches, as `Protocol` sees it. */
  ghost predicate Computes(t: Thread, store: Store, fates: seq<Fate>, sessions: map<Addr, Role>,
                           store': Store, rsp: Response, fates': seq<Fate>)
  {
    Complete(t, Shared(store, sessions), fates) == Outcome(Shared(store', sessions), rsp, fates')
  }

  class MinigameRegisterService {
    const redis: SyncRedisWrapper

    constructor (redis: SyncRedisWrapper)
      ensures this.redis == redis
    {
      this.redis := redis;
    }

    method Run(who: Credentials, ghost sessions: map<Addr, Role>) returns (rsp: Response)
      modifies redis
      ensures Computes(RegisterCheck(who), old(redis.store), old(redis.fates), sessions, redis.store, rsp, redis.fates)
    {
      ghost var m, f := Shared(redis.store, sessions), redis.fates;
      CompleteStep(RegisterCheck(who), m, f, Fate0(f), Fates1(f));
      var reply := redis.GetPassword(who.account);
      if reply != Nil {
        return RegisterRsp(who.rpcId, AccountAlreadyExist);
      }
      m, f := Shared(redis.store, sessions), redis.fates;
      CompleteStep(RegisterPassword(who), m, f, Fate0(f), Fates1(f));
      reply := redis.SetPassword(who.account, who.password);
      if reply != Status {
        return RegisterRsp(who.rpcId, UnknownError);
      }
      rsp := CreateRole(who, sessions);
    }

    /** The second half of the registration: draw an id, store the initial role. */
    method CreateRole(who: Credentials, ghost sessions: map<Addr, Role>) returns (rsp: Response)
      modifies redis
      ensures Computes(RegisterId(who), old(redis.store), old(redis.fates), sessions, redis.store, rsp, redis.fates)
    {
      ghost var m, f := Shared(redis.store, sessions), redis.fates;
      CompleteStep(RegisterId(who), m, f, Fate0(f), Fates1(f));
      var counter := redis.IncrGid();
      if !counter.Integer? {
        return RegisterRsp(who.rpcId, UnknownError);
      }
      var gid := I32(counter.n);
      m, f := Shared(redis.store, sessions), redis.fates;
      CompleteStep(RegisterRole(who, gid), m, f, Fate0(f), Fates1(f));
      var initial := NO_ROLE.(playerId := gid, username := who.account);
      var stored := redis.SetRole(who.account, initial);
      rsp := RegisterRsp(who.rpcId, if stored == Status then Succeed else UnknownError);
    }
  }

  class MinigameFakeLoginService {
    const redis: SyncRedisWrapper
    const roleManager: RoleinfoManager

    constructor (redis: SyncRedisWrapper, roleManager: RoleinfoManager)
      ensures this.redis == redis && this.roleManager == roleManager
    {
      this.redis, this.roleManager := redis, roleManager;
    }

    method Run(who: Credentials, ghost sessions: map<Addr, Role>) returns (rsp: Response)
      requires roleManager.redis == redis
      modifies redis
      ensures Computes(LoginPassword(who), old(redis.store), old(redis.fates), sessions, redis.store, rsp, redis.fates)
    {
      ghost var m, f := Shared(redis.store, sessions), redis.fates;
      CompleteStep(LoginPassword(who), m, f, Fate0(f), Fates1(f));
      var reply := redis.GetPassword(who.account);
      if !reply.Str? {
        return LoginRsp(who.rpcId, NotRegistered, false);
      }
      if who.password != reply.value {
        return LoginRsp(who.rpcId, PasswordWrong, false);
      }
      f := redis.fates;
      CompleteStep(LoginPull(who), m, f, Fate0(f), Fates1(f));
      var role := roleManager.PullRoleInfoFromDB(who.account);
      if role == null {
        return LoginRsp(who.rpcId, UnknownError, false);
      }
      if role.role.returning {
        return LoginRsp(who.rpcId, Succeed, true);
      }
      role.role := role.role.(returning := true);
      f := redis.fates;
      CompleteStep(LoginPush(who, role.role), m, f, Fate0(f), Fates1(f));
      var _ := roleManager.PushRoleToDB(role.role);
      rsp := LoginRsp(who.rpcId, Succeed, false);
    }
  }

  class EraseRoleService {
    const roleManager: RoleinfoManager

    constructor (roleManager: RoleinfoManager)
      ensures this.roleManager == roleManager
    {
      this.roleManager := roleManager;
    }

    /** Clears the role object first, so the push goes to the empty name. */
    method Run(role: RoleInfo, rpcId: int, ghost sessions: map<Addr, Role>) returns (rsp: Response)
      modifies role, roleManager.redis
      ensures role.role == NO_ROLE
      ensures Computes(ErasePush(rpcId, NO_ROLE), old(roleManager.redis.store), old(roleManager.redis.fates), sessions,
                       roleManager.redis.store, rsp, roleManager.redis.fates)
    {
      role.role := role.role.(playerId := 0, returning := false, username := "");
      role.role := role.role.(mainTask := 0);
      ghost var m, f := Shared(roleManager.redis.store, sessions), roleManager.redis.fates;
      CompleteStep(ErasePush(rpcId, NO_ROLE), m, f, Fate0(f), Fates1(f));
      var pushed := roleManager.PushRoleToDB(role.role);
      rsp := EraseRsp(rpcId, if pushed then Succeed else UnknownError);
    }
  }

  class TaskDataManager {
    const redis: SyncRedisWrapper
    var taskInfos: map<int, TaskInfo>

    constructor (redis: SyncRedisWrapper)
      ensures this.redis == redis && taskInfos == map[]
    {
      this.redis, taskInfos := redis, map[];
    }

    /** The services keep the manager by value, so each one starts from a copy. */
    constructor Copy(other: TaskDataManager)
      ensures redis == other.redis && taskInfos == other.taskInfos
    {
      redis, taskInfos := other.redis, other.taskInfos;
    }

    /** Fails on a missing entry, and also when the entry is already cached. */
    method PullTaskInfoFromDB(gid: int, ghost m: Shared) returns (pulled: bool)
      requires m.store == redis.store
      modifies this`taskInfos, redis`fates
      ensures redis.fates == Fates1(old(redis.fates))
      ensures var found := PulledTasks(m, gid, Fate0(old(redis.fates)));
              && (pulled <==> found.Some? && gid !in old(taskInfos))
              && taskInfos == if pulled then old(taskInfos)[gid := found.value] else old(taskInfos)
    {
      var reply := redis.GetTasks(gid);
      if reply.Nil? {
        return false;
      }
      var info := if reply.Str? then reply.value else if reply.Error? then reply.parsed else NO_TASKS;
      if gid in taskInfos {
        return false;
      }
      taskInfos := taskInfos[gid := info];
      return true;
    }

    method PushTaskInfoToDB(gid: int) returns (pushed: bool)
      modifies redis
      ensures gid !in taskInfos ==> !pushed && redis.store == old(redis.store) && redis.fates == old(redis.fates)
      ensures gid in taskInfos ==>
                && redis.fates == Fates1(old(redis.fates))
                && (pushed <==> Fate0(old(redis.fates)).Ok?)
                && redis.store == if pushed then old(redis.store).(tasks := old(redis.store).tasks[gid := taskInfos[gid]])
                                  else old(redis.store)
    {
      if gid !in taskInfos {
        return false;
      }
      var reply := redis.SetTasks(gid, taskInfos[gid]);
      pushed := reply.Status?;
    }

    /** Looking up a missing entry inserts an empty one. */
    method GetTaskInfo(gid: int) returns (info: TaskInfo)
      modifies this
      ensures info == if gid in old(taskInfos) then old(taskInfos)[gid] else NO_TASKS
      ensures taskInfos == old(taskInfos)[gid := info]
    {
      if gid !in taskInfos {
        taskInfos := taskInfos[gid := NO_TASKS];
      }
      info := taskInfos[gid];
    }

    predicate TaskInfoExist(gid: int)
      reads this
    {
      gid in taskInfos
    }
  }

  class TaskUpdateService {
    const manager: TaskDataManager

    constructor (shared: TaskDataManager)
      ensures fresh(manager) && manager.redis == shared.redis && manager.taskInfos == shared.taskInfos
    {
      manager := new TaskDataManager.Copy(shared);
    }

    /** The cached entry after the in-place edits. */
    method MarkFinished(gid: int, report: Report)
      requires gid in manager.taskInfos
      modifies manager
      ensures manager.taskInfos == old(manager.taskInfos)[gid := ApplyReport(old(manager.taskInfos)[gid], report)]
    {
      ghost var base := manager.taskInfos[gid];
      ghost var before := manager.taskInfos;
      for k := 0 to |report.finished|
        invariant gid in manager.taskInfos
        invariant manager.taskInfos == before[gid := manager.taskInfos[gid]]
        invariant manager.taskInfos[gid] == base.(tasks := base.tasks + (map i | i in report.finished[..k] :: Finish))
      {
        var info := manager.taskInfos[gid];
        assert report.finished[..k + 1] == report.finished[..k] + [report.finished[k]];
        manager.taskInfos := manager.taskInfos[gid := info.(tasks := info.tasks[report.finished[k] := Finish])];
      }
      assert report.finished[..|report.finished|] == report.finished;
      var info := manager.taskInfos[gid];
      manager.taskInfos := manager.taskInfos[gid := info.(x := Truncate(report.x), y := Truncate(report.y))];
    }

    /** Fill the cache from the store unless it holds the entry, create a missing entry, and edit it. */
    method Load(gid: int, report: Report, ghost m: Shared)
      requires m.store == manager.redis.store
      modifies manager, manager.redis`fates
      ensures gid in manager.taskInfos
      ensures manager.taskInfos == old(manager.taskInfos)[gid := manager.taskInfos[gid]]
      ensures gid in old(manager.taskInfos) ==>
                && manager.redis.fates == old(manager.redis.fates)
                && manager.taskInfos[gid] == ApplyReport(old(manager.taskInfos)[gid], report)
      ensures gid !in old(manager.taskInfos) ==>
                var pulled := PulledTasks(m, gid, Fate0(old(manager.redis.fates)));
                && manager.redis.fates == Fates1(old(manager.redis.fates))
                && manager.taskInfos[gid] == ApplyReport(if pulled.Some? then pulled.value else NO_TASKS, report)
    {
      if !manager.TaskInfoExist(gid) {
        var _ := manager.PullTaskInfoFromDB(gid, m);
      }
      var _ := manager.GetTaskInfo(gid);
      MarkFinished(gid, report);
    }

    method StoreEdited(role: RoleInfo, report: Report, ghost sessions: map<Addr, Role>) returns (rsp: Response)
      requires role.role.playerId in manager.taskInfos
      modifies manager.redis
      ensures Computes(UpdatePush(report, role.role, manager.taskInfos[role.role.playerId]), old(manager.redis.store),
                       old(manager.redis.fates), sessions, manager.redis.store, rsp, manager.redis.fates)
    {
      var gid := role.role.playerId;
      ghost var m, f := Shared(manager.redis.store, sessions), manager.redis.fates;
      CompleteStep(UpdatePush(report, role.role, manager.taskInfos[gid]), m, f, Fate0(f), Fates1(f));
      var _ := manager.PushTaskInfoToDB(gid);
      rsp := UpdateRsp(report.rpcId, Succeed);
    }

    /** On a manager that already caches the entry, the cached copy is edited and pushed, not the stored one. */
    method Run(role: RoleInfo, report: Report, ghost sessions: map<Addr, Role>) returns (rsp: Response)
      modifies manager, manager.redis
      ensures role.role == old(role.role)
      ensures role.role.playerId !in old(manager.taskInfos) ==>
                Computes(UpdatePull(report, role.role), old(manager.redis.store), old(manager.redis.fates), sessions,
                         manager.redis.store, rsp, manager.redis.fates)
      ensures role.role.playerId in old(manager.taskInfos) ==>
                var info := ApplyReport(old(manager.taskInfos)[role.role.playerId], report);
                && manager.taskInfos == old(manager.taskInfos)[role.role.playerId := info]
                && Computes(UpdatePush(report, role.role, info), old(manager.redis.store), old(manager.redis.fates), sessions,
                            manager.redis.store, rsp, manager.redis.fates)
    {
      var gid := role.role.playerId;
      ghost var m, f := Shared(manager.redis.store, sessions), manager.redis.fates;
      CompleteStep(UpdatePull(report, role.role), m, f, Fate0(f), Fates1(f));
      Load(gid, report, m);
      rsp := StoreEdited(role, report, sessions);
    }
  }

  class TaskQueryService {
    const manager: TaskDataManager

    constructor (shared: TaskDataManager)
      ensures fresh(manager) && manager.redis == shared.redis && manager.taskInfos == shared.taskInfos
    {
      manager := new TaskDataManager.Copy(shared);
    }

    /** The FINISH entries in the map's iteration order, which is unspecified: each id once. */
    method Collect<K(==)>(tasks: map<K, Progress>) returns (done: seq<K>)
      ensures forall i, j :: 0 <= i < j < |done| ==> done[i] != done[j]
      ensures (set id | id in done) == (set i | i in tasks && tasks[i] == Finish)
    {
      done := [];
      var todo := tasks.Keys;
      while todo != {}
        invariant todo <= tasks.Keys
        invariant forall i, j :: 0 <= i < j < |done| ==> done[i] != done[j]
        invariant forall id :: id in done ==> id in tasks && tasks[id] == Finish && id !in todo
        invariant forall id :: id in tasks && tasks[id] == Finish ==> id in done || id in todo
        decreases todo
      {
        var id :| id in todo;
        if tasks[id] == Finish {
          done := done + [id];
        }
        todo := todo - {id};
      }
    }

    /**
     * `done` is the repeated field of the response.  On a manager that already caches the
     * entry the query fails: it depends on starting from an unfilled copy.
     */
    method Run(role: RoleInfo, rpcId: int, ghost sessions: map<Addr, Role>) returns (rsp: Response, done: seq<int>)
      modifies manager, manager.redis
      ensures role.role == old(role.role)
      ensures rsp.QueryRsp? && (set id | id in done) == rsp.done
      ensures forall i, j :: 0 <= i < j < |done| ==> done[i] != done[j]
      ensures role.role.playerId in old(manager.taskInfos) ==>
                && rsp == QueryRsp(rpcId, UnknownError, {}, 0.0, 0.0)
                && manager.redis.store == old(manager.redis.store)
                && manager.redis.fates == Fates1(old(manager.redis.fates))
      ensures role.role.playerId !in old(manager.taskInfos) ==>
                Computes(QueryPull(rpcId, role.role), old(manager.redis.store), old(manager.redis.fates), sessions,
                         manager.redis.store, rsp, manager.redis.fates)
    {
      var gid := role.role.playerId;
      ghost var m, f := Shared(manager.redis.store, sessions), manager.redis.fates;
      CompleteStep(QueryPull(rpcId, role.role), m, f, Fate0(f), Fates1(f));
      var pulled := manager.PullTaskInfoFromDB(gid, m);
      if !pulled {
        return QueryRsp(rpcId, UnknownError, {}, 0.0, 0.0), [];
      }
      var info := manager.GetTaskInfo(gid);
      done := Collect(info.tasks);
      rsp := QueryRsp(rpcId, Succeed, (set id | id in done), info.x as real, info.y as real);
    }
  }

  datatype Answerer = RoleHandler | Dispatcher

  /** The role handler and the dispatcher behind it, sharing the managers with every connection. */
  class Server {
    const redis: SyncRedisWrapper
    const roleManager: RoleinfoManager
    const taskManager: TaskDataManager

    ghost predicate Valid()
      reads this, roleManager, taskManager
    {
      && roleManager.redis == redis && taskManager.redis == redis
      && roleManager.Valid()
      && taskManager.taskInfos == map[]
    }

    ghost function Memory(): Shared
      reads redis, roleManager, roleManager.roles.Values
    {
      Shared(redis.store, roleManager.Sessions())
    }

    constructor (redis: SyncRedisWrapper)
      ensures Valid() && this.redis == redis && Memory() == Shared(redis.store, map[])
    {
      this.redis := redis;
      roleManager := new RoleinfoManager(redis);
      taskManager := new TaskDataManager(redis);
    }

    /** The handler's half of a login: bind the address to a pulled copy of the role, if there is one. */
    method BindSession(addr: Addr, who: Credentials)
      requires Valid()
      modifies redis`fates, roleManager
      ensures Valid() && fresh(roleManager.roles.Values - old(roleManager.roles.Values))
      ensures Serve(old(Memory()), addr, Login(who), old(redis.fates)) ==
              Complete(LoginPassword(who), Memory(), redis.fates)
    {
      ghost var m, f := Memory(), redis.fates;
      LoginBinds(m, addr, who, f);
      var role := roleManager.PullRoleInfoFromDB(who.account);
      assert roleManager.Sessions() == m.sessions;
      if role != null {
        var _ := roleManager.AddRole(addr, role);
      }
      assert Memory() == Bound(m, addr, who, Fate0(f));
    }

    method LoginFrom(addr: Addr, who: Credentials) returns (rsp: Response)
      requires Valid()
      modifies redis, roleManager
      ensures Valid() && fresh(roleManager.roles.Values - old(roleManager.roles.Values))
      ensures Outcome(Memory(), rsp, redis.fates) == Serve(old(Memory()), addr, Login(who), old(redis.fates))
    {
      BindSession(addr, who);
      var service := new MinigameFakeLoginService(redis, roleManager);
      ghost var sessions := roleManager.Sessions();
      rsp := service.Run(who, sessions);
      assert roleManager.Sessions() == sessions;
    }

    method RegisterFrom(addr: Addr, who: Credentials) returns (rsp: Response)
      requires Valid()
      modifies redis
      ensures Valid()
      ensures Outcome(Memory(), rsp, redis.fates) == Serve(old(Memory()), addr, Register(who), old(redis.fates))
    {
      var service := new MinigameRegisterService(redis);
      ghost var sessions := roleManager.Sessions();
      rsp := service.Run(who, sessions);
      assert roleManager.Sessions() == sessions;
    }

    /** The role object a service receives: the session's, or a fresh empty one for an unbound address. */
    ghost predicate IsRoleOf(role: RoleInfo, addr: Addr)
      reads roleManager, role
    {
      if addr in roleManager.roles then role == roleManager.roles[addr]
      else role !in roleManager.roles.Values && role.role == NO_ROLE
    }

    method RunQuery(addr: Addr, role: RoleInfo, rpcId: int) returns (rsp: Response)
      requires Valid() && IsRoleOf(role, addr)
      modifies redis
      ensures Valid()
      ensures Outcome(Memory(), rsp, redis.fates) == Serve(old(Memory()), addr, Query(rpcId), old(redis.fates))
    {
      ghost var m, f := Memory(), redis.fates;
      CompleteStep(QueryStart(addr, rpcId), m, f, Ok, f);
      var service := new TaskQueryService(taskManager);
      var done;
      rsp, done := service.Run(role, rpcId, m.sessions);
      assert roleManager.Sessions() == m.sessions;
    }

    method RunUpdate(addr: Addr, role: RoleInfo, report: Report) returns (rsp: Response)
      requires Valid() && IsRoleOf(role, addr)
      modifies redis
      ensures Valid()
      ensures Outcome(Memory(), rsp, redis.fates) == Serve(old(Memory()), addr, Update(report), old(redis.fates))
    {
      ghost var m, f := Memory(), redis.fates;
      CompleteStep(UpdateStart(addr, report), m, f, Ok, f);
      var service := new TaskUpdateService(taskManager);
      rsp := service.Run(role, report, m.sessions);
      assert roleManager.Sessions() == m.sessions;
    }

    method RunErase(addr: Addr, role: RoleInfo, rpcId: int) returns (rsp: Response)
      requires Valid() && IsRoleOf(role, addr)
      modifies redis, role
      ensures Valid()
      ensures Outcome(Memory(), rsp, redis.fates) == Serve(old(Memory()), addr, Erase(rpcId), old(redis.fates))
    {
      ghost var m, f := Memory(), redis.fates;
      CompleteStep(EraseClear(addr, rpcId), m, f, Ok, f);
      ghost var sessions := Advance(EraseClear(addr, rpcId), m, Ok).1.sessions;
      var service := new EraseRoleService(roleManager);
      rsp := service.Run(role, rpcId, sessions);
      assert roleManager.Sessions() == sessions;
    }

    /** The role is looked up, or made up for an unbound address, and handed to the command's service. */
    method Dispatch(addr: Addr, req: Request) returns (rsp: Response)
      requires Valid() && !req.Login? && !req.Register?
      modifies redis, roleManager.roles.Values
      ensures Valid()
      ensures Outcome(Memory(), rsp, redis.fates) == Serve(old(Memory()), addr, req, old(redis.fates))
    {
      var role := roleManager.GetRole(addr);
      if role == null {
        role := new RoleInfo(NO_ROLE);
      }
      if req.Query? {
        rsp := RunQuery(addr, role, req.rpcId);
      } else if req.Update? {
        rsp := RunUpdate(addr, role, req.report);
      } else {
        rsp := RunErase(addr, role, req.rpcId);
      }
    }

    /** One parsed request, answered exactly as the protocol machine answers it alone. */
    method Handle(addr: Addr, req: Request) returns (rsp: Response, answerer: Answerer)
      requires Valid()
      modifies redis, roleManager, roleManager.roles.Values
      ensures Valid() && fresh(roleManager.roles.Values - old(roleManager.roles.Values))
      ensures Outcome(Memory(), rsp, redis.fates) == Serve(old(Memory()), addr, req, old(redis.fates))
      ensures answerer == if req.Login? || req.Register? then RoleHandler else Dispatcher
    {
      answerer := RoleHandler;
      if req.Login? {
        rsp := LoginFrom(addr, req.who);
      } else if req.Register? {
        rsp := RegisterFrom(addr, req.who);
      } else {
        rsp := Dispatch(addr, req);
        answerer := Dispatcher;
      }
    }
  }
}

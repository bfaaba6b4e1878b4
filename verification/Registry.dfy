/**
 * The two command registries: services by command id, and request/response prototypes
 * by command id.  The serializer trusts the second, the dispatcher the first.
 */
module Registry {
  import opened MachineInts

  /** A service as far as dispatch is concerned: the message types it was instantiated with. */
  datatype Service = Service(name: string, request: string, response: string)

  datatype MethodData = MethodData(request: string, response: string)

  datatype Registries = Registries(sync: map<nat, Service>, async: map<nat, Service>, reflection: map<nat, MethodData>)

  const NONE := Registries(map[], map[], map[])

  datatype Registration = Registration(cmdId: nat, service: Service, isAsync: bool)

  /** CommandManager::IsValidCmd. */
  predicate IsValidCmd(r: Registries, cmdId: nat) {
    cmdId in r.sync || cmdId in r.async
  }

  /** What a register helper leaves behind when no assertion stops it. */
  function AfterRegister(r: Registries, reg: Registration): Registries {
    var r1 := if reg.isAsync then r.(async := r.async[reg.cmdId := reg.service])
              else r.(sync := r.sync[reg.cmdId := reg.service]);
    r1.(reflection := r.reflection[reg.cmdId := MethodData(reg.service.request, reg.service.response)])
  }

  /** Start-up: registrations in order; None when one of the two assertions fires. */
  function RegisterAll(regs: seq<Registration>): Option<Registries> {
    if regs == [] then Some(NONE)
    else
      var before := RegisterAll(regs[..|regs| - 1]);
      var reg := regs[|regs| - 1];
      if before.None? || IsValidCmd(before.value, reg.cmdId) || reg.cmdId in before.value.reflection then None
      else Some(AfterRegister(before.value, reg))
  }

  // ----- the managers -----

  class CommandManager {
    var sync: map<nat, Service>
    var async: map<nat, Service>

    constructor ()
      ensures sync == map[] && async == map[]
    {
      sync, async := map[], map[];
    }

    predicate IsValid(cmdId: nat)
      reads this
    {
      cmdId in sync || cmdId in async
    }

    method RegisterSyncCmd(cmdId: nat, service: Service) returns (inserted: bool)
      requires !IsValid(cmdId)
      modifies this`sync
      ensures inserted && sync == old(sync)[cmdId := service]
    {
      inserted := cmdId !in sync;
      if inserted {
        sync := sync[cmdId := service];
      }
    }

    method RegisterAsyncCmd(cmdId: nat, service: Service) returns (inserted: bool)
      requires !IsValid(cmdId)
      modifies this`async
      ensures inserted && async == old(async)[cmdId := service]
    {
      inserted := cmdId !in async;
      if inserted {
        async := async[cmdId := service];
      }
    }
  }

  class PbReflectionManager {
    var data: map<nat, MethodData>

    constructor ()
      ensures data == map[]
    {
      data := map[];
    }

    predicate IsValid(cmdId: nat)
      reads this
    {
      cmdId in data
    }

    method AddReflection(cmdId: nat, request: string, response: string) returns (inserted: bool)
      requires !IsValid(cmdId)
      modifies this
      ensures inserted && data == old(data)[cmdId := MethodData(request, response)]
    {
      inserted := cmdId !in data;
      if inserted {
        data := data[cmdId := MethodData(request, response)];
      }
    }
  }

  ghost function Contents(commands: CommandManager, reflection: PbReflectionManager): Registries
    reads commands, reflection
  {
    Registries(commands.sync, commands.async, reflection.data)
  }

  /** RegisterSyncCommand and RegisterAsyncCommand: one registry, then the other. */
  method RegisterCommand(commands: CommandManager, reflection: PbReflectionManager, reg: Registration) returns (ok: bool)
    requires !commands.IsValid(reg.cmdId) && !reflection.IsValid(reg.cmdId)
    modifies commands, reflection
    ensures ok && Contents(commands, reflection) == AfterRegister(old(Contents(commands, reflection)), reg)
  {
    if reg.isAsync {
      ok := commands.RegisterAsyncCmd(reg.cmdId, reg.service);
    } else {
      ok := commands.RegisterSyncCmd(reg.cmdId, reg.service);
    }
    if ok {
      ok := reflection.AddReflection(reg.cmdId, reg.service.request, reg.service.response);
    }
  }

  // ----- the two registries agree -----

  predicate DistinctIds(regs: seq<Registration>) {
    forall i, j :: 0 <= i < j < |regs| ==> regs[i].cmdId != regs[j].cmdId
  }

  function TypesOf(service: Service): MethodData {
    MethodData(service.request, service.response)
  }

  /** Prototypes exist for exactly the registered commands, each id is sync or async, and the types match. */
  predicate Consistent(r: Registries) {
    && r.sync.Keys !! r.async.Keys
    && r.reflection.Keys == r.sync.Keys + r.async.Keys
    && (forall id :: id in r.sync ==> id in r.reflection && r.reflection[id] == TypesOf(r.sync[id]))
    && (forall id :: id in r.async ==> id in r.reflection && r.reflection[id] == TypesOf(r.async[id]))
  }

  /** Where each registration ended up. */
  predicate Placed(r: Registries, reg: Registration) {
    if reg.isAsync then reg.cmdId in r.async && r.async[reg.cmdId] == reg.service
    else reg.cmdId in r.sync && r.sync[reg.cmdId] == reg.service
  }

  /**
   * Start-up succeeds exactly when the ids are pairwise distinct; then the registries are
   * consistent, every registration is in its place and nothing else is registered.
   */
  lemma {:induction false} RegistrationIsConsistent(regs: seq<Registration>)
    ensures RegisterAll(regs).Some? <==> DistinctIds(regs)
    ensures RegisterAll(regs).Some? ==>
              && Consistent(RegisterAll(regs).value)
              && (forall i :: 0 <= i < |regs| ==> Placed(RegisterAll(regs).value, regs[i]))
              && (forall id :: IsValidCmd(RegisterAll(regs).value, id) ==>
                    exists i :: 0 <= i < |regs| && regs[i].cmdId == id)
  {
    if regs != [] {
      var n := |regs| - 1;
      RegistrationIsConsistent(regs[..n]);
      assert DistinctIds(regs) ==> DistinctIds(regs[..n]);
      if RegisterAll(regs[..n]).Some? {
        var before := RegisterAll(regs[..n]).value;
        FreshMeansNew(before, regs, n);
        if !IsValidCmd(before, regs[n].cmdId) {
          ConsistentGrows(before, regs[n]);
          forall i | 0 <= i < n ensures Placed(AfterRegister(before, regs[n]), regs[i]) {
            assert Placed(before, regs[..n][i]);
          }
          forall id | IsValidCmd(AfterRegister(before, regs[n]), id)
            ensures exists i :: 0 <= i < |regs| && regs[i].cmdId == id
          {
            if id == regs[n].cmdId {
              assert regs[n].cmdId == id;
            } else {
              assert IsValidCmd(before, id);
              var i :| 0 <= i < n && regs[..n][i].cmdId == id;
              assert regs[i].cmdId == id;
            }
          }
        }
      }
    }
  }

  lemma FreshMeansNew(before: Registries, regs: seq<Registration>, n: nat)
    requires n + 1 == |regs| && DistinctIds(regs[..n])
    requires forall i :: 0 <= i < n ==> Placed(before, regs[..n][i])
    requires forall id :: IsValidCmd(before, id) ==> exists i :: 0 <= i < |regs[..n]| && regs[..n][i].cmdId == id
    ensures DistinctIds(regs) <==> !IsValidCmd(before, regs[n].cmdId)
  {
    var id := regs[n].cmdId;
    if IsValidCmd(before, id) {
      var i :| 0 <= i < n && regs[..n][i].cmdId == id;
      assert regs[i].cmdId == regs[n].cmdId;
    } else {
      forall i | 0 <= i < n ensures regs[i].cmdId != id {
        assert Placed(before, regs[..n][i]);
      }
      forall i, j | 0 <= i < j < |regs| ensures regs[i].cmdId != regs[j].cmdId {
        if j < n {
          assert regs[..n][i] == regs[i] && regs[..n][j] == regs[j];
        }
      }
    }
  }

  lemma ConsistentGrows(r: Registries, reg: Registration)
    requires Consistent(r) && !IsValidCmd(r, reg.cmdId)
    ensures Consistent(AfterRegister(r, reg)) && Placed(AfterRegister(r, reg), reg)
  {
    var r' := AfterRegister(r, reg);
    assert r'.reflection.Keys == r.reflection.Keys + {reg.cmdId};
    if reg.isAsync {
      assert r'.async.Keys == r.async.Keys + {reg.cmdId};
    } else {
      assert r'.sync.Keys == r.sync.Keys + {reg.cmdId};
    }
  }

  /**
   * A message that passed the serializer (its id has a prototype, its type is the
   * prototype's) meets the dispatcher's assertion and the decorator's downcast.
   */
  lemma SerializedMessagesDispatch(regs: seq<Registration>, cmdId: nat, messageType: string)
    requires DistinctIds(regs)
    requires var r := RegisterAll(regs);
             r.Some? && cmdId in r.value.reflection && r.value.reflection[cmdId].request == messageType
    ensures var r := RegisterAll(regs).value;
            && IsValidCmd(r, cmdId)
            && (cmdId in r.sync ==> r.sync[cmdId].request == messageType)
            && (cmdId in r.async ==> r.async[cmdId].request == messageType)
  {
    RegistrationIsConsistent(regs);
    var r := RegisterAll(regs).value;
    assert cmdId in r.reflection.Keys;
  }

  // ----- the server's own commands -----

  const LOGIN: nat := 101
  const REGISTER: nat := 103
  const QUERY_TASK: nat := 105
  const UPDATE_TASK: nat := 107
  const ERASE_ROLE: nat := 109

  const SERVER_COMMANDS: seq<Registration> := [
    Registration(LOGIN, Service("MinigameFakeLoginService", "LoginReq", "LoginRsp"), false),
    Registration(REGISTER, Service("MinigameRegisterService", "RegisterReq", "RegisterRsp"), false),
    Registration(QUERY_TASK, Service("TaskQueryService", "TaskQueryReq", "TaskQueryRsp"), false),
    Registration(UPDATE_TASK, Service("TaskUpdateService", "TaskUpdateReq", "TaskUpdateRsp"), false),
    Registration(ERASE_ROLE, Service("EraseRoleService", "EraseRoleReq", "EraseRoleRsp"), false)]

  /** The five commands end up registered as synchronous, each with its own message types, and nothing else does. */
  lemma ServerRegistry()
    ensures RegisterAll(SERVER_COMMANDS).Some? && Consistent(RegisterAll(SERVER_COMMANDS).value)
    ensures forall id :: id in RegisterAll(SERVER_COMMANDS).value.sync <==> id in [101, 103, 105, 107, 109]
    ensures RegisterAll(SERVER_COMMANDS).value.async == map[]
    ensures var types := RegisterAll(SERVER_COMMANDS).value.reflection;
            && 101 in types && types[101] == MethodData("LoginReq", "LoginRsp")
            && 103 in types && types[103] == MethodData("RegisterReq", "RegisterRsp")
            && 105 in types && types[105] == MethodData("TaskQueryReq", "TaskQueryRsp")
            && 107 in types && types[107] == MethodData("TaskUpdateReq", "TaskUpdateRsp")
            && 109 in types && types[109] == MethodData("EraseRoleReq", "EraseRoleRsp")
  {
    var regs := SERVER_COMMANDS;
    RegistrationIsConsistent(regs);
    SyncOnly(regs);
    var r := RegisterAll(regs).value;
    assert Placed(r, regs[0]) && Placed(r, regs[1]) && Placed(r, regs[2]) && Placed(r, regs[3]) && Placed(r, regs[4]);
    forall id | id in r.sync ensures id in [101, 103, 105, 107, 109] {
      assert IsValidCmd(r, id);
      var i :| 0 <= i < |regs| && regs[i].cmdId == id;
    }
  }

  lemma {:induction false} SyncOnly(regs: seq<Registration>)
    requires forall i :: 0 <= i < |regs| ==> !regs[i].isAsync
    ensures RegisterAll(regs).Some? ==> RegisterAll(regs).value.async == map[]
  {
    if regs != [] {
      SyncOnly(regs[..|regs| - 1]);
    }
  }
}

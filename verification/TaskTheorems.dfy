/**
 * Task progress: the read-modify-write updates and the queries implement a map from
 * player id to (finished set, last position), and one account's updates never reach
 * another's answers.
 */
module TaskTheorems {
  import opened MachineInts
  import opened Protocol
  import opened AccountTheorems
  import opened SequentialTheorems

  // ----- the abstract map, read off the history of stored reports -----

  predicate Reported(writes: seq<Written>, gid: int) {
    exists i :: 0 <= i < |writes| && writes[i].gid == gid
  }

  /** Every task id ever reported for this player. */
  function FinishedBy(writes: seq<Written>, gid: int): set<int> {
    set i, id | 0 <= i < |writes| && writes[i].gid == gid && id in writes[i].report.finished :: id
  }

  /** The latest report for this player. */
  function LastReport(writes: seq<Written>, gid: int): Report
    requires Reported(writes, gid)
  {
    var n := |writes| - 1;
    if writes[n].gid == gid then writes[n].report
    else
      assert Reported(writes[..n], gid) by {
        var i :| 0 <= i < |writes| && writes[i].gid == gid;
        assert writes[..n][i].gid == gid;
      }
      LastReport(writes[..n], gid)
  }

  lemma OneMoreWrite(writes: seq<Written>, w: Written, gid: int)
    ensures Reported(writes + [w], gid) <==> Reported(writes, gid) || w.gid == gid
    ensures FinishedBy(writes + [w], gid) ==
            FinishedBy(writes, gid) + if w.gid == gid then (set id | id in w.report.finished) else {}
    ensures Reported(writes + [w], gid) ==>
              LastReport(writes + [w], gid) == if w.gid == gid then w.report else LastReport(writes, gid)
  {
    var all, n := writes + [w], |writes|;
    assert all[..n] == writes && all[n] == w;
    if w.gid == gid {
      assert all[n].gid == gid;
    }
    if i :| 0 <= i < n && writes[i].gid == gid {
      assert all[i].gid == gid;
    }
    SameFinished(writes, w, gid);
  }

  lemma SameFinished(writes: seq<Written>, w: Written, gid: int)
    ensures FinishedBy(writes + [w], gid) ==
            FinishedBy(writes, gid) + if w.gid == gid then (set id | id in w.report.finished) else {}
  {
    var all, n := writes + [w], |writes|;
    forall id | id in FinishedBy(writes, gid) ensures id in FinishedBy(all, gid) {
      var i :| 0 <= i < n && writes[i].gid == gid && id in writes[i].report.finished;
      assert all[i] == writes[i];
    }
    if w.gid == gid {
      forall id | id in w.report.finished ensures id in FinishedBy(all, gid) {
        assert all[n] == w;
      }
    }
  }

  /** A stored entry is what the history says it should be. */
  ghost predicate EntryOk(m: Shared, writes: seq<Written>, gid: int) {
    && (gid in m.store.tasks <==> Reported(writes, gid))
    && (gid in m.store.tasks ==>
          var info, last := m.store.tasks[gid], LastReport(writes, gid);
          && Finished(info) == FinishedBy(writes, gid)
          && info.x == Truncate(last.x) && info.y == Truncate(last.y))
  }

  ghost predicate HistoryOk(s: State) {
    forall g :: EntryOk(s.m, s.writes, g)
  }

  /** The task ids the store holds for this player. */
  function StoredIds(m: Shared, gid: int): set<int> {
    if gid in m.store.tasks then Finished(m.store.tasks[gid]) else {}
  }

  function Ids(r: Report): set<int> {
    set id | id in r.finished
  }

  lemma FinishedApply(info: TaskInfo, r: Report)
    ensures Finished(ApplyReport(info, r)) == Finished(info) + Ids(r)
  {
  }

  lemma NothingReported(writes: seq<Written>, gid: int)
    requires !Reported(writes, gid)
    ensures FinishedBy(writes, gid) == {}
  {
  }

  lemma StoredIsReported(m: Shared, writes: seq<Written>, gid: int)
    requires EntryOk(m, writes, gid)
    ensures StoredIds(m, gid) == FinishedBy(writes, gid)
  {
    if gid !in m.store.tasks {
      NothingReported(writes, gid);
    }
  }

  /** Only task writes change task entries or the history. */
  lemma OtherActions(t: Thread, m: Shared, fate: Fate)
    requires !(t.UpdatePush? && fate.Ok?)
    ensures Advance(t, m, fate).1.store.tasks == m.store.tasks
    ensures Advance(t, m, fate).0.UpdatePush? ==> t.UpdatePull?
  {
  }

  lemma RunStep(es: seq<Event>, n: nat)
    requires n < |es|
    ensures Run(es[..n + 1]) == Next(Run(es[..n]), es[n])
  {
    assert es[..n + 1][..n] == es[..n];
  }

  // ----- exactly when the store follows the history -----

  /** The event stores a report. */
  predicate Stores(s: State, e: Event) {
    e.Act? && e.fate.Ok? && e.tid in s.threads && s.threads[e.tid].UpdatePush?
  }

  /** A stored write consists of what the store holds for the player and the report, no less and no more. */
  ghost predicate Builds(s: State, e: Event) {
    Stores(s, e) ==>
      var t := s.threads[e.tid];
      Finished(t.info) == StoredIds(s.m, t.session.playerId) + Ids(t.report)
  }

  ghost predicate Built(es: seq<Event>) {
    forall n :: 0 <= n < |es| ==> Builds(Run(es[..n]), es[n])
  }

  /** At every moment, every entry is the union of the stored reports with the last position. */
  ghost predicate Intact(es: seq<Event>) {
    forall n :: 0 <= n <= |es| ==> HistoryOk(Run(es[..n]))
  }

  /** Whatever an update read, what it is about to write holds its own report. */
  ghost predicate OwnReport(t: Thread) {
    t.UpdatePush? ==>
      Ids(t.report) <= Finished(t.info) && t.info.x == Truncate(t.report.x) && t.info.y == Truncate(t.report.y)
  }

  lemma AdvanceOwnReport(t: Thread, m: Shared, fate: Fate)
    requires OwnReport(t)
    ensures OwnReport(Advance(t, m, fate).0)
  {
  }

  lemma {:induction false} OwnReports(es: seq<Event>, tid: nat)
    requires tid in Run(es).threads
    ensures OwnReport(Run(es).threads[tid])
  {
    if es != [] {
      var n := |es| - 1;
      var s, e := Run(es[..n]), es[n];
      if tid in s.threads {
        OwnReports(es[..n], tid);
        if e.Act? && e.tid == tid {
          AdvanceOwnReport(s.threads[tid], s.m, e.fate);
        }
      }
    }
  }

  /** From a store that follows the history, one event keeps it so exactly when it builds on the store. */
  lemma StepIff(s: State, e: Event)
    requires HistoryOk(s) && (Stores(s, e) ==> OwnReport(s.threads[e.tid]))
    ensures HistoryOk(Next(s, e)) <==> Builds(s, e)
  {
    if Stores(s, e) {
      var t := s.threads[e.tid];
      WrittenIff(s, e.tid);
      forall g | g != t.session.playerId ensures EntryOk(Next(s, e).m, Next(s, e).writes, g) {
        OneMoreWrite(s.writes, Written(t.session.playerId, t.report), g);
        assert EntryOk(s.m, s.writes, g);
      }
    } else {
      if e.Act? && e.tid in s.threads {
        OtherActions(s.threads[e.tid], s.m, e.fate);
      }
      forall g ensures EntryOk(Next(s, e).m, Next(s, e).writes, g) {
        assert EntryOk(s.m, s.writes, g);
      }
    }
  }

  lemma WrittenIff(s: State, tid: nat)
    requires HistoryOk(s) && tid in s.threads && s.threads[tid].UpdatePush? && OwnReport(s.threads[tid])
    ensures var s' := Next(s, Act(tid, Ok));
            EntryOk(s'.m, s'.writes, s.threads[tid].session.playerId) <==> Builds(s, Act(tid, Ok))
  {
    var t := s.threads[tid];
    OneMoreWrite(s.writes, Written(t.session.playerId, t.report), t.session.playerId);
    assert EntryOk(s.m, s.writes, t.session.playerId);
    StoredIsReported(s.m, s.writes, t.session.playerId);
  }

  lemma StepIffAt(es: seq<Event>, n: nat)
    requires n < |es| && HistoryOk(Run(es[..n]))
    ensures HistoryOk(Run(es[..n + 1])) <==> Builds(Run(es[..n]), es[n])
  {
    RunStep(es, n);
    if Stores(Run(es[..n]), es[n]) {
      OwnReports(es[..n], es[n].tid);
    }
    StepIff(Run(es[..n]), es[n]);
  }

  lemma {:induction false} BuiltStaysOk(es: seq<Event>, n: nat)
    requires n <= |es| && forall k :: 0 <= k < n ==> Builds(Run(es[..k]), es[k])
    ensures HistoryOk(Run(es[..n]))
  {
    if n > 0 {
      BuiltStaysOk(es, n - 1);
      StepIffAt(es, n - 1);
    }
  }

  /**
   * The exact condition, over every interleaving and every pattern of failing commands,
   * failed reads included: all entries hold the union of the stored reports and the last
   * position at every moment if and only if every stored write consists of the entry it
   * replaces and its own report.
   */
  lemma IntactIffBuilt(es: seq<Event>)
    ensures Intact(es) <==> Built(es)
  {
    if Intact(es) {
      forall n | 0 <= n < |es| ensures Builds(Run(es[..n]), es[n]) {
        assert HistoryOk(Run(es[..n])) && HistoryOk(Run(es[..n + 1]));
        StepIffAt(es, n);
      }
    }
    if Built(es) {
      forall n | 0 <= n <= |es| ensures HistoryOk(Run(es[..n])) {
        BuiltStaysOk(es, n);
      }
    }
  }

  // ----- half of the condition is enough where reads are answered with data -----

  /** A write about to replace an entry lacks nothing that the entry holds. */
  ghost predicate Harmless(s: State, e: Event) {
    Stores(s, e) ==> StoredIds(s.m, s.threads[e.tid].session.playerId) <= Finished(s.threads[e.tid].info)
  }

  ghost predicate Lossless(es: seq<Event>) {
    forall n :: 0 <= n < |es| ==> Harmless(Run(es[..n]), es[n])
  }

  /** The event does not make an update read an error text as task data. */
  predicate ReadsWell(s: State, e: Event) {
    e.Act? && e.tid in s.threads && s.threads[e.tid].UpdatePull? ==> e.fate.Ok?
  }

  ghost predicate WellRead(es: seq<Event>) {
    forall n :: 0 <= n < |es| ==> ReadsWell(Run(es[..n]), es[n])
  }

  /** A pending write holds nothing that was never reported. */
  ghost predicate PendingSound(t: Thread, writes: seq<Written>) {
    t.UpdatePush? ==> Finished(t.info) <= FinishedBy(writes, t.session.playerId) + Ids(t.report)
  }

  ghost predicate PendingsSound(s: State) {
    forall tid :: tid in s.threads ==> PendingSound(s.threads[tid], s.writes)
  }

  lemma PullIsSound(s: State, tid: nat)
    requires HistoryOk(s) && tid in s.threads && s.threads[tid].UpdatePull?
    ensures PendingSound(Advance(s.threads[tid], s.m, Ok).0, s.writes)
  {
    var t := s.threads[tid];
    assert EntryOk(s.m, s.writes, t.session.playerId);
    FinishedApply(if t.session.playerId in s.m.store.tasks then s.m.store.tasks[t.session.playerId] else NO_TASKS, t.report);
  }

  lemma NextKeepsSound(s: State, e: Event)
    requires HistoryOk(s) && PendingsSound(s) && ReadsWell(s, e)
    ensures PendingsSound(Next(s, e))
  {
    if e.Act? && e.tid in s.threads {
      var t := s.threads[e.tid];
      if t.UpdatePush? && e.fate.Ok? {
        forall u | u in s.threads && u != e.tid && s.threads[u].UpdatePush?
          ensures PendingSound(s.threads[u], Next(s, e).writes)
        {
          assert PendingSound(s.threads[u], s.writes);
          OneMoreWrite(s.writes, Written(t.session.playerId, t.report), s.threads[u].session.playerId);
        }
      } else {
        OtherActions(t, s.m, e.fate);
        if t.UpdatePull? {
          PullIsSound(s, e.tid);
        }
      }
    }
  }

  lemma HarmlessBuilds(s: State, e: Event)
    requires HistoryOk(s) && PendingsSound(s) && (Stores(s, e) ==> OwnReport(s.threads[e.tid]))
    ensures Harmless(s, e) <==> Builds(s, e)
  {
    if Stores(s, e) {
      var gid := s.threads[e.tid].session.playerId;
      assert EntryOk(s.m, s.writes, gid) && PendingSound(s.threads[e.tid], s.writes);
      StoredIsReported(s.m, s.writes, gid);
    }
  }

  lemma {:induction false} LosslessBuilds(es: seq<Event>, n: nat)
    requires n <= |es| && WellRead(es) && Lossless(es)
    ensures HistoryOk(Run(es[..n])) && PendingsSound(Run(es[..n]))
    ensures forall k :: 0 <= k < n ==> Builds(Run(es[..k]), es[k])
  {
    if n > 0 {
      LosslessBuilds(es, n - 1);
      assert ReadsWell(Run(es[..n - 1]), es[n - 1]) && Harmless(Run(es[..n - 1]), es[n - 1]);
      LosslessStep(es, n - 1);
    }
  }

  lemma LosslessStep(es: seq<Event>, n: nat)
    requires n < |es| && ReadsWell(Run(es[..n]), es[n]) && Harmless(Run(es[..n]), es[n])
    requires HistoryOk(Run(es[..n])) && PendingsSound(Run(es[..n]))
    ensures HistoryOk(Run(es[..n + 1])) && PendingsSound(Run(es[..n + 1])) && Builds(Run(es[..n]), es[n])
  {
    if Stores(Run(es[..n]), es[n]) {
      OwnReports(es[..n], es[n].tid);
    }
    HarmlessBuilds(Run(es[..n]), es[n]);
    StepIffAt(es, n);
    RunStep(es, n);
    NextKeepsSound(Run(es[..n]), es[n]);
  }

  /**
   * Where no update reads an error text as task data, a write can only lose: then all
   * entries follow the history if and only if no write replaces an entry holding an id
   * that the write lacks.
   */
  lemma IntactIffLossless(es: seq<Event>)
    ensures Built(es) ==> Lossless(es)
    ensures WellRead(es) ==> (Intact(es) <==> Lossless(es))
  {
    IntactIffBuilt(es);
    if Built(es) {
      forall n | 0 <= n < |es| ensures Harmless(Run(es[..n]), es[n]) {
        assert Builds(Run(es[..n]), es[n]);
      }
    }
    if WellRead(es) && Lossless(es) {
      LosslessBuilds(es, |es|);
    }
  }

  // ----- runs in which updates of one player do not overlap -----

  /** A pending write builds on everything stored so far. */
  ghost predicate PendingOk(t: Thread, writes: seq<Written>) {
    t.UpdatePush? ==>
      && Finished(t.info) == FinishedBy(writes, t.session.playerId) + Ids(t.report)
      && t.info.x == Truncate(t.report.x) && t.info.y == Truncate(t.report.y)
  }

  ghost predicate TasksOk(s: State) {
    HistoryOk(s) && forall tid :: tid in s.threads ==> PendingOk(s.threads[tid], s.writes)
  }

  /** No two threads are between reading and writing the same player's entry. */
  ghost predicate OneWriter(s: State) {
    forall a, b :: a in s.threads && b in s.threads && a != b
                   && s.threads[a].UpdatePush? && s.threads[b].UpdatePush?
      ==> s.threads[a].session.playerId != s.threads[b].session.playerId
  }

  ghost predicate Orderly(es: seq<Event>) {
    forall n :: 0 <= n <= |es| ==> OneWriter(Run(es[..n]))
  }

  /** The update gets, up to its own report, the ids the store holds; a read answered with data always does. */
  ghost predicate ReadsRight(s: State, e: Event) {
    e.Act? && e.tid in s.threads && s.threads[e.tid].UpdatePull? ==>
      var t := s.threads[e.tid];
      Finished(Base(s.m, t.session.playerId, e.fate)) + Ids(t.report) ==
      StoredIds(s.m, t.session.playerId) + Ids(t.report)
  }

  ghost predicate RightReads(es: seq<Event>) {
    forall n :: 0 <= n < |es| ==> ReadsRight(Run(es[..n]), es[n])
  }

  ghost predicate AlwaysOk(es: seq<Event>) {
    forall n :: 0 <= n <= |es| ==> TasksOk(Run(es[..n]))
  }

  lemma PullIff(s: State, tid: nat, fate: Fate)
    requires HistoryOk(s) && tid in s.threads && s.threads[tid].UpdatePull?
    ensures PendingOk(Advance(s.threads[tid], s.m, fate).0, s.writes) <==> ReadsRight(s, Act(tid, fate))
  {
    var t := s.threads[tid];
    assert EntryOk(s.m, s.writes, t.session.playerId);
    StoredIsReported(s.m, s.writes, t.session.playerId);
    FinishedApply(Base(s.m, t.session.playerId, fate), t.report);
  }

  lemma PushIsOk(s: State, tid: nat)
    requires TasksOk(s) && OneWriter(s) && tid in s.threads && s.threads[tid].UpdatePush?
    ensures TasksOk(Next(s, Act(tid, Ok)))
  {
    var t := s.threads[tid];
    var w := Written(t.session.playerId, t.report);
    var s' := Next(s, Act(tid, Ok));
    forall g ensures EntryOk(s'.m, s'.writes, g) {
      OneMoreWrite(s.writes, w, g);
      assert EntryOk(s.m, s.writes, g);
    }
    forall u | u in s'.threads ensures PendingOk(s'.threads[u], s'.writes) {
      if u != tid && s.threads[u].UpdatePush? {
        OneMoreWrite(s.writes, w, s.threads[u].session.playerId);
      }
    }
  }

  lemma OrderlyStep(s: State, e: Event)
    requires TasksOk(s) && OneWriter(s)
    ensures TasksOk(Next(s, e)) <==> ReadsRight(s, e)
  {
    if Stores(s, e) {
      PushIsOk(s, e.tid);
    } else {
      if e.Act? && e.tid in s.threads {
        OtherActions(s.threads[e.tid], s.m, e.fate);
      }
      forall g ensures EntryOk(Next(s, e).m, Next(s, e).writes, g) {
        assert EntryOk(s.m, s.writes, g);
      }
      OtherPendings(s, e);
    }
  }

  lemma OtherPendings(s: State, e: Event)
    requires TasksOk(s) && !Stores(s, e)
    ensures (forall tid :: tid in Next(s, e).threads ==> PendingOk(Next(s, e).threads[tid], Next(s, e).writes)) <==>
            ReadsRight(s, e)
  {
    if e.Act? && e.tid in s.threads && s.threads[e.tid].UpdatePull? {
      PullIff(s, e.tid, e.fate);
      assert Next(s, e).threads[e.tid] == Advance(s.threads[e.tid], s.m, e.fate).0;
    }
  }

  lemma {:induction false} RightStaysOk(es: seq<Event>, n: nat)
    requires Orderly(es) && n <= |es| && RightReads(es)
    ensures TasksOk(Run(es[..n]))
  {
    if n > 0 {
      RightStaysOk(es, n - 1);
      RunStep(es, n - 1);
      assert OneWriter(Run(es[..n - 1])) && ReadsRight(Run(es[..n - 1]), es[n - 1]);
      OrderlyStep(Run(es[..n - 1]), es[n - 1]);
    }
  }

  /**
   * Over every interleaving in which updates of one player do not overlap, any commands
   * failing: all entries follow the history and every pending write builds on all of it,
   * at every moment, if and only if every update's read gave it the stored ids, up to its
   * own report.  Only a failed read, whose error text is parsed as data, can do otherwise.
   */
  lemma TasksAlwaysOk(es: seq<Event>)
    requires Orderly(es)
    ensures AlwaysOk(es) <==> RightReads(es)
    ensures WellRead(es) ==> RightReads(es)
  {
    if AlwaysOk(es) {
      forall n | 0 <= n < |es| ensures ReadsRight(Run(es[..n]), es[n]) {
        RunStep(es, n);
        assert OneWriter(Run(es[..n])) && TasksOk(Run(es[..n])) && TasksOk(Run(es[..n + 1]));
        OrderlyStep(Run(es[..n]), es[n]);
      }
    }
    if RightReads(es) {
      forall n | 0 <= n <= |es| ensures TasksOk(Run(es[..n])) {
        RightStaysOk(es, n);
      }
    }
    if WellRead(es) {
      forall n | 0 <= n < |es| ensures ReadsRight(Run(es[..n]), es[n]) {
        assert ReadsWell(Run(es[..n]), es[n]);
      }
    }
  }

  /** Updates that do not overlap and read what is stored lose nothing and add nothing. */
  lemma OrderlyIsLossless(es: seq<Event>)
    requires Orderly(es) && RightReads(es)
    ensures Built(es) && Lossless(es)
  {
    TasksAlwaysOk(es);
    assert Intact(es) by {
      forall n | 0 <= n <= |es| ensures HistoryOk(Run(es[..n])) {
        assert TasksOk(Run(es[..n]));
      }
    }
    IntactIffBuilt(es);
    IntactIffLossless(es);
  }

  // ----- queries -----

  /** The answer the history of stored reports calls for. */
  function HistoryAnswer(rpcId: int, writes: seq<Written>, gid: int): Response {
    if Reported(writes, gid) then
      var last := LastReport(writes, gid);
      QueryRsp(rpcId, Succeed, FinishedBy(writes, gid), Truncate(last.x) as real, Truncate(last.y) as real)
    else QueryRsp(rpcId, UnknownError, {}, 0.0, 0.0)
  }

  lemma SameWhole(a: int, b: int)
    ensures a as real == b as real <==> a == b
  {
  }

  lemma AnswerIff(m: Shared, writes: seq<Written>, gid: int, rpcId: int)
    ensures QueryAnswer(rpcId, PulledTasks(m, gid, Ok)) == HistoryAnswer(rpcId, writes, gid) <==> EntryOk(m, writes, gid)
  {
    if gid in m.store.tasks && Reported(writes, gid) {
      var info, last := m.store.tasks[gid], LastReport(writes, gid);
      SameWhole(info.x, Truncate(last.x));
      SameWhole(info.y, Truncate(last.y));
    }
  }

  lemma QueryStep(s: State, tid: nat, fate: Fate)
    requires tid in s.threads && s.threads[tid].QueryPull?
    ensures var t := s.threads[tid];
            Next(s, Act(tid, fate)).threads[tid] ==
            Done(QueryAnswer(t.rpcId, PulledTasks(s.m, t.session.playerId, fate)))
  {
  }

  /**
   * Refinement, over every interleaving and failure pattern.  A query whose read goes
   * through answers what the history calls for (success exactly when a report was stored,
   * all ids ever reported, the last position truncated) if and only if the entry follows
   * the history, and so always on runs whose writes build on the store.  A query whose
   * read fails reports success with whatever the error text parses to.
   */
  lemma QueriesAnswerTheHistory(es: seq<Event>, tid: nat, fate: Fate)
    requires tid in Run(es).threads && Run(es).threads[tid].QueryPull?
    ensures var s := Run(es);
            var t := s.threads[tid];
            var gid := t.session.playerId;
            var t' := Next(s, Act(tid, fate)).threads[tid];
            && (fate.Ok? ==> (t' == Done(HistoryAnswer(t.rpcId, s.writes, gid)) <==> EntryOk(s.m, s.writes, gid)))
            && (fate.Ok? && Built(es) ==> t' == Done(HistoryAnswer(t.rpcId, s.writes, gid)))
            && (fate.Err? ==> t' == Done(QueryRsp(t.rpcId, Succeed, Finished(fate.parsed),
                                                  fate.parsed.x as real, fate.parsed.y as real)))
  {
    var s := Run(es);
    var t := s.threads[tid];
    QueryStep(s, tid, fate);
    AnswerIff(s.m, s.writes, t.session.playerId, t.rpcId);
    if Built(es) {
      IntactIffBuilt(es);
      assert es[..|es|] == es;
      assert HistoryOk(s);
      assert EntryOk(s.m, s.writes, t.session.playerId);
    }
  }

  // ----- from arrival to answer -----

  lemma RunLast(es: seq<Event>, e: Event)
    ensures Run(es + [e]) == Next(Run(es), e)
  {
    InitOfAppend(es, [e]);
    assert es + [e][..0] == es;
  }

  lemma ActsThenWaits(es: seq<Event>, tid: nat, fate: Fate, more: seq<Event>)
    requires tid in Next(Run(es), Act(tid, fate)).threads && Idle(more, tid)
    ensures var s := Run(es + [Act(tid, fate)] + more);
            tid in s.threads && s.threads[tid] == Next(Run(es), Act(tid, fate)).threads[tid]
  {
    RunLast(es, Act(tid, fate));
    RunAppend(INITIAL, es + [Act(tid, fate)], more);
    Waits(Run(es + [Act(tid, fate)]), more, tid);
  }

  /**
   * A progress request that arrives and, whatever runs meanwhile, looks up its role gets the
   * role its address is bound to at that moment, or the empty one.
   */
  lemma LooksUp(es: seq<Event>, tid: nat, addr: Addr, req: Request, wait: seq<Event>, fate: Fate)
    requires tid !in Run(es).threads && Idle(wait, tid) && (req.Query? || req.Update?)
    ensures var s := Run(es + [Arrive(tid, addr, req)] + wait);
            var role := if addr in s.m.sessions then s.m.sessions[addr] else Role(0, false, "", 0);
            var s' := Next(s, Act(tid, fate));
            && tid in s'.threads && s'.m == s.m && s'.writes == s.writes
            && s'.threads[tid] == if req.Query? then QueryPull(req.rpcId, role) else UpdatePull(req.report, role)
  {
    RunLast(es, Arrive(tid, addr, req));
    RunAppend(INITIAL, es + [Arrive(tid, addr, req)], wait);
    Waits(Run(es + [Arrive(tid, addr, req)]), wait, tid);
  }

  /**
   * A query from its arrival, over every interleaving and failure pattern: other requests
   * run before it looks up its role (`wait`) and between that and its read (`between`).  The
   * answer is about the player its address is bound to at the lookup, player 0 if it is not
   * bound, as the reports stored by the time of the read call for it, exactly when that
   * entry follows the history; so always where writes build on the store.
   */
  lemma QueryFromArrival(es: seq<Event>, tid: nat, addr: Addr, rpcId: int, wait: seq<Event>, looks: Fate,
                         between: seq<Event>, fate: Fate)
    requires tid !in Run(es).threads && Idle(wait, tid) && Idle(between, tid)
    ensures var arrived := es + [Arrive(tid, addr, Query(rpcId))] + wait;
            var all := arrived + [Act(tid, looks)] + between;
            var s, gid := Run(all), PlayerOf(Run(arrived).m, addr);
            var s' := Next(s, Act(tid, fate));
            && tid in s'.threads && s'.m == s.m
            && (fate.Ok? ==> (s'.threads[tid] == Done(HistoryAnswer(rpcId, s.writes, gid)) <==> EntryOk(s.m, s.writes, gid)))
            && (fate.Ok? && Built(all) ==> s'.threads[tid] == Done(HistoryAnswer(rpcId, s.writes, gid)))
            && (fate.Err? ==> s'.threads[tid] == Done(QueryRsp(rpcId, Succeed, Finished(fate.parsed),
                                                              fate.parsed.x as real, fate.parsed.y as real)))
  {
    var arrived := es + [Arrive(tid, addr, Query(rpcId))] + wait;
    LooksUp(es, tid, addr, Query(rpcId), wait, looks);
    ActsThenWaits(arrived, tid, looks, between);
    QueriesAnswerTheHistory(arrived + [Act(tid, looks)] + between, tid, fate);
  }

  // ----- what one overlap costs -----

  lemma {:induction false} FinishedAppend(a: seq<Written>, b: seq<Written>, gid: int)
    ensures FinishedBy(a + b, gid) == FinishedBy(a, gid) + FinishedBy(b, gid)
  {
    if b == [] {
      assert a + b == a;
    } else {
      var n := |b| - 1;
      FinishedAppend(a, b[..n], gid);
      SameFinished(a + b[..n], b[n], gid);
      SameFinished(b[..n], b[n], gid);
      assert a + b == a + b[..n] + [b[n]];
      assert b == b[..n] + [b[n]];
    }
  }

  /**
   * What an overlap costs, exactly, however the read is answered: an update reads, any
   * requests whatever run meanwhile, then it writes.  The entry becomes what it read plus
   * its own report; so it is the union of all stored reports if and only if what it read
   * and reports is what was reported before the read, in between, and by it.  Where the
   * read gave it a right entry, that is: every id stored for the player in between was
   * read or is reported by it too.
   */
  lemma OverlapLoses(s: State, a: nat, more: seq<Event>, report: Report, session: Role, fate: Fate)
    requires a in s.threads && s.threads[a] == UpdatePull(report, session)
    requires Idle(more, a)
    ensures var gid := session.playerId;
            var read := Base(s.m, gid, fate);
            var before := RunFrom(Next(s, Act(a, fate)), more);
            var after := Next(before, Act(a, Ok));
            && s.writes <= before.writes
            && gid in after.m.store.tasks
            && after.m.store.tasks[gid] == ApplyReport(read, report)
            && Finished(after.m.store.tasks[gid]) == Finished(read) + Ids(report)
            && (Finished(after.m.store.tasks[gid]) == FinishedBy(after.writes, gid) <==>
                Finished(read) + Ids(report) ==
                FinishedBy(s.writes, gid) + FinishedBy(before.writes[|s.writes|..], gid) + Ids(report))
            && (fate.Ok? && EntryOk(s.m, s.writes, gid) ==>
                  (Finished(after.m.store.tasks[gid]) == FinishedBy(after.writes, gid) <==>
                   FinishedBy(before.writes[|s.writes|..], gid) <= Finished(read) + Ids(report)))
  {
    var gid := session.playerId;
    var read := Base(s.m, gid, fate);
    var mid := Next(s, Act(a, fate));
    ReadStep(s, a, report, session, fate);
    Waits(mid, more, a);
    WriteBack(RunFrom(mid, more), a, gid, s.writes, read, report);
  }

  lemma ReadStep(s: State, a: nat, report: Report, session: Role, fate: Fate)
    requires a in s.threads && s.threads[a] == UpdatePull(report, session)
    ensures var mid := Next(s, Act(a, fate));
            var read := Base(s.m, session.playerId, fate);
            && a in mid.threads && mid.threads[a] == UpdatePush(report, session, ApplyReport(read, report))
            && mid.writes == s.writes && mid.m == s.m
            && (fate.Ok? && EntryOk(s.m, s.writes, session.playerId) ==>
                  FinishedBy(s.writes, session.playerId) == Finished(read))
  {
    if EntryOk(s.m, s.writes, session.playerId) {
      StoredIsReported(s.m, s.writes, session.playerId);
    }
  }

  /** The write of a pending update, compared with the history at the time it read. */
  lemma WriteBack(before: State, a: nat, gid: int, seen: seq<Written>, read: TaskInfo, report: Report)
    requires a in before.threads && before.threads[a].UpdatePush? && before.threads[a].session.playerId == gid
    requires before.threads[a].report == report && before.threads[a].info == ApplyReport(read, report)
    requires seen <= before.writes
    ensures var after := Next(before, Act(a, Ok));
            && gid in after.m.store.tasks
            && after.m.store.tasks[gid] == ApplyReport(read, report)
            && Finished(after.m.store.tasks[gid]) == Finished(read) + Ids(report)
            && FinishedBy(after.writes, gid) ==
               FinishedBy(seen, gid) + FinishedBy(before.writes[|seen|..], gid) + Ids(report)
  {
    FinishedApply(read, report);
    var between := before.writes[|seen|..];
    assert before.writes == seen + between;
    FinishedAppend(seen, between, gid);
    SameFinished(before.writes, Written(gid, report), gid);
  }

  // ----- runs on which the store leaves the history -----

  /** A request comes in and looks up its role. */
  lemma StartUpdate(s: State, tid: nat, addr: Addr, report: Report) returns (es: seq<Event>)
    requires tid !in s.threads
    ensures RunFrom(s, es) == s.(threads := s.threads[tid := UpdatePull(report, SessionRole(s.m, addr))])
    ensures forall e :: e in es && e.Act? ==> e.fate.Ok?
    ensures |es| == 2
  {
    es := [Arrive(tid, addr, Update(report))] + ([Act(tid, Ok)] + []);
    var s1 := Next(s, Arrive(tid, addr, Update(report)));
    RunCons(s, Arrive(tid, addr, Update(report)), [Act(tid, Ok)] + []);
    RunCons(s1, Act(tid, Ok), []);
  }

  lemma OkIsWellRead(es: seq<Event>)
    requires forall e :: e in es && e.Act? ==> e.fate.Ok?
    ensures WellRead(es)
  {
  }

  lemma LastIsBad(es: seq<Event>, gid: int)
    requires !EntryOk(Run(es).m, Run(es).writes, gid)
    ensures !Intact(es)
  {
    assert es[..|es|] == es;
    assert !HistoryOk(Run(es));
  }

  /**
   * An update whose read fails stores what the error text parses to, plus its report.  A
   * right entry stays right if and only if the parsed ids are the stored ones, up to the
   * report.
   */
  lemma FailedReadIsStored(s: State, a: nat, report: Report, session: Role, parsed: TaskInfo)
    requires a in s.threads && s.threads[a] == UpdatePull(report, session)
    ensures var gid := session.playerId;
            var after := Next(Next(s, Act(a, Err(parsed))), Act(a, Ok));
            && after.writes == s.writes + [Written(gid, report)]
            && after.threads.Keys == s.threads.Keys
            && gid in after.m.store.tasks && after.m.store.tasks[gid] == ApplyReport(parsed, report)
            && (EntryOk(s.m, s.writes, gid) ==>
                  (EntryOk(after.m, after.writes, gid) <==>
                   Finished(parsed) + Ids(report) == StoredIds(s.m, gid) + Ids(report)))
  {
    var gid := session.playerId;
    ReadStep(s, a, report, session, Err(parsed));
    OneMoreWrite(s.writes, Written(gid, report), gid);
    FinishedApply(parsed, report);
    if EntryOk(s.m, s.writes, gid) {
      StoredIsReported(s.m, s.writes, gid);
    }
  }

  /**
   * A failed read stores what was never reported: from the empty store, one update whose
   * read is answered by an error text that parses to some other finished task.  Nothing is
   * lost and nothing overlaps, yet the entry is not what was reported.
   */
  lemma FailedReadAddsTasks(report: Report, parsed: TaskInfo, foreign: int) returns (es: seq<Event>)
    requires foreign in Finished(parsed) && foreign !in report.finished
    ensures !Intact(es) && |Run(es).threads| == 1
    ensures 0 in Run(es).m.store.tasks && foreign in Finished(Run(es).m.store.tasks[0])
    ensures Run(es).writes == [Written(0, report)]
  {
    var start := StartUpdate(INITIAL, 0, 0, report);
    es := start + [Act(0, Err(parsed)), Act(0, Ok)];
    TwoMore(start, Act(0, Err(parsed)), Act(0, Ok));
    AddsForeign(Run(start), report, parsed, foreign);
    LastIsBad(es, 0);
  }

  lemma AddsForeign(s: State, report: Report, parsed: TaskInfo, foreign: int)
    requires foreign in Finished(parsed) && foreign !in report.finished
    requires s.threads == map[0 := UpdatePull(report, NO_ROLE)] && s.m == EMPTY && s.writes == []
    ensures var after := Next(Next(s, Act(0, Err(parsed))), Act(0, Ok));
            && !EntryOk(after.m, after.writes, 0) && |after.threads| == 1
            && 0 in after.m.store.tasks && foreign in Finished(after.m.store.tasks[0])
            && after.writes == [Written(0, report)]
  {
    FailedReadIsStored(s, 0, report, NO_ROLE, parsed);
    FinishedApply(parsed, report);
    var after := Next(Next(s, Act(0, Err(parsed))), Act(0, Ok));
    assert foreign in Finished(parsed) + Ids(report) && foreign !in StoredIds(s.m, 0) + Ids(report);
    assert |after.threads.Keys| == 1;
  }

  lemma TwoMore(es: seq<Event>, e: Event, f: Event)
    ensures Run(es + [e, f]) == Next(Next(Run(es), e), f)
  {
    RunAppend(INITIAL, es, [e, f]);
    assert [e, f] == [e] + ([f] + []);
    RunCons(Run(es), e, [f] + []);
    RunCons(Next(Run(es), e), f, []);
  }

  /**
   * Overlap loses reports: from the empty store, with every command succeeding, two
   * unbound addresses update player 0, and the first to read is the last to write.
   */
  lemma OverlapLosesReports(r1: Report, r2: Report, lost: int) returns (es: seq<Event>)
    requires lost in r2.finished && lost !in r1.finished
    ensures WellRead(es) && !Intact(es)
    ensures lost in FinishedBy(Run(es).writes, 0)
    ensures 0 in Run(es).m.store.tasks && lost !in Finished(Run(es).m.store.tasks[0])
  {
    var start := TwoReaders(r1, r2);
    var more := [Act(1, Ok), Act(1, Ok)];
    LoseOne(Run(start), more, r1, r2, lost);
    var tail := [Act(0, Ok)] + (more + [Act(0, Ok)]);
    Unfold(Run(start), Act(0, Ok), more, Act(0, Ok));
    RunAppend(INITIAL, start, tail);
    es := start + tail;
    OkIsWellRead(es);
    LastIsBad(es, 0);
  }

  /** Two updates from unbound addresses that have looked up their roles. */
  lemma TwoReaders(r1: Report, r2: Report) returns (es: seq<Event>)
    ensures Run(es).m == EMPTY && Run(es).writes == []
    ensures 0 in Run(es).threads && Run(es).threads[0] == UpdatePull(r1, NO_ROLE)
    ensures 1 in Run(es).threads && Run(es).threads[1] == UpdatePull(r2, NO_ROLE)
    ensures forall e :: e in es && e.Act? ==> e.fate.Ok?
  {
    var a := StartUpdate(INITIAL, 0, 0, r1);
    var b := StartUpdate(Run(a), 1, 1, r2);
    RunAppend(INITIAL, a, b);
    es := a + b;
  }

  lemma LoseOne(s: State, more: seq<Event>, r1: Report, r2: Report, lost: int)
    requires lost in r2.finished && lost !in r1.finished
    requires s.m == EMPTY && s.writes == [] && more == [Act(1, Ok), Act(1, Ok)]
    requires 0 in s.threads && s.threads[0] == UpdatePull(r1, NO_ROLE)
    requires 1 in s.threads && s.threads[1] == UpdatePull(r2, NO_ROLE)
    ensures var after := Next(RunFrom(Next(s, Act(0, Ok)), more), Act(0, Ok));
            && lost in FinishedBy(after.writes, 0)
            && 0 in after.m.store.tasks && lost !in Finished(after.m.store.tasks[0])
  {
    var mid := Next(s, Act(0, Ok));
    OverlapLoses(s, 0, more, r1, NO_ROLE, Ok);
    ReadStep(s, 0, r1, NO_ROLE, Ok);
    Waits(mid, more, 0);
    SecondWrites(mid, more, r2);
    SameFinished([Written(0, r2)], Written(0, r1), 0);
    FirstFinished(r2, lost);
  }

  lemma FirstFinished(r: Report, id: int)
    requires id in r.finished
    ensures id in FinishedBy([Written(0, r)], 0)
  {
    SameFinished([], Written(0, r), 0);
    assert [] + [Written(0, r)] == [Written(0, r)];
  }

  lemma Unfold(s: State, e: Event, more: seq<Event>, f: Event)
    ensures RunFrom(s, [e] + (more + [f])) == Next(RunFrom(Next(s, e), more), f)
  {
    RunCons(s, e, more + [f]);
    InitOfAppend(more, [f]);
    assert more + [f][..0] == more;
  }

  lemma SecondWrites(mid: State, more: seq<Event>, r2: Report)
    requires more == [Act(1, Ok), Act(1, Ok)]
    requires 1 in mid.threads && mid.threads[1] == UpdatePull(r2, NO_ROLE) && mid.writes == []
    ensures RunFrom(mid, more).writes == [Written(0, r2)]
  {
    assert more == [Act(1, Ok)] + ([Act(1, Ok)] + []);
    RunCons(mid, Act(1, Ok), [Act(1, Ok)] + []);
    RunCons(Next(mid, Act(1, Ok)), Act(1, Ok), []);
  }

  // ----- isolation between accounts -----

  /** Event `i` of `more`, after `es`, stores a report sent through a session of the account `name`. */
  ghost predicate StoresFor(es: seq<Event>, more: seq<Event>, i: nat, name: string) {
    && i < |more| && more[i].Act? && more[i].fate.Ok?
    && var s := Run(es + more[..i]);
       && more[i].tid in s.threads && s.threads[more[i].tid].UpdatePush?
       && s.threads[more[i].tid].session.username == name
  }

  lemma IssuedStep(s: State, e: Event)
    ensures s.issued <= Next(s, e).issued && s.m.store.gid <= Next(s, e).m.store.gid
  {
  }

  lemma {:induction false} IssuedGrows(s: State, more: seq<Event>)
    ensures s.issued <= RunFrom(s, more).issued
    ensures s.m.store.gid <= RunFrom(s, more).m.store.gid
  {
    if more != [] {
      IssuedGrows(s, more[..|more| - 1]);
      IssuedStep(RunFrom(s, more[..|more| - 1]), more[|more| - 1]);
    }
  }

  lemma OwnedLater(issued: seq<string>, later: seq<string>, role: Role)
    requires issued <= later && Owned(issued, role)
    ensures Owned(later, role)
  {
    if c :| IssuedAs(issued, c, role.playerId, role.username) {
      assert IssuedAs(later, c, role.playerId, role.username);
    }
  }

  /** One event: an entry changes only through a session carrying the name its id was issued to. */
  lemma EventIsIsolated(s: State, e: Event, role: Role)
    requires IdsOwned(s) && |s.issued| <= TWO_32
    requires Owned(s.issued, role) && role.playerId != 0
    requires e.Act? && e.fate.Ok? && e.tid in s.threads && s.threads[e.tid].UpdatePush? ==>
               s.threads[e.tid].session.username != role.username
    ensures PulledTasks(Next(s, e).m, role.playerId, Ok) == PulledTasks(s.m, role.playerId, Ok)
  {
    if e.Act? && e.tid in s.threads {
      var t := s.threads[e.tid];
      if t.UpdatePush? && e.fate.Ok? {
        assert LocalOwned(s.issued, t);
        if t.session.playerId == role.playerId {
          SameIdSameName(s.issued, t.session, role);
        }
      } else {
        OtherActions(t, s.m, e.fate);
      }
    }
  }

  /**
   * Account isolation over whole runs: take any reachable state, any role of a named
   * account in it, and any continuation while the counter stays below 2^32.  Unless the
   * continuation stores a report sent through a session of that same account, every
   * query for the role's player id is answered from exactly the same data as before.
   */
  lemma {:induction false} AccountsAreIsolated(es: seq<Event>, more: seq<Event>, role: Role)
    requires Holds(Run(es), role) && role.username != "" && Run(es + more).m.store.gid < TWO_32
    requires forall i: nat :: !StoresFor(es, more, i, role.username)
    ensures PulledTasks(Run(es + more).m, role.playerId, Ok) == PulledTasks(Run(es).m, role.playerId, Ok)
  {
    if more == [] {
      assert es + more == es;
    } else {
      var n := |more| - 1;
      InitOfAppend(es, more);
      var mid := Run(es + more[..n]);
      RunAppend(INITIAL, es, more[..n]);
      IssuedGrows(mid, [more[n]]);
      assert [more[n]][..0] == [];
      assert RunFrom(mid, [more[n]]) == Run(es + more);
      forall i: nat ensures !StoresFor(es, more[..n], i, role.username) {
        if i < n {
          assert more[..n][..i] == more[..i];
          assert !StoresFor(es, more, i, role.username);
        }
      }
      AccountsAreIsolated(es, more[..n], role);
      LastEventIsolated(es, more, n, role);
    }
  }

  lemma LastEventIsolated(es: seq<Event>, more: seq<Event>, n: nat, role: Role)
    requires n + 1 == |more| && Holds(Run(es), role) && role.username != ""
    requires Run(es + more[..n]).m.store.gid < TWO_32
    requires !StoresFor(es, more, n, role.username)
    ensures var mid := Run(es + more[..n]);
            PulledTasks(Next(mid, more[n]).m, role.playerId, Ok) == PulledTasks(mid.m, role.playerId, Ok)
  {
    var mid := Run(es + more[..n]);
    RunAppend(INITIAL, es, more[..n]);
    IssuedGrows(Run(es), more[..n]);
    IdsAlwaysOwned(es);
    HeldIsOwned(Run(es), role);
    NamedRolesHaveIds(es, role);
    OwnedLater(Run(es).issued, mid.issued, role);
    IdsAlwaysOwned(es + more[..n]);
    EventIsIsolated(mid, more[n], role);
  }

  // ----- addresses without a role -----

  /** The address is not bound, or its role has been erased. */
  predicate Nobody(m: Shared, addr: Addr) {
    addr !in m.sessions || m.sessions[addr] == NO_ROLE
  }

  /** An update sent from this address that has not met a role. */
  predicate UpdateOfNobody(t: Thread, addr: Addr) {
    match t
    case UpdateStart(from, _) => from == addr
    case UpdatePull(_, session) => session == NO_ROLE
    case UpdatePush(_, session, _) => session == NO_ROLE
    case Done(_) => true
    case _ => false
  }

  lemma {:induction false} StaysNobody(s: State, more: seq<Event>, tid: nat, addr: Addr)
    requires tid in s.threads && UpdateOfNobody(s.threads[tid], addr)
    requires forall n :: 0 <= n <= |more| ==> Nobody(RunFrom(s, more[..n]).m, addr)
    ensures tid in RunFrom(s, more).threads && UpdateOfNobody(RunFrom(s, more).threads[tid], addr)
  {
    if more != [] {
      var n := |more| - 1;
      forall k | 0 <= k <= n ensures Nobody(RunFrom(s, more[..n][..k]).m, addr) {
        assert more[..n][..k] == more[..k];
      }
      StaysNobody(s, more[..n], tid, addr);
      assert Nobody(RunFrom(s, more[..n]).m, addr);
      NobodyStep(RunFrom(s, more[..n]), more[n], tid, addr);
    }
  }

  lemma NobodyStep(s: State, e: Event, tid: nat, addr: Addr)
    requires tid in s.threads && UpdateOfNobody(s.threads[tid], addr) && Nobody(s.m, addr)
    ensures tid in Next(s, e).threads && UpdateOfNobody(Next(s, e).threads[tid], addr)
  {
  }

  /**
   * Under every interleaving, an update sent from an address that stays unbound or erased
   * changes no entry but player 0's, at whatever moment its commands are executed.
   */
  lemma NobodyTouchesOnlyZero(s: State, more: seq<Event>, tid: nat, addr: Addr, fate: Fate, gid: int)
    requires tid in s.threads && s.threads[tid].UpdateStart? && s.threads[tid].addr == addr
    requires forall n :: 0 <= n <= |more| ==> Nobody(RunFrom(s, more[..n]).m, addr)
    requires gid != 0
    ensures var s' := RunFrom(s, more);
            PulledTasks(Next(s', Act(tid, fate)).m, gid, Ok) == PulledTasks(s'.m, gid, Ok)
  {
    StaysNobody(s, more, tid, addr);
  }

  /** Erasing is for good: from then on every update sent from the address touches only player 0. */
  lemma ErasedTouchesOnlyZero(s: State, more: seq<Event>, tid: nat, addr: Addr, fate: Fate, gid: int)
    requires addr in s.m.sessions && s.m.sessions[addr] == NO_ROLE
    requires tid in s.threads && s.threads[tid].UpdateStart? && s.threads[tid].addr == addr
    requires gid != 0
    ensures var s' := RunFrom(s, more);
            PulledTasks(Next(s', Act(tid, fate)).m, gid, Ok) == PulledTasks(s'.m, gid, Ok)
  {
    forall n | 0 <= n <= |more| ensures Nobody(RunFrom(s, more[..n]).m, addr) {
      BindingLasts(s, more[..n], addr);
    }
    NobodyTouchesOnlyZero(s, more, tid, addr, fate, gid);
  }

  /** The same for an update that arrives any time later. */
  lemma LaterUpdatesTouchOnlyZero(s: State, more: seq<Event>, j: nat, report: Report, fate: Fate, gid: int)
    requires j < |more| && more[j].Arrive? && more[j].req == Update(report)
    requires more[j].addr in s.m.sessions && s.m.sessions[more[j].addr] == NO_ROLE
    requires more[j].tid !in RunFrom(s, more[..j]).threads && gid != 0
    ensures var s' := RunFrom(s, more);
            PulledTasks(Next(s', Act(more[j].tid, fate)).m, gid, Ok) == PulledTasks(s'.m, gid, Ok)
  {
    Arrived(s, more, j, report);
    BindingLasts(s, more[..j + 1], more[j].addr);
    RunSplit(s, more, j + 1);
    ErasedTouchesOnlyZero(RunFrom(s, more[..j + 1]), more[j + 1..], more[j].tid, more[j].addr, fate, gid);
  }

  lemma RunSplit(s: State, more: seq<Event>, j: nat)
    requires j <= |more|
    ensures RunFrom(s, more) == RunFrom(RunFrom(s, more[..j]), more[j..])
  {
    assert more == more[..j] + more[j..];
    RunAppend(s, more[..j], more[j..]);
  }

  lemma Arrived(s: State, more: seq<Event>, j: nat, report: Report)
    requires j < |more| && more[j].Arrive? && more[j].req == Update(report)
    requires more[j].tid !in RunFrom(s, more[..j]).threads
    ensures var s' := RunFrom(s, more[..j + 1]);
            more[j].tid in s'.threads && s'.threads[more[j].tid] == UpdateStart(more[j].addr, report)
  {
    assert more[..j + 1][..j] == more[..j];
  }
}

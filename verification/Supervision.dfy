/** `ManagedProcess` over a kernel that recycles process ids: signals reach only the child
    it started, or the process group that child leads. */
module Supervision {
  import opened Options

  type Pid = nat

  /** A process. `uid` tells incarnations apart when a pid is recycled, and `founder` is the
      uid of the process that created the group the process is in. */
  datatype Process = Process(uid: nat, pgid: Pid, founder: nat, zombie: bool)

  /** Unreaped processes by pid, and the uid the next process gets. */
  datatype Table = Table(procs: map<Pid, Process>, next: nat)

  const MAX_PID: nat := 0x7FFF_FFFF

  // ----- the kernel

  ghost predicate TableOk(t: Table) {
    && (forall p :: p in t.procs ==> t.procs[p].uid < t.next)
    && (forall p, q :: p in t.procs && q in t.procs ==> Coexist(t.procs[p], p, t.procs[q], q))
  }

  /** What any two entries of the table satisfy: incarnations differ, the members of a group
      agree on who founded it, and a pid in use names the founder of the group with that id. */
  predicate Coexist(a: Process, p: Pid, b: Process, q: Pid) {
    && (a.uid == b.uid ==> p == q)
    && (a.pgid == b.pgid ==> a.founder == b.founder)
    && (a.pgid == q ==> a.founder == b.uid)
  }

  /** What other processes do. A pid is handed out only when no unreaped process has it and
      no process is in a group with that id. */
  datatype KernelEvent =
    | Forks(parent: Pid, child: Pid)
    | Exits(pid: Pid)
    | Reaps(pid: Pid)
    | Founds(pid: Pid)
    | Joins(pid: Pid, member: Pid)

  predicate Enabled(t: Table, e: KernelEvent) {
    match e
    case Forks(parent, child) =>
      && parent in t.procs && !t.procs[parent].zombie && child !in t.procs
      && forall q :: q in t.procs ==> t.procs[q].pgid != child
    case Exits(pid) => pid in t.procs
    case Reaps(pid) => pid in t.procs && t.procs[pid].zombie
    case Founds(pid) => pid in t.procs && !t.procs[pid].zombie
    case Joins(pid, member) => pid in t.procs && !t.procs[pid].zombie && member in t.procs
  }

  function Happened(t: Table, e: KernelEvent): Table
    requires Enabled(t, e)
  {
    match e
    case Forks(parent, child) =>
      var p := t.procs[parent];
      Table(t.procs[child := Process(t.next, p.pgid, p.founder, false)], t.next + 1)
    case Exits(pid) => t.(procs := t.procs[pid := t.procs[pid].(zombie := true)])
    case Reaps(pid) => t.(procs := t.procs - {pid})
    case Founds(pid) => t.(procs := t.procs[pid := t.procs[pid].(pgid := pid, founder := t.procs[pid].uid)])
    case Joins(pid, member) =>
      t.(procs := t.procs[pid := t.procs[pid].(pgid := t.procs[member].pgid, founder := t.procs[member].founder)])
  }

  /** Only a wait on the child's own handle reaps it. */
  predicate Spares(t: Table, e: KernelEvent, uid: nat) {
    e.Reaps? && e.pid in t.procs ==> t.procs[e.pid].uid != uid
  }

  /** The pid names the child, and everyone in the group with that id is in the child's group. */
  ghost predicate Pinned(t: Table, pid: Pid, uid: nat) {
    && pid in t.procs && t.procs[pid].uid == uid
    && forall q :: q in t.procs && t.procs[q].pgid == pid ==> t.procs[q].founder == uid
  }

  lemma EventKeepsTable(t: Table, e: KernelEvent)
    requires TableOk(t) && Enabled(t, e)
    ensures TableOk(Happened(t, e))
  {
    var t' := Happened(t, e);
    forall p, q | p in t'.procs && q in t'.procs
      ensures Coexist(t'.procs[p], p, t'.procs[q], q)
    {
      match e {
        case Forks(parent, child) =>
          assert Coexist(t.procs[parent], parent, t.procs[if q == child then parent else q], if q == child then parent else q);
          assert Coexist(t.procs[if p == child then parent else p], if p == child then parent else p, t.procs[parent], parent);
          assert p != child && q != child ==> Coexist(t.procs[p], p, t.procs[q], q);
        case Joins(pid, member) =>
          assert Coexist(t.procs[p], p, t.procs[q], q);
          assert Coexist(t.procs[member], member, t.procs[q], q);
          assert Coexist(t.procs[p], p, t.procs[member], member);
        case _ =>
          assert Coexist(t.procs[p], p, t.procs[q], q);
      }
    }
  }

  /** The table after a run of events; events the kernel would refuse are skipped. */
  ghost function After(t: Table, events: seq<KernelEvent>): Table
    decreases events
  {
    if events == [] then t
    else if Enabled(t, events[0]) then After(Happened(t, events[0]), events[1..])
    else After(t, events[1..])
  }

  ghost predicate AllSpare(t: Table, events: seq<KernelEvent>, uid: nat)
    decreases events
  {
    events == [] ||
    (Spares(t, events[0], uid) &&
     AllSpare(if Enabled(t, events[0]) then Happened(t, events[0]) else t, events[1..], uid))
  }

  /** Until the child is reaped its pid and group id cannot come to mean anything else. */
  lemma {:induction false} UnreapedStaysPinned(t: Table, events: seq<KernelEvent>, pid: Pid, uid: nat)
    requires TableOk(t) && pid in t.procs && t.procs[pid].uid == uid
    requires AllSpare(t, events, uid)
    ensures TableOk(After(t, events)) && Pinned(After(t, events), pid, uid)
    decreases events
  {
    if events != [] {
      if Enabled(t, events[0]) {
        EventKeepsTable(t, events[0]);
        UnreapedStaysPinned(Happened(t, events[0]), events[1..], pid, uid);
      } else {
        UnreapedStaysPinned(t, events[1..], pid, uid);
      }
    }
  }

  /** Once it is reaped they can: the very next process may get the pid. */
  lemma ReapedPidIsRecycled()
    ensures
      var child := Process(1, 7, 1, true);
      var t := Table(map[3 := Process(0, 3, 0, false), 7 := child], 2);
      && TableOk(t) && Pinned(t, 7, 1)
      && AllSpare(t, [Reaps(7), Forks(3, 7)], 0)
      && 7 in After(t, [Reaps(7), Forks(3, 7)]).procs
      && !Pinned(After(t, [Reaps(7), Forks(3, 7)]), 7, 1)
  {
    var t := Table(map[3 := Process(0, 3, 0, false), 7 := Process(1, 7, 1, true)], 2);
    var t1 := Happened(t, Reaps(7));
    assert t1.procs == map[3 := Process(0, 3, 0, false)];
    assert Enabled(t1, Forks(3, 7));
    var t2 := Happened(t1, Forks(3, 7));
    assert [Reaps(7), Forks(3, 7)][1..] == [Forks(3, 7)];
    assert [Forks(3, 7)][1..] == [];
    assert After(t1, [Forks(3, 7)]) == After(t2, []);
    assert t2.procs[7].uid == 2;
  }

  /** A signal that reached a process: which one, and whose group it was in. */
  datatype Delivery = Delivery(uid: nat, founder: nat)

  class Kernel {
    var table: Table
    var reached: set<Delivery>

    constructor (t: Table)
      ensures table == t && reached == {}
    {
      table, reached := t, {};
    }

    /** `kill`: whoever has the pid now. */
    method Kill(pid: Pid, denied: bool) returns (ok: bool)
      modifies this`reached
      ensures table == old(table) && ok == !denied
      ensures reached == old(reached) + if denied || pid !in table.procs then {} else {Delivery(table.procs[pid].uid, table.procs[pid].founder)}
    {
      if !denied && pid in table.procs {
        reached := reached + {Delivery(table.procs[pid].uid, table.procs[pid].founder)};
      }
      ok := !denied;
    }

    /** `killpg`: everyone in the group now. A group without members is not an error. */
    method KillGroup(group: Pid, denied: bool) returns (ok: bool)
      modifies this`reached
      ensures table == old(table) && ok == !denied
      ensures reached == old(reached) + if denied then {} else
                         (set q | q in table.procs && table.procs[q].pgid == group :: Delivery(table.procs[q].uid, table.procs[q].founder))
    {
      if !denied {
        reached := reached + set q | q in table.procs && table.procs[q].pgid == group :: Delivery(table.procs[q].uid, table.procs[q].founder);
      }
      ok := !denied;
    }
  }

  // ----- the supervised process

  datatype SignalError = AlreadyReaped | NoGroup | PidTooLarge | PidZero | Denied

  class ManagedProcess {
    const pid: Pid
    // which incarnation of the pid the child is; the program itself never sees this
    const uid: nat
    var processGroup: Option<Pid>
    var reaped: bool
    // the exit status the child handle remembers once it has reaped
    var status: Option<int>

    ghost predicate Valid(k: Kernel)
      reads this, k
    {
      && TableOk(k.table)
      && (reaped <==> status.Some?)
      && (!reaped ==> Pinned(k.table, pid, uid))
      && (processGroup.Some? ==> processGroup.value == pid)
    }

    /** Everyone reached so far is the child or in the group it founded. */
    ghost predicate Safe(k: Kernel)
      reads this, k
    {
      forall d :: d in k.reached ==> d.uid == uid || d.founder == uid
    }

    /** A freshly spawned child, as a group leader or (for a session candidate) not yet. */
    constructor (k: Kernel, child: Pid, leads: bool)
      requires TableOk(k.table) && child in k.table.procs && k.reached == {}
      requires leads ==> k.table.procs[child].pgid == child
      ensures Valid(k) && Safe(k) && !reaped && pid == child
      ensures processGroup == if leads then Some(child) else None
    {
      pid, uid := child, k.table.procs[child].uid;
      processGroup, reaped, status := if leads then Some(child) else None, false, None;
    }

    /** `confirm_session`: no reaped check, so after a reap it may look at a stranger. */
    method ConfirmSession(k: Kernel) returns (ok: bool)
      requires Valid(k)
      modifies this`processGroup
      ensures Valid(k)
      ensures ok <==> pid <= MAX_PID && pid in k.table.procs && k.table.procs[pid].pgid == pid
      ensures processGroup == if ok then Some(pid) else old(processGroup)
      ensures ok && !reaped ==> k.table.procs[pid].founder == uid
    {
      if pid > MAX_PID || pid !in k.table.procs || k.table.procs[pid].pgid != pid {
        return false;
      }
      processGroup := Some(pid);
      ok := true;
    }

    /** `observe_exit`: an exit is seen without being reaped. */
    method ObserveExit(k: Kernel, denied: bool) returns (exited: Result<bool, SignalError>)
      requires Valid(k)
      ensures exited.Ok? ==> (exited.value <==> reaped || k.table.procs[pid].zombie)
      ensures exited.Err? <==> !reaped && (pid > MAX_PID || pid == 0 || denied)
    {
      if reaped {
        return Ok(true);
      }
      if pid > MAX_PID {
        return Err(PidTooLarge);
      }
      if pid == 0 {
        return Err(PidZero);
      }
      exited := if denied then Err(Denied) else Ok(k.table.procs[pid].zombie);
    }

    /** `try_wait`, `wait` and `wait_timeout`: they differ only in how long they block, so one
        step serves all three. A remembered status is returned again; a zombie child is
        reaped; a running one gives nothing (for `wait`: the call is still blocked). */
    method Reap(k: Kernel, fails: bool, code: int) returns (r: Option<int>)
      requires Valid(k)
      modifies this`reaped, this`status, k`table
      ensures Valid(k)
      ensures old(reaped) ==> reaped && r == status == old(status) && k.table == old(k.table)
      ensures !old(reaped) && !fails && old(k.table).procs[pid].zombie ==>
                reaped && r == status == Some(code) && k.table == Happened(old(k.table), Reaps(pid))
      ensures !old(reaped) && (fails || !old(k.table).procs[pid].zombie) ==>
                !reaped && r == None && k.table == old(k.table)
    {
      if status.Some? {
        return status;
      }
      if fails || !k.table.procs[pid].zombie {
        return None;
      }
      EventKeepsTable(k.table, Reaps(pid));
      k.table := k.table.(procs := k.table.procs - {pid});
      reaped, status := true, Some(code);
      r := status;
    }

    /** `signal_process`. */
    method SignalProcess(k: Kernel, denied: bool) returns (r: Result<(), SignalError>)
      requires Valid(k) && Safe(k)
      modifies k`reached
      ensures Valid(k) && Safe(k)
      ensures r == if reaped then Err(AlreadyReaped) else if pid > MAX_PID then Err(PidTooLarge)
                   else if denied then Err(Denied) else Ok(())
      ensures r.Ok? ==> k.reached == old(k.reached) + {Delivery(uid, k.table.procs[pid].founder)}
      ensures r.Err? ==> k.reached == old(k.reached)
    {
      if reaped {
        return Err(AlreadyReaped);
      }
      if pid > MAX_PID {
        return Err(PidTooLarge);
      }
      var ok := k.Kill(pid, denied);
      r := if ok then Ok(()) else Err(Denied);
    }

    /** `signal_group`. */
    method SignalGroup(k: Kernel, denied: bool) returns (r: Result<(), SignalError>)
      requires Valid(k) && Safe(k)
      modifies k`reached
      ensures Valid(k) && Safe(k)
      ensures r == if reaped then Err(AlreadyReaped) else if processGroup.None? then Err(NoGroup)
                   else if pid > MAX_PID then Err(PidTooLarge) else if denied then Err(Denied) else Ok(())
      ensures r.Ok? ==> forall q :: q in k.table.procs && k.table.procs[q].pgid == pid ==>
                                      Delivery(k.table.procs[q].uid, uid) in k.reached
      ensures r.Ok? ==> forall d :: d in k.reached && d !in old(k.reached) ==> d.founder == uid
      ensures r.Err? ==> k.reached == old(k.reached)
    {
      if reaped {
        return Err(AlreadyReaped);
      }
      if processGroup.None? {
        return Err(NoGroup);
      }
      var group := processGroup.value;
      if group > MAX_PID {
        return Err(PidTooLarge);
      }
      var ok := k.KillGroup(group, denied);
      r := if ok then Ok(()) else Err(Denied);
    }
  }

  /** A call on the supervised process, or something another process does. */
  datatype Event =
    | World(e: KernelEvent)
    | Observe(denied: bool)
    | Wait(fails: bool, code: int)
    | Confirm
    | Signal(denied: bool)
    | SignalAll(denied: bool)

  /** One event; only a wait on the child's own handle may reap the child. */
  method Perform(k: Kernel, m: ManagedProcess, event: Event)
    requires m.Valid(k) && m.Safe(k)
    modifies k, m
    ensures m.Valid(k) && m.Safe(k)
    ensures old(m.reaped) ==> m.reaped && k.reached == old(k.reached)
    ensures !event.Wait? ==> m.reaped == old(m.reaped)
  {
    match event {
      case World(e) =>
        if Enabled(k.table, e) && (m.reaped || Spares(k.table, e, m.uid)) {
          EventKeepsTable(k.table, e);
          if !m.reaped {
            assert AllSpare(k.table, [e], m.uid) by {
              assert [e][1..] == [];
            }
            UnreapedStaysPinned(k.table, [e], m.pid, m.uid);
            assert After(k.table, [e]) == Happened(k.table, e) by {
              assert [e][1..] == [];
            }
          }
          k.table := Happened(k.table, e);
        }
      case Observe(denied) =>
        var _ := m.ObserveExit(k, denied);
      case Wait(fails, code) =>
        var _ := m.Reap(k, fails, code);
      case Confirm =>
        var _ := m.ConfirmSession(k);
      case Signal(denied) =>
        var _ := m.SignalProcess(k, denied);
      case SignalAll(denied) =>
        var _ := m.SignalGroup(k, denied);
    }
  }

  /** Any sequence of calls and any behaviour of the rest of the system. */
  method Run(k: Kernel, m: ManagedProcess, events: seq<Event>)
    requires m.Valid(k) && m.Safe(k)
    modifies k, m
    ensures m.Valid(k) && m.Safe(k)
    ensures old(m.reaped) ==> m.reaped && k.reached == old(k.reached)
    ensures (forall i :: 0 <= i < |events| ==> !events[i].Wait?) ==> m.reaped == old(m.reaped)
  {
    for i := 0 to |events|
      invariant m.Valid(k) && m.Safe(k)
      invariant old(m.reaped) ==> m.reaped && k.reached == old(k.reached)
      invariant (forall j :: 0 <= j < i ==> !events[j].Wait?) ==> m.reaped == old(m.reaped)
    {
      Perform(k, m, events[i]);
    }
  }
}

/** Host ports for containers: placeholder listeners reserve ports at creation, and are closed
    at start so that Docker can bind them. All lifecycles of the process interleave freely,
    one step of one of them at a time. */
module Ports {
  type Port = p: nat | p < 65536
  type Id = nat

  /** Where a lifecycle stands. */
  datatype Phase =
    | Fresh                          // nothing requested yet
    | Allocating                     // in GeneratePortBindings, between two ports
    | Choosing                       // in openListenerOnFreePort, write lock held
    | Chosen                         // the listener is open, write lock still held
    | Refused                        // ListenTCP failed, write lock still held
    | Aborting                       // closing the listeners it had, after an error
    | Pending                        // container created, listeners open
    | Starting                       // in StartContainer, read lock held
    | Running
    | Ended

  /** `asked` is the number of ports requested, `left` of those still to be found; `promised` are
      the host ports in the container's port map, `open` its listeners that are still open, `taken`
      the ports Docker has bound for it. */
  datatype Lifecycle =
    Lifecycle(phase: Phase, asked: nat, left: nat, promised: set<Port>, open: set<Port>, taken: set<Port>)

  /** The RWMutex as reader count and writer flag, and the ports in use on the host. */
  datatype State = State(all: map<Id, Lifecycle>, readers: nat, writer: bool, listened: set<Port>, bound: set<Port>)

  datatype Step =
    | Create(ports: nat)
    | Lock
    | Listen(p: Port)
    | ListenFails
    | Unlock
    | Close(p: Port)
    | AbortDone
    | Created
    | CreateFails
    | RLock
    | Bind(p: Port)
    | StartOk
    | StartFails
    | Stop

  /** Whether lifecycle i may take the step now. The operating system hands out no port that is
      listened on or bound; locks are granted as the RWMutex grants them. That a port to be
      bound is free is not required here: it is proved. */
  predicate Enabled(s: State, i: Id, step: Step)
  {
    i in s.all &&
    var c := s.all[i];
    match step
    case Create(_) => c.phase == Fresh
    case Lock => c.phase == Allocating && c.left > 0 && !s.writer && s.readers == 0
    case Listen(p) => c.phase == Choosing && c.left > 0 && p !in s.listened && p !in s.bound
    case ListenFails => c.phase == Choosing
    case Unlock => c.phase == Chosen || c.phase == Refused
    case Close(p) => (c.phase == Aborting || c.phase == Starting) && p in c.open
    case AbortDone => c.phase == Aborting && c.open == {}
    case Created => c.phase == Allocating && c.left == 0
    case CreateFails => c.phase == Allocating && c.left == 0
    case RLock => c.phase == Pending && !s.writer
    case Bind(p) => c.phase == Starting && c.open == {} && p in c.promised - c.taken
    case StartOk => c.phase == Starting && c.open == {} && c.taken == c.promised
    case StartFails => c.phase == Starting && c.open == {}
    case Stop => c.phase == Running
  }

  const GONE: Lifecycle := Lifecycle(Ended, 0, 0, {}, {}, {})

  function After(s: State, i: Id, step: Step): State
    requires i in s.all
  {
    var c := s.all[i];
    match step
    case Create(ports) => s.(all := s.all[i := c.(phase := Allocating, asked := ports, left := ports)])
    case Lock => s.(all := s.all[i := c.(phase := Choosing)], writer := true)
    case Listen(p) =>
      s.(all := s.all[i := c.(phase := Chosen, left := if c.left > 0 then c.left - 1 else 0,
                              promised := c.promised + {p}, open := c.open + {p})],
         listened := s.listened + {p})
    case ListenFails => s.(all := s.all[i := c.(phase := Refused)])
    case Unlock =>
      s.(all := s.all[i := if c.phase == Chosen then c.(phase := Allocating)
                           else c.(phase := Aborting, promised := {})],
         writer := false)
    case Close(p) => s.(all := s.all[i := c.(open := c.open - {p})], listened := s.listened - {p})
    case AbortDone => s.(all := s.all[i := GONE])
    case Created => s.(all := s.all[i := c.(phase := Pending)])
    case CreateFails => s.(all := s.all[i := c.(phase := Aborting, promised := {})])
    case RLock => s.(all := s.all[i := c.(phase := Starting)], readers := s.readers + 1)
    case Bind(p) => s.(all := s.all[i := c.(taken := c.taken + {p})], bound := s.bound + {p})
    case StartOk =>
      s.(all := s.all[i := c.(phase := Running)], readers := if s.readers > 0 then s.readers - 1 else 0)
    case StartFails =>
      s.(all := s.all[i := GONE], bound := s.bound - c.taken, readers := if s.readers > 0 then s.readers - 1 else 0)
    case Stop => s.(all := s.all[i := GONE], bound := s.bound - c.taken)
  }

  // ---------------------------------------------------------------- invariant

  predicate HoldsWrite(c: Lifecycle)
  {
    c.phase == Choosing || c.phase == Chosen || c.phase == Refused
  }

  function Held(c: Lifecycle): set<Port>
  {
    c.promised + c.open + c.taken
  }

  /** How the port sets of a lifecycle relate in each phase. */
  predicate Consistent(c: Lifecycle)
  {
    match c.phase
    case Fresh => c == Lifecycle(Fresh, c.asked, c.left, {}, {}, {})
    case Ended => c == GONE
    case Aborting => c.promised == {} && c.taken == {}
    case Starting => c.open <= c.promised && c.taken <= c.promised && (c.taken == {} || c.open == {})
    case Running => c.open == {} && c.taken == c.promised
    case _ => c.open == c.promised && c.taken == {} && (c.phase == Choosing ==> c.left > 0)
  }

  /** The ports promised and those still to be found are as many as were requested. */
  predicate Counted(c: Lifecycle)
  {
    match c.phase
    case Fresh => true
    case Ended => true
    case Aborting => true
    case Pending => |c.promised| == c.asked
    case Starting => |c.promised| == c.asked
    case Running => |c.promised| == c.asked
    case _ => |c.promised| + c.left == c.asked
  }

  function Starters(s: State): set<Id>
  {
    set i | i in s.all && s.all[i].phase == Starting
  }

  ghost predicate LockInv(s: State)
  {
    && s.readers == |Starters(s)|
    && (s.writer ==> s.readers == 0)
    && Writers(s)
  }

  ghost predicate Disjoint(s: State)
  {
    forall i, j :: i in s.all && j in s.all && i != j ==> Held(s.all[i]) !! Held(s.all[j])
  }

  /** The ports listened on are those of open listeners, the bound ones those taken. */
  ghost predicate Accounted(s: State)
  {
    && (forall i :: i in s.all ==> s.all[i].open <= s.listened && s.all[i].taken <= s.bound)
    && (forall p :: p in s.listened ==> exists i :: i in s.all && p in s.all[i].open)
    && (forall p :: p in s.bound ==> exists i :: i in s.all && p in s.all[i].taken)
  }

  ghost predicate PortInv(s: State)
  {
    && (forall i :: i in s.all ==> Consistent(s.all[i]) && Counted(s.all[i]))
    && Disjoint(s) && Accounted(s)
  }

  ghost predicate Inv(s: State)
  {
    LockInv(s) && PortInv(s)
  }

  // ---------------------------------------------------------------- the invariant is kept

  lemma StartersSplit(s: State, i: Id)
    requires i in s.all
    ensures |Starters(s)| == |Starters(s) - {i}| + if s.all[i].phase == Starting then 1 else 0
  {
    if s.all[i].phase == Starting {
      assert Starters(s) == (Starters(s) - {i}) + {i};
    } else {
      assert Starters(s) == Starters(s) - {i};
    }
  }

  lemma StartersChange(s: State, i: Id, c: Lifecycle, t: State)
    requires i in s.all && t.all == s.all[i := c]
    ensures |Starters(t)| == |Starters(s)| + (if c.phase == Starting then 1 else 0)
                                           - (if s.all[i].phase == Starting then 1 else 0)
    ensures s.all[i].phase == Starting ==> |Starters(s)| > 0
  {
    StartersSplit(s, i);
    StartersSplit(t, i);
    assert Starters(t) - {i} == Starters(s) - {i};
  }

  /** Only the lifecycle that steps gains or loses the write lock. */
  ghost predicate Writers(s: State)
  {
    && (s.writer <==> exists i :: i in s.all && HoldsWrite(s.all[i]))
    && (forall i, j :: i in s.all && j in s.all && HoldsWrite(s.all[i]) && HoldsWrite(s.all[j]) ==> i == j)
  }

  lemma WritersKept(s: State, i: Id, c: Lifecycle, t: State)
    requires Writers(s) && i in s.all && t.all == s.all[i := c]
    requires t.writer == if HoldsWrite(s.all[i]) || HoldsWrite(c) then HoldsWrite(c) else s.writer
    requires HoldsWrite(c) ==> HoldsWrite(s.all[i]) || !s.writer
    ensures Writers(t)
  {
    hide HoldsWrite;
    if t.writer && !HoldsWrite(c) {
      var j :| j in s.all && HoldsWrite(s.all[j]);
      assert j in t.all && HoldsWrite(t.all[j]);
    }
    if HoldsWrite(c) { assert i in t.all && HoldsWrite(t.all[i]); }
  }

  lemma LocksKept(s: State, i: Id, step: Step)
    requires LockInv(s) && Enabled(s, i, step)
    ensures LockInv(After(s, i, step))
  {
    LockShape(s, i, step);
    hide Starters, Writers, Enabled, After, HoldsWrite;
    var t := After(s, i, step);
    StartersChange(s, i, t.all[i], t);
    WritersKept(s, i, t.all[i], t);
  }

  /** What a step does to the lock. */
  lemma LockShape(s: State, i: Id, step: Step)
    requires Enabled(s, i, step) && (HoldsWrite(s.all[i]) ==> s.writer)
    ensures i in s.all && i in After(s, i, step).all && After(s, i, step).all == s.all[i := After(s, i, step).all[i]]
    ensures var t := After(s, i, step);
            var before, after := s.all[i], t.all[i];
            && t.writer == (if HoldsWrite(before) || HoldsWrite(after) then HoldsWrite(after) else s.writer)
            && (HoldsWrite(after) ==> HoldsWrite(before) || (!s.writer && s.readers == 0))
            && (after.phase == Starting && before.phase != Starting ==> !s.writer && t.readers == s.readers + 1)
            && (after.phase != Starting && before.phase == Starting && s.readers > 0 ==> t.readers == s.readers - 1)
            && ((after.phase == Starting) == (before.phase == Starting) ==> t.readers == s.readers)
  {
  }

  /** Nobody is in StartContainer while a port is chosen, so a free port is nobody's. */
  lemma FreePortIsUnclaimed(s: State, i: Id, p: Port)
    requires Inv(s) && i in s.all && HoldsWrite(s.all[i]) && p !in s.listened && p !in s.bound
    ensures forall j :: j in s.all ==> p !in Held(s.all[j])
  {
    hide Inv, LockInv, PortInv, Held, Consistent, Counted;
    InvParts(s);
    NobodyStarts(s, i);
    forall j | j in s.all
      ensures p !in Held(s.all[j])
    {
      LifecycleParts(s, j);
      HeldInUse(s.all[j]);
    }
  }

  lemma NobodyStarts(s: State, i: Id)
    requires LockInv(s) && i in s.all && HoldsWrite(s.all[i])
    ensures forall j :: j in s.all ==> s.all[j].phase != Starting
  {
    assert s.writer && Starters(s) == {};
    assert forall j :: j in s.all && s.all[j].phase == Starting ==> j in Starters(s);
  }

  /** Except while it starts, a lifecycle holds only ports it listens on or Docker has bound. */
  lemma HeldInUse(c: Lifecycle)
    requires Consistent(c) && c.phase != Starting
    ensures Held(c) == c.open + c.taken
  {
  }

  lemma OthersAccounted(s: State, i: Id, c: Lifecycle, t: State)
    requires Accounted(s) && Disjoint(s) && i in s.all && t.all == s.all[i := c]
    requires t.listened == s.listened - s.all[i].open + c.open
    requires t.bound == s.bound - s.all[i].taken + c.taken
    ensures forall j :: j in t.all ==> t.all[j].open <= t.listened && t.all[j].taken <= t.bound
  {
    forall j | j in t.all && j != i
      ensures t.all[j].open <= t.listened && t.all[j].taken <= t.bound
    {
      assert Held(s.all[i]) !! Held(s.all[j]);
    }
  }

  lemma AccountsKept(s: State, i: Id, c: Lifecycle, t: State)
    requires Accounted(s) && Disjoint(s) && i in s.all && t.all == s.all[i := c]
    requires t.listened == s.listened - s.all[i].open + c.open
    requires t.bound == s.bound - s.all[i].taken + c.taken
    ensures Accounted(t)
  {
    OthersAccounted(s, i, c, t);
    hide Disjoint, Held;
    forall p | p in t.listened
      ensures exists j :: j in t.all && p in t.all[j].open
    {
      if p in c.open {
        assert i in t.all && p in t.all[i].open;
      } else {
        var j :| j in s.all && p in s.all[j].open;
        assert j in t.all && p in t.all[j].open;
      }
    }
    forall p | p in t.bound
      ensures exists j :: j in t.all && p in t.all[j].taken
    {
      if p in c.taken {
        assert i in t.all && p in t.all[i].taken;
      } else {
        var j :| j in s.all && p in s.all[j].taken;
        assert j in t.all && p in t.all[j].taken;
      }
    }
  }

  /** Replacing one lifecycle keeps the invariant when it claims nothing of the others and the
      host's sets change by what it opens, closes, takes and gives back. */
  lemma ReplacingKeeps(s: State, i: Id, c: Lifecycle, t: State)
    requires PortInv(s) && i in s.all && t.all == s.all[i := c] && Consistent(c) && Counted(c)
    requires forall j :: j in s.all && j != i ==> Held(c) !! Held(s.all[j])
    requires t.listened == s.listened - s.all[i].open + c.open
    requires t.bound == s.bound - s.all[i].taken + c.taken
    ensures PortInv(t)
  {
    hide Consistent, Counted, Accounted, Held;
    AccountsKept(s, i, c, t);
  }

  lemma ClaimsNothing(s: State, i: Id, c: Lifecycle)
    requires PortInv(s) && i in s.all && Held(c) <= Held(s.all[i])
    ensures forall j :: j in s.all && j != i ==> Held(c) !! Held(s.all[j])
  {
  }

  lemma PortsKept(s: State, i: Id, step: Step)
    requires Inv(s) && Enabled(s, i, step)
    ensures PortInv(After(s, i, step))
  {
    assert i in s.all;
    hide After, Enabled, Inv, LockInv, PortInv, Consistent, Counted, Held;
    InvParts(s);
    LifecycleParts(s, i);
    LifecycleShape(s, i, step);
    CountKept(s, i, step);
    HostShape(s, i, step);
    KeepsApart(s, i, step);
    ReplacingKeeps(s, i, After(s, i, step).all[i], After(s, i, step));
  }

  lemma LifecycleParts(s: State, i: Id)
    requires PortInv(s) && i in s.all
    ensures Consistent(s.all[i]) && Counted(s.all[i])
    ensures s.all[i].open <= s.listened && s.all[i].taken <= s.bound
  {
    hide Consistent, Counted;
  }

  /** After a step, too, its lifecycle holds nothing of the others. */
  lemma KeepsApart(s: State, i: Id, step: Step)
    requires Inv(s) && Enabled(s, i, step)
    ensures i in After(s, i, step).all
    ensures forall j :: j in s.all && j != i ==> Held(After(s, i, step).all[i]) !! Held(s.all[j])
  {
    hide Inv, LockInv, PortInv, Counted;
    InvParts(s);
    LifecycleParts(s, i);
    var c := After(s, i, step).all[i];
    if step.Listen? {
      FreePortIsUnclaimed(s, i, step.p);
      assert Held(c) == Held(s.all[i]) + {step.p};
      HeldApart(s, i);
    } else {
      LifecycleShape(s, i, step);
      ClaimsNothing(s, i, c);
    }
  }

  lemma HeldApart(s: State, i: Id)
    requires PortInv(s) && i in s.all
    ensures forall j :: j in s.all && j != i ==> Held(s.all[i]) !! Held(s.all[j])
  {
    hide Consistent, Counted, Held;
  }

  lemma InvParts(s: State)
    requires Inv(s)
    ensures LockInv(s) && PortInv(s)
  {
  }

  lemma CountKept(s: State, i: Id, step: Step)
    requires Enabled(s, i, step) && Consistent(s.all[i]) && Counted(s.all[i]) && s.all[i].open <= s.listened
    ensures i in After(s, i, step).all && Counted(After(s, i, step).all[i])
  {
    var c := s.all[i];
    if step.Listen? { assert step.p !in c.promised; }
  }

  /** What a step does to the lifecycle that takes it, */
  lemma LifecycleShape(s: State, i: Id, step: Step)
    requires Enabled(s, i, step) && Consistent(s.all[i])
    ensures var t := After(s, i, step);
            && i in t.all && t.all == s.all[i := t.all[i]] && Consistent(t.all[i])
            && (!step.Listen? ==> Held(t.all[i]) <= Held(s.all[i]))
  {
  }

  /** and to the ports of the host. */
  lemma HostShape(s: State, i: Id, step: Step)
    requires Enabled(s, i, step) && Consistent(s.all[i])
    requires s.all[i].open <= s.listened && s.all[i].taken <= s.bound
    ensures var t := After(s, i, step);
            && t.listened == s.listened - s.all[i].open + t.all[i].open
            && t.bound == s.bound - s.all[i].taken + t.all[i].taken
  {
    var c := s.all[i];
    match step
    case Listen(p) => assert s.listened - c.open + (c.open + {p}) == s.listened + {p};
    case Close(p) => assert s.listened - c.open + (c.open - {p}) == s.listened - {p};
    case Bind(p) => assert s.bound - c.taken + (c.taken + {p}) == s.bound + {p};
    case _ =>
  }

  ghost predicate Initial(s: State)
  {
    s.readers == 0 && !s.writer && s.listened == {} && s.bound == {} &&
    forall i :: i in s.all ==> s.all[i] == Lifecycle(Fresh, 0, 0, {}, {}, {})
  }

  /** A schedule: which lifecycle takes which step. */
  type Schedule = seq<(Id, Step)>

  ghost predicate Runs(s: State, schedule: Schedule)
    decreases schedule
  {
    schedule == [] ||
    (Enabled(s, schedule[0].0, schedule[0].1) && Runs(After(s, schedule[0].0, schedule[0].1), schedule[1..]))
  }

  ghost function Final(s: State, schedule: Schedule): State
    requires Runs(s, schedule)
    decreases schedule
  {
    if schedule == [] then s else Final(After(s, schedule[0].0, schedule[0].1), schedule[1..])
  }

  lemma {:induction false} RunKeeps(s: State, schedule: Schedule)
    requires Inv(s) && Runs(s, schedule)
    ensures Inv(Final(s, schedule))
    decreases schedule
  {
    if schedule == [] {
    } else {
      var (i, step) := schedule[0];
      LocksKept(s, i, step);
      PortsKept(s, i, step);
      RunKeeps(After(s, i, step), schedule[1..]);
    }
  }

  lemma InitialInv(s: State)
    requires Initial(s)
    ensures Inv(s)
  {
    assert Starters(s) == {};
  }

  // ---------------------------------------------------------------- what it is for

  /** A lifecycle whose port map is, or is about to be, the container's. */
  predicate Promises(c: Lifecycle)
  {
    c.phase != Fresh && c.phase != Aborting && c.phase != Ended
  }

  /** Whenever Docker is about to bind a port of a container being started, it is unoccupied. */
  lemma BindFindsFree(s: State, i: Id, p: Port)
    requires Inv(s) && Enabled(s, i, Bind(p))
    ensures p !in s.listened && p !in s.bound
  {
    assert p in Held(s.all[i]);
    forall j | j in s.all
      ensures p !in s.all[j].open && p !in s.all[j].taken
    {
      assert j != i ==> Held(s.all[i]) !! Held(s.all[j]);
    }
  }

  lemma PromisedApart(s: State, i: Id, j: Id)
    requires PortInv(s) && i in s.all && j in s.all && i != j
    ensures s.all[i].promised !! s.all[j].promised
  {
    assert Held(s.all[i]) !! Held(s.all[j]);
  }

  /** The number of ports that lifecycle i asks for in a schedule. */
  function Requested(schedule: Schedule, i: Id): nat
    decreases schedule
  {
    if schedule == [] then 0
    else if schedule[0].0 == i && schedule[0].1.Create? then schedule[0].1.ports
    else Requested(schedule[1..], i)
  }

  /** What a lifecycle has been asked for is what the schedule says. */
  lemma {:induction false} AskedAsRequested(s: State, schedule: Schedule, i: Id)
    requires Runs(s, schedule) && i in s.all
    ensures var t := Final(s, schedule);
            && i in t.all
            && (t.all[i].phase !in {Fresh, Ended} ==>
                  t.all[i].asked == if s.all[i].phase == Fresh then Requested(schedule, i) else s.all[i].asked)
    decreases schedule
  {
    if schedule == [] {
    } else {
      var (j, step) := schedule[0];
      StepAsks(s, j, step, i);
      hide After, Enabled;
      var next := After(s, j, step);
      AskedAsRequested(next, schedule[1..], i);
      if next.all[i].phase == Ended { EndedStays(next, schedule[1..], i); }
    }
  }

  lemma StepAsks(s: State, j: Id, step: Step, i: Id)
    requires Enabled(s, j, step) && i in s.all
    ensures j in s.all && i in After(s, j, step).all
    ensures var before, after := s.all[i], After(s, j, step).all[i];
            && (i != j ==> after == before)
            && (i == j && step.Create? ==>
                  before.phase == Fresh && after.phase == Allocating && after.asked == step.ports)
            && (i == j && !step.Create? ==>
                  before.phase != Fresh && after.phase != Fresh
                  && (after.phase == Ended || (before.phase != Ended && after.asked == before.asked)))
  {
  }

  lemma {:induction false} EndedStays(s: State, schedule: Schedule, i: Id)
    requires Runs(s, schedule) && i in s.all && s.all[i].phase == Ended
    ensures i in Final(s, schedule).all && Final(s, schedule).all[i].phase == Ended
    decreases schedule
  {
    if schedule == [] {
    } else {
      EndedStays(After(s, schedule[0].0, schedule[0].1), schedule[1..], i);
    }
  }

  /** A container that has been created, that is being started or that runs. */
  predicate IsCreated(c: Lifecycle)
  {
    c.phase == Pending || c.phase == Starting || c.phase == Running
  }

  lemma HasPorts(s: State, i: Id)
    requires PortInv(s) && i in s.all
    ensures IsCreated(s.all[i]) ==> |s.all[i].promised| == s.all[i].asked
    ensures s.all[i].phase == Running ==> s.all[i].promised <= s.bound
  {
    assert Consistent(s.all[i]) && Counted(s.all[i]);
  }

  /** In every interleaving, ports promised to distinct containers are disjoint, whenever Docker
      is about to bind a port that port is unoccupied, a running container has all of its, and
      these are as many as were requested. */
  lemma PromisesHold(s0: State, schedule: Schedule)
    requires Initial(s0) && Runs(s0, schedule)
    ensures var s := Final(s0, schedule);
            && (forall i, j :: i in s.all && j in s.all && i != j && Promises(s.all[i]) && Promises(s.all[j]) ==>
                  s.all[i].promised !! s.all[j].promised)
            && (forall i, p :: Enabled(s, i, Bind(p)) ==> p !in s.listened && p !in s.bound)
            && (forall i :: i in s.all && s.all[i].phase == Running ==> s.all[i].promised <= s.bound)
            && (forall i :: i in s.all && s.all[i].phase in {Pending, Starting, Running} ==>
                  |s.all[i].promised| == Requested(schedule, i))
  {
    InitialInv(s0);
    RunKeeps(s0, schedule);
    var s := Final(s0, schedule);
    InvParts(s);
    hide Inv, PortInv, LockInv, Final, Runs;
    forall i, j | i in s.all && j in s.all && i != j
      ensures s.all[i].promised !! s.all[j].promised
    {
      PromisedApart(s, i, j);
    }
    forall i, p | Enabled(s, i, Bind(p))
      ensures p !in s.listened && p !in s.bound
    {
      BindFindsFree(s, i, p);
    }
    forall i | i in s.all && s.all[i].phase == Running
      ensures s.all[i].promised <= s.bound
    {
      HasPorts(s, i);
    }
    forall i | i in s.all && s.all[i].phase in {Pending, Starting, Running}
      ensures |s.all[i].promised| == Requested(schedule, i)
    {
      HasPorts(s, i);
      RequestedByRun(s0, schedule, i);
    }
  }

  lemma RequestedByRun(s0: State, schedule: Schedule, i: Id)
    requires Initial(s0) && Runs(s0, schedule) && i in Final(s0, schedule).all
    requires Final(s0, schedule).all[i].phase !in {Fresh, Ended}
    ensures Final(s0, schedule).all[i].asked == Requested(schedule, i)
  {
    SameLifecycles(s0, schedule);
    AskedAsRequested(s0, schedule, i);
  }

  lemma {:induction false} SameLifecycles(s: State, schedule: Schedule)
    requires Runs(s, schedule)
    ensures Final(s, schedule).all.Keys == s.all.Keys
    decreases schedule
  {
    if schedule == [] {
    } else {
      SameLifecycles(After(s, schedule[0].0, schedule[0].1), schedule[1..]);
    }
  }

  // ---------------------------------------------------------------- what can be reached

  lemma RunsFirst(s: State, i: Id, step: Step, rest: Schedule)
    requires Enabled(s, i, step) && Runs(After(s, i, step), rest)
    ensures Runs(s, [(i, step)] + rest) && Final(s, [(i, step)] + rest) == Final(After(s, i, step), rest)
  {
    hide Enabled, After;
    assert ([(i, step)] + rest)[1..] == rest;
  }

  lemma OnePort(ports: set<Port>) returns (p: Port)
    requires ports != {}
    ensures p in ports
  {
    p :| p in ports;
  }

  /** A create goes through on its own when there are enough free ports. */
  lemma {:induction false} Allocates(s: State, i: Id, free: set<Port>) returns (schedule: Schedule)
    requires i in s.all && s.all[i].phase == Allocating && !s.writer && s.readers == 0
    requires |free| >= s.all[i].left && forall p :: p in free ==> IsFree(s, p)
    ensures Runs(s, schedule)
    ensures var t := Final(s, schedule);
            i in t.all && t.all[i].phase == Pending && t.all[i].asked == s.all[i].asked && !t.writer && t.readers == 0
    decreases s.all[i].left
  {
    if s.all[i].left == 0 {
      schedule := [];
      RunsFirst(s, i, Created, schedule);
      schedule := [(i, Created)] + schedule;
    } else {
      var p := OnePort(free);
      var s1 := After(s, i, Lock);
      var s2 := After(s1, i, Listen(p));
      var s3 := After(s2, i, Unlock);
      schedule := Allocates(s3, i, free - {p});
      RunsFirst(s2, i, Unlock, schedule);
      schedule := [(i, Unlock)] + schedule;
      RunsFirst(s1, i, Listen(p), schedule);
      schedule := [(i, Listen(p))] + schedule;
      RunsFirst(s, i, Lock, schedule);
      schedule := [(i, Lock)] + schedule;
    }
  }

  /** A start goes through on its own. */
  lemma {:induction false} Starts(s: State, i: Id) returns (schedule: Schedule)
    requires i in s.all && s.all[i].phase == Starting && s.all[i].taken <= s.all[i].promised
    ensures Runs(s, schedule)
    ensures var t := Final(s, schedule);
            && i in t.all && t.all[i].phase == Running
            && t.all[i].taken == t.all[i].promised == s.all[i].promised && t.all[i].asked == s.all[i].asked
    decreases |s.all[i].open| + |s.all[i].promised - s.all[i].taken|
  {
    hide After, Enabled;
    var c := s.all[i];
    var step := StartOk;
    schedule := [];
    if c.open != {} {
      var p :| p in c.open;
      step := Close(p);
      StartTurn(s, i, step);
      schedule := Starts(After(s, i, step), i);
    } else if c.taken != c.promised {
      assert c.taken + (c.promised - c.taken) == c.promised;
      var p := OnePort(c.promised - c.taken);
      step := Bind(p);
      StartTurn(s, i, step);
      assert c.promised - (c.taken + {p}) == (c.promised - c.taken) - {p};
      schedule := Starts(After(s, i, step), i);
    } else {
      StartTurn(s, i, step);
    }
    RunsFirst(s, i, step, schedule);
    schedule := [(i, step)] + schedule;
  }

  lemma StartTurn(s: State, i: Id, step: Step)
    requires i in s.all && s.all[i].phase == Starting && Enabled(s, i, step)
    ensures Enabled(s, i, step) && i in After(s, i, step).all
    ensures var c, after := s.all[i], After(s, i, step).all[i];
            match step
            case Close(p) => after == c.(open := c.open - {p})
            case Bind(p) => after == c.(taken := c.taken + {p})
            case StartOk => after == c.(phase := Running)
            case _ => true
  {
  }

  /** From any state a run comes to in which nobody is choosing a port or starting, a container that
      asks for n ports can come to run with n ports of its own, if as many are free. */
  lemma CanRun(s: State, i: Id, n: nat, free: set<Port>) returns (schedule: Schedule)
    requires Inv(s) && i in s.all && s.all[i].phase == Fresh && !s.writer && s.readers == 0
    requires |free| >= n && forall p :: p in free ==> IsFree(s, p)
    ensures Runs(s, schedule)
    ensures var t := Final(s, schedule);
            && i in t.all && t.all[i].phase == Running && |t.all[i].promised| == n && t.all[i].promised <= t.bound
  {
    hide After, Enabled, Inv, LockInv;
    var create := CanBeCreated(s, i, n, free);
    var s1 := Final(s, create);
    RunKeeps(s, create);
    InvParts(s1);
    LifecycleParts(s1, i);
    var start := CanBeStarted(s1, i);
    RunKeeps(s1, start);
    RunsOn(s, create, start);
    schedule := create + start;
    InvParts(Final(s, schedule));
    HasPorts(Final(s, schedule), i);
  }

  lemma CanBeCreated(s: State, i: Id, n: nat, free: set<Port>) returns (schedule: Schedule)
    requires i in s.all && s.all[i].phase == Fresh && !s.writer && s.readers == 0
    requires |free| >= n && forall p :: p in free ==> IsFree(s, p)
    ensures Runs(s, schedule)
    ensures var t := Final(s, schedule);
            i in t.all && t.all[i].phase == Pending && t.all[i].asked == n && !t.writer && t.readers == 0
  {
    schedule := Allocates(After(s, i, Create(n)), i, free);
    RunsFirst(s, i, Create(n), schedule);
    schedule := [(i, Create(n))] + schedule;
  }

  lemma CanBeStarted(s: State, i: Id) returns (schedule: Schedule)
    requires i in s.all && s.all[i].phase == Pending && Consistent(s.all[i]) && !s.writer
    ensures Runs(s, schedule)
    ensures var t := Final(s, schedule);
            && i in t.all && t.all[i].phase == Running
            && t.all[i].taken == t.all[i].promised == s.all[i].promised && t.all[i].asked == s.all[i].asked
  {
    schedule := Starts(After(s, i, RLock), i);
    RunsFirst(s, i, RLock, schedule);
    schedule := [(i, RLock)] + schedule;
  }

  lemma {:induction false} RunsOn(s: State, first: Schedule, rest: Schedule)
    requires Runs(s, first) && Runs(Final(s, first), rest)
    ensures Runs(s, first + rest) && Final(s, first + rest) == Final(Final(s, first), rest)
    decreases first
  {
    hide After;
    if first == [] {
      assert first + rest == rest;
    } else {
      assert (first + rest)[1..] == first[1..] + rest;
      RunsOn(After(s, first[0].0, first[0].1), first[1..], rest);
    }
  }

  /** A create whose listening or creating has failed, and a start that has failed, stay failed. */
  lemma {:induction false} FailureIsFinal(s: State, schedule: Schedule, i: Id)
    requires Runs(s, schedule) && i in s.all && s.all[i].phase in {Refused, Aborting, Ended}
    ensures i in Final(s, schedule).all && Final(s, schedule).all[i].phase in {Refused, Aborting, Ended}
    decreases schedule
  {
    if schedule == [] {
    } else {
      FailureIsFinal(After(s, schedule[0].0, schedule[0].1), schedule[1..], i);
    }
  }

  lemma FailureFails(s: State, i: Id, step: Step)
    requires Enabled(s, i, step) && step in {ListenFails, CreateFails, StartFails, Stop}
    ensures After(s, i, step).all[i].phase in {Refused, Aborting, Ended}
  {
  }

  /** Read and write sections exclude each other in every interleaving, and the reader count
      is the number of containers being started. */
  lemma LocksExclude(s0: State, schedule: Schedule)
    requires Initial(s0) && Runs(s0, schedule)
    ensures var s := Final(s0, schedule);
            && s.readers == |Starters(s)|
            && (forall i, j :: i in s.all && j in s.all && HoldsWrite(s.all[i]) ==>
                  s.all[j].phase != Starting && (i != j ==> !HoldsWrite(s.all[j])))
  {
    InitialInv(s0);
    RunKeeps(s0, schedule);
    var s := Final(s0, schedule);
    forall i | i in s.all && HoldsWrite(s.all[i])
      ensures forall j :: j in s.all ==> s.all[j].phase != Starting
    {
      NobodyStarts(s, i);
    }
  }

  /** Neither a new request nor a failure of Docker, nor, as long as a port is free, of listening. */
  predicate GoingOn(step: Step)
  {
    !step.Create? && !step.Stop? && !step.StartFails? && !step.CreateFails?
  }

  /** Somebody waits, or is about to wait, for the write lock. */
  predicate WriterWaits(s: State)
  {
    exists k :: k in s.all && s.all[k].phase == Allocating && s.all[k].left > 0
  }

  /** A step that the RWMutex lets through: new readers queue behind a waiting writer. */
  predicate Granted(s: State, i: Id, step: Step)
  {
    Enabled(s, i, step) && (step.RLock? ==> !WriterWaits(s))
  }

  ghost predicate GoesOnWith(s: State, i: Id, step: Step)
  {
    GoingOn(step) && Granted(s, i, step) && (step.ListenFails? ==> !exists p: Port :: IsFree(s, p))
  }

  predicate IsFree(s: State, p: Port)
  {
    p !in s.listened && p !in s.bound
  }

  ghost predicate CanGoOn(s: State)
  {
    exists i: Id, step: Step :: GoesOnWith(s, i, step)
  }

  /** No interleaving is stuck: while some lifecycle is in the middle of a create or start, some
      lifecycle can go on, also when readers are held back as soon as a writer may be waiting. */
  lemma NoDeadlock(s0: State, schedule: Schedule, i: Id)
    requires Initial(s0) && Runs(s0, schedule) && i in Final(s0, schedule).all
    requires Final(s0, schedule).all[i].phase !in {Fresh, Running, Ended}
    ensures CanGoOn(Final(s0, schedule))
  {
    InitialInv(s0);
    RunKeeps(s0, schedule);
    SomebodyGoesOn(Final(s0, schedule), i);
  }

  lemma SomebodyGoesOn(s: State, i: Id)
    requires Inv(s) && i in s.all && s.all[i].phase !in {Fresh, Running, Ended}
    ensures CanGoOn(s)
  {
    InvParts(s);
    hide Inv, Disjoint, Accounted, CanGoOn, Starters;
    if s.writer {
      WriterGoesOn(s);
    } else if s.readers > 0 {
      var j := SomeStarter(s);
      GoesOn(s, j);
    } else if WriterWaits(s) {
      var k :| k in s.all && s.all[k].phase == Allocating && s.all[k].left > 0;
      LockGranted(s, k);
    } else {
      GoesOn(s, i);
    }
  }

  lemma LockGranted(s: State, k: Id)
    requires k in s.all && s.all[k].phase == Allocating && s.all[k].left > 0 && !s.writer && s.readers == 0
    ensures CanGoOn(s)
  {
    assert GoesOnWith(s, k, Lock);
  }

  lemma WriterGoesOn(s: State)
    requires Writers(s) && s.writer && forall i :: i in s.all ==> Consistent(s.all[i])
    ensures CanGoOn(s)
  {
    var j :| j in s.all && HoldsWrite(s.all[j]);
    if s.all[j].phase != Choosing {
      assert GoesOnWith(s, j, Unlock);
    } else if p: Port :| IsFree(s, p) {
      assert GoesOnWith(s, j, Listen(p));
    } else {
      assert GoesOnWith(s, j, ListenFails);
    }
  }

  lemma SomeStarter(s: State) returns (j: Id)
    requires s.readers == |Starters(s)| > 0
    ensures j in s.all && s.all[j].phase == Starting
  {
    j :| j in Starters(s);
  }

  lemma GoesOn(s: State, i: Id)
    requires i in s.all && !s.writer && s.all[i].phase !in {Fresh, Running, Ended} && !HoldsWrite(s.all[i])
    requires Consistent(s.all[i]) && (s.all[i].phase != Starting ==> s.readers == 0 && !WriterWaits(s))
    ensures CanGoOn(s)
  {
    hide WriterWaits;
    var c := s.all[i];
    if c.phase == Allocating {
      assert GoesOnWith(s, i, if c.left > 0 then Lock else Created);
    } else if c.phase == Pending {
      assert GoesOnWith(s, i, RLock);
    } else if c.open != {} {
      var p :| p in c.open;
      assert GoesOnWith(s, i, Close(p));
    } else if c.phase == Aborting {
      assert GoesOnWith(s, i, AbortDone);
    } else if c.promised <= c.taken {
      assert GoesOnWith(s, i, StartOk);
    } else {
      var p :| p in c.promised && p !in c.taken;
      assert GoesOnWith(s, i, Bind(p));
    }
  }

  // ---------------------------------------------------------------- one create by itself

  function Listed(listeners: seq<Port>): set<Port>
  {
    set p | p in listeners
  }

  ghost predicate Injective(m: map<string, Port>)
  {
    forall k, l :: k in m && l in m && k != l ==> m[k] != m[l]
  }

  /** The host as one create sees it: the ports it listens on, and those in use by anybody else. */
  class Host {
    var held: set<Port>
    var others: set<Port>

    /** While the lock is not held, others open and close listeners, and Docker binds and frees
        ports, but nobody touches a port held here. */
    method Interfere()
      requires held !! others
      modifies `others
      ensures held !! others
    {
      var used: set<Port> := *;
      others := used - held;
    }

    /** net.ListenTCP on port 0: some port nobody uses, or an error. */
    method ListenTCP() returns (ok: bool, p: Port)
      modifies `held
      ensures ok ==> p !in old(held) && p !in others && held == old(held) + {p}
      ensures !ok ==> held == old(held)
    {
      var free := set q: Port | 0 <= q < 65536 && q !in held && q !in others;
      p := 0;
      if free == {} { return false, p; }
      if * { return false, p; }
      p :| p in free;
      held := held + {p};
      return true, p;
    }

    /** CloseAll */
    method CloseAll(listeners: seq<Port>)
      modifies `held
      ensures held == old(held) - Listed(listeners)
    {
      for i := 0 to |listeners|
        invariant held == old(held) - Listed(listeners[..i])
      {
        assert listeners[..i + 1] == listeners[..i] + [listeners[i]];
        held := held - {listeners[i]};
      }
      assert listeners[..|listeners|] == listeners;
    }

    /** GeneratePortBindings: on success every requested port has its own host port with an open
        listener, which nobody else uses whatever others did meanwhile; on failure no listener is
        left open. The order of the set is arbitrary. */
    method GeneratePortBindings(portSet: set<string>) returns (ok: bool, m: map<string, Port>, listeners: seq<Port>)
      requires held !! others
      modifies `held, `others
      ensures held !! others
      ensures ok ==>
                && m.Keys == portSet && (forall k, l :: k in m && l in m && k != l ==> m[k] != m[l])
                && |listeners| == |m| && (forall p :: p in listeners <==> p in m.Values)
                && m.Values !! old(held) && m.Values !! others && held == old(held) + m.Values
      ensures !ok ==> m == map[] && listeners == [] && held == old(held)
    {
      hide Reserved, Listed;
      m, listeners := map[], [];
      var rest := portSet;
      NothingReserved(held);
      while rest != {}
        invariant m.Keys + rest == portSet && m.Keys !! rest && held !! others
        invariant Reserved(m, listeners, old(held), held)
        decreases rest
      {
        var key :| key in rest;
        rest := rest - {key};
        Interfere();
        ghost var now := held;
        var done, p := ListenTCP();
        if !done {
          Interfere();
          CloseAll(listeners);
          AllClosed(m, listeners, old(held), now);
          return false, map[], [];
        }
        OneMoreReserved(m, listeners, old(held), now, key, p);
        listeners, m := listeners + [p], m[key := p];
      }
      Interfere();
      ReservedHeld(m, listeners, old(held), held);
      return true, m, listeners;
    }
  }

  /** Each container port has its own host port; the listeners are open on exactly these, and on
      what was held before. */
  ghost predicate Reserved(m: map<string, Port>, listeners: seq<Port>, before: set<Port>, now: set<Port>)
  {
    && Injective(m) && |listeners| == |m| && Listed(listeners) == m.Values
    && m.Values !! before && now == before + m.Values
  }

  lemma NothingReserved(before: set<Port>)
    ensures Reserved(map[], [], before, before)
  {
  }

  lemma ReservedHeld(m: map<string, Port>, listeners: seq<Port>, before: set<Port>, now: set<Port>)
    requires Reserved(m, listeners, before, now)
    ensures (forall k, l :: k in m && l in m && k != l ==> m[k] != m[l]) && |listeners| == |m|
    ensures (forall p :: p in listeners <==> p in m.Values) && m.Values !! before && now == before + m.Values
  {
    assert forall p :: p in listeners <==> p in Listed(listeners);
  }

  lemma AllClosed(m: map<string, Port>, listeners: seq<Port>, before: set<Port>, now: set<Port>)
    requires Reserved(m, listeners, before, now)
    ensures now - Listed(listeners) == before
  {
  }

  lemma OneMoreReserved(m: map<string, Port>, listeners: seq<Port>, before: set<Port>, now: set<Port>,
                        key: string, p: Port)
    requires Reserved(m, listeners, before, now) && key !in m && p !in now
    ensures Reserved(m[key := p], listeners + [p], before, now + {p})
  {
    hide Injective, Listed;
    var n := m[key := p];
    assert n.Values == m.Values + {p} by { AddedValue(m, key, p); }
    assert Injective(n) by { StaysInjective(m, key, p); }
    assert Listed(listeners + [p]) == n.Values by { ListedOneMore(listeners, p); }
    assert |n| == |listeners + [p]| by { OneKeyMore(m, key, p); }
    StaysApart(m.Values, before, now, p);
  }

  lemma StaysApart(ports: set<Port>, before: set<Port>, now: set<Port>, p: Port)
    requires ports !! before && now == before + ports && p !in now
    ensures ports + {p} !! before && now + {p} == before + (ports + {p})
  {
  }

  lemma OneKeyMore(m: map<string, Port>, key: string, p: Port)
    requires key !in m
    ensures |m[key := p]| == |m| + 1
  {
  }

  lemma StaysInjective(m: map<string, Port>, key: string, p: Port)
    requires Injective(m) && p !in m.Values
    ensures Injective(m[key := p])
  {
    assert forall k :: k in m ==> m[k] in m.Values;
  }

  lemma ListedOneMore(listeners: seq<Port>, p: Port)
    ensures Listed(listeners + [p]) == Listed(listeners) + {p}
  {
  }

  lemma AddedValue(m: map<string, Port>, key: string, p: Port)
    requires key !in m
    ensures m[key := p].Values == m.Values + {p}
  {
    var n := m[key := p];
    assert n[key] == p;
    forall q | q in m.Values
      ensures q in n.Values
    {
      var k :| k in m && m[k] == q;
      assert n[k] == q;
    }
  }
}

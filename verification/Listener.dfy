/** The stream table of a listener, its two levels of locks, and the threads that use it: reader threads
    that look a stream up and then work on it, gRPC's threads that perform ops on streams, and threads
    that destroy streams. Any number of threads take their steps in any order. */
module Listener {
  import opened Basics

  type StreamId = nat

  /** Where a thread is. Streams are numbered in the order in which they are created. */
  datatype Pc =
    | Idle
    // getStream and the use of its result in onRead
    | WantTable(id: StreamId, create: bool)
    | InTable(id: StreamId, create: bool)
    | WantStream(id: StreamId, create: bool, s: nat)
    | HasBoth(id: StreamId, create: bool, s: nat)
    | Handling(id: StreamId, create: bool, s: nat)
    | UsesNull
    // perform_stream_op
    | OpWant(s: nat)
    | OpHolding(s: nat)
    // destroy_stream
    | DestroyWant(s: nat)
    | DestroyInTable(s: nat)
    | DestroyHolds(s: nat)
    | DestroyReleased(s: nat)
    | DestroyErased(s: nat)

  /** owners tells which thread holds the lock of a stream; ids gives the id of each stream created;
      doomed are the streams that gRPC has asked to destroy, erased those that have left the table. */
  datatype State = State(
    threads: seq<Pc>, tableOwner: Option<nat>, owners: map<nat, nat>, active: map<StreamId, nat>, ids: seq<StreamId>,
    doomed: set<nat>, erased: set<nat>, destroyed: set<nat>)

  /** What a thread does next, where there is a choice: which call an idle thread makes, and whether
      gRPC's accept callback provides a stream. */
  datatype Choice = Go | GetStream(id: StreamId, create: bool) | PerformOp(s: nat) | DestroyStream(s: nat) | Refused

  function NewState(n: nat): State {
    State(seq(n, i => Idle), None, map[], map[], [], {}, {}, {})
  }

  // ------------------------------------------------ locks

  predicate HoldsTable(pc: Pc) {
    pc.InTable? || pc.WantStream? || pc.HasBoth? || pc.DestroyInTable? || pc.DestroyHolds? || pc.DestroyReleased? ||
    pc.DestroyErased?
  }

  /** The stream whose lock a thread holds. */
  function Holds(pc: Pc): Option<nat> {
    match pc
    case HasBoth(_, _, s) => Some(s)
    case Handling(_, _, s) => Some(s)
    case OpHolding(s) => Some(s)
    case DestroyHolds(s) => Some(s)
    case _ => None
  }

  /** The stream that a thread works on or is about to. */
  function Uses(pc: Pc): Option<nat> {
    match pc
    case WantStream(_, _, s) => Some(s)
    case HasBoth(_, _, s) => Some(s)
    case Handling(_, _, s) => Some(s)
    case OpWant(s) => Some(s)
    case OpHolding(s) => Some(s)
    case _ => None
  }

  function Destroys(pc: Pc): Option<nat> {
    match pc
    case DestroyWant(s) => Some(s)
    case DestroyInTable(s) => Some(s)
    case DestroyHolds(s) => Some(s)
    case DestroyReleased(s) => Some(s)
    case DestroyErased(s) => Some(s)
    case _ => None
  }

  /** The stream for which a destroyer relies on nobody else using it. */
  function Alone(pc: Pc): Option<nat> {
    if pc.DestroyHolds? || pc.DestroyReleased? || pc.DestroyErased? then Some(pc.s) else None
  }

  // ------------------------------------------------ steps

  function At(st: State, t: nat, pc: Pc): State
    requires t < |st.threads|
  {
    st.(threads := st.threads[t := pc])
  }

  function Lock(st: State, t: nat): State { st.(tableOwner := Some(t)) }

  function Unlock(st: State): State { st.(tableOwner := None) }

  function LockStream(st: State, t: nat, s: nat): State { st.(owners := st.owners[s := t]) }

  function UnlockStream(st: State, s: nat): State { st.(owners := st.owners - {s}) }

  /** gRPC performs ops only on streams that it has not asked to destroy, and asks to destroy a stream
      once, when no op is in progress on it: it counts references to streams. */
  predicate MayDestroy(st: State, s: nat) {
    s < |st.ids| && s !in st.doomed &&
    forall u :: 0 <= u < |st.threads| ==> st.threads[u] != OpWant(s) && st.threads[u] != OpHolding(s)
  }

  predicate Enabled(st: State, t: nat, c: Choice) {
    t < |st.threads| &&
    match st.threads[t]
    case Idle => c.GetStream? || (c.PerformOp? && c.s < |st.ids| && c.s !in st.doomed) ||
                 (c.DestroyStream? && MayDestroy(st, c.s))
    case WantTable(_, _) => c.Go? && st.tableOwner.None?
    case DestroyWant(_) => c.Go? && st.tableOwner.None?
    case InTable(_, _) => c.Go? || c.Refused?
    case WantStream(_, _, s) => c.Go? && s !in st.owners
    case OpWant(s) => c.Go? && s !in st.owners
    case DestroyInTable(s) => c.Go? && s !in st.owners
    case UsesNull => false
    case _ => c.Go?
  }

  /** getStream with the table locked: find the stream, or create it if wanted. */
  function Find(st: State, t: nat, id: StreamId, create: bool, refused: bool): State
    requires t < |st.threads|
  {
    if id in st.active then At(st, t, WantStream(id, create, st.active[id]))
    else if !create then At(Unlock(st), t, Idle)
    else if refused then At(Unlock(st), t, UsesNull)
    else At(st.(ids := st.ids + [id], active := st.active[id := |st.ids|]), t, WantStream(id, create, |st.ids|))
  }

  function Step(st: State, t: nat, c: Choice): State
    requires Enabled(st, t, c)
  {
    match st.threads[t]
    case Idle =>
      (match c
       case GetStream(id, create) => At(st, t, WantTable(id, create))
       case PerformOp(s) => At(st, t, OpWant(s))
       case DestroyStream(s) => At(st.(doomed := st.doomed + {s}), t, DestroyWant(s))
       case _ => st)
    case WantTable(id, create) => At(Lock(st, t), t, InTable(id, create))
    case InTable(id, create) => Find(st, t, id, create, c.Refused?)
    case WantStream(id, create, s) => At(LockStream(st, t, s), t, HasBoth(id, create, s))
    case HasBoth(id, create, s) => At(Unlock(st), t, Handling(id, create, s))
    case Handling(_, _, s) => At(UnlockStream(st, s), t, Idle)
    case OpWant(s) => At(LockStream(st, t, s), t, OpHolding(s))
    case OpHolding(s) => At(UnlockStream(st, s), t, Idle)
    case DestroyWant(s) => At(Lock(st, t), t, DestroyInTable(s))
    case DestroyInTable(s) => At(LockStream(st, t, s), t, DestroyHolds(s))
    case DestroyHolds(s) => At(UnlockStream(st, s), t, DestroyReleased(s))
    case DestroyReleased(s) =>
      At(st.(erased := st.erased + {s}, active := if s < |st.ids| then st.active - {st.ids[s]} else st.active), t,
         DestroyErased(s))
    case DestroyErased(s) => At(Unlock(st.(destroyed := st.destroyed + {s})), t, Idle)
    case UsesNull => st
  }

  // ------------------------------------------------ the invariant

  /** The owner recorded for the table lock is the thread that is in its critical section. */
  predicate TableOk(st: State) {
    (st.tableOwner.Some? ==> st.tableOwner.value < |st.threads|) &&
    forall t :: 0 <= t < |st.threads| ==> (HoldsTable(st.threads[t]) <==> st.tableOwner == Some(t))
  }

  predicate OwnersOk(threads: seq<Pc>, owners: map<nat, nat>) {
    (forall s :: s in owners ==> owners[s] < |threads| && Holds(threads[owners[s]]) == Some(s)) &&
    forall t :: 0 <= t < |threads| ==>
      match Holds(threads[t]) case Some(s) => s in owners && owners[s] == t case None => true
  }

  /** The table holds exactly the streams that have been created and not erased, each under its own id. */
  predicate ActiveOk(st: State) {
    (forall id :: id in st.active ==>
       st.active[id] < |st.ids| && st.ids[st.active[id]] == id && st.active[id] !in st.erased) &&
    (forall s: nat :: s < |st.ids| && s !in st.erased ==> st.ids[s] in st.active && st.active[st.ids[s]] == s) &&
    st.destroyed <= st.erased <= st.doomed && (forall s :: s in st.doomed ==> s < |st.ids|)
  }

  /** No thread uses a stream that has left the table. */
  predicate UsesOk(st: State) {
    forall t :: 0 <= t < |st.threads| ==>
      match Uses(st.threads[t]) case Some(s) => s < |st.ids| && s !in st.erased case None => true
  }

  predicate OpsOk(st: State) {
    forall t :: 0 <= t < |st.threads| && (st.threads[t].OpWant? || st.threads[t].OpHolding?) ==>
      st.threads[t].s !in st.doomed
  }

  /** A destroyer works on a doomed stream, which it has erased or not. */
  predicate DestroysOk(st: State) {
    forall t :: 0 <= t < |st.threads| ==>
      match Destroys(st.threads[t])
      case Some(s) => s in st.doomed && s !in st.destroyed && (s in st.erased <==> st.threads[t].DestroyErased?)
      case None => true
  }

  /** A stream is destroyed by one thread only. */
  predicate OneDestroyer(st: State) {
    forall t, u :: 0 <= t < |st.threads| && 0 <= u < |st.threads| && t != u ==>
      Destroys(st.threads[t]).None? || Destroys(st.threads[t]) != Destroys(st.threads[u])
  }

  /** When a destroyer has had the lock of the stream, nobody uses the stream any more. */
  predicate AloneOk(st: State) {
    forall t, u :: 0 <= t < |st.threads| && 0 <= u < |st.threads| ==>
      Alone(st.threads[t]).None? || Alone(st.threads[t]) != Uses(st.threads[u])
  }

  /** A reader has got a stream that carries the id it has asked for. */
  predicate RightStream(st: State) {
    forall t :: 0 <= t < |st.threads| ==> Right(st.threads[t], st.ids)
  }

  predicate Right(pc: Pc, ids: seq<StreamId>) {
    pc.WantStream? || pc.HasBoth? || pc.Handling? ==> pc.s < |ids| && ids[pc.s] == pc.id
  }

  /** A stream that gRPC has asked to destroy has been destroyed or is being destroyed, and so is one that
      has left the table. */
  predicate DoomedOk(st: State) {
    (forall s :: s in st.doomed ==> s in st.destroyed || BeingDestroyed(st.threads, s)) &&
    forall s :: s in st.erased ==> s in st.destroyed || DestroyErased(s) in st.threads
  }

  predicate BeingDestroyed(threads: seq<Pc>, s: nat) {
    exists t :: 0 <= t < |threads| && Destroys(threads[t]) == Some(s)
  }

  predicate Inv(st: State) {
    TableOk(st) && OwnersOk(st.threads, st.owners) && ActiveOk(st) && UsesOk(st) && OpsOk(st) && DestroysOk(st) &&
    OneDestroyer(st) && AloneOk(st) && RightStream(st) && DoomedOk(st)
  }

  lemma NewStateOk(n: nat)
    ensures Inv(NewState(n))
  {}

  lemma StepTable(st: State, t: nat, c: Choice)
    requires TableOk(st) && Enabled(st, t, c)
    ensures TableOk(Step(st, t, c))
  {}

  lemma OwnersUntouched(threads: seq<Pc>, owners: map<nat, nat>, t: nat, pc: Pc)
    requires OwnersOk(threads, owners) && t < |threads| && Holds(pc) == Holds(threads[t])
    ensures OwnersOk(threads[t := pc], owners)
  {}

  lemma OwnersLocked(threads: seq<Pc>, owners: map<nat, nat>, t: nat, pc: Pc, s: nat)
    requires OwnersOk(threads, owners) && t < |threads| && Holds(threads[t]).None? && Holds(pc) == Some(s)
    requires s !in owners
    ensures OwnersOk(threads[t := pc], owners[s := t])
  {}

  lemma OwnersUnlocked(threads: seq<Pc>, owners: map<nat, nat>, t: nat, pc: Pc, s: nat)
    requires OwnersOk(threads, owners) && t < |threads| && Holds(threads[t]) == Some(s) && Holds(pc).None?
    ensures OwnersOk(threads[t := pc], owners - {s})
  {
    var r, left := threads[t := pc], owners - {s};
    forall x | x in left ensures left[x] < |r| && Holds(r[left[x]]) == Some(x) {
      assert x in owners && x != s;
    }
  }

  lemma StepOwners(st: State, t: nat, c: Choice)
    requires OwnersOk(st.threads, st.owners) && Enabled(st, t, c)
    ensures OwnersOk(Step(st, t, c).threads, Step(st, t, c).owners)
  {
    hide MayDestroy, OwnersOk;
    var pc, next := st.threads[t], Step(st, t, c).threads[t];
    assert Step(st, t, c).threads == st.threads[t := next];
    if Holds(pc).None? && Holds(next).Some? {
      OwnersLocked(st.threads, st.owners, t, next, Holds(next).value);
    } else if Holds(pc).Some? && Holds(next).None? {
      OwnersUnlocked(st.threads, st.owners, t, next, Holds(pc).value);
    } else {
      OwnersUntouched(st.threads, st.owners, t, next);
    }
  }

  lemma Created(st: State, id: StreamId)
    requires ActiveOk(st) && id !in st.active
    ensures ActiveOk(st.(ids := st.ids + [id], active := st.active[id := |st.ids|]))
  {
    var r := st.(ids := st.ids + [id], active := st.active[id := |st.ids|]);
    assert forall s :: 0 <= s < |st.ids| ==> r.ids[s] == st.ids[s];
    assert |st.ids| !in st.erased;
  }

  lemma Erased(st: State, s: nat)
    requires ActiveOk(st) && s in st.doomed && s !in st.erased
    ensures ActiveOk(st.(erased := st.erased + {s}, active := st.active - {st.ids[s]}))
  {}

  lemma StepActive(st: State, t: nat, c: Choice)
    requires ActiveOk(st) && DestroysOk(st) && Enabled(st, t, c)
    ensures ActiveOk(Step(st, t, c))
  {
    hide ActiveOk, DestroysOk, MayDestroy, Step;
    match st.threads[t]
    case Idle => StartActive(st, t, c);
    case InTable(id, create) => FindActive(st, t, c);
    case DestroyReleased(s) => EraseActive(st, t, c);
    case DestroyErased(s) => DestroyActive(st, t, c);
    case _ => OtherActive(st, t, c);
  }

  lemma StartActive(st: State, t: nat, c: Choice)
    requires ActiveOk(st) && Enabled(st, t, c) && st.threads[t].Idle?
    ensures ActiveOk(Step(st, t, c))
  {}

  lemma FindActive(st: State, t: nat, c: Choice)
    requires ActiveOk(st) && Enabled(st, t, c) && st.threads[t].InTable?
    ensures ActiveOk(Step(st, t, c))
  {
    hide ActiveOk;
    var pc := st.threads[t];
    SameTable(st, Step(st, t, c));
    if pc.id !in st.active {
      Created(st, pc.id);
      SameTable(st.(ids := st.ids + [pc.id], active := st.active[pc.id := |st.ids|]), Step(st, t, c));
    }
  }

  lemma EraseActive(st: State, t: nat, c: Choice)
    requires ActiveOk(st) && DestroysOk(st) && Enabled(st, t, c) && st.threads[t].DestroyReleased?
    ensures ActiveOk(Step(st, t, c))
  {
    var s := st.threads[t].s;
    assert Destroys(st.threads[t]) == Some(s);
    assert s < |st.ids|;
    hide ActiveOk, DestroysOk;
    Erased(st, s);
    SameTable(st.(erased := st.erased + {s}, active := st.active - {st.ids[s]}), Step(st, t, c));
  }

  lemma DestroyActive(st: State, t: nat, c: Choice)
    requires ActiveOk(st) && DestroysOk(st) && Enabled(st, t, c) && st.threads[t].DestroyErased?
    ensures ActiveOk(Step(st, t, c))
  {
    assert Destroys(st.threads[t]) == Some(st.threads[t].s);
  }

  /** Steps that only take or release locks. */
  lemma OtherActive(st: State, t: nat, c: Choice)
    requires ActiveOk(st) && Enabled(st, t, c)
    requires var pc := st.threads[t]; !pc.Idle? && !pc.InTable? && !pc.DestroyReleased? && !pc.DestroyErased?
    ensures ActiveOk(Step(st, t, c))
  {
    hide ActiveOk;
    SameTable(st, Step(st, t, c));
  }

  lemma SameTable(a: State, b: State)
    requires ActiveOk(a)
    ensures a.active == b.active && a.ids == b.ids && a.doomed == b.doomed && a.erased == b.erased ==>
              a.destroyed == b.destroyed ==> ActiveOk(b)
  {}

  lemma StepUses(st: State, t: nat, c: Choice)
    requires UsesOk(st) && ActiveOk(st) && AloneOk(st) && Enabled(st, t, c)
    ensures UsesOk(Step(st, t, c))
  {}

  lemma StepOps(st: State, t: nat, c: Choice)
    requires OpsOk(st) && Enabled(st, t, c)
    ensures OpsOk(Step(st, t, c))
  {}

  lemma StepDestroys(st: State, t: nat, c: Choice)
    requires DestroysOk(st) && OneDestroyer(st) && ActiveOk(st) && Enabled(st, t, c)
    ensures DestroysOk(Step(st, t, c))
  {}

  lemma StepOneDestroyer(st: State, t: nat, c: Choice)
    requires DestroysOk(st) && OneDestroyer(st) && Enabled(st, t, c)
    ensures OneDestroyer(Step(st, t, c))
  {}

  lemma IdsGrow(st: State, t: nat, c: Choice)
    requires Enabled(st, t, c)
    ensures st.ids <= Step(st, t, c).ids
  {
    hide MayDestroy;
  }

  lemma MineRight(st: State, t: nat, c: Choice)
    requires Enabled(st, t, c) && Right(st.threads[t], st.ids) && ActiveOk(st)
    ensures Right(Step(st, t, c).threads[t], Step(st, t, c).ids)
  {
    hide MayDestroy, ActiveOk;
    var pc := st.threads[t];
    assert pc.InTable? && pc.id in st.active ==> st.active[pc.id] < |st.ids| && st.ids[st.active[pc.id]] == pc.id by {
      TableHasId(st);
    }
  }

  lemma TableHasId(st: State)
    requires ActiveOk(st)
    ensures forall id :: id in st.active ==> st.active[id] < |st.ids| && st.ids[st.active[id]] == id
  {}

  lemma StepRight(st: State, t: nat, c: Choice)
    requires RightStream(st) && ActiveOk(st) && Enabled(st, t, c)
    ensures RightStream(Step(st, t, c))
  {
    hide Step, ActiveOk, Enabled;
    IdsGrow(st, t, c);
    OthersStay(st, t, c);
    assert Right(st.threads[t], st.ids);
    MineRight(st, t, c);
  }

  /** The part of a thread in the end of a stream. */
  lemma MineDoomed(st: State, t: nat, c: Choice)
    requires Enabled(st, t, c)
    ensures var n, pc := Step(st, t, c), st.threads[t];
            var next := n.threads[t];
            (Destroys(pc).Some? ==> Destroys(next) == Destroys(pc) || Destroys(pc).value in n.destroyed) &&
            (forall s :: s in n.doomed ==> s in st.doomed || Destroys(next) == Some(s)) &&
            (forall s :: s in n.erased ==> s in st.erased || next == DestroyErased(s)) &&
            (pc.DestroyErased? ==> pc.s in n.destroyed) && st.destroyed <= n.destroyed
  {
    hide MayDestroy;
  }

  lemma StepDoomed(st: State, t: nat, c: Choice)
    requires DoomedOk(st) && Enabled(st, t, c)
    ensures DoomedOk(Step(st, t, c))
  {
    hide Step, Enabled, Destroys;
    OthersStay(st, t, c);
    var n, pc := Step(st, t, c), st.threads[t];
    var next := n.threads[t];
    MineDoomed(st, t, c);
    forall s | s in n.doomed ensures s in n.destroyed || BeingDestroyed(n.threads, s) {
      if s in st.doomed && s !in st.destroyed {
        var u :| 0 <= u < |st.threads| && Destroys(st.threads[u]) == Some(s);
        assert Destroys(n.threads[u]) == Some(s) || s in n.destroyed;
      } else if s !in st.doomed {
        assert Destroys(n.threads[t]) == Some(s);
      }
    }
    forall s | s in n.erased ensures s in n.destroyed || DestroyErased(s) in n.threads {
      if s in st.erased && s !in st.destroyed {
        var u :| 0 <= u < |st.threads| && st.threads[u] == DestroyErased(s);
        assert n.threads[u] == DestroyErased(s) || s in n.destroyed;
      }
    }
  }

  /** A destroyer that gets the lock of the stream has the table locked too: nobody can be using it. */
  lemma BecomesAlone(st: State, t: nat, u: nat, s: nat)
    requires Inv(st) && t < |st.threads| && st.threads[t] == DestroyInTable(s) && s !in st.owners && u < |st.threads|
    ensures Uses(st.threads[u]) != Some(s)
  {}

  lemma StepAlone(st: State, t: nat, c: Choice)
    requires Inv(st) && Enabled(st, t, c)
    ensures AloneOk(Step(st, t, c))
  {
    hide OwnersOk, ActiveOk, UsesOk, OneDestroyer, RightStream, DoomedOk, MayDestroy;
    var r, pc := Step(st, t, c), st.threads[t];
    forall v, u | 0 <= v < |r.threads| && 0 <= u < |r.threads| && Alone(r.threads[v]).Some?
      ensures Alone(r.threads[v]) != Uses(r.threads[u])
    {
      if v == t && pc.DestroyInTable? && u != t { BecomesAlone(st, t, u, pc.s); }
      if u == t && v != t {
        assert Alone(st.threads[v]).Some? && HoldsTable(st.threads[v]) && !HoldsTable(pc);
        assert Destroys(st.threads[v]) == Alone(st.threads[v]);
      }
    }
  }

  lemma StepOk(st: State, t: nat, c: Choice)
    requires Inv(st) && Enabled(st, t, c)
    ensures Inv(Step(st, t, c))
  {
    hide TableOk, OwnersOk, ActiveOk, UsesOk, OpsOk, DestroysOk, OneDestroyer, AloneOk, RightStream, DoomedOk, Step,
      Enabled;
    StepTable(st, t, c);
    StepOwners(st, t, c);
    StepActive(st, t, c);
    StepUses(st, t, c);
    StepOps(st, t, c);
    StepDestroys(st, t, c);
    StepOneDestroyer(st, t, c);
    StepAlone(st, t, c);
    StepRight(st, t, c);
    StepDoomed(st, t, c);
  }

  // ------------------------------------------------ all interleavings

  datatype Action = Action(t: nat, c: Choice)

  predicate Schedule(st: State, actions: seq<Action>)
    decreases |actions|
  {
    actions == [] ||
    (Enabled(st, actions[0].t, actions[0].c) && Schedule(Step(st, actions[0].t, actions[0].c), actions[1..]))
  }

  function Run(st: State, actions: seq<Action>): State
    requires Schedule(st, actions)
    decreases |actions|
  {
    if actions == [] then st else Run(Step(st, actions[0].t, actions[0].c), actions[1..])
  }

  lemma {:induction false} RunOk(st: State, actions: seq<Action>)
    requires Inv(st) && Schedule(st, actions)
    ensures Inv(Run(st, actions)) && |Run(st, actions).threads| == |st.threads|
    decreases |actions|
  {
    hide Inv, Enabled, Step;
    if actions != [] {
      var a := actions[0];
      StepOk(st, a.t, a.c);
      SameThreads(st, a.t, a.c);
      RunOk(Step(st, a.t, a.c), actions[1..]);
    }
  }

  lemma SameThreads(st: State, t: nat, c: Choice)
    requires Enabled(st, t, c)
    ensures |Step(st, t, c).threads| == |st.threads|
  {}

  /** Whatever the threads do, in whatever order: no stream in the table has been destroyed, no thread
      works on a stream that has been destroyed, and each id leads to the one stream that carries it
      and has not left the table. */
  lemma NoUseAfterDestroy(n: nat, actions: seq<Action>)
    requires Schedule(NewState(n), actions)
    ensures var st := Run(NewState(n), actions);
            (forall id :: id in st.active ==>
               st.active[id] < |st.ids| && st.active[id] !in st.destroyed && st.ids[st.active[id]] == id) &&
            (forall s: nat, r: nat :: s < r < |st.ids| && s !in st.erased && r !in st.erased ==>
               st.ids[s] != st.ids[r]) &&
            (forall t, s :: 0 <= t < |st.threads| && s in st.destroyed ==> Uses(st.threads[t]) != Some(s))
  {
    NewStateOk(n);
    RunOk(NewState(n), actions);
  }

  /** A thread that has found a stream has the one that the table has for the id it has asked for. */
  lemma ReaderHasItsStream(n: nat, actions: seq<Action>, t: nat)
    requires Schedule(NewState(n), actions) && t < |Run(NewState(n), actions).threads|
    ensures var st := Run(NewState(n), actions);
            var pc := st.threads[t];
            pc.WantStream? || pc.HasBoth? || pc.Handling? ==>
              pc.s < |st.ids| && st.ids[pc.s] == pc.id && pc.id in st.active && st.active[pc.id] == pc.s
  {
    NewStateOk(n);
    RunOk(NewState(n), actions);
    var pc := Run(NewState(n), actions).threads[t];
    assert pc.WantStream? || pc.HasBoth? || pc.Handling? ==> Uses(pc) == Some(pc.s);
  }

  /** A step that destroys a stream finds nobody else at work on it, and it is the first to destroy it. */
  lemma DestroyedOnceAlone(st: State, t: nat)
    requires Inv(st) && t < |st.threads| && st.threads[t].DestroyErased?
    ensures st.threads[t].s !in st.destroyed
    ensures forall u :: 0 <= u < |st.threads| && u != t ==>
              Uses(st.threads[u]) != Some(st.threads[t].s) && Destroys(st.threads[u]) != Some(st.threads[t].s)
  {
    assert Alone(st.threads[t]) == Some(st.threads[t].s) == Destroys(st.threads[t]);
  }

  // ------------------------------------------------ progress

  predicate Busy(pc: Pc) { !pc.Idle? && !pc.UsesNull? }

  /** A thread that holds a lock without waiting for another. */
  predicate Running(pc: Pc) {
    !pc.Idle? && !pc.UsesNull? && !pc.WantTable? && !pc.DestroyWant? && !pc.WantStream? && !pc.OpWant? &&
    !pc.DestroyInTable?
  }

  /** The lock order: a thread that has a stream locked never waits for a lock. */
  lemma StreamLockIsLast(st: State, s: nat)
    requires Inv(st) && s in st.owners
    ensures Running(st.threads[st.owners[s]])
  {}

  /** If any thread is busy, some busy thread can go on: there is no deadlock. */
  lemma NoDeadlock(st: State, t: nat) returns (u: nat)
    requires Inv(st) && t < |st.threads| && Busy(st.threads[t])
    ensures u < |st.threads| && Busy(st.threads[u]) && Enabled(st, u, Go)
  {
    u := if (st.threads[t].WantTable? || st.threads[t].DestroyWant?) && st.tableOwner.Some?
         then st.tableOwner.value else t;
    var pc := st.threads[u];
    if (pc.WantStream? || pc.OpWant? || pc.DestroyInTable?) && pc.s in st.owners {
      StreamLockIsLast(st, pc.s);
      u := st.owners[pc.s];
    }
    hide ActiveOk, UsesOk, OpsOk, DestroysOk, OneDestroyer, AloneOk, RightStream, DoomedOk;
  }

  /** How many steps a call has before it, at most. */
  function StepsLeft(pc: Pc): nat {
    match pc
    case Idle => 0
    case UsesNull => 0
    case WantTable(_, _) => 5
    case InTable(_, _) => 4
    case WantStream(_, _, _) => 3
    case HasBoth(_, _, _) => 2
    case Handling(_, _, _) => 1
    case OpWant(_) => 2
    case OpHolding(_) => 1
    case DestroyWant(_) => 5
    case DestroyInTable(_) => 4
    case DestroyHolds(_) => 3
    case DestroyReleased(_) => 2
    case DestroyErased(_) => 1
  }

  function Work(threads: seq<Pc>): nat {
    if threads == [] then 0 else Work(threads[..|threads| - 1]) + StepsLeft(threads[|threads| - 1])
  }

  lemma {:induction false} WorkUpdate(threads: seq<Pc>, t: nat, pc: Pc)
    requires t < |threads|
    ensures Work(threads[t := pc]) + StepsLeft(threads[t]) == Work(threads) + StepsLeft(pc)
    decreases |threads|
  {
    var n := |threads| - 1;
    if t == n {
      assert threads[t := pc][..n] == threads[..n];
    } else {
      WorkUpdate(threads[..n], t, pc);
      assert threads[t := pc][..n] == threads[..n][t := pc];
    }
  }

  lemma StepWorks(st: State, t: nat, c: Choice)
    requires Enabled(st, t, c) && Busy(st.threads[t])
    ensures Work(Step(st, t, c).threads) < Work(st.threads)
  {
    hide Work, MayDestroy;
    var next := Step(st, t, c).threads[t];
    assert Step(st, t, c).threads == st.threads[t := next];
    WorkUpdate(st.threads, t, next);
  }

  /** No call starts in the schedule. */
  predicate OnlyBusy(st: State, actions: seq<Action>)
    requires Schedule(st, actions)
    decreases |actions|
  {
    actions == [] ||
    (Busy(st.threads[actions[0].t]) && OnlyBusy(Step(st, actions[0].t, actions[0].c), actions[1..]))
  }

  /** Every call that has started is completed by a bounded number of steps, in whatever order the busy
      threads take them: as long as one is busy a step is possible, and no schedule goes on for ever. */
  lemma {:induction false} CallsComplete(st: State, actions: seq<Action>)
    requires Inv(st) && Schedule(st, actions) && OnlyBusy(st, actions)
    ensures |actions| + Work(Run(st, actions).threads) <= Work(st.threads)
    ensures var r := Run(st, actions);
            (exists t :: 0 <= t < |r.threads| && Busy(r.threads[t])) ==>
              exists u: nat :: Enabled(r, u, Go) && Busy(r.threads[u])
    decreases |actions|
  {
    hide Inv, Work, Step, Enabled;
    if actions == [] {
      if t: nat :| t < |st.threads| && Busy(st.threads[t]) { var u := NoDeadlock(st, t); }
    } else {
      var a := actions[0];
      StepOk(st, a.t, a.c);
      StepWorks(st, a.t, a.c);
      CallsComplete(Step(st, a.t, a.c), actions[1..]);
    }
  }

  // ------------------------------------------------ every call does what it is for

  datatype Call = Lookup(id: StreamId, create: bool) | Op(s: nat) | Destruction(s: nat)

  /** The call that a thread is in; a lookup includes what onRead does with the stream. */
  function CallOf(pc: Pc): Option<Call> {
    match pc
    case Idle => None
    case UsesNull => None
    case WantTable(id, create) => Some(Lookup(id, create))
    case InTable(id, create) => Some(Lookup(id, create))
    case WantStream(id, create, _) => Some(Lookup(id, create))
    case HasBoth(id, create, _) => Some(Lookup(id, create))
    case Handling(id, create, _) => Some(Lookup(id, create))
    case OpWant(s) => Some(Op(s))
    case OpHolding(s) => Some(Op(s))
    case _ => Some(Destruction(pc.s))
  }

  /** The call that an action starts. */
  function Starts(st: State, a: Action): Option<Call>
    requires Enabled(st, a.t, a.c)
  {
    if !st.threads[a.t].Idle? then None
    else
      match a.c
      case GetStream(id, create) => Some(Lookup(id, create))
      case PerformOp(s) => Some(Op(s))
      case DestroyStream(s) => Some(Destruction(s))
      case _ => None
  }

  /** getStream finds no stream in the table, and it is not to create one or gRPC provides none. */
  predicate FindsNone(st: State, a: Action) {
    a.t < |st.threads| &&
    match st.threads[a.t]
    case InTable(id, create) => id !in st.active && (!create || a.c.Refused?)
    case _ => false
  }

  /** The call that an action completes: the thread works on the stream, with its lock, for the last time,
      it destroys the stream, or there is none. */
  function Completes(st: State, a: Action): Option<Call>
    requires Enabled(st, a.t, a.c)
  {
    var pc := st.threads[a.t];
    if FindsNone(st, a) || pc.Handling? || pc.OpHolding? || pc.DestroyErased? then CallOf(pc) else None
  }

  function One(o: Option<Call>, x: Call): nat { if o == Some(x) then 1 else 0 }

  /** How often a thread starts a call in a schedule, and how often it completes it. */
  function Started(st: State, actions: seq<Action>, t: nat, x: Call): nat
    requires Schedule(st, actions)
    decreases |actions|
  {
    if actions == [] then 0
    else
      var a := actions[0];
      (if a.t == t then One(Starts(st, a), x) else 0) + Started(Step(st, a.t, a.c), actions[1..], t, x)
  }

  function Completed(st: State, actions: seq<Action>, t: nat, x: Call): nat
    requires Schedule(st, actions)
    decreases |actions|
  {
    if actions == [] then 0
    else
      var a := actions[0];
      (if a.t == t then One(Completes(st, a), x) else 0) + Completed(Step(st, a.t, a.c), actions[1..], t, x)
  }

  /** A step starts a call, completes it or goes on with it. */
  lemma StepCalls(st: State, a: Action)
    requires Enabled(st, a.t, a.c)
    ensures var next := CallOf(Step(st, a.t, a.c).threads[a.t]);
            if st.threads[a.t].Idle? then next == Starts(st, a) && Completes(st, a).None?
            else Starts(st, a).None? &&
                 if Completes(st, a).Some? then Completes(st, a) == CallOf(st.threads[a.t]) && next.None?
                 else next == CallOf(st.threads[a.t])
  {
    hide Step, MayDestroy, FindsNone;
    if st.threads[a.t].Idle? { FirstCall(st, a); } else { NextCall(st, a); }
  }

  lemma FirstCall(st: State, a: Action)
    requires Enabled(st, a.t, a.c) && st.threads[a.t].Idle?
    ensures CallOf(Step(st, a.t, a.c).threads[a.t]) == Starts(st, a) && !FindsNone(st, a)
  {
    hide MayDestroy;
  }

  lemma NextCall(st: State, a: Action)
    requires Enabled(st, a.t, a.c) && !st.threads[a.t].Idle?
    ensures var pc := st.threads[a.t];
            CallOf(Step(st, a.t, a.c).threads[a.t]) ==
              (if FindsNone(st, a) || pc.Handling? || pc.OpHolding? || pc.DestroyErased? then None else CallOf(pc))
    ensures FindsNone(st, a) ==> st.threads[a.t].InTable?
  {
    hide MayDestroy;
  }

  /** In every schedule, every call that a thread starts is completed by it or still under way: none is
      dropped, none is done twice. */
  lemma {:induction false} CallsAccountedFor(st: State, actions: seq<Action>, t: nat, x: Call)
    requires Schedule(st, actions) && t < |st.threads|
    ensures t < |Run(st, actions).threads|
    ensures One(CallOf(Run(st, actions).threads[t]), x) + Completed(st, actions, t, x) ==
            One(CallOf(st.threads[t]), x) + Started(st, actions, t, x)
    decreases |actions|
  {
    hide Enabled, Step, Starts, Completes, FindsNone;
    if actions != [] {
      var a := actions[0];
      StepCalls(st, a);
      OthersStay(st, a.t, a.c);
      CallsAccountedFor(Step(st, a.t, a.c), actions[1..], t, x);
    }
  }

  /** A destroyer that has had the lock of the stream and released it. */
  function HasReleased(pc: Pc, s: nat): nat { if pc == DestroyReleased(s) || pc == DestroyErased(s) then 1 else 0 }

  /** How often a thread, as a destroyer, holds the lock of a stream, in a schedule. */
  function Held(st: State, actions: seq<Action>, t: nat, s: nat): nat
    requires Schedule(st, actions)
    decreases |actions|
  {
    if actions == [] then 0
    else
      var a := actions[0];
      (if a.t == t && st.threads[t] == DestroyHolds(s) then 1 else 0) + Held(Step(st, a.t, a.c), actions[1..], t, s)
  }

  lemma StepReleases(st: State, a: Action, s: nat)
    requires Enabled(st, a.t, a.c)
    ensures HasReleased(Step(st, a.t, a.c).threads[a.t], s) + One(Completes(st, a), Destruction(s)) ==
            HasReleased(st.threads[a.t], s) + if st.threads[a.t] == DestroyHolds(s) then 1 else 0
  {
    hide MayDestroy;
  }

  /** Over every schedule, a thread destroys a stream as often as it has held its lock for that purpose before:
      it has waited until whoever used the stream was done. */
  lemma {:induction false} LockedBeforeDestroyed(st: State, actions: seq<Action>, t: nat, s: nat)
    requires Schedule(st, actions) && t < |st.threads|
    ensures t < |Run(st, actions).threads|
    ensures HasReleased(Run(st, actions).threads[t], s) + Completed(st, actions, t, Destruction(s)) ==
            HasReleased(st.threads[t], s) + Held(st, actions, t, s)
    decreases |actions|
  {
    hide Enabled, Step, Completes, FindsNone;
    if actions != [] {
      var a := actions[0];
      StepReleases(st, a, s);
      OthersStay(st, a.t, a.c);
      LockedBeforeDestroyed(Step(st, a.t, a.c), actions[1..], t, s);
    }
  }

  /** What a thread has at the end of a call. A lookup ends without a stream exactly if the id is not in the
      table and none is to be created or gRPC refuses; otherwise the thread has worked on the stream that
      the table has for the id, as the owner of its lock. An op has been performed by the owner of the lock.
      A stream whose destruction ends is destroyed by this step. */
  lemma CompletedWell(st: State, a: Action)
    requires Inv(st) && Enabled(st, a.t, a.c) && Completes(st, a).Some?
    ensures var n, pc := Step(st, a.t, a.c), st.threads[a.t];
            match Completes(st, a).value
            case Lookup(id, create) =>
              if pc.InTable? then
                id !in st.active && (!create || a.c.Refused?) && n.ids == st.ids && n.active == st.active &&
                n.threads[a.t] == if create then UsesNull else Idle
              else
                id in st.active && pc == Handling(id, create, st.active[id]) &&
                pc.s in st.owners && st.owners[pc.s] == a.t &&
                n.owners == st.owners - {pc.s} && n.threads[a.t].Idle?
            case Op(s) => s in st.owners && st.owners[s] == a.t && n.owners == st.owners - {s} && s !in st.destroyed
            case Destruction(s) => s !in st.destroyed && n.destroyed == st.destroyed + {s} && st.ids == n.ids
  {
    hide TableOk, OneDestroyer, AloneOk, DoomedOk, MayDestroy;
    var pc := st.threads[a.t];
    assert pc.Handling? || pc.OpHolding? ==> Holds(pc) == Some(pc.s) && Uses(pc) == Some(pc.s);
    assert pc.DestroyErased? ==> Destroys(pc) == Some(pc.s);
  }

  /** When no thread is busy, all streams that gRPC has asked to destroy have been destroyed and have left the
      table, and no other stream has. */
  lemma AllDestroyed(st: State)
    requires Inv(st) && forall t :: 0 <= t < |st.threads| ==> !Busy(st.threads[t])
    ensures st.doomed == st.destroyed == st.erased
    ensures forall s: nat :: s < |st.ids| ==>
              (s in st.doomed <==> !(st.ids[s] in st.active && st.active[st.ids[s]] == s))
  {
    hide TableOk, OwnersOk, OneDestroyer, AloneOk, UsesOk, OpsOk, RightStream;
    forall s ensures !BeingDestroyed(st.threads, s) {}
  }

  // ------------------------------------------------ the stream that is not there

  predicate HasNull(st: State) { exists u :: 0 <= u < |st.threads| && st.threads[u].UsesNull? }

  /** getStream is to create a stream for an id that is not in the table, and gRPC provides none. */
  predicate Misses(st: State, a: Action) {
    a.c.Refused? && FindsNone(st, a) && st.threads[a.t].create
  }

  predicate SomeMiss(st: State, actions: seq<Action>)
    requires Schedule(st, actions)
    decreases |actions|
  {
    actions != [] &&
    (Misses(st, actions[0]) || SomeMiss(Step(st, actions[0].t, actions[0].c), actions[1..]))
  }

  lemma StepNull(st: State, a: Action)
    requires Enabled(st, a.t, a.c)
    ensures HasNull(Step(st, a.t, a.c)) <==> HasNull(st) || Misses(st, a)
  {
    hide MayDestroy;
    var n := Step(st, a.t, a.c);
    assert !st.threads[a.t].UsesNull? && (n.threads[a.t].UsesNull? <==> Misses(st, a));
    OthersStay(st, a.t, a.c);
    hide Step, Misses, Enabled;
    if HasNull(st) {
      var u :| 0 <= u < |st.threads| && st.threads[u].UsesNull?;
      assert n.threads[u].UsesNull?;
    }
  }

  lemma OthersStay(st: State, t: nat, c: Choice)
    requires Enabled(st, t, c)
    ensures var n := Step(st, t, c);
            t < |n.threads| == |st.threads| &&
            forall u :: 0 <= u < |st.threads| && u != t ==> n.threads[u] == st.threads[u]
  {
    hide MayDestroy;
  }

  /** A reader works on a null stream exactly if, at some step of the run, getStream was to create a stream
      for an id that was not in the table and gRPC provided none. */
  lemma {:induction false} NullExactly(st: State, actions: seq<Action>)
    requires Schedule(st, actions)
    ensures HasNull(Run(st, actions)) <==> HasNull(st) || SomeMiss(st, actions)
    decreases |actions|
  {
    hide HasNull, Misses, Step, Enabled;
    if actions != [] {
      StepNull(st, actions[0]);
      NullExactly(Step(st, actions[0].t, actions[0].c), actions[1..]);
    }
  }

  /** One message is enough for that: onRead uses the null pointer that getStream returns. */
  lemma NullIsUsed(id: StreamId)
    ensures var actions := [Action(0, GetStream(id, true)), Action(0, Go), Action(0, Refused)];
            Schedule(NewState(1), actions) && Run(NewState(1), actions).threads == [UsesNull]
  {
    var a, b, c := Action(0, GetStream(id, true)), Action(0, Go), Action(0, Refused);
    var s0 := NewState(1);
    var s1 := Step(s0, 0, a.c);
    var s2 := Step(s1, 0, b.c);
    var s3 := Step(s2, 0, c.c);
    assert s1.threads == [WantTable(id, true)] && s2.threads == [InTable(id, true)] && s3.threads == [UsesNull];
    FirstStep(s2, c, []);
    FirstStep(s1, b, [c]);
    FirstStep(s0, a, [b, c]);
    assert [c] == [c] + [] && [b, c] == [b] + [c] && [a, b, c] == [a] + [b, c];
    hide Step, Enabled, Run, Schedule;
  }

  lemma FirstStep(st: State, a: Action, rest: seq<Action>)
    requires Enabled(st, a.t, a.c) && Schedule(Step(st, a.t, a.c), rest)
    ensures Schedule(st, [a] + rest) && Run(st, [a] + rest) == Run(Step(st, a.t, a.c), rest)
  {
    hide Step, Enabled;
    assert ([a] + rest)[0] == a && ([a] + rest)[1..] == rest;
  }
}

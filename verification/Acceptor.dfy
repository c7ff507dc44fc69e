/**
 The connection-slot protocol of Acceptor as a state machine: one step per atomic operation or critical
 section, any number of accept loops, recycle callbacks, StopAccept and Join interleaved at will.
 */
module Acceptor {
  import opened Bytes

  type Id = nat

  datatype Status = Uninitialized | Ready | Running | Stopping

  /** Where an accept loop stands in OnNewConnectionsUntilEAGAIN. */
  datatype Pc =
    | AtAccept
    | GotFd
    | Loaded(count: int)
    | CanSwap(count: int)
    | Refused
    | Acquired
    | Created(id: Id)
    | Pinned(id: Id)
    | Inserted(id: Id, running: bool)
    | Unregistered(id: Id)
    | Discarding(id: Id)
    | Abandoned

  /** The loop owns a slot that is neither in the map nor released. */
  predicate Owns(pc: Pc) {
    pc.Acquired? || pc.Created? || pc.Pinned? || pc.Unregistered? || pc.Abandoned?
  }

  /** The loop holds an accepted fd that is neither admitted nor rejected. */
  predicate Deciding(pc: Pc) {
    pc.GotFd? || pc.Loaded? || pc.CanSwap? || pc.Refused?
  }

  predicate HasId(pc: Pc) {
    pc.Created? || Pins(pc)
  }

  /** The loop keeps a reference to the socket. */
  predicate Pins(pc: Pc) {
    pc.Pinned? || pc.Inserted? || pc.Unregistered? || pc.Discarding?
  }

  datatype Loop = Loop(home: Id, pc: Pc)

  /** StopAccept; present holds the ids registered ever since the listing began. */
  datatype Stopper = NotStopping | Marked | Listing(present: set<Id>) | Handing(list: set<Id>) | Stopped

  datatype Joiner = NotJoining | Waiting | Leaving

  /**
   releasing: a recycle callback holds the mutex between its erase and its decrement.
   maker tells which loop created an accepted socket; used holds these ids and those of listening sockets.
   live, failed, released: accepted sockets not recycled, failed, and given back by StopAccept.
   accepted and acquired count events; the source keeps only rejected.
   */
  datatype State = State(
    status: Status, listenedFd: int, acceptionId: Id, alive: set<Id>,
    registered: set<Id>, count: int, rejected: nat, limit: nat, releasing: bool,
    loops: map<nat, Loop>,
    maker: map<Id, nat>, used: set<Id>, live: set<Id>, failed: set<Id>, released: set<Id>,
    stop: Stopper, join: Joiner,
    accepted: nat, acquired: nat)

  const INITIAL := State(Uninitialized, -1, 0, {}, {}, 0, 0, 0, false, map[], map[], {}, {}, {}, {},
                         NotStopping, NotJoining, 0, 0)

  /** The steps of one accept loop. */
  datatype Move =
    | Accept
    | Leave
    | Load
    | Check
    | Swap(spurious: bool)
    | Reject
    | Create(id: Id, created: bool)
    | Address
    | Insert(inserted: bool)
    | Release
    | Discard
    | Advance

  datatype Step =
    | Start(fd: int, limit: nat, id: Id, created: bool)
    | SetLimit(limit: nat)
    | Enter(l: nat, home: Id)
    | Run(l: nat, move: Move)
    | Fail(id: Id)
    | Recycle(id: Id)
    | RecycleRelease
    | RecycleAcception(id: Id)
    | StopBegin
    | StopList
    | StopListed(list: set<Id>)
    | StopHand(id: Id, fails: bool)
    | StopEnd
    | JoinBegin
    | JoinExit
    | JoinEnd

  // Accept loops.

  predicate CanMove(s: State, pc: Pc, m: Move) {
    match m
    case Accept => pc.AtAccept?
    case Leave => pc.AtAccept?
    case Load => pc.GotFd?
    case Check => pc.Loaded?
    case Swap(_) => pc.CanSwap?
    case Reject => pc.Refused?
    case Create(id, _) => pc.Acquired? && id !in s.used
    case Address => pc.Created?
    case Insert(_) => pc.Pinned? && !s.releasing
    case Release => pc.Unregistered? || pc.Abandoned?
    case Discard => pc.Discarding? || (pc.Inserted? && !pc.running)
    case Advance => pc.Inserted? && pc.running
  }

  /** Where the loop goes, or None when it returns. */
  function Target(s: State, pc: Pc, m: Move): Option<Pc>
    requires CanMove(s, pc, m)
  {
    match m
    case Accept => Some(GotFd)
    case Leave => None
    case Load => Some(Loaded(s.count))
    case Check => Some(if s.limit != 0 && pc.count >= s.limit then Refused else CanSwap(pc.count))
    case Swap(spurious) => Some(if s.count == pc.count && !spurious then Acquired else Loaded(s.count))
    case Reject => Some(AtAccept)
    case Create(id, created) => Some(if created then Created(id) else Abandoned)
    case Address => Some(if pc.id in s.live then Pinned(pc.id) else Abandoned)
    case Insert(inserted) => Some(if inserted then Inserted(pc.id, s.status.Running?) else Unregistered(pc.id))
    case Release => Some(if pc.Abandoned? then AtAccept else Discarding(pc.id))
    case Discard => if pc.Discarding? then Some(AtAccept) else None
    case Advance => Some(AtAccept)
  }

  /** What the move does to the rest of the state. */
  function Effect(s: State, l: nat, pc: Pc, m: Move): State
    requires CanMove(s, pc, m)
  {
    match m
    case Accept => s.(accepted := s.accepted + 1)
    case Swap(spurious) =>
      if s.count == pc.count && !spurious then s.(count := s.count + 1, acquired := s.acquired + 1) else s
    case Reject => s.(rejected := s.rejected + 1)
    case Create(id, created) =>
      if created then s.(maker := s.maker[id := l], used := s.used + {id}, live := s.live + {id}) else s
    case Insert(inserted) => if inserted then s.(registered := s.registered + {pc.id}) else s
    case Release => s.(count := s.count - 1)
    case Discard => s.(failed := s.failed + {pc.id})
    case _ => s
  }

  function Moved(s: State, l: nat, m: Move): State
    requires l in s.loops && CanMove(s, s.loops[l].pc, m)
  {
    var pc := s.loops[l].pc;
    var to := Target(s, pc, m);
    Effect(s, l, pc, m).(loops := if to.None? then s.loops - {l} else s.loops[l := Loop(s.loops[l].home, to.value)])
  }

  // Everything else.

  /** StartAccept: the limit is set even when the listening socket cannot be created. */
  function Started(s: State, fd: int, limit: nat, id: Id, created: bool): State {
    if created then
      s.(limit := limit, acceptionId := id, alive := s.alive + {id}, used := s.used + {id}, listenedFd := fd,
         status := Running, stop := NotStopping)
    else s.(limit := limit, status := Ready)
  }

  predicate PinnedBy(s: State, l: nat, id: Id) {
    l in s.loops && Pins(s.loops[l].pc) && s.loops[l].pc.id == id
  }

  /** BeforeRecycle of an accepted socket, up to its erase. */
  function Recycled(s: State, id: Id): State {
    s.(live := s.live - {id}, registered := s.registered - {id}, releasing := id in s.registered,
       stop := if s.stop.Listing? then Listing(s.stop.present - {id}) else s.stop)
  }

  /** StopAccept on one listed id: nothing if the socket has failed or gone. */
  function Handed(s: State, id: Id, fails: bool): State
    requires s.stop.Handing?
  {
    var t := s.(stop := Handing(s.stop.list - {id}));
    if id !in s.live || id in s.failed then t
    else if fails then t.(failed := s.failed + {id}) else t.(released := s.released + {id})
  }

  /** What each step waits for; a step on the map or the status needs the mutex. */
  predicate Enabled(s: State, e: Step) {
    match e
    case Start(fd, _, id, _) =>
      && fd >= 0 && !s.releasing && (s.status.Uninitialized? || s.status.Ready?) && id !in s.used
      && (s.stop.NotStopping? || s.stop.Stopped?)
    case SetLimit(_) => true
    case Enter(l, home) => l !in s.loops && home in s.alive
    case Run(l, m) => l in s.loops && CanMove(s, s.loops[l].pc, m)
    case Fail(id) => id in s.live
    case Recycle(id) => !s.releasing && id in s.live && forall l :: l in s.loops ==> !PinnedBy(s, l, id)
    case RecycleRelease => s.releasing
    case RecycleAcception(id) => !s.releasing && id in s.alive && forall l :: l in s.loops ==> s.loops[l].home != id
    case StopBegin => !s.releasing && s.status.Running? && (s.stop.NotStopping? || s.stop.Stopped?)
    case StopList => !s.releasing && s.stop.Marked?
    case StopListed(list) => !s.releasing && s.stop.Listing? && s.stop.present <= list
    case StopHand(id, _) => s.stop.Handing? && id in s.stop.list
    case StopEnd => s.stop == Handing({})
    case JoinBegin => !s.releasing && s.join.NotJoining? && (s.status.Running? || s.status.Stopping?)
    case JoinExit => !s.releasing && s.join.Waiting? && s.listenedFd <= 0 && s.registered == {}
    case JoinEnd => !s.releasing && s.join.Leaving?
  }

  function Next(s: State, e: Step): State
    requires Enabled(s, e)
  {
    match e
    case Start(fd, limit, id, created) => Started(s, fd, limit, id, created)
    case SetLimit(limit) => s.(limit := limit)
    case Enter(l, home) => s.(loops := s.loops[l := Loop(home, AtAccept)])
    case Run(l, m) => Moved(s, l, m)
    case Fail(id) => s.(failed := s.failed + {id})
    case Recycle(id) => Recycled(s, id)
    case RecycleRelease => s.(count := s.count - 1, releasing := false)
    case RecycleAcception(id) =>
      s.(alive := s.alive - {id}, listenedFd := if id == s.acceptionId then -1 else s.listenedFd)
    case StopBegin => s.(status := Stopping, stop := Marked)
    case StopList => s.(stop := Listing(s.registered))
    case StopListed(list) => s.(stop := Handing(list))
    case StopHand(id, fails) => Handed(s, id, fails)
    case StopEnd => s.(stop := Stopped)
    case JoinBegin => s.(join := Waiting)
    case JoinExit => s.(join := Leaving)
    case JoinEnd => s.(status := Ready, join := NotJoining)
  }

  /** The state a run leads to from construction, if every step of it can be taken. */
  function After(es: seq<Step>): Option<State> {
    if es == [] then Some(INITIAL)
    else
      var r := After(es[..|es| - 1]);
      if r.Some? && Enabled(r.value, es[|es| - 1]) then Some(Next(r.value, es[|es| - 1])) else None
  }

  // Identities.

  /** Every loop runs on a listening socket that is alive. */
  predicate Housed(s: State) {
    forall l :: l in s.loops ==> s.loops[l].home in s.alive
  }

  /** The socket a loop works on is its own, lives while pinned, and is not registered while the loop owns its slot. */
  predicate Proper(s: State, l: nat, pc: Pc) {
    HasId(pc) ==>
      && pc.id in s.maker && s.maker[pc.id] == l
      && (Pins(pc) ==> pc.id in s.live)
      && (Owns(pc) ==> pc.id !in s.registered)
  }

  predicate Identified(s: State) {
    && s.registered <= s.live <= s.maker.Keys <= s.used
    && forall l :: l in s.loops ==> Proper(s, l, s.loops[l].pc)
  }

  lemma HousedStep(s: State, e: Step)
    requires Housed(s) && Enabled(s, e)
    ensures Housed(Next(s, e))
  {
  }

  /** A move keeps what it relies on, for its loop and for every other. */
  lemma EffectProper(s: State, l: nat, pc: Pc, m: Move)
    requires s.registered <= s.live <= s.maker.Keys <= s.used && Proper(s, l, pc) && CanMove(s, pc, m)
    ensures var t := Effect(s, l, pc, m);
            && t.registered <= t.live <= t.maker.Keys <= t.used
            && (Target(s, pc, m).Some? ==> Proper(t, l, Target(s, pc, m).value))
  {
  }

  lemma EffectOther(s: State, l: nat, pc: Pc, m: Move, k: nat, other: Pc)
    requires s.maker.Keys <= s.used && Proper(s, l, pc) && CanMove(s, pc, m) && k != l && Proper(s, k, other)
    ensures Proper(Effect(s, l, pc, m), k, other)
  {
  }

  lemma IdentifiedMove(s: State, l: nat, m: Move)
    requires Identified(s) && l in s.loops && CanMove(s, s.loops[l].pc, m)
    ensures Identified(Moved(s, l, m))
  {
    var pc, t := s.loops[l].pc, Moved(s, l, m);
    assert Proper(s, l, pc);
    EffectProper(s, l, pc, m);
    forall k | k in t.loops ensures Proper(t, k, t.loops[k].pc) {
      if k != l {
        assert Proper(s, k, s.loops[k].pc);
        EffectOther(s, l, pc, m, k, s.loops[k].pc);
      }
    }
  }

  lemma IdentifiedStep(s: State, e: Step)
    requires Identified(s) && Enabled(s, e)
    ensures Identified(Next(s, e))
  {
    if e.Run? {
      IdentifiedMove(s, e.l, e.move);
    } else {
      var t := Next(s, e);
      forall k | k in t.loops ensures Proper(t, k, t.loops[k].pc) {
        assert k in s.loops ==> Proper(s, k, s.loops[k].pc);
      }
    }
  }

  // Slots.

  ghost function Owners(loops: map<nat, Loop>): set<nat> {
    set l | l in loops && Owns(loops[l].pc)
  }

  ghost function Deciders(loops: map<nat, Loop>): set<nat> {
    set l | l in loops && Deciding(loops[l].pc)
  }

  function Bit(b: bool): int {
    if b then 1 else 0
  }

  lemma OwnersPut(loops: map<nat, Loop>, l: nat, loop: Loop)
    ensures |Owners(loops[l := loop])| == |Owners(loops)| - Bit(l in loops && Owns(loops[l].pc)) + Bit(Owns(loop.pc))
  {
    if Owns(loop.pc) {
      assert Owners(loops[l := loop]) == Owners(loops) + {l};
    } else {
      assert Owners(loops[l := loop]) == Owners(loops) - {l};
    }
  }

  lemma DecidersPut(loops: map<nat, Loop>, l: nat, loop: Loop)
    ensures |Deciders(loops[l := loop])|
         == |Deciders(loops)| - Bit(l in loops && Deciding(loops[l].pc)) + Bit(Deciding(loop.pc))
  {
    if Deciding(loop.pc) {
      assert Deciders(loops[l := loop]) == Deciders(loops) + {l};
    } else {
      assert Deciders(loops[l := loop]) == Deciders(loops) - {l};
    }
  }

  lemma Dropped(loops: map<nat, Loop>, l: nat)
    requires l in loops && !Owns(loops[l].pc) && !Deciding(loops[l].pc)
    ensures |Owners(loops - {l})| == |Owners(loops)|
    ensures |Deciders(loops - {l})| == |Deciders(loops)|
  {
    assert Owners(loops - {l}) == Owners(loops);
    assert Deciders(loops - {l}) == Deciders(loops);
  }

  /** _connection_count: the registered sockets, the slots owned by loops and the one being released. */
  ghost predicate SlotsAddUp(s: State) {
    s.count == |s.registered| + |Owners(s.loops)| + Bit(s.releasing)
  }

  /** Every accepted fd was rejected, was admitted, or is being decided on. */
  ghost predicate FdsAddUp(s: State) {
    s.accepted == s.rejected + s.acquired + |Deciders(s.loops)|
  }

  predicate OwnsAt(to: Option<Pc>) {
    to.Some? && Owns(to.value)
  }

  predicate DecidesAt(to: Option<Pc>) {
    to.Some? && Deciding(to.value)
  }

  /** What a move adds to the counter beyond the map is what its loop gains or loses. */
  lemma EffectSlots(s: State, l: nat, pc: Pc, m: Move)
    requires Proper(s, l, pc) && CanMove(s, pc, m)
    ensures var t := Effect(s, l, pc, m);
            && t.count - |t.registered| == s.count - |s.registered| + Bit(OwnsAt(Target(s, pc, m))) - Bit(Owns(pc))
            && t.releasing == s.releasing
  {
    if m.Insert? {
      assert |s.registered + {pc.id}| == |s.registered| + 1;
    }
  }

  lemma EffectFds(s: State, l: nat, pc: Pc, m: Move)
    requires CanMove(s, pc, m)
    ensures var t := Effect(s, l, pc, m);
            t.accepted - t.rejected - t.acquired
            == s.accepted - s.rejected - s.acquired + Bit(DecidesAt(Target(s, pc, m))) - Bit(Deciding(pc))
  {
  }

  lemma SlotsMove(s: State, l: nat, m: Move)
    requires SlotsAddUp(s) && l in s.loops && Proper(s, l, s.loops[l].pc) && CanMove(s, s.loops[l].pc, m)
    ensures SlotsAddUp(Moved(s, l, m))
  {
    EffectSlots(s, l, s.loops[l].pc, m);
    var to := Target(s, s.loops[l].pc, m);
    if to.None? {
      Dropped(s.loops, l);
    } else {
      OwnersPut(s.loops, l, Loop(s.loops[l].home, to.value));
    }
  }

  lemma FdsMove(s: State, l: nat, m: Move)
    requires FdsAddUp(s) && l in s.loops && CanMove(s, s.loops[l].pc, m)
    ensures FdsAddUp(Moved(s, l, m))
  {
    EffectFds(s, l, s.loops[l].pc, m);
    var to := Target(s, s.loops[l].pc, m);
    if to.None? {
      Dropped(s.loops, l);
    } else {
      DecidersPut(s.loops, l, Loop(s.loops[l].home, to.value));
    }
  }

  lemma SlotsRecycle(s: State, id: Id)
    requires SlotsAddUp(s) && !s.releasing
    ensures SlotsAddUp(Recycled(s, id))
  {
    if id !in s.registered {
      assert s.registered - {id} == s.registered;
    }
  }

  /** The parts of the state that a start, a stop and a join leave alone. */
  predicate Untouched(s: State, t: State) {
    && t.count == s.count && t.registered == s.registered && t.releasing == s.releasing && t.loops == s.loops
    && t.accepted == s.accepted && t.rejected == s.rejected && t.acquired == s.acquired
  }

  lemma Quiet(s: State, e: Step)
    requires Enabled(s, e) && !e.Run? && !e.Enter? && !e.Recycle? && !e.RecycleRelease?
    ensures Untouched(s, Next(s, e))
  {
  }

  lemma SlotsStep(s: State, e: Step)
    requires Identified(s) && SlotsAddUp(s) && Enabled(s, e)
    ensures SlotsAddUp(Next(s, e))
  {
    match e
    case Run(l, m) => SlotsMove(s, l, m);
    case Enter(l, home) => OwnersPut(s.loops, l, Loop(home, AtAccept));
    case Recycle(id) => SlotsRecycle(s, id);
    case RecycleRelease =>
    case _ => Quiet(s, e);
  }

  lemma FdsStep(s: State, e: Step)
    requires FdsAddUp(s) && Enabled(s, e)
    ensures FdsAddUp(Next(s, e))
  {
    match e
    case Run(l, m) => FdsMove(s, l, m);
    case Enter(l, home) => DecidersPut(s.loops, l, Loop(home, AtAccept));
    case Recycle(_) =>
    case RecycleRelease =>
    case _ => Quiet(s, e);
  }

  ghost predicate Sound(s: State) {
    Housed(s) && Identified(s) && SlotsAddUp(s) && FdsAddUp(s)
  }

  lemma {:induction false} RunSound(es: seq<Step>)
    requires After(es).Some?
    ensures Sound(After(es).value)
  {
    if es != [] {
      var init, e := es[..|es| - 1], es[|es| - 1];
      RunSound(init);
      var s := After(init).value;
      HousedStep(s, e);
      IdentifiedStep(s, e);
      SlotsStep(s, e);
      FdsStep(s, e);
    }
  }

  /** The CHECK_GT of ReleaseConnectionSlot never fires. */
  lemma ReleaseNeverUnderflows(es: seq<Step>, e: Step)
    requires After(es).Some? && Enabled(After(es).value, e)
    requires e.RecycleRelease? || (e.Run? && e.move.Release?)
    ensures After(es).value.count > 0
  {
    RunSound(es);
    var s := After(es).value;
    if e.Run? {
      assert e.l in Owners(s.loops);
    }
  }

  /** Nothing leaks: with no loop running and no release under way, the counter is the size of the map. */
  lemma QuiescentCount(es: seq<Step>)
    requires After(es).Some? && After(es).value.loops == map[] && !After(es).value.releasing
    ensures var s := After(es).value; s.count == |s.registered| && s.accepted == s.rejected + s.acquired
  {
    RunSound(es);
  }

  // The connection limit.

  /** The limit is never lifted, and never set above `most`. */
  predicate LimitSet(e: Step, most: nat) {
    e.Start? || e.SetLimit? ==> 0 < e.limit <= most
  }

  predicate LimitsUpTo(es: seq<Step>, most: nat) {
    forall i :: 0 <= i < |es| ==> LimitSet(es[i], most)
  }

  predicate Limited(s: State, most: nat) {
    && s.count <= most
    && (s.alive != {} ==> 0 < s.limit <= most)
    && forall l :: l in s.loops && s.loops[l].pc.CanSwap? ==> s.loops[l].pc.count < most
  }

  lemma LimitedMove(s: State, l: nat, m: Move, most: nat)
    requires Limited(s, most) && 0 < s.limit <= most && l in s.loops && CanMove(s, s.loops[l].pc, m)
    ensures Limited(Moved(s, l, m), most)
  {
  }

  lemma LimitedStep(s: State, e: Step, most: nat)
    requires Limited(s, most) && Housed(s) && Enabled(s, e) && LimitSet(e, most)
    ensures Limited(Next(s, e), most)
  {
    if e.Run? {
      assert s.loops[e.l].home in s.alive;
      LimitedMove(s, e.l, e.move, most);
    }
  }

  lemma {:induction false} RunLimited(es: seq<Step>, most: nat)
    requires After(es).Some? && LimitsUpTo(es, most)
    ensures Limited(After(es).value, most)
  {
    if es != [] {
      var init, e := es[..|es| - 1], es[|es| - 1];
      RunLimited(init, most);
      RunSound(init);
      assert LimitSet(e, most);
      LimitedStep(After(init).value, e, most);
    }
  }

  /**
   Under any interleaving of the compare-and-swap retries, and however the limit is changed meanwhile, neither
   the counter nor the map exceeds the greatest limit set.
   */
  lemma LimitHolds(es: seq<Step>, most: nat)
    requires After(es).Some? && LimitsUpTo(es, most)
    ensures var s := After(es).value; |s.registered| <= s.count <= most
  {
    RunLimited(es, most);
    RunSound(es);
  }

  // Join.

  predicate PositiveFds(es: seq<Step>) {
    forall i :: 0 <= i < |es| && es[i].Start? ==> es[i].fd > 0
  }

  /** The listening socket of the present generation, if any, is the only one alive. */
  predicate OneGeneration(s: State) {
    && (if s.alive == {} then s.listenedFd == -1 else s.alive == {s.acceptionId} && s.listenedFd > 0)
    && (s.status.Uninitialized? || s.status.Ready? ==> s.alive == {} && s.registered == {} && s.join.NotJoining?)
    && (s.join.Leaving? ==> s.alive == {} && s.registered == {})
  }

  lemma GenerationMove(s: State, l: nat, m: Move)
    requires OneGeneration(s) && l in s.loops && s.alive != {} && CanMove(s, s.loops[l].pc, m)
    ensures OneGeneration(Moved(s, l, m))
  {
  }

  lemma GenerationStep(s: State, e: Step)
    requires OneGeneration(s) && Housed(s) && Enabled(s, e) && (e.Start? ==> e.fd > 0)
    ensures OneGeneration(Next(s, e))
  {
    if e.Run? {
      assert s.loops[e.l].home in s.alive;
      GenerationMove(s, e.l, e.move);
    }
  }

  lemma {:induction false} RunGeneration(es: seq<Step>)
    requires After(es).Some? && PositiveFds(es)
    ensures OneGeneration(After(es).value)
  {
    if es != [] {
      var init, e := es[..|es| - 1], es[|es| - 1];
      RunGeneration(init);
      RunSound(init);
      GenerationStep(After(init).value, e);
    }
  }

  lemma LoopsNeedHome(s: State)
    requires Housed(s)
    ensures s.loops != map[] ==> s.alive != {}
  {
    if s.loops != map[] {
      var l :| l in s.loops;
      assert s.loops[l].home in s.alive;
    }
  }

  /** When Join returns after waiting on a positive fd, nothing of the generation is left and another can start. */
  lemma JoinLeavesNothing(es: seq<Step>)
    requires After(es + [JoinEnd]).Some? && PositiveFds(es)
    ensures var s := After(es + [JoinEnd]).value;
            && s.status == Ready && s.registered == {} && s.count == 0
            && s.loops == map[] && s.alive == {} && s.listenedFd == -1 && s.accepted == s.rejected + s.acquired
  {
    var run := es + [JoinEnd];
    assert run[..|es|] == es;
    RunSound(es);
    RunGeneration(es);
    var s := After(es).value;
    LoopsNeedHome(s);
  }

  lemma Extend(es: seq<Step>, e: Step)
    requires After(es).Some? && Enabled(After(es).value, e)
    ensures After(es + [e]) == Some(Next(After(es).value, e))
  {
    assert (es + [e])[..|es|] == es;
  }

  /** A run on fd 0: one loop takes a slot, and Join begins. */
  const TAKE_SLOT: seq<Step> :=
    [Start(0, 0, 7, true)] + [Enter(0, 7)] + [Run(0, Accept)] + [Run(0, Load)] + [Run(0, Check)] + [Run(0, Swap(false))]

  const SLOT_TAKEN := State(Running, 0, 7, {7}, {}, 1, 0, 0, false, map[0 := Loop(7, Acquired)], map[], {7}, {}, {}, {},
                           NotStopping, NotJoining, 1, 1)

  lemma SlotIsTaken()
    ensures After(TAKE_SLOT) == Some(SLOT_TAKEN)
  {
    var es: seq<Step> := [];
    Extend(es, Start(0, 0, 7, true));
    es := [Start(0, 0, 7, true)];
    assert [] + es == es;
    Extend(es, Enter(0, 7));
    es := es + [Enter(0, 7)];
    Extend(es, Run(0, Accept));
    es := es + [Run(0, Accept)];
    Extend(es, Run(0, Load));
    es := es + [Run(0, Load)];
    Extend(es, Run(0, Check));
    es := es + [Run(0, Check)];
    Extend(es, Run(0, Swap(false)));
    assert es + [Run(0, Swap(false))] == TAKE_SLOT;
    var s := After(TAKE_SLOT).value;
    assert s.loops == SLOT_TAKEN.loops && s.alive == {7} && s.used == {7};
  }

  const ON_FD_ZERO: seq<Step> := TAKE_SLOT + [StopBegin] + [JoinBegin] + [JoinExit]

  /** fd 0 passes StartAccept but Join does not wait for it: it can return while a loop still owns a slot. */
  lemma JoinMissesFdZero()
    ensures After(ON_FD_ZERO + [JoinEnd]) == Some(SLOT_TAKEN.(status := Ready, stop := Marked))
  {
    SlotIsTaken();
    var es := TAKE_SLOT;
    Extend(es, StopBegin);
    es := es + [StopBegin];
    Extend(es, JoinBegin);
    es := es + [JoinBegin];
    Extend(es, JoinExit);
    es := es + [JoinExit];
    Extend(es, JoinEnd);
  }

  predicate StartsOn(es: seq<Step>, fd: int) {
    forall i :: 0 <= i < |es| && es[i].Start? ==> es[i].fd == fd
  }

  /** In no run on this fd does Join return with a slot taken. */
  ghost predicate JoinClears(fd: int) {
    forall es :: StartsOn(es, fd) && After(es + [JoinEnd]).Some? ==> After(es + [JoinEnd]).value.count == 0
  }

  /** Of the fds StartAccept takes, Join waits for the positive ones and no other. */
  lemma JoinClearsExactly(fd: int)
    requires fd >= 0
    ensures JoinClears(fd) <==> fd > 0
  {
    if fd > 0 {
      forall es | StartsOn(es, fd) && After(es + [JoinEnd]).Some? ensures After(es + [JoinEnd]).value.count == 0 {
        JoinLeavesNothing(es);
      }
    } else {
      JoinMissesFdZero();
      assert StartsOn(ON_FD_ZERO, fd);
    }
  }

  // StopAccept.

  /** The loop that inserted this socket after the stop has yet to fail it. */
  predicate FailsSoon(s: State, l: nat, id: Id) {
    l in s.loops && s.loops[l].pc == Inserted(id, false)
  }

  ghost predicate Dealt(s: State, id: Id) {
    id in s.failed || id in s.released || exists l :: FailsSoon(s, l, id)
  }

  /** The ids the stopper has yet to look at. */
  function Remaining(s: State): set<Id> {
    match s.stop
    case Listing(present) => present
    case Handing(list) => list
    case Stopped => {}
    case _ => s.registered
  }

  ghost predicate StopCovers(s: State) {
    s.status.Stopping? ==> forall id :: id in s.registered ==> id in Remaining(s) || Dealt(s, id)
  }

  lemma CoversMove(s: State, l: nat, m: Move)
    requires StopCovers(s) && l in s.loops && CanMove(s, s.loops[l].pc, m)
    ensures StopCovers(Moved(s, l, m))
  {
    var t := Moved(s, l, m);
    forall id | id in t.registered && t.status.Stopping? ensures id in Remaining(t) || Dealt(t, id) {
      if id !in s.registered {
        assert FailsSoon(t, l, id);
      } else if id !in Remaining(s) && id !in s.failed && id !in s.released {
        var k :| FailsSoon(s, k, id);
        assert k != l ==> FailsSoon(t, k, id);
      }
    }
  }

  lemma CoversStep(s: State, e: Step)
    requires StopCovers(s) && Identified(s) && Enabled(s, e)
    ensures StopCovers(Next(s, e))
  {
    if e.Run? {
      CoversMove(s, e.l, e.move);
    } else {
      var t := Next(s, e);
      forall id | id in t.registered && t.status.Stopping? ensures id in Remaining(t) || Dealt(t, id) {
        if s.status.Stopping? && id !in Remaining(s) && id !in s.failed && id !in s.released {
          var k :| FailsSoon(s, k, id);
          assert FailsSoon(t, k, id);
        }
      }
    }
  }

  lemma {:induction false} RunCovers(es: seq<Step>)
    requires After(es).Some?
    ensures StopCovers(After(es).value)
  {
    if es != [] {
      var init, e := es[..|es| - 1], es[|es| - 1];
      RunCovers(init);
      RunSound(init);
      CoversStep(After(init).value, e);
    }
  }

  /** Once StopAccept has returned and no iteration is about to fail its socket, every socket left was dealt with. */
  lemma StopCompleteness(es: seq<Step>)
    requires After(es).Some?
    ensures var s := After(es).value;
            s.status.Stopping? && s.stop.Stopped? && (forall l, id :: !FailsSoon(s, l, id)) ==>
              s.registered <= s.failed + s.released
  {
    RunCovers(es);
    var s := After(es).value;
    if s.status.Stopping? && s.stop.Stopped? && (forall l, id :: !FailsSoon(s, l, id)) {
      forall id | id in s.registered ensures id in s.failed + s.released {
        assert id in Remaining(s) || Dealt(s, id);
      }
    }
  }
}

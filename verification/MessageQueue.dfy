// The bounded queue between threads (the send queue and the receive queue are the
// same code): a ring of 64 slots, two counting semaphores and a mutex.
module MessageQueue {
  import opened Memory

  const MESSAGEQUEMAX := 64

  // A queued pointer; Null is the sign for the reader to stop.
  datatype Message = Null | Message(port: int, payload: seq<byte>)

  // ---------- the critical sections ----------

  datatype Ring = Ring(slots: seq<Message>, messages: int, readPosition: int, writePosition: int)

  function Wrapped(position: int): int
  {
    if position >= MESSAGEQUEMAX then position - MESSAGEQUEMAX else position
  }

  ghost predicate InShape(q: Ring)
  {
    |q.slots| == MESSAGEQUEMAX && 0 <= q.readPosition <= MESSAGEQUEMAX && 0 <= q.writePosition <= MESSAGEQUEMAX
  }

  // What addSendQueue does under the lock: a full ring drops the message.
  function Stored(q: Ring, m: Message): Ring
    requires InShape(q)
  {
    var w := Wrapped(q.writePosition);
    if q.messages == MESSAGEQUEMAX then q.(writePosition := w)
    else Ring(q.slots[w := m], q.messages + 1, q.readPosition, w + 1)
  }

  // What pollSendQueue does under the lock.
  function Taken(q: Ring): Ring
    requires InShape(q)
  {
    q.(messages := q.messages - 1, readPosition := Wrapped(q.readPosition) + 1)
  }

  function Oldest(q: Ring): Message
    requires InShape(q)
  {
    q.slots[Wrapped(q.readPosition)]
  }

  // The static variables of sendqueue.c and receivequeue.c.
  class Queue {
    const queue: array<Message>
    var messages: int
    var readPosition: int
    var writePosition: int

    ghost predicate Valid()
      reads this, queue
    {
      InShape(Shared())
    }

    ghost function Shared(): Ring
      reads this, queue
    {
      Ring(queue[..], messages, readPosition, writePosition)
    }

    constructor ()
      ensures Valid() && fresh(queue)
      ensures messages == 0 && readPosition == 0 && writePosition == 0
    {
      queue := new Message[MESSAGEQUEMAX](_ => Null);
      messages, readPosition, writePosition := 0, 0, 0;
    }

    // addSendQueue between lock and unlock; posted tells whether message_sem is
    // to be posted.
    method AddLocked(message: Message) returns (posted: bool)
      requires Valid()
      modifies this, queue
      ensures Valid() && Shared() == Stored(old(Shared()), message)
      ensures posted <==> old(messages) != MESSAGEQUEMAX
    {
      if writePosition >= MESSAGEQUEMAX {
        writePosition := writePosition - MESSAGEQUEMAX;
      }
      if messages == MESSAGEQUEMAX {
        posted := false;
      } else {
        queue[writePosition] := message;
        writePosition := writePosition + 1;
        messages := messages + 1;
        posted := true;
      }
    }

    // pollSendQueue between lock and the post of space_sem.
    method PollLocked() returns (retval: Message)
      requires Valid()
      modifies this
      ensures Valid() && Shared() == Taken(old(Shared())) && retval == Oldest(old(Shared()))
    {
      if readPosition >= MESSAGEQUEMAX {
        readPosition := readPosition - MESSAGEQUEMAX;
      }
      retval := queue[readPosition];
      readPosition := readPosition + 1;
      messages := messages - 1;
    }
  }

  // ---------- any number of threads ----------

  type Tid = nat

  // Where a thread stands inside addSendQueue or pollSendQueue; a thread that is
  // in neither has no entry.
  datatype PC =
    | AddWaited(m: Message)   // past sem_wait(space_sem)
    | AddLocked(m: Message)   // holds the lock
    | AddStored               // message in the ring, message_sem not yet posted
    | AddPosted               // about to unlock
    | PollWaited              // past sem_wait(message_sem)
    | PollLocked
    | PollTaken               // slot freed, space_sem not yet posted
    | PollPosted

  // added and polled record what was stored and what was taken, in that order.
  datatype System = System(ring: Ring, spaceSem: int, messageSem: int, lock: set<Tid>, pc: map<Tid, PC>,
                           added: seq<Message>, polled: seq<Message>, dropped: nat)

  datatype Step =
    | AddWait(t: Tid, m: Message)
    | AddLock(t: Tid)
    | AddBody(t: Tid)
    | AddPost(t: Tid)
    | AddUnlock(t: Tid)
    | PollWait(t: Tid)
    | PollLock(t: Tid)
    | PollBody(t: Tid)
    | PollPost(t: Tid)
    | PollUnlock(t: Tid)

  function Init(slots: seq<Message>): System
  {
    System(Ring(slots, 0, 0, 0), MESSAGEQUEMAX, 0, {}, map[], [], [], 0)
  }

  // A semaphore wait needs a positive count, a lock a free mutex.
  predicate Enabled(s: System, a: Step)
  {
    match a
    case AddWait(t, m) => t !in s.pc && s.spaceSem > 0
    case AddLock(t) => t in s.pc && s.pc[t].AddWaited? && s.lock == {}
    case AddBody(t) => t in s.pc && s.pc[t].AddLocked?
    case AddPost(t) => t in s.pc && s.pc[t].AddStored?
    case AddUnlock(t) => t in s.pc && s.pc[t].AddPosted?
    case PollWait(t) => t !in s.pc && s.messageSem > 0
    case PollLock(t) => t in s.pc && s.pc[t].PollWaited? && s.lock == {}
    case PollBody(t) => t in s.pc && s.pc[t].PollLocked?
    case PollPost(t) => t in s.pc && s.pc[t].PollTaken?
    case PollUnlock(t) => t in s.pc && s.pc[t].PollPosted?
  }

  function Do(s: System, a: Step): System
    requires InShape(s.ring) && Enabled(s, a)
  {
    match a
    case AddWait(t, m) => s.(spaceSem := s.spaceSem - 1, pc := s.pc[t := AddWaited(m)])
    case AddLock(t) => s.(lock := {t}, pc := s.pc[t := AddLocked(s.pc[t].m)])
    case AddBody(t) =>
      var m := s.pc[t].m;
      if s.ring.messages == MESSAGEQUEMAX then
        s.(ring := Stored(s.ring, m), pc := s.pc[t := AddPosted], dropped := s.dropped + 1)
      else
        s.(ring := Stored(s.ring, m), pc := s.pc[t := AddStored], added := s.added + [m])
    case AddPost(t) => s.(messageSem := s.messageSem + 1, pc := s.pc[t := AddPosted])
    case AddUnlock(t) => s.(lock := {}, pc := s.pc - {t})
    case PollWait(t) => s.(messageSem := s.messageSem - 1, pc := s.pc[t := PollWaited])
    case PollLock(t) => s.(lock := {t}, pc := s.pc[t := PollLocked])
    case PollBody(t) => s.(ring := Taken(s.ring), pc := s.pc[t := PollTaken], polled := s.polled + [Oldest(s.ring)])
    case PollPost(t) => s.(spaceSem := s.spaceSem + 1, pc := s.pc[t := PollPosted])
    case PollUnlock(t) => s.(lock := {}, pc := s.pc - {t})
  }

  // What a thread inside owes or holds.
  datatype Role = HoldsSpace | OwesMessage | HoldsMessage | OwesSpace | Nothing

  function RoleOf(p: PC): Role
  {
    match p
    case AddWaited(_) => HoldsSpace
    case AddLocked(_) => HoldsSpace
    case AddStored => OwesMessage
    case PollWaited => HoldsMessage
    case PollLocked => HoldsMessage
    case PollTaken => OwesSpace
    case _ => Nothing
  }

  predicate InCriticalSection(p: PC)
  {
    !p.AddWaited? && !p.PollWaited?
  }

  function With(pc: map<Tid, PC>, r: Role): set<Tid>
  {
    set t | t in pc && RoleOf(pc[t]) == r
  }

  // The two balances of the protocol.
  ghost predicate Balanced(s: System)
  {
    && s.spaceSem + |With(s.pc, HoldsSpace)| + s.ring.messages + |With(s.pc, OwesSpace)| == MESSAGEQUEMAX
    && s.messageSem + |With(s.pc, HoldsMessage)| + |With(s.pc, OwesMessage)| == s.ring.messages
    && s.spaceSem >= 0 && s.messageSem >= 0
  }

  ghost predicate Exclusive(s: System)
  {
    && (forall t :: t in s.pc && InCriticalSection(s.pc[t]) ==> s.lock == {t})
    && (s.lock != {} ==> exists t :: t in s.pc && InCriticalSection(s.pc[t]))
  }

  // The ring holds, from the read position on, what was added and not yet polled.
  ghost predicate Faithful(s: System)
  {
    && InShape(s.ring)
    && s.polled <= s.added && s.ring.messages == |s.added| - |s.polled| <= MESSAGEQUEMAX
    && s.ring.writePosition % MESSAGEQUEMAX == |s.added| % MESSAGEQUEMAX
    && s.ring.readPosition % MESSAGEQUEMAX == |s.polled| % MESSAGEQUEMAX
    && (forall k :: |s.polled| <= k < |s.added| ==> s.ring.slots[k % MESSAGEQUEMAX] == s.added[k])
  }

  ghost predicate Inv(s: System)
  {
    Faithful(s) && Exclusive(s) && Balanced(s) && s.dropped == 0
  }

  // ---------- the invariant is kept by every step ----------

  function One(b: bool): nat
  {
    if b then 1 else 0
  }

  // The count for role r, with thread t counted apart.
  lemma WithApart(pc: map<Tid, PC>, t: Tid, r: Role)
    ensures |With(pc, r)| == |With(pc - {t}, r)| + One(t in pc && RoleOf(pc[t]) == r)
  {
    var all, rest := With(pc, r), With(pc - {t}, r);
    forall u ensures u in rest <==> u in all && u != t {
      if u != t && u in pc {
        assert (pc - {t})[u] == pc[u];
      }
    }
    assert rest == all - {t};
  }

  lemma WithUpdated(pc: map<Tid, PC>, t: Tid, p: PC, r: Role)
    ensures |With(pc[t := p], r)| == |With(pc - {t}, r)| + One(RoleOf(p) == r)
    ensures |With(pc, r)| == |With(pc - {t}, r)| + One(t in pc && RoleOf(pc[t]) == r)
  {
    WithApart(pc, t, r);
    WithApart(pc[t := p], t, r);
    assert pc[t := p] - {t} == pc - {t};
  }

  // How the four counts move when t goes to p.
  lemma CountsMove(pc: map<Tid, PC>, t: Tid, p: PC)
    ensures forall r: Role ::
      |With(pc[t := p], r)| == |With(pc, r)| + One(RoleOf(p) == r) - One(t in pc && RoleOf(pc[t]) == r)
  {
    forall r: Role
      ensures |With(pc[t := p], r)| == |With(pc, r)| + One(RoleOf(p) == r) - One(t in pc && RoleOf(pc[t]) == r)
    {
      WithUpdated(pc, t, p, r);
    }
  }

  lemma CountsLeave(pc: map<Tid, PC>, t: Tid)
    requires t in pc && RoleOf(pc[t]) == Nothing
    ensures forall r: Role :: r != Nothing ==> |With(pc - {t}, r)| == |With(pc, r)|
  {
    forall r: Role | r != Nothing ensures |With(pc - {t}, r)| == |With(pc, r)| {
      WithUpdated(pc, t, pc[t], r);
    }
  }

  lemma PermitHeld(pc: map<Tid, PC>, t: Tid)
    requires t in pc
    ensures |With(pc, RoleOf(pc[t]))| >= 1
  {
    WithUpdated(pc, t, pc[t], RoleOf(pc[t]));
  }

  // With a permit in hand there is room for the message, and a message to take.
  lemma RoomForHolder(s: System, t: Tid)
    requires Balanced(s) && t in s.pc
    ensures RoleOf(s.pc[t]) == HoldsSpace ==> s.ring.messages < MESSAGEQUEMAX
    ensures RoleOf(s.pc[t]) == HoldsMessage ==> s.ring.messages > 0
  {
    PermitHeld(s.pc, t);
  }

  lemma BalancedKept(s: System, a: Step)
    requires InShape(s.ring) && Balanced(s) && Enabled(s, a)
    ensures Balanced(Do(s, a))
  {
    if a.AddWait? || a.AddLock? || a.AddBody? || a.AddPost? || a.AddUnlock? {
      AddBalanced(s, a);
    } else {
      PollBalanced(s, a);
    }
  }

  lemma AddBalanced(s: System, a: Step)
    requires a.AddWait? || a.AddLock? || a.AddBody? || a.AddPost? || a.AddUnlock?
    requires InShape(s.ring) && Balanced(s) && Enabled(s, a)
    ensures Balanced(Do(s, a))
  {
    match a
    case AddWait(t, m) => CountsMove(s.pc, t, AddWaited(m));
    case AddLock(t) => CountsMove(s.pc, t, AddLocked(s.pc[t].m));
    case AddBody(t) => StoreBalanced(s, t);
    case AddPost(t) => CountsMove(s.pc, t, AddPosted);
    case AddUnlock(t) => CountsLeave(s.pc, t);
  }

  lemma PollBalanced(s: System, a: Step)
    requires a.PollWait? || a.PollLock? || a.PollBody? || a.PollPost? || a.PollUnlock?
    requires InShape(s.ring) && Balanced(s) && Enabled(s, a)
    ensures Balanced(Do(s, a))
  {
    match a
    case PollWait(t) => CountsMove(s.pc, t, PollWaited);
    case PollLock(t) => CountsMove(s.pc, t, PollLocked);
    case PollBody(t) => TakeBalanced(s, t);
    case PollPost(t) => CountsMove(s.pc, t, PollPosted);
    case PollUnlock(t) => CountsLeave(s.pc, t);
  }

  lemma TakeBalanced(s: System, t: Tid)
    requires InShape(s.ring) && Balanced(s) && Enabled(s, PollBody(t))
    ensures Balanced(Do(s, PollBody(t)))
  {
    CountsMove(s.pc, t, PollTaken);
  }

  lemma StoreBalanced(s: System, t: Tid)
    requires InShape(s.ring) && Balanced(s) && Enabled(s, AddBody(t))
    ensures Balanced(Do(s, AddBody(t)))
  {
    RoomForHolder(s, t);
    CountsMove(s.pc, t, AddStored);
  }

  function Actor(a: Step): Tid
  {
    a.t
  }

  lemma ExclusiveKept(s: System, a: Step)
    requires InShape(s.ring) && Exclusive(s) && Enabled(s, a)
    ensures Exclusive(Do(s, a))
  {
    var s', t := Do(s, a), Actor(a);
    if t in s.pc && InCriticalSection(s.pc[t]) {
      assert s.lock == {t};
      assert forall u :: u in s.pc && InCriticalSection(s.pc[u]) ==> u == t by {
        forall u | u in s.pc && InCriticalSection(s.pc[u]) ensures u == t {
          assert s.lock == {u};
          assert u in s.lock;
        }
      }
    }
    if s'.lock != {} {
      if t in s'.pc && InCriticalSection(s'.pc[t]) {
      } else {
        assert s.lock != {};
        var u :| u in s.pc && InCriticalSection(s.pc[u]);
        assert u != t;
        assert u in s'.pc && s'.pc[u] == s.pc[u];
      }
    }
  }

  lemma SameSlot(k: nat, n: nat)
    requires k <= n < k + MESSAGEQUEMAX && k % MESSAGEQUEMAX == n % MESSAGEQUEMAX
    ensures k == n
  {
  }

  lemma WrappedIsMod(position: int, n: nat)
    requires 0 <= position <= MESSAGEQUEMAX && position % MESSAGEQUEMAX == n % MESSAGEQUEMAX
    ensures Wrapped(position) == n % MESSAGEQUEMAX
    ensures (Wrapped(position) + 1) % MESSAGEQUEMAX == (n + 1) % MESSAGEQUEMAX
  {
  }

  lemma StoreKeepsFaith(s: System, t: Tid)
    requires Faithful(s) && Enabled(s, AddBody(t)) && s.ring.messages < MESSAGEQUEMAX
    ensures Faithful(Do(s, AddBody(t)))
  {
    var s' := Do(s, AddBody(t));
    var n := |s.added|;
    WrappedIsMod(s.ring.writePosition, n);
    forall k | |s'.polled| <= k < |s'.added| ensures s'.ring.slots[k % MESSAGEQUEMAX] == s'.added[k] {
      if k < n {
        if k % MESSAGEQUEMAX == n % MESSAGEQUEMAX {
          SameSlot(k, n);
        }
      }
    }
  }

  lemma TakeKeepsFaith(s: System, t: Tid)
    requires Faithful(s) && Enabled(s, PollBody(t)) && s.ring.messages > 0
    ensures Faithful(Do(s, PollBody(t)))
    ensures Oldest(s.ring) == s.added[|s.polled|]
  {
    WrappedIsMod(s.ring.readPosition, |s.polled|);
  }

  lemma InvKept(s: System, a: Step)
    requires Inv(s) && Enabled(s, a)
    ensures Inv(Do(s, a))
  {
    BalancedKept(s, a);
    ExclusiveKept(s, a);
    if a.AddBody? {
      RoomForHolder(s, a.t);
      StoreKeepsFaith(s, a.t);
    } else if a.PollBody? {
      RoomForHolder(s, a.t);
      TakeKeepsFaith(s, a.t);
    }
  }

  // ---------- every run ----------

  // The steps, one after the other, each enabled when its turn comes.
  ghost predicate Runs(s: System, steps: seq<Step>, s': System)
    decreases |steps|
  {
    if |steps| == 0 then s == s'
    else InShape(s.ring) && Enabled(s, steps[0]) && Runs(Do(s, steps[0]), steps[1..], s')
  }

  lemma {:induction false} RunsKeepInv(s: System, steps: seq<Step>, s': System)
    requires Inv(s) && Runs(s, steps, s')
    ensures Inv(s')
    decreases |steps|
  {
    if |steps| > 0 {
      InvKept(s, steps[0]);
      RunsKeepInv(Do(s, steps[0]), steps[1..], s');
    }
  }

  lemma InitInv(slots: seq<Message>)
    requires |slots| == MESSAGEQUEMAX
    ensures Inv(Init(slots))
  {
    assert With(map[], HoldsSpace) == {} && With(map[], OwesSpace) == {};
    assert With(map[], HoldsMessage) == {} && With(map[], OwesMessage) == {};
  }

  // In any state any number of threads can bring about: no message was dropped,
  // the ring is never over-full, what has been polled is a prefix of what has been
  // added, and the permits of the two semaphores are accounted for.
  lemma QueueIsSafe(slots: seq<Message>, steps: seq<Step>, s: System)
    requires |slots| == MESSAGEQUEMAX && Runs(Init(slots), steps, s)
    ensures InShape(s.ring) && s.dropped == 0 && Balanced(s)
    ensures s.polled <= s.added && |s.added| - |s.polled| <= 64
    ensures forall t :: t in s.pc && s.pc[t].AddLocked? ==> s.ring.messages < MESSAGEQUEMAX
    ensures forall t :: t in s.pc && s.pc[t].PollLocked? ==>
      |s.polled| < |s.added| && Oldest(s.ring) == s.added[|s.polled|]
    ensures forall t, u :: t in s.pc && u in s.pc && InCriticalSection(s.pc[t]) && InCriticalSection(s.pc[u]) ==> t == u
  {
    InitInv(slots);
    RunsKeepInv(Init(slots), steps, s);
    forall t | t in s.pc && s.pc[t].AddLocked? ensures s.ring.messages < MESSAGEQUEMAX {
      RoomForHolder(s, t);
    }
    forall t | t in s.pc && s.pc[t].PollLocked?
      ensures |s.polled| < |s.added| && Oldest(s.ring) == s.added[|s.polled|]
    {
      RoomForHolder(s, t);
      TakeKeepsFaith(s, t);
    }
    forall t, u | t in s.pc && u in s.pc && InCriticalSection(s.pc[t]) && InCriticalSection(s.pc[u]) ensures t == u {
      assert s.lock == {t} && s.lock == {u};
      assert t in {u};
    }
  }

  // No deadlock: a thread inside one of the two functions always leaves some
  // thread able to go on; and when none is inside, a full queue lets a reader in
  // and a queue that is not full a writer.
  lemma QueueIsLive(slots: seq<Message>, steps: seq<Step>, s: System)
    requires |slots| == MESSAGEQUEMAX && Runs(Init(slots), steps, s)
    ensures s.pc != map[] ==> exists a: Step :: Actor(a) in s.pc && Enabled(s, a)
    ensures s.pc == map[] && |s.added| - |s.polled| < 64 ==> forall t, m :: Enabled(s, AddWait(t, m))
    ensures s.pc == map[] && |s.added| > |s.polled| ==> forall t :: Enabled(s, PollWait(t))
  {
    InitInv(slots);
    RunsKeepInv(Init(slots), steps, s);
    if s.pc != map[] {
      var t :| t in s.pc;
      if s.lock != {} {
        var u :| u in s.pc && InCriticalSection(s.pc[u]);
        NextInside(s, u);
      } else {
        assert !InCriticalSection(s.pc[t]);
        var a := if s.pc[t].AddWaited? then AddLock(t) else PollLock(t);
        assert Actor(a) in s.pc && Enabled(s, a);
      }
    } else {
      assert With(s.pc, HoldsSpace) == {} && With(s.pc, OwesSpace) == {};
      assert With(s.pc, HoldsMessage) == {} && With(s.pc, OwesMessage) == {};
    }
  }

  lemma NextInside(s: System, t: Tid)
    requires t in s.pc && InCriticalSection(s.pc[t])
    ensures exists a: Step :: Actor(a) in s.pc && Enabled(s, a)
  {
    var a := match s.pc[t]
      case AddLocked(_) => AddBody(t)
      case AddStored => AddPost(t)
      case AddPosted => AddUnlock(t)
      case PollLocked => PollBody(t)
      case PollTaken => PollPost(t)
      case _ => PollUnlock(t);
    assert Actor(a) in s.pc && Enabled(s, a);
  }
}

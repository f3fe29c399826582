// The service spawner's start lock: no service thread gets a frame into the send
// queue before the answer that names its port.
module Handshake {
  import opened Bytes
  import opened Memory
  import MessageQueue

  type Instance = nat
  type Port = nat

  // What ends up in the send queue. Every frame a service sends carries the
  // instance it was made by; the answer to a request names the instance's port.
  datatype Frame =
    | Open(i: Instance, port: Port)
    | Denied(error: int)
    | Data(i: Instance, port: Port)
    | Eof(i: Instance, port: Port)
    | Close(i: Instance, port: Port)

  // ---------- the answer of one request ----------

  const BULK := 1
  const METHOD := 2
  const SIGNAL := 3

  datatype Allocation = NoPort | Allocated(port: Port)

  // The outcome of the switch in ServiceSpawnerOnBytesReceived.
  function Decide(protocol: int, a: Allocation, initialised: bool, i: Instance): Frame
  {
    if a.NoPort? then Denied(5)
    else if protocol != BULK && protocol != METHOD && protocol != SIGNAL then Denied(1)
    else if initialised then Open(i, a.port)
    else if protocol == METHOD then Denied(3)
    else Denied(2)
  }

  // Only the services that send on their own account start a thread.
  predicate StartsThread(protocol: int)
  {
    protocol == BULK || protocol == SIGNAL
  }

  // The eight bytes of a port status message.
  function Encoded(f: Frame): seq<byte>
    requires (f.Open? && f.port < 400) || (f.Denied? && 0 <= f.error < 8)
  {
    match f
    case Open(_, port) => ['s' as byte, (port % 256) as byte, (port / 256) as byte, 1, 0, 0, 0, 0]
    case Denied(error) => ['s' as byte, 0, 0, 2, error as byte, 0, 0, 0]
  }

  // Android can tell from the bytes which answer it got.
  lemma AnswersDiffer(f: Frame, g: Frame)
    requires (f.Open? && f.port < 400) || (f.Denied? && 0 <= f.error < 8)
    requires (g.Open? && g.port < 400) || (g.Denied? && 0 <= g.error < 8)
    requires Encoded(f) == Encoded(g)
    ensures f.Open? <==> g.Open?
    ensures f.Open? ==> f.port == g.port
    ensures f.Denied? ==> f.error == g.error
  {
    var x, y := Encoded(f), Encoded(g);
    assert x[3] == y[3] && x[1] == y[1] && x[2] == y[2] && x[4] == y[4];
    if f.Open? && g.Open? {
      SameByte(f.port % 256, g.port % 256);
      SameByte(f.port / 256, g.port / 256);
    } else if f.Denied? && g.Denied? {
      SameByte(f.error, g.error);
    }
  }

  // The bytes of the answer: 1 opens the port that two bytes name, exactly when one
  // was found for a known and initialised service; 2 denies with the reason.
  lemma AnswerBytes(protocol: int, a: Allocation, initialised: bool)
    requires a.Allocated? ==> a.port < 400
    ensures var r := Encoded(Decide(protocol, a, initialised, 0));
      && |r| == 8 && r[0] == 115 && r[5..] == [0, 0, 0]
      && (r[3] == 1 <==> a.Allocated? && initialised && 1 <= protocol <= 3)
      && (r[3] == 1 ==> r[1] as int + 256 * r[2] as int == a.port && r[4] == 0)
      && (r[3] != 1 ==> r[3] == 2 && r[1] == r[2] == 0)
      && (r[3] != 1 && a.NoPort? ==> r[4] == 5)
      && (r[3] != 1 && a.Allocated? ==>
            r[4] == if protocol == 2 then 3 else if protocol == 1 || protocol == 3 then 2 else 1)
  {
    if a.Allocated? {
      ByteBack(a.port % 256);
      ByteBack(a.port / 256);
    }
  }

  lemma SameByte(m: nat, n: nat)
    requires m < 256 && n < 256 && m as byte == n as byte
    ensures m == n
  {
    ByteBack(m);
    ByteBack(n);
  }

  const BLANK: seq<byte> := ['s' as byte, 0, 0, 0, 0, 0, 0, 0]

  // The lines of the switch that name the port.
  method PutOpen(response: array<byte>, port: nat)
    requires response.Length == 8 && response[..] == BLANK && port < 400
    modifies response
    ensures response[..] == Encoded(Open(0, port))
  {
    PutPort(response, (port % 256) as byte, (port / 256) as byte);
  }

  method PutPort(response: array<byte>, low: byte, high: byte)
    requires response.Length == 8 && response[..] == BLANK
    modifies response
    ensures response[..] == ['s' as byte, low, high, 1, 0, 0, 0, 0]
  {
    response[1], response[2], response[3] := low, high, 1;
  }

  // Those that deny the request.
  method PutDenied(response: array<byte>, error: byte)
    requires response.Length == 8 && response[..] == BLANK
    modifies response
    ensures response[..] == ['s' as byte, 0, 0, 2, error, 0, 0, 0]
  {
    response[3] := 2;
    response[4] := error;
  }

  // The answer to a request, in the response buffer.
  method FillResponse(response: array<byte>, protocol: int, a: Allocation, initialised: bool)
    requires response.Length == 8 && (a.Allocated? ==> a.port < 400)
    modifies response
    ensures response[..] == Encoded(Decide(protocol, a, initialised, 0))
    ensures response[0] == 115 && response[5] == response[6] == response[7] == 0
    ensures response[3] == 1 <==> a.Allocated? && initialised && 1 <= protocol <= 3
    ensures response[3] == 1 ==> response[1] as int + 256 * response[2] as int == a.port && response[4] == 0
    ensures response[3] != 1 ==> response[3] == 2 && response[1] == response[2] == 0
    ensures response[3] != 1 && a.NoPort? ==> response[4] == 5
    ensures response[3] != 1 && a.Allocated? ==>
      response[4] == if protocol == 2 then 3 else if protocol == 1 || protocol == 3 then 2 else 1
  {
    Switch(response, protocol, a, initialised);
    AnswerBytes(protocol, a, initialised);
    SameAnswer(response, Encoded(Decide(protocol, a, initialised, 0)));
  }

  lemma SameAnswer(response: array<byte>, r: seq<byte>)
    requires response.Length == |r| == 8 && response[..] == r && r[5..] == [0, 0, 0]
    ensures forall k :: 0 <= k < 8 ==> response[k] == r[k]
    ensures r[5] == r[6] == r[7] == 0
  {
    assert r[5..][0] == r[5] && r[5..][1] == r[6] && r[5..][2] == r[7];
  }

  // The switch, filling the buffer in place.
  method Switch(response: array<byte>, protocol: int, a: Allocation, initialised: bool)
    requires response.Length == 8 && (a.Allocated? ==> a.port < 400)
    modifies response
    ensures response[..] == Encoded(Decide(protocol, a, initialised, 0))
  {
    forall k | 0 <= k < 8 {
      response[k] := 0;
    }
    response[0] := 's' as byte;
    assert response[..] == BLANK;
    if a.Allocated? {
      if protocol == BULK {
        if initialised {
          PutOpen(response, a.port);
        } else {
          PutDenied(response, 2);
        }
      } else if protocol == METHOD {
        if initialised {
          PutOpen(response, a.port);
        } else {
          PutDenied(response, 3);
        }
      } else if protocol == SIGNAL {
        if initialised {
          PutOpen(response, a.port);
        } else {
          PutDenied(response, 2);
        }
      } else {
        PutDenied(response, 1);
      }
    } else {
      PutDenied(response, 5);
    }
  }

  // ---------- the protocol between the threads ----------

  // The thread that dispatches received messages, while it answers a request.
  datatype Spawner = Idle | Locked | Answering(answer: Frame) | Answered

  // A service thread: created, holding the start lock, past it, ended.
  datatype Worker = Created | Holding | Running | Ended

  datatype Owner = Nobody | BySpawner | ByWorker(i: Instance)

  // ports has every instance ever opened; live those whose slot is still theirs:
  // openNewPort finds no such slot closed, and a cleanup first waits for the
  // service's thread (or is made by it, after its last frame). sent is the order in
  // which frames entered the send queue.
  datatype System = System(spawner: Spawner, owner: Owner, ports: seq<Port>, workers: map<Instance, Worker>,
                           live: set<Instance>, sent: seq<Frame>)

  const INIT := System(Idle, Nobody, [], map[], {}, [])

  datatype Step =
    | Lock
    | Initialise(protocol: int, a: Allocation, initialised: bool)
    | Answer
    | Unlock
    | WorkerLock(i: Instance)
    | WorkerUnlock(i: Instance)
    | WorkerSend(i: Instance)
    | WorkerEof(i: Instance)
    | WorkerStop(i: Instance)
    | Dispatched(i: Instance, reply: Reply)
    | Cleanup(i: Instance)

  // What the dispatching thread may send for a service while it delivers to it.
  datatype Reply = SendsData | SendsEof | SendsClose

  predicate Enabled(s: System, a: Step)
  {
    match a
    case Lock => s.spawner.Idle? && s.owner.Nobody?
    case Initialise(_, a, _) =>
      s.spawner.Locked? && (a.Allocated? ==> forall i :: i in s.live && i < |s.ports| ==> s.ports[i] != a.port)
    case Answer => s.spawner.Answering?
    case Unlock => s.spawner.Answered?
    case WorkerLock(i) => i in s.workers && s.workers[i].Created? && s.owner.Nobody?
    case WorkerUnlock(i) => i in s.workers && s.workers[i].Holding?
    case WorkerSend(i) => i in s.workers && s.workers[i].Running? && i < |s.ports|
    case WorkerEof(i) => i in s.workers && s.workers[i].Running? && i < |s.ports|
    case WorkerStop(i) => i in s.workers && s.workers[i].Running?
    case Dispatched(i, _) => s.spawner.Idle? && i in s.live && i < |s.ports|
    case Cleanup(i) => i in s.live && (i in s.workers ==> s.workers[i].Ended?)
  }

  function Do(s: System, a: Step): System
    requires Enabled(s, a)
  {
    match a
    case Lock => s.(spawner := Locked, owner := BySpawner)
    case Initialise(protocol, a, initialised) =>
      var i := |s.ports|;
      var answer := Decide(protocol, a, initialised, i);
      if answer.Open? then
        s.(spawner := Answering(answer), ports := s.ports + [a.port], live := s.live + {i},
           workers := if StartsThread(protocol) then s.workers[i := Created] else s.workers)
      else
        s.(spawner := Answering(answer))
    case Answer => s.(spawner := Answered, sent := s.sent + [s.spawner.answer])
    case Unlock => s.(spawner := Idle, owner := Nobody)
    case WorkerLock(i) => s.(workers := s.workers[i := Holding], owner := ByWorker(i))
    case WorkerUnlock(i) => s.(workers := s.workers[i := Running], owner := Nobody)
    case WorkerSend(i) => s.(sent := s.sent + [Data(i, s.ports[i])])
    case WorkerEof(i) => s.(workers := s.workers[i := Ended], sent := s.sent + [Eof(i, s.ports[i])])
    case WorkerStop(i) => s.(workers := s.workers[i := Ended])
    case Dispatched(i, reply) =>
      s.(sent := s.sent + [match reply
                           case SendsData => Data(i, s.ports[i])
                           case SendsEof => Eof(i, s.ports[i])
                           case SendsClose => Close(i, s.ports[i])])
    case Cleanup(i) => s.(live := s.live - {i})
  }

  predicate FromService(f: Frame)
  {
    f.Data? || f.Eof? || f.Close?
  }

  // Every frame of a service comes after the answer that opened the instance, and
  // goes to the port that answer named.
  ghost predicate OpenFirst(sent: seq<Frame>)
  {
    forall k :: 0 <= k < |sent| && FromService(sent[k]) ==> Open(sent[k].i, sent[k].port) in sent[..k]
  }

  // The answer for i has been sent.
  ghost predicate Announced(s: System, i: Instance)
  {
    i < |s.ports| && Open(i, s.ports[i]) in s.sent
  }

  // The answer for i is the next thing the spawner sends.
  ghost predicate Pending(s: System, i: Instance)
  {
    i < |s.ports| && s.spawner == Answering(Open(i, s.ports[i]))
  }

  // Who holds the lock, and what the threads may rely on.
  ghost predicate Locking(s: System)
  {
    && (s.owner.BySpawner? <==> !s.spawner.Idle?)
    && (forall i :: i in s.workers ==> (s.workers[i].Holding? <==> s.owner == ByWorker(i)))
    && (forall i :: i in s.workers ==> Announced(s, i) || (s.workers[i].Created? && Pending(s, i)))
    && (forall i :: i in s.live ==> Announced(s, i) || Pending(s, i))
  }

  // Every answer sent, and the one to be sent, names the port of its instance.
  ghost predicate Answers(s: System)
  {
    && (forall f :: f in s.sent && f.Open? ==> f.i < |s.ports| && s.ports[f.i] == f.port)
    && (s.spawner.Answering? ==> !FromService(s.spawner.answer))
    && (s.spawner.Answering? && s.spawner.answer.Open? ==>
          s.spawner.answer.i < |s.ports| && s.ports[s.spawner.answer.i] == s.spawner.answer.port
          && s.spawner.answer !in s.sent)
  }

  ghost predicate Ordered(sent: seq<Frame>)
  {
    AtMostOnce(sent) && OpenFirst(sent) && PortOrder(sent)
  }

  ghost predicate Inv(s: System)
  {
    Locking(s) && Answers(s) && LatestOnPort(s) && Ordered(s.sent)
  }

  // A service whose thread has not ended owns its slot, and no service opened on
  // that port later than the one that owns it.
  ghost predicate LatestOnPort(s: System)
  {
    && (forall i :: i in s.workers && !s.workers[i].Ended? ==> i in s.live)
    && (forall i :: i in s.live ==> i < |s.ports|)
    && (forall i, k :: i in s.live && i < k < |s.ports| ==> s.ports[k] != s.ports[i])
  }

  // Once a port has been opened again, no frame of an earlier service on it follows.
  ghost predicate PortOrder(sent: seq<Frame>)
  {
    forall j, k :: 0 <= j < k < |sent| && sent[j].Open? && FromService(sent[k]) && sent[j].port == sent[k].port ==>
      sent[j].i <= sent[k].i
  }

  // No instance is answered for twice.
  ghost predicate AtMostOnce(sent: seq<Frame>)
  {
    forall j, k :: 0 <= j < k < |sent| && sent[j].Open? && sent[k].Open? ==> sent[j].i != sent[k].i
  }

  lemma OpenFirstGrows(sent: seq<Frame>, f: Frame)
    requires OpenFirst(sent) && (FromService(f) ==> Open(f.i, f.port) in sent)
    ensures OpenFirst(sent + [f])
  {
    var sent' := sent + [f];
    forall k | 0 <= k < |sent'| && FromService(sent'[k]) ensures Open(sent'[k].i, sent'[k].port) in sent'[..k] {
      assert sent'[..k] == sent[..k];
      assert sent[..|sent|] == sent;
    }
  }

  lemma PortOrderGrows(sent: seq<Frame>, f: Frame)
    requires PortOrder(sent)
    requires FromService(f) ==> forall g :: g in sent && g.Open? && g.port == f.port ==> g.i <= f.i
    ensures PortOrder(sent + [f])
  {
    var sent' := sent + [f];
    forall j, k | 0 <= j < k < |sent'| && sent'[j].Open? && FromService(sent'[k]) && sent'[j].port == sent'[k].port
      ensures sent'[j].i <= sent'[k].i
    {
      assert sent'[j] == sent[j];
    }
  }

  // A frame of a service that owns its slot.
  lemma SendKeepsInv(s: System, f: Frame)
    requires Inv(s) && FromService(f) && f.i in s.live && f.i < |s.ports| && f.port == s.ports[f.i]
    requires Open(f.i, f.port) in s.sent
    ensures Inv(s.(sent := s.sent + [f]))
  {
    OpenFirstGrows(s.sent, f);
    forall g | g in s.sent && g.Open? && g.port == f.port
      ensures g.i <= f.i
    {
      assert s.ports[g.i] == s.ports[f.i];
    }
    PortOrderGrows(s.sent, f);
    SendKeepsTheRest(s, f);
  }

  lemma SendKeepsTheRest(s: System, f: Frame)
    requires Locking(s) && Answers(s) && LatestOnPort(s) && AtMostOnce(s.sent) && FromService(f)
    ensures var s' := s.(sent := s.sent + [f]);
      Locking(s') && Answers(s') && LatestOnPort(s') && AtMostOnce(s'.sent)
  {
    forall i | Announced(s, i) ensures Announced(s.(sent := s.sent + [f]), i) {
    }
  }

  lemma AnswerKeepsInv(s: System)
    requires Inv(s) && Enabled(s, Answer)
    ensures Inv(Do(s, Answer))
  {
    OpenFirstGrows(s.sent, s.spawner.answer);
    PortOrderGrows(s.sent, s.spawner.answer);
    AnswerKeepsTheRest(s);
  }

  lemma AnswerKeepsTheRest(s: System)
    requires Locking(s) && Answers(s) && LatestOnPort(s) && AtMostOnce(s.sent) && Enabled(s, Answer)
    ensures var s' := Do(s, Answer);
      Locking(s') && Answers(s') && LatestOnPort(s') && AtMostOnce(s'.sent)
  {
  }

  // A known and initialised service gets its port and, unless it only answers calls,
  // a thread; every other request changes nothing but the answer.
  lemma InitialiseOpens(s: System, protocol: int, a: Allocation, initialised: bool)
    requires Enabled(s, Initialise(protocol, a, initialised))
    ensures var s', i := Do(s, Initialise(protocol, a, initialised)), |s.ports|;
      if a.Allocated? && initialised && 1 <= protocol <= 3 then
        && s'.spawner == Answering(Open(i, a.port)) && s'.ports == s.ports + [a.port] && s'.live == s.live + {i}
        && s'.workers == if protocol == 2 then s.workers else s.workers[i := Created]
      else
        && s'.spawner.Answering? && s'.spawner.answer.Denied?
        && s'.ports == s.ports && s'.live == s.live && s'.workers == s.workers
  {
  }

  lemma InitialiseKeepsInv(s: System, a: Step)
    requires Inv(s) && Enabled(s, a) && a.Initialise?
    ensures Inv(Do(s, a))
  {
    var s' := Do(s, a);
    forall i | Announced(s, i) ensures Announced(s', i) {
    }
    InitialiseTakesFreePort(s, a);
  }

  lemma InitialiseTakesFreePort(s: System, a: Step)
    requires LatestOnPort(s) && Enabled(s, a) && a.Initialise?
    ensures LatestOnPort(Do(s, a))
  {
  }

  lemma InvKept(s: System, a: Step)
    requires Inv(s) && Enabled(s, a)
    ensures Inv(Do(s, a))
  {
    match a
    case Initialise(_, _, _) => InitialiseKeepsInv(s, a);
    case Answer => AnswerKeepsInv(s);
    case WorkerSend(i) => SendKeepsInv(s, Data(i, s.ports[i]));
    case WorkerEof(i) => EofKeepsInv(s, i);
    case Dispatched(i, reply) => DispatchKeepsInv(s, i, reply);
    case _ => LockingKeepsInv(s, a);
  }

  lemma EofKeepsInv(s: System, i: Instance)
    requires Inv(s) && Enabled(s, WorkerEof(i))
    ensures Inv(Do(s, WorkerEof(i)))
  {
    SendKeepsInv(s, Eof(i, s.ports[i]));
    LockingKeepsInv(s.(sent := s.sent + [Eof(i, s.ports[i])]), WorkerStop(i));
  }

  lemma DispatchKeepsInv(s: System, i: Instance, reply: Reply)
    requires Inv(s) && Enabled(s, Dispatched(i, reply))
    ensures Inv(Do(s, Dispatched(i, reply)))
  {
    match reply
    case SendsData => SendKeepsInv(s, Data(i, s.ports[i]));
    case SendsEof => SendKeepsInv(s, Eof(i, s.ports[i]));
    case SendsClose => SendKeepsInv(s, Close(i, s.ports[i]));
  }

  // A worker gets the lock only while the spawner is idle, so its answer is out.
  lemma LockingKeepsInv(s: System, a: Step)
    requires Inv(s) && Enabled(s, a)
    requires a.Lock? || a.Unlock? || a.WorkerLock? || a.WorkerUnlock? || a.WorkerStop? || a.Cleanup?
    ensures Inv(Do(s, a))
  {
    LocksChangeHands(s, a);
    AnswersUntouched(s, a);
  }

  lemma LocksChangeHands(s: System, a: Step)
    requires Locking(s) && Enabled(s, a)
    requires a.Lock? || a.Unlock? || a.WorkerLock? || a.WorkerUnlock? || a.WorkerStop? || a.Cleanup?
    ensures Locking(Do(s, a))
  {
  }

  lemma AnswersUntouched(s: System, a: Step)
    requires Answers(s) && LatestOnPort(s) && Enabled(s, a)
    requires a.Lock? || a.Unlock? || a.WorkerLock? || a.WorkerUnlock? || a.WorkerStop? || a.Cleanup?
    ensures var s' := Do(s, a); Answers(s') && LatestOnPort(s') && s'.sent == s.sent
  {
  }

  ghost predicate Runs(s: System, steps: seq<Step>, s': System)
    decreases |steps|
  {
    if |steps| == 0 then s == s' else Enabled(s, steps[0]) && Runs(Do(s, steps[0]), steps[1..], s')
  }

  lemma {:induction false} RunsKeepInv(s: System, steps: seq<Step>, s': System)
    requires Inv(s) && Runs(s, steps, s')
    ensures Inv(s')
    decreases |steps|
  {
    if |steps| > 0 {
      InvKept(s, steps[0]);
      RunsKeepInv(Do(s, steps[0]), steps[1..], s');
    }
  }

  // One more step at the end of a run.
  lemma Then(steps: seq<Step>, s: System, a: Step) returns (steps': seq<Step>, s': System)
    requires Runs(INIT, steps, s) && Enabled(s, a)
    ensures Runs(INIT, steps', s') && s' == Do(s, a)
  {
    steps', s' := steps + [a], Do(s, a);
    RunsOn(INIT, steps, s, a);
  }

  lemma {:induction false} RunsOn(s0: System, steps: seq<Step>, s: System, a: Step)
    requires Runs(s0, steps, s) && Enabled(s, a)
    ensures Runs(s0, steps + [a], Do(s, a))
    decreases |steps|
  {
    if |steps| == 0 {
      assert steps + [a] == [a];
    } else {
      RunsOn(Do(s0, steps[0]), steps[1..], s, a);
      assert (steps + [a])[1..] == steps[1..] + [a];
    }
  }

  // Such a run, for any port: a bulk service is opened, sends and ends, and its port
  // is then given to a service that answers calls.
  lemma PortIsReused(p: Port) returns (steps: seq<Step>, s: System)
    ensures Runs(INIT, steps, s)
    ensures s.sent == [Open(0, p), Data(0, p), Close(0, p), Eof(0, p), Open(1, p), Data(1, p)]
  {
    steps, s := FirstService(p);
    steps, s := Then(steps, s, Cleanup(0));
    steps, s := Then(steps, s, Lock);
    steps, s := Then(steps, s, Initialise(2, Allocated(p), true));
    steps, s := Then(steps, s, Answer);
    steps, s := Then(steps, s, Unlock);
    steps, s := Then(steps, s, Dispatched(1, SendsData));
  }

  lemma FirstService(p: Port) returns (steps: seq<Step>, s: System)
    ensures Runs(INIT, steps, s)
    ensures s == System(Idle, Nobody, [p], map[0 := Ended], {0}, [Open(0, p), Data(0, p), Close(0, p), Eof(0, p)])
  {
    steps, s := FirstOpening(p);
    steps, s := Then(steps, s, WorkerLock(0));
    steps, s := Then(steps, s, WorkerUnlock(0));
    assert s == System(Idle, Nobody, [p], map[0 := Running], {0}, [Open(0, p)]);
    steps, s := Then(steps, s, WorkerSend(0));
    steps, s := Then(steps, s, Dispatched(0, SendsClose));
    steps, s := Then(steps, s, WorkerEof(0));
  }

  lemma FirstOpening(p: Port) returns (steps: seq<Step>, s: System)
    ensures Runs(INIT, steps, s)
    ensures s == System(Idle, Nobody, [p], map[0 := Created], {0}, [Open(0, p)])
  {
    steps, s := [], INIT;
    steps, s := Then(steps, s, Lock);
    steps, s := Then(steps, s, Initialise(1, Allocated(p), true));
    steps, s := Then(steps, s, Answer);
    steps, s := Then(steps, s, Unlock);
  }

  // In every run, with any number of requests, services and threads: a service's
  // frames follow the answer that opened it, no instance is answered for twice, and
  // once a port has been opened again its earlier services are silent.
  lemma NoFrameBeforeItsOpen(steps: seq<Step>, s: System)
    requires Runs(INIT, steps, s)
    ensures OpenFirst(s.sent) && AtMostOnce(s.sent) && PortOrder(s.sent)
  {
    RunsKeepInv(INIT, steps, s);
  }

  // The order of the frames holds for any first part of them.
  lemma OrderedPrefix(sent: seq<Frame>, wire: seq<Frame>)
    requires Ordered(sent) && wire <= sent
    ensures Ordered(wire)
  {
    forall k | 0 <= k < |wire| && FromService(wire[k]) ensures Open(wire[k].i, wire[k].port) in wire[..k] {
      assert wire[..k] == sent[..k];
    }
    assert forall k :: 0 <= k < |wire| ==> wire[k] == sent[k];
  }

  // The message that carries a frame: answers come from port 1, status messages
  // from port 0, data from the service's own port.
  ghost predicate Carries(m: MessageQueue.Message, f: Frame)
  {
    m.Message? &&
    match f
    case Data(_, port) => m.port == port
    case Eof(_, port) => m.port == 0 && port < 400 && m.payload == StatusBytes(port, 3)
    case Close(_, port) => m.port == 0 && port < 400 && m.payload == StatusBytes(port, 4)
    case Open(_, port) => m.port == 1 && port < 400 && m.payload == Encoded(f)
    case Denied(error) => m.port == 1 && 0 <= error < 8 && m.payload == Encoded(f)
  }

  // A status message names its port in the first two bytes, low byte first.
  lemma StatusNamesPort(port: Port, status: byte)
    requires port < 400
    ensures var m := StatusBytes(port, status);
      |m| == 4 && m[0] as int + 256 * m[1] as int == port && m[2] == status && m[3] == 0
  {
    ByteBack(port % 256);
    ByteBack(port / 256);
  }

  function StatusBytes(port: Port, status: byte): seq<byte>
  {
    [(port % 256) as byte, (port / 256 % 256) as byte, status, 0]
  }

  ghost predicate AllCarried(ms: seq<MessageQueue.Message>, fs: seq<Frame>)
  {
    |ms| == |fs| && forall k :: 0 <= k < |ms| ==> Carries(ms[k], fs[k])
  }

  // The frames are handed to the send queue in the order in which they were made,
  // while any number of threads are at work in the queue. What the sender thread has
  // taken out carries a first part of them, in that order.
  lemma OnTheWireToo(steps: seq<Step>, s: System, slots: seq<MessageQueue.Message>,
                     queueSteps: seq<MessageQueue.Step>, q: MessageQueue.System) returns (wire: seq<Frame>)
    requires Runs(INIT, steps, s)
    requires |slots| == MessageQueue.MESSAGEQUEMAX && MessageQueue.Runs(MessageQueue.Init(slots), queueSteps, q)
    requires AllCarried(q.added, s.sent)
    ensures wire <= s.sent && AllCarried(q.polled, wire) && Ordered(wire)
  {
    NoFrameBeforeItsOpen(steps, s);
    MessageQueue.QueueIsSafe(slots, queueSteps, q);
    wire := s.sent[..|q.polled|];
    OrderedPrefix(s.sent, wire);
  }
}

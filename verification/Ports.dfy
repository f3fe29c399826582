// The life of a port on the accessory: allocation, half-close in either direction,
// and one cleanup per service, also when a callback re-enters the bridge.
module Ports {
  const MAX_PORTS := 400

  // What a service's onEof does: nothing that matters here (bulk, signals), or
  // answer with sendEof (D-Bus methods). NullEof is the null pointer.
  datatype EofHandler = NullEof | Quiet | AnswersEof
  type Callback = h: EofHandler | !h.NullEof? witness Quiet

  // A slot of the services array.
  datatype Service = Service(port: int, inputOpen: bool, outputOpen: bool, onEof: EofHandler, onCleanup: bool)

  const CLOSED := Service(-1, true, true, NullEof, false)

  // A slot that was handed out and given its callbacks.
  predicate Confirmed(s: Service)
  {
    s.port != -1 && s.onCleanup && !s.onEof.NullEof?
  }

  predicate HasOpenSide(s: Service)
  {
    s.inputOpen || s.outputOpen
  }

  // A slot handed out for a service that was then denied: no event gives it back.
  predicate Leaked(s: Service)
  {
    s.port != -1 && !s.onCleanup && s.onEof.NullEof? && s.inputOpen
  }

  // A slot just handed out.
  function Granted(port: int, handler: Callback, initialised: bool): Service
  {
    if initialised then Service(port, true, true, handler, true) else Service(port, true, true, NullEof, false)
  }

  datatype Status = StreamEof | StreamClose | Unknown

  // Where the source leaves what C defines: an element behind the array, or a call of
  // a null pointer. The model stops there.
  datatype Fault = Fine | OutsideArray | NullCall

  // What each event does to a live slot. A direction that closes while the
  // other one is closed already ends the service.
  function AfterSendEof(s: Service): Service
  {
    if s.inputOpen then s.(outputOpen := false) else CLOSED
  }

  function AfterSendClose(s: Service): Service
  {
    if s.outputOpen then s.(inputOpen := false) else CLOSED
  }

  function AfterStatus(s: Service, status: Status): Service
  {
    match status
    case StreamEof => if s.onEof.AnswersEof? || !s.outputOpen then CLOSED else s.(inputOpen := false)
    case StreamClose => if !s.inputOpen then CLOSED else s.(outputOpen := false)
    case Unknown => s
  }

  // A message on the port status service.
  datatype Outgoing = Outgoing(port: int, status: Status)

  // The slots from position last + 1 on, cyclically, up to but not including port.
  ghost predicate Passed(last: int, port: int, k: int)
  {
    if last < port then last < k < port else last < k < MAX_PORTS || 0 <= k < port
  }

  // In the order of the search: from the one behind last to the highest, then from 0.
  lemma PassedInTurn(last: int, port: int, k: int)
    requires 0 <= last < 400 && 0 <= port < 400 && 0 <= k < 400
    ensures Passed(last, port, k) <==> (k - last - 1) % 400 < (port - last - 1) % 400
  {
  }

  class Bridge {
    const services: array<Service>
    var lastAllocatedPort: int
    // History: how often each slot was confirmed and how often its onCleanupService
    // was called, and the status messages sent.
    var opens: seq<nat>
    var cleanups: seq<nat>
    var sent: seq<Outgoing>

    ghost predicate Shape()
      reads this
    {
      services.Length == MAX_PORTS == |opens| == |cleanups| && 0 <= lastAllocatedPort < MAX_PORTS
    }

    // The rules every slot obeys between two events.
    ghost predicate SlotOk(i: nat)
      requires Shape() && i < MAX_PORTS
      reads this, services
    {
      var s := services[i];
      if s.port == -1 then s == CLOSED && opens[i] == cleanups[i]
      else
        && s.port == i
        && (Confirmed(s) || Leaked(s))
        && (s.inputOpen || s.outputOpen)
        && opens[i] == cleanups[i] + (if Confirmed(s) then 1 else 0)
    }

    ghost predicate Inv()
      reads this, services
    {
      Shape() && forall i :: 0 <= i < MAX_PORTS ==> SlotOk(i)
    }

    // initServer: three services are there from the start.
    constructor ()
      ensures Inv() && fresh(services) && lastAllocatedPort == 2 && sent == []
      ensures forall i :: 0 <= i < MAX_PORTS ==>
        services[i] == if i <= 2 then Service(i, true, true, Quiet, true) else CLOSED
    {
      services := new Service[MAX_PORTS](i => if 0 <= i <= 2 then Service(i, true, true, Quiet, true) else CLOSED);
      lastAllocatedPort := 2;
      opens := seq(MAX_PORTS, i => if i <= 2 then 1 else 0);
      cleanups := seq(MAX_PORTS, i => 0);
      sent := [];
    }

    // Everything but slot i is as it was.
    twostate predicate OnlySlot(i: nat)
      requires old(Shape()) && Shape() && i < MAX_PORTS
      reads this, services
    {
      && lastAllocatedPort == old(lastAllocatedPort)
      && (forall k :: 0 <= k < MAX_PORTS && k != i ==>
            services[k] == old(services[k]) && opens[k] == old(opens[k]) && cleanups[k] == old(cleanups[k]))
    }

    // CleanupService
    method CleanupService(i: nat)
      requires Shape() && i < MAX_PORTS
      modifies this`cleanups, services
      ensures Shape() && OnlySlot(i) && services[i] == CLOSED == Service(-1, true, true, NullEof, false)
      ensures cleanups[i] == old(cleanups[i]) + if old(services[i].onCleanup) then 1 else 0
    {
      if services[i].onCleanup {
        cleanups := cleanups[i := cleanups[i] + 1];
      }
      services[i] := services[i].(port := -1);
      services[i] := services[i].(inputOpen := true);
      services[i] := services[i].(outputOpen := true);
      services[i] := services[i].(onEof := NullEof);
      services[i] := services[i].(onCleanup := false);
    }

    // sendEof
    method SendEof(i: nat)
      requires Shape() && i < MAX_PORTS && Confirmed(services[i])
      modifies this`cleanups, this`sent, services
      ensures Shape() && OnlySlot(i) && services[i] == AfterSendEof(old(services[i]))
      ensures cleanups[i] == old(cleanups[i]) + if services[i] == CLOSED then 1 else 0
      ensures sent == old(sent) + [Outgoing(old(services[i].port), StreamEof)]
    {
      var message := Outgoing(services[i].port, StreamEof);
      services[i] := services[i].(outputOpen := false);
      sent := sent + [message];
      if !services[i].inputOpen && !services[i].outputOpen {
        CleanupService(i);
      }
    }

    // sendClose
    method SendClose(i: nat)
      requires Shape() && i < MAX_PORTS && Confirmed(services[i])
      modifies this`cleanups, this`sent, services
      ensures Shape() && OnlySlot(i) && services[i] == AfterSendClose(old(services[i]))
      ensures cleanups[i] == old(cleanups[i]) + if services[i] == CLOSED then 1 else 0
      ensures sent == old(sent) + [Outgoing(old(services[i].port), StreamClose)]
    {
      var message := Outgoing(services[i].port, StreamClose);
      services[i] := services[i].(inputOpen := false);
      sent := sent + [message];
      if !services[i].inputOpen && !services[i].outputOpen {
        CleanupService(i);
      }
    }

    // PortStatusOnBytesReceived, from the decoded slot on. onEof may re-enter the
    // bridge and clean the slot up; the test at the end then sees a reset slot.
    method OnStatus(i: nat, status: Status) returns (fault: Fault)
      requires Shape() && (i < MAX_PORTS ==> services[i] == CLOSED || Confirmed(services[i]) || Leaked(services[i]))
      modifies this`cleanups, this`sent, services
      ensures Shape() && fault == StatusFault(old(services[..]), i, status)
      ensures i >= MAX_PORTS ==> services[..] == old(services[..]) && cleanups == old(cleanups) && sent == old(sent)
      ensures i < MAX_PORTS ==> OnlySlot(i)
      ensures i < MAX_PORTS && old(services[i]) == CLOSED ==>
        services[i] == CLOSED && cleanups[i] == old(cleanups[i]) && sent == old(sent)
      ensures i < MAX_PORTS && fault.Fine? && old(services[i] != CLOSED && HasOpenSide(services[i])) ==>
        && services[i] == AfterStatus(old(services[i]), status)
        && cleanups[i] == old(cleanups[i]) + (if services[i] == CLOSED then 1 else 0)
        && sent == old(sent) +
          if status.StreamEof? && old(services[i].onEof.AnswersEof?) then
            [Outgoing(old(services[i].port), StreamEof)]
          else []
    {
      if i >= services.Length {
        return OutsideArray;
      }
      if services[i].port == -1 {
        return Fine;
      }
      match status {
        case StreamEof =>
          services[i] := services[i].(inputOpen := false);
          if services[i].onEof.NullEof? {
            return NullCall;
          }
          if services[i].onEof.AnswersEof? {
            SendEof(i);
          }
        case StreamClose =>
          services[i] := services[i].(outputOpen := false);
        case Unknown =>
      }
      if !services[i].inputOpen && !services[i].outputOpen {
        CleanupService(i);
      }
      return Fine;
    }

    // openNewPort. When the last port is the highest one the first slot probed
    // lies outside the array; the model stops there.
    method OpenNewPort() returns (port: int, outside: bool)
      requires Inv()
      modifies this`lastAllocatedPort, services
      ensures Shape() && (outside <==> old(lastAllocatedPort) == MAX_PORTS - 1)
      ensures outside ==> port == -1
      ensures port == -1 ==> services[..] == old(services[..]) && lastAllocatedPort == old(lastAllocatedPort)
      ensures !outside ==> (port == -1 <==> forall k :: 0 <= k < MAX_PORTS ==> old(services[k]) != CLOSED)
      ensures !outside && port != -1 ==>
        && 0 <= port < MAX_PORTS && old(services[port]) == CLOSED
        && services[..] == old(services[..])[port := CLOSED.(port := port)]
        && lastAllocatedPort == port
        && (forall k :: 0 <= k < MAX_PORTS && Passed(old(lastAllocatedPort), port, k) ==> old(services[k]) != CLOSED)
    {
      port := lastAllocatedPort + 1;
      if port >= services.Length {
        return -1, true;
      }
      while services[port].port != -1 && port != lastAllocatedPort
        invariant 0 <= port < MAX_PORTS
        invariant forall k :: 0 <= k < MAX_PORTS && Passed(lastAllocatedPort, port, k) ==> services[k] != CLOSED
        decreases if port <= lastAllocatedPort then lastAllocatedPort - port else lastAllocatedPort + MAX_PORTS - port
      {
        assert SlotOk(port);
        port := (port + 1) % MAX_PORTS;
      }
      assert SlotOk(port);
      if services[port].port == -1 {
        services[port] := services[port].(port := port);
        lastAllocatedPort := port;
        return port, false;
      }
      return -1, false;
    }

    // A request for a service: a slot, and its callbacks unless the service is denied.
    method OpenService(handler: Callback, initialised: bool) returns (port: int, outside: bool)
      requires Inv()
      modifies this`lastAllocatedPort, this`opens, services
      ensures Inv() && (outside <==> old(lastAllocatedPort) == MAX_PORTS - 1)
      ensures !outside ==> (port == -1 <==> forall k :: 0 <= k < MAX_PORTS ==> old(services[k]) != CLOSED)
      ensures outside ==> port == -1
      ensures lastAllocatedPort == if port != -1 then port else old(lastAllocatedPort)
      ensures forall k :: 0 <= k < MAX_PORTS && k != port ==> services[k] == old(services[k])
      ensures port != -1 ==> forall k :: 0 <= k < MAX_PORTS && Passed(old(lastAllocatedPort), port, k) ==>
        old(services[k]) != CLOSED
      ensures port != -1 ==>
        && 0 <= port < MAX_PORTS && old(services[port]) == CLOSED
        && services[port] == Granted(port, handler, initialised)
        && services[port].port == port && services[port].inputOpen && services[port].outputOpen
        && (initialised ==> services[port].onEof == handler && services[port].onCleanup)
        && (!initialised ==> services[port].onEof.NullEof? && !services[port].onCleanup)
    {
      port, outside := OpenNewPort();
      assert forall k :: 0 <= k < MAX_PORTS && k != port ==> services[..][k] == old(services[..])[k];
      if port != -1 && initialised {
        services[port] := services[port].(onEof := handler, onCleanup := true);
        opens := opens[port := opens[port] + 1];
      }
      forall k | 0 <= k < MAX_PORTS ensures SlotOk(k) {
        assert old(SlotOk(k));
      }
    }

    // The loop of deInitServer: what is still live is cleaned up, so that every
    // service ever confirmed has had its cleanup once.
    method DeInitServer()
      requires Inv()
      modifies this`cleanups, services
      ensures Inv() && lastAllocatedPort == old(lastAllocatedPort) && opens == old(opens)
      ensures forall k :: 0 <= k < MAX_PORTS ==> services[k] == CLOSED && cleanups[k] == opens[k]
    {
      var i := 0;
      while i < MAX_PORTS
        invariant 0 <= i <= MAX_PORTS && Inv() && opens == old(opens) && lastAllocatedPort == old(lastAllocatedPort)
        invariant forall k :: 0 <= k < i ==> services[k] == CLOSED && cleanups[k] == opens[k]
      {
        assert SlotOk(i);
        if services[i].port != -1 {
          CleanLive(i);
        }
        i := i + 1;
      }
    }

    method CleanLive(i: nat)
      requires Inv() && i < MAX_PORTS && services[i].port != -1
      modifies this`cleanups, services
      ensures Inv() && OnlySlot(i) && services[i] == CLOSED && cleanups[i] == opens[i]
    {
      assert SlotOk(i);
      CleanupService(i);
      forall k | 0 <= k < MAX_PORTS ensures SlotOk(k) {
        assert old(SlotOk(k));
      }
    }
  }

  // ---------- every run ----------

  // CallsSendEof and CallsSendClose are calls by the service on that slot.
  datatype Event =
    | Request(handler: Callback, initialised: bool)
    | StatusFor(slot: nat, status: Status)
    | CallsSendEof(slot: nat)
    | CallsSendClose(slot: nat)

  // A status message for a slot behind the array, or an EOF for a leaked slot, whose
  // callback is null.
  function StatusFault(s: seq<Service>, i: nat, status: Status): Fault
  {
    if i >= |s| then OutsideArray
    else if Leaked(s[i]) && status.StreamEof? then NullCall
    else Fine
  }

  function FaultOf(s: seq<Service>, last: int, e: Event): Fault
  {
    match e
    case Request(_, _) => if last == |s| - 1 then OutsideArray else Fine
    case StatusFor(i, status) => StatusFault(s, i, status)
    case _ => Fine
  }

  // What an event that is no request does to the slots.
  function Changed(s: seq<Service>, e: Event): (t: seq<Service>)
    requires !e.Request?
    ensures |t| == |s|
  {
    match e
    case StatusFor(i, status) => if i < |s| && s[i] != CLOSED then s[i := AfterStatus(s[i], status)] else s
    case CallsSendEof(i) => if i < |s| && Confirmed(s[i]) then s[i := AfterSendEof(s[i])] else s
    case CallsSendClose(i) => if i < |s| && Confirmed(s[i]) then s[i := AfterSendClose(s[i])] else s
  }

  // Port is the first closed slot behind last.
  ghost predicate NextFree(s: seq<Service>, last: int, port: int)
  {
    && 0 <= port < |s| && s[port] == CLOSED
    && forall k :: 0 <= k < |s| && Passed(last, port, k) ==> s[k] != CLOSED
  }

  // The slots and the last port before and after one event without a fault.
  ghost predicate Stepped(s: seq<Service>, last: int, e: Event, t: seq<Service>, last': int)
  {
    match e
    case Request(handler, initialised) =>
      if CLOSED !in s then t == s && last' == last
      else NextFree(s, last, last') && t == s[last' := Granted(last', handler, initialised)]
    case _ => t == Changed(s, e) && last' == last
  }

  // One event.
  method Handle(b: Bridge, e: Event) returns (fault: Fault)
    requires b.Inv()
    modifies b, b.services
    ensures fault == FaultOf(old(b.services[..]), old(b.lastAllocatedPort), e)
    ensures fault.Fine? ==> b.Inv()
    ensures fault.Fine? ==>
      Stepped(old(b.services[..]), old(b.lastAllocatedPort), e, b.services[..], b.lastAllocatedPort)
  {
    match e {
      case Request(handler, initialised) =>
        fault := HandleRequest(b, handler, initialised);
      case StatusFor(i, status) =>
        fault := HandleStatus(b, i, status);
      case CallsSendEof(i) =>
        HandleCall(b, i, true);
        fault := Fine;
      case CallsSendClose(i) =>
        HandleCall(b, i, false);
        fault := Fine;
    }
  }

  method HandleRequest(b: Bridge, handler: Callback, initialised: bool) returns (fault: Fault)
    requires b.Inv()
    modifies b, b.services
    ensures b.Inv() && fault == FaultOf(old(b.services[..]), old(b.lastAllocatedPort), Request(handler, initialised))
    ensures fault.Fine? ==>
      Stepped(old(b.services[..]), old(b.lastAllocatedPort), Request(handler, initialised), b.services[..],
        b.lastAllocatedPort)
  {
    ghost var s, last := b.services[..], b.lastAllocatedPort;
    var port, outside := b.OpenService(handler, initialised);
    Granting(s, last, b.services[..], port, handler, initialised);
    fault := if outside then OutsideArray else Fine;
  }

  method HandleStatus(b: Bridge, i: nat, status: Status) returns (fault: Fault)
    requires b.Inv()
    modifies b, b.services
    ensures fault == StatusFault(old(b.services[..]), i, status)
    ensures fault.Fine? ==> b.Inv() && b.lastAllocatedPort == old(b.lastAllocatedPort)
    ensures fault.Fine? ==> b.services[..] == Changed(old(b.services[..]), StatusFor(i, status))
  {
    ghost var s := b.services[..];
    assert i < MAX_PORTS ==> b.SlotOk(i);
    fault := b.OnStatus(i, status);
    if fault.Fine? {
      OneSlot(s, b.services[..], i);
      forall k | 0 <= k < MAX_PORTS ensures b.SlotOk(k) {
        assert old(b.SlotOk(k));
      }
    }
  }

  method HandleCall(b: Bridge, i: nat, eof: bool)
    requires b.Inv()
    modifies b, b.services
    ensures b.Inv() && b.lastAllocatedPort == old(b.lastAllocatedPort)
    ensures b.services[..] == Changed(old(b.services[..]), if eof then CallsSendEof(i) else CallsSendClose(i))
  {
    ghost var s := b.services[..];
    if i < MAX_PORTS && Confirmed(b.services[i]) {
      assert b.SlotOk(i);
      if eof {
        b.SendEof(i);
      } else {
        b.SendClose(i);
      }
      OneSlot(s, b.services[..], i);
      forall k | 0 <= k < MAX_PORTS ensures b.SlotOk(k) {
        assert old(b.SlotOk(k));
      }
    }
  }

  lemma OneSlot(s: seq<Service>, t: seq<Service>, i: nat)
    requires i < |s| == |t| && forall k :: 0 <= k < |s| && k != i ==> t[k] == s[k]
    ensures t == s[i := t[i]]
  {
  }

  lemma Granting(s: seq<Service>, last: int, t: seq<Service>, port: int, handler: Callback, initialised: bool)
    requires |s| == |t| && forall k :: 0 <= k < |s| && k != port ==> t[k] == s[k]
    requires port != -1 ==> NextFree(s, last, port) && t[port] == Granted(port, handler, initialised)
    ensures port != -1 ==> CLOSED in s && t == s[port := Granted(port, handler, initialised)]
    ensures port == -1 ==> t == s
  {
  }

  // Any sequence of events, up to the first that is a fault: each is one of the steps
  // above, and the rules hold at the end, so every opening has been followed by
  // exactly one cleanup, except the current one of a slot that is live.
  method Run(b: Bridge, events: seq<Event>)
    returns (done: nat, fault: Fault, ghost states: seq<seq<Service>>, ghost lasts: seq<int>)
    requires b.Inv()
    modifies b, b.services
    ensures done <= |events| && |states| == |lasts| == done + 1
    ensures states[0] == old(b.services[..]) && lasts[0] == old(b.lastAllocatedPort)
    ensures forall k :: 0 <= k < done ==>
      FaultOf(states[k], lasts[k], events[k]).Fine?
        && Stepped(states[k], lasts[k], events[k], states[k + 1], lasts[k + 1])
    ensures fault.Fine? ==>
      done == |events| && b.Inv() && states[done] == b.services[..] && lasts[done] == b.lastAllocatedPort
    ensures !fault.Fine? ==> done < |events| && fault == FaultOf(states[done], lasts[done], events[done])
  {
    states, lasts := [b.services[..]], [b.lastAllocatedPort];
    done, fault := 0, Fine;
    while done < |events|
      invariant 0 <= done <= |events| && b.Inv() && |states| == |lasts| == done + 1
      invariant states[0] == old(b.services[..]) && lasts[0] == old(b.lastAllocatedPort)
      invariant states[done] == b.services[..] && lasts[done] == b.lastAllocatedPort
      invariant forall k :: 0 <= k < done ==>
        FaultOf(states[k], lasts[k], events[k]).Fine?
          && Stepped(states[k], lasts[k], events[k], states[k + 1], lasts[k + 1])
    {
      fault := Handle(b, events[done]);
      if !fault.Fine? {
        return;
      }
      states, lasts := states + [b.services[..]], lasts + [b.lastAllocatedPort];
      done := done + 1;
    }
    fault := Fine;
  }

  // The highest port can become the last one allocated: 397 openings do it, and
  // the next request then probes outside the array.
  method LastPortIsReachable() returns (outside: bool)
    ensures outside
  {
    var b := new Bridge();
    var n := 2;
    while n < MAX_PORTS - 1
      invariant 2 <= n <= MAX_PORTS - 1 && b.Inv() && fresh(b) && fresh(b.services)
      invariant b.lastAllocatedPort == n
      invariant forall k :: n < k < MAX_PORTS ==> b.services[k] == CLOSED
    {
      assert b.services[n + 1] == CLOSED;
      var port, out := b.OpenService(Quiet, true);
      assert !Passed(n, port, n + 1);
      n := n + 1;
    }
    var port;
    port, outside := b.OpenService(Quiet, true);
  }

  // A denied service and then an EOF for its slot make the null call.
  method NullCallIsReachable() returns (fault: Fault)
    ensures fault.NullCall?
  {
    var b := new Bridge();
    assert b.services[3] == CLOSED;
    var port, outside := b.OpenService(Quiet, false);
    fault := b.OnStatus(port, StreamEof);
  }

  // ---------- one service, from its opening to its cleanup ----------

  datatype Happening = EofArrives | CloseArrives | SendsEof | SendsClose

  function After(s: Service, h: Happening): Service
  {
    match h
    case EofArrives => AfterStatus(s, StreamEof)
    case CloseArrives => AfterStatus(s, StreamClose)
    case SendsEof => AfterSendEof(s)
    case SendsClose => AfterSendClose(s)
  }

  // The service after a sequence of happenings; nothing happens to it any more once
  // it has been cleaned up.
  function AfterAll(s: Service, hs: seq<Happening>): Service
    decreases |hs|
  {
    if |hs| == 0 || s == CLOSED then s else AfterAll(After(s, hs[0]), hs[1..])
  }

  // Cleanup comes exactly when both directions have been closed, from whichever
  // side and in whichever order; an EOF closes both of a service that answers it
  // with its own.
  lemma {:induction false} CleanupWhenBothClosed(s: Service, hs: seq<Happening>)
    requires Confirmed(s) && (s.inputOpen || s.outputOpen)
    ensures AfterAll(s, hs) == CLOSED <==>
      && (!s.inputOpen || EofArrives in hs || SendsClose in hs)
      && (!s.outputOpen || CloseArrives in hs || SendsEof in hs || (s.onEof.AnswersEof? && EofArrives in hs))
    decreases |hs|
  {
    if |hs| > 0 {
      var h, rest := hs[0], hs[1..];
      FirstOrLater(h, rest, hs);
      OneHappening(s, h);
      if After(s, h) != CLOSED {
        CleanupWhenBothClosed(After(s, h), rest);
      }
    }
  }

  // So a service just opened lives until something has closed each direction.
  lemma OpenedUntilBothClosed(port: nat, handler: Callback, hs: seq<Happening>)
    ensures AfterAll(Granted(port, handler, true), hs).port == -1 <==>
      && (EofArrives in hs || SendsClose in hs)
      && (CloseArrives in hs || SendsEof in hs || (handler.AnswersEof? && EofArrives in hs))
  {
    CleanupWhenBothClosed(Granted(port, handler, true), hs);
    LivesOrCloses(Granted(port, handler, true), hs);
  }

  lemma {:induction false} LivesOrCloses(s: Service, hs: seq<Happening>)
    requires Confirmed(s)
    ensures AfterAll(s, hs) == CLOSED || AfterAll(s, hs).port == s.port
    decreases |hs|
  {
    if |hs| > 0 && After(s, hs[0]) != CLOSED {
      LivesOrCloses(After(s, hs[0]), hs[1..]);
    }
  }

  lemma FirstOrLater(h: Happening, rest: seq<Happening>, hs: seq<Happening>)
    requires |hs| > 0 && h == hs[0] && rest == hs[1..]
    ensures forall g :: g in hs <==> g == h || g in rest
  {
    assert hs == [h] + rest;
  }

  // One happening closes the directions it closes, and the service with the last.
  lemma OneHappening(s: Service, h: Happening)
    requires Confirmed(s) && (s.inputOpen || s.outputOpen)
    ensures var input := s.inputOpen && !h.EofArrives? && !h.SendsClose?;
      var output := s.outputOpen && !h.CloseArrives? && !h.SendsEof? && !(h.EofArrives? && s.onEof.AnswersEof?);
      After(s, h) == if input || output then Service(s.port, input, output, s.onEof, s.onCleanup) else CLOSED
  {
  }

  // ---------- one service, in a run of the bridge ----------

  // What an event is for the service on slot p.
  function Concerning(p: nat, e: Event): seq<Happening>
  {
    match e
    case StatusFor(i, StreamEof) => if i == p then [EofArrives] else []
    case StatusFor(i, StreamClose) => if i == p then [CloseArrives] else []
    case CallsSendEof(i) => if i == p then [SendsEof] else []
    case CallsSendClose(i) => if i == p then [SendsClose] else []
    case _ => []
  }

  function AllConcerning(p: nat, es: seq<Event>): seq<Happening>
  {
    if |es| == 0 then [] else Concerning(p, es[0]) + AllConcerning(p, es[1..])
  }

  ghost predicate Steps(states: seq<seq<Service>>, lasts: seq<int>, es: seq<Event>)
  {
    && |states| == |lasts| == |es| + 1
    && forall k :: 0 <= k < |es| ==>
        FaultOf(states[k], lasts[k], es[k]).Fine? && Stepped(states[k], lasts[k], es[k], states[k + 1], lasts[k + 1])
  }

  // In a run a service that is live at its start goes its own way as long as it lives,
  // whatever happens to the others: the events that concern it decide.
  lemma {:induction false} SlotGoesItsWay(p: nat, states: seq<seq<Service>>, lasts: seq<int>, es: seq<Event>)
    requires Steps(states, lasts, es) && p < |states[0]| && Confirmed(states[0][p])
    requires forall k :: 0 <= k < |es| ==> p < |states[k]| && states[k][p] != CLOSED
    ensures p < |states[|es|]| && states[|es|][p] == AfterAll(states[0][p], AllConcerning(p, es))
    decreases |es|
  {
    if |es| > 0 {
      OneEvent(p, states[0], lasts[0], es[0], states[1], lasts[1]);
      if |es| == 1 {
        assert Concerning(p, es[0]) + [] == Concerning(p, es[0]);
      } else {
        SlotGoesItsWay(p, states[1..], lasts[1..], es[1..]);
        AfterMore(states[0][p], Concerning(p, es[0]), AllConcerning(p, es[1..]));
      }
    }
  }

  lemma OneEvent(p: nat, s: seq<Service>, last: int, e: Event, t: seq<Service>, last': int)
    requires Stepped(s, last, e, t, last') && p < |s| && Confirmed(s[p]) && s[p] != CLOSED
    ensures p < |t| && t[p] == AfterAll(s[p], Concerning(p, e))
    ensures t[p] == CLOSED || Confirmed(t[p])
  {
  }

  lemma AfterMore(s: Service, hs: seq<Happening>, more: seq<Happening>)
    requires |hs| <= 1
    ensures AfterAll(s, hs + more) == AfterAll(AfterAll(s, hs), more)
  {
    if |hs| == 0 {
      assert hs + more == more;
    } else {
      assert (hs + more)[1..] == more;
    }
  }
}

// Those who write frames: Port.write of the Android side, called by any number of
// threads on any ports, and the sender thread of the accessory.
module Writers {
  import opened Framing
  import opened Memory
  import opened MessageQueue
  import opened Streams
  import opened Transport

  function Amount(remaining: seq<byte>): (n: nat)
    ensures n <= |remaining| && n <= MAX_PAYLOAD
  {
    if |remaining| > MAX_PAYLOAD then MAX_PAYLOAD else |remaining|
  }

  // ---------- one call of Port.write ----------

  class ByteBuffer {
    const data: array<byte>
    const arrayOffset: nat
    const limit: nat
    var position: nat

    ghost predicate Valid()
      reads this
    {
      position <= limit && arrayOffset + limit <= data.Length
    }

    ghost function Remaining(): seq<byte>
      requires Valid()
      reads this, data
    {
      data[arrayOffset + position..arrayOffset + limit]
    }

    constructor (data: array<byte>, arrayOffset: nat, limit: nat)
      requires arrayOffset + limit <= data.Length
      ensures Valid() && Remaining() == data[arrayOffset..arrayOffset + limit]
    {
      this.data, this.arrayOffset, this.limit := data, arrayOffset, limit;
      position := 0;
    }
  }

  class OutputStream {
    ghost var written: seq<byte>

    constructor ()
      ensures written == []
    {
      written := [];
    }

    method Write(data: array<byte>, ofs: nat, n: nat)
      requires ofs + n <= data.Length
      modifies this
      ensures written == old(written) + data[ofs..ofs + n]
    {
      written := written + data[ofs..ofs + n];
    }
  }

  datatype Outcome = Wrote(n: nat) | Closed

  class Port {
    const header: array<byte>
    const portNr: nat
    var outputOpen: bool

    ghost predicate Valid()
      reads this, header
    {
      portNr < 0x8000 && header.Length == 4 && header[0] == Low(portNr) && header[1] == High(portNr)
    }

    constructor (portNr: nat)
      requires portNr < 0x8000
      ensures Valid() && outputOpen && this.portNr == portNr && fresh(header)
    {
      this.portNr := portNr;
      outputOpen := true;
      header := new byte[4];
      new;
      header[0], header[1] := Low(portNr), High(portNr);
    }

    // header.reset and putShort
    method PutSize(n: nat)
      requires Valid() && n < 0x8000
      modifies header
      ensures Valid() && header[0..4] == Header(portNr, n)
    {
      header[2], header[3] := Low(n), High(n);
    }

    // Port.write: one frame with the first 4000 of the remaining bytes at most.
    method Write(buffer: ByteBuffer, outputStream: OutputStream) returns (r: Outcome)
      requires Valid() && buffer.Valid() && buffer.data != header
      modifies header, buffer, outputStream
      ensures Valid() && buffer.Valid()
      ensures r.Closed? <==> !outputOpen
      ensures r.Closed? ==>
        buffer.Remaining() == old(buffer.Remaining()) && outputStream.written == old(outputStream.written)
      ensures r.Wrote? ==>
        && r.n == (if |old(buffer.Remaining())| <= 4000 then |old(buffer.Remaining())| else 4000)
        && buffer.Remaining() == old(buffer.Remaining())[r.n..]
        && outputStream.written == old(outputStream.written) + Encode(Frame(portNr, old(buffer.Remaining())[..r.n]))
    {
      if !outputOpen {
        return Closed;
      }
      ghost var before, remaining := outputStream.written, buffer.Remaining();
      var left := buffer.limit - buffer.position;
      var writeAmount := if left > 4000 then 4000 else left;
      PutSize(writeAmount);
      outputStream.Write(header, 0, header.Length);
      outputStream.Write(buffer.data, buffer.arrayOffset + buffer.position, writeAmount);
      buffer.position := buffer.position + writeAmount;
      Ahead(buffer.data[..], buffer.arrayOffset + buffer.position - writeAmount, buffer.arrayOffset + buffer.limit,
        writeAmount);
      Assoc(before, Header(portNr, writeAmount), remaining[..writeAmount]);
      return Wrote(writeAmount);
    }
  }

  lemma Ahead(b: seq<byte>, lo: nat, hi: nat, n: nat)
    requires lo + n <= hi <= |b|
    ensures b[lo..hi][..n] == b[lo..lo + n] && b[lo..hi][n..] == b[lo + n..hi]
  {
  }

  // ---------- any number of threads that write ----------

  // Where a thread stands in Port.write: outside; the port's lock taken and its
  // header set; the bridge's lock taken too and the header written; the payload
  // written and the bridge's lock given back.
  datatype Phase = Outside | Prepared | HeaderOut | PayloadOut

  // A thread that hands all of given to its port, one write after the other.
  datatype Writer = Writer(port: nat, given: seq<byte>, rest: seq<byte>, phase: Phase)

  datatype Lock = Free | HeldBy(writer: nat)

  datatype Entry = Entry(writer: nat, frame: Frame)

  // headers and portLocks are kept by port; log is the history of complete frames.
  datatype System = System(
    writers: seq<Writer>,
    headers: map<nat, seq<byte>>,
    portLocks: map<nat, nat>,
    bridgeLock: Lock,
    wire: seq<byte>,
    log: seq<Entry>)

  datatype Step = Prepare(writer: nat) | PutHeader(writer: nat) | PutPayload(writer: nat) | Advance(writer: nat)

  function Payload(w: Writer): seq<byte>
  {
    w.rest[..Amount(w.rest)]
  }

  function HeaderOf(s: System, port: nat): seq<byte>
  {
    if port in s.headers then s.headers[port] else []
  }

  predicate Enabled(s: System, step: Step)
  {
    step.writer < |s.writers| &&
    var w := s.writers[step.writer];
    match step
    case Prepare(_) => w.phase == Outside && w.port !in s.portLocks && w.port < 0x8000
    case PutHeader(_) => w.phase == Prepared && s.bridgeLock == Free
    case PutPayload(_) => w.phase == HeaderOut
    case Advance(_) => w.phase == PayloadOut
  }

  function Moved(s: System, t: nat, phase: Phase): seq<Writer>
    requires t < |s.writers|
  {
    s.writers[t := s.writers[t].(phase := phase)]
  }

  function Do(s: System, step: Step): System
    requires Enabled(s, step)
  {
    var t := step.writer;
    var w := s.writers[t];
    match step
    case Prepare(_) =>
      s.(writers := Moved(s, t, Prepared),
         headers := s.headers[w.port := Header(w.port, Amount(w.rest))],
         portLocks := s.portLocks[w.port := t])
    case PutHeader(_) =>
      s.(writers := Moved(s, t, HeaderOut),
         bridgeLock := HeldBy(t),
         wire := s.wire + HeaderOf(s, w.port))
    case PutPayload(_) =>
      s.(writers := Moved(s, t, PayloadOut),
         bridgeLock := Free,
         wire := s.wire + Payload(w),
         log := s.log + [Entry(t, Frame(w.port, Payload(w)))])
    case Advance(_) =>
      s.(writers := s.writers[t := w.(phase := Outside, rest := w.rest[Amount(w.rest)..])],
         portLocks := s.portLocks - {w.port})
  }

  function Frames(log: seq<Entry>): (fs: seq<Frame>)
    ensures |fs| == |log| && forall k :: 0 <= k < |log| ==> fs[k] == log[k].frame
  {
    seq(|log|, k requires 0 <= k < |log| => log[k].frame)
  }

  // What thread t has got onto the wire.
  function PayloadsBy(log: seq<Entry>, t: nat): seq<byte>
  {
    if |log| == 0 then []
    else
      var last := log[|log| - 1];
      PayloadsBy(log[..|log| - 1], t) + (if last.writer == t then last.frame.payload else [])
  }

  // What the frames for a port carry.
  function PayloadsOn(fs: seq<Frame>, port: nat): seq<byte>
  {
    if |fs| == 0 then []
    else
      var last := fs[|fs| - 1];
      PayloadsOn(fs[..|fs| - 1], port) + (if last.port == port then last.payload else [])
  }

  // What thread t has not written yet.
  function Unwritten(w: Writer): seq<byte>
  {
    if w.phase == PayloadOut then w.rest[Amount(w.rest)..] else w.rest
  }

  // The header of the frame that is only half written.
  function InFlight(s: System): seq<byte>
  {
    if s.bridgeLock.HeldBy? && s.bridgeLock.writer < |s.writers| && s.writers[s.bridgeLock.writer].port < 0x8000 then
      var w := s.writers[s.bridgeLock.writer];
      Header(w.port, Amount(w.rest))
    else []
  }

  ghost predicate Conserved(s: System)
  {
    forall t :: 0 <= t < |s.writers| ==>
      s.writers[t].given == PayloadsBy(s.log, t) + Unwritten(s.writers[t])
  }

  ghost predicate PortsHeld(s: System)
  {
    forall t :: 0 <= t < |s.writers| && s.writers[t].phase != Outside ==>
      var w := s.writers[t];
      w.port in s.portLocks && s.portLocks[w.port] == t && w.port < 0x8000
  }

  ghost predicate HeadersSet(s: System)
  {
    forall t :: 0 <= t < |s.writers| && s.writers[t].phase == Prepared ==>
      var w := s.writers[t];
      w.port < 0x8000 && HeaderOf(s, w.port) == Header(w.port, Amount(w.rest))
  }

  ghost predicate BridgeHeld(s: System)
  {
    && (s.bridgeLock.HeldBy? ==> s.bridgeLock.writer < |s.writers|)
    && forall t :: 0 <= t < |s.writers| ==> (s.writers[t].phase == HeaderOut <==> s.bridgeLock == HeldBy(t))
  }

  ghost predicate Logged(s: System)
  {
    && AllSendable(Frames(s.log)) && AllFit(Frames(s.log))
    && forall k :: 0 <= k < |s.log| ==>
      s.log[k].writer < |s.writers| && s.log[k].frame.port == s.writers[s.log[k].writer].port
  }

  ghost predicate OnTheWire(s: System)
  {
    AllSendable(Frames(s.log)) && s.wire == EncodeAll(Frames(s.log)) + InFlight(s)
  }

  ghost predicate Inv(s: System)
  {
    Conserved(s) && PortsHeld(s) && HeadersSet(s) && BridgeHeld(s) && Logged(s) && OnTheWire(s)
  }

  ghost predicate Initial(s: System)
  {
    && s.portLocks == map[] && s.bridgeLock == Free && s.wire == [] && s.log == []
    && forall t :: 0 <= t < |s.writers| ==> s.writers[t].phase == Outside && s.writers[t].rest == s.writers[t].given
  }

  lemma InitialInv(s: System)
    requires Initial(s)
    ensures Inv(s)
  {
  }

  lemma {:induction false} EncodeAllMore(fs: seq<Frame>, f: Frame)
    requires AllSendable(fs) && Sendable(f)
    ensures AllSendable(fs + [f]) && EncodeAll(fs + [f]) == EncodeAll(fs) + Encode(f)
  {
    if |fs| == 0 {
      assert fs + [f] == [f];
    } else {
      SnocTail(fs, f);
      EncodeAllMore(fs[1..], f);
      Assoc(Encode(fs[0]), EncodeAll(fs[1..]), Encode(f));
    }
  }

  lemma SnocTail(fs: seq<Frame>, f: Frame)
    requires |fs| > 0
    ensures (fs + [f])[1..] == fs[1..] + [f] && (fs + [f])[0] == fs[0]
  {
  }

  lemma FramesMore(log: seq<Entry>, e: Entry)
    ensures Frames(log + [e]) == Frames(log) + [e.frame]
  {
  }

  lemma PayloadsByMore(log: seq<Entry>, e: Entry, t: nat)
    ensures PayloadsBy(log + [e], t) == PayloadsBy(log, t) + (if e.writer == t then e.frame.payload else [])
  {
    assert (log + [e])[..|log|] == log;
  }

  lemma PrepareKept(s: System, t: nat)
    requires Inv(s) && Enabled(s, Prepare(t))
    ensures Inv(Do(s, Prepare(t)))
  {
    BridgeStaysHeld(s, Prepare(t));
    PortTaken(s, t);
  }

  lemma PortTaken(s: System, t: nat)
    requires PortsHeld(s) && HeadersSet(s) && Enabled(s, Prepare(t))
    ensures var s' := Do(s, Prepare(t)); PortsHeld(s') && HeadersSet(s')
  {
  }

  lemma PutHeaderKept(s: System, t: nat)
    requires Inv(s) && Enabled(s, PutHeader(t))
    ensures Inv(Do(s, PutHeader(t)))
  {
    LocksOnly(s, PutHeader(t));
    HeaderOnTheWire(s, t);
  }

  lemma LocksOnly(s: System, step: Step)
    requires PortsHeld(s) && HeadersSet(s) && BridgeHeld(s) && Enabled(s, step) && (step.PutHeader? || step.PutPayload?)
    ensures var s' := Do(s, step); PortsHeld(s') && HeadersSet(s') && BridgeHeld(s')
  {
    PortsStayHeld(s, step);
    HeadersStaySet(s, step);
    BridgeStaysHeld(s, step);
  }

  lemma PortsStayHeld(s: System, step: Step)
    requires PortsHeld(s) && Enabled(s, step) && (step.PutHeader? || step.PutPayload?)
    ensures PortsHeld(Do(s, step))
  {
  }

  lemma HeadersStaySet(s: System, step: Step)
    requires HeadersSet(s) && Enabled(s, step) && (step.PutHeader? || step.PutPayload?)
    ensures HeadersSet(Do(s, step))
  {
  }

  lemma BridgeStaysHeld(s: System, step: Step)
    requires BridgeHeld(s) && Enabled(s, step)
    ensures BridgeHeld(Do(s, step))
  {
  }

  lemma HeaderOnTheWire(s: System, t: nat)
    requires HeadersSet(s) && OnTheWire(s) && Enabled(s, PutHeader(t))
    ensures OnTheWire(Do(s, PutHeader(t)))
  {
    assert s.wire == EncodeAll(Frames(s.log));
  }

  // No thread is between the header and the payload of another.
  lemma PutPayloadKept(s: System, t: nat)
    requires Inv(s) && Enabled(s, PutPayload(t))
    ensures Inv(Do(s, PutPayload(t)))
  {
    LocksOnly(s, PutPayload(t));
    PayloadOnTheWire(s, t);
    PayloadConserved(s, t);
  }

  lemma PayloadOnTheWire(s: System, t: nat)
    requires PortsHeld(s) && BridgeHeld(s) && Logged(s) && OnTheWire(s) && Enabled(s, PutPayload(t))
    ensures var s' := Do(s, PutPayload(t)); Logged(s') && OnTheWire(s')
  {
    var w := s.writers[t];
    var e := Entry(t, Frame(w.port, Payload(w)));
    FramesMore(s.log, e);
    EncodeAllMore(Frames(s.log), e.frame);
    HeaderInFlight(s, t);
    Assoc(EncodeAll(Frames(s.log)), Header(w.port, Amount(w.rest)), Payload(w));
    EntryLogged(s, t, e);
  }

  lemma HeaderInFlight(s: System, t: nat)
    requires PortsHeld(s) && BridgeHeld(s) && Enabled(s, PutPayload(t))
    ensures s.writers[t].port < 0x8000 && InFlight(s) == Header(s.writers[t].port, Amount(s.writers[t].rest))
  {
    assert s.bridgeLock == HeldBy(t);
  }

  lemma EntryLogged(s: System, t: nat, e: Entry)
    requires Logged(s) && Enabled(s, PutPayload(t)) && s.writers[t].port < 0x8000
    requires e == Entry(t, Frame(s.writers[t].port, Payload(s.writers[t])))
    ensures Logged(Do(s, PutPayload(t)))
  {
    FramesMore(s.log, e);
  }

  lemma PayloadConserved(s: System, t: nat)
    requires Conserved(s) && Enabled(s, PutPayload(t))
    ensures Conserved(Do(s, PutPayload(t)))
  {
    var s', w := Do(s, PutPayload(t)), s.writers[t];
    forall u | 0 <= u < |s'.writers|
      ensures s'.writers[u].given == PayloadsBy(s'.log, u) + Unwritten(s'.writers[u])
    {
      PayloadsByMore(s.log, Entry(t, Frame(w.port, Payload(w))), u);
      if u == t {
        Cut(PayloadsBy(s.log, u), w.rest, Amount(w.rest));
      }
    }
  }

  lemma Cut(a: seq<byte>, b: seq<byte>, n: nat)
    requires n <= |b|
    ensures a + b == a + b[..n] + b[n..]
  {
  }

  lemma AdvanceKept(s: System, t: nat)
    requires Inv(s) && Enabled(s, Advance(t))
    ensures Inv(Do(s, Advance(t)))
  {
    BridgeStaysHeld(s, Advance(t));
    PortGivenBack(s, t);
    WireLeftAlone(s, t);
    AdvanceConserves(s, t);
  }

  lemma PortGivenBack(s: System, t: nat)
    requires PortsHeld(s) && HeadersSet(s) && Enabled(s, Advance(t))
    ensures var s' := Do(s, Advance(t)); PortsHeld(s') && HeadersSet(s')
  {
  }

  lemma WireLeftAlone(s: System, t: nat)
    requires BridgeHeld(s) && Logged(s) && OnTheWire(s) && Enabled(s, Advance(t))
    ensures var s' := Do(s, Advance(t)); Logged(s') && OnTheWire(s')
  {
    assert InFlight(Do(s, Advance(t))) == InFlight(s);
  }

  lemma AdvanceConserves(s: System, t: nat)
    requires Conserved(s) && Enabled(s, Advance(t))
    ensures Conserved(Do(s, Advance(t)))
  {
  }

  lemma InvKept(s: System, step: Step)
    requires Inv(s) && Enabled(s, step)
    ensures Inv(Do(s, step))
  {
    match step
    case Prepare(t) => PrepareKept(s, t);
    case PutHeader(t) => PutHeaderKept(s, t);
    case PutPayload(t) => PutPayloadKept(s, t);
    case Advance(t) => AdvanceKept(s, t);
  }

  ghost predicate Runs(s: System, steps: seq<Step>, s': System)
    decreases |steps|
  {
    if |steps| == 0 then s == s'
    else Enabled(s, steps[0]) && Runs(Do(s, steps[0]), steps[1..], s')
  }

  lemma {:induction false} RunsKeepInv(s: System, steps: seq<Step>, s': System)
    requires Inv(s) && Runs(s, steps, s')
    ensures Inv(s')
    decreases |steps|
  {
    if |steps| > 0 {
      InvKept(s, steps[0]);
      RunsKeepInv(Do(s, steps[0]), steps[1..], s');
    }
  }

  // The frames the wire shows, counting the one that is only begun.
  function Announced(s: System): seq<Frame>
  {
    Frames(s.log) +
    if s.bridgeLock.HeldBy? && s.bridgeLock.writer < |s.writers| then
      var w := s.writers[s.bridgeLock.writer];
      [Frame(w.port, Payload(w))]
    else []
  }

  // Wherever the connection breaks off, the receiver finds what it asks for; and
  // between two frames it finds exactly the frames written.
  lemma WireIsParsed(s: System, steps: seq<Step>, s': System, n: nat)
    requires Initial(s) && Runs(s, steps, s') && n <= |s'.wire|
    ensures FromWriters(s'.wire[..n], Announced(s'))
    ensures ParseAll(s'.wire[..n]) <= Announced(s')
    ensures s'.bridgeLock == Free ==> Announced(s') == Frames(s'.log) == ParseAll(s'.wire)
  {
    InitialInv(s);
    RunsKeepInv(s, steps, s');
    WireIsPrefix(s');
    PrefixOfPrefix(s'.wire, EncodeAll(Announced(s')), n);
    BrokenOff(Announced(s'), n);
    if s'.bridgeLock == Free {
      WireIsComplete(s');
    }
  }

  lemma PrefixOfPrefix(w: seq<byte>, e: seq<byte>, n: nat)
    requires w <= e && n <= |w|
    ensures w[..n] <= e && e[..n] == w[..n]
  {
  }

  lemma WireIsComplete(s: System)
    requires Inv(s) && s.bridgeLock == Free
    ensures Announced(s) == Frames(s.log) == ParseAll(s.wire)
  {
    assert Announced(s) == Frames(s.log);
    ParseUndoesEncode(Frames(s.log));
    assert s.wire == EncodeAll(Frames(s.log));
  }

  lemma WireIsPrefix(s: System)
    requires Inv(s)
    ensures AllSendable(Announced(s)) && AllFit(Announced(s)) && s.wire <= EncodeAll(Announced(s))
  {
    if s.bridgeLock.HeldBy? {
      var w := s.writers[s.bridgeLock.writer];
      var f := Frame(w.port, Payload(w));
      assert w.phase == HeaderOut;
      EncodeAllMore(Frames(s.log), f);
      Assoc(EncodeAll(Frames(s.log)), InFlight(s), f.payload);
    } else {
      assert Announced(s) == Frames(s.log);
      assert s.wire == EncodeAll(Frames(s.log));
    }
  }

  // How many writes thread t has got onto the wire.
  function WritesBy(log: seq<Entry>, t: nat): nat
  {
    if |log| == 0 then 0
    else WritesBy(log[..|log| - 1], t) + (if log[|log| - 1].writer == t then 1 else 0)
  }

  // So far every write of thread t took 4000 bytes, or what was left.
  ghost predicate Progressed(s: System)
  {
    forall t :: 0 <= t < |s.writers| ==> Reached(s, t)
  }

  ghost predicate Reached(s: System, t: nat)
    requires t < |s.writers|
  {
    var all, done := |s.writers[t].given|, 4000 * WritesBy(s.log, t);
    |Unwritten(s.writers[t])| == if done <= all then all - done else 0
  }

  lemma WritesByMore(log: seq<Entry>, e: Entry, t: nat)
    ensures WritesBy(log + [e], t) == WritesBy(log, t) + (if e.writer == t then 1 else 0)
  {
    assert (log + [e])[..|log|] == log;
  }

  lemma StepProgresses(s: System, step: Step)
    requires Progressed(s) && Enabled(s, step)
    ensures Progressed(Do(s, step))
  {
    var s', t := Do(s, step), step.writer;
    forall u | 0 <= u < |s'.writers|
      ensures Reached(s', u)
    {
      assert Reached(s, u);
      if step.PutPayload? {
        WritesByMore(s.log, Entry(t, Frame(s.writers[t].port, Payload(s.writers[t]))), u);
      }
    }
  }

  lemma {:induction false} RunsProgress(s: System, steps: seq<Step>, s': System)
    requires Progressed(s) && Runs(s, steps, s')
    ensures Progressed(s')
    decreases |steps|
  {
    if |steps| > 0 {
      StepProgresses(s, steps[0]);
      RunsProgress(Do(s, steps[0]), steps[1..], s');
    }
  }

  // After n complete writes of a thread the first 4000 * n bytes of what it was given
  // are on the wire; with enough of them, all.
  lemma WritesAdvance(s: System, steps: seq<Step>, s': System, t: nat)
    requires Initial(s) && Runs(s, steps, s') && t < |s'.writers|
    ensures var given, done := s'.writers[t].given, 4000 * WritesBy(s'.log, t);
      PayloadsBy(s'.log, t) == if done < |given| then given[..done] else given
  {
    InitialInv(s);
    RunsKeepInv(s, steps, s');
    RunsProgress(s, steps, s');
    assert Reached(s', t);
    FrontOfSum(s'.writers[t].given, PayloadsBy(s'.log, t), Unwritten(s'.writers[t]));
  }

  lemma FrontOfSum(all: seq<byte>, a: seq<byte>, b: seq<byte>)
    requires all == a + b
    ensures a == all[..|all| - |b|]
  {
  }

  // A thread outside whose locks are free can write: four steps put one more frame
  // of its own on the wire.
  lemma CanWrite(s: System, t: nat) returns (s': System)
    requires t < |s.writers| && Enabled(s, Prepare(t)) && s.bridgeLock == Free
    ensures Runs(s, [Prepare(t), PutHeader(t), PutPayload(t), Advance(t)], s')
    ensures |s'.writers| == |s.writers| && s'.writers[t].phase == Outside
    ensures s'.bridgeLock == Free && s'.portLocks == s.portLocks
    ensures s'.log == s.log + [Entry(t, Frame(s.writers[t].port, Payload(s.writers[t])))]
  {
    var s1 := Do(s, Prepare(t));
    var s2 := Do(s1, PutHeader(t));
    var s3 := Do(s2, PutPayload(t));
    s' := Do(s3, Advance(t));
    OneStep(s3, Advance(t), [], s');
    OneStep(s2, PutPayload(t), [Advance(t)], s');
    OneStep(s1, PutHeader(t), [PutPayload(t), Advance(t)], s');
    OneStep(s, Prepare(t), [PutHeader(t), PutPayload(t), Advance(t)], s');
  }

  lemma OneStep(s: System, step: Step, rest: seq<Step>, s': System)
    requires Enabled(s, step) && Runs(Do(s, step), rest, s')
    ensures Runs(s, [step] + rest, s')
  {
    assert ([step] + rest)[1..] == rest;
  }

  // No deadlock: while any thread is inside a write, one that is can go on.
  lemma SomeWriterCanGoOn(s: System, t: nat) returns (step: Step)
    requires Inv(s) && t < |s.writers| && s.writers[t].phase != Outside
    ensures Enabled(s, step) && s.writers[step.writer].phase != Outside
  {
    if s.bridgeLock.HeldBy? {
      step := PutPayload(s.bridgeLock.writer);
    } else if s.writers[t].phase == Prepared {
      step := PutHeader(t);
    } else {
      step := Advance(t);
    }
  }

  // Nothing a thread hands over is lost, doubled or reordered; and a port with one
  // thread carries just what that thread wrote.
  lemma PayloadsArrive(s: System, steps: seq<Step>, s': System, t: nat)
    requires Initial(s) && Runs(s, steps, s') && t < |s'.writers|
    ensures s'.writers[t].given == PayloadsBy(s'.log, t) + Unwritten(s'.writers[t])
    ensures (forall u :: 0 <= u < |s'.writers| && s'.writers[u].port == s'.writers[t].port ==> u == t) ==>
      PayloadsOn(Frames(s'.log), s'.writers[t].port) == PayloadsBy(s'.log, t)
  {
    InitialInv(s);
    RunsKeepInv(s, steps, s');
    if forall u :: 0 <= u < |s'.writers| && s'.writers[u].port == s'.writers[t].port ==> u == t {
      SoleWriter(s'.log, t, s'.writers[t].port);
    }
  }

  lemma {:induction false} SoleWriter(log: seq<Entry>, t: nat, port: nat)
    requires forall k :: 0 <= k < |log| ==> (log[k].writer == t <==> log[k].frame.port == port)
    ensures PayloadsOn(Frames(log), port) == PayloadsBy(log, t)
  {
    if |log| > 0 {
      var first := log[..|log| - 1];
      assert Frames(log)[..|log| - 1] == Frames(first);
      SoleWriter(first, t, port);
    }
  }

  // The whole way: whatever the interleaving of the writes, wherever the connection
  // breaks off, and whatever the transfer sizes and the buffer length, the receiver
  // queues the first of the frames written and nothing else; between two frames it
  // queues exactly all of them.
  method WhatIsQueued(ghost s: System, ghost steps: seq<Step>, ghost s': System, wire: seq<byte>, length: nat)
    returns (queued: seq<Message>)
    requires Initial(s) && Runs(s, steps, s') && wire <= s'.wire && length > 0
    ensures queued == AsMessages(ParseAll(wire)) + [Null] && ParseAll(wire) <= Announced(s')
    ensures s'.bridgeLock == Free && wire == s'.wire ==> queued == AsMessages(Frames(s'.log)) + [Null]
  {
    var source := new Source(wire);
    var con := new UsbConnection(source, length);
    WireIsParsed(s, steps, s', |wire|);
    assert wire == s'.wire[..|wire|];
    WritersAreReceived(wire, Announced(s'));
    var overrun;
    queued, overrun := Receiver(con);
  }

  // ---------- the sender thread ----------

  // writeAccessory: at least one byte goes out, or an error.
  class Wire {
    var written: seq<byte>

    constructor ()
      ensures written == []
    {
      written := [];
    }

    method WriteAccessory(data: seq<byte>) returns (n: int)
      requires |data| > 0
      modifies this
      ensures n < 0 || 0 < n <= |data|
      ensures n < 0 ==> written == old(written)
      ensures n > 0 ==> written == old(written) + data[..n]
    {
      var sent: nat :| sent <= |data|;
      n := if sent == 0 then -1 else sent;
      if n > 0 {
        written := written + data[..n];
      }
    }

    // writeAllAccessory: nothing when the size is not positive.
    method WriteAll(data: seq<byte>, size0: int) returns (error: int)
      requires size0 <= |data|
      modifies this
      ensures error <= 0
      ensures error == 0 ==> written == old(written) + FirstOf(data, size0)
      ensures old(written) <= written <= old(written) + FirstOf(data, size0)
    {
      var size: int, at: int, response := size0, 0, 0;
      ghost var all := FirstOf(data, size0);
      assert old(written) + all[..0] == old(written);
      while size > 0 && response >= 0
        invariant 0 <= at <= |all| && written == old(written) + all[..at]
        invariant response >= 0 ==> at + size == if size0 > 0 then size0 else size
        invariant response >= 0 && size0 <= 0 ==> size == size0
        decreases response >= 0, size
      {
        response := WriteAccessory(data[at..size0]);
        if response > 0 {
          SliceOfSlice(data, at, size0 - at, 0, response);
          SliceOfPrefix(data, size0, at, at + response);
          Onwards(old(written), all, at, response);
          at := at + response;
        }
        size := size - response;
      }
      return if response < 0 then response else 0;
    }
  }

  function FirstOf(data: seq<byte>, size: int): seq<byte>
    requires size <= |data|
  {
    if size > 0 then data[..size] else []
  }

  lemma Onwards(a: seq<byte>, data: seq<byte>, at: nat, n: nat)
    requires at + n <= |data|
    ensures a + data[..at] + data[at..at + n] == a + data[..at + n]
  {
  }

  // The size a message has once it was stored in a short.
  function StoredSize(msg: Message): (size: int)
    requires msg.Message?
    ensures size <= |msg.payload|
  {
    AsShort(|msg.payload|)
  }

  // The four bytes the sender makes of two shorts.
  function HeaderBytes(port: int, size: int): seq<byte>
  {
    [Low(port % 0x1_0000), High(port % 0x1_0000), Low(size % 0x1_0000), High(size % 0x1_0000)]
  }

  // What goes out for a message, and for all the messages before the first null.
  function Wired(msg: Message): seq<byte>
    requires msg.Message?
  {
    HeaderBytes(msg.port, StoredSize(msg)) + FirstOf(msg.payload, StoredSize(msg))
  }

  function WiredAll(polled: seq<Message>): seq<byte>
  {
    if |polled| == 0 || polled[0].Null? then [] else Wired(polled[0]) + WiredAll(polled[1..])
  }

  lemma SizeIsKept(msg: Message)
    requires msg.Message?
    ensures StoredSize(msg) == |msg.payload| <==> |msg.payload| < 0x8000
  {
  }

  // A message goes out as its frame if and only if its size fits a short.
  lemma GoesOutWhole(msg: Message)
    requires msg.Message? && 0 <= msg.port < 0x8000
    ensures |msg.payload| < 0x8000 ==> Wired(msg) == Encode(Frame(msg.port, msg.payload))
    ensures ParseAll(Wired(msg)) == [Frame(msg.port, msg.payload)] <==> |msg.payload| < 0x8000
  {
    if |msg.payload| < 0x8000 {
      ShortGoesOut(msg);
    } else if ParseAll(Wired(msg)) != [] {
      ParsedIsThere(Wired(msg));
      LongIsCut(msg);
    }
  }

  lemma ShortGoesOut(msg: Message)
    requires msg.Message? && 0 <= msg.port < 0x8000 && |msg.payload| < 0x8000
    ensures var f := Frame(msg.port, msg.payload); Wired(msg) == Encode(f) && ParseAll(Wired(msg)) == [f]
  {
    var f := Frame(msg.port, msg.payload);
    SizeIsKept(msg);
    WholePayload(msg);
    ParseFirst(f, []);
    assert Encode(f) + [] == Encode(f);
    assert ParseAll([]) == [];
  }

  lemma WholePayload(msg: Message)
    requires msg.Message? && 0 <= msg.port < 0x8000 && StoredSize(msg) == |msg.payload| < 0x8000
    ensures Wired(msg) == Header(msg.port, |msg.payload|) + msg.payload
  {
    HeaderBytesAre(msg.port, |msg.payload|);
    AllOf(msg.payload);
  }

  lemma HeaderBytesAre(port: nat, size: nat)
    requires port < 0x8000 && size < 0x8000
    ensures HeaderBytes(port, size) == Header(port, size)
  {
    assert port % 0x1_0000 == port && size % 0x1_0000 == size;
  }

  lemma AllOf(data: seq<byte>)
    ensures FirstOf(data, |data|) == data
  {
  }

  lemma LongIsCut(msg: Message)
    requires msg.Message? && |msg.payload| >= 0x8000
    ensures |Wired(msg)| < 4 + |msg.payload|
  {
    SizeIsKept(msg);
  }

  // A parsed payload is not longer than what was parsed.
  lemma ParsedIsThere(w: seq<byte>)
    requires ParseAll(w) != []
    ensures |w| >= 4 + |ParseAll(w)[0].payload|
  {
  }

  // A payload of 32768 bytes: the size turns negative, and only the header goes out.
  lemma TooLong(port: int)
    ensures var msg := Message(port, Repeat(0, 0x8000));
      StoredSize(msg) == -0x8000 && Wired(msg) == HeaderBytes(port, -0x8000) && |Wired(msg)| == 4
  {
  }

  // Whatever the length: the size goes out as 16 bits, and as many bytes follow as they
  // say as a signed number.
  lemma WiredBytes(msg: Message)
    requires msg.Message? && 0 <= msg.port < 0x8000
    ensures var w, n := Wired(msg), |msg.payload| % 65536;
      && |w| == 4 + (if n < 32768 then n else 0) && w[4..] == msg.payload[..|w| - 4]
      && Short(w[0], w[1]) == msg.port && Short(w[2], w[3]) == n
  {
    var n, size := |msg.payload| % 65536, StoredSize(msg);
    SizeOnTheWire(|msg.payload|, n);
    HeaderShorts(msg.port, size, n);
    BehindHeader(HeaderBytes(msg.port, size), FirstOf(msg.payload, size));
  }

  lemma HeaderShorts(port: nat, size: int, n: nat)
    requires port < 0x8000 && n < 0x1_0000 && size % 0x1_0000 == n
    ensures var h := HeaderBytes(port, size); |h| == 4 && Short(h[0], h[1]) == port && Short(h[2], h[3]) == n
  {
    assert port % 0x1_0000 == port;
    ShortBack(port);
    ShortBack(n);
  }

  lemma SizeOnTheWire(size: nat, n: nat)
    requires n == size % 65536
    ensures AsShort(size) % 65536 == n && n <= size
    ensures AsShort(size) == if n < 32768 then n else n - 65536
  {
  }

  lemma BehindHeader(header: seq<byte>, x: seq<byte>)
    requires |header| == 4
    ensures (header + x)[4..] == x && forall k :: 0 <= k < 4 ==> (header + x)[k] == header[k]
  {
  }

  // The frames of the messages before the first null.
  function ToSend(polled: seq<Message>): seq<Frame>
    requires AllShort(polled)
  {
    if |polled| == 0 || polled[0].Null? then []
    else [Frame(polled[0].port, polled[0].payload)] + ToSend(polled[1..])
  }

  // One frame for each of them, in their order.
  lemma {:induction false} ToSendAre(polled: seq<Message>, n: nat)
    requires AllShort(polled) && n <= |polled| && forall k :: 0 <= k < n ==> polled[k].Message?
    requires n == |polled| || polled[n].Null?
    ensures |ToSend(polled)| == n
    ensures forall k :: 0 <= k < n ==> ToSend(polled)[k] == Frame(polled[k].port, polled[k].payload)
    decreases n
  {
    if n > 0 {
      ToSendAre(polled[1..], n - 1);
    }
  }

  ghost predicate AllShort(polled: seq<Message>)
  {
    forall k :: 0 <= k < |polled| && polled[k].Message? ==> 0 <= polled[k].port < 0x8000 && |polled[k].payload| < 0x8000
  }

  // With no message too long what goes out is the encoding of their frames.
  lemma {:induction false} AllGoOutWhole(polled: seq<Message>)
    requires AllShort(polled)
    ensures AllSendable(ToSend(polled)) && WiredAll(polled) == EncodeAll(ToSend(polled))
  {
    if |polled| > 0 && polled[0].Message? {
      AllGoOutWhole(polled[1..]);
      GoesOutWhole(polled[0]);
      assert ToSend(polled)[1..] == ToSend(polled[1..]);
    }
  }

  // One message as the sender writes it: the header, then the data.
  method SendOne(msg: Message, wire: Wire) returns (error: int)
    requires msg.Message?
    modifies wire
    ensures error <= 0
    ensures error == 0 ==> wire.written == old(wire.written) + Wired(msg)
    ensures old(wire.written) <= wire.written <= old(wire.written) + Wired(msg)
  {
    var size := StoredSize(msg);
    var header := HeaderBytes(msg.port, size);
    Assoc(wire.written, header, FirstOf(msg.payload, size));
    error := wire.WriteAll(header, 4);
    if error == 0 {
      error := wire.WriteAll(msg.payload, size);
    }
  }

  // The sender loop over the messages it polls: they go out in order, until a null
  // or an error; after an error the wire holds a first part of them.
  method Sender(polled: seq<Message>, wire: Wire) returns (error: int)
    modifies wire
    ensures error <= 0
    ensures error == 0 ==> wire.written == old(wire.written) + WiredAll(polled)
    ensures old(wire.written) <= wire.written <= old(wire.written) + WiredAll(polled)
  {
    ghost var before, left := wire.written, WiredAll(polled);
    ghost var all := before + left;
    error := 0;
    var i := 0;
    assert polled[0..] == polled;
    while i < |polled| && polled[i].Message? && error == 0
      invariant 0 <= i <= |polled| && error <= 0
      invariant error == 0 ==> left == WiredAll(polled[i..]) && wire.written + left == all
      invariant before <= wire.written <= all
      decreases |polled| - i
    {
      ghost var was := wire.written;
      WiredNext(polled, i);
      error := SendOne(polled[i], wire);
      Between(before, was, wire.written, Wired(polled[i]), WiredAll(polled[i + 1..]));
      i := i + 1;
      left := WiredAll(polled[i..]);
    }
    if error == 0 {
      assert left == [];
    }
  }

  lemma WiredNext(polled: seq<Message>, i: nat)
    requires i < |polled| && polled[i].Message?
    ensures WiredAll(polled[i..]) == Wired(polled[i]) + WiredAll(polled[i + 1..])
  {
    assert polled[i..][1..] == polled[i + 1..] && polled[i..][0] == polled[i];
  }

  // From was the writer got to now, at most to the end of x; rest is still to come.
  lemma Between(before: seq<byte>, was: seq<byte>, now: seq<byte>, x: seq<byte>, rest: seq<byte>)
    requires before <= was <= now <= was + x
    ensures before <= now <= was + (x + rest)
    ensures now == was + x ==> now + rest == was + (x + rest)
  {
    Assoc(was, x, rest);
  }
}

// Both ends of the byte stream: the accessory's reads through an internal buffer
// and its receiver loop, and the writers.
module Transport {
  import opened Framing
  import opened Memory
  import opened MessageQueue
  import opened Streams

  // The accessory side of the connection: readAccessoryUSB with its own buffer.
  // The wire delivers at least one byte a transfer until it fails.
  class UsbConnection {
    const receiveBuffer: array<byte>
    const wire: Source
    var read: nat
    var startValidData: nat

    ghost predicate Valid()
      reads this
    {
      receiveBuffer.Length > 0 && startValidData + read <= receiveBuffer.Length
    }

    // All that will still arrive, the bytes in the buffer first.
    ghost function Pending(): seq<byte>
      requires Valid()
      reads this, receiveBuffer, wire
    {
      receiveBuffer[startValidData..startValidData + read] + wire.rest
    }

    constructor (wire: Source, length: nat)
      requires length > 0
      ensures Valid() && fresh(receiveBuffer) && this.wire == wire
      ensures Pending() == wire.rest
    {
      this.wire := wire;
      receiveBuffer := new byte[length];
      read, startValidData := 0, 0;
    }

    // readAccessoryUSB
    method ReadAccessory(buffer: array<byte>, ofs: nat, size: nat) returns (n: int)
      requires Valid() && size > 0 && ofs + size <= buffer.Length && buffer != receiveBuffer
      modifies this, receiveBuffer, wire, buffer
      ensures Valid() && n <= size
      ensures n <= 0 ==> n == -1 && old(Pending()) == [] == Pending()
      ensures n > 0 ==>
        n <= |old(Pending())| && buffer[ofs..ofs + n] == old(Pending())[..n] && Pending() == old(Pending())[n..]
      ensures forall k :: 0 <= k < buffer.Length && !(ofs <= k < ofs + size) ==> buffer[k] == old(buffer[k])
      decreases if read > 0 then 0 else 1
    {
      if read > 0 {
        n := TakeValid(buffer, ofs, size);
      } else {
        Refill();
        if read == 0 {
          n := -1;
        } else {
          n := ReadAccessory(buffer, ofs, size);
        }
      }
    }

    // One transfer into the empty internal buffer.
    method Refill()
      requires Valid() && read == 0
      modifies this, receiveBuffer, wire
      ensures Valid() && Pending() == old(Pending())
      ensures read == 0 ==> Pending() == []
    {
      assert Pending() == wire.rest;
      startValidData := 0;
      read := wire.Read(receiveBuffer, 0, receiveBuffer.Length);
    }

    // The branch that empties the internal buffer.
    method TakeValid(buffer: array<byte>, ofs: nat, size: nat) returns (n: nat)
      requires Valid() && size > 0 && ofs + size <= buffer.Length && buffer != receiveBuffer && read > 0
      modifies this, buffer
      ensures Valid() && 0 < n <= size
      ensures n <= |old(Pending())| && buffer[ofs..ofs + n] == old(Pending())[..n] && Pending() == old(Pending())[n..]
      ensures forall k :: 0 <= k < buffer.Length && !(ofs <= k < ofs + n) ==> buffer[k] == old(buffer[k])
    {
      n := if size > read then read else size;
      Prefixed(receiveBuffer[..], startValidData, read, n, wire.rest);
      CopyTo(buffer, ofs, receiveBuffer, startValidData, n);
      read := read - n;
      startValidData := startValidData + n;
    }

    // readAllAccessory: all of it, or an error.
    method ReadAllAccessory(buffer: array<byte>, size: nat) returns (error: int)
      requires Valid() && size <= buffer.Length && buffer != receiveBuffer
      modifies this, receiveBuffer, wire, buffer
      ensures Valid() && error <= 0
      ensures error == 0 ==>
        size <= |old(Pending())| && buffer[..size] == old(Pending())[..size] && Pending() == old(Pending())[size..]
      ensures error < 0 ==> |old(Pending())| < size && Pending() == []
    {
      ghost var all := Pending();
      var left: int, at: int, response := size, 0, 0;
      while left > 0 && response >= 0
        invariant Valid() && at + left == size
        invariant response >= 0 ==>
          0 <= at <= size && at <= |all| && buffer[..at] == all[..at] && Pending() == all[at..]
        invariant response < 0 ==> |all| < size && Pending() == []
        decreases response >= 0, left
      {
        ghost var was := buffer[..at];
        response := ReadAccessory(buffer, at, left);
        if response > 0 {
          assert buffer[..at] == was;
          assert buffer[..at + response] == all[..at + response];
        }
        left := left - response;
        at := at + response;
      }
      return if response < 0 then response else 0;
    }
  }

  lemma SplicedCell(s: seq<byte>, ofs: nat, t: seq<byte>)
    requires ofs + |t| <= |s|
    ensures Spliced(s, ofs, t)[ofs..ofs + |t|] == t
  {
  }

  method CopyTo(buffer: array<byte>, ofs: nat, from: array<byte>, start: nat, n: nat)
    requires buffer != from && ofs + n <= buffer.Length && start + n <= from.Length
    modifies buffer
    ensures buffer[ofs..ofs + n] == from[start..start + n]
    ensures forall k :: 0 <= k < buffer.Length && !(ofs <= k < ofs + n) ==> buffer[k] == old(buffer[k])
  {
    ghost var was := buffer[..];
    Memcpy(buffer, ofs, from, start, n);
    SplicedCell(was, ofs, from[start..start + n]);
  }

  lemma Prefixed(b: seq<byte>, start: nat, len: nat, n: nat, rest: seq<byte>)
    requires start + len <= |b| && n <= len
    ensures (b[start..start + len] + rest)[..n] == b[start..start + n]
    ensures (b[start..start + len] + rest)[n..] == b[start + n..start + len] + rest
  {
  }

  // ---------- the receiver ----------

  function AsMessages(fs: seq<Frame>): seq<Message>
  {
    if |fs| == 0 then [] else [Message(AsShort(fs[0].port), fs[0].payload)] + AsMessages(fs[1..])
  }

  // The receiver keeps the port as a signed number.
  lemma {:induction false} AsMessagesAre(fs: seq<Frame>, k: nat)
    ensures |AsMessages(fs)| == |fs|
    ensures k < |fs| ==> AsMessages(fs)[k] == Message(AsShort(fs[k].port), fs[k].payload)
  {
    if |fs| > 0 {
      AsMessagesAre(fs[1..], if k > 0 then k - 1 else 0);
    }
  }

  lemma {:induction false} AsMessagesMore(fs: seq<Frame>, f: Frame)
    ensures AsMessages(fs + [f]) == AsMessages(fs) + [Message(AsShort(f.port), f.payload)]
  {
    if |fs| == 0 {
      assert fs + [f] == [f];
    } else {
      assert (fs + [f])[1..] == fs[1..] + [f];
      AsMessagesMore(fs[1..], f);
    }
  }

  // What is pending is what writers of sendable frames have written, broken off
  // anywhere.
  ghost predicate FromWriters(w: seq<byte>, fs: seq<Frame>)
  {
    AllSendable(fs) && AllFit(fs) && w <= EncodeAll(fs)
  }

  // The header of the first frame, if it has arrived.
  lemma FirstHeader(w: seq<byte>, fs: seq<Frame>)
    requires FromWriters(w, fs) && |w| >= 4
    ensures |fs| > 0 && Short(w[2], w[3]) == |fs[0].payload| <= MAX_PAYLOAD
    ensures |w| >= 4 + |fs[0].payload| ==> FromWriters(w[4 + |fs[0].payload|..], fs[1..])
  {
    var e := Encode(fs[0]);
    assert w[2] == e[2] && w[3] == e[3];
    ShortBack(|fs[0].payload|);
    if |w| >= |e| {
      BehindFirst(w, e, EncodeAll(fs[1..]));
    }
  }

  lemma BehindFirst(w: seq<byte>, e: seq<byte>, rest: seq<byte>)
    requires |e| <= |w| && w <= e + rest
    ensures w[|e|..] <= rest
  {
    assert (e + rest)[|e|..] == rest;
    assert w == (e + rest)[..|w|];
  }

  // What the receiver makes of a stream: the frames it finds, and whether it then
  // meets a size that its buffer has no room for or that is negative as a short.
  datatype Reception = Reception(frames: seq<Frame>, overrun: bool)

  function Received(w: seq<byte>): Reception
    decreases w, 1
  {
    if |w| < 4 then Reception([], false)
    else ReceivedWith(w, AsShort(Short(w[2], w[3])))
  }

  // What is received when the first header announces size bytes.
  function ReceivedWith(w: seq<byte>, size: int): Reception
    requires |w| >= 4
    decreases w, 0
  {
    if size < 0 || size > MAX_PAYLOAD then Reception([], true)
    else if |w| < 4 + size then Reception([], false)
    else Follows(Frame(Short(w[0], w[1]), w[4..4 + size]), Received(w[4 + size..]))
  }

  function Follows(f: Frame, r: Reception): Reception
  {
    Reception([f] + r.frames, r.overrun)
  }

  // The bytes that frames take up on the wire.
  function Extent(fs: seq<Frame>): nat
  {
    if |fs| == 0 then 0 else 4 + |fs[0].payload| + Extent(fs[1..])
  }

  // u begins with frame f, and the receiver has room for it.
  ghost predicate Begins(u: seq<byte>, f: Frame)
  {
    && 4 + |f.payload| <= |u| && u[4..4 + |f.payload|] == f.payload && |f.payload| <= 4000
    && Short(u[0], u[1]) == f.port && Short(u[2], u[3]) == |f.payload|
  }

  // The header is not complete, or announces more than 4000 bytes (or a negative
  // number), or more than there are.
  ghost predicate EndsReception(u: seq<byte>, overrun: bool)
  {
    if |u| < 4 then !overrun
    else
      var n := Short(u[2], u[3]);
      if overrun then n > 4000 else n <= 4000 && |u| < 4 + n
  }

  // The frames found are those that stand in the stream one behind the other, and
  // behind the last one the stream gives no more.
  lemma ReceivedTiles(w: seq<byte>, k: nat)
    requires k <= |Received(w).frames|
    ensures var fs, at := Received(w).frames, Extent(Received(w).frames[..k]);
      at <= |w| && if k < |fs| then Begins(w[at..], fs[k]) else EndsReception(w[at..], Received(w).overrun)
  {
    var r := Received(w);
    var at := Extent(r.frames[..k]);
    ReceivedFrom(w, r, k, at);
    if k < |r.frames| {
      assert r.frames[k..][0] == r.frames[k];
      var f := FirstReceived(w[at..]);
    } else {
      NoneReceived(w[at..]);
    }
  }

  // Behind k frames the receiver is where it would be had the stream begun there.
  lemma {:induction false} ReceivedFrom(w: seq<byte>, r: Reception, k: nat, at: nat)
    requires r == Received(w) && k <= |r.frames| && at == Extent(r.frames[..k])
    ensures at <= |w| && Received(w[at..]) == Reception(r.frames[k..], r.overrun)
    decreases k
  {
    if k == 0 {
      FromTheStart(w, r);
    } else {
      var n, u, rest := BehindFirstFrame(w, r, k, at);
      ReceivedFrom(u, rest, k - 1, at - n);
    }
  }

  lemma FromTheStart(w: seq<byte>, r: Reception)
    ensures w[0..] == w && Reception(r.frames[0..], r.overrun) == r && Extent(r.frames[..0]) == 0
  {
  }

  lemma BehindFirstFrame(w: seq<byte>, r: Reception, k: nat, at: nat)
    returns (n: nat, u: seq<byte>, rest: Reception)
    requires r == Received(w) && 0 < k <= |r.frames| && at == Extent(r.frames[..k])
    ensures n <= at && |u| + n == |w| && rest == Received(u) && k - 1 <= |rest.frames|
    ensures at <= |w| ==> u[at - n..] == w[at..]
    ensures at - n == Extent(rest.frames[..k - 1])
    ensures rest.frames[k - 1..] == r.frames[k..] && rest.overrun == r.overrun
  {
    var f := FirstFollows(w);
    n := 4 + |f.payload|;
    u, rest := w[n..], Received(w[n..]);
    ExtentOfPrefix(f, rest.frames, k);
    CutTwice(w, n, at);
  }

  lemma CutTwice(w: seq<byte>, n: nat, at: nat)
    requires n <= |w| && n <= at
    ensures at <= |w| ==> w[n..][at - n..] == w[at..]
  {
  }

  lemma FirstFollows(w: seq<byte>) returns (f: Frame)
    requires |Received(w).frames| > 0
    ensures 4 + |f.payload| <= |w| && Received(w) == Follows(f, Received(w[4 + |f.payload|..]))
  {
    f := FirstReceived(w);
  }

  lemma FirstReceived(w: seq<byte>) returns (f: Frame)
    requires |Received(w).frames| > 0
    ensures Begins(w, f) && Received(w) == Follows(f, Received(w[4 + |f.payload|..])) && f == Received(w).frames[0]
  {
    var size := AsShort(Short(w[2], w[3]));
    AsShortRange(Short(w[2], w[3]));
    f := Frame(Short(w[0], w[1]), w[4..4 + size]);
  }

  lemma NoneReceived(w: seq<byte>)
    requires Received(w).frames == []
    ensures EndsReception(w, Received(w).overrun)
  {
    if |w| >= 4 {
      AsShortRange(Short(w[2], w[3]));
    }
  }

  lemma AsShortRange(n: nat)
    requires n < 0x1_0000
    ensures n <= 4000 <==> 0 <= AsShort(n) <= 4000
    ensures n <= 4000 ==> AsShort(n) == n
  {
  }

  lemma ExtentOfPrefix(f: Frame, fs: seq<Frame>, k: nat)
    requires 0 < k <= |fs| + 1
    ensures Extent(([f] + fs)[..k]) == 4 + |f.payload| + Extent(fs[..k - 1]) && ([f] + fs)[k..] == fs[k - 1..]
  {
    ConsPrefix(f, fs, k);
    ExtentFirst(f, fs[..k - 1]);
  }

  lemma ConsPrefix<T>(f: T, fs: seq<T>, k: nat)
    requires 0 < k <= |fs| + 1
    ensures ([f] + fs)[..k] == [f] + fs[..k - 1] && ([f] + fs)[k..] == fs[k - 1..]
  {
  }

  lemma ExtentFirst(f: Frame, fs: seq<Frame>)
    ensures Extent([f] + fs) == 4 + |f.payload| + Extent(fs)
  {
    assert ([f] + fs)[1..] == fs;
  }

  lemma ReceivedOpened(w: seq<byte>, size: nat)
    requires |w| >= 4 + size && AsShort(Short(w[2], w[3])) == size <= MAX_PAYLOAD
    ensures Received(w) == Follows(Frame(Short(w[0], w[1]), w[4..4 + size]), Received(w[4 + size..]))
  {
  }

  // On what the writers write the receiver never meets such a size, and it finds
  // every complete frame.
  lemma {:induction false} WritersAreReceived(w: seq<byte>, fs: seq<Frame>)
    requires FromWriters(w, fs)
    ensures Received(w) == Reception(ParseAll(w), false)
    decreases |fs|
  {
    if |w| >= 4 {
      FirstHeader(w, fs);
      var size := Short(w[2], w[3]);
      if |w| >= 4 + size {
        WritersAreReceived(w[4 + size..], fs[1..]);
        FirstIsReceived(w, size);
      } else {
        NotYet(w);
      }
    }
  }

  lemma FirstIsReceived(w: seq<byte>, size: nat)
    requires |w| >= 4 && size == Short(w[2], w[3]) <= MAX_PAYLOAD && |w| >= 4 + size
    requires Received(w[4 + size..]) == Reception(ParseAll(w[4 + size..]), false)
    ensures Received(w) == Reception(ParseAll(w), false)
  {
    ShortKept(size);
    ReceivedOpened(w, size);
    ParseOpened(w);
    SameFollows(Frame(Short(w[0], w[1]), w[4..4 + size]), Received(w[4 + size..]), ParseAll(w[4 + size..]),
      ParseAll(w));
  }

  lemma SameFollows(f: Frame, r: Reception, fs: seq<Frame>, all: seq<Frame>)
    requires r == Reception(fs, false) && all == [f] + fs
    ensures Follows(f, r) == Reception(all, false)
  {
  }

  lemma NotYet(w: seq<byte>)
    requires |w| >= 4 && Short(w[2], w[3]) <= MAX_PAYLOAD && |w| < 4 + Short(w[2], w[3])
    ensures Received(w) == Reception([], false) && ParseAll(w) == []
  {
    ShortKept(Short(w[2], w[3]));
  }

  datatype Round = Failed | Overrun | Got(frame: Frame)

  // One round of the receiver: a header, then as many bytes as it announces.
  method ReceiveFrame(con: UsbConnection, buffer: array<byte>) returns (r: Round)
    requires con.Valid() && buffer.Length == MAX_PAYLOAD && buffer != con.receiveBuffer
    modifies con, con.receiveBuffer, con.wire, buffer
    ensures con.Valid()
    ensures r.Failed? ==> Received(old(con.Pending())) == Reception([], false)
    ensures r.Overrun? ==> Received(old(con.Pending())) == Reception([], true)
    ensures r.Got? ==>
      && Received(old(con.Pending())) == Follows(r.frame, Received(con.Pending()))
      && |con.Pending()| < |old(con.Pending())|
  {
    ghost var w := con.Pending();
    Memset(buffer, 0, 0, buffer.Length);
    var error := con.ReadAllAccessory(buffer, 4);
    if error != 0 {
      return Failed;
    }
    FirstFour(w, buffer[..4]);
    FirstFour(buffer[..], buffer[..4]);
    var port := Short(buffer[0], buffer[1]);
    var size := AsShort(Short(buffer[2], buffer[3]));
    if size < 0 || size > buffer.Length {
      return Overrun;
    }
    error := con.ReadAllAccessory(buffer, size);
    if error != 0 {
      return Failed;
    }
    ReceivedOne(w, con.Pending(), port, size, buffer[..size]);
    return Got(Frame(port, buffer[..size]));
  }

  lemma FirstFour(w: seq<byte>, header: seq<byte>)
    requires |w| >= 4 && header == w[..4]
    ensures header[0] == w[0] && header[1] == w[1] && header[2] == w[2] && header[3] == w[3]
  {
  }

  lemma ReceivedOne(w: seq<byte>, rest: seq<byte>, port: nat, size: nat, payload: seq<byte>)
    requires |w| >= 4 && port == Short(w[0], w[1]) && size == AsShort(Short(w[2], w[3])) && size <= MAX_PAYLOAD
    requires size <= |w[4..]| && payload == w[4..][..size] && rest == w[4..][size..]
    ensures Received(w) == Follows(Frame(port, payload), Received(rest))
    ensures rest == w[4 + size..]
  {
    FrameAndRest(w, size);
    ReceivedOpened(w, size);
  }

  lemma FrameAndRest(w: seq<byte>, size: nat)
    requires 4 + size <= |w|
    ensures w[4..][..size] == w[4..4 + size] && w[4..][size..] == w[4 + size..]
  {
  }

  // The receiver thread, on any stream: it queues the frames it finds, and a null
  // when the connection fails. Transfer sizes and the buffer size make no difference.
  // When a size does not fit the buffer the source writes outside it; there the
  // model stops.
  method Receiver(con: UsbConnection) returns (queued: seq<Message>, overrun: bool)
    requires con.Valid()
    modifies con, con.receiveBuffer, con.wire
    ensures con.Valid() && overrun == Received(old(con.Pending())).overrun
    ensures overrun ==> queued == AsMessages(Received(old(con.Pending())).frames)
    ensures !overrun ==> queued == AsMessages(Received(old(con.Pending())).frames) + [Null]
  {
    ghost var all, found := Received(con.Pending()), [];
    var buffer := new byte[MAX_PAYLOAD];
    queued, overrun := [], false;
    var error := false;
    while !error && !overrun
      invariant con.Valid() && queued == AsMessages(found) && !(error && overrun)
      invariant !error && !overrun ==> all == Onward(found, Received(con.Pending()))
      invariant error || overrun ==> all == Reception(found, overrun)
      decreases !error && !overrun, |con.Pending()|
    {
      ghost var before := Received(con.Pending());
      var r := ReceiveFrame(con, buffer);
      if r.Got? {
        AsMessagesMore(found, r.frame);
        OnwardMore(found, r.frame, Received(con.Pending()));
        found := found + [r.frame];
        queued := queued + [Message(AsShort(r.frame.port), r.frame.payload)];
      } else {
        OnwardEnd(found, r.Overrun?);
        error, overrun := r.Failed?, r.Overrun?;
      }
    }
    if error {
      queued := queued + [Null];
    }
  }

  ghost function Onward(found: seq<Frame>, r: Reception): Reception
  {
    Reception(found + r.frames, r.overrun)
  }

  lemma OnwardMore(found: seq<Frame>, f: Frame, r: Reception)
    ensures Onward(found, Follows(f, r)) == Onward(found + [f], r)
  {
  }

  lemma OnwardEnd(found: seq<Frame>, overrun: bool)
    ensures Onward(found, Reception([], overrun)) == Reception(found, overrun)
  {
  }
}

// The multiplexed byte stream: frames written by Port.write and by the sender
// thread, and the receiver that finds them again whatever the transfer sizes.
module Framing {
  import opened Bytes
  import opened Memory

  const MAX_PAYLOAD := 4000

  datatype Frame = Frame(port: nat, payload: seq<byte>)

  // A frame both ends can represent: port and size are signed 16-bit numbers.
  predicate Sendable(f: Frame)
  {
    f.port < 0x8000 && |f.payload| < 0x8000
  }

  // A frame the receiver has room for.
  predicate Fits(f: Frame)
  {
    |f.payload| <= MAX_PAYLOAD
  }

  ghost predicate AllFit(fs: seq<Frame>)
  {
    forall k :: 0 <= k < |fs| ==> Fits(fs[k])
  }

  function Low(n: nat): byte
  {
    (n % 256) as byte
  }

  function High(n: nat): byte
    requires n < 0x1_0000
  {
    (n / 256) as byte
  }

  // buffer[0] + (buffer[1] << 8)
  function Short(lo: byte, hi: byte): nat
  {
    lo as nat + 256 * (hi as nat)
  }

  // What a short holds after n was stored in it.
  function AsShort(n: int): int
  {
    if n % 0x1_0000 < 0x8000 then n % 0x1_0000 else n % 0x1_0000 - 0x1_0000
  }

  // The signed 16-bit number with the same low 16 bits.
  lemma AsShortIs(n: int)
    ensures -32768 <= AsShort(n) < 32768 && (AsShort(n) - n) % 65536 == 0
  {
  }

  lemma ShortKept(n: nat)
    requires n < 0x8000
    ensures AsShort(n) == n
  {
  }

  lemma ShortBack(n: nat)
    requires n < 0x1_0000
    ensures Short(Low(n), High(n)) == n
  {
    ByteBack(n % 256);
    ByteBack(n / 256);
  }

  function Header(port: nat, size: nat): seq<byte>
    requires port < 0x8000 && size < 0x8000
  {
    [Low(port), High(port), Low(size), High(size)]
  }

  function Encode(f: Frame): seq<byte>
    requires Sendable(f)
  {
    Header(f.port, |f.payload|) + f.payload
  }

  // On the wire: the port and the size as two bytes each, low byte first, and the
  // payload.
  lemma EncodedBytes(f: Frame)
    requires Sendable(f)
    ensures var w := Encode(f);
      && |w| == 4 + |f.payload| && w[4..] == f.payload
      && w[0] as int + 256 * w[1] as int == f.port && w[2] as int + 256 * w[3] as int == |f.payload|
  {
    ShortBack(f.port);
    ShortBack(|f.payload|);
    Layout(Header(f.port, |f.payload|), f.payload, []);
    assert Encode(f) + [] == Encode(f);
  }

  ghost predicate AllSendable(fs: seq<Frame>)
  {
    forall k :: 0 <= k < |fs| ==> Sendable(fs[k])
  }

  function EncodeAll(fs: seq<Frame>): seq<byte>
    requires AllSendable(fs)
  {
    if |fs| == 0 then [] else Encode(fs[0]) + EncodeAll(fs[1..])
  }

  // The frames that are complete in w.
  function ParseAll(w: seq<byte>): seq<Frame>
  {
    if |w| < 4 then []
    else
      var size := Short(w[2], w[3]);
      if |w| < 4 + size then []
      else [Frame(Short(w[0], w[1]), w[4..4 + size])] + ParseAll(w[4 + size..])
  }

  lemma ParseOpened(w: seq<byte>)
    requires |w| >= 4 && |w| >= 4 + Short(w[2], w[3])
    ensures var size := Short(w[2], w[3]);
      ParseAll(w) == [Frame(Short(w[0], w[1]), w[4..4 + size])] + ParseAll(w[4 + size..])
  {
  }

  lemma ParseFirst(f: Frame, rest: seq<byte>)
    requires Sendable(f)
    ensures ParseAll(Encode(f) + rest) == [f] + ParseAll(rest)
  {
    var n := |f.payload|;
    var w := Encode(f) + rest;
    Layout(Header(f.port, n), f.payload, rest);
    ShortBack(f.port);
    ShortBack(n);
    ParseOpened(w);
  }

  lemma Layout(header: seq<byte>, payload: seq<byte>, rest: seq<byte>)
    requires |header| == 4
    ensures var w := header + payload + rest;
      && w[0] == header[0] && w[1] == header[1] && w[2] == header[2] && w[3] == header[3]
      && w[4..4 + |payload|] == payload && w[4 + |payload|..] == rest
  {
  }

  // Parsing undoes encoding, whatever the frames.
  lemma {:induction false} ParseUndoesEncode(fs: seq<Frame>)
    requires AllSendable(fs)
    ensures ParseAll(EncodeAll(fs)) == fs
  {
    if |fs| > 0 {
      ParseFirst(fs[0], EncodeAll(fs[1..]));
      ParseUndoesEncode(fs[1..]);
    }
  }

  // When the connection breaks off anywhere, what has arrived parses to the first
  // of the frames.
  lemma {:induction false} BrokenOff(fs: seq<Frame>, n: nat)
    requires AllSendable(fs) && n <= |EncodeAll(fs)|
    ensures ParseAll(EncodeAll(fs)[..n]) <= fs
    decreases |fs|
  {
    if |fs| > 0 {
      var f, e := fs[0], Encode(fs[0]);
      var all := EncodeAll(fs);
      if n < |e| {
        Incomplete(f, all[..n]);
      } else {
        assert all[..n] == e + EncodeAll(fs[1..])[..n - |e|];
        ParseFirst(f, EncodeAll(fs[1..])[..n - |e|]);
        BrokenOff(fs[1..], n - |e|);
        assert fs == [f] + fs[1..];
      }
    }
  }

  lemma Incomplete(f: Frame, w: seq<byte>)
    requires Sendable(f) && w < Encode(f)
    ensures ParseAll(w) == []
  {
    if |w| >= 4 {
      assert w[2] == Encode(f)[2] && w[3] == Encode(f)[3];
      ShortBack(|f.payload|);
    }
  }
}

// yEnc: every byte is shifted by 42, and the few that would upset a text channel
// are escaped.
module YEnc {
  import opened Bstrings
  import opened Growth
  import opened Memory

  const ESCAPE: byte := 61
  const CR: byte := 13
  const LF: byte := 10

  predicate Critical(c: byte)
  {
    c == ESCAPE || c == 0 || c == CR || c == LF
  }

  function Code(x: byte): seq<byte>
  {
    if Critical(x + 42) then [ESCAPE, x + 42 + 64] else [x + 42]
  }

  function Encoded(s: seq<byte>): seq<byte>
  {
    if |s| == 0 then [] else Code(s[0]) + Encoded(s[1..])
  }

  datatype Outcome = Bytes(s: seq<byte>) | Refused

  function Before(x: seq<byte>, o: Outcome): Outcome
  {
    if o.Bytes? then Bytes(x + o.s) else Refused
  }

  // Line ends are ignored; a NUL or an escape at the end is an error.
  function Decoded(t: seq<byte>): Outcome
  {
    if |t| == 0 then Bytes([])
    else if t[0] == ESCAPE then
      if |t| == 1 then Refused else Before([t[1] - 64 - 42], Decoded(t[2..]))
    else if t[0] == 0 then Refused
    else if t[0] == CR || t[0] == LF then Decoded(t[1..])
    else Before([t[0] - 42], Decoded(t[1..]))
  }

  // A byte is shifted by 42, and escaped only when that gives one of four characters.
  lemma CodeIs(x: byte)
    ensures var c := (x as int + 42) % 256;
      Code(x) == if c == 0 || c == 10 || c == 13 || c == 61 then [61, (c + 64) as byte] else [c as byte]
  {
    assert (x + 42) as int == (x as int + 42) % 256;
  }

  // The codes of the bytes stand one behind the other.
  lemma {:induction false} EncodedInOrder(a: seq<byte>, b: seq<byte>)
    ensures Encoded(a + b) == Encoded(a) + Encoded(b)
  {
    if |a| == 0 {
      assert a + b == b;
    } else {
      assert (a + b)[1..] == a[1..] + b;
      EncodedInOrder(a[1..], b);
      Assoc(Code(a[0]), Encoded(a[1..]), Encoded(b));
    }
  }

  // Behind any text that is decoded, the decoder goes on with each kind of character.
  lemma {:induction false} DecodedInOrder(a: seq<byte>, b: seq<byte>)
    requires Decoded(a).Bytes?
    ensures Decoded(a + b) == Before(Decoded(a).s, Decoded(b))
    decreases |a|
  {
    if |a| == 0 {
      assert a + b == b;
      BeforeNothing(Decoded(b));
    } else {
      var n := if a[0] == ESCAPE then 2 else 1;
      assert (a + b)[n..] == a[n..] + b;
      DecodedInOrder(a[n..], b);
      assert (a + b)[0] == a[0] && (n == 2 ==> (a + b)[1] == a[1]);
      if a[0] != CR && a[0] != LF {
        var x := if n == 2 then [a[1] - 64 - 42] else [a[0] - 42];
        BeforeBefore(x, Decoded(a[n..]).s, Decoded(b));
      }
    }
  }

  lemma BeforeNothing(o: Outcome)
    ensures Before([], o) == o
  {
    if o.Bytes? {
      assert [] + o.s == o.s;
    }
  }

  // A line end gives nothing; a NUL is refused; an escape takes the next character with
  // it and is refused at the end; any other character gives one byte.
  lemma OneCharacter(c: byte, d: byte)
    ensures c == 13 || c == 10 ==> Decoded([c]) == Bytes([])
    ensures c == 0 || c == 61 ==> Decoded([c]) == Refused
    ensures c != 0 && c != 10 && c != 13 && c != 61 ==> Decoded([c]) == Bytes([c - 42])
    ensures Decoded([61, d]) == Bytes([d - 106])
  {
    assert d - 64 - 42 == d - 106;
    assert [c][1..] == [] && [61, d][2..] == [] && Decoded([]) == Bytes([]);
  }

  lemma CodeIsClean(x: byte)
    ensures forall k :: 0 <= k < |Code(x)| ==> Code(x)[k] != 0 && Code(x)[k] != CR && Code(x)[k] != LF
  {
    var c := x + 42;
    if Critical(c) {
      assert c + 64 == 125 || c + 64 == 64 || c + 64 == 77 || c + 64 == 74;
    }
  }

  // The encoding never holds a NUL or a line end.
  lemma {:induction false} EncodedIsClean(s: seq<byte>)
    ensures forall k :: 0 <= k < |Encoded(s)| ==> Encoded(s)[k] != 0 && Encoded(s)[k] != CR && Encoded(s)[k] != LF
    ensures |s| <= |Encoded(s)| <= 2 * |s|
  {
    if |s| > 0 {
      CodeIsClean(s[0]);
      EncodedIsClean(s[1..]);
    }
  }

  lemma CodeBack(x: byte, u: seq<byte>)
    ensures Decoded(Code(x) + u) == Before([x], Decoded(u))
  {
    var t := Code(x) + u;
    if Critical(x + 42) {
      assert t[0] == ESCAPE && t[1] == x + 42 + 64 && t[2..] == u;
      assert x + 42 + 64 - 64 - 42 == x;
    } else {
      assert t[0] == x + 42 && t[1..] == u;
      assert x + 42 - 42 == x;
    }
  }

  lemma {:induction false} DecodeUndoesEncode(s: seq<byte>)
    ensures Decoded(Encoded(s)) == Bytes(s)
  {
    if |s| > 0 {
      CodeBack(s[0], Encoded(s[1..]));
      DecodeUndoesEncode(s[1..]);
    }
  }

  lemma {:induction false} BreaksSkipped(breaks: seq<byte>, t: seq<byte>)
    requires forall k :: 0 <= k < |breaks| ==> breaks[k] == CR || breaks[k] == LF
    ensures Decoded(breaks + t) == Decoded(t)
  {
    if |breaks| == 0 {
      assert breaks + t == t;
    } else {
      assert (breaks + t)[1..] == breaks[1..] + t;
      BreaksSkipped(breaks[1..], t);
    }
  }

  // An encoding may be cut into lines at any places between two codes.
  lemma LineBreaksIgnored(s: seq<byte>, breaks: seq<byte>, t: seq<byte>)
    requires forall k :: 0 <= k < |breaks| ==> breaks[k] == CR || breaks[k] == LF
    ensures Decoded(Encoded(s) + (breaks + t)) == Before(s, Decoded(t))
  {
    BreaksSkipped(breaks, t);
    EncodedBefore(s, breaks + t);
  }

  lemma {:induction false} EncodedBefore(s: seq<byte>, u: seq<byte>)
    ensures Decoded(Encoded(s) + u) == Before(s, Decoded(u))
  {
    if |s| == 0 {
      assert Encoded(s) + u == u;
      if Decoded(u).Bytes? {
        assert s + Decoded(u).s == Decoded(u).s;
      }
    } else {
      Assoc(Code(s[0]), Encoded(s[1..]), u);
      CodeBack(s[0], Encoded(s[1..]) + u);
      EncodedBefore(s[1..], u);
      BeforeBefore([s[0]], s[1..], Decoded(u));
      FirstAndRest(s);
    }
  }

  lemma FirstAndRest(s: seq<byte>)
    requires |s| > 0
    ensures [s[0]] + s[1..] == s
  {
  }

  // ---------- the loops ----------

  method PutCode(out: Bstring, x: byte)
    requires out.Valid() && out.Terminated() && out.slen + 3 < MAX_SIZE
    modifies out, out.data
    ensures out.Valid() && out.Terminated() && (out.data == old(out.data) || fresh(out.data))
    ensures out.Text() == old(out.Text()) + Code(x)
  {
    var c := x + 42;
    var ret;
    if c == ESCAPE || c == 0 || c == CR || c == LF {
      ret := out.Bconchar(ESCAPE);
      c := c + 64;
    }
    ret := out.Bconchar(c);
  }

  // bYEncode
  method BYEncode(src: View) returns (out: Bstring)
    requires src.Valid() && 2 * src.slen + 1 < MAX_SIZE
    ensures fresh(out) && fresh(out.data) && out.Valid() && out.Terminated()
    ensures out.Text() == Encoded(src.Text())
  {
    ghost var s := src.Text();
    out := new Bstring.FromBlk([]);
    assert s[0..] == s;
    var i := 0;
    while i < src.slen
      invariant 0 <= i <= src.slen && out.slen <= 2 * i
      invariant fresh(out) && fresh(out.data) && out.Valid() && out.Terminated()
      invariant out.Text() + Encoded(s[i..]) == Encoded(s)
    {
      ghost var was := out.Text();
      EncodedNext(s, i);
      PutCode(out, src.At(i));
      Assoc(was, Code(s[i]), Encoded(s[i + 1..]));
      i := i + 1;
    }
  }

  lemma EncodedNext(s: seq<byte>, i: nat)
    requires i < |s|
    ensures Encoded(s[i..]) == Code(s[i]) + Encoded(s[i + 1..])
  {
    assert s[i..][1..] == s[i + 1..];
  }

  // The decoder collects 64 bytes at a time before they go to the string.
  method Collect(out: Bstring, octetbuff: array<byte>, obl: nat, c: byte) returns (obl': nat)
    requires out.Valid() && out.Terminated() && octetbuff.Length == 64 && obl < 64 && out.slen + 66 < MAX_SIZE
    requires octetbuff != out.data
    modifies out, out.data, octetbuff
    ensures out.Valid() && out.Terminated() && obl' < 64 && (out.data == old(out.data) || fresh(out.data))
    ensures out.slen + obl' == old(out.slen) + obl + 1
    ensures out.Text() + octetbuff[..obl'] == old(out.Text() + octetbuff[..obl]) + [c]
  {
    ghost var was := octetbuff[..obl];
    octetbuff[obl] := c;
    obl' := obl + 1;
    assert octetbuff[..obl'] == was + [c];
    Assoc(out.Text(), was, [c]);
    if obl' >= 64 {
      var ret := out.Bconcat(View(octetbuff, 0, obl'));
      obl' := 0;
    }
  }

  // bYDecode; Refused is the source's NULL.
  method BYDecode(src: View) returns (refused: bool, out: Bstring)
    requires src.Valid() && src.slen + 66 < MAX_SIZE
    ensures fresh(out) && fresh(out.data) && out.Valid() && out.Terminated()
    ensures Decoded(src.Text()) == if refused then Refused else Bytes(out.Text())
  {
    ghost var t := src.Text();
    out := new Bstring.FromBlk([]);
    refused := false;
    var octetbuff := new byte[64];
    var obl, i := 0, 0;
    assert t[0..] == t;
    while i < src.slen
      invariant 0 <= i <= src.slen && 0 <= obl < 64 && out.slen + obl <= i
      invariant fresh(out) && fresh(out.data) && out.Valid() && out.Terminated() && octetbuff != out.data
      invariant Decoded(t) == Before(out.Text() + octetbuff[..obl], Decoded(t[i..]))
    {
      i, obl, refused := DecodeRound(src, i, out, octetbuff, obl, Decoded(t));
      if refused {
        return;
      }
    }
    var ret := out.Bconcat(View(octetbuff, 0, obl));
  }

  // One character of the decoder, or two with an escape.
  method DecodeRound(src: View, i: nat, out: Bstring, octetbuff: array<byte>, obl: nat, ghost o: Outcome)
    returns (i': nat, obl': nat, refused: bool)
    requires src.Valid() && i < src.slen && src.slen + 66 < MAX_SIZE
    requires out.Valid() && out.Terminated() && octetbuff.Length == 64 && obl < 64 && out.slen + obl <= i
    requires octetbuff != out.data && octetbuff != src.data && src.data != out.data
    requires o == Before(out.Text() + octetbuff[..obl], Decoded(src.Text()[i..]))
    modifies out, out.data, octetbuff
    ensures out.Valid() && out.Terminated() && (out.data == old(out.data) || fresh(out.data))
    ensures refused ==> o == Refused
    ensures !refused ==> i < i' <= src.slen && obl' < 64 && out.slen + obl' <= i'
    ensures !refused ==> o == Before(out.Text() + octetbuff[..obl'], Decoded(src.Text()[i'..]))
  {
    DecodedNext(src.Text(), i);
    var c := src.At(i);
    i', obl', refused := i, obl, false;
    if c == ESCAPE {
      i' := i' + 1;
      if i' >= src.slen {
        refused := true;
        return;
      }
      c := src.At(i') - 64;
    } else {
      if c == 0 {
        refused := true;
        return;
      }
      if c == CR || c == LF {
        i' := i' + 1;
        return;
      }
    }
    i' := i' + 1;
    BeforeBefore(out.Text() + octetbuff[..obl], [c - 42], Decoded(src.Text()[i'..]));
    obl' := Collect(out, octetbuff, obl, c - 42);
  }

  lemma BeforeBefore(x: seq<byte>, y: seq<byte>, o: Outcome)
    ensures Before(x, Before(y, o)) == Before(x + y, o)
  {
    if o.Bytes? {
      Assoc(x, y, o.s);
    }
  }

  lemma DecodedNext(t: seq<byte>, i: nat)
    requires i < |t|
    ensures Decoded(t[i..]) ==
      if t[i] == ESCAPE then
        if i + 1 == |t| then Refused else Before([t[i + 1] - 64 - 42], Decoded(t[i + 2..]))
      else if t[i] == 0 then Refused
      else if t[i] == CR || t[i] == LF then Decoded(t[i + 1..])
      else Before([t[i] - 42], Decoded(t[i + 1..]))
  {
    assert t[i..][1..] == t[i + 1..];
    if i + 1 < |t| {
      assert t[i..][2..] == t[i + 2..] && t[i..][1] == t[i + 1];
    }
  }
}

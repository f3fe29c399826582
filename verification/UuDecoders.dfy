// The uu decoder: a line at a time, and as a stream that reads another stream.
module UuDecoders {
  import opened Bstrings
  import opened CharFields
  import opened Growth
  import opened Memory
  import opened Splits
  import opened Sextets
  import opened Streams
  import opened UuCode

  // bchare (s, i, ' ' - 1)
  function Bchare(line: View, i: nat): (c: byte)
    requires line.Valid()
    reads line.data
    ensures c == CharAt(line.Text(), i)
  {
    if i < line.slen then line.At(i) else 31
  }

  // The body of the decoder's loop over four characters: the bytes, at most want.
  method DecodeQuad(line: View, i: nat, want: nat) returns (dropped: bool, x: seq<byte>, bad: bool)
    requires line.Valid() && want > 0
    ensures var t := line.Text();
      Octets(CharAt(t, i), CharAt(t, i + 1), CharAt(t, i + 2), CharAt(t, i + 3), want) ==
        if dropped then Dropped else Got(x, bad)
    ensures !dropped ==> |x| == if want < 3 then want else 3
  {
    var d0, d1, d2, d3 := Bchare(line, i), Bchare(line, i + 1), Bchare(line, i + 2), Bchare(line, i + 3);
    var c0, c1, c2, c3 := DecodeByte(d0), DecodeByte(d1), DecodeByte(d2), DecodeByte(d3);
    dropped, x, bad := false, [], false;
    if c0 >= 0x40 || c1 >= 0x40 {
      bad := true;
      if Spoils(d0) || Spoils(d1) {
        return true, x, bad;
      }
      c0, c1 := 0, 0;
    }
    x := [Octet0(c0, c1)];
    if want == 1 {
      return;
    }
    if c2 >= 0x40 {
      bad := true;
      if Spoils(d2) {
        return true, x, bad;
      }
      c2 := 0;
    }
    x := [Octet0(c0, c1), Octet1(c1, c2)];
    if want == 2 {
      return;
    }
    if c3 >= 0x40 {
      bad := true;
      if Spoils(d3) {
        return true, x, bad;
      }
      c3 := 0;
    }
    x := [Octet0(c0, c1), Octet1(c1, c2), Octet2(c2, c3)];
  }

  lemma BeforeBefore(x: seq<byte>, a: bool, y: seq<byte>, b: bool, d: Decoding)
    ensures Before(x, a, Before(y, b, d)) == Before(x + y, a || b, d)
  {
    if d.Got? {
      Assoc(x, y, d.bytes);
    }
  }

  // bUuDecLine with a counter for bad lines: appends what the line gives; a line
  // that turns out short or spoilt leaves the text as it was.
  method DecLine(line: View, t: Bstring) returns (bad: bool)
    requires line.Valid() && t.Valid() && line.data != t.data && t.slen + 50 < MAX_SIZE
    modifies t, t.data
    ensures t.Valid() && (t.data == old(t.data) || fresh(t.data))
    ensures var o := OneLine(line.Text());
      t.Text() == old(t.Text()) + o.bytes && o.badlines == if bad then 1 else 0
    ensures t.slen <= old(t.slen) + 45
  {
    if line.slen == 0 {
      assert t.Text() + [] == t.Text();
      return false;
    }
    var otlen := t.slen;
    ghost var text, was := line.Text(), t.Text();
    var llen := DecodeByte(line.At(0));
    if llen > 45 {
      assert t.Text() + [] == t.Text();
      return true;
    }
    ghost var all, got := DecodeLine(text), [];
    var want, i, dropped := llen as nat, 1, false;
    bad := false;
    StartLine(was, all);
    while i < line.slen && want > 0 && !dropped
      invariant 0 <= i && 0 <= want && |got| + want == llen as nat
      invariant t.Valid() && (t.data == old(t.data) || fresh(t.data))
      invariant t.Text() == was + got
      invariant all == if dropped then Dropped else Before(got, bad, Quads(text, i, want))
      decreases !dropped, want
    {
      dropped, want, bad, got := DecodeTurn(line, t, i, want, bad, was, got, all);
      i := i + 4;
    }
    if dropped || want > 0 {
      Rollback(t, otlen, was, got);
      return true;
    }
    EndLine(all, got, bad, Quads(text, i, want));
  }

  // bUuDecLine with a counter or, when counted is false, without one: a bad line is
  // then an error.
  method BUuDecLine(line: View, t: Bstring, counted: bool) returns (ret: int, badlines: nat)
    requires line.Valid() && t.Valid() && line.data != t.data && t.slen + 50 < MAX_SIZE
    modifies t, t.data
    ensures t.Valid() && (t.data == old(t.data) || fresh(t.data))
    ensures t.Text() == old(t.Text()) + OneLine(line.Text()).bytes && t.slen <= old(t.slen) + 45
    ensures badlines == if counted then OneLine(line.Text()).badlines else 0
    ensures ret < 0 <==> !counted && OneLine(line.Text()).badlines > 0
  {
    var bad := DecLine(line, t);
    ret := if bad && !counted then -1 else 0;
    badlines := if bad && counted then 1 else 0;
  }

  // One turn of the loop.
  method DecodeTurn(line: View, t: Bstring, i: nat, want: nat, bad: bool, ghost was: seq<byte>, ghost got: seq<byte>,
                    ghost all: Decoding)
    returns (dropped: bool, want': nat, bad': bool, ghost got': seq<byte>)
    requires line.Valid() && i < line.slen && 0 < want && t.Valid() && line.data != t.data && t.slen + 5 < MAX_SIZE
    requires t.Text() == was + got && all == Before(got, bad, Quads(line.Text(), i, want))
    modifies t, t.data
    ensures t.Valid() && (t.data == old(t.data) || fresh(t.data)) && t.Text() == was + got'
    ensures |got'| + want' == |got| + want && (!dropped ==> want' < want)
    ensures all == if dropped then Dropped else Before(got', bad', Quads(line.Text(), i + 4, want'))
  {
    ghost var text := line.Text();
    QuadsNext(text, i, want);
    var x, b;
    dropped, x, b := DecodeQuad(line, i, want);
    want', bad', got' := want, bad, got;
    if !dropped {
      BeforeBefore(got, bad, x, b, Quads(text, i + 4, want - |x|));
      Assoc(was, got, x);
      Put(t, x);
      want', bad', got' := want - |x|, bad || b, got + x;
    }
  }

  lemma StartLine(was: seq<byte>, d: Decoding)
    ensures was + [] == was && Before([], false, d) == d
  {
    if d.Got? {
      assert [] + d.bytes == d.bytes;
    }
  }

  lemma EndLine(all: Decoding, got: seq<byte>, bad: bool, rest: Decoding)
    requires all == Before(got, bad, rest) && rest == Got([], false)
    ensures all == Got(got, bad)
  {
  }

  method Rollback(t: Bstring, otlen: nat, ghost was: seq<byte>, ghost got: seq<byte>)
    requires t.Valid() && t.Text() == was + got && otlen == |was|
    modifies t`slen
    ensures t.Valid() && t.Text() == was + []
  {
    assert was + [] == was;
    t.slen := otlen;
  }

  // ---------- the stream ----------

  // binchr with the line ends, from pos on
  method Binchr(s: Bstring, pos: nat) returns (r: int)
    requires s.Valid() && pos <= s.slen
    ensures var i := NextSplit(s.Text(), pos, EOL);
      r == if i < s.slen then i else BSTR_ERR
  {
    ghost var text := s.Text();
    var eol := new byte[2](i => if i == 0 then 13 else 10);
    assert eol[0..2] == EOL;
    var chrs := new CharField();
    var built := chrs.Build(View(eol, 0, 2));
    r := chrs.Search(s.AsView(), pos);
    var i := if r == BSTR_ERR then s.slen else r;
    assert s.AsView().Text() == text;
    forall k | pos <= k < i
      ensures text[k] !in EOL
    {
      assert !chrs.Has(text[k]);
    }
    NextSplitAt(text, pos, i, EOL);
  }

  // The first line end of s.
  function LineEnd(s: seq<byte>): nat
  {
    NextSplit(s, 0, EOL)
  }

  // Finding a line end in a text finds it in any longer text.
  lemma LineEndStays(s: seq<byte>, rest: seq<byte>, ol: nat, l: nat)
    requires ol <= l < |s| && NextSplit(s, ol, EOL) == l
    ensures Decoded(s[ol..] + rest) == Both(OneLine(s[ol..l]), Decoded(s[l + 1..] + rest))
    ensures Leftover(s[ol..] + rest) == Leftover(s[l + 1..] + rest)
  {
    NextSplitFree(s, ol, EOL);
    CutLine(s, rest, ol, l);
    FirstLine(s[ol..l], s[l], s[l + 1..] + rest);
  }

  lemma CutLine(s: seq<byte>, rest: seq<byte>, ol: nat, l: nat)
    requires ol <= l < |s|
    ensures s[ol..] + rest == s[ol..l] + [s[l]] + (s[l + 1..] + rest)
  {
  }

  lemma NextState(s: seq<byte>, rest: seq<byte>, ol: nat, l: nat, was: Outcome, now: Outcome)
    requires ol <= l < |s| && NextSplit(s, ol, EOL) == l && now == Both(was, OneLine(s[ol..l]))
    ensures Both(now, Decoded(s[l + 1..] + rest)) == Both(was, Decoded(s[ol..] + rest))
    ensures Leftover(s[l + 1..] + rest) == Leftover(s[ol..] + rest)
  {
    LineEndStays(s, rest, ol, l);
    BothAssoc(was, OneLine(s[ol..l]), Decoded(s[l + 1..] + rest));
  }

  class UuDecoder {
    const src: Bstring
    const dst: Bstring
    const sInp: BStream
    var badlines: nat

    ghost predicate Valid()
      reads this, src, dst, sInp, sInp.buff, sInp.core
    {
      && src.Valid() && dst.Valid() && sInp.Valid()
      && src != dst && src.data != dst.data && sInp.Apart(src) && sInp.Apart(dst)
    }

    // The text not decoded yet.
    ghost function Rest(): seq<byte>
      requires Valid()
      reads this, src, src.data, dst, sInp, sInp.buff, sInp.buff.data, sInp.core
    {
      src.Text() + sInp.Remaining()
    }

    // What is decoded but not delivered.
    ghost function Done(): Outcome
      requires Valid()
      reads this, src, dst, dst.data, sInp, sInp.buff, sInp.core
    {
      Outcome(dst.Text(), badlines)
    }

    // What will be delivered in the end when the decoder stands at position ol of
    // src, with the bad lines in all; what will then be left over.
    ghost function AllFrom(ol: nat): Outcome
      requires Valid() && ol <= src.slen
      reads this, src, src.data, dst, dst.data, sInp, sInp.buff, sInp.buff.data, sInp.core
    {
      Both(Done(), Decoded(src.Text()[ol..] + sInp.Remaining()))
    }

    ghost function LeftFrom(ol: nat): seq<byte>
      requires Valid() && ol <= src.slen
      reads this, src, src.data, dst, sInp, sInp.buff, sInp.buff.data, sInp.core
    {
      Leftover(src.Text()[ol..] + sInp.Remaining())
    }

    // bsUuDecode
    constructor (sInp: BStream)
      requires sInp.Valid()
      ensures Valid() && this.sInp == sInp && fresh(src) && fresh(dst) && fresh(src.data) && fresh(dst.data)
      ensures Done() == Outcome([], 0) && Rest() == sInp.Remaining()
      ensures src.slen == dst.slen == 0
    {
      this.sInp := sInp;
      src := new Bstring.FromBlk([]);
      dst := new Bstring.FromBlk([]);
      badlines := 0;
    }

    // Reads on until src holds a line end or nothing is left.
    method FindLine() returns (l: int)
      requires Valid() && |Rest()| + 1 < MAX_SIZE
      modifies sInp`isEOF, sInp.core, sInp.buff, sInp.buff.data, src, src.data
      ensures Valid() && Rest() == old(Rest())
      ensures src.data == old(src.data) || fresh(src.data)
      ensures sInp.buff.data == old(sInp.buff.data) || fresh(sInp.buff.data)
      ensures l == if LineEnd(src.Text()) < src.slen then LineEnd(src.Text()) else BSTR_ERR
      ensures l == BSTR_ERR ==> sInp.Remaining() == []
    {
      l := Binchr(src, 0);
      var more := BSTR_OK;
      while l == BSTR_ERR && more != BSTR_ERR
        invariant Valid() && Rest() == old(Rest())
        invariant src.data == old(src.data) || fresh(src.data)
        invariant sInp.buff.data == old(sInp.buff.data) || fresh(sInp.buff.data)
        invariant l == if LineEnd(src.Text()) < src.slen then LineEnd(src.Text()) else BSTR_ERR
        invariant more == BSTR_ERR ==> sInp.Remaining() == []
        decreases more != BSTR_ERR, |sInp.Remaining()|
      {
        more := ReadMore();
        if more != BSTR_ERR {
          l := Binchr(src, 0);
        }
      }
    }

    method ReadMore() returns (ret: int)
      requires Valid() && |Rest()| + 1 < MAX_SIZE
      modifies sInp`isEOF, sInp.core, sInp.buff, sInp.buff.data, src, src.data
      ensures Valid() && Rest() == old(Rest())
      ensures src.data == old(src.data) || fresh(src.data)
      ensures sInp.buff.data == old(sInp.buff.data) || fresh(sInp.buff.data)
      ensures ret != BSTR_ERR ==> |sInp.Remaining()| < old(|sInp.Remaining()|)
      ensures ret == BSTR_ERR ==> sInp.Remaining() == [] && src.Text() == old(src.Text())
    {
      ghost var text, all := src.Text(), sInp.Remaining();
      ghost var d;
      ret, d := ReadSome();
      MovedOver(text, all, d);
    }

    method ReadSome() returns (ret: int, ghost d: nat)
      requires Valid() && |Rest()| + 1 < MAX_SIZE
      modifies sInp`isEOF, sInp.core, sInp.buff, sInp.buff.data, src, src.data
      ensures Valid() && (src.data == old(src.data) || fresh(src.data))
      ensures sInp.buff.data == old(sInp.buff.data) || fresh(sInp.buff.data)
      ensures d <= |old(sInp.Remaining())| && (ret == BSTR_ERR <==> d == 0) && (d == 0 <==> old(sInp.Remaining()) == [])
      ensures src.Text() == old(src.Text()) + old(sInp.Remaining())[..d]
      ensures sInp.Remaining() == old(sInp.Remaining())[d..]
    {
      ghost var was := src.slen;
      ret := sInp.Bsreada(src, sInp.maxBuffSz);
      d := src.slen - was;
    }

    // One line out of src.
    method OneMore(ol: nat, l: nat)
      requires Valid() && ol <= l < src.slen && l == NextSplit(src.Text(), ol, EOL) && dst.slen + 50 < MAX_SIZE
      modifies this`badlines, dst, dst.data
      ensures Valid() && (dst.data == old(dst.data) || fresh(dst.data))
      ensures AllFrom(l + 1) == old(AllFrom(ol)) && LeftFrom(l + 1) == old(LeftFrom(ol))
      ensures dst.slen <= old(dst.slen) + 45
    {
      ghost var was := Done();
      DecodeOne(ol, l);
      NextState(src.Text(), sInp.Remaining(), ol, l, was, Done());
    }

    method DecodeOne(ol: nat, l: nat)
      requires Valid() && ol <= l <= src.slen && dst.slen + 50 < MAX_SIZE
      modifies this`badlines, dst, dst.data
      ensures Valid() && (dst.data == old(dst.data) || fresh(dst.data))
      ensures Done() == Both(old(Done()), OneLine(old(src.Text()[ol..l])))
      ensures dst.slen <= old(dst.slen) + 45
    {
      PrefixSlice(src.data[..], src.Text(), ol, l);
      var ret, bad := BUuDecLine(View(src.data, ol, l - ol), dst, true);
      badlines := badlines + bad;
    }

    // The loop over the line ends in src, until there is enough to deliver, and what
    // it has used up.
    method DecodeLines(l0: nat, tsz: nat)
      requires Valid() && LineEnd(src.Text()) == l0 < src.slen
      requires dst.slen <= tsz && tsz + 50 < MAX_SIZE
      modifies this`badlines, src, src.data, dst, dst.data
      ensures Valid() && (src.data == old(src.data) || fresh(src.data))
        && (dst.data == old(dst.data) || fresh(dst.data))
      ensures src.slen < old(src.slen) && dst.slen <= tsz + 45
      ensures AllFrom(0) == old(AllFrom(0)) && LeftFrom(0) == old(LeftFrom(0))
    {
      var ol := ScanLines(l0, tsz);
      DropFront(ol);
    }

    method ScanLines(l0: nat, tsz: nat) returns (ol: nat)
      requires Valid() && LineEnd(src.Text()) == l0 < src.slen
      requires dst.slen <= tsz && tsz + 50 < MAX_SIZE
      modifies this`badlines, dst, dst.data
      ensures Valid() && (dst.data == old(dst.data) || fresh(dst.data))
      ensures 0 < ol <= src.slen && dst.slen <= tsz + 45
      ensures AllFrom(ol) == old(AllFrom(0)) && LeftFrom(ol) == old(LeftFrom(0))
    {
      var l: int := l0;
      ol := 0;
      while l != BSTR_ERR
        invariant 0 <= ol <= src.slen && Valid() && (ol == 0 ==> l != BSTR_ERR)
        invariant dst.data == old(dst.data) || fresh(dst.data)
        invariant l != BSTR_ERR ==> ol <= l < src.slen && l == NextSplit(src.Text(), ol, EOL) && dst.slen <= tsz
        invariant dst.slen <= tsz + 45
        invariant AllFrom(ol) == old(AllFrom(0)) && LeftFrom(ol) == old(LeftFrom(0))
        decreases l != BSTR_ERR, src.slen - ol
      {
        ol, l := ScanOne(ol, l, tsz);
      }
    }

    // One turn of the loop; BSTR_ERR ends it.
    method ScanOne(ol: nat, l: nat, tsz: nat) returns (ol': nat, l': int)
      requires Valid() && ol <= l < src.slen && l == NextSplit(src.Text(), ol, EOL)
      requires dst.slen <= tsz && tsz + 50 < MAX_SIZE
      modifies this`badlines, dst, dst.data
      ensures Valid() && (dst.data == old(dst.data) || fresh(dst.data))
      ensures ol < ol' <= src.slen && dst.slen <= tsz + 45
      ensures l' != BSTR_ERR ==> ol' <= l' < src.slen && l' == NextSplit(src.Text(), ol', EOL) && dst.slen <= tsz
      ensures AllFrom(ol') == old(AllFrom(ol)) && LeftFrom(ol') == old(LeftFrom(ol))
    {
      OneMore(ol, l);
      ol' := l + 1;
      l' := BSTR_ERR;
      if dst.slen <= tsz {
        l' := Binchr(src, ol');
      }
    }

    // Puts the first n decoded bytes out.
    method TakeOut(buff: array<byte>, n: nat)
      requires Valid() && n <= dst.slen && n <= buff.Length
      requires buff != dst.data && buff != src.data && buff != sInp.buff.data
      modifies buff, dst, dst.data
      ensures Valid() && dst.data == old(dst.data) && dst.slen == old(dst.slen) - n
      ensures Prepended(buff[..n], Done()) == old(Done())
      ensures Prepended(buff[..n], AllFrom(0)) == old(AllFrom(0)) && LeftFrom(0) == old(LeftFrom(0))
    {
      ghost var all := Decoded(src.Text()[0..] + sInp.Remaining());
      ghost var x := dst.Text();
      CopyFront(buff, dst, n);
      var ret := dst.Bdelete(0, n);
      FrontGone(x, n);
      Restored(x, n);
      PrependedBoth(x[..n], Done(), all);
    }

    method DropFront(ol: nat)
      requires Valid() && ol <= src.slen
      modifies src, src.data
      ensures Valid() && src.data == old(src.data) && src.slen == old(src.slen) - ol
      ensures AllFrom(0) == old(AllFrom(ol)) && LeftFrom(0) == old(LeftFrom(ol))
    {
      ghost var s := src.Text();
      var ret := src.Bdelete(0, ol);
      FrontGone(s, ol);
    }

    // bUuDecLine on what is left when there are no more line ends.
    method DecodeLeftover()
      requires Valid() && LineEnd(src.Text()) == src.slen && sInp.Remaining() == [] && dst.slen + 50 < MAX_SIZE
      modifies this`badlines, dst, dst.data
      ensures Valid() && (dst.data == old(dst.data) || fresh(dst.data))
      ensures src.Text() == old(LeftFrom(0))
      ensures AllFrom(0) == Done() == Both(old(AllFrom(0)), OneLine(old(LeftFrom(0))))
        && LeftFrom(0) == old(LeftFrom(0))
      ensures dst.slen == old(dst.slen) + |OneLine(old(LeftFrom(0))).bytes|
    {
      LastText(src.Text(), Done());
      DecodeOne(0, src.slen);
      LastText(src.Text(), Done());
    }

    // Decodes until there is more than tsz to deliver or the text is at its end.
    method Fill(tsz: nat) returns (ghost atEnd: bool)
      requires Valid() && |Rest()| + 1 < MAX_SIZE && tsz + 100 < MAX_SIZE
      modifies this`badlines, src, src.data, dst, dst.data, sInp`isEOF, sInp.core, sInp.buff, sInp.buff.data
      ensures Valid() && |Rest()| <= old(|Rest()|)
      ensures src.data == old(src.data) || fresh(src.data)
      ensures dst.data == old(dst.data) || fresh(dst.data)
      ensures sInp.buff.data == old(sInp.buff.data) || fresh(sInp.buff.data)
      ensures LeftFrom(0) == old(LeftFrom(0))
      ensures !atEnd ==> dst.slen > tsz && AllFrom(0) == old(AllFrom(0))
      ensures atEnd ==> AllFrom(0) == Done() == Both(old(AllFrom(0)), OneLine(old(LeftFrom(0))))
      ensures atEnd ==> dst.slen <= tsz + |OneLine(old(LeftFrom(0))).bytes|
    {
      atEnd := false;
      var more := true;
      while dst.slen <= tsz && more
        invariant Valid() && |Rest()| <= old(|Rest()|) && more == !atEnd
        invariant src.data == old(src.data) || fresh(src.data)
        invariant dst.data == old(dst.data) || fresh(dst.data)
        invariant sInp.buff.data == old(sInp.buff.data) || fresh(sInp.buff.data)
        invariant LeftFrom(0) == old(LeftFrom(0))
        invariant more ==> AllFrom(0) == old(AllFrom(0))
        invariant !more ==> AllFrom(0) == Done() == Both(old(AllFrom(0)), OneLine(old(LeftFrom(0))))
        invariant !more ==> dst.slen <= tsz + |OneLine(old(LeftFrom(0))).bytes|
        decreases more, |Rest()|
      {
        more := FillOnce(tsz);
        atEnd := !more;
      }
    }

    method FillOnce(tsz: nat) returns (more: bool)
      requires Valid() && |Rest()| + 1 < MAX_SIZE && tsz + 100 < MAX_SIZE && dst.slen <= tsz
      modifies this`badlines, src, src.data, dst, dst.data, sInp`isEOF, sInp.core, sInp.buff, sInp.buff.data
      ensures Valid() && |Rest()| <= old(|Rest()|) && (more ==> |Rest()| < old(|Rest()|))
      ensures src.data == old(src.data) || fresh(src.data)
      ensures dst.data == old(dst.data) || fresh(dst.data)
      ensures sInp.buff.data == old(sInp.buff.data) || fresh(sInp.buff.data)
      ensures LeftFrom(0) == old(LeftFrom(0))
      ensures more ==> AllFrom(0) == old(AllFrom(0))
      ensures !more ==> AllFrom(0) == Done() == Both(old(AllFrom(0)), OneLine(old(LeftFrom(0))))
      ensures !more ==> dst.slen <= tsz + |OneLine(old(LeftFrom(0))).bytes|
    {
      RestIsAll();
      var l := FindLine();
      RestIsAll();
      more := l != BSTR_ERR;
      if more {
        DecodeLines(l, tsz);
      } else {
        DecodeLeftover();
      }
    }

    lemma RestIsAll()
      requires Valid()
      ensures AllFrom(0) == Both(Done(), Decoded(Rest())) && LeftFrom(0) == Leftover(Rest())
    {
      assert src.Text()[0..] == src.Text();
    }

    // bsUuDecodePart: up to tsz bytes, none only when there are no more. At the end
    // of the text the leftover line is decoded, in this call and in every later one:
    // if it gives bytes, the stream never ends.
    method BsUuDecodePart(buff: array<byte>, tsz: nat) returns (n: nat, ghost atEnd: bool)
      requires Valid() && |Rest()| + 1 < MAX_SIZE && 0 < tsz <= buff.Length && tsz + 100 < MAX_SIZE
      requires buff != dst.data && buff != src.data && buff != sInp.buff.data
      modifies this`badlines, src, src.data, dst, dst.data, sInp`isEOF, sInp.core, sInp.buff, sInp.buff.data, buff
      ensures Valid() && |Rest()| <= old(|Rest()|)
      ensures src.data == old(src.data) || fresh(src.data)
      ensures dst.data == old(dst.data) || fresh(dst.data)
      ensures sInp.buff.data == old(sInp.buff.data) || fresh(sInp.buff.data)
      ensures n <= tsz && LeftFrom(0) == old(LeftFrom(0))
      ensures Prepended(buff[..n], AllFrom(0)) ==
        if atEnd then Both(old(AllFrom(0)), OneLine(old(LeftFrom(0)))) else old(AllFrom(0))
      ensures n == 0 ==> atEnd && AllFrom(0) == Outcome([], badlines)
      ensures n == 0 ==> OneLine(old(LeftFrom(0))).bytes == []
      ensures !atEnd ==> dst.slen > 0
      ensures atEnd && OneLine(old(LeftFrom(0))).bytes == [] ==> AllFrom(0) == Outcome([], badlines)
    {
      atEnd := Fill(tsz);
      n := if dst.slen > tsz then tsz else dst.slen;
      ghost var now := Done();
      TakeOut(buff, n);
      if n == 0 {
        NothingOut(buff[..n], AllFrom(0), now);
      }
    }
  }

  // x was put out before the rest of o.
  ghost function Prepended(x: seq<byte>, o: Outcome): Outcome
  {
    Outcome(x + o.bytes, o.badlines)
  }

  lemma NothingOut(x: seq<byte>, o: Outcome, p: Outcome)
    requires x == [] && Prepended(x, o) == p
    ensures o == p
  {
    NothingYet(o);
  }

  lemma PrependedBoth(x: seq<byte>, o: Outcome, p: Outcome)
    ensures Prepended(x, Both(o, p)) == Both(Prepended(x, o), p)
  {
    Assoc(x, o.bytes, p.bytes);
  }

  method CopyFront(buff: array<byte>, b: Bstring, n: nat)
    requires b.Valid() && n <= b.slen && n <= buff.Length && buff != b.data
    modifies buff
    ensures buff[..n] == b.Text()[..n]
  {
    PrefixSlice(b.data[..], b.Text(), 0, n);
    SplicedStart(buff[..], b.Text()[..n]);
    Memcpy(buff, 0, b.data, 0, n);
  }

  lemma Restored(x: seq<byte>, n: nat)
    requires n <= |x|
    ensures x[..n] + x[n..] == x
  {
  }

  lemma LastText(s: seq<byte>, done: Outcome)
    requires LineEnd(s) == |s|
    ensures Both(done, Decoded(s[0..] + [])) == done && Leftover(s[0..] + []) == s && s[0..|s|] == s
  {
    assert s[0..] + [] == s && s[0..|s|] == s;
    NextSplitFree(s, 0, EOL);
    NoLineEnd(s);
    BothNone(done);
  }

  lemma FrontGone(s: seq<byte>, ol: nat)
    requires ol <= |s|
    ensures Deleted(s, 0, ol) == s[ol..] && s[ol..][0..] == s[ol..]
  {
  }

  lemma MovedOver(text: seq<byte>, all: seq<byte>, d: nat)
    requires d <= |all|
    ensures text + all[..d] + all[d..] == text + all
  {
  }

  // What one read may do when x comes out: the leftover is not reached, and more is
  // waiting; or it is reached, and what it gives is added.
  ghost predicate OneRead(before: Outcome, left: Outcome, x: seq<byte>, after: Outcome, atEnd: bool)
  {
    && (x == [] ==> atEnd && after.bytes == [] && left.bytes == [])
    && (!atEnd ==> Prepended(x, after) == before && after.bytes != [])
    && (atEnd ==> Prepended(x, after) == Both(before, left) && (left.bytes == [] ==> after.bytes == []))
  }

  // One read of the decoded stream, of any size that fits the buffer.
  method ReadBlock(d: UuDecoder, buff: array<byte>) returns (x: seq<byte>, ghost atEnd: bool)
    requires d.Valid() && |d.Rest()| + 1 < MAX_SIZE && 0 < buff.Length && buff.Length + 100 < MAX_SIZE
    requires buff != d.dst.data && buff != d.src.data && buff != d.sInp.buff.data
    modifies d, d.src, d.src.data, d.dst, d.dst.data, d.sInp, d.sInp.core, d.sInp.buff, d.sInp.buff.data, buff
    ensures d.Valid() && |d.Rest()| <= old(|d.Rest()|)
    ensures d.src.data == old(d.src.data) || fresh(d.src.data)
    ensures d.dst.data == old(d.dst.data) || fresh(d.dst.data)
    ensures d.sInp.buff.data == old(d.sInp.buff.data) || fresh(d.sInp.buff.data)
    ensures d.LeftFrom(0) == old(d.LeftFrom(0))
    ensures OneRead(old(d.AllFrom(0)), OneLine(d.LeftFrom(0)), x, d.AllFrom(0), atEnd)
    ensures atEnd && OneLine(d.LeftFrom(0)).bytes == [] ==> d.AllFrom(0) == Outcome([], d.badlines)
  {
    var tsz: nat :| 0 < tsz <= buff.Length;
    var n;
    n, atEnd := d.BsUuDecodePart(buff, tsz);
    x := buff[..n];
  }

  // all with k more of left behind it
  ghost function Again(all: Outcome, left: Outcome, k: nat): Outcome
  {
    if k == 0 then all else Both(Again(all, left, k - 1), left)
  }

  // Any number of reads of the decoded stream, with a block size chosen anew for
  // each, and any text: what came out and what is to come are the decoded text and,
  // once for every read that reached the end, what the leftover gives. If it gives
  // bytes no read comes back empty.
  method ReadTimes(d: UuDecoder, length: nat, calls: nat) returns (out: seq<byte>, ghost k: nat)
    requires d.Valid() && |d.Rest()| + 1 < MAX_SIZE && 0 < length && length + 100 < MAX_SIZE
    modifies d, d.src, d.src.data, d.dst, d.dst.data, d.sInp, d.sInp.core, d.sInp.buff, d.sInp.buff.data
    ensures d.Valid() && k <= calls
    ensures Prepended(out, d.AllFrom(0)) == Again(old(d.AllFrom(0)), OneLine(old(d.LeftFrom(0))), k)
    ensures OneLine(old(d.LeftFrom(0))).bytes != [] ==> |out| >= calls
  {
    ghost var all, left := d.AllFrom(0), OneLine(d.LeftFrom(0));
    var buff := new byte[length];
    out, k := [], 0;
    var c := 0;
    NothingYet(all);
    while c < calls
      invariant 0 <= c <= calls && k <= c && d.Valid() && |d.Rest()| + 1 < MAX_SIZE
      invariant d.src.data == old(d.src.data) || fresh(d.src.data)
      invariant d.dst.data == old(d.dst.data) || fresh(d.dst.data)
      invariant d.sInp.buff.data == old(d.sInp.buff.data) || fresh(d.sInp.buff.data)
      invariant buff != d.src.data && buff != d.dst.data && buff != d.sInp.buff.data
      invariant OneLine(d.LeftFrom(0)) == left && Prepended(out, d.AllFrom(0)) == Again(all, left, k)
      invariant left.bytes != [] ==> |out| >= c
    {
      out, k := ReadNext(d, buff, out, k, all, left);
      c := c + 1;
    }
  }

  method ReadNext(d: UuDecoder, buff: array<byte>, out: seq<byte>, ghost k: nat, ghost all: Outcome,
                  ghost left: Outcome)
    returns (out': seq<byte>, ghost k': nat)
    requires d.Valid() && |d.Rest()| + 1 < MAX_SIZE && 0 < buff.Length && buff.Length + 100 < MAX_SIZE
    requires buff != d.dst.data && buff != d.src.data && buff != d.sInp.buff.data
    requires left == OneLine(d.LeftFrom(0)) && Prepended(out, d.AllFrom(0)) == Again(all, left, k)
    modifies d, d.src, d.src.data, d.dst, d.dst.data, d.sInp, d.sInp.core, d.sInp.buff, d.sInp.buff.data, buff
    ensures d.Valid() && |d.Rest()| <= old(|d.Rest()|)
    ensures d.src.data == old(d.src.data) || fresh(d.src.data)
    ensures d.dst.data == old(d.dst.data) || fresh(d.dst.data)
    ensures d.sInp.buff.data == old(d.sInp.buff.data) || fresh(d.sInp.buff.data)
    ensures d.LeftFrom(0) == old(d.LeftFrom(0)) && Prepended(out', d.AllFrom(0)) == Again(all, left, k')
    ensures k <= k' <= k + 1 && |out| <= |out'| && (left.bytes != [] ==> |out| < |out'|)
  {
    ghost var before := d.AllFrom(0);
    ghost var atEnd;
    var x;
    x, atEnd := ReadBlock(d, buff);
    ReadOn(out, before, left, x, d.AllFrom(0), atEnd, Again(all, left, k));
    out' := out + x;
    k' := if atEnd then k + 1 else k;
  }

  lemma NothingYet(o: Outcome)
    ensures Prepended([], o) == o
  {
  }

  lemma ReadOn(out: seq<byte>, before: Outcome, left: Outcome, x: seq<byte>, after: Outcome, atEnd: bool, all: Outcome)
    requires OneRead(before, left, x, after, atEnd) && Prepended(out, before) == all
    ensures Prepended(out + x, after) == if atEnd then Both(all, left) else all
    ensures left.bytes != [] ==> |x| > 0
  {
    Assoc(out, x, after.bytes);
    PrependedBoth(out, before, left);
  }

  // A stream that never ends: two characters without a line end.
  method EndlessStream(calls: nat) returns (out: seq<byte>)
    ensures |out| >= calls
  {
    var core := new Source([33, 33]);
    var s := new BStream(core);
    var d := new UuDecoder(s);
    d.RestIsAll();
    StartText([33, 33]);
    LeftoverMayGiveBytes();
    ghost var k;
    out, k := ReadTimes(d, 1024, calls);
  }

  // Reading the decoded stream to its end, with a block size chosen anew for every
  // call: what comes out depends on the text alone, and so does the number of bad
  // lines, which has a bad leftover once, or twice if anything came out. A leftover
  // that gives bytes would come again and again, so there must be none.
  method ReadAll(d: UuDecoder, length: nat) returns (b: Bstring)
    requires d.Valid() && |d.Rest()| + 1 < MAX_SIZE && 0 < length && length + 100 < MAX_SIZE
    requires |d.AllFrom(0).bytes| + 1 < MAX_SIZE
    requires OneLine(d.LeftFrom(0)).bytes == []
    modifies d, d.src, d.src.data, d.dst, d.dst.data, d.sInp, d.sInp.core, d.sInp.buff, d.sInp.buff.data
    ensures fresh(b) && fresh(b.data) && b.Valid() && d.Valid()
    ensures b.Text() == old(d.AllFrom(0)).bytes
    ensures d.badlines == BadLines(old(d.AllFrom(0)), OneLine(old(d.LeftFrom(0))))
  {
    ghost var all, left := d.AllFrom(0), d.LeftFrom(0);
    ghost var k := 0;
    var buff := new byte[length];
    b := new Bstring.FromBlk([]);
    var more := true;
    StartText(all.bytes);
    while more
      invariant d.Valid() && |d.Rest()| + 1 < MAX_SIZE && fresh(b) && fresh(b.data) && b.Valid()
      invariant d.src.data == old(d.src.data) || fresh(d.src.data)
      invariant d.dst.data == old(d.dst.data) || fresh(d.dst.data)
      invariant d.sInp.buff.data == old(d.sInp.buff.data) || fresh(d.sInp.buff.data)
      invariant Separate(d, buff, b)
      invariant d.LeftFrom(0) == left && Progress(all, OneLine(left), b.Text(), d.AllFrom(0), k, more)
      invariant !more ==> d.AllFrom(0) == Outcome([], d.badlines)
      decreases more, 2 * |d.AllFrom(0).bytes| + (if k == 0 then 1 else 0)
    {
      more, k := ReadRound(d, buff, b, k, all);
    }
    StartText(b.Text());
  }

  // How often the end is reached makes the difference for a bad leftover.
  function BadLines(all: Outcome, left: Outcome): nat
  {
    all.badlines + (if all.bytes == [] then 1 else 2) * left.badlines
  }

  // Out is read, now is to come; k reads have reached the end.
  ghost predicate Progress(all: Outcome, left: Outcome, out: seq<byte>, now: Outcome, k: nat, more: bool)
  {
    && out + now.bytes == all.bytes && now.badlines == all.badlines + k * left.badlines
    && (k == 0 ==> more && (out != [] ==> now.bytes != []))
    && (k > 0 ==> now.bytes == [])
    && (k > 0 && more ==> k == 1 && out != [])
    && (!more ==> k == if all.bytes == [] then 1 else 2)
  }

  lemma ProgressKept(all: Outcome, left: Outcome, out: seq<byte>, now: Outcome, k: nat,
                     x: seq<byte>, after: Outcome, atEnd: bool)
    requires Progress(all, left, out, now, k, true) && OneRead(now, left, x, after, atEnd) && left.bytes == []
    ensures Progress(all, left, out + x, after, if atEnd then k + 1 else k, x != [])
    ensures x != [] ==> |after.bytes| < |now.bytes|
  {
    StartText(now.bytes);
    Assoc(out, x, after.bytes);
    assert (k + 1) * left.badlines == k * left.badlines + left.badlines;
  }

  ghost predicate Separate(d: UuDecoder, buff: array<byte>, b: Bstring)
    reads d, d.src, d.dst, d.sInp, d.sInp.buff, b
  {
    && b != d.src && b != d.dst && b != d.sInp.buff
    && b.data != d.src.data && b.data != d.dst.data && b.data != d.sInp.buff.data && b.data != buff
    && buff != d.src.data && buff != d.dst.data && buff != d.sInp.buff.data
  }

  method ReadRound(d: UuDecoder, buff: array<byte>, b: Bstring, ghost k: nat, ghost all: Outcome)
    returns (more: bool, ghost k': nat)
    requires d.Valid() && |d.Rest()| + 1 < MAX_SIZE && 0 < buff.Length && buff.Length + 100 < MAX_SIZE
    requires b.Valid() && Separate(d, buff, b) && |all.bytes| + 1 < MAX_SIZE
    requires OneLine(d.LeftFrom(0)).bytes == []
    requires Progress(all, OneLine(d.LeftFrom(0)), b.Text(), d.AllFrom(0), k, true)
    modifies d, d.src, d.src.data, d.dst, d.dst.data, d.sInp, d.sInp.core, d.sInp.buff, d.sInp.buff.data, buff
    modifies b, b.data
    ensures d.Valid() && b.Valid() && |d.Rest()| <= old(|d.Rest()|) && Separate(d, buff, b)
    ensures d.src.data == old(d.src.data) || fresh(d.src.data)
    ensures d.dst.data == old(d.dst.data) || fresh(d.dst.data)
    ensures d.sInp.buff.data == old(d.sInp.buff.data) || fresh(d.sInp.buff.data)
    ensures b.data == old(b.data) || fresh(b.data)
    ensures d.LeftFrom(0) == old(d.LeftFrom(0))
    ensures Progress(all, OneLine(d.LeftFrom(0)), b.Text(), d.AllFrom(0), k', more)
    ensures !more ==> d.AllFrom(0) == Outcome([], d.badlines)
    ensures more ==> |d.AllFrom(0).bytes| < old(|d.AllFrom(0).bytes|)
  {
    ghost var was, before := b.Text(), d.AllFrom(0);
    ghost var atEnd;
    var x;
    x, atEnd := ReadBlock(d, buff);
    ProgressKept(all, OneLine(d.LeftFrom(0)), was, before, k, x, d.AllFrom(0), atEnd);
    Put(b, x);
    more := |x| > 0;
    k' := if atEnd then k + 1 else k;
  }

  lemma StartText(x: seq<byte>)
    ensures [] + x == x == x + []
  {
  }

  // bUuDecodeEx, with a counter for bad lines; null when nothing comes out.
  method BUuDecodeEx(src: View) returns (isNull: bool, b: Bstring, badlines: nat)
    requires src.Valid() && src.slen + 1 < MAX_SIZE && |Decoded(src.Text()).bytes| + 1 < MAX_SIZE
    requires OneLine(Leftover(src.Text())).bytes == []
    ensures fresh(b) && fresh(b.data) && b.Valid()
    ensures b.Text() == Decoded(src.Text()).bytes && (isNull <==> b.slen == 0)
    ensures badlines == BadLines(Decoded(src.Text()), OneLine(Leftover(src.Text())))
  {
    var text := src.Slice(0, src.slen);
    assert text == src.Text();
    var core := new Source(text);
    var s := new BStream(core);
    var d := new UuDecoder(s);
    d.RestIsAll();
    StartText(Decoded(text).bytes);
    b := ReadAll(d, 1024);
    isNull, badlines := b.slen == 0, d.badlines;
  }

  // The encoder's own text meets what the decoder asks for, and only the empty
  // string comes back as null.
  lemma EncodedIsDecodable(s: seq<byte>)
    ensures OneLine(Leftover(Encoded(s))) == Outcome([], 0)
    ensures Decoded(Encoded(s)) == Outcome(s, 0)
  {
    DecodeUndoesEncode(s);
  }
}

// The loops of the uuencoder.
module UuStreams {
  import opened Bstrings
  import opened Growth
  import opened Memory
  import opened UuCode

  // ---------- bUuEncode ----------

  // bchar
  function Bchar(src: View, i: nat): (c: byte)
    requires src.Valid()
    reads src.data
    ensures c == Byte(src.Text(), i)
  {
    if i < src.slen then src.At(i) else 0
  }

  lemma GroupsFrom(s: seq<byte>, j: nat, jm: nat)
    requires j < jm <= |s| && (jm < |s| ==> (jm - j) % 3 == 0)
    ensures Groups(s[j..jm]) == Quad(Byte(s, j), Byte(s, j + 1), Byte(s, j + 2)) + Groups(ToGroup(s, j + 3, jm))
  {
    var x := s[j..jm];
    assert x[0] == s[j] && Byte(x, 1) == Byte(s, j + 1) && Byte(x, 2) == Byte(s, j + 2);
    if j + 3 < jm {
      assert x[3..] == s[j + 3..jm];
    }
  }

  // The inner loop: one line's groups.
  method PutGroups(out: Bstring, src: View, i: nat, jm: nat)
    requires src.Valid() && i <= jm <= src.slen && (jm < src.slen ==> (jm - i) % 3 == 0)
    requires out.Valid() && src.data != out.data && out.slen + 2 * (jm - i) + 8 < MAX_SIZE
    modifies out, out.data
    ensures out.Valid() && (out.data == old(out.data) || fresh(out.data))
    ensures out.Text() == old(out.Text()) + Groups(src.Text()[i..jm])
    ensures out.slen <= old(out.slen) + 2 * (jm - i) + 2
  {
    ghost var s, was := src.Text(), out.Text();
    ghost var all := was + Groups(s[i..jm]);
    var j := i;
    while j < jm
      invariant i <= j <= jm + 2 && (jm < src.slen ==> (jm - j) % 3 == 0)
      invariant out.Valid() && src.Text() == s && (out.data == old(out.data) || fresh(out.data))
      invariant 3 * (out.slen - |was|) == 4 * (j - i)
      invariant all == out.Text() + Groups(ToGroup(s, j, jm))
    {
      PutGroup(out, src, j, jm, all);
      j := j + 3;
    }
    Nothing(s, jm, out.Text());
  }

  lemma Nothing(s: seq<byte>, jm: nat, written: seq<byte>)
    requires jm <= |s|
    ensures written + Groups(ToGroup(s, jm + 2, jm)) == written
    ensures written + Groups(ToGroup(s, jm + 1, jm)) == written
    ensures written + Groups(ToGroup(s, jm, jm)) == written
  {
  }

  // What the inner loop has before it.
  function ToGroup(s: seq<byte>, j: nat, jm: nat): seq<byte>
    requires jm <= |s|
  {
    if j < jm then s[j..jm] else []
  }

  // One turn of the inner loop.
  method PutGroup(out: Bstring, src: View, j: nat, jm: nat, ghost all: seq<byte>)
    requires src.Valid() && j < jm <= src.slen && (jm < src.slen ==> (jm - j) % 3 == 0)
    requires out.Valid() && src.data != out.data && out.slen + 5 < MAX_SIZE
    requires all == out.Text() + Groups(src.Text()[j..jm])
    modifies out, out.data
    ensures out.Valid() && (out.data == old(out.data) || fresh(out.data)) && out.slen == old(out.slen) + 4
    ensures all == out.Text() + Groups(ToGroup(src.Text(), j + 3, jm))
    ensures jm < src.slen ==> (jm - (j + 3)) % 3 == 0
  {
    ghost var s, before := src.Text(), out.Text();
    GroupsFrom(s, j, jm);
    var q := Quad(Bchar(src, j), Bchar(src, j + 1), Bchar(src, j + 2));
    Put(out, q);
    Assoc(before, q, Groups(ToGroup(s, j + 3, jm)));
  }

  // bUuEncode
  method BUuEncode(src: View) returns (out: Bstring)
    requires src.Valid() && 2 * src.slen + 100 < MAX_SIZE
    ensures fresh(out) && fresh(out.data) && out.Valid()
    ensures out.Text() == Encoded(src.Text())
  {
    ghost var s := src.Text();
    ghost var all := Encoded(s);
    out := new Bstring.FromBlk([]);
    var i := 0;
    FromStart(s);
    while i < src.slen
      invariant 0 <= i && fresh(out) && fresh(out.data) && out.Valid()
      invariant i < |s| ==> 5 * out.slen == 7 * i
      invariant all == out.Text() + Encoded(From(s, i))
    {
      EncodeLine(out, src, i, all);
      i := i + UU_MAX_LINELEN;
    }
    FromEnd(s, i, out.Text());
  }

  lemma FromStart(s: seq<byte>)
    ensures Encoded(s) == [] + Encoded(From(s, 0))
  {
    assert s[0..] == s;
  }

  lemma FromEnd(s: seq<byte>, i: nat, written: seq<byte>)
    requires i >= |s|
    ensures written + Encoded(From(s, i)) == written
  {
  }

  // One turn of the outer loop.
  method EncodeLine(out: Bstring, src: View, i: nat, ghost all: seq<byte>)
    requires src.Valid() && i < src.slen
    requires out.Valid() && src.data != out.data && out.slen + 2 * src.slen - 2 * i + 16 < MAX_SIZE
    requires all == out.Text() + Encoded(src.Text()[i..])
    modifies out, out.data
    ensures out.Valid() && (out.data == old(out.data) || fresh(out.data))
    ensures all == out.Text() + Encoded(From(src.Text(), i + UU_MAX_LINELEN))
    ensures i + UU_MAX_LINELEN <= src.slen ==> out.slen == old(out.slen) + 63
  {
    var jm := i + UU_MAX_LINELEN;
    if jm > src.slen {
      jm := src.slen;
    }
    ghost var was, s := out.Text(), src.Text();
    var c := LengthCode(jm - i);
    EncodedNext(s, i, jm, c);
    PutLine(out, src, i, jm, c);
    Assoc(was, [c] + Groups(s[i..jm]) + EOL, Encoded(From(s, i + UU_MAX_LINELEN)));
  }

  function From(s: seq<byte>, i: nat): seq<byte>
  {
    if i < |s| then s[i..] else []
  }

  function LengthCode(n: nat): byte
    requires n <= UU_MAX_LINELEN
  {
    EncodeByte(n as byte)
  }

  lemma EncodedNext(s: seq<byte>, i: nat, jm: nat, c: byte)
    requires i < |s| && jm == i + LineLength(|s| - i) && c == LengthCode(jm - i)
    ensures Encoded(s[i..]) == [c] + Groups(s[i..jm]) + EOL + Encoded(From(s, i + UU_MAX_LINELEN))
    ensures |Groups(s[i..jm])| <= 60 && (jm == i + UU_MAX_LINELEN ==> |Groups(s[i..jm])| == 60)
  {
    FirstLine(s[i..], jm - i, s[i..jm], From(s, i + UU_MAX_LINELEN));
    GroupsAreFree(s[i..jm]);
  }

  lemma FirstLine(s: seq<byte>, m: nat, x: seq<byte>, rest: seq<byte>)
    requires s != [] && m == LineLength(|s|) && x == s[..m] && rest == s[m..]
    ensures Encoded(s) == [LengthCode(m)] + Groups(x) + EOL + Encoded(rest)
  {
  }

  // One line: its length, its groups and the line end.
  method PutLine(out: Bstring, src: View, i: nat, jm: nat, c: byte)
    requires src.Valid() && i < jm <= src.slen && jm - i <= UU_MAX_LINELEN
    requires jm < src.slen ==> jm - i == UU_MAX_LINELEN
    requires out.Valid() && src.data != out.data && out.slen + 2 * src.slen - 2 * i + 16 < MAX_SIZE
    modifies out, out.data
    ensures out.Valid() && (out.data == old(out.data) || fresh(out.data))
    ensures out.Text() == old(out.Text()) + ([c] + Groups(src.Text()[i..jm]) + EOL)
  {
    ghost var x := src.Text()[i..jm];
    ghost var was := out.Text();
    Put(out, [c]);
    PutGroups(out, src, i, jm);
    Put(out, EOL);
    LineGrouped(was, [c], Groups(x));
  }

  lemma LineGrouped(was: seq<byte>, c: seq<byte>, x: seq<byte>)
    ensures was + c + x + EOL == was + (c + x + EOL)
  {
  }
}

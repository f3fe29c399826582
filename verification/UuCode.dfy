// uuencoding: what a line of text stands for, the encoder, and the round trip.
module UuCode {
  import opened Joins
  import opened Memory
  import opened Sextets
  import opened Streams

  const UU_MAX_LINELEN := 45
  const EOL: seq<byte> := [13, 10]

  // UU_ENCODE_BYTE and UU_DECODE_BYTE. What the latter gives outside 0 to 63 as an
  // int is above 63 as a byte, too.
  function EncodeByte(v: byte): byte
  {
    if v == 0 then 96 else v + 32
  }

  function DecodeByte(b: byte): byte
  {
    if b == 96 then 0 else b - 32
  }

  // A character that spoils its line; the others outside the code count as zero.
  predicate Spoils(d: byte)
  {
    d > 0x60 || (d < 31 && !(9 <= d <= 13) && d != 32)
  }


  // What a line, or a part of it, gives: bytes, and whether a character was wrong;
  // or nothing at all.
  datatype Decoding = Got(bytes: seq<byte>, bad: bool) | Dropped

  function Before(x: seq<byte>, bad: bool, d: Decoding): Decoding
  {
    if d.Got? then Got(x + d.bytes, bad || d.bad) else Dropped
  }

  // The bytes of four characters when want bytes are still to come.
  function Octets(d0: byte, d1: byte, d2: byte, d3: byte, want: nat): Decoding
    requires want > 0
  {
    var bad0 := DecodeByte(d0) >= 64 || DecodeByte(d1) >= 64;
    if bad0 && (Spoils(d0) || Spoils(d1)) then Dropped
    else
      var c0 := if bad0 then 0 else DecodeByte(d0);
      var c1 := if bad0 then 0 else DecodeByte(d1);
      if want == 1 then Got([Octet0(c0, c1)], bad0)
      else
        var bad1 := DecodeByte(d2) >= 64;
        if bad1 && Spoils(d2) then Dropped
        else
          var c2 := if bad1 then 0 else DecodeByte(d2);
          if want == 2 then Got([Octet0(c0, c1), Octet1(c1, c2)], bad0 || bad1)
          else
            var bad2 := DecodeByte(d3) >= 64;
            if bad2 && Spoils(d3) then Dropped
            else
              var c3 := if bad2 then 0 else DecodeByte(d3);
              Got([Octet0(c0, c1), Octet1(c1, c2), Octet2(c2, c3)], bad0 || bad1 || bad2)
  }

  // bchare with the character before the blank for what is missing
  function CharAt(line: seq<byte>, i: nat): byte
  {
    if i < |line| then line[i] else 31
  }

  function Quads(line: seq<byte>, i: nat, want: nat): Decoding
    decreases want
  {
    if want == 0 then Got([], false)
    else if i >= |line| then Dropped
    else
      var g := Octets(CharAt(line, i), CharAt(line, i + 1), CharAt(line, i + 2), CharAt(line, i + 3), want);
      if g.Dropped? then Dropped
      else Before(g.bytes, g.bad, Quads(line, i + 4, if want < 3 then 0 else want - 3))
  }

  // Four characters of the code give the bytes with their bits, as many as are wanted.
  lemma OctetsHaveTheirBits(d0: byte, d1: byte, d2: byte, d3: byte, want: nat)
    requires want > 0 && !OutOf(d0) && !OutOf(d1) && !OutOf(d2) && !OutOf(d3)
    ensures var g, v0, v1, v2, v3 :=
        Octets(d0, d1, d2, d3, want), (d0 - 32) & 63, (d1 - 32) & 63, (d2 - 32) & 63, (d3 - 32) & 63;
      && g.Got? && |g.bytes| == (if want < 3 then want else 3)
      && g.bytes == [Octet0(v0, v1), Octet1(v1, v2), Octet2(v2, v3)][..|g.bytes|]
  {
    CodeCharacters(d0);
    CodeCharacters(d1);
    CodeCharacters(d2);
    CodeCharacters(d3);
  }

  lemma QuadsNext(line: seq<byte>, i: nat, want: nat)
    requires 0 < want && i < |line|
    ensures var g := Octets(CharAt(line, i), CharAt(line, i + 1), CharAt(line, i + 2), CharAt(line, i + 3), want);
      Quads(line, i, want) == if g.Dropped? then Dropped
        else Before(g.bytes, g.bad, Quads(line, i + 4, if want < 3 then 0 else want - 3))
  {
  }

  // The characters of the code are those from 32 to 96, and stand for six bits each,
  // zero for the first and for the last.
  lemma CodeCharacters(b: byte)
    ensures DecodeByte(b) < 64 <==> 32 <= b <= 96
    ensures 32 <= b <= 96 ==> DecodeByte(b) == (b - 32) & 63
    ensures b < 64 ==> 33 <= EncodeByte(b) <= 96 && (EncodeByte(b) - 32) & 63 == b
  {
  }

  // Whether a line of want bytes has a use for its character number j, counted from
  // the first one behind the length.
  predicate Needed(j: nat, want: nat)
  {
    3 * (j / 4) + (if j % 4 < 2 then 0 else j % 4 - 1) < want
  }

  ghost predicate Bad(line: seq<byte>, i: nat, want: nat)
  {
    exists j: nat :: Needed(j, want) && OutOf(CharAt(line, i + j))
  }

  ghost predicate Spoilt(line: seq<byte>, i: nat, want: nat)
  {
    exists j: nat :: Needed(j, want) && IsSpoilt(line, i, j)
  }

  lemma NeededLater(j: nat, want: nat)
    requires want > 0
    ensures Needed(j + 4, want) <==> Needed(j, if want < 3 then 0 else want - 3)
    ensures Needed(0, want) && Needed(1, want) && (Needed(2, want) <==> want > 1) && (Needed(3, want) <==> want > 2)
  {
  }

  lemma GroupIs(d0: byte, d1: byte, d2: byte, d3: byte, want: nat)
    requires want > 0
    ensures var g := Octets(d0, d1, d2, d3, want);
      && (g.Dropped? <==> Spoils(d0) || Spoils(d1) || (want > 1 && Spoils(d2)) || (want > 2 && Spoils(d3)))
      && (g.Got? ==> |g.bytes| == if want < 3 then want else 3)
      && (g.Got? ==>
            (g.bad <==> OutOf(d0) || OutOf(d1) || (want > 1 && OutOf(d2)) || (want > 2 && OutOf(d3))))
  {
  }

  predicate OutOf(c: byte)
  {
    !(32 <= c <= 96)
  }

  lemma SpoilsAre(c: byte)
    ensures Spoils(c) <==> c < 9 || 14 <= c <= 30 || c > 96
  {
  }

  lemma BadNext(line: seq<byte>, i: nat, want: nat)
    requires want > 0
    ensures Bad(line, i, want) <==>
      || OutOf(CharAt(line, i)) || OutOf(CharAt(line, i + 1)) || (want > 1 && OutOf(CharAt(line, i + 2)))
      || (want > 2 && OutOf(CharAt(line, i + 3))) || Bad(line, i + 4, if want < 3 then 0 else want - 3)
  {
    var rest := if want < 3 then 0 else want - 3;
    NeededLater(0, want);
    if Bad(line, i, want) {
      var j: nat :| Needed(j, want) && OutOf(CharAt(line, i + j));
      if j >= 4 {
        NeededLater(j - 4, want);
        assert Needed(j - 4, rest) && OutOf(CharAt(line, i + 4 + (j - 4)));
      }
    }
    if Bad(line, i + 4, rest) {
      var j: nat :| Needed(j, rest) && OutOf(CharAt(line, i + 4 + j));
      NeededLater(j, want);
      assert Needed(j + 4, want) && OutOf(CharAt(line, i + (j + 4)));
    }
    if OutOf(CharAt(line, i)) {
      assert Needed(0, want) && OutOf(CharAt(line, i + 0));
    }
  }

  lemma SpoiltNext(line: seq<byte>, i: nat, want: nat)
    requires want > 0 && i < |line|
    ensures Spoilt(line, i, want) <==>
      || Spoils(CharAt(line, i)) || Spoils(CharAt(line, i + 1)) || (want > 1 && Spoils(CharAt(line, i + 2)))
      || (want > 2 && Spoils(CharAt(line, i + 3))) || Spoilt(line, i + 4, if want < 3 then 0 else want - 3)
  {
    var rest := if want < 3 then 0 else want - 3;
    NeededLater(0, want);
    if Spoilt(line, i, want) {
      var j: nat :| Needed(j, want) && IsSpoilt(line, i, j);
      if j >= 4 {
        NeededLater(j - 4, want);
        assert Needed(j - 4, rest) && IsSpoilt(line, i + 4, j - 4);
      }
    }
    if Spoilt(line, i + 4, rest) {
      var j: nat :| Needed(j, rest) && IsSpoilt(line, i + 4, j);
      NeededLater(j, want);
      assert Needed(j + 4, want) && IsSpoilt(line, i, j + 4);
    }
    if Spoils(CharAt(line, i)) {
      assert Needed(0, want) && IsSpoilt(line, i, 0);
    } else if Spoils(CharAt(line, i + 1)) {
      assert Needed(1, want) && IsSpoilt(line, i, 1);
    } else if want > 1 && Spoils(CharAt(line, i + 2)) {
      assert Needed(2, want) && IsSpoilt(line, i, 2);
    } else if want > 2 && Spoils(CharAt(line, i + 3)) {
      assert Needed(3, want) && IsSpoilt(line, i, 3);
    }
  }

  // A part of a line is dropped exactly when it is spoilt; otherwise it gives all the
  // bytes wanted, and is bad exactly when a character it needs is none of the code.
  lemma {:induction false} QuadsAre(line: seq<byte>, i: nat, want: nat)
    ensures Quads(line, i, want).Dropped? <==> Spoilt(line, i, want)
    ensures Quads(line, i, want).Got? ==>
      |Quads(line, i, want).bytes| == want && (Quads(line, i, want).bad <==> Bad(line, i, want))
    decreases want
  {
    if want == 0 {
    } else if i >= |line| {
      assert Needed(0, want) && IsSpoilt(line, i, 0);
    } else {
      QuadsNext(line, i, want);
      GroupIs(CharAt(line, i), CharAt(line, i + 1), CharAt(line, i + 2), CharAt(line, i + 3), want);
      SpoiltNext(line, i, want);
      BadNext(line, i, want);
      QuadsAre(line, i + 4, if want < 3 then 0 else want - 3);
    }
  }

  // A character behind the last one spoils its line only where a group begins.
  predicate IsSpoilt(line: seq<byte>, i: nat, j: nat)
  {
    var c := CharAt(line, i + j);
    c < 9 || 14 <= c <= 30 || c > 96 || (j % 4 == 0 && i + j >= |line|)
  }

  function DecodeLine(line: seq<byte>): Decoding
    requires |line| > 0
  {
    var llen := DecodeByte(line[0]);
    if llen > 45 then Dropped else Quads(line, 1, llen as nat)
  }

  // The bytes of a text and how many of its lines were bad.
  datatype Outcome = Outcome(bytes: seq<byte>, badlines: nat)

  function Both(a: Outcome, b: Outcome): Outcome
  {
    Outcome(a.bytes + b.bytes, a.badlines + b.badlines)
  }

  lemma BothAssoc(a: Outcome, b: Outcome, c: Outcome)
    ensures Both(Both(a, b), c) == Both(a, Both(b, c))
  {
    Assoc(a.bytes, b.bytes, c.bytes);
  }

  // An empty line is passed over.
  function OneLine(line: seq<byte>): Outcome
  {
    if |line| == 0 then Outcome([], 0)
    else match DecodeLine(line)
      case Dropped => Outcome([], 1)
      case Got(bytes, bad) => Outcome(bytes, if bad then 1 else 0)
  }

  // A line is bad exactly when it announces more than 45 bytes, is spoilt, or has a
  // character it needs that is none of the code; in the last case it gives all its
  // bytes, and otherwise none.
  lemma LineIsBad(line: seq<byte>)
    requires |line| > 0
    ensures var n, o := DecodeByte(line[0]) as nat, OneLine(line);
      && (n > 45 || Spoilt(line, 1, n) ==> o == Outcome([], 1))
      && (n <= 45 && !Spoilt(line, 1, n) ==> |o.bytes| == n && o.badlines == if Bad(line, 1, n) then 1 else 0)
  {
    var n := DecodeByte(line[0]);
    assert n > 45 <==> n as nat > 45;
    QuadsAre(line, 1, n as nat);
  }

  // The finished lines of t, and what stands behind the last line end.
  function Lines(t: seq<byte>): seq<seq<byte>>
  {
    AllButLast(SplitFrom(t, 0, EOL))
  }

  function Leftover(t: seq<byte>): seq<byte>
  {
    SplitFrom(t, 0, EOL)[|SplitFrom(t, 0, EOL)| - 1]
  }

  function AllButLast(list: seq<seq<byte>>): seq<seq<byte>>
    requires |list| > 0
  {
    list[..|list| - 1]
  }

  function DecodeLines(lines: seq<seq<byte>>): Outcome
  {
    if |lines| == 0 then Outcome([], 0) else Both(OneLine(lines[0]), DecodeLines(lines[1..]))
  }

  function Decoded(t: seq<byte>): Outcome
  {
    DecodeLines(Lines(t))
  }

  lemma LinesMore(x: seq<byte>, list: seq<seq<byte>>)
    requires |list| > 0
    ensures AllButLast([x] + list) == [x] + AllButLast(list)
    ensures ([x] + list)[|[x] + list| - 1] == list[|list| - 1]
  {
  }

  // Text without a line end has no finished line.
  lemma NoLineEnd(t: seq<byte>)
    requires Free(t, EOL)
    ensures Decoded(t) == Outcome([], 0) && Leftover(t) == t
  {
    SplitOne(t, EOL);
    assert AllButLast([t]) == [];
  }

  lemma OneLineMore(line: seq<byte>, lines: seq<seq<byte>>)
    ensures DecodeLines([line] + lines) == Both(OneLine(line), DecodeLines(lines))
  {
    assert ([line] + lines)[1..] == lines;
  }

  lemma FirstLine(line: seq<byte>, c: byte, u: seq<byte>)
    requires Free(line, EOL) && c in EOL
    ensures Decoded(line + [c] + u) == Both(OneLine(line), Decoded(u))
    ensures Leftover(line + [c] + u) == Leftover(u)
  {
    SplitMore(line, c, u, EOL);
    LinesMore(line, SplitFrom(u, 0, EOL));
    OneLineMore(line, Lines(u));
  }

  // ---------- the encoder ----------

  function Byte(s: seq<byte>, i: nat): byte
  {
    if i < |s| then s[i] else 0
  }

  function Quad(c0: byte, c1: byte, c2: byte): seq<byte>
  {
    [EncodeByte((c0 & 0xFC) >> 2), EncodeByte(((c0 & 0x03) << 4) | ((c1 & 0xF0) >> 4)),
     EncodeByte(((c1 & 0x0F) << 2) | ((c2 & 0xC0) >> 6)), EncodeByte(c2 & 0x3F)]
  }

  function Groups(x: seq<byte>): seq<byte>
    decreases |x|
  {
    if |x| == 0 then []
    else Quad(x[0], Byte(x, 1), Byte(x, 2)) + Groups(if |x| < 3 then [] else x[3..])
  }

  function EncodedLine(x: seq<byte>): seq<byte>
    requires |x| <= UU_MAX_LINELEN
  {
    [EncodeByte(|x| as byte)] + Groups(x)
  }

  function LineLength(n: nat): (m: nat)
    ensures m <= n && m <= UU_MAX_LINELEN
  {
    if n < UU_MAX_LINELEN then n else UU_MAX_LINELEN
  }

  function Encoded(s: seq<byte>): seq<byte>
  {
    if |s| == 0 then []
    else EncodedLine(s[..LineLength(|s|)]) + EOL + Encoded(s[LineLength(|s|)..])
  }

  // The four characters of a group stand for the bits of its three bytes.
  lemma QuadHasBits(c0: byte, c1: byte, c2: byte) returns (v0: byte, v1: byte, v2: byte, v3: byte)
    ensures v0 < 64 && v1 < 64 && v2 < 64 && v3 < 64 && Sextets24(v0, v1, v2, v3) == Bytes24(c0, c1, c2)
    ensures Quad(c0, c1, c2) == [EncodeByte(v0), EncodeByte(v1), EncodeByte(v2), EncodeByte(v3)]
  {
    v0, v1 := (c0 & 0xFC) >> 2, ((c0 & 0x03) << 4) | ((c1 & 0xF0) >> 4);
    v2, v3 := ((c1 & 0x0F) << 2) | ((c2 & 0xC0) >> 6), c2 & 0x3F;
    SameBits(c0, c1, c2, v0, v1, v2, v3);
  }

  lemma SameBits(c0: byte, c1: byte, c2: byte, v0: byte, v1: byte, v2: byte, v3: byte)
    requires v0 == (c0 & 0xFC) >> 2 && v1 == ((c0 & 0x03) << 4) | ((c1 & 0xF0) >> 4)
    requires v2 == ((c1 & 0x0F) << 2) | ((c2 & 0xC0) >> 6) && v3 == c2 & 0x3F
    ensures v0 < 64 && v1 < 64 && v2 < 64 && v3 < 64 && Sextets24(v0, v1, v2, v3) == Bytes24(c0, c1, c2)
  {
  }

  // Group g of a line stands for its bytes from 3 * g on, with zeros for missing ones.
  lemma {:induction false} GroupsAt(x: seq<byte>, g: nat)
    requires 3 * g < |x|
    ensures 4 * g + 4 <= |Groups(x)|
      && Groups(x)[4 * g..4 * g + 4] == Quad(x[3 * g], Byte(x, 3 * g + 1), Byte(x, 3 * g + 2))
    decreases g
  {
    if g > 0 {
      GroupsAt(x[3..], g - 1);
      assert Groups(x) == Quad(x[0], Byte(x, 1), Byte(x, 2)) + Groups(x[3..]);
      assert Groups(x)[4..] == Groups(x[3..]);
      SliceOfSuffix(Groups(x), 4, 4 * g - 4, 4 * g);
    }
  }

  // Lines of 45 bytes and one with what is left, each with its length in front and a
  // carriage return and a line feed behind.
  lemma LinesOf45(x: seq<byte>, rest: seq<byte>)
    requires 0 < |x| <= 45 && (rest != [] ==> |x| == 45)
    ensures Encoded(x + rest) == [EncodeByte(|x| as byte)] + Groups(x) + [13, 10] + Encoded(rest)
  {
    assert (x + rest)[..|x|] == x && (x + rest)[|x|..] == rest;
  }

  // ---------- the round trip ----------

  lemma EncodeByteBack(v: byte)
    requires v < 64
    ensures DecodeByte(EncodeByte(v)) == v && EncodeByte(v) != 13 && EncodeByte(v) != 10
  {
  }

  lemma SextetsBack(c0: byte, c1: byte, c2: byte)
    ensures var q := Quad(c0, c1, c2);
      && DecodeByte(q[0]) < 64 && DecodeByte(q[1]) < 64 && DecodeByte(q[2]) < 64 && DecodeByte(q[3]) < 64
      && Octet0(DecodeByte(q[0]), DecodeByte(q[1])) == c0
      && Octet1(DecodeByte(q[1]), DecodeByte(q[2])) == c1
      && Octet2(DecodeByte(q[2]), DecodeByte(q[3])) == c2
  {
    EncodeByteBack((c0 & 0xFC) >> 2);
    EncodeByteBack(((c0 & 0x03) << 4) | ((c1 & 0xF0) >> 4));
    EncodeByteBack(((c1 & 0x0F) << 2) | ((c2 & 0xC0) >> 6));
    EncodeByteBack(c2 & 0x3F);
    Bits(c0, c1, c2);
  }

  lemma Bits(c0: byte, c1: byte, c2: byte)
    ensures Octet0((c0 & 0xFC) >> 2, ((c0 & 0x03) << 4) | ((c1 & 0xF0) >> 4)) == c0
    ensures Octet1(((c0 & 0x03) << 4) | ((c1 & 0xF0) >> 4), ((c1 & 0x0F) << 2) | ((c2 & 0xC0) >> 6)) == c1
    ensures Octet2(((c1 & 0x0F) << 2) | ((c2 & 0xC0) >> 6), c2 & 0x3F) == c2
  {
  }

  lemma QuadIsFree(c0: byte, c1: byte, c2: byte)
    ensures Free(Quad(c0, c1, c2), EOL)
  {
    EncodeByteBack((c0 & 0xFC) >> 2);
    EncodeByteBack(((c0 & 0x03) << 4) | ((c1 & 0xF0) >> 4));
    EncodeByteBack(((c1 & 0x0F) << 2) | ((c2 & 0xC0) >> 6));
    EncodeByteBack(c2 & 0x3F);
  }

  lemma {:induction false} GroupsAreFree(x: seq<byte>)
    ensures Free(Groups(x), EOL)
    ensures |Groups(x)| == 4 * ((|x| + 2) / 3)
    decreases |x|
  {
    if |x| > 0 {
      QuadIsFree(x[0], Byte(x, 1), Byte(x, 2));
      GroupsAreFree(if |x| < 3 then [] else x[3..]);
    }
  }

  // Four characters of the encoder give the bytes they stand for.
  lemma OctetsBack(x: seq<byte>)
    requires |x| > 0
    ensures var q := Quad(x[0], Byte(x, 1), Byte(x, 2));
      Octets(q[0], q[1], q[2], q[3], |x|) == Got(if |x| < 3 then x else x[..3], false)
  {
    SextetsBack(x[0], Byte(x, 1), Byte(x, 2));
  }

  lemma {:induction false} QuadsBack(line: seq<byte>, i: nat, x: seq<byte>)
    requires i <= |line| && line[i..] == Groups(x)
    ensures Quads(line, i, |x|) == Got(x, false)
    decreases |x|
  {
    if |x| > 0 {
      var q := Quad(x[0], Byte(x, 1), Byte(x, 2));
      var y := if |x| < 3 then [] else x[3..];
      QuadAhead(line, i, q, Groups(y));
      OctetsBack(x);
      QuadsNext(line, i, |x|);
      QuadsBack(line, i + 4, y);
      FirstThree(x, y);
    }
  }

  lemma QuadAhead(line: seq<byte>, i: nat, q: seq<byte>, rest: seq<byte>)
    requires i <= |line| && |q| == 4 && line[i..] == q + rest
    ensures i < |line| && CharAt(line, i) == q[0] && CharAt(line, i + 1) == q[1]
    ensures CharAt(line, i + 2) == q[2] && CharAt(line, i + 3) == q[3]
    ensures i + 4 <= |line| && line[i + 4..] == rest
  {
    assert |line[i..]| >= 4;
    assert line[i..][0] == q[0] && line[i..][1] == q[1] && line[i..][2] == q[2] && line[i..][3] == q[3];
    SuffixOfSuffix(line, i, 4);
  }

  lemma FirstThree(x: seq<byte>, y: seq<byte>)
    requires |x| > 0 && y == if |x| < 3 then [] else x[3..]
    ensures Before(if |x| < 3 then x else x[..3], false, Got(y, false)) == Got(x, false)
  {
  }

  lemma LineBack(x: seq<byte>)
    requires 0 < |x| <= UU_MAX_LINELEN
    ensures OneLine(EncodedLine(x)) == Outcome(x, 0)
    ensures Free(EncodedLine(x), EOL)
  {
    LengthBack(|x|);
    GroupsAreFree(x);
    assert EncodedLine(x)[1..] == Groups(x);
    QuadsBack(EncodedLine(x), 1, x);
  }

  lemma LengthBack(n: nat)
    requires n <= UU_MAX_LINELEN
    ensures DecodeByte(EncodeByte(n as byte)) <= 45 && DecodeByte(EncodeByte(n as byte)) as nat == n
    ensures EncodeByte(n as byte) !in EOL
  {
  }

  lemma LineFirst(line: seq<byte>, u: seq<byte>)
    requires Free(line, EOL)
    ensures Decoded(line + EOL + u) == Both(OneLine(line), Decoded(u))
    ensures Leftover(line + EOL + u) == Leftover(u)
  {
    FirstLine(line, 13, [10] + u);
    EmptyLine(10, u);
    TwoEnds(line, u);
  }

  lemma EmptyLine(c: byte, u: seq<byte>)
    requires c in EOL
    ensures Decoded([c] + u) == Decoded(u) && Leftover([c] + u) == Leftover(u)
  {
    NothingBefore(c, u);
    FirstLine([], c, u);
    BothNone(Decoded(u));
  }

  lemma NothingBefore(c: byte, u: seq<byte>)
    ensures [] + [c] + u == [c] + u
  {
  }

  lemma BothNone(o: Outcome)
    ensures Both(Outcome([], 0), o) == o == Both(o, Outcome([], 0))
  {
  }

  lemma TwoEnds(line: seq<byte>, u: seq<byte>)
    ensures line + EOL + u == line + [13] + ([10] + u)
  {
    assert EOL == [13] + [10];
  }

  // Every string is decoded again without a bad line and without anything left
  // over; the empty one is encoded as nothing.
  lemma {:induction false} DecodeUndoesEncode(s: seq<byte>)
    ensures Decoded(Encoded(s)) == Outcome(s, 0)
    ensures Leftover(Encoded(s)) == []
  {
    if |s| == 0 {
      NoLineEnd([]);
    } else {
      var m := LineLength(|s|);
      LineBack(s[..m]);
      LineFirst(EncodedLine(s[..m]), Encoded(s[m..]));
      DecodeUndoesEncode(s[m..]);
      assert s[..m] + s[m..] == s;
    }
  }

  // Text without a line end at its end is no finished line: this one gives a byte.
  lemma LeftoverMayGiveBytes()
    ensures Leftover([33, 33]) == [33, 33] && OneLine([33, 33]) == Outcome([0], 1)
  {
    NoLineEnd([33, 33]);
    assert Octets(33, 31, 31, 31, 1) == Got([0], true);
    assert Quads([33, 33], 1, 1) == Before([0], true, Quads([33, 33], 5, 0));
  }
}

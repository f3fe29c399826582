// base64 with the line breaks of RFC 1341: the encoder, the decoder, and the round
// trip.
module Base64 {
  import opened Bstrings
  import opened Growth
  import opened Memory
  import opened Sextets

  const CR: byte := 13
  const LF: byte := 10
  const PAD: byte := 61

  datatype Symbol = Value(v: byte) | Pad | Junk

  // The table b64ETable.
  function Letter(v: byte): byte
  {
    if v < 26 then v + 65
    else if v < 52 then v - 26 + 97
    else if v < 62 then v - 52 + 48
    else if v == 62 then 43
    else 47
  }

  // base64DecodeSymbol
  function DecodeSymbol(alpha: byte): Symbol
  {
    if 65 <= alpha <= 90 then Value(alpha - 65)
    else if 97 <= alpha <= 122 then Value(26 + (alpha - 97))
    else if 48 <= alpha <= 57 then Value(52 + (alpha - 48))
    else if alpha == 43 then Value(62)
    else if alpha == 47 then Value(63)
    else if alpha == PAD then Pad
    else Junk
  }

  lemma LetterBack(v: byte)
    requires v < 64
    ensures DecodeSymbol(Letter(v)) == Value(v)
  {
  }

  // The four sextets of three bytes.
  function Sextet0(b0: byte): byte { b0 >> 2 }
  function Sextet1(b0: byte, b1: byte): byte { ((b0 << 4) | (b1 >> 4)) & 0x3F }
  function Sextet2(b1: byte, b2: byte): byte { ((b1 << 2) | (b2 >> 6)) & 0x3F }
  function Sextet3(b2: byte): byte { b2 & 0x3F }

  // The sextets have the bits of the bytes, in their order.
  lemma SextetsHaveBits(b0: byte, b1: byte, b2: byte)
    ensures Sextets24(Sextet0(b0), Sextet1(b0, b1), Sextet2(b1, b2), Sextet3(b2)) == Bytes24(b0, b1, b2)
  {
  }

  // The alphabet of RFC 1341, section 5.2.
  lemma Alphabet(v: byte)
    requires v < 64
    ensures v < 26 ==> Letter(v) == 'A' as byte + v
    ensures 26 <= v < 52 ==> Letter(v) == 'a' as byte + (v - 26)
    ensures 52 <= v < 62 ==> Letter(v) == '0' as byte + (v - 52)
    ensures Letter(62) == '+' as byte && Letter(63) == '/' as byte && PAD == '=' as byte
  {
  }

  lemma SextetsBack(b0: byte, b1: byte, b2: byte)
    ensures Sextet0(b0) < 64 && Sextet1(b0, b1) < 64 && Sextet2(b1, b2) < 64 && Sextet3(b2) < 64
    ensures Octet0(Sextet0(b0), Sextet1(b0, b1)) == b0
    ensures Octet1(Sextet1(b0, b1), Sextet2(b1, b2)) == b1
    ensures Octet2(Sextet2(b1, b2), Sextet3(b2)) == b2
  {
  }

  // The last group has zeros where bytes are missing.
  lemma ZeroSextets(b0: byte)
    ensures Sextet1(b0, 0) == (b0 << 4) & 0x3F && Sextet2(b0, 0) == (b0 << 2) & 0x3F
  {
  }

  // ---------- the encoder ----------

  function Quad(b0: byte, b1: byte, b2: byte): seq<byte>
  {
    [Letter(Sextet0(b0)), Letter(Sextet1(b0, b1)), Letter(Sextet2(b1, b2)), Letter(Sextet3(b2))]
  }

  // The encoding of what does not fill a group of three.
  function LastGroup(s: seq<byte>): seq<byte>
    requires |s| < 3
  {
    if |s| == 0 then []
    else if |s| == 1 then [Letter(Sextet0(s[0])), Letter(Sextet1(s[0], 0)), PAD, PAD]
    else [Letter(Sextet0(s[0])), Letter(Sextet1(s[0], s[1])), Letter(Sextet2(s[1], 0)), PAD]
  }

  // The encoding of s on a line that shows col bytes already; a line of 57 is full.
  function Encoding(s: seq<byte>, col: nat): seq<byte>
    decreases |s|, col
  {
    if col >= 57 then [CR, LF] + Encoding(s, 0)
    else if |s| < 3 then LastGroup(s)
    else Quad(s[0], s[1], s[2]) + Encoding(s[3..], col + 3)
  }

  function Encoded(s: seq<byte>): seq<byte>
  {
    Encoding(s, 0)
  }

  // Where everything stands: a group of letters for three bytes each, two characters
  // further for every nineteen groups, and the padded rest at the end.
  lemma EncodedAt(s: seq<byte>, g: nat)
    requires 3 * g <= |s|
    ensures var t, at := Encoded(s), 4 * g + 2 * (g / 19);
      && at <= |t|
      && (3 * g + 3 <= |s| ==> at + 4 <= |t| && t[at..at + 4] == Quad(s[3 * g], s[3 * g + 1], s[3 * g + 2]))
      && (3 * g + 3 > |s| ==> t[at..] == LastGroup(s[3 * g..]))
  {
    var rest, at, col := s[3 * g..], 4 * g + 2 * (g / 19), 3 * (g % 19);
    EncodingFrom(s, 0, 0, g, g / 19, g % 19, at, rest);
    if |rest| >= 3 {
      QuadAt(Encoded(s), at, rest, col);
    } else {
      LastEncoding(rest, col);
    }
  }

  // The rest is written as if zeros followed, with a '=' for each of them.
  lemma LastGroupIs(s: seq<byte>)
    requires |s| < 3
    ensures |s| == 0 ==> LastGroup(s) == []
    ensures |s| == 1 ==> LastGroup(s) == Quad(s[0], 0, 0)[..2] + [61, 61]
    ensures |s| == 2 ==> LastGroup(s) == Quad(s[0], s[1], 0)[..3] + [61]
  {
  }

  // A carriage return and a line feed stand behind every 57 bytes.
  lemma BreakAt(s: seq<byte>, j: nat)
    requires 1 <= j && 57 * j <= |s|
    ensures 78 * j <= |Encoded(s)| && Encoded(s)[78 * j - 2..78 * j] == [13, 10]
  {
    var rest := s[57 * j..];
    EncodingFrom(s, 0, 0, 19 * j, j - 1, 19, 78 * j - 2, rest);
    FullLine(Encoded(s), 78 * j - 2, rest);
  }

  lemma FullLine(t: seq<byte>, at: nat, rest: seq<byte>)
    requires at <= |t| && t[at..] == Encoding(rest, 57)
    ensures at + 2 <= |t| && t[at..at + 2] == [13, 10]
  {
    SliceOfSuffix(t, at, 0, 2);
  }

  lemma QuadAt(t: seq<byte>, at: nat, rest: seq<byte>, col: nat)
    requires at <= |t| && |rest| >= 3 && col < 57 && t[at..] == Encoding(rest, col)
    ensures at + 4 <= |t| && t[at..at + 4] == Quad(rest[0], rest[1], rest[2])
  {
    QuadFirst(rest, rest[3..], col);
    SliceOfSuffix(t, at, 0, 4);
  }

  // The encoding with k groups, of col bytes, on the current line: behind g groups more
  // and q line breaks it goes on with the rest, r groups being on the line then.
  lemma {:induction false} EncodingFrom(s: seq<byte>, k: nat, col: nat, g: nat, q: nat, r: nat, at: nat,
                                        rest: seq<byte>)
    requires k <= 19 && col == 3 * k && k + g == 19 * q + r && r <= 19
    requires 3 * g <= |s| && at == 4 * g + 2 * q && rest == s[3 * g..]
    ensures at <= |Encoding(s, col)| && Encoding(s, col)[at..] == Encoding(rest, 3 * r)
    decreases |s|, k
  {
    if g == 0 && q == 0 {
      AllFrom(s);
      AllFrom(Encoding(s, col));
    } else if k == 19 {
      EncodingFrom(s, 0, 0, g, q - 1, r, at - 2, rest);
      BehindBreak(s);
      SuffixOfSuffix(Encoding(s, col), 2, at - 2);
    } else {
      ThreeLess(s, g);
      EncodingFrom(s[3..], k + 1, col + 3, g - 1, q, r, at - 4, rest);
      BehindQuad(s, col);
      SuffixOfSuffix(Encoding(s, col), 4, at - 4);
    }
  }

  lemma AllFrom(s: seq<byte>)
    ensures s[0..] == s
  {
  }

  lemma ThreeLess(s: seq<byte>, g: nat)
    requires 0 < 3 * g <= |s|
    ensures s[3..][3 * (g - 1)..] == s[3 * g..]
  {
    SuffixOfSuffix(s, 3, 3 * (g - 1));
  }

  lemma BehindBreak(s: seq<byte>)
    ensures |Encoding(s, 57)| >= 2 && Encoding(s, 57)[2..] == Encoding(s, 0)
  {
  }

  lemma BehindQuad(s: seq<byte>, col: nat)
    requires |s| >= 3 && col < 57
    ensures |Encoding(s, col)| >= 4 && Encoding(s, col)[4..] == Encoding(s[3..], col + 3)
  {
  }

  // Bytes on the current line after i bytes.
  function Column(i: nat): nat
  {
    if i > 0 && i % 57 == 0 then 57 else i % 57
  }

  function EncodedLength(n: nat): nat
  {
    4 * ((n + 2) / 3) + 2 * (n / 57)
  }

  lemma {:induction false} EncodingLength(s: seq<byte>, col: nat)
    requires col <= 57 && col % 3 == 0
    ensures |Encoding(s, col)| == 4 * ((|s| + 2) / 3) + 2 * ((|s| + col) / 57)
    decreases |s|, col
  {
    if col == 57 {
      EncodingLength(s, 0);
      NextLine(|s|);
    } else if |s| >= 3 {
      EncodingLength(s[3..], col + 3);
    }
  }

  lemma NextLine(n: nat)
    ensures (n + 57) / 57 == n / 57 + 1
  {
  }

  // 4 characters for every 3 bytes or part of them, and a line break for every 57.
  lemma EncodedHasLength(s: seq<byte>)
    ensures |Encoded(s)| == EncodedLength(|s|)
  {
    EncodingLength(s, 0);
  }

  // A stretch of text without a line break.
  ghost predicate Unbroken(t: seq<byte>, i: nat, j: nat)
  {
    i <= j <= |t| && forall k :: i <= k < j ==> t[k] != CR && t[k] != LF
  }

  lemma {:induction false} StretchesFit(s: seq<byte>, col: nat, i: nat, j: nat)
    requires col <= 57 && col % 3 == 0 && Unbroken(Encoding(s, col), i, j)
    ensures j - i <= 76
    ensures i == 0 ==> j <= 76 - 4 * (col / 3)
    decreases |s|, col
  {
    var t := Encoding(s, col);
    if col == 57 {
      assert t[0] == CR && t[1] == LF;
      if i >= 2 {
        Later([CR, LF], Encoding(s, 0), i, j);
        StretchesFit(s, 0, i - 2, j - 2);
      }
    } else if |s| >= 3 && j > 4 {
      var q := Quad(s[0], s[1], s[2]);
      var i' := if i < 4 then 4 else i;
      Later(q, Encoding(s[3..], col + 3), i', j);
      StretchesFit(s[3..], col + 3, i' - 4, j - 4);
    }
  }

  lemma Later(a: seq<byte>, b: seq<byte>, i: nat, j: nat)
    requires |a| <= i && Unbroken(a + b, i, j)
    ensures Unbroken(b, i - |a|, j - |a|)
  {
    forall k | i - |a| <= k < j - |a|
      ensures b[k] != CR && b[k] != LF
    {
      assert b[k] == (a + b)[|a| + k];
    }
  }

  // No line has more than 76 characters.
  lemma LinesFit(s: seq<byte>, i: nat, j: nat)
    requires Unbroken(Encoded(s), i, j)
    ensures j - i <= 76
  {
    StretchesFit(s, 0, i, j);
  }

  // ---------- the decoder ----------

  // What is left once the characters without a meaning are skipped.
  function Skip(t: seq<byte>): seq<byte>
  {
    if |t| > 0 && DecodeSymbol(t[0]) == Junk then Skip(t[1..]) else t
  }

  lemma {:induction false} SkipShortens(t: seq<byte>)
    ensures |Skip(t)| <= |t|
    ensures |Skip(t)| > 0 ==> DecodeSymbol(Skip(t)[0]) != Junk
  {
    if |t| > 0 && DecodeSymbol(t[0]) == Junk {
      SkipShortens(t[1..]);
    }
  }

  // The decoded bytes, and whether the text breaks off too early.
  datatype Outcome = Outcome(bytes: seq<byte>, truncated: bool)

  // One group of four: the bytes it gives, and the text behind it if the decoder
  // goes on.
  datatype Group = Last(bytes: seq<byte>, truncated: bool) | More(bytes: seq<byte>, rest: seq<byte>)

  function NextGroup(t: seq<byte>): Group
  {
    var u := Skip(t);
    if |u| == 0 then Last([], false)
    else if u[0] == PAD then Last([], true)
    else AfterOne(u[0], u[1..])
  }

  function AfterOne(a0: byte, t: seq<byte>): Group
  {
    var u := Skip(t);
    if |u| == 0 || u[0] == PAD then Last([], true)
    else AfterTwo(a0, u[0], u[1..])
  }

  function AfterTwo(a0: byte, a1: byte, t: seq<byte>): Group
  {
    var u := Skip(t);
    if |u| == 0 then Last([], true)
    else if u[0] == PAD then
      if |u| > 1 && u[1] == PAD then Last([FirstOctet(a0, a1)], false) else Last([], true)
    else AfterThree(a0, a1, u[0], u[1..])
  }

  function AfterThree(a0: byte, a1: byte, a2: byte, t: seq<byte>): Group
  {
    var u := Skip(t);
    if |u| == 0 then Last([], true)
    else if u[0] == PAD then Last([FirstOctet(a0, a1), SecondOctet(a1, a2)], false)
    else More([FirstOctet(a0, a1), SecondOctet(a1, a2), ThirdOctet(a2, u[0])], u[1..])
  }

  function Of(alpha: byte): byte
  {
    var s := DecodeSymbol(alpha);
    if s.Value? then s.v else 0
  }

  function FirstOctet(x: byte, y: byte): byte { Octet0(Of(x), Of(y)) }
  function SecondOctet(x: byte, y: byte): byte { Octet1(Of(x), Of(y)) }
  function ThirdOctet(x: byte, y: byte): byte { Octet2(Of(x), Of(y)) }

  // A group never gives more bytes than it takes characters.
  lemma GroupOfThree(t: seq<byte>)
    ensures var g := NextGroup(t);
      |g.bytes| <= 3 && (g.More? ==> |t| - |g.rest| >= 4)
  {
    SkipShortens(t);
    if |Skip(t)| > 0 {
      var t1 := Skip(t)[1..];
      SkipShortens(t1);
      if |Skip(t1)| > 0 {
        var t2 := Skip(t1)[1..];
        SkipShortens(t2);
        if |Skip(t2)| > 0 {
          SkipShortens(Skip(t2)[1..]);
        }
      }
    }
  }

  function Decoded(t: seq<byte>): Outcome
    decreases |t|
  {
    GroupOfThree(t);
    match NextGroup(t)
    case Last(bytes, truncated) => Outcome(bytes, truncated)
    case More(bytes, rest) =>
      var o := Decoded(rest);
      Outcome(bytes + o.bytes, o.truncated)
  }

  lemma DecodedMore(t: seq<byte>)
    requires NextGroup(t).More?
    ensures var o := Decoded(NextGroup(t).rest);
      Decoded(t) == Outcome(NextGroup(t).bytes + o.bytes, o.truncated)
  {
    GroupOfThree(t);
  }

  lemma ThreeAndRest(s: seq<byte>)
    requires |s| >= 3
    ensures s == [s[0], s[1], s[2]] + s[3..]
  {
  }

  // The sextets of the characters with a meaning, up to the first '='.
  function Values(t: seq<byte>): seq<byte>
  {
    if |t| == 0 || t[0] == PAD then []
    else (if DecodeSymbol(t[0]).Value? then [DecodeSymbol(t[0]).v] else []) + Values(t[1..])
  }

  // The text from the first '=' on.
  function Padding(t: seq<byte>): seq<byte>
  {
    if |t| == 0 || t[0] == PAD then t else Padding(t[1..])
  }

  // A text breaks off too early when, at its end, a group has begun, or when the first
  // '=' is not behind two characters of a group, with another one next to it, or
  // behind three.
  predicate BreaksOff(n: nat, padding: seq<byte>)
  {
    if padding == [] then n % 4 != 0
    else n % 4 < 2 || (n % 4 == 2 && (|padding| < 2 || padding[1] != 61))
  }

  // What the next character with a meaning is.
  lemma {:induction false} NextSymbol(t: seq<byte>)
    ensures var u := Skip(t);
      && (|u| == 0 || u[0] == PAD ==> Values(t) == [] && Padding(t) == u)
      && (|u| > 0 && u[0] != PAD ==>
            && DecodeSymbol(u[0]) == Value(Of(u[0]))
            && Values(t) == [Of(u[0])] + Values(u[1..]) && Padding(t) == Padding(u[1..]))
  {
    if |t| > 0 && DecodeSymbol(t[0]) == Junk {
      NextSymbol(t[1..]);
    }
  }

  // A group takes four of the sextets v, or there are fewer and it ends the decoding.
  ghost predicate TakesFour(g: Group, v: seq<byte>, padding: seq<byte>)
  {
    match g
    case More(bytes, rest) =>
      && |v| >= 4 && v[4..] == Values(rest) && Padding(rest) == padding
      && bytes == [Octet0(v[0], v[1]), Octet1(v[1], v[2]), Octet2(v[2], v[3])]
    case Last(bytes, truncated) =>
      && |v| < 4 && truncated == BreaksOff(|v|, padding)
      && (truncated || |v| < 2 ==> bytes == [])
      && (!truncated && |v| == 2 ==> bytes == [Octet0(v[0], v[1])])
      && (!truncated && |v| == 3 ==> bytes == [Octet0(v[0], v[1]), Octet1(v[1], v[2])])
  }

  lemma ThreeBehind(a0: byte, a1: byte, a2: byte, t: seq<byte>)
    ensures TakesFour(AfterThree(a0, a1, a2, t), [Of(a0), Of(a1), Of(a2)] + Values(t), Padding(t))
  {
    NextSymbol(t);
  }

  lemma TwoBehind(a0: byte, a1: byte, t: seq<byte>)
    ensures TakesFour(AfterTwo(a0, a1, t), [Of(a0), Of(a1)] + Values(t), Padding(t))
  {
    NextSymbol(t);
    var u := Skip(t);
    if |u| > 0 && u[0] != PAD {
      ThreeBehind(a0, a1, u[0], u[1..]);
      ThreeInFront(Of(a0), Of(a1), Of(u[0]), Values(u[1..]));
    } else {
      TwoAtTheEnd(a0, a1, u);
      assert [Of(a0), Of(a1)] + [] == [Of(a0), Of(a1)];
    }
  }

  lemma TwoAtTheEnd(a0: byte, a1: byte, padding: seq<byte>)
    requires |padding| > 0 ==> padding[0] == PAD
    ensures var g := if |padding| > 1 && padding[1] == PAD then Last([FirstOctet(a0, a1)], false) else Last([], true);
      TakesFour(g, [Of(a0), Of(a1)], padding)
  {
  }

  lemma ThreeInFront(x: byte, y: byte, z: byte, v: seq<byte>)
    ensures [x, y] + ([z] + v) == [x, y, z] + v
    ensures [x] + ([y] + v) == [x, y] + v
  {
  }

  lemma OneBehind(a0: byte, t: seq<byte>)
    ensures TakesFour(AfterOne(a0, t), [Of(a0)] + Values(t), Padding(t))
  {
    NextSymbol(t);
    var u := Skip(t);
    if |u| > 0 && u[0] != PAD {
      TwoBehind(a0, u[0], u[1..]);
      ThreeInFront(Of(a0), Of(u[0]), 0, Values(u[1..]));
    } else {
      assert [Of(a0)] + [] == [Of(a0)];
      assert TakesFour(Last([], true), [Of(a0)], u);
    }
  }

  lemma GroupTakesFour(t: seq<byte>)
    ensures TakesFour(NextGroup(t), Values(t), Padding(t))
  {
    NextSymbol(t);
    var u := Skip(t);
    if |u| > 0 && u[0] != PAD {
      OneBehind(u[0], u[1..]);
    }
  }

  // Three bytes for every four sextets, and one or two for the rest if it is padded as
  // it should be; q and r say which byte.
  ghost predicate Regrouped(o: Outcome, v: seq<byte>, padding: seq<byte>, q: nat, r: nat)
  {
    && Counted(o, |v|, padding)
    && (3 * q + r < |o.bytes| && r < 3 ==> 4 * q + r + 1 < |v| && o.bytes[3 * q + r] == OctetAt(v, 4 * q, r))
  }

  ghost predicate Counted(o: Outcome, n: nat, padding: seq<byte>)
  {
    && o.truncated == BreaksOff(n, padding)
    && |o.bytes| == 3 * (n / 4) + (if o.truncated || n % 4 < 2 then 0 else n % 4 - 1)
  }

  // Byte r of the group of sextets from at on.
  function OctetAt(v: seq<byte>, at: nat, r: nat): byte
    requires at + r + 1 < |v| && r < 3
  {
    if r == 0 then Octet0(v[at], v[at + 1])
    else if r == 1 then Octet1(v[at + 1], v[at + 2])
    else Octet2(v[at + 2], v[at + 3])
  }

  lemma NoGroup(g: Group, v: seq<byte>, padding: seq<byte>, q: nat, r: nat)
    requires g.Last? && TakesFour(g, v, padding)
    ensures Regrouped(Outcome(g.bytes, g.truncated), v, padding, q, r)
  {
  }

  lemma FourMore(x: seq<byte>, o: Outcome, v: seq<byte>, padding: seq<byte>, q: nat, r: nat)
    requires |v| >= 4 && x == [Octet0(v[0], v[1]), Octet1(v[1], v[2]), Octet2(v[2], v[3])]
    requires Regrouped(o, v[4..], padding, if q > 0 then q - 1 else 0, r)
    ensures Regrouped(Outcome(x + o.bytes, o.truncated), v, padding, q, r)
  {
    CountMore(x, o, |v|, padding);
    if q > 0 && 3 * q + r < |x + o.bytes| && r < 3 {
      ByteBehind(x, o.bytes, 3 * (q - 1) + r);
      OctetBehind(v, 4 * (q - 1), r);
    }
  }

  lemma CountMore(x: seq<byte>, o: Outcome, n: nat, padding: seq<byte>)
    requires n >= 4 && |x| == 3 && Counted(o, n - 4, padding)
    ensures Counted(Outcome(x + o.bytes, o.truncated), n, padding)
  {
    FourFewer(n);
  }

  lemma ByteBehind(x: seq<byte>, bytes: seq<byte>, k: nat)
    requires |x| == 3 && k < |bytes|
    ensures (x + bytes)[k + 3] == bytes[k]
  {
  }

  lemma OctetBehind(v: seq<byte>, at: nat, r: nat)
    requires |v| >= 4 && r < 3 && at + r + 1 < |v[4..]|
    ensures OctetAt(v[4..], at, r) == OctetAt(v, at + 4, r)
  {
  }

  lemma FourFewer(n: nat)
    requires n >= 4
    ensures (n - 4) / 4 == n / 4 - 1 && (n - 4) % 4 == n % 4
  {
  }

  // The flag and the bytes, from the characters with a meaning alone.
  lemma {:induction false} DecodedIs(t: seq<byte>, q: nat, r: nat)
    ensures Regrouped(Decoded(t), Values(t), Padding(t), q, r)
    decreases |t|
  {
    GroupTakesFour(t);
    GroupOfThree(t);
    var g := NextGroup(t);
    if g.More? {
      DecodedMore(t);
      DecodedIs(g.rest, if q > 0 then q - 1 else 0, r);
      FourMore(g.bytes, Decoded(g.rest), Values(t), Padding(t), q, r);
    } else {
      NoGroup(g, Values(t), Padding(t), q, r);
    }
  }

  // ---------- the round trip ----------

  lemma QuadBack(b0: byte, b1: byte, b2: byte, u: seq<byte>)
    ensures NextGroup(Quad(b0, b1, b2) + u) == More([b0, b1, b2], u)
  {
    var q := Quad(b0, b1, b2);
    SextetsBack(b0, b1, b2);
    LetterBack(Sextet0(b0));
    LetterBack(Sextet1(b0, b1));
    LetterBack(Sextet2(b1, b2));
    LetterBack(Sextet3(b2));
    QuadTails(q, u);
  }

  lemma QuadTails(q: seq<byte>, u: seq<byte>)
    requires |q| == 4
    requires forall k :: 0 <= k < 4 ==> DecodeSymbol(q[k]).Value?
    ensures NextGroup(q + u) == More([FirstOctet(q[0], q[1]), SecondOctet(q[1], q[2]), ThirdOctet(q[2], q[3])], u)
  {
    var t := q + u;
    assert t[0] == q[0] && t[1] == q[1] && t[2] == q[2] && t[3] == q[3];
    assert t[1..][1..] == t[2..] && t[2..][1..] == t[3..] && t[3..][1..] == u;
    assert t[1..][0] == q[1] && t[2..][0] == q[2] && t[3..][0] == q[3];
  }

  lemma LastGroupBack(s: seq<byte>)
    requires |s| < 3
    ensures Decoded(LastGroup(s)) == Outcome(s, false)
  {
    var t := LastGroup(s);
    if |s| == 1 {
      SextetsBack(s[0], 0, 0);
      LetterBack(Sextet0(s[0]));
      LetterBack(Sextet1(s[0], 0));
      assert t[1..][1..] == [PAD, PAD];
      assert Skip([PAD, PAD]) == [PAD, PAD];
    } else if |s| == 2 {
      SextetsBack(s[0], s[1], 0);
      LetterBack(Sextet0(s[0]));
      LetterBack(Sextet1(s[0], s[1]));
      LetterBack(Sextet2(s[1], 0));
      assert t[1..][1..] == [t[2], PAD] && t[1..][1..][1..] == [PAD];
    }
  }

  lemma BreakSkipped(u: seq<byte>)
    ensures Decoded([CR, LF] + u) == Decoded(u)
  {
    var t := [CR, LF] + u;
    assert t[1..] == [LF] + u && t[1..][1..] == u;
    assert Skip(t) == Skip(u);
  }

  // Lines are 19 groups long; k of them stand on the current one.
  lemma {:induction false} EncodingBack(s: seq<byte>, k: nat)
    requires k <= 19
    ensures Decoded(Encoding(s, 3 * k)) == Outcome(s, false)
    decreases |s|, k
  {
    if k == 19 {
      EncodingBack(s, 0);
      BreakSkipped(Encoding(s, 0));
    } else if |s| < 3 {
      LastEncoding(s, 3 * k);
      LastGroupBack(s);
    } else {
      EncodingBack(s[3..], k + 1);
      QuadBackFirst(s, 3 * k);
    }
  }

  lemma QuadBackFirst(s: seq<byte>, col: nat)
    requires |s| >= 3 && col < 57 && Decoded(Encoding(s[3..], col + 3)) == Outcome(s[3..], false)
    ensures Decoded(Encoding(s, col)) == Outcome(s, false)
  {
    QuadFirst(s, s[3..], col);
    ThreeBack(s, Encoding(s[3..], col + 3));
  }

  lemma ThreeBack(s: seq<byte>, u: seq<byte>)
    requires |s| >= 3 && Decoded(u) == Outcome(s[3..], false)
    ensures Decoded(Quad(s[0], s[1], s[2]) + u) == Outcome(s, false)
  {
    QuadBack(s[0], s[1], s[2], u);
    DecodedMore(Quad(s[0], s[1], s[2]) + u);
    ThreeAndRest(s);
  }

  // Decoding undoes encoding, for every string.
  lemma DecodeUndoesEncode(s: seq<byte>)
    ensures Decoded(Encoded(s)) == Outcome(s, false)
  {
    EncodingBack(s, 0);
  }

  // ---------- characters without a meaning ----------

  // The groups read from a + [j] + b and from a + b: the same, or the same so far.
  ghost predicate Twins(g: Group, h: Group, a: seq<byte>, j: byte, b: seq<byte>)
  {
    g == h ||
    (g.More? && h.More? && g.bytes == h.bytes && exists n :: 0 < n <= |a| && TwinRests(g.rest, h.rest, a, n, j, b))
  }

  ghost predicate TwinRests(x: seq<byte>, y: seq<byte>, a: seq<byte>, n: nat, j: byte, b: seq<byte>)
    requires n <= |a|
  {
    x == a[n..] + ([j] + b) && y == a[n..] + b
  }

  lemma NothingBefore(x: seq<byte>)
    ensures [] + x == x
  {
  }

  lemma TailOneOn(a: seq<byte>, m: nat)
    requires m < |a|
    ensures m + 1 < |a| ==> a[1..][m] == a[m + 1] && a[1..][m + 1..] == a[m + 2..]
  {
  }

  // Either the skipping ends inside a, at n, or it goes past j as well.
  lemma {:induction false} SkipBoth(a: seq<byte>, j: byte, b: seq<byte>) returns (n: nat)
    requires DecodeSymbol(j) == Junk
    ensures n <= |a|
    ensures n == |a| ==> Skip(a + ([j] + b)) == Skip(a + b)
    ensures n < |a| ==>
      Skip(a + ([j] + b)) == [a[n]] + (a[n + 1..] + ([j] + b)) && Skip(a + b) == [a[n]] + (a[n + 1..] + b)
  {
    if |a| == 0 {
      Front(j, b);
      NothingBefore([j] + b);
      NothingBefore(b);
      n := 0;
    } else {
      Shape(a, [j] + b);
      Shape(a, b);
      n := 0;
      if DecodeSymbol(a[0]) == Junk {
        var m := SkipBoth(a[1..], j, b);
        Front(a[0], a[1..] + ([j] + b));
        Front(a[0], a[1..] + b);
        n := m + 1;
        TailOneOn(a, m);
      }
    }
  }

  lemma Shape(a: seq<byte>, u: seq<byte>)
    requires |a| > 0
    ensures a + u == [a[0]] + (a[1..] + u)
  {
  }

  lemma Front(x: byte, u: seq<byte>)
    ensures ([x] + u)[0] == x && ([x] + u)[1..] == u
    ensures Skip([x] + u) == if DecodeSymbol(x) == Junk then Skip(u) else [x] + u
  {
  }

  lemma TwinsWider(g: Group, h: Group, a: seq<byte>, m: nat, j: byte, b: seq<byte>)
    requires m <= |a| && Twins(g, h, a[m..], j, b)
    ensures Twins(g, h, a, j, b)
  {
    if g != h {
      var n :| 0 < n <= |a[m..]| && TwinRests(g.rest, h.rest, a[m..], n, j, b);
      SuffixOfSuffix(a, m, n);
      assert TwinRests(g.rest, h.rest, a, m + n, j, b);
    }
  }

  ghost predicate NoPad(a: seq<byte>)
  {
    forall k :: 0 <= k < |a| ==> a[k] != PAD
  }

  lemma TwinsAfterThree(a0: byte, a1: byte, a2: byte, a: seq<byte>, j: byte, b: seq<byte>)
    requires DecodeSymbol(j) == Junk && NoPad(a)
    ensures Twins(AfterThree(a0, a1, a2, a + ([j] + b)), AfterThree(a0, a1, a2, a + b), a, j, b)
  {
    var n := SkipBoth(a, j, b);
    if n < |a| {
      Front(a[n], a[n + 1..] + ([j] + b));
      Front(a[n], a[n + 1..] + b);
      assert TwinRests(a[n + 1..] + ([j] + b), a[n + 1..] + b, a, n + 1, j, b);
    }
  }

  lemma TwinsAfterTwo(a0: byte, a1: byte, a: seq<byte>, j: byte, b: seq<byte>)
    requires DecodeSymbol(j) == Junk && NoPad(a)
    ensures Twins(AfterTwo(a0, a1, a + ([j] + b)), AfterTwo(a0, a1, a + b), a, j, b)
  {
    var n := SkipBoth(a, j, b);
    if n < |a| {
      var x, y := a[n + 1..] + ([j] + b), a[n + 1..] + b;
      Front(a[n], x);
      Front(a[n], y);
      TwinsAfterThree(a0, a1, a[n], a[n + 1..], j, b);
      TwinsWider(AfterThree(a0, a1, a[n], x), AfterThree(a0, a1, a[n], y), a, n + 1, j, b);
    }
  }

  lemma TwinsAfterOne(a0: byte, a: seq<byte>, j: byte, b: seq<byte>)
    requires DecodeSymbol(j) == Junk && NoPad(a)
    ensures Twins(AfterOne(a0, a + ([j] + b)), AfterOne(a0, a + b), a, j, b)
  {
    var n := SkipBoth(a, j, b);
    if n < |a| {
      var x, y := a[n + 1..] + ([j] + b), a[n + 1..] + b;
      Front(a[n], x);
      Front(a[n], y);
      TwinsAfterTwo(a0, a[n], a[n + 1..], j, b);
      TwinsWider(AfterTwo(a0, a[n], x), AfterTwo(a0, a[n], y), a, n + 1, j, b);
    }
  }

  lemma TwinGroups(a: seq<byte>, j: byte, b: seq<byte>)
    requires DecodeSymbol(j) == Junk && NoPad(a)
    ensures Twins(NextGroup(a + ([j] + b)), NextGroup(a + b), a, j, b)
  {
    var n := SkipBoth(a, j, b);
    if n < |a| {
      var x, y := a[n + 1..] + ([j] + b), a[n + 1..] + b;
      Front(a[n], x);
      Front(a[n], y);
      TwinsAfterOne(a[n], a[n + 1..], j, b);
      TwinsWider(AfterOne(a[n], x), AfterOne(a[n], y), a, n + 1, j, b);
    }
  }

  // Wherever a character without a meaning is put in before the padding, it makes
  // no difference.
  lemma {:induction false} JunkIsIgnored(a: seq<byte>, j: byte, b: seq<byte>)
    requires DecodeSymbol(j) == Junk && NoPad(a)
    ensures Decoded(a + ([j] + b)) == Decoded(a + b)
    decreases |a|
  {
    var x, y := a + ([j] + b), a + b;
    var g, h := NextGroup(x), NextGroup(y);
    TwinGroups(a, j, b);
    if g == h {
      SameGroup(x, y);
    } else {
      var n :| 0 < n <= |a| && TwinRests(g.rest, h.rest, a, n, j, b);
      JunkIsIgnored(a[n..], j, b);
      DecodedMore(x);
      DecodedMore(y);
    }
  }

  lemma SameGroup(x: seq<byte>, y: seq<byte>)
    requires NextGroup(x) == NextGroup(y)
    ensures Decoded(x) == Decoded(y)
  {
    if NextGroup(x).More? {
      DecodedMore(x);
      DecodedMore(y);
    }
  }

  // ---------- the loops ----------

  // One step of the encoder: x goes out and rest remains to be written.
  method PutPart(out: Bstring, x: seq<byte>, ghost rest: seq<byte>, ghost all: seq<byte>)
    requires out.Valid() && out.Terminated() && |all| + 1 < MAX_SIZE
    requires all == out.Text() + (x + rest)
    modifies out, out.data
    ensures out.Valid() && out.Terminated() && all == out.Text() + rest
    ensures out.data == old(out.data) || fresh(out.data)
  {
    ghost var was := out.Text();
    Put(out, x);
    Assoc(was, x, rest);
  }

  // bBase64Encode
  method BBase64Encode(b: View) returns (out: Bstring)
    requires b.Valid() && EncodedLength(b.slen) + 1 < MAX_SIZE
    ensures fresh(out) && fresh(out.data) && out.Valid() && out.Terminated()
    ensures out.Text() == Encoded(b.Text())
  {
    ghost var text := b.Text();
    ghost var all := Encoded(text);
    EncodedHasLength(text);
    out := new Bstring.FromBlk([]);
    StartEncoding(text);
    var i := 0;
    while i + 2 < b.slen
      invariant 0 <= i <= b.slen && i % 3 == 0
      invariant fresh(out) && fresh(out.data) && out.Valid() && out.Terminated()
      invariant all == out.Text() + Encoding(text[i..], Column(i))
    {
      EncodeThree(out, b, i, all);
      i := i + 3;
    }
    BreakLine(out, text[i..], i, all);
    PutLast(out, b, i, all);
  }

  lemma StartEncoding(text: seq<byte>)
    ensures Encoded(text) == [] + Encoding(text[0..], Column(0))
  {
    assert text[0..] == text;
  }

  // One turn of the loop.
  method EncodeThree(out: Bstring, b: View, i: nat, ghost all: seq<byte>)
    requires b.Valid() && i + 2 < b.slen && i % 3 == 0 && b.data != out.data
    requires out.Valid() && out.Terminated() && |all| + 1 < MAX_SIZE
    requires all == out.Text() + Encoding(b.Text()[i..], Column(i))
    modifies out, out.data
    ensures out.Valid() && out.Terminated() && (out.data == old(out.data) || fresh(out.data))
    ensures all == out.Text() + Encoding(b.Text()[i + 3..], Column(i + 3)) && (i + 3) % 3 == 0
  {
    ghost var text := b.Text();
    BreakLine(out, text[i..], i, all);
    QuadNext(text, i);
    PutThree(out, b, i, Encoding(text[i + 3..], Column(i + 3)), all);
  }

  method PutThree(out: Bstring, b: View, i: nat, ghost rest: seq<byte>, ghost all: seq<byte>)
    requires b.Valid() && i + 2 < b.slen && b.data != out.data
    requires out.Valid() && out.Terminated() && |all| + 1 < MAX_SIZE
    requires all == out.Text() + (Quad(b.Text()[i], b.Text()[i + 1], b.Text()[i + 2]) + rest)
    modifies out, out.data
    ensures out.Valid() && out.Terminated() && (out.data == old(out.data) || fresh(out.data))
    ensures all == out.Text() + rest
  {
    PutPart(out, Quad(b.At(i), b.At(i + 1), b.At(i + 2)), rest, all);
  }

  lemma QuadNext(text: seq<byte>, i: nat)
    requires i + 2 < |text| && i % 3 == 0
    ensures Encoding(text[i..], i % 57)
      == Quad(text[i], text[i + 1], text[i + 2]) + Encoding(text[i + 3..], Column(i + 3))
    ensures (i + 3) % 3 == 0
  {
    ThreeColumns(i);
    QuadFirst(text[i..], text[i + 3..], i % 57);
  }

  lemma ThreeColumns(i: nat)
    requires i % 3 == 0
    ensures (i + 3) % 3 == 0 && i % 57 < 57 && Column(i + 3) == i % 57 + 3
  {
  }

  lemma QuadFirst(s: seq<byte>, rest: seq<byte>, col: nat)
    requires |s| >= 3 && rest == s[3..] && col < 57
    ensures Encoding(s, col) == Quad(s[0], s[1], s[2]) + Encoding(rest, col + 3)
  {
  }

  // The line break when the current line is full.
  method BreakLine(out: Bstring, ghost s: seq<byte>, i: nat, ghost all: seq<byte>)
    requires out.Valid() && out.Terminated() && |all| + 1 < MAX_SIZE
    requires all == out.Text() + Encoding(s, Column(i))
    modifies out, out.data
    ensures out.Valid() && out.Terminated() && all == out.Text() + Encoding(s, i % 57)
    ensures out.data == old(out.data) || fresh(out.data)
  {
    if i > 0 && i % 57 == 0 {
      PutPart(out, [CR, LF], Encoding(s, 0), all);
    }
  }

  // The switch behind the loop.
  method PutLast(out: Bstring, b: View, i: nat, ghost all: seq<byte>)
    requires b.Valid() && i <= b.slen < i + 3 && b.data != out.data
    requires out.Valid() && out.Terminated() && |all| + 1 < MAX_SIZE
    requires i % 57 < 57 && all == out.Text() + Encoding(b.Text()[i..], i % 57)
    modifies out, out.data
    ensures out.Valid() && out.Terminated() && out.Text() == all
    ensures out.data == old(out.data) || fresh(out.data)
  {
    ghost var s := b.Text()[i..];
    LastEncoding(s, i % 57);
    Assoc(out.Text(), LastGroup(s), []);
    if i + 2 == b.slen {
      PutTwo(out, b.At(i), b.At(i + 1), s, all);
    } else if i + 1 == b.slen {
      PutOne(out, b.At(i), s, all);
    }
  }

  lemma LastEncoding(s: seq<byte>, col: nat)
    requires |s| < 3 && col < 57
    ensures Encoding(s, col) == LastGroup(s) + []
  {
  }

  method PutTwo(out: Bstring, b0: byte, b1: byte, ghost s: seq<byte>, ghost all: seq<byte>)
    requires s == [b0, b1] && out.Valid() && out.Terminated() && |all| + 1 < MAX_SIZE
    requires all == out.Text() + LastGroup(s)
    modifies out, out.data
    ensures out.Valid() && out.Terminated() && out.Text() == all
    ensures out.data == old(out.data) || fresh(out.data)
  {
    ZeroSextets(b1);
    Put(out, [Letter(b0 >> 2), Letter(((b0 << 4) | (b1 >> 4)) & 0x3F), Letter((b1 << 2) & 0x3F), PAD]);
  }

  method PutOne(out: Bstring, b0: byte, ghost s: seq<byte>, ghost all: seq<byte>)
    requires s == [b0] && out.Valid() && out.Terminated() && |all| + 1 < MAX_SIZE
    requires all == out.Text() + LastGroup(s)
    modifies out, out.data
    ensures out.Valid() && out.Terminated() && out.Text() == all
    ensures out.data == old(out.data) || fresh(out.data)
  {
    ZeroSextets(b0);
    Put(out, [Letter(b0 >> 2), Letter((b0 << 4) & 0x3F), PAD, PAD]);
  }

  // The inner loops of the decoder: past the characters without a meaning.
  method SkipJunk(b: View, i: nat) returns (j: nat)
    requires b.Valid() && i <= b.slen
    ensures i <= j <= b.slen && b.Text()[j..] == Skip(b.Text()[i..])
    ensures j < b.slen ==> DecodeSymbol(b.Text()[j]) != Junk
  {
    ghost var text := b.Text();
    j := i;
    while j < b.slen && DecodeSymbol(b.At(j)) == Junk
      invariant i <= j <= b.slen && Skip(text[j..]) == Skip(text[i..])
    {
      assert text[j..][0] == text[j] && text[j..][1..] == text[j + 1..];
      j := j + 1;
    }
    if j < b.slen {
      assert text[j..][0] == text[j];
    }
  }

  // One turn of the outer loop, by its four inner loops; more is false when the
  // decoder returns.
  method DecodeGroup(b: View, i: nat) returns (x: seq<byte>, truncated: bool, more: bool, next: nat)
    requires b.Valid() && i <= b.slen
    ensures next <= b.slen
    ensures NextGroup(b.Text()[i..]) == Told(b.Text(), x, truncated, more, next)
  {
    var j := SkipJunk(b, i);
    if j >= b.slen {
      return [], false, false, j;
    }
    FirstAndRest(b.Text(), j);
    if b.At(j) == PAD {
      return [], true, false, j;
    }
    x, truncated, more, next := DecodeAfterOne(b, j + 1, b.At(j));
  }

  function Told(text: seq<byte>, x: seq<byte>, truncated: bool, more: bool, next: nat): Group
    requires next <= |text|
  {
    if more then More(x, text[next..]) else Last(x, truncated)
  }

  lemma FirstAndRest(text: seq<byte>, j: nat)
    requires j < |text|
    ensures text[j..][0] == text[j] && text[j..][1..] == text[j + 1..]
  {
  }

  method DecodeAfterOne(b: View, i: nat, a0: byte) returns (x: seq<byte>, truncated: bool, more: bool, next: nat)
    requires b.Valid() && i <= b.slen
    ensures next <= b.slen
    ensures AfterOne(a0, b.Text()[i..]) == Told(b.Text(), x, truncated, more, next)
  {
    var j := SkipJunk(b, i);
    if j >= b.slen {
      return [], true, false, j;
    }
    FirstAndRest(b.Text(), j);
    if b.At(j) == PAD {
      return [], true, false, j;
    }
    x, truncated, more, next := DecodeAfterTwo(b, j + 1, a0, b.At(j));
  }

  method DecodeAfterTwo(b: View, i: nat, a0: byte, a1: byte)
    returns (x: seq<byte>, truncated: bool, more: bool, next: nat)
    requires b.Valid() && i <= b.slen
    ensures next <= b.slen
    ensures AfterTwo(a0, a1, b.Text()[i..]) == Told(b.Text(), x, truncated, more, next)
  {
    var j := SkipJunk(b, i);
    if j >= b.slen {
      return [], true, false, j;
    }
    FirstAndRest(b.Text(), j);
    if b.At(j) == PAD {
      j := j + 1;
      if j < b.slen {
        FirstAndRest(b.Text(), j);
      }
      if j >= b.slen || b.At(j) != PAD {
        return [], true, false, j;
      }
      return [FirstOctet(a0, a1)], false, false, j;
    }
    x, truncated, more, next := DecodeAfterThree(b, j + 1, a0, a1, b.At(j));
  }

  method DecodeAfterThree(b: View, i: nat, a0: byte, a1: byte, a2: byte)
    returns (x: seq<byte>, truncated: bool, more: bool, next: nat)
    requires b.Valid() && i <= b.slen
    ensures next <= b.slen
    ensures AfterThree(a0, a1, a2, b.Text()[i..]) == Told(b.Text(), x, truncated, more, next)
  {
    var j := SkipJunk(b, i);
    if j >= b.slen {
      return [], true, false, j;
    }
    FirstAndRest(b.Text(), j);
    if b.At(j) == PAD {
      return [FirstOctet(a0, a1), SecondOctet(a1, a2)], false, false, j;
    }
    return [FirstOctet(a0, a1), SecondOctet(a1, a2), ThirdOctet(a2, b.At(j))], false, true, j + 1;
  }

  // bBase64DecodeEx
  method BBase64DecodeEx(b: View) returns (out: Bstring, boolTruncError: bool)
    requires b.Valid() && b.slen + 4 < MAX_SIZE
    ensures fresh(out) && fresh(out.data) && out.Valid() && out.Terminated()
    ensures Outcome(out.Text(), boolTruncError) == Decoded(b.Text())
  {
    ghost var text := b.Text();
    out := new Bstring.FromBlk([]);
    var i, more := 0, true;
    boolTruncError := false;
    assert text[0..] == text;
    while more
      invariant 0 <= i <= b.slen && fresh(out) && fresh(out.data) && out.Valid() && out.Terminated()
      invariant more ==> out.slen <= i
      invariant Decoded(text) == Ahead(out.Text(), text[i..], boolTruncError, more)
      decreases more, b.slen - i
    {
      i, boolTruncError, more := DecodeRound(out, b, i, Decoded(text));
    }
  }

  // bBase64DecodeEx without a place for the flag: NULL instead of a truncated text.
  method BBase64Decode(b: View) returns (out: Bstring?)
    requires b.Valid() && b.slen + 4 < MAX_SIZE
    ensures out == null <==> Decoded(b.Text()).truncated
    ensures out != null ==> fresh(out) && fresh(out.data) && out.Valid() && out.Terminated()
    ensures out != null ==> out.Text() == Decoded(b.Text()).bytes
  {
    var r, truncated := BBase64DecodeEx(b);
    out := if truncated then null else r;
  }

  // The outcome when done is decoded and rest is still to be read.
  ghost function Ahead(done: seq<byte>, rest: seq<byte>, truncated: bool, more: bool): Outcome
  {
    if more then Outcome(done + Decoded(rest).bytes, Decoded(rest).truncated) else Outcome(done, truncated)
  }

  lemma AheadStep(done: seq<byte>, from: seq<byte>, x: seq<byte>, rest: seq<byte>, truncated: bool, more: bool)
    requires NextGroup(from) == if more then More(x, rest) else Last(x, truncated)
    ensures Ahead(done, from, false, true) == Ahead(done + x, rest, truncated, more)
    ensures |x| <= 3 && (more ==> |from| - |rest| >= 4)
  {
    GroupOfThree(from);
    if more {
      DecodedMore(from);
      Assoc(done, x, Decoded(rest).bytes);
    }
  }

  method DecodeRound(out: Bstring, b: View, i: nat, ghost o: Outcome) returns (next: nat, truncated: bool, more: bool)
    requires b.Valid() && i <= b.slen && b.slen + 4 < MAX_SIZE && b.data != out.data
    requires out.Valid() && out.Terminated() && out.slen <= i
    requires o == Ahead(out.Text(), b.Text()[i..], false, true)
    modifies out, out.data
    ensures out.Valid() && out.Terminated() && (out.data == old(out.data) || fresh(out.data))
    ensures next <= b.slen && (more ==> out.slen <= next && i < next)
    ensures o == Ahead(out.Text(), b.Text()[next..], truncated, more)
  {
    ghost var text := b.Text();
    var x;
    x, truncated, more, next := DecodeGroup(b, i);
    AheadStep(out.Text(), text[i..], x, text[next..], truncated, more);
    Put(out, x);
  }
}

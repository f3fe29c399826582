// Netstrings: the length in decimal digits, a colon, the text, a comma.
module NetStrings {
  import opened Bstrings
  import opened Growth
  import opened Memory

  const INT_MAX := 0x7FFF_FFFF
  const COLON: byte := 58
  const COMMA: byte := 44

  predicate Digit(c: byte)
  {
    48 <= c <= 57
  }

  // The value of a string of digits, however large.
  function Val(d: seq<byte>): nat
  {
    if |d| == 0 then 0
    else 10 * Val(d[..|d| - 1]) + (if Digit(d[|d| - 1]) then (d[|d| - 1] - 48) as nat else 0)
  }

  // How many digits t begins with.
  function Digits(t: seq<byte>): (n: nat)
    ensures n <= |t|
  {
    if |t| > 0 && Digit(t[0]) then 1 + Digits(t[1..]) else 0
  }

  lemma {:induction false} DigitsAre(t: seq<byte>)
    ensures forall k :: 0 <= k < Digits(t) ==> Digit(t[k])
    ensures Digits(t) < |t| ==> !Digit(t[Digits(t)])
  {
    if |t| > 0 && Digit(t[0]) {
      DigitsAre(t[1..]);
      forall k | 0 < k < Digits(t)
        ensures Digit(t[k])
      {
        assert t[k] == t[1..][k - 1];
      }
    }
  }

  lemma {:induction false} DigitsAreAll(d: seq<byte>, u: seq<byte>)
    requires forall k :: 0 <= k < |d| ==> Digit(d[k])
    requires |u| > 0 && !Digit(u[0])
    ensures Digits(d + u) == |d|
  {
    if |d| == 0 {
      assert d + u == u;
    } else {
      assert (d + u)[1..] == d[1..] + u;
      DigitsAreAll(d[1..], u);
    }
  }

  lemma {:induction false} ValGrows(t: seq<byte>, k: nat, n: nat)
    requires k <= n <= |t|
    ensures Val(t[..k]) <= Val(t[..n])
    decreases n
  {
    if k < n {
      ValGrows(t, k, n - 1);
      assert t[..n][..n - 1] == t[..n - 1];
    }
  }

  function Numeral(m: nat): byte
    requires m < 10
  {
    48 + m as byte
  }

  // "%d" of a number that is not negative
  function Decimal(n: nat): seq<byte>
  {
    if n < 10 then [Numeral(n)] else Decimal(n / 10) + [Numeral(n % 10)]
  }

  lemma {:induction false} DecimalBack(n: nat)
    ensures Val(Decimal(n)) == n
    ensures forall k :: 0 <= k < |Decimal(n)| ==> Digit(Decimal(n)[k])
  {
    LastDigit(if n < 10 then [] else Decimal(n / 10), n % 10);
    if n < 10 {
      assert [] + Decimal(n) == Decimal(n);
    } else {
      DecimalBack(n / 10);
    }
  }

  lemma NumeralIs(m: nat)
    requires m < 10
    ensures Numeral(m) as int == 48 + m
  {
  }

  // A number is written without a zero in front, and never as nothing.
  lemma {:induction false} DecimalStarts(n: nat)
    ensures |Decimal(n)| > 0 && (Decimal(n)[0] == 48 <==> n == 0)
    ensures n < 10 ==> |Decimal(n)| == 1
  {
    if n >= 10 {
      DecimalStarts(n / 10);
      NumeralIs(n % 10);
    } else {
      NumeralIs(n);
    }
  }

  // The example of the format's definition: "12:hello world!,".
  lemma HelloWorld()
    ensures var text := [104, 101, 108, 108, 111, 32, 119, 111, 114, 108, 100, 33];
      Encoded(text) == [49, 50, 58] + text + [44]
  {
    NumeralIs(1);
    NumeralIs(2);
    assert 12 / 10 == 1 && 12 % 10 == 2;
    assert Decimal(1) == [49];
    assert Decimal(12) == [49] + [50];
  }

  lemma LastDigit(d: seq<byte>, m: nat)
    requires m < 10
    ensures Val(d + [Numeral(m)]) == 10 * Val(d) + m
    ensures Digit(Numeral(m))
  {
    assert (d + [Numeral(m)])[..|d|] == d;
  }

  lemma {:induction false} DecimalIsShort(n: nat, digits: nat, bound: nat)
    requires digits > 0 && bound == Pow10(digits) && n < bound
    ensures |Decimal(n)| <= digits
  {
    if n >= 10 {
      DecimalIsShort(n / 10, digits - 1, Pow10(digits - 1));
    }
  }

  function Pow10(k: nat): nat
  {
    if k == 0 then 1 else 10 * Pow10(k - 1)
  }

  function Encoded(s: seq<byte>): seq<byte>
  {
    Decimal(|s|) + [COLON] + s + [COMMA]
  }

  // What the decoder makes of the bytes it is pointed at: a text, an error, or a
  // read behind the last byte that is there.
  datatype Outcome = Text(s: seq<byte>) | Refused | PastEnd

  function Decoded(t: seq<byte>): Outcome
  {
    var n := Digits(t);
    var x := Val(t[..n]);
    if x > INT_MAX then Refused
    else if n == |t| then PastEnd
    else if t[n] != COLON then Refused
    else if n + 1 + x >= |t| then PastEnd
    else if t[n + 1 + x] != COMMA then Refused
    else Text(t[n + 1..n + 1 + x])
  }

  // Whatever follows the comma, the text comes back.
  lemma DecodeUndoesEncode(s: seq<byte>, tail: seq<byte>)
    ensures |s| <= INT_MAX ==> Decoded(Encoded(s) + tail) == Text(s)
    ensures |s| > INT_MAX ==> Decoded(Encoded(s) + tail) == Refused
  {
    var d := Decimal(|s|);
    Layout(d, s, tail);
    DecimalBack(|s|);
    DigitsAreAll(d, [COLON] + s + [COMMA] + tail);
  }

  // Where the parts of an encoding stand.
  lemma Layout(d: seq<byte>, s: seq<byte>, tail: seq<byte>)
    ensures var t := d + [COLON] + s + [COMMA] + tail;
      && t == d + ([COLON] + s + [COMMA] + tail)
      && t[..|d|] == d && t[|d|] == COLON
      && t[|d| + 1 + |s|] == COMMA && t[|d| + 1..|d| + 1 + |s|] == s
  {
  }

  // The decoder accepts just the netstrings: digits for a length that fits an int,
  // a colon, that many bytes and a comma.
  lemma AcceptedExactly(t: seq<byte>, s: seq<byte>)
    ensures Decoded(t) == Text(s) <==>
      exists n :: 0 <= n <= |t| && IsNetString(t, n, s)
  {
    if Decoded(t) == Text(s) {
      DigitsAre(t);
      assert IsNetString(t, Digits(t), s);
    }
    if n :| 0 <= n <= |t| && IsNetString(t, n, s) {
      NetStringIsAccepted(t, n, s);
    }
  }

  lemma NetStringIsAccepted(t: seq<byte>, n: nat, s: seq<byte>)
    requires n <= |t| && IsNetString(t, n, s)
    ensures Decoded(t) == Text(s)
  {
    CutAt(t, n);
    DigitsAreAll(t[..n], t[n..]);
  }

  lemma CutAt(t: seq<byte>, n: nat)
    requires n < |t|
    ensures t[..n] + t[n..] == t && t[n..][0] == t[n]
  {
  }

  ghost predicate IsNetString(t: seq<byte>, n: nat, s: seq<byte>)
  {
    && n + 1 + |s| < |t| && (forall k :: 0 <= k < n ==> Digit(t[k]))
    && Val(t[..n]) == |s| <= 0x7FFF_FFFF
    && t[n] == 58 && t[n + 1..n + 1 + |s|] == s && t[n + 1 + |s|] == 44
  }

  // ---------- the code ----------

  // bStr2NetStr
  method BStr2NetStr(b: View) returns (s: Bstring)
    requires b.Valid() && b.slen + 14 < MAX_SIZE
    ensures fresh(s) && fresh(s.data) && s.Valid() && s.Terminated()
    ensures s.Text() == Encoded(b.Text())
  {
    DecimalIsShort(b.slen, 10, 10000000000);
    var strnum := Decimal(b.slen) + [COLON];
    s := new Bstring.FromBlk(strnum);
    var ret := s.Bconcat(b);
    ret := s.Bconchar(COMMA);
  }

  datatype Length = Colon(i: nat, x: nat) | NotOne | RunsOut

  // The loop that reads the length. The test divides instead of multiplying, so
  // that no int overflows.
  method ReadLength(buff: View) returns (r: Length)
    requires buff.Valid()
    ensures var t := buff.Text();
      var n := Digits(t);
      r == if Val(t[..n]) > INT_MAX then NotOne
           else if n == |t| then RunsOut
           else if t[n] == COLON then Colon(n, Val(t[..n]))
           else NotOne
  {
    ghost var t := buff.Text();
    DigitsAre(t);
    var x, i := 0, 0;
    while i < buff.slen && buff.At(i) != COLON
      invariant 0 <= i <= Digits(t) && x == Val(t[..i]) <= INT_MAX
      decreases buff.slen - i
    {
      var v := buff.At(i) - 48;
      assert v <= 9 <==> Digit(t[i]);
      if v > 9 {
        return NotOne;
      }
      assert t[..i + 1][..i] == t[..i];
      if x > (INT_MAX - v as nat) / 10 {
        ValGrows(t, i + 1, Digits(t));
        return NotOne;
      }
      x := x * 10 + v as nat;
      i := i + 1;
    }
    if i == buff.slen {
      return RunsOut;
    }
    return Colon(i, x);
  }

  // The text of x bytes from position i.
  method TakeText(buff: View, i: nat, x: nat) returns (b: Bstring)
    requires buff.Valid() && i + x < buff.slen && buff.slen + 1 < MAX_SIZE
    ensures fresh(b) && fresh(b.data) && b.Valid() && b.Terminated()
    ensures b.Text() == buff.Text()[i..i + x]
  {
    b := new Bstring.FromBlk([]);
    b.Reserve(x + 1);
    CopyText(b.data, buff, i, x);
    b.SetLength(x);
  }

  method CopyText(data: array<byte>, buff: View, i: nat, x: nat)
    requires buff.Valid() && i + x <= buff.slen && x <= data.Length && data != buff.data
    modifies data
    ensures data[..x] == buff.Text()[i..i + x]
  {
    SplicedStart(data[..], buff.Slice(i, i + x));
    Memcpy(data, 0, buff.data, buff.ofs + i, x);
  }

  // bNetStr2Bstr; b holds a result only if the outcome is a text.
  method BNetStr2Bstr(buff: View) returns (r: Outcome, b: Bstring)
    requires buff.Valid() && buff.slen + 1 < MAX_SIZE
    ensures fresh(b) && fresh(b.data) && b.Valid()
    ensures r == Decoded(buff.Text())
    ensures r.Text? ==> b.Text() == r.s && b.Terminated()
  {
    b := new Bstring.FromBlk([]);
    var len := ReadLength(buff);
    match len
    case NotOne => r := Refused;
    case RunsOut => r := PastEnd;
    case Colon(i, x) =>
      if i + 1 + x >= buff.slen {
        r := PastEnd;
      } else if buff.At(i + 1 + x) != COMMA {
        r := Refused;
      } else {
        b := TakeText(buff, i + 1, x);
        r := Text(buff.Slice(i + 1, i + 1 + x));
      }
  }
}

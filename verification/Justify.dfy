// Words divided by single spaces, and words stretched to both margins.
module Justify {
  import opened Bstrings
  import opened Growth
  import opened Joins
  import opened Memory
  import opened Streams

  function NonEmpty(list: seq<seq<byte>>): seq<seq<byte>>
  {
    if |list| == 0 then []
    else (if list[0] == [] then [] else [list[0]]) + NonEmpty(list[1..])
  }

  // The words of s: what is between the spaces.
  function Words(s: seq<byte>, c: byte): seq<seq<byte>>
  {
    NonEmpty(SplitFrom(s, 0, [c]))
  }

  // Cut at its spaces from the left, a text has one word for each part that is not
  // empty, and no other.
  lemma WordsCut(x: seq<byte>, t: seq<byte>, c: byte)
    requires Free(x, [c])
    ensures Words(x, c) == if x == [] then [] else [x]
    ensures Words(x + [c] + t, c) == Words(x, c) + Words(t, c)
  {
    SplitOne(x, [c]);
    NonEmptyMore(x, []);
    ListOfOne(x);
    SplitMore(x, c, t, [c]);
    NonEmptyMore(x, SplitFrom(t, 0, [c]));
  }

  lemma ListOfOne(x: seq<byte>)
    ensures [x] + [] == [x]
  {
  }

  // ---------- bJustifyLeft ----------

  // What the loop still puts out for r behind the text without its last space:
  // inWord is its flag s, any tells whether there is text already.
  function Tail(r: seq<byte>, c: byte, inWord: bool, any: bool): seq<byte>
  {
    if |r| == 0 then []
    else if r[0] == c then Tail(r[1..], c, false, any)
    else (if !inWord && any then [c] else []) + [r[0]] + Tail(r[1..], c, true, true)
  }

  function Glued(ws: seq<seq<byte>>, c: byte, any: bool): seq<byte>
  {
    (if any && |ws| > 0 then [c] else []) + Join(ws, [c])
  }

  lemma NonEmptyMore(x: seq<byte>, list: seq<seq<byte>>)
    ensures NonEmpty([x] + list) == (if x == [] then [] else [x]) + NonEmpty(list)
  {
    assert ([x] + list)[1..] == list;
  }

  lemma GluedMore(x: seq<byte>, ws: seq<seq<byte>>, c: byte, any: bool)
    ensures Glued([x] + ws, c, any) == (if any then [c] else []) + x + Glued(ws, c, true)
  {
    if |ws| > 0 {
      JoinMore(x, ws, [c]);
    }
  }

  lemma {:induction false} TailIsWords(r: seq<byte>, c: byte, any: bool)
    ensures Tail(r, c, false, any) == Glued(Words(r, c), c, any)
    ensures var l := SplitFrom(r, 0, [c]);
      Tail(r, c, true, true) == l[0] + Glued(NonEmpty(l[1..]), c, true)
    decreases |r|
  {
    if |r| == 0 {
      SplitOne([], [c]);
      NonEmptyMore(r, []);
      assert [r] + [] == [r];
    } else {
      var t := r[1..];
      TailIsWords(t, c, any);
      if r[0] == c {
        TailIsWords(t, c, true);
        TailAtSpace(r, c, any);
      } else {
        TailInWord(r, c, any);
      }
    }
  }

  lemma TailAtSpace(r: seq<byte>, c: byte, any: bool)
    requires |r| > 0 && r[0] == c
    ensures Words(r, c) == Words(r[1..], c)
    ensures SplitFrom(r, 0, [c])[0] == [] && NonEmpty(SplitFrom(r, 0, [c])[1..]) == Words(r[1..], c)
  {
    var l := SplitFrom(r[1..], 0, [c]);
    SplitMore([], c, r[1..], [c]);
    SpaceFirst(r, c);
    NonEmptyMore([], l);
    ListTail([], l);
  }

  lemma SpaceFirst(r: seq<byte>, c: byte)
    requires |r| > 0 && r[0] == c
    ensures [] + [c] + r[1..] == r
  {
  }

  lemma ListTail(x: seq<byte>, l: seq<seq<byte>>)
    ensures ([x] + l)[0] == x && ([x] + l)[1..] == l
  {
  }

  lemma TailInWord(r: seq<byte>, c: byte, any: bool)
    requires |r| > 0 && r[0] != c
    ensures var m, l := SplitFrom(r, 0, [c]), SplitFrom(r[1..], 0, [c]);
      && m[0] == [r[0]] + l[0] && m[1..] == l[1..]
      && Glued(Words(r, c), c, any) == (if any then [c] else []) + [r[0]] + (l[0] + Glued(NonEmpty(l[1..]), c, true))
  {
    HeadAndRest(r);
    SplitLonger(r[0], r[1..], c);
    WordGrows(r[0], SplitFrom(r[1..], 0, [c]), c, any);
  }

  lemma HeadAndRest(r: seq<byte>)
    requires |r| > 0
    ensures r == [r[0]] + r[1..]
  {
  }

  lemma WordGrows(b: byte, l: seq<seq<byte>>, c: byte, any: bool)
    requires |l| > 0
    ensures var m := [[b] + l[0]] + l[1..];
      && m[0] == [b] + l[0] && m[1..] == l[1..]
      && Glued(NonEmpty(m), c, any) == (if any then [c] else []) + [b] + (l[0] + Glued(NonEmpty(l[1..]), c, true))
  {
    var x := [b] + l[0];
    NonEmptyMore(x, l[1..]);
    GluedMore(x, NonEmpty(l[1..]), c, any);
    Regrouped(if any then [c] else [], [b], l[0], Glued(NonEmpty(l[1..]), c, true));
    ListTail(x, l[1..]);
  }

  lemma Regrouped(a: seq<byte>, b: seq<byte>, x: seq<byte>, y: seq<byte>)
    ensures a + (b + x) + y == a + b + (x + y)
    ensures b + x + y == b + (x + y)
  {
  }

  // What is out at position i of the loop: the text without its last space, then
  // that space if the loop is not in a word.
  function Out(data: seq<byte>, c: byte, inWord: bool): seq<byte>
  {
    if !inWord && |data| > 0 then data[..|data| - 1] else data
  }

  ghost predicate Squeezing(data: seq<byte>, r: seq<byte>, c: byte, inWord: bool, all: seq<byte>)
  {
    && (|data| > 0 ==> (inWord <==> data[|data| - 1] != c)) && (inWord ==> |data| > 0)
    && (!inWord && |data| > 0 ==> |data| > 1)
    && all == Out(data, c, inWord) + Tail(r, c, inWord, |data| > 0)
  }

  lemma SqueezeOne(data: seq<byte>, r: seq<byte>, c: byte, inWord: bool, all: seq<byte>)
    requires |r| > 0 && Squeezing(data, r, c, inWord, all)
    ensures Squeezing(if inWord || r[0] != c then data + [r[0]] else data, r[1..], c, r[0] != c, all)
  {
    var x := data + [r[0]];
    if r[0] != c {
      assert Out(x, c, true) == x;
      if inWord || |data| == 0 {
        Assoc(data, [r[0]], Tail(r[1..], c, true, true));
      } else {
        assert data == data[..|data| - 1] + [c];
        Assoc(data[..|data| - 1], [c] + [r[0]], Tail(r[1..], c, true, true));
        Assoc(data[..|data| - 1], [c], [r[0]]);
      }
    } else if inWord {
      assert Out(x, c, false) == data;
    }
  }

  // bJustifyLeft. A space that is no character leaves the string alone.
  method BJustifyLeft(b: Bstring, space: int) returns (ret: int)
    requires b.Valid()
    modifies b`slen, b.data
    ensures b.Valid() && ret == BSTR_OK
    ensures b.Text() == Left(old(b.Text()), space)
    ensures 0 <= space < 256 ==> b.Terminated()
  {
    if !(0 <= space < 256) {
      return BSTR_OK;
    }
    var j := Squeeze(b.data, b.slen, UnsignedChar(space));
    b.SetLength(j);
    return BSTR_OK;
  }

  // (unsigned char) space
  function UnsignedChar(space: int): byte
  {
    (space % 256) as byte
  }

  function Left(s: seq<byte>, space: int): seq<byte>
  {
    if 0 <= space < 256 then Join(Words(s, UnsignedChar(space)), [UnsignedChar(space)]) else s
  }

  // The loop, in place, and the last space.
  method Squeeze(data: array<byte>, slen: nat, c: byte) returns (j: nat)
    requires slen < data.Length
    modifies data
    ensures j <= slen && data[..j] == Join(Words(old(data[..slen]), c), [c])
  {
    ghost var text, all := data[..slen], Join(Words(data[..slen], c), [c]);
    TailIsWords(text, c, false);
    var i, s := 0, false;
    j := 0;
    assert text[0..] == text;
    while i < slen
      invariant 0 <= j <= i <= slen && data[i..slen] == text[i..]
      invariant Squeezing(data[..j], text[i..], c, s, all)
    {
      j, s := SqueezeStep(data, i, j, s, c, slen, text, all);
      i := i + 1;
    }
    LastSpace(data[..j], c, s, all);
    if j > 0 && data[j - 1] == c {
      assert data[..j][..j - 1] == data[..j - 1];
      j := j - 1;
    }
  }

  lemma LastSpace(data: seq<byte>, c: byte, s: bool, all: seq<byte>)
    requires Squeezing(data, [], c, s, all)
    ensures all == if |data| > 0 && data[|data| - 1] == c then data[..|data| - 1] else data
  {
  }

  // One turn of the loop.
  method SqueezeStep(data: array<byte>, i: nat, j: nat, t: bool, c: byte, slen: nat, ghost text: seq<byte>,
                     ghost all: seq<byte>) returns (j': nat, s: bool)
    requires j <= i < slen == |text| && slen <= data.Length && data[i..slen] == text[i..]
    requires Squeezing(data[..j], text[i..], c, t, all)
    modifies data
    ensures j <= j' <= i + 1 && data[i + 1..slen] == text[i + 1..]
    ensures Squeezing(data[..j'], text[i + 1..], c, s, all)
  {
    ghost var was := data[..j];
    assert data[i..slen][0] == data[i] && data[i..slen][1..] == data[i + 1..slen];
    assert text[i..][1..] == text[i + 1..];
    SqueezeOne(was, text[i..], c, t, all);
    data[j] := data[i];
    s := c != data[j];
    j' := if t || s then j + 1 else j;
    assert data[..j] == was && data[..j + 1] == was + [data[j]];
  }

  // ---------- bJustifyMargin ----------

  // The moves of bInsertChrs once the string reaches pos.
  method InsertRun(b: Bstring, pos: nat, len: nat, c: byte)
    requires b.Valid() && pos <= b.slen && 0 < b.slen + len < MAX_SIZE
    modifies b, b.data
    ensures b.Valid() && b.Terminated() && (b.data == old(b.data) || fresh(b.data))
    ensures b.Text() == old(b.Text()[..pos]) + Repeat(c, len) + old(b.Text()[pos..])
  {
    ghost var text := b.Text();
    b.Reserve(b.slen + len);
    PrefixSlice(b.data[..], text, 0, pos);
    PrefixSlice(b.data[..], text, pos, b.slen);
    OpenUp(b, pos, len);
    FillRun(b.data, pos, c, len, pos + len + (b.slen - pos));
    b.SetLength(b.slen + len);
  }

  method OpenUp(b: Bstring, pos: nat, len: nat)
    requires b.Valid() && pos <= b.slen && b.slen + len < b.mlen
    modifies b.data
    ensures b.data[..pos] == old(b.data[..pos]) && b.data[pos + len..b.slen + len] == old(b.data[pos..b.slen])
  {
    if pos < b.slen {
      b.MoveTail(b.slen, pos, pos + len, pos);
    }
  }

  method FillRun(data: array<byte>, pos: nat, c: byte, len: nat, m: nat)
    requires pos + len <= m <= data.Length
    modifies data
    ensures data[..m] == old(data[..pos]) + Repeat(c, len) + old(data[pos + len..m])
  {
    ghost var block := data[..];
    Memset(data, pos, c, len);
    SplicedParts(block, data[..], pos, Repeat(c, len), m);
  }

  // bInsertChrs
  method BInsertChrs(b: Bstring, pos: int, len: int, c: byte, fill: byte) returns (ret: int)
    requires b.Valid() && pos + len < MAX_SIZE && b.slen + len < MAX_SIZE && pos + 1 < MAX_SIZE
    modifies b, b.data
    ensures b.Valid() && (b.data == old(b.data) || fresh(b.data))
    ensures ret < 0 <==> pos < 0 || len <= 0
    ensures ret < 0 ==> b.Text() == old(b.Text())
    ensures ret >= 0 ==>
      ret == BSTR_OK && b.Terminated() && b.Text() == Inserted(old(b.Text()), pos, Repeat(c, len), fill)
  {
    if pos < 0 || len <= 0 {
      return BSTR_ERR;
    }
    ghost var text := b.Text();
    if pos > b.slen {
      var empty := new byte[0];
      ret := b.Bsetstr(pos, View(empty, 0, 0), fill);
    }
    assert b.Text() == Padded(text, pos, fill);
    InsertRun(b, pos, len, c);
    return BSTR_OK;
  }

  // a / m, by taking m away as often as it goes.
  function Quotient(a: nat, m: nat): nat
    requires m > 0
  {
    if a < m then 0 else 1 + Quotient(a - m, m)
  }

  // The space the code puts before the next word when m words are still to come
  // and extra is what the spaces must come to: extra / m, rounded.
  function Gap(extra: nat, m: nat): nat
    requires m > 0
  {
    Quotient(extra + m / 2, m)
  }

  function Gaps(extra: nat, m: nat): (gaps: seq<nat>)
    ensures |gaps| == m
    decreases m
  {
    if m == 0 then []
    else [Gap(extra, m)] + Gaps(if Gap(extra, m) <= extra then extra - Gap(extra, m) else 0, m - 1)
  }

  function Sum(gaps: seq<nat>): nat
  {
    if |gaps| == 0 then 0 else gaps[0] + Sum(gaps[1..])
  }

  lemma GapBetween(extra: nat, m: nat, q: nat)
    requires m > 0 && q * m <= extra <= (q + 1) * m
    ensures q <= Gap(extra, m) <= q + 1 && Gap(extra, m) <= extra
    ensures q * (m - 1) <= extra - Gap(extra, m) <= (q + 1) * (m - 1)
  {
    var low, high := q * m, (q + 1) * m;
    Distribute(q, m);
    Distribute(q + 1, m);
    assert high == low + m && (q + 2) * m == high + m;
    if extra - low + m / 2 < m {
      QuotientIs(extra + m / 2, m, q);
    } else {
      QuotientIs(extra + m / 2, m, q + 1);
    }
    assert q * (m - 1) >= 0;
  }

  lemma Distribute(q: nat, m: nat)
    requires m > 0
    ensures (q + 1) * m == q * m + m && q * (m - 1) == q * m - q && q * (m - 1) >= 0
  {
  }

  lemma {:induction false} QuotientIs(a: nat, m: nat, d: nat)
    requires m > 0 && d * m <= a < d * m + m
    ensures Quotient(a, m) == d
    decreases d
  {
    if d > 0 {
      Distribute(d - 1, m);
      QuotientIs(a - m, m, d - 1);
    }
  }

  // The division the code makes.
  lemma QuotientIsDivision(a: nat, m: nat)
    requires m > 0
    ensures a / m == Quotient(a, m)
  {
    assert a == (a / m) * m + a % m;
    QuotientIs(a, m, a / m);
  }

  // Each gap is what is left, divided by the gaps that are left and rounded.
  lemma {:induction false} GapsAreRounded(extra: nat, m: nat, k: nat)
    requires k < m <= extra
    ensures var g, left := Gaps(extra, m), extra - Sum(Gaps(extra, m)[..k]);
      left >= 0 && g[k] == (left + (m - k) / 2) / (m - k)
    decreases m
  {
    WholePart(extra, m);
    GapBetween(extra, m, Quotient(extra, m));
    if k == 0 {
      QuotientIsDivision(extra + m / 2, m);
    } else {
      LaterGaps(extra, m);
      GapsAreRounded(extra - Gap(extra, m), m - 1, k - 1);
      assert Gaps(extra, m)[..k] == [Gap(extra, m)] + Gaps(extra - Gap(extra, m), m - 1)[..k - 1];
    }
  }

  lemma LaterGaps(extra: nat, m: nat)
    requires 1 < m <= extra
    ensures Gap(extra, m) <= extra && m - 1 <= extra - Gap(extra, m)
  {
    WholePart(extra, m);
    var q := Quotient(extra, m);
    GapBetween(extra, m, q);
    AtLeastAsMany(q, m - 1);
  }

  lemma AtLeastAsMany(q: nat, n: nat)
    requires q >= 1
    ensures q * n >= n
  {
    Distribute(q - 1, n + 1);
    assert q * n == (q - 1) * n + n;
  }

  // However many words there are, the gaps come to extra in all, and any two of
  // them differ by one at most.
  lemma {:induction false} GapsAreEven(extra: nat, m: nat, q: nat)
    requires q * m <= extra <= (q + 1) * m
    ensures forall k :: 0 <= k < m ==> q <= Gaps(extra, m)[k] <= q + 1
    ensures m > 0 ==> Sum(Gaps(extra, m)) == extra
    decreases m
  {
    if m > 0 {
      GapBetween(extra, m, q);
      GapsAreEven(extra - Gap(extra, m), m - 1, q);
    }
  }

  // Words with a gap before each of them.
  function Spread(ws: seq<seq<byte>>, gaps: seq<nat>, c: byte): seq<byte>
    requires |ws| == |gaps|
  {
    if |ws| == 0 then [] else Repeat(c, gaps[0]) + ws[0] + Spread(ws[1..], gaps[1..], c)
  }

  // The words ws with the gaps between them.
  function Stretched(ws: seq<seq<byte>>, gaps: seq<nat>, c: byte): seq<byte>
    requires |ws| == |gaps| + 1
  {
    ws[0] + Spread(ws[1..], gaps, c)
  }

  // Whether words of this number and total length are stretched.
  predicate Stretches(count: nat, length: nat, width: int)
  {
    length + count < width && count >= 2
  }

  function Justified(s: seq<byte>, width: int, space: int): seq<byte>
  {
    var ws := Words(s, UnsignedChar(space));
    if Stretches(|ws|, TotalLength(ws), width) then
      Stretched(ws, Gaps(width - TotalLength(ws), |ws| - 1), UnsignedChar(space))
    else Left(s, space)
  }

  lemma JustifiedLeft(s: seq<byte>, width: int, space: int, ws: seq<seq<byte>>)
    requires ws == Words(s, UnsignedChar(space)) && !Stretches(|ws|, TotalLength(ws), width)
    ensures Justified(s, width, space) == Left(s, space)
  {
  }

  lemma JustifiedStretched(s: seq<byte>, width: int, space: int, ws: seq<seq<byte>>, all: seq<byte>)
    requires ws == Words(s, UnsignedChar(space)) && Stretches(|ws|, TotalLength(ws), width)
    requires all == Stretched(ws, Gaps(width - TotalLength(ws), |ws| - 1), UnsignedChar(space))
    ensures Justified(s, width, space) == all
  {
  }

  lemma {:induction false} SpreadLength(ws: seq<seq<byte>>, gaps: seq<nat>, c: byte)
    requires |ws| == |gaps|
    ensures |Spread(ws, gaps, c)| == TotalLength(ws) + Sum(gaps)
  {
    if |ws| > 0 {
      SpreadLength(ws[1..], gaps[1..], c);
    }
  }

  // A stretched text has exactly the width asked for, and every gap is a space
  // wide at least.
  lemma StretchedFits(ws: seq<seq<byte>>, width: int, c: byte)
    requires |ws| >= 2 && TotalLength(ws) + |ws| < width
    ensures |Stretched(ws, Gaps(width - TotalLength(ws), |ws| - 1), c)| == width
    ensures var gaps := Gaps(width - TotalLength(ws), |ws| - 1);
      var q := Quotient(width - TotalLength(ws), |ws| - 1);
      q >= 1 && forall k :: 0 <= k < |gaps| ==> q <= gaps[k] <= q + 1
  {
    var extra, m := width - TotalLength(ws), |ws| - 1;
    WholePart(extra, m);
    GapsAreEven(extra, m, Quotient(extra, m));
    SpreadLength(ws[1..], Gaps(extra, m), c);
  }

  // Word k stands behind the words and gaps before it, and the gap in front of it
  // is filled with spaces.
  lemma {:induction false} SpreadAt(ws: seq<seq<byte>>, gaps: seq<nat>, c: byte, k: nat)
    requires k < |ws| == |gaps|
    ensures var t, at := Spread(ws, gaps, c), TotalLength(ws[..k]) + Sum(gaps[..k]);
      && at + gaps[k] + |ws[k]| <= |t| && t[at + gaps[k]..at + gaps[k] + |ws[k]|] == ws[k]
      && forall i :: at <= i < at + gaps[k] ==> t[i] == c
  {
    if k > 0 {
      SpreadAt(ws[1..], gaps[1..], c, k - 1);
      FirstOfMany(ws, gaps, k);
      Behind(Repeat(c, gaps[0]) + ws[0], Spread(ws[1..], gaps[1..], c),
        TotalLength(ws[1..][..k - 1]) + Sum(gaps[1..][..k - 1]), gaps[k], ws[k], c);
    } else {
      FirstSpread(gaps[0], ws[0], Spread(ws[1..], gaps[1..], c), c);
    }
  }

  lemma FirstSpread(n: nat, w: seq<byte>, y: seq<byte>, c: byte)
    ensures var t := Repeat(c, n) + w + y;
      t[n..n + |w|] == w && forall i :: 0 <= i < n ==> t[i] == c
  {
  }

  lemma FirstOfMany(ws: seq<seq<byte>>, gaps: seq<nat>, k: nat)
    requires 0 < k <= |ws| && k <= |gaps|
    ensures TotalLength(ws[..k]) == |ws[0]| + TotalLength(ws[1..][..k - 1])
    ensures Sum(gaps[..k]) == gaps[0] + Sum(gaps[1..][..k - 1])
  {
    assert ws[..k][1..] == ws[1..][..k - 1] && gaps[..k][1..] == gaps[1..][..k - 1];
  }

  lemma Behind(x: seq<byte>, y: seq<byte>, at: nat, n: nat, w: seq<byte>, c: byte)
    requires at + n + |w| <= |y| && y[at + n..at + n + |w|] == w && forall i :: at <= i < at + n ==> y[i] == c
    ensures var t, at' := x + y, |x| + at;
      t[at' + n..at' + n + |w|] == w && forall i :: at' <= i < at' + n ==> t[i] == c
  {
    forall i | |x| + at <= i < |x| + at + n
      ensures (x + y)[i] == c
    {
      assert (x + y)[i] == y[i - |x|];
    }
  }

  lemma WholePart(extra: nat, m: nat)
    requires 0 < m <= extra
    ensures var q := Quotient(extra, m); q >= 1 && q * m <= extra <= (q + 1) * m
  {
    QuotientIsDivision(extra, m);
    var q := extra / m;
    assert extra == q * m + extra % m;
    Distribute(q, m);
  }

  lemma StretchedKeepsWords(ws: seq<seq<byte>>, gaps: seq<nat>, c: byte)
    requires |ws| == |gaps| + 1 && AreWords(ws, c)
    requires forall k :: 0 <= k < |gaps| ==> gaps[k] >= 1
    ensures Words(Stretched(ws, gaps, c), c) == ws
  {
    FirstOfWords(ws, c);
    SpreadWords(ws[0], ws[1..], gaps, c);
  }

  lemma FirstOfWords(ws: seq<seq<byte>>, c: byte)
    requires |ws| > 0 && AreWords(ws, c)
    ensures ws[0] != [] && Free(ws[0], [c]) && AreWords(ws[1..], c) && [ws[0]] + ws[1..] == ws
  {
  }

  lemma GapsArePositive(extra: nat, m: nat)
    requires 0 < m <= extra
    ensures forall k :: 0 <= k < m ==> Gaps(extra, m)[k] >= 1
  {
    WholePart(extra, m);
    GapsAreEven(extra, m, Quotient(extra, m));
  }

  ghost predicate AreWords(ws: seq<seq<byte>>, c: byte)
  {
    forall k :: 0 <= k < |ws| ==> ws[k] != [] && Free(ws[k], [c])
  }

  lemma {:induction false} NonEmptyAre(list: seq<seq<byte>>, c: byte)
    requires forall k :: 0 <= k < |list| ==> Free(list[k], [c])
    ensures AreWords(NonEmpty(list), c)
  {
    if |list| > 0 {
      NonEmptyAre(list[1..], c);
    }
  }

  lemma WordsAreWords(s: seq<byte>, c: byte)
    ensures AreWords(Words(s, c), c)
  {
    var list := SplitFrom(s, 0, [c]);
    forall k | 0 <= k < |list|
      ensures Free(list[k], [c])
    {
      EntriesAreFree(s, [c], k);
    }
    NonEmptyAre(list, c);
  }

  lemma {:induction false} SpacesSkipped(n: nat, t: seq<byte>, c: byte)
    ensures Words(Repeat(c, n) + t, c) == Words(t, c)
  {
    if n == 0 {
      assert Repeat(c, 0) + t == t;
    } else {
      assert Repeat(c, n) + t == [c] + (Repeat(c, n - 1) + t);
      TailAtSpace([c] + (Repeat(c, n - 1) + t), c, false);
      SpacesSkipped(n - 1, t, c);
    }
  }

  lemma {:induction false} SpreadWords(w: seq<byte>, ws: seq<seq<byte>>, gaps: seq<nat>, c: byte)
    requires |ws| == |gaps| && w != [] && Free(w, [c]) && AreWords(ws, c)
    requires forall k :: 0 <= k < |gaps| ==> gaps[k] >= 1
    ensures Words(w + Spread(ws, gaps, c), c) == [w] + ws
    decreases |ws|
  {
    if |ws| == 0 {
      OneWord(w, c);
    } else {
      SpreadWords(ws[0], ws[1..], gaps[1..], c);
      assert [ws[0]] + ws[1..] == ws;
      WordAndGap(w, gaps[0], ws, Spread(ws[1..], gaps[1..], c), c);
    }
  }

  lemma OneWord(w: seq<byte>, c: byte)
    requires w != [] && Free(w, [c])
    ensures Words(w + [], c) == [w] + []
  {
    assert w + [] == w;
    SplitOne(w, [c]);
    NonEmptyMore(w, []);
    assert [w] + [] == [w];
  }

  lemma WordAndGap(w: seq<byte>, n: nat, ws: seq<seq<byte>>, y: seq<byte>, c: byte)
    requires w != [] && Free(w, [c]) && n >= 1 && |ws| > 0 && Words(ws[0] + y, c) == ws
    ensures Words(w + (Repeat(c, n) + ws[0] + y), c) == [w] + ws
  {
    var u := Repeat(c, n - 1) + (ws[0] + y);
    SpacesSkipped(n - 1, ws[0] + y, c);
    OneSpace(w, n, c, ws[0], y);
    SplitMore(w, c, u, [c]);
    NonEmptyMore(w, SplitFrom(u, 0, [c]));
  }

  lemma OneSpace(w: seq<byte>, n: nat, c: byte, x: seq<byte>, y: seq<byte>)
    requires n >= 1
    ensures w + (Repeat(c, n) + x + y) == w + [c] + (Repeat(c, n - 1) + (x + y))
  {
    assert Repeat(c, n) == [c] + Repeat(c, n - 1);
  }

  // A text is stretched exactly when it has two words at least, and they and a space
  // for each of them are shorter than the width; it then has exactly that width, and
  // any two of its gaps differ by one at most. Otherwise it is left justified.
  lemma JustifiedFits(s: seq<byte>, width: int, space: int)
    ensures var c, t := (space % 256) as byte, Justified(s, width, space);
      var ws := Words(s, c);
      if |ws| >= 2 && TotalLength(ws) + |ws| < width then
        var extra, m := width - TotalLength(ws), |ws| - 1;
        && |t| == width && t == ws[0] + Spread(ws[1..], Gaps(extra, m), c)
        && extra / m >= 1 && forall k :: 0 <= k < m ==> extra / m <= Gaps(extra, m)[k] <= extra / m + 1
      else
        t == if 0 <= space < 256 then Join(ws, [c]) else s
  {
    var c := (space % 256) as byte;
    var ws := Words(s, c);
    if |ws| >= 2 && TotalLength(ws) + |ws| < width {
      StretchedFits(ws, width, c);
      QuotientIsDivision(width - TotalLength(ws), |ws| - 1);
    }
  }

  lemma JustifiedWidth(s: seq<byte>, width: int, space: int)
    ensures var ws := Words(s, (space % 256) as byte);
      |ws| >= 2 && TotalLength(ws) + |ws| < width ==> |Justified(s, width, space)| == width
  {
    JustifiedFits(s, width, space);
  }

  // Neither form of justifying loses, breaks or reorders a word.
  lemma LeftJustifyingKeepsWords(s: seq<byte>, space: int)
    requires 0 <= space < 256
    ensures Words(Left(s, space), UnsignedChar(space)) == Words(s, UnsignedChar(space))
  {
    var c := UnsignedChar(space);
    WordsAreWords(s, c);
    LeftKeepsWords(Words(s, c), c);
  }

  lemma JustifyingKeepsWords(s: seq<byte>, width: int, space: int)
    requires 0 <= space < 256
    ensures Words(Justified(s, width, space), UnsignedChar(space)) == Words(s, UnsignedChar(space))
  {
    var ws := Words(s, UnsignedChar(space));
    if Stretches(|ws|, TotalLength(ws), width) {
      JustifiedStretched(s, width, space, ws,
        Stretched(ws, Gaps(width - TotalLength(ws), |ws| - 1), UnsignedChar(space)));
      WordsAreWords(s, UnsignedChar(space));
      WordsStretched(ws, width, UnsignedChar(space));
    } else {
      JustifiedLeft(s, width, space, ws);
      LeftJustifyingKeepsWords(s, space);
    }
  }

  lemma WordsStretched(ws: seq<seq<byte>>, width: int, c: byte)
    requires AreWords(ws, c)
    ensures |ws| >= 2 && TotalLength(ws) + |ws| < width ==>
      Words(Stretched(ws, Gaps(width - TotalLength(ws), |ws| - 1), c), c) == ws
  {
    if |ws| >= 2 && TotalLength(ws) + |ws| < width {
      var gaps := Gaps(width - TotalLength(ws), |ws| - 1);
      GapsArePositive(width - TotalLength(ws), |ws| - 1);
      StretchedKeepsWords(ws, gaps, c);
    }
  }

  lemma {:induction false} LeftKeepsWords(ws: seq<seq<byte>>, c: byte)
    requires AreWords(ws, c)
    ensures Words(Join(ws, [c]), c) == ws
  {
    if |ws| == 0 {
      SplitOne([], [c]);
      var none: seq<byte> := [];
      NonEmptyMore(none, []);
      assert [none] + [] == [none];
    } else {
      SplitUndoesJoin(ws, c);
      AllNonEmpty(ws);
    }
  }

  lemma {:induction false} AllNonEmpty(ws: seq<seq<byte>>)
    requires forall k :: 0 <= k < |ws| ==> ws[k] != []
    ensures NonEmpty(ws) == ws
  {
    if |ws| > 0 {
      AllNonEmpty(ws[1..]);
    }
  }

  lemma NonEmptyFrom(list: seq<seq<byte>>, i: nat)
    requires i < |list|
    ensures list[i] == [] ==> NonEmpty(list[i..]) == NonEmpty(list[i + 1..])
    ensures list[i] != [] ==> NonEmpty(list[i..]) == [list[i]] + NonEmpty(list[i + 1..])
  {
    assert list[i..][1..] == list[i + 1..];
  }

  // The first loop: how many words there are, and how long they are together.
  method CountWords(list: seq<seq<byte>>) returns (c: nat, l: nat)
    ensures c == |NonEmpty(list)| && l == TotalLength(NonEmpty(list))
  {
    c, l := 0, 0;
    var i := 0;
    assert list[0..] == list;
    while i < |list|
      invariant 0 <= i <= |list|
      invariant c + |NonEmpty(list[i..])| == |NonEmpty(list)|
      invariant l + TotalLength(NonEmpty(list[i..])) == TotalLength(NonEmpty(list))
    {
      NonEmptyFrom(list, i);
      if |list[i]| > 0 {
        FirstLength(list[i], NonEmpty(list[i + 1..]));
        c := c + 1;
        l := l + |list[i]|;
      }
      i := i + 1;
    }
  }

  lemma FirstLength(x: seq<byte>, ws: seq<seq<byte>>)
    ensures TotalLength([x] + ws) == |x| + TotalLength(ws)
  {
    assert ([x] + ws)[1..] == ws;
  }

  // What the second loop has still to put out: the words ws, the first of them
  // without a gap if nothing is out yet.
  ghost function ToCome(ws: seq<seq<byte>>, extra: nat, c: byte, started: bool): seq<byte>
  {
    if started then Spread(ws, Gaps(extra, |ws|), c)
    else if |ws| == 0 then []
    else ws[0] + Spread(ws[1..], Gaps(extra, |ws| - 1), c)
  }

  lemma ToComeStarted(x: seq<byte>, ws: seq<seq<byte>>, extra: nat, c: byte)
    requires Gap(extra, |ws| + 1) <= extra
    ensures ToCome([x] + ws, extra, c, true)
      == Repeat(c, Gap(extra, |ws| + 1)) + x + ToCome(ws, extra - Gap(extra, |ws| + 1), c, true)
  {
    assert ([x] + ws)[1..] == ws;
    var gaps := Gaps(extra, |ws| + 1);
    assert gaps[1..] == Gaps(extra - gaps[0], |ws|);
  }

  lemma ToComeFirst(x: seq<byte>, ws: seq<seq<byte>>, extra: nat, c: byte)
    ensures ToCome([x] + ws, extra, c, false) == x + ToCome(ws, extra, c, true)
  {
    assert ([x] + ws)[1..] == ws;
  }

  // One word of the second loop; m is the source's c.
  method PutWord(b: Bstring, x: seq<byte>, ghost ws: seq<seq<byte>>, extra: nat, m: nat, c: byte, ghost all: seq<byte>)
    returns (extra': nat)
    requires b.Valid() && x != [] && |all| + 2 < MAX_SIZE && m == |ws| + 1
    requires all == b.Text() + ToCome([x] + ws, extra, c, b.slen > 0)
    requires b.slen > 0 ==> 1 <= Gap(extra, m) <= extra
    modifies b, b.data
    ensures b.Valid() && b.slen > 0 && (b.data == old(b.data) || fresh(b.data))
    ensures all == b.Text() + ToCome(ws, extra', c, true)
    ensures extra' == if old(b.slen) > 0 then extra - Gap(extra, m) else extra
  {
    extra' := extra;
    ghost var was := b.Text();
    if b.slen > 0 {
      ToComeStarted(x, ws, extra, c);
      extra' := AppendGap(b, extra, m, c);
      Parts(was, Repeat(c, Gap(extra, m)), x, ToCome(ws, extra', c, true));
    } else {
      ToComeFirst(x, ws, extra, c);
      Assoc(was, x, ToCome(ws, extra, c, true));
    }
    Put(b, x);
  }

  lemma Parts(a: seq<byte>, b: seq<byte>, x: seq<byte>, y: seq<byte>)
    ensures a + (b + x + y) == a + b + x + y
  {
  }

  // The space before a word that is not the first.
  method AppendGap(b: Bstring, extra: nat, m: nat, c: byte) returns (extra': nat)
    requires b.Valid() && m > 0 && 1 <= Gap(extra, m) <= extra && b.slen + Gap(extra, m) + 1 < MAX_SIZE
    modifies b, b.data
    ensures b.Valid() && (b.data == old(b.data) || fresh(b.data))
    ensures b.Text() == old(b.Text()) + Repeat(c, Gap(extra, m)) && extra' == extra - Gap(extra, m)
  {
    QuotientIsDivision(extra + m / 2, m);
    var s := (extra + m / 2) / m;
    AppendRun(b, s, c);
    extra' := extra - s;
  }

  // bInsertChrs at the end of the string
  method AppendRun(b: Bstring, s: nat, c: byte)
    requires b.Valid() && s > 0 && b.slen + s + 1 < MAX_SIZE
    modifies b, b.data
    ensures b.Valid() && (b.data == old(b.data) || fresh(b.data))
    ensures b.Text() == old(b.Text()) + Repeat(c, s)
  {
    ghost var text := b.Text();
    var ret := BInsertChrs(b, b.slen, s, c, c);
    assert text[..|text|] == text && text[|text|..] == [];
  }

  // Text is out, the words ws are to come, and extra is enough for their gaps.
  ghost predicate Stretching(text: seq<byte>, ws: seq<seq<byte>>, extra: nat, c: byte, all: seq<byte>)
  {
    && (if |text| > 0 then |ws| else |ws| - 1) <= extra
    && all == text + ToCome(ws, extra, c, |text| > 0)
  }

  // One turn of the second loop.
  method StretchOne(b: Bstring, x: seq<byte>, ghost ws: seq<seq<byte>>, extra: nat, m: nat, c: byte,
                    ghost all: seq<byte>) returns (extra': nat)
    requires b.Valid() && x != [] && |all| + 2 < MAX_SIZE && m == |ws| + 1
    requires Stretching(b.Text(), [x] + ws, extra, c, all)
    modifies b, b.data
    ensures b.Valid() && (b.data == old(b.data) || fresh(b.data))
    ensures Stretching(b.Text(), ws, extra', c, all)
  {
    EnoughLeft(extra, m);
    extra' := PutWord(b, x, ws, extra, m, c, all);
  }

  // The second loop: the words with their gaps, straight into b.
  method StretchWords(b: Bstring, list: seq<seq<byte>>, m0: nat, extra0: nat, c: byte, ghost all: seq<byte>)
    requires b.Valid() && b.slen == 0 && m0 == |NonEmpty(list)| && |all| + 2 < MAX_SIZE
    requires Stretching([], NonEmpty(list), extra0, c, all)
    modifies b, b.data
    ensures b.Valid() && b.Text() == all
  {
    var i, m, extra := 0, m0, extra0;
    assert list[0..] == list;
    while i < |list| && m > 0
      invariant 0 <= i <= |list| && b.Valid() && m == |NonEmpty(list[i..])|
      invariant b.data == old(b.data) || fresh(b.data)
      invariant Stretching(b.Text(), NonEmpty(list[i..]), extra, c, all)
    {
      NonEmptyFrom(list, i);
      if |list[i]| > 0 {
        extra := StretchOne(b, list[i], NonEmpty(list[i + 1..]), extra, m, c, all);
        m := m - 1;
      }
      i := i + 1;
    }
    assert NonEmpty(list[i..]) == [];
  }

  // The gaps never use up what later gaps need.
  lemma EnoughLeft(extra: nat, m: nat)
    requires 0 < m
    ensures m <= extra ==> 1 <= Gap(extra, m) <= extra && m - 1 <= extra - Gap(extra, m)
  {
    if m <= extra {
      var q := Quotient(extra, m);
      WholePart(extra, m);
      GapBetween(extra, m, q);
      assert q * (m - 1) >= m - 1 by {
        Distribute(q - 1, m);
      }
    }
  }

  method StretchToWidth(b: Bstring, list: seq<seq<byte>>, c: nat, width: int, l: nat, ch: byte)
    requires b.Valid() && b.slen == 0 && width + 2 < MAX_SIZE
    requires c == |NonEmpty(list)| >= 2 && l == TotalLength(NonEmpty(list)) && l + c < width
    modifies b, b.data
    ensures b.Valid() && b.Text() == Stretched(NonEmpty(list), Gaps(width - l, c - 1), ch)
  {
    StretchedStanding(NonEmpty(list), width, ch);
    StretchWords(b, list, c, width - l, ch, Stretched(NonEmpty(list), Gaps(width - l, c - 1), ch));
  }

  lemma StretchedStanding(ws: seq<seq<byte>>, width: int, c: byte)
    requires |ws| >= 2 && TotalLength(ws) + |ws| < width
    ensures var all := Stretched(ws, Gaps(width - TotalLength(ws), |ws| - 1), c);
      |all| == width && Stretching([], ws, width - TotalLength(ws), c, all)
  {
    StretchedFits(ws, width, c);
  }

  // bJustifyMargin
  method BJustifyMargin(b: Bstring, width: int, space: int) returns (ret: int)
    requires b.Valid() && width + 2 < MAX_SIZE
    modifies b, b.data
    ensures b.Valid() && ret == BSTR_OK
    ensures b.Text() == Justified(old(b.Text()), width, space)
    ensures var ws := Words(old(b.Text()), (space % 256) as byte);
      |ws| >= 2 && TotalLength(ws) + |ws| < width ==> b.slen == width
  {
    JustifiedWidth(b.Text(), width, space);
    var ch := UnsignedChar(space);
    var list := Bsplit(b.AsView(), ch);
    var c, l := CountWords(list);
    if l + c >= width || c < 2 {
      JustifiedLeft(b.Text(), width, space, NonEmpty(list));
      ret := BJustifyLeft(b, space);
    } else {
      JustifiedStretched(b.Text(), width, space, NonEmpty(list), Stretched(NonEmpty(list), Gaps(width - l, c - 1), ch));
      b.slen := 0;
      StretchToWidth(b, list, c, width, l, ch);
      ret := BSTR_OK;
    }
  }
}

// Lists of strings: bsplit, bsplits, bsplitstr and bjoin, and what they undo.
module Joins {
  import opened Bstrings
  import opened Memory
  import opened Search
  import opened Splits
  import opened Streams

  // The entries with sep between them.
  function Join(list: seq<seq<byte>>, sep: seq<byte>): seq<byte>
  {
    if |list| == 0 then []
    else if |list| == 1 then list[0]
    else list[0] + sep + Join(list[1..], sep)
  }

  function Texts(c: seq<Piece>): seq<seq<byte>>
  {
    if |c| == 0 then [] else [c[0].text] + Texts(c[1..])
  }

  lemma {:induction false} TextsAt(c: seq<Piece>, k: nat)
    ensures |Texts(c)| == |c|
    ensures k < |c| ==> Texts(c)[k] == c[k].text
  {
    if |c| > 0 {
      TextsAt(c[1..], if k > 0 then k - 1 else 0);
    }
  }

  // Where entry k begins when n characters stand between two entries.
  function Start(list: seq<seq<byte>>, n: nat, k: nat): nat
    requires k <= |list|
  {
    if k == 0 then 0 else |list[0]| + n + Start(list[1..], n, k - 1)
  }

  // Every entry stands at its place, the separator behind all but the last.
  lemma {:induction false} JoinAt(list: seq<seq<byte>>, sep: seq<byte>, k: nat, at: nat)
    requires k < |list| && at == Start(list, |sep|, k)
    ensures EntryAt(Join(list, sep), at, list[k], sep, k + 1 == |list|)
  {
    if |list| > 1 {
      JoinFirst(list, sep);
      if k > 0 {
        var n := |list[0]| + |sep|;
        JoinAt(list[1..], sep, k - 1, at - n);
        EntryFurther(Join(list, sep), n, at - n, list[k], sep, k + 1 == |list|);
      }
    }
  }

  ghost predicate EntryAt(t: seq<byte>, at: nat, x: seq<byte>, sep: seq<byte>, last: bool)
  {
    && at + |x| <= |t| && t[at..at + |x|] == x
    && (if last then at + |x| == |t| else at + |x| + |sep| <= |t| && t[at + |x|..at + |x| + |sep|] == sep)
  }

  lemma EntryFurther(t: seq<byte>, n: nat, at: nat, x: seq<byte>, sep: seq<byte>, last: bool)
    requires n <= |t| && EntryAt(t[n..], at, x, sep, last)
    ensures EntryAt(t, n + at, x, sep, last)
  {
    SliceOfSuffix(t, n, at, at + |x|);
    if !last {
      SliceOfSuffix(t, n, at + |x|, at + |x| + |sep|);
    }
  }

  lemma JoinFirst(list: seq<seq<byte>>, sep: seq<byte>)
    requires |list| > 1
    ensures var t, n := Join(list, sep), |list[0]|;
      n + |sep| <= |t| && t[..n] == list[0] == t[0..n] && t[n..n + |sep|] == sep
        && t[n + |sep|..] == Join(list[1..], sep)
  {
  }

  // ---------- bjoin ----------

  // The size bjoin computes: all entries, the separators between them and a NUL.
  function JoinedSize(list: seq<seq<byte>>, seplen: nat): int
  {
    TotalLength(list) + 1 + (|list| - 1) * seplen
  }

  function TotalLength(list: seq<seq<byte>>): nat
  {
    if |list| == 0 then 0 else |list[0]| + TotalLength(list[1..])
  }

  lemma {:induction false} JoinLength(list: seq<seq<byte>>, sep: seq<byte>)
    requires |list| > 0
    ensures |Join(list, sep)| + 1 == JoinedSize(list, |sep|)
  {
    if |list| > 1 {
      JoinLength(list[1..], sep);
      assert JoinedSize(list, |sep|) == |list[0]| + |sep| + JoinedSize(list[1..], |sep|) by {
        assert (|list| - 1) * |sep| == (|list| - 2) * |sep| + |sep|;
      }
    } else {
      assert TotalLength(list[1..]) == 0;
    }
  }

  // What bjoin has still to write before entry i.
  ghost function ToWrite(list: seq<seq<byte>>, sep: seq<byte>, i: nat): seq<byte>
    requires i <= |list|
  {
    if i == |list| then [] else (if i > 0 then sep else []) + Join(list[i..], sep)
  }

  lemma ToWriteStep(list: seq<seq<byte>>, sep: seq<byte>, i: nat)
    requires i < |list|
    ensures ToWrite(list, sep, i) == (if i > 0 then sep else []) + list[i] + ToWrite(list, sep, i + 1)
  {
    if i + 1 < |list| {
      assert list[i..][1..] == list[i + 1..];
    }
  }

  // Appends x to the first c bytes of the block.
  method StoreNext(data: array<byte>, c: nat, x: seq<byte>, ghost rest: seq<byte>, ghost all: seq<byte>)
    returns (c': nat)
    requires c + |x| + |rest| < data.Length && data[..c] + x + rest == all
    modifies data
    ensures c' == c + |x| && data[..c'] + rest == all
  {
    ghost var block := data[..];
    Store(data, c, x);
    c' := c + |x|;
    assert data[..c'] == block[..c] + x;
  }

  // bjoin. With no entries the size comes out as one less the separator's length:
  // for any separator but the empty one there is then no block for the result.
  method Bjoin(list: seq<seq<byte>>, sep: seq<byte>) returns (b: Bstring?)
    ensures b == null <==> list == [] && sep != []
    ensures b != null ==> fresh(b) && fresh(b.data) && b.Valid() && b.Terminated() && b.Text() == Join(list, sep)
  {
    var c := 1;
    var i := 0;
    while i < |list|
      invariant 0 <= i <= |list| && c + TotalLength(list[i..]) == TotalLength(list) + 1
    {
      assert list[i..][1..] == list[i + 1..];
      c := c + |list[i]|;
      i := i + 1;
    }
    c := c + (|list| - 1) * |sep|;
    if |list| > 0 {
      JoinLength(list, sep);
    }
    if c <= 0 {
      return null;
    }
    var r := new Bstring.Sized(c);
    WriteEntries(r, list, sep);
    b := r;
  }

  lemma Grouped(done: seq<byte>, front: seq<byte>, x: seq<byte>, rest: seq<byte>)
    ensures done + (front + x + rest) == done + front + (x + rest)
  {
  }

  method WriteEntry(b: Bstring, list: seq<seq<byte>>, sep: seq<byte>, i: nat, c: nat, ghost all: seq<byte>)
    returns (c': nat)
    requires b.Valid() && b.slen == |all| && i < |list| && c <= b.slen
    requires b.data[..c] + ToWrite(list, sep, i) == all
    modifies b.data
    ensures c' <= b.slen && b.data[..c'] + ToWrite(list, sep, i + 1) == all
  {
    ToWriteStep(list, sep, i);
    var front := if i > 0 then sep else [];
    ghost var rest := ToWrite(list, sep, i + 1);
    Grouped(b.data[..c], front, list[i], rest);
    c' := StoreNext(b.data, c, front, list[i] + rest, all);
    Assoc(b.data[..c'], list[i], rest);
    c' := StoreNext(b.data, c', list[i], rest, all);
  }

  method WriteEntries(b: Bstring, list: seq<seq<byte>>, sep: seq<byte>)
    requires b.Valid() && b.slen == |Join(list, sep)|
    modifies b.data
    ensures b.Terminated() && b.Text() == Join(list, sep)
  {
    ghost var all := Join(list, sep);
    var i, c: nat := 0, 0;
    assert list[0..] == list;
    assert ToWrite(list, sep, 0) == all;
    while i < |list|
      invariant 0 <= i <= |list| && c <= b.slen && b.data[..c] + ToWrite(list, sep, i) == all
    {
      c := WriteEntry(b, list, sep, i, c, all);
      i := i + 1;
    }
    b.data[c] := 0;
  }

  // ---------- splitting into a list ----------

  lemma {:induction false} PiecesCount(s: seq<byte>, p: nat, ts: seq<byte>)
    requires p <= |s|
    ensures 1 <= |PiecesFrom(s, p, ts)| <= |s| - p + 1
    decreases |s| - p
  {
    var i := NextSplit(s, p, ts);
    PiecesUnfold(s, p, i, ts);
    if i < |s| {
      PiecesCount(s, i + 1, ts);
    }
  }

  // bsplits: the pieces, copied.
  method Bsplits(str: View, splitStr: View) returns (list: seq<seq<byte>>)
    requires str.Valid() && splitStr.Valid()
    ensures splitStr.slen == 0 ==> list == [str.Text()]
    ensures splitStr.slen > 0 ==> list == SplitFrom(str.Text(), 0, splitStr.Text())
  {
    var cb := new Recorder(str.slen + 2);
    PiecesCount(str.Text(), 0, splitStr.Text());
    var ret := Bsplitscb(str, splitStr, 0, cb);
    TextsAreSplit(str.Text(), 0, splitStr.Text());
    TextsAt([Piece(0, str.Text())], 0);
    list := Texts(cb.calls);
  }

  // bsplit: the pieces divided by one character.
  method Bsplit(str: View, splitChar: byte) returns (list: seq<seq<byte>>)
    requires str.Valid()
    ensures list == SplitFrom(str.Text(), 0, [splitChar])
  {
    var sep := new byte[1](_ => splitChar);
    assert sep[0..1] == [splitChar];
    list := Bsplits(str, View(sep, 0, 1));
  }

  // The same texts without their positions.
  function SplitFrom(s: seq<byte>, p: nat, ts: seq<byte>): (list: seq<seq<byte>>)
    requires p <= |s|
    ensures |list| > 0
    decreases |s| - p
  {
    var i := NextSplit(s, p, ts);
    [s[p..i]] + if i < |s| then SplitFrom(s, i + 1, ts) else []
  }

  lemma MoreTexts(s: seq<byte>, p: nat, i: nat, ts: seq<byte>)
    requires p <= i < |s| && i == NextSplit(s, p, ts)
    requires Texts(PiecesFrom(s, i + 1, ts)) == SplitFrom(s, i + 1, ts)
    ensures Texts(PiecesFrom(s, p, ts)) == SplitFrom(s, p, ts)
  {
    PiecesUnfold(s, p, i, ts);
    SplitUnfold(s, p, i, ts);
    TextsCons(Piece(p, s[p..i]), PiecesFrom(s, i + 1, ts));
  }

  lemma {:induction false} TextsAreSplit(s: seq<byte>, p: nat, ts: seq<byte>)
    requires p <= |s|
    ensures Texts(PiecesFrom(s, p, ts)) == SplitFrom(s, p, ts)
    decreases |s| - p
  {
    var i := NextSplit(s, p, ts);
    if i < |s| {
      TextsAreSplit(s, i + 1, ts);
      MoreTexts(s, p, i, ts);
    } else {
      LastText(s, p, ts);
    }
  }

  lemma LastText(s: seq<byte>, p: nat, ts: seq<byte>)
    requires p <= |s| && NextSplit(s, p, ts) == |s|
    ensures Texts(PiecesFrom(s, p, ts)) == SplitFrom(s, p, ts)
  {
    TextsCons(Piece(p, s[p..|s|]), []);
    SplitUnfold(s, p, |s|, ts);
  }

  lemma TextsCons(x: Piece, c: seq<Piece>)
    ensures Texts([x] + c) == [x.text] + Texts(c)
  {
    assert ([x] + c)[1..] == c;
  }

  // The pieces divided by the character c, joined by it, are the text again.
  lemma {:induction false} JoinUndoesSplit(s: seq<byte>, p: nat, c: byte)
    requires p <= |s|
    ensures Join(SplitFrom(s, p, [c]), [c]) == s[p..]
    decreases |s| - p
  {
    var i := NextSplit(s, p, [c]);
    SplitUnfold(s, p, i, [c]);
    if i < |s| {
      JoinUndoesSplit(s, i + 1, c);
      JoinBack(s, p, i, c, SplitFrom(s, i + 1, [c]));
    } else {
      JoinEnd(s, p, [c]);
    }
  }

  lemma JoinOne(x: seq<byte>, sep: seq<byte>)
    ensures Join([x], sep) == x
  {
  }

  lemma JoinEnd(s: seq<byte>, p: nat, sep: seq<byte>)
    requires p <= |s|
    ensures Join([s[p..|s|]], sep) == s[p..]
  {
    JoinOne(s[p..|s|], sep);
  }

  lemma JoinBack(s: seq<byte>, p: nat, i: nat, c: byte, rest: seq<seq<byte>>)
    requires p <= i < |s| && s[i] == c && |rest| > 0 && Join(rest, [c]) == s[i + 1..]
    ensures Join([s[p..i]] + rest, [c]) == s[p..]
  {
    JoinMore(s[p..i], rest, [c]);
    CutInThree(s, p, i, i + 1);
  }

  lemma CutInThree(s: seq<byte>, p: nat, i: nat, j: nat)
    requires p <= i <= j <= |s|
    ensures s[p..] == s[p..i] + s[i..j] + s[j..]
  {
  }

  lemma JoinMore(x: seq<byte>, list: seq<seq<byte>>, sep: seq<byte>)
    requires |list| > 0
    ensures Join([x] + list, sep) == x + sep + Join(list, sep)
  {
    assert ([x] + list)[1..] == list;
  }

  // No entry of the list contains a separator.
  lemma EntriesAreFree(s: seq<byte>, ts: seq<byte>, k: nat)
    requires k < |SplitFrom(s, 0, ts)|
    ensures Free(SplitFrom(s, 0, ts)[k], ts)
  {
    TextsAreSplit(s, 0, ts);
    TextsAt(PiecesFrom(s, 0, ts), k);
    PiecesAreSeparated(s, 0, ts, PiecesFrom(s, 0, ts), k);
  }

  lemma {:induction false} NextSplitShifted(s: seq<byte>, p: nat, t: seq<byte>, k: nat, ts: seq<byte>)
    requires p + k <= |s| && t == s[p..]
    ensures NextSplit(s, p + k, ts) == p + NextSplit(t, k, ts)
    decreases |s| - k
  {
    if p + k < |s| {
      assert t[k] == s[p + k];
      if s[p + k] !in ts {
        NextSplitShifted(s, p, t, k + 1, ts);
      }
    }
  }

  // A split of the text behind p does not depend on what stands before.
  lemma {:induction false} SplitShifted(s: seq<byte>, p: nat, t: seq<byte>, k: nat, ts: seq<byte>)
    requires p + k <= |s| && t == s[p..]
    ensures SplitFrom(s, p + k, ts) == SplitFrom(t, k, ts)
    decreases |s| - k, 1
  {
    var i := NextSplit(t, k, ts);
    NextSplitShifted(s, p, t, k, ts);
    SliceOfSuffix(s, p, k, i);
    if i == |t| {
      SameLast(s, p + k, t, k, ts);
    } else {
      SplitShiftedOn(s, p, t, k, i, ts);
    }
  }

  lemma {:induction false} SplitShiftedOn(s: seq<byte>, p: nat, t: seq<byte>, k: nat, i: nat, ts: seq<byte>)
    requires p + k <= |s| && t == s[p..] && i == NextSplit(t, k, ts) < |t| && p + i == NextSplit(s, p + k, ts)
    requires s[p + k..p + i] == t[k..i]
    ensures SplitFrom(s, p + k, ts) == SplitFrom(t, k, ts)
    decreases |s| - k, 0
  {
    SplitShifted(s, p, t, i + 1, ts);
    SameSplit(s, p + k, p + i, t, k, i, ts);
  }

  lemma SameLast(s: seq<byte>, p: nat, t: seq<byte>, q: nat, ts: seq<byte>)
    requires p <= |s| && NextSplit(s, p, ts) == |s| && q <= |t| && NextSplit(t, q, ts) == |t|
    requires s[p..|s|] == t[q..|t|]
    ensures SplitFrom(s, p, ts) == SplitFrom(t, q, ts)
  {
    SplitUnfold(s, p, |s|, ts);
    SplitUnfold(t, q, |t|, ts);
  }

  lemma SplitUnfold(s: seq<byte>, p: nat, i: nat, ts: seq<byte>)
    requires p <= |s| && i == NextSplit(s, p, ts)
    ensures i < |s| ==> SplitFrom(s, p, ts) == [s[p..i]] + SplitFrom(s, i + 1, ts)
    ensures i == |s| ==> SplitFrom(s, p, ts) == [s[p..i]]
  {
  }

  lemma SameSplit(s: seq<byte>, p: nat, i: nat, t: seq<byte>, q: nat, j: nat, ts: seq<byte>)
    requires p <= |s| && i == NextSplit(s, p, ts) && q <= |t| && j == NextSplit(t, q, ts)
    requires s[p..i] == t[q..j] && i < |s| && j < |t| && SplitFrom(s, i + 1, ts) == SplitFrom(t, j + 1, ts)
    ensures SplitFrom(s, p, ts) == SplitFrom(t, q, ts)
  {
    SplitUnfold(s, p, i, ts);
    SplitUnfold(t, q, j, ts);
  }

  lemma SplitOne(x: seq<byte>, ts: seq<byte>)
    requires Free(x, ts)
    ensures SplitFrom(x, 0, ts) == [x]
  {
    assert x[0..|x|] == x;
    NextSplitAt(x, 0, |x|, ts);
  }

  lemma SplitMore(x: seq<byte>, c: byte, t: seq<byte>, ts: seq<byte>)
    requires Free(x, ts) && c in ts
    ensures SplitFrom(x + [c] + t, 0, ts) == [x] + SplitFrom(t, 0, ts)
  {
    var s := x + [c] + t;
    assert s[..|x|] == x && s[|x| + 1..] == t && s[0..|x|] == s[..|x|];
    NextSplitAt(s, 0, |x|, ts);
    SplitShifted(s, |x| + 1, t, 0, ts);
    SplitKnown(s, |x|, SplitFrom(t, 0, ts), ts);
  }

  lemma SplitLonger(x: byte, t: seq<byte>, c: byte)
    requires x != c
    ensures var l := SplitFrom(t, 0, [c]);
      SplitFrom([x] + t, 0, [c]) == [[x] + l[0]] + l[1..]
  {
    var s, i := [x] + t, NextSplit(t, 0, [c]);
    OneMore(x, t, i);
    NextSplitShifted(s, 1, t, 0, [c]);
    assert NextSplit(s, 0, [c]) == NextSplit(s, 1, [c]);
    var rest := if i < |t| then SplitFrom(t, i + 1, [c]) else [];
    if i < |t| {
      SplitShifted(s, 1, t, i + 1, [c]);
    }
    SplitKnown(t, i, rest, [c]);
    SplitKnown(s, i + 1, rest, [c]);
  }

  lemma OneMore(x: byte, t: seq<byte>, i: nat)
    requires i <= |t|
    ensures ([x] + t)[1..] == t && ([x] + t)[..i + 1] == [x] + t[..i]
  {
  }

  lemma SplitKnown(s: seq<byte>, i: nat, rest: seq<seq<byte>>, ts: seq<byte>)
    requires i == NextSplit(s, 0, ts)
    requires rest == if i < |s| then SplitFrom(s, i + 1, ts) else []
    ensures SplitFrom(s, 0, ts) == [s[..i]] + rest
    ensures ([s[..i]] + rest)[0] == s[..i] && ([s[..i]] + rest)[1..] == rest
  {
    assert s[0..i] == s[..i];
  }

  // Splitting undoes joining too, when no entry contains the separator.
  lemma {:induction false} SplitUndoesJoin(list: seq<seq<byte>>, c: byte)
    requires |list| > 0 && forall k :: 0 <= k < |list| ==> Free(list[k], [c])
    ensures SplitFrom(Join(list, [c]), 0, [c]) == list
  {
    if |list| == 1 {
      SplitOne(list[0], [c]);
    } else {
      SplitMore(list[0], c, Join(list[1..], [c]), [c]);
      SplitUndoesJoin(list[1..], c);
    }
  }

  // ---------- bsplitstr ----------

  // The list bsplitstr makes: p is where the current piece starts, i where the
  // next comparison is made. Behind a match the comparisons resume one place late.
  function StrPieces(s: seq<byte>, p: nat, i: nat, sep: seq<byte>): seq<seq<byte>>
    requires p <= |s| && p <= i && |sep| > 0
    decreases |s| + 1 - i
  {
    var m := Find(s, i, sep);
    if m < 0 then [s[p..]] else [s[p..m]] + StrPieces(s, m + |sep|, m + |sep| + 1, sep)
  }

  function Characters(s: seq<byte>): seq<seq<byte>>
  {
    if |s| == 0 then [] else [[s[0]]] + Characters(s[1..])
  }

  lemma {:induction false} CharactersAre(s: seq<byte>, k: nat)
    ensures |Characters(s)| == |s|
    ensures k < |s| ==> Characters(s)[k] == [s[k]]
  {
    if |s| > 0 {
      CharactersAre(s[1..], if k > 0 then k - 1 else 0);
    }
  }

  // Each piece is the text up to the first occurrence behind its own first character,
  // or to the end; only the very first piece may be empty.
  lemma StrPieceEnds(s: seq<byte>, sep: seq<byte>, l: seq<seq<byte>>, k: nat, at: nat)
    requires |sep| > 0 && l == StrPieces(s, 0, 0, sep) && k < |l| && at == Start(l, |sep|, k)
    ensures PieceAt(s, at, l[k], sep, if k == 0 then 0 else at + 1, k + 1 == |l|)
  {
    StrPiecesFrom(s, 0, 0, sep, l, k, at);
    FirstStrPiece(s, at, if k == 0 then 0 else at + 1, sep, l[k..]);
  }

  lemma {:induction false} StrPiecesFrom(s: seq<byte>, p: nat, i: nat, sep: seq<byte>, l: seq<seq<byte>>, k: nat,
                                         at: nat)
    requires p <= |s| && p <= i && |sep| > 0 && l == StrPieces(s, p, i, sep)
    requires k < |l| && at == p + Start(l, |sep|, k)
    ensures at <= |s| && l[k..] == StrPieces(s, at, if k == 0 then i else at + 1, sep)
    decreases k
  {
    if k > 0 {
      var q, rest := StrStep(s, p, i, sep, l, k, at);
      StrPiecesFrom(s, q, q + 1, sep, rest, k - 1, at);
    } else {
      assert l[0..] == l;
    }
  }

  lemma StrStep(s: seq<byte>, p: nat, i: nat, sep: seq<byte>, l: seq<seq<byte>>, k: nat, at: nat)
    returns (q: nat, rest: seq<seq<byte>>)
    requires p <= |s| && p <= i && |sep| > 0 && l == StrPieces(s, p, i, sep)
    requires 0 < k < |l| && at == p + Start(l, |sep|, k)
    ensures q <= |s| && rest == StrPieces(s, q, q + 1, sep) && k - 1 < |rest|
    ensures at == q + Start(rest, |sep|, k - 1) && l[k..] == rest[k - 1..]
    ensures k == 1 ==> at == q
  {
    var m := MoreStrPieces(s, p, i, sep, l);
    q := m + |sep|;
    rest := BehindStrPiece(s, p, i, sep, l, m);
    StartBehind(s[p..m], rest, |sep|, k);
    ListBehind(s[p..m], rest, k);
  }

  lemma MoreStrPieces(s: seq<byte>, p: nat, i: nat, sep: seq<byte>, l: seq<seq<byte>>) returns (m: nat)
    requires p <= |s| && p <= i && |sep| > 0 && l == StrPieces(s, p, i, sep) && |l| > 1
    ensures Find(s, i, sep) == m && i <= m
  {
    m := Find(s, i, sep);
  }

  lemma FirstStrPiece(s: seq<byte>, p: nat, i: nat, sep: seq<byte>, l: seq<seq<byte>>)
    requires p <= |s| && p <= i && |sep| > 0 && l == StrPieces(s, p, i, sep)
    ensures |l| > 0 && PieceAt(s, p, l[0], sep, i, |l| == 1)
  {
    var m := Find(s, i, sep);
    if m >= 0 {
      var rest := BehindStrPiece(s, p, i, sep, l, m);
      FirstPieceAt(s, p, i, m, sep, rest);
    }
  }

  lemma BehindStrPiece(s: seq<byte>, p: nat, i: nat, sep: seq<byte>, l: seq<seq<byte>>, m: nat)
    returns (rest: seq<seq<byte>>)
    requires p <= |s| && p <= i && |sep| > 0 && l == StrPieces(s, p, i, sep) && Find(s, i, sep) == m
    ensures i <= m && m + |sep| <= |s| && |rest| > 0
    ensures rest == StrPieces(s, m + |sep|, m + |sep| + 1, sep) && l == [s[p..m]] + rest
  {
    StrUnfold(s, p, i, sep, m);
    rest := StrPieces(s, m + |sep|, m + |sep| + 1, sep);
  }

  lemma FirstPieceAt(s: seq<byte>, p: nat, i: nat, m: nat, sep: seq<byte>, rest: seq<seq<byte>>)
    requires p <= m <= |s| && Find(s, i, sep) == m && |rest| > 0
    ensures PieceAt(s, p, ([s[p..m]] + rest)[0], sep, i, false) && |[s[p..m]] + rest| > 1
  {
  }

  // A piece from at on ends where sep is found from position i on, or is the last.
  ghost predicate PieceAt(s: seq<byte>, at: nat, x: seq<byte>, sep: seq<byte>, i: nat, last: bool)
  {
    && at + |x| <= |s| && s[at..at + |x|] == x
    && (if last then Find(s, i, sep) < 0 && at + |x| == |s| else Find(s, i, sep) == at + |x|)
  }

  lemma StartBehind(x: seq<byte>, l: seq<seq<byte>>, n: nat, k: nat)
    requires 0 < k <= |l|
    ensures Start([x] + l, n, k) == |x| + n + Start(l, n, k - 1) && ([x] + l)[k] == l[k - 1]
  {
    assert ([x] + l)[1..] == l;
  }

  function StrSplit(s: seq<byte>, sep: seq<byte>): seq<seq<byte>>
  {
    if |sep| == 0 then Characters(s)
    else if |sep| == 1 then SplitFrom(s, 0, sep)
    else StrPieces(s, 0, 0, sep)
  }

  lemma StrUnfold(s: seq<byte>, p: nat, i: nat, sep: seq<byte>, m: nat)
    requires p <= |s| && p <= i && |sep| > 0 && Find(s, i, sep) == m
    ensures m + |sep| <= |s|
    ensures StrPieces(s, p, i, sep) == [s[p..m]] + StrPieces(s, m + |sep|, m + |sep| + 1, sep)
  {
  }

  lemma StrSkip(s: seq<byte>, p: nat, i: nat, sep: seq<byte>)
    requires p <= |s| && p <= i && |sep| > 0 && Find(s, i, sep) != i
    ensures StrPieces(s, p, i, sep) == StrPieces(s, p, i + 1, sep)
  {
    FindLater(s, i, sep);
  }

  // bsplitstr
  method Bsplitstr(str: View, splitStr: View) returns (list: seq<seq<byte>>)
    requires str.Valid() && splitStr.Valid()
    ensures list == StrSplit(str.Text(), splitStr.Text())
  {
    if splitStr.slen == 0 {
      list := EachCharacter(str);
    } else if splitStr.slen == 1 {
      list := Bsplits(str, splitStr);
    } else {
      list := CompareAndSplit(str, splitStr);
    }
  }

  method EachCharacter(str: View) returns (list: seq<seq<byte>>)
    requires str.Valid()
    ensures list == Characters(str.Text())
  {
    ghost var s := str.Text();
    list := [];
    var i := 0;
    while i < str.slen
      invariant 0 <= i <= |s| && list + Characters(s[i..]) == Characters(s)
    {
      assert s[i..][1..] == s[i + 1..];
      list := list + [[str.At(i)]];
      i := i + 1;
    }
  }

  method CompareAndSplit(str: View, splitStr: View) returns (list: seq<seq<byte>>)
    requires str.Valid() && splitStr.Valid() && splitStr.slen >= 2
    ensures list == StrPieces(str.Text(), 0, 0, splitStr.Text())
  {
    ghost var s, sep := str.Text(), splitStr.Text();
    var l := splitStr.slen;
    list := [];
    var p: nat, i: nat := 0, 0;
    while i <= str.slen - l
      invariant p <= |s| && p <= i && list + StrPieces(s, p, i, sep) == StrPieces(s, 0, 0, sep)
      decreases |s| - i
    {
      list, p, i := CompareOnce(str, splitStr, list, p, i, StrPieces(s, 0, 0, sep));
    }
    LastStrPiece(s, p, i, sep);
    list := list + [str.Slice(p, str.slen)];
  }

  lemma LastStrPiece(s: seq<byte>, p: nat, i: nat, sep: seq<byte>)
    requires p <= |s| && p <= i && |sep| > 0 && i + |sep| > |s|
    ensures StrPieces(s, p, i, sep) == [s[p..]] && s[p..] == s[p..|s|]
  {
    FindIsLeast(s, i, sep);
  }

  // bstr__memcmp
  predicate OccursAt(str: View, splitStr: View, i: nat)
    requires str.Valid() && splitStr.Valid() && i + splitStr.slen <= str.slen
    reads str.data, splitStr.data
    ensures OccursAt(str, splitStr, i) <==> Occurs(str.Text(), splitStr.Text(), i)
  {
    splitStr.Slice(0, splitStr.slen) == str.Slice(i, i + splitStr.slen)
  }

  // One turn of the loop.
  method CompareOnce(str: View, splitStr: View, list: seq<seq<byte>>, p: nat, i: nat, ghost all: seq<seq<byte>>)
    returns (list': seq<seq<byte>>, p': nat, i': nat)
    requires str.Valid() && splitStr.Valid() && splitStr.slen >= 2 && p <= i && i + splitStr.slen <= str.slen
    requires list + StrPieces(str.Text(), p, i, splitStr.Text()) == all
    ensures p' <= str.slen && p' <= i' && i < i'
    ensures list' + StrPieces(str.Text(), p', i', splitStr.Text()) == all
  {
    ghost var s, sep := str.Text(), splitStr.Text();
    list', p', i' := list, p, i;
    if OccursAt(str, splitStr, i) {
      list', p' := AddPiece(str, splitStr, list, p, i, all);
      i' := p';
    } else {
      StrSkip(s, p, i, sep);
    }
    i' := i' + 1;
  }

  method AddPiece(str: View, splitStr: View, list: seq<seq<byte>>, p: nat, i: nat, ghost all: seq<seq<byte>>)
    returns (list': seq<seq<byte>>, p': nat)
    requires str.Valid() && splitStr.Valid() && splitStr.slen >= 2 && p <= i && i + splitStr.slen <= str.slen
    requires Find(str.Text(), i, splitStr.Text()) == i && list + StrPieces(str.Text(), p, i, splitStr.Text()) == all
    ensures p' == i + splitStr.slen <= str.slen
    ensures list' + StrPieces(str.Text(), p', p' + 1, splitStr.Text()) == all
  {
    TakePiece(str.Text(), p, i, splitStr.Text(), list, all);
    list', p' := list + [str.Slice(p, i)], i + splitStr.slen;
  }

  lemma TakePiece(s: seq<byte>, p: nat, i: nat, sep: seq<byte>, list: seq<seq<byte>>, all: seq<seq<byte>>)
    requires p <= |s| && p <= i && |sep| > 0 && Find(s, i, sep) == i && list + StrPieces(s, p, i, sep) == all
    ensures i + |sep| <= |s|
    ensures list + [s[p..i]] + StrPieces(s, i + |sep|, i + |sep| + 1, sep) == all
  {
    StrUnfold(s, p, i, sep, i);
    Grown(list, s[p..i], StrPieces(s, i + |sep|, i + |sep| + 1, sep));
  }

  lemma Grown(list: seq<seq<byte>>, x: seq<byte>, rest: seq<seq<byte>>)
    ensures list + ([x] + rest) == list + [x] + rest
  {
  }

  // Joining what bsplitstr made gives the text back, for every separator.
  lemma JoinUndoesStrSplit(s: seq<byte>, sep: seq<byte>)
    ensures Join(StrSplit(s, sep), sep) == s
  {
    if |sep| == 0 {
      JoinCharacters(s);
    } else if |sep| == 1 {
      assert sep == [sep[0]];
      JoinUndoesSplit(s, 0, sep[0]);
    } else {
      JoinStrPieces(s, 0, 0, sep);
    }
  }

  lemma {:induction false} JoinCharacters(s: seq<byte>)
    ensures Join(Characters(s), []) == s
  {
    if |s| > 1 {
      JoinCharacters(s[1..]);
      JoinMore([s[0]], Characters(s[1..]), []);
    }
  }

  lemma {:induction false} JoinStrPieces(s: seq<byte>, p: nat, i: nat, sep: seq<byte>)
    requires p <= |s| && p <= i && |sep| > 0
    ensures |StrPieces(s, p, i, sep)| > 0
    ensures Join(StrPieces(s, p, i, sep), sep) == s[p..]
    decreases |s| + 1 - i, 1
  {
    var m := Find(s, i, sep);
    if m < 0 {
      JoinOne(s[p..], sep);
    } else {
      JoinBehindMatch(s, p, i, sep, m);
    }
  }

  lemma {:induction false} JoinBehindMatch(s: seq<byte>, p: nat, i: nat, sep: seq<byte>, m: nat)
    requires p <= |s| && p <= i && |sep| > 0 && Find(s, i, sep) == m
    ensures |StrPieces(s, p, i, sep)| > 0
    ensures Join(StrPieces(s, p, i, sep), sep) == s[p..]
    decreases |s| + 1 - i, 0
  {
    JoinStrPieces(s, m + |sep|, m + |sep| + 1, sep);
    var rest := StrRest(s, p, i, sep, m);
    JoinStep(s, p, m, sep, rest);
  }

  lemma StrRest(s: seq<byte>, p: nat, i: nat, sep: seq<byte>, m: nat) returns (rest: seq<seq<byte>>)
    requires p <= |s| && p <= i && |sep| > 0 && Find(s, i, sep) == m
    ensures m + |sep| <= |s| && s[m..m + |sep|] == sep
    ensures rest == StrPieces(s, m + |sep|, m + |sep| + 1, sep)
    ensures StrPieces(s, p, i, sep) == [s[p..m]] + rest
  {
    StrUnfold(s, p, i, sep, m);
    FindIsLeast(s, i, sep);
    rest := StrPieces(s, m + |sep|, m + |sep| + 1, sep);
  }

  lemma JoinStep(s: seq<byte>, p: nat, m: nat, sep: seq<byte>, rest: seq<seq<byte>>)
    requires p <= m && m + |sep| <= |s| && s[m..m + |sep|] == sep
    requires |rest| > 0 && Join(rest, sep) == s[m + |sep|..]
    ensures Join([s[p..m]] + rest, sep) == s[p..]
  {
    JoinMore(s[p..m], rest, sep);
    Pasted(s, p, m, sep, Join(rest, sep));
  }

  // Splitting at every leftmost, non-overlapping occurrence: what a reader expects.
  function CleanPieces(s: seq<byte>, p: nat, sep: seq<byte>): seq<seq<byte>>
    requires p <= |s| && |sep| > 0
    decreases |s| - p
  {
    var m := Find(s, p, sep);
    if m < 0 then [s[p..]] else [s[p..m]] + CleanPieces(s, m + |sep|, sep)
  }

  // Each of these pieces is the text up to the next occurrence, or to the end.
  lemma CleanPieceEnds(s: seq<byte>, p: nat, sep: seq<byte>, l: seq<seq<byte>>, k: nat, at: nat)
    requires p <= |s| && |sep| > 0 && l == CleanPieces(s, p, sep)
    requires k < |l| && at == p + Start(l, |sep|, k)
    ensures PieceAt(s, at, l[k], sep, at, k + 1 == |l|)
  {
    CleanPiecesFrom(s, p, sep, l, k, at);
    FirstCleanPiece(s, at, sep, l[k..]);
  }

  lemma {:induction false} CleanPiecesFrom(s: seq<byte>, p: nat, sep: seq<byte>, l: seq<seq<byte>>, k: nat, at: nat)
    requires p <= |s| && |sep| > 0 && l == CleanPieces(s, p, sep)
    requires k < |l| && at == p + Start(l, |sep|, k)
    ensures at <= |s| && l[k..] == CleanPieces(s, at, sep)
    decreases k
  {
    if k > 0 {
      var q, rest := CleanStep(s, p, sep, l, k, at);
      CleanPiecesFrom(s, q, sep, rest, k - 1, at);
    } else {
      assert l[0..] == l;
    }
  }

  lemma CleanStep(s: seq<byte>, p: nat, sep: seq<byte>, l: seq<seq<byte>>, k: nat, at: nat)
    returns (q: nat, rest: seq<seq<byte>>)
    requires p <= |s| && |sep| > 0 && l == CleanPieces(s, p, sep)
    requires 0 < k < |l| && at == p + Start(l, |sep|, k)
    ensures q <= |s| && rest == CleanPieces(s, q, sep) && k - 1 < |rest|
    ensures at == q + Start(rest, |sep|, k - 1) && l[k..] == rest[k - 1..]
  {
    var m := MoreCleanPieces(s, p, sep, l);
    q := m + |sep|;
    rest := BehindCleanPiece(s, p, sep, l, m);
    StartBehind(s[p..m], rest, |sep|, k);
    ListBehind(s[p..m], rest, k);
  }

  lemma ListBehind(x: seq<byte>, rest: seq<seq<byte>>, k: nat)
    requires 0 < k <= |rest|
    ensures ([x] + rest)[k..] == rest[k - 1..]
  {
  }

  lemma MoreCleanPieces(s: seq<byte>, p: nat, sep: seq<byte>, l: seq<seq<byte>>) returns (m: nat)
    requires p <= |s| && |sep| > 0 && l == CleanPieces(s, p, sep) && |l| > 1
    ensures Find(s, p, sep) == m && p <= m
  {
    m := Find(s, p, sep);
  }

  lemma FirstCleanPiece(s: seq<byte>, p: nat, sep: seq<byte>, l: seq<seq<byte>>)
    requires p <= |s| && |sep| > 0 && l == CleanPieces(s, p, sep)
    ensures |l| > 0 && PieceAt(s, p, l[0], sep, p, |l| == 1)
  {
    var m := Find(s, p, sep);
    if m >= 0 {
      var rest := BehindCleanPiece(s, p, sep, l, m);
      FirstPieceAt(s, p, p, m, sep, rest);
    }
  }

  lemma BehindCleanPiece(s: seq<byte>, p: nat, sep: seq<byte>, l: seq<seq<byte>>, m: nat) returns (rest: seq<seq<byte>>)
    requires p <= |s| && |sep| > 0 && l == CleanPieces(s, p, sep) && Find(s, p, sep) == m
    ensures p <= m && m + |sep| <= |s| && |rest| > 0
    ensures rest == CleanPieces(s, m + |sep|, sep) && l == [s[p..m]] + rest
  {
    CleanUnfold(s, p, sep, m);
    rest := CleanPieces(s, m + |sep|, sep);
  }

  ghost predicate NoneEmpty(list: seq<seq<byte>>)
  {
    forall k :: 0 <= k < |list| - 1 ==> list[k] != []
  }

  // bsplitstr with a separator of two or more characters makes these pieces if and
  // only if none of them between two separators is empty: an occurrence right
  // behind another one is overlooked.
  lemma StrSplitIsClean(s: seq<byte>, sep: seq<byte>, l: seq<seq<byte>>, k: seq<seq<byte>>)
    requires |sep| >= 2 && l == StrPieces(s, 0, 0, sep) && k == CleanPieces(s, 0, sep)
    ensures |k| > 0 && (l == k <==> NoneEmpty(k[1..]))
  {
    var m := Find(s, 0, sep);
    if m >= 0 {
      var a, b := SplitAtMatch(s, 0, 0, sep, m, l, k);
      CleanBehindMatch(s, m + |sep|, sep, a, b);
      CleanTails(l, k, s[0..m], a, b);
    } else {
      SplitNowhere(s, 0, 0, sep, l, k);
    }
  }

  // The second of two adjacent separators is overlooked.
  lemma AdjacentSeparators()
    ensures var s, sep := [1, 2, 1, 2], [1, 2];
      && StrPieces(s, 0, 0, sep) != CleanPieces(s, 0, sep)
      && StrPieces(s, 0, 0, sep) == [[], [1, 2]] && CleanPieces(s, 0, sep) == [[], [], []]
  {
    var s: seq<byte>, sep: seq<byte> := [1, 2, 1, 2], [1, 2];
    assert s[0..2] == sep && s[2..4] == sep;
    assert Find(s, 0, sep) == 0 && Find(s, 2, sep) == 2;
    FoundNowhere(s, sep, 3, 3);
    FoundNowhere(s, sep, 4, 4);
    assert s[0..0] == [] && s[2..2] == [] && s[4..] == [];
    CleanUnfold(s, 0, sep, 0);
    CleanUnfold(s, 2, sep, 2);
    StrUnfold(s, 0, 0, sep, 0);
    assert s[2..] == sep;
  }

  lemma SplitNowhere(s: seq<byte>, p: nat, i: nat, sep: seq<byte>, l: seq<seq<byte>>, k: seq<seq<byte>>)
    requires |sep| > 0 && p <= |s| && p <= i && Find(s, p, sep) < 0 && Find(s, i, sep) < 0
    requires l == StrPieces(s, p, i, sep) && k == CleanPieces(s, p, sep)
    ensures l == k && |k| == 1
  {
  }

  // The lists of both kinds behind the first match.
  lemma SplitAtMatch(s: seq<byte>, p: nat, i: nat, sep: seq<byte>, m: nat, l: seq<seq<byte>>, k: seq<seq<byte>>)
    returns (a: seq<seq<byte>>, b: seq<seq<byte>>)
    requires |sep| > 0 && p <= |s| && p <= i && Find(s, p, sep) == m == Find(s, i, sep)
    requires l == StrPieces(s, p, i, sep) && k == CleanPieces(s, p, sep)
    ensures m + |sep| <= |s|
    ensures a == StrPieces(s, m + |sep|, m + |sep| + 1, sep) && b == CleanPieces(s, m + |sep|, sep)
    ensures l == [s[p..m]] + a && k == [s[p..m]] + b
  {
    StrUnfold(s, p, i, sep, m);
    CleanUnfold(s, p, sep, m);
    a, b := StrPieces(s, m + |sep|, m + |sep| + 1, sep), CleanPieces(s, m + |sep|, sep);
  }

  lemma CleanTails(l: seq<seq<byte>>, k: seq<seq<byte>>, x: seq<byte>, a: seq<seq<byte>>, b: seq<seq<byte>>)
    requires l == [x] + a && k == [x] + b && (a == b <==> NoneEmpty(b))
    ensures l == k <==> NoneEmpty(k[1..])
  {
    SameTail(x, a, b);
  }

  lemma CleanUnfold(s: seq<byte>, p: nat, sep: seq<byte>, m: nat)
    requires p <= |s| && |sep| > 0 && Find(s, p, sep) == m
    ensures m + |sep| <= |s|
    ensures CleanPieces(s, p, sep) == [s[p..m]] + CleanPieces(s, m + |sep|, sep)
  {
  }

  lemma FindLater(s: seq<byte>, p: nat, sep: seq<byte>)
    requires Find(s, p, sep) != p
    ensures Find(s, p + 1, sep) == Find(s, p, sep)
  {
    FindIsLeast(s, p, sep);
    FindIsLeast(s, p + 1, sep);
  }

  lemma SameTail<T>(x: T, a: seq<T>, b: seq<T>)
    ensures [x] + a == [x] + b <==> a == b
    ensures ([x] + b)[1..] == b
  {
    assert ([x] + a)[1..] == a && ([x] + b)[1..] == b;
  }

  lemma {:induction false} CleanBehindMatch(s: seq<byte>, p: nat, sep: seq<byte>, l: seq<seq<byte>>, k: seq<seq<byte>>)
    requires p <= |s| && |sep| > 0 && l == StrPieces(s, p, p + 1, sep) && k == CleanPieces(s, p, sep)
    ensures |k| > 0 && (l == k <==> NoneEmpty(k))
    decreases |s| - p, 1
  {
    var m := Find(s, p, sep);
    if m == p {
      var b := CleanAtOnce(s, p, sep, l, k);
      EmptyFirst(l, k, b);
    } else {
      FindLater(s, p, sep);
      if m < 0 {
        SplitNowhere(s, p, p + 1, sep, l, k);
      } else {
        var a, b := SplitAtMatch(s, p, p + 1, sep, m, l, k);
        CleanBehindMatch(s, m + |sep|, sep, a, b);
        SameFirst(l, k, s, p, m, a, b);
      }
    }
  }

  lemma CleanAtOnce(s: seq<byte>, p: nat, sep: seq<byte>, l: seq<seq<byte>>, k: seq<seq<byte>>)
    returns (b: seq<seq<byte>>)
    requires |sep| > 0 && p <= |s| && Find(s, p, sep) == p
    requires l == StrPieces(s, p, p + 1, sep) && k == CleanPieces(s, p, sep)
    ensures |b| > 0 && k == [[]] + b && |l| > 0 && l[0] != []
  {
    FirstNotEmpty(s, p, sep);
    CleanUnfold(s, p, sep, p);
    assert s[p..p] == [];
    b := CleanPieces(s, p + |sep|, sep);
    assert |b| > 0;
  }

  lemma EmptyFirst(l: seq<seq<byte>>, k: seq<seq<byte>>, b: seq<seq<byte>>)
    requires |l| > 0 && l[0] != [] && |b| > 0 && k == [[]] + b
    ensures l != k && !NoneEmpty(k)
  {
    assert k[0] == [];
  }

  lemma SameFirst(l: seq<seq<byte>>, k: seq<seq<byte>>, s: seq<byte>, p: nat, m: nat,
                  a: seq<seq<byte>>, b: seq<seq<byte>>)
    requires p < m <= |s| && l == [s[p..m]] + a && k == [s[p..m]] + b
    requires |b| > 0 && (a == b <==> NoneEmpty(b))
    ensures |k| > 0 && (l == k <==> NoneEmpty(k))
  {
    SameTail(s[p..m], a, b);
    NoneEmptyMore(s[p..m], b);
  }

  lemma FirstNotEmpty(s: seq<byte>, p: nat, sep: seq<byte>)
    requires p < |s| && |sep| > 0
    ensures |StrPieces(s, p, p + 1, sep)| > 0 && StrPieces(s, p, p + 1, sep)[0] != []
  {
  }

  lemma NoneEmptyMore(x: seq<byte>, b: seq<seq<byte>>)
    requires |b| > 0 && x != []
    ensures NoneEmpty([x] + b) <==> NoneEmpty(b)
  {
    if NoneEmpty([x] + b) {
      forall k | 0 <= k < |b| - 1 ensures b[k] != [] {
        assert ([x] + b)[k + 1] == b[k];
      }
    }
  }
}

// Splitting a string, or a stream, at separator characters, by callback.
module Splits {
  import opened Bstrings
  import opened CharFields
  import opened Growth
  import opened Memory
  import opened Streams

  // One callback: a piece of the text and where it starts.
  datatype Piece = Piece(ofs: nat, text: seq<byte>)

  // The callback with its parameter: it records its calls and answers -1 to call
  // number stop (the first one is 0), which makes its caller give up.
  class Recorder {
    var calls: seq<Piece>
    const stop: nat

    constructor (stop: nat)
      ensures calls == [] && this.stop == stop
    {
      this.stop := stop;
      calls := [];
    }

    method Call(ofs: nat, text: seq<byte>) returns (ret: int)
      modifies this
      ensures calls == old(calls) + [Piece(ofs, text)]
      ensures ret == if |old(calls)| == stop then -1 else 0
    {
      ret := if |calls| == stop then -1 else 0;
      calls := calls + [Piece(ofs, text)];
    }
  }

  // What of a list of callbacks is made when the callback numbered stop gives up.
  function Until(calls: seq<Piece>, stop: nat): seq<Piece>
  {
    if stop < |calls| then calls[..stop + 1] else calls
  }

  // All of them, or those up to and with number stop.
  lemma UntilIs(calls: seq<Piece>, stop: nat)
    ensures Until(calls, stop) <= calls
    ensures |Until(calls, stop)| == if |calls| <= stop then |calls| else stop + 1
  {
  }

  // The first separator from p on, or the end.
  function NextSplit(s: seq<byte>, p: nat, ts: seq<byte>): (i: nat)
    requires p <= |s|
    ensures p <= i <= |s|
    ensures i < |s| ==> s[i] in ts
    decreases |s| - p
  {
    if p == |s| || s[p] in ts then p else NextSplit(s, p + 1, ts)
  }

  // The pieces of s from p on, divided by any of the characters in ts.
  function PiecesFrom(s: seq<byte>, p: nat, ts: seq<byte>): seq<Piece>
    requires p <= |s|
    decreases |s| - p
  {
    var i := NextSplit(s, p, ts);
    [Piece(p, s[p..i])] + if i < |s| then PiecesFrom(s, i + 1, ts) else []
  }

  // An empty set of separators makes one piece of the whole.
  function Pieces(s: seq<byte>, pos: nat, ts: seq<byte>): seq<Piece>
    requires pos <= |s|
  {
    if ts == [] then [Piece(0, s)] else PiecesFrom(s, pos, ts)
  }

  lemma {:induction false} NextSplitFree(s: seq<byte>, p: nat, ts: seq<byte>)
    requires p <= |s|
    ensures Free(s[p..NextSplit(s, p, ts)], ts)
    decreases |s| - p
  {
    if p < |s| && s[p] !in ts {
      NextSplitFree(s, p + 1, ts);
      var i := NextSplit(s, p, ts);
      assert s[p..i] == [s[p]] + s[p + 1..i];
    }
  }

  lemma {:induction false} NextSplitAt(s: seq<byte>, p: nat, i: nat, ts: seq<byte>)
    requires p <= i <= |s| && Free(s[p..i], ts) && (i == |s| || s[i] in ts)
    ensures NextSplit(s, p, ts) == i
    decreases i - p
  {
    if p < i {
      assert s[p] == s[p..i][0];
      assert s[p + 1..i] == s[p..i][1..];
      NextSplitAt(s, p + 1, i, ts);
    }
  }

  // Piece k of c contains no separator, stands in s where it says, and is followed
  // by one separator and the next piece, or by the end of s.
  ghost predicate Separated(s: seq<byte>, c: seq<Piece>, k: nat, ts: seq<byte>)
    requires k < |c|
  {
    var end := c[k].ofs + |c[k].text|;
    && end <= |s| && s[c[k].ofs..end] == c[k].text && Free(c[k].text, ts)
    && (if k + 1 == |c| then end == |s| else end < |s| && s[end] in ts && c[k + 1].ofs == end + 1)
  }

  lemma FirstPiece(s: seq<byte>, p: nat, ts: seq<byte>)
    requires p <= |s|
    ensures PiecesFrom(s, p, ts)[0] == Piece(p, s[p..NextSplit(s, p, ts)])
    ensures NextSplit(s, p, ts) == |s| ==> |PiecesFrom(s, p, ts)| == 1
  {
  }

  lemma PiecesUnfold(s: seq<byte>, p: nat, i: nat, ts: seq<byte>)
    requires p <= |s| && i == NextSplit(s, p, ts)
    ensures i < |s| ==> PiecesFrom(s, p, ts) == [Piece(p, s[p..i])] + PiecesFrom(s, i + 1, ts)
    ensures i == |s| ==> PiecesFrom(s, p, ts) == [Piece(p, s[p..i])]
  {
  }

  lemma {:induction false} PiecesAreSeparated(s: seq<byte>, p: nat, ts: seq<byte>, c: seq<Piece>, k: nat)
    requires p <= |s| && c == PiecesFrom(s, p, ts) && k < |c|
    ensures Separated(s, c, k, ts)
    decreases |s| - p
  {
    if k == 0 {
      FirstIsSeparated(s, p, ts, c);
    } else {
      var rest := RestOfPieces(s, p, NextSplit(s, p, ts), ts, c);
      PiecesAreSeparated(s, NextSplit(s, p, ts) + 1, ts, rest, k - 1);
      SeparatedInTail(s, c[0], rest, c, k, ts);
    }
  }

  lemma FirstIsSeparated(s: seq<byte>, p: nat, ts: seq<byte>, c: seq<Piece>)
    requires p <= |s| && c == PiecesFrom(s, p, ts)
    ensures Separated(s, c, 0, ts)
  {
    var i := NextSplit(s, p, ts);
    var x := PieceAt(s, p, i, ts);
    if i == |s| {
      PiecesUnfold(s, p, i, ts);
      SeparatedAtEnd(s, x, c, ts);
    } else {
      var rest := RestOfPieces(s, p, i, ts, c);
      SeparatedInFront(s, x, rest, c, ts);
    }
  }

  lemma PieceAt(s: seq<byte>, p: nat, i: nat, ts: seq<byte>) returns (x: Piece)
    requires p <= |s| && i == NextSplit(s, p, ts)
    ensures x == Piece(p, s[p..i]) && x.ofs + |x.text| == i
    ensures s[x.ofs..x.ofs + |x.text|] == x.text && Free(x.text, ts)
  {
    NextSplitFree(s, p, ts);
    x := Piece(p, s[p..i]);
  }

  lemma RestOfPieces(s: seq<byte>, p: nat, i: nat, ts: seq<byte>, c: seq<Piece>) returns (rest: seq<Piece>)
    requires p <= |s| && i == NextSplit(s, p, ts) && c == PiecesFrom(s, p, ts) && (i < |s| || |c| > 1)
    ensures i < |s| && rest == PiecesFrom(s, i + 1, ts) && c == [Piece(p, s[p..i])] + rest
    ensures |rest| > 0 && rest[0].ofs == i + 1
  {
    PiecesUnfold(s, p, i, ts);
    FirstPiece(s, i + 1, ts);
    rest := PiecesFrom(s, i + 1, ts);
  }

  lemma SeparatedAtEnd(s: seq<byte>, x: Piece, c: seq<Piece>, ts: seq<byte>)
    requires c == [x] && x.ofs + |x.text| == |s| && s[x.ofs..x.ofs + |x.text|] == x.text && Free(x.text, ts)
    ensures Separated(s, c, 0, ts)
  {
  }

  lemma SeparatedInFront(s: seq<byte>, x: Piece, rest: seq<Piece>, c: seq<Piece>, ts: seq<byte>)
    requires c == [x] + rest && |rest| > 0
    requires x.ofs + |x.text| < |s| && s[x.ofs..x.ofs + |x.text|] == x.text && Free(x.text, ts)
    requires s[x.ofs + |x.text|] in ts && rest[0].ofs == x.ofs + |x.text| + 1
    ensures Separated(s, c, 0, ts)
  {
  }

  lemma SeparatedInTail(s: seq<byte>, x: Piece, rest: seq<Piece>, c: seq<Piece>, k: nat, ts: seq<byte>)
    requires c == [x] + rest && 0 < k < |c| && Separated(s, rest, k - 1, ts)
    ensures Separated(s, c, k, ts)
  {
  }

  // Piece k ends at the next separator, and is the last one if there is none.
  lemma PieceEnds(s: seq<byte>, p: nat, ts: seq<byte>, k: nat)
    requires p <= |s| && k < |PiecesFrom(s, p, ts)|
    ensures var c := PiecesFrom(s, p, ts);
            && c[k].ofs <= |s|
            && var i := NextSplit(s, c[k].ofs, ts);
            && c[k].text == s[c[k].ofs..i]
            && (i < |s| <==> k + 1 < |c|)
            && (i < |s| ==> c[k + 1].ofs == i + 1)
  {
    PiecesAreSeparated(s, p, ts, PiecesFrom(s, p, ts), k);
    SeparatedEnds(s, PiecesFrom(s, p, ts), k, ts);
  }

  lemma SeparatedEnds(s: seq<byte>, c: seq<Piece>, k: nat, ts: seq<byte>)
    requires k < |c| && Separated(s, c, k, ts)
    ensures NextSplit(s, c[k].ofs, ts) == c[k].ofs + |c[k].text|
  {
    NextSplitAt(s, c[k].ofs, c[k].ofs + |c[k].text|, ts);
  }

  // Where the loops below stand: which calls have been made, and that the next
  // piece starts at p.
  ghost predicate Underway(cb: Recorder, pieces: seq<Piece>, p: nat)
    reads cb
  {
    var n := |cb.calls|;
    n < |pieces| && n <= cb.stop && cb.calls == pieces[..n] && pieces[n].ofs == p
  }

  // One callback, for the piece that ends at i.
  method CallBack(cb: Recorder, p: nat, text: seq<byte>, ghost i: nat, ghost pieces: seq<Piece>, ghost s: seq<byte>,
                  ghost pos: nat, ghost ts: seq<byte>) returns (ret: int)
    requires p <= i <= |s| && text == s[p..i] && i == NextSplit(s, p, ts)
    requires pos <= |s| && pieces == PiecesFrom(s, pos, ts) && Underway(cb, pieces, p)
    modifies cb
    ensures cb.calls == old(cb.calls) + [Piece(p, text)]
    ensures ret < 0 ==> ret == -1 && cb.calls == Until(pieces, cb.stop) && cb.stop < |pieces|
    ensures ret >= 0 && i < |s| ==> ret == 0 && Underway(cb, pieces, i + 1)
    ensures ret >= 0 && i == |s| ==> ret == 0 && cb.calls == Until(pieces, cb.stop) && |pieces| <= cb.stop
  {
    PieceEnds(s, pos, ts, |cb.calls|);
    Made(pieces, |cb.calls|);
    ret := cb.Call(p, text);
  }

  lemma Made(pieces: seq<Piece>, n: nat)
    requires n < |pieces|
    ensures pieces[..n] + [pieces[n]] == pieces[..n + 1]
    ensures n + 1 == |pieces| ==> pieces[..n + 1] == pieces
  {
  }

  // The inner loop: the next separator, or the end.
  method Scan(str: View, cf: CharField, p: nat, ghost ts: seq<byte>) returns (i: nat)
    requires str.Valid() && p <= str.slen && Holds(cf, ts)
    ensures p <= i <= str.slen && i == NextSplit(str.Text(), p, ts)
  {
    i := p;
    while i < str.slen && !cf.Has(str.At(i))
      invariant p <= i <= str.slen && NextSplit(str.Text(), p, ts) == NextSplit(str.Text(), i, ts)
    {
      i := i + 1;
    }
  }

  // bsplitscb and bsplitcb once the set of separators is built.
  method SplitLoop(str: View, cf: CharField, pos: nat, cb: Recorder, ghost ts: seq<byte>) returns (ret: int)
    requires str.Valid() && pos <= str.slen && Holds(cf, ts) && cf.content != str.data && cb.calls == []
    modifies cb
    ensures var all := PiecesFrom(str.Text(), pos, ts);
            cb.calls == Until(all, cb.stop) && ret == if cb.stop < |all| then -1 else BSTR_OK
  {
    ghost var s := str.Text();
    ghost var pieces := PiecesFrom(s, pos, ts);
    FirstPiece(s, pos, ts);
    var p := pos;
    while true
      invariant p <= |s| && Underway(cb, pieces, p)
      decreases |s| - p
    {
      var i := Scan(str, cf, p, ts);
      ret := CallBack(cb, p, str.Slice(p, i), i, pieces, s, pos, ts);
      if ret < 0 {
        return;
      }
      p := i + 1;
      if !(p <= str.slen) {
        return BSTR_OK;
      }
    }
  }

  // bsplitscb
  method Bsplitscb(str: View, splitStr: View, pos: int, cb: Recorder) returns (ret: int)
    requires str.Valid() && splitStr.Valid() && cb.calls == []
    modifies cb
    ensures pos < 0 || pos > str.slen ==> ret == BSTR_ERR && cb.calls == []
    ensures 0 <= pos <= str.slen ==>
      var all := Pieces(str.Text(), pos, splitStr.Text());
      cb.calls == Until(all, cb.stop) && ret == if cb.stop < |all| then -1 else BSTR_OK
  {
    if pos < 0 || pos > str.slen {
      return BSTR_ERR;
    }
    if splitStr.slen == 0 {
      ret := cb.Call(0, str.data[str.ofs..str.ofs + str.slen]);
      return;
    }
    var cf := new CharField();
    var built := cf.Build(splitStr);
    ret := SplitLoop(str, cf, pos, cb, splitStr.Text());
  }

  // ---------- splitting a stream ----------

  const BSSSC_BUFF_LEN := 256

  // Where a stream stands that has delivered piece c and the separator behind it.
  function After(s: seq<byte>, c: Piece): seq<byte>
  {
    var end := c.ofs + |c.text|;
    if end < |s| then s[end + 1..] else []
  }

  // That is where the next piece begins, or the end.
  lemma AfterIsNext(s: seq<byte>, ts: seq<byte>, k: nat)
    requires k < |PiecesFrom(s, 0, ts)|
    ensures var c := PiecesFrom(s, 0, ts);
      k + 1 < |c| ==> c[k + 1].ofs <= |s| && After(s, c[k]) == s[c[k + 1].ofs..]
    ensures k + 1 == |PiecesFrom(s, 0, ts)| ==> After(s, PiecesFrom(s, 0, ts)[k]) == []
  {
    PiecesAreSeparated(s, 0, ts, PiecesFrom(s, 0, ts), k);
  }

  // Between two characters: the piece being collected starts at p, its first i
  // characters are known not to be separators, and nothing has been lost.
  ghost predicate Collecting(s: BStream, buff: Bstring, all: seq<byte>, p: nat, i: nat, ts: seq<byte>)
    requires p + i <= |all|
    reads s, s.buff, s.buff.data, s.core, buff, buff.data
  {
    && s.Valid() && buff.Valid() && s.Apart(buff)
    && i <= buff.slen && buff.Text() + s.Remaining() == all[p..]
    && NextSplit(all, p, ts) == NextSplit(all, p + i, ts)
  }

  // Tops up the collected characters if they have all been looked at.
  method TopUp(s: BStream, buff: Bstring, ghost all: seq<byte>, p: nat, i: nat, ghost ts: seq<byte>)
    requires p + i <= |all| && |all| + 1 < MAX_SIZE && Collecting(s, buff, all, p, i, ts)
    modifies s`isEOF, s.core, s.buff, s.buff.data, buff, buff.data
    ensures Collecting(s, buff, all, p, i, ts)
    ensures s.buff.data == old(s.buff.data) || fresh(s.buff.data)
    ensures buff.data == old(buff.data) || fresh(buff.data)
    ensures i < buff.slen || (buff.Text() == all[p..] && s.Remaining() == [])
  {
    if i >= buff.slen {
      ghost var text, rest := buff.Text(), s.Remaining();
      var ret := s.Bsreada(buff, BSSSC_BUFF_LEN);
      Topped(text, rest, buff.Text(), s.Remaining(), buff.slen - |text|);
    }
  }

  lemma Topped(text: seq<byte>, rest: seq<byte>, text': seq<byte>, rest': seq<byte>, d: nat)
    requires d <= |rest| && text' == text + rest[..d] && rest' == rest[d..]
    ensures text' + rest' == text + rest
    ensures d == 0 ==> text' == text
  {
  }

  // A separator at i: what is behind it goes back to the stream, what is in front
  // of it is left for the callback.
  method CutAt(s: BStream, buff: Bstring, ghost all: seq<byte>, p: nat, i: nat, ghost ts: seq<byte>)
    requires p + i < |all| && |all| + 1 < MAX_SIZE && Collecting(s, buff, all, p, i, ts) && i < buff.slen
    modifies s.buff, s.buff.data, buff`slen, buff.data
    ensures s.Valid() && buff.Valid() && s.Apart(buff) && buff.slen == i
    ensures s.buff.data == old(s.buff.data) || fresh(s.buff.data)
    ensures s.Remaining() == all[p + i + 1..] && buff.Text() == all[p..p + i]
  {
    ghost var text := buff.Text();
    PutBack(all, p, i, text, s.Remaining());
    var t := View(buff.data, i + 1, buff.slen - (i + 1));
    assert t.Text() == text[i + 1..];
    var ret := s.Bsunread(t);
    assert buff.data[..i] == text[..i];
    buff.SetLength(i);
  }

  lemma PutBack(all: seq<byte>, p: nat, i: nat, text: seq<byte>, rest: seq<byte>)
    requires p + i < |all| && i < |text| && text + rest == all[p..]
    ensures text[..i] == all[p..p + i] && text[i + 1..] + rest == all[p + i + 1..]
  {
    assert text[..i] == all[p..][..i];
    assert text[i + 1..] + rest == all[p..][i + 1..];
  }

  // bssplitscb: the callbacks are those for the whole content in memory, and at
  // each of them the stream stands right behind the separator.
  method Bssplitscb(s: BStream, splitStr: View, cb: Recorder) returns (ret: int, ghost stands: seq<seq<byte>>)
    requires s.Valid() && splitStr.Valid() && splitStr.data != s.buff.data && cb.calls == []
    requires |s.Remaining()| + 1 < MAX_SIZE
    modifies s`isEOF, s.core, s.buff, s.buff.data, cb
    ensures var all := Pieces(old(s.Remaining()), 0, splitStr.Text());
            cb.calls == Until(all, cb.stop) && ret == if cb.stop < |all| then -1 else BSTR_OK
    ensures Recorded(old(s.Remaining()), cb.calls, stands)
  {
    ghost var all := s.Remaining();
    var buff := new Bstring.FromBlk([]);
    stands := [];
    if splitStr.slen == 0 {
      ReadAll(s, buff, all);
      ret := cb.Call(0, buff.data[..buff.slen]);
      stands := [s.Remaining()];
      return;
    }
    ghost var ts := splitStr.Text();
    ghost var pieces := PiecesFrom(all, 0, ts);
    var cf := new CharField();
    var built := cf.Build(splitStr);
    assert all[0..] == all;
    FirstPiece(all, 0, ts);
    ret, stands := SplitStream(s, buff, cf, cb, pieces, all, ts);
  }

  method SplitStream(s: BStream, buff: Bstring, cf: CharField, cb: Recorder, ghost pieces: seq<Piece>,
                     ghost all: seq<byte>, ghost ts: seq<byte>)
    returns (ret: int, ghost stands: seq<seq<byte>>)
    requires |all| + 1 < MAX_SIZE && Holds(cf, ts) && cf.content != buff.data && cf.content != s.buff.data
    requires Collecting(s, buff, all, 0, 0, ts) && Underway(cb, pieces, 0) && pieces == PiecesFrom(all, 0, ts)
      && cb.calls == []
    modifies s`isEOF, s.core, s.buff, s.buff.data, buff, buff.data, cb
    ensures cb.calls == Until(pieces, cb.stop) && ret == if cb.stop < |pieces| then -1 else BSTR_OK
    ensures Recorded(all, cb.calls, stands)
  {
    stands, ret := [], BSTR_OK;
    var p: nat, i: nat := 0, 0;
    var over := false;
    while !over
      invariant p + i <= |all| && Holds(cf, ts) && cf.content != buff.data && cf.content != s.buff.data
      invariant s.buff.data == old(s.buff.data) || fresh(s.buff.data)
      invariant buff.data == old(buff.data) || fresh(buff.data)
      invariant !over ==> Collecting(s, buff, all, p, i, ts) && Underway(cb, pieces, p)
      invariant over ==> cb.calls == Until(pieces, cb.stop) && ret == if cb.stop < |pieces| then -1 else BSTR_OK
      invariant Recorded(all, cb.calls, stands)
      decreases !over, |all| - p, |all| - i
    {
      over, ret, p, i, stands := Step(s, buff, cf, cb, pieces, all, p, i, ts, stands);
    }
  }

  // The stream stood right behind the separator at each of the calls.
  ghost predicate Recorded(all: seq<byte>, calls: seq<Piece>, stands: seq<seq<byte>>)
  {
    |stands| == |calls| && forall k :: 0 <= k < |stands| ==> stands[k] == After(all, calls[k])
  }

  // One round of the loop.
  method Step(s: BStream, buff: Bstring, cf: CharField, cb: Recorder, ghost pieces: seq<Piece>, ghost all: seq<byte>,
              p0: nat, i0: nat, ghost ts: seq<byte>, ghost stands0: seq<seq<byte>>)
    returns (over: bool, ret: int, p: nat, i: nat, ghost stands: seq<seq<byte>>)
    requires p0 + i0 <= |all| && |all| + 1 < MAX_SIZE && Holds(cf, ts)
    requires cf.content != buff.data && cf.content != s.buff.data
    requires Collecting(s, buff, all, p0, i0, ts) && Underway(cb, pieces, p0) && pieces == PiecesFrom(all, 0, ts)
      && Recorded(all, cb.calls, stands0)
    modifies s`isEOF, s.core, s.buff, s.buff.data, buff, buff.data, cb
    ensures p + i <= |all| && (over || p > p0 || (p == p0 && i > i0))
    ensures s.buff.data == old(s.buff.data) || fresh(s.buff.data)
    ensures buff.data == old(buff.data) || fresh(buff.data)
    ensures !over ==> Collecting(s, buff, all, p, i, ts) && Underway(cb, pieces, p)
    ensures over ==> cb.calls == Until(pieces, cb.stop) && ret == if cb.stop < |pieces| then -1 else BSTR_OK
    ensures Recorded(all, cb.calls, stands)
  {
    p, i, ret, over, stands := p0, i0, BSTR_OK, false, stands0;
    TopUp(s, buff, all, p, i, ts);
    if i >= buff.slen {
      ret, stands := DeliverRest(s, buff, cb, pieces, all, p, i, ts, stands);
      over := true;
      return;
    }
    var separator := Look(s, buff, cf, all, p, i, ts);
    if !separator {
      i := i + 1;
      return;
    }
    ret, stands := DeliverRecorded(s, buff, cb, pieces, all, p, i, ts, stands);
    over := ret < 0;
    p := p + i + 1;
    i := 0;
  }

  method Look(s: BStream, buff: Bstring, cf: CharField, ghost all: seq<byte>, p: nat, i: nat, ghost ts: seq<byte>)
    returns (separator: bool)
    requires p + i <= |all| && Collecting(s, buff, all, p, i, ts) && i < buff.slen && Holds(cf, ts)
    ensures p + i < |all| && (separator <==> all[p + i] in ts)
    ensures !separator ==> Collecting(s, buff, all, p, i + 1, ts)
  {
    Looking(buff.Text(), s.Remaining(), all[p..], i);
    separator := Test(cf, buff.data[i], ts);
  }

  lemma Looking(text: seq<byte>, rest: seq<byte>, ahead: seq<byte>, i: nat)
    requires text + rest == ahead && i < |text|
    ensures i < |ahead| && text[i] == ahead[i]
  {
  }

  lemma RecordedMore(all: seq<byte>, calls: seq<Piece>, stands: seq<seq<byte>>, c: Piece, rest: seq<byte>)
    requires Recorded(all, calls, stands) && rest == After(all, c)
    ensures Recorded(all, calls + [c], stands + [rest])
  {
  }

  // The stream is exhausted: what has been collected is the last piece.
  method DeliverRest(s: BStream, buff: Bstring, cb: Recorder, ghost pieces: seq<Piece>, ghost all: seq<byte>, p: nat,
                     i: nat, ghost ts: seq<byte>, ghost stands0: seq<seq<byte>>)
    returns (ret: int, ghost stands: seq<seq<byte>>)
    requires p + i <= |all| && Collecting(s, buff, all, p, i, ts) && i >= buff.slen
    requires buff.Text() == all[p..] && s.Remaining() == [] && Underway(cb, pieces, p)
      && pieces == PiecesFrom(all, 0, ts)
    requires Recorded(all, cb.calls, stands0)
    modifies cb
    ensures Recorded(all, cb.calls, stands)
    ensures cb.calls == Until(pieces, cb.stop) && ret == if cb.stop < |pieces| then -1 else BSTR_OK
  {
    LastPiece(all, p, i, ts);
    RecordedMore(all, cb.calls, stands0, Piece(p, all[p..]), s.Remaining());
    ret := CallBack(cb, p, buff.data[..buff.slen], |all|, pieces, all, 0, ts);
    stands := stands0 + [s.Remaining()];
  }

  // The callback at a separator, and the start of the next piece.
  method Deliver(s: BStream, buff: Bstring, cb: Recorder, ghost pieces: seq<Piece>, ghost all: seq<byte>, p: nat,
                 i: nat, ghost ts: seq<byte>)
    returns (ret: int)
    requires p + i < |all| && |all| + 1 < MAX_SIZE && Collecting(s, buff, all, p, i, ts) && i < buff.slen
    requires all[p + i] in ts && Underway(cb, pieces, p) && pieces == PiecesFrom(all, 0, ts)
    modifies s.buff, s.buff.data, buff`slen, buff.data, cb
    ensures s.Valid() && (s.buff.data == old(s.buff.data) || fresh(s.buff.data))
    ensures cb.calls == old(cb.calls) + [Piece(p, all[p..p + i])] && s.Remaining() == all[p + i + 1..]
    ensures ret < 0 ==> ret == -1 && cb.calls == Until(pieces, cb.stop) && cb.stop < |pieces|
    ensures ret >= 0 ==> Collecting(s, buff, all, p + i + 1, 0, ts) && Underway(cb, pieces, p + i + 1)
  {
    CutAt(s, buff, all, p, i, ts);
    ret := CallBack(cb, p, buff.data[..buff.slen], p + i, pieces, all, 0, ts);
    buff.slen := 0;
  }

  // The same, with the place of the stream recorded.
  method DeliverRecorded(s: BStream, buff: Bstring, cb: Recorder, ghost pieces: seq<Piece>, ghost all: seq<byte>,
                         p: nat, i: nat, ghost ts: seq<byte>, ghost stands0: seq<seq<byte>>)
    returns (ret: int, ghost stands: seq<seq<byte>>)
    requires p + i < |all| && |all| + 1 < MAX_SIZE && Collecting(s, buff, all, p, i, ts) && i < buff.slen
    requires all[p + i] in ts && Underway(cb, pieces, p) && pieces == PiecesFrom(all, 0, ts)
      && Recorded(all, cb.calls, stands0)
    modifies s.buff, s.buff.data, buff`slen, buff.data, cb
    ensures s.Valid() && (s.buff.data == old(s.buff.data) || fresh(s.buff.data))
    ensures Recorded(all, cb.calls, stands)
    ensures ret < 0 ==> ret == -1 && cb.calls == Until(pieces, cb.stop) && cb.stop < |pieces|
    ensures ret >= 0 ==> Collecting(s, buff, all, p + i + 1, 0, ts) && Underway(cb, pieces, p + i + 1)
  {
    ghost var calls := cb.calls;
    ret := Deliver(s, buff, cb, pieces, all, p, i, ts);
    RecordedMore(all, calls, stands0, Piece(p, all[p..p + i]), s.Remaining());
    stands := stands0 + [s.Remaining()];
  }

  lemma LastPiece(all: seq<byte>, p: nat, i: nat, ts: seq<byte>)
    requires p + i == |all| && NextSplit(all, p, ts) == NextSplit(all, p + i, ts)
    ensures NextSplit(all, p, ts) == |all| && all[p..|all|] == all[p..]
  {
  }

  // Empty set of separators: everything is read before the one callback.
  method ReadAll(s: BStream, buff: Bstring, ghost all: seq<byte>)
    requires s.Valid() && buff.Valid() && s.Apart(buff) && |all| + 1 < MAX_SIZE
    requires buff.Text() == [] && s.Remaining() == all
    modifies s`isEOF, s.core, s.buff, s.buff.data, buff, buff.data
    ensures s.Valid() && buff.Valid() && buff.Text() == all && s.Remaining() == []
    ensures s.buff.data == old(s.buff.data) || fresh(s.buff.data)
    ensures buff.data == old(buff.data) || fresh(buff.data)
  {
    var ret := 0;
    while ret >= 0
      invariant s.Valid() && buff.Valid() && s.Apart(buff) && buff.Text() + s.Remaining() == all
      invariant s.buff.data == old(s.buff.data) || fresh(s.buff.data)
      invariant buff.data == old(buff.data) || fresh(buff.data)
      invariant ret < 0 ==> s.Remaining() == []
      decreases ret >= 0, |s.Remaining()|
    {
      ghost var text, rest := buff.Text(), s.Remaining();
      ret := s.Bsreada(buff, BSSSC_BUFF_LEN);
      Topped(text, rest, buff.Text(), s.Remaining(), buff.slen - |text|);
    }
  }
}

// Splitting a stream by callbacks that act on the stream: whatever a callback takes
// from it or puts back, the next split starts where it left the stream.
module ActingSplits {
  import opened Bstrings
  import opened CharFields
  import opened Growth
  import opened Memory
  import opened Splits
  import opened Streams

  // What a callback does to the stream: read a line away, or push bytes back.
  datatype Act = SkipLine(terminator: byte) | PushBack(x: seq<byte>)

  // What the stream still delivers after callback number k, which does act k if there
  // is one.
  function Acted(rest: seq<byte>, acts: seq<Act>, k: nat): seq<byte>
  {
    if k >= |acts| then rest
    else match acts[k]
      case SkipLine(c) => rest[|Line(rest, [c])|..]
      case PushBack(x) => x + rest
  }

  // All that callbacks from number k on push back.
  function PushedFrom(acts: seq<Act>, k: nat): nat
    decreases |acts| - k
  {
    if k >= |acts| then 0 else (if acts[k].PushBack? then |acts[k].x| else 0) + PushedFrom(acts, k + 1)
  }

  // One call: the piece, what the stream held when it was made, and what it held
  // when it returned.
  datatype Visit = Visit(piece: Piece, met: seq<byte>, left: seq<byte>)

  // The content that call k splits a piece from.
  function ContentAt(start: seq<byte>, visits: seq<Visit>, k: nat): seq<byte>
    requires k <= |visits|
  {
    if k == 0 then start else visits[k - 1].left
  }

  function OffsetAt(visits: seq<Visit>, k: nat): nat
    requires k <= |visits|
  {
    if k == 0 then 0 else visits[k - 1].piece.ofs + |visits[k - 1].piece.text| + 1
  }

  // Call k has the first piece of what the call before it left in the stream, at its
  // offset; it finds the stream right behind the separator, and acts.
  ghost predicate VisitIs(start: seq<byte>, visits: seq<Visit>, acts: seq<Act>, ts: seq<byte>, k: nat)
    requires k < |visits|
  {
    var content, v := ContentAt(start, visits, k), visits[k];
    var i := NextSplit(content, 0, ts);
    && v.piece == Piece(OffsetAt(visits, k), content[..i])
    && v.met == (if i < |content| then content[i + 1..] else [])
    && v.left == Acted(v.met, acts, k)
  }

  // There is a separator behind piece k, so that the splitting goes on.
  ghost predicate GoesOn(start: seq<byte>, visits: seq<Visit>, ts: seq<byte>, k: nat)
    requires k <= |visits|
  {
    var content := ContentAt(start, visits, k);
    NextSplit(content, 0, ts) < |content|
  }

  // The callback: it records its call, acts, and gives up at the call numbered stop.
  class Actor {
    const acts: seq<Act>
    const stop: nat
    var calls: seq<Piece>
    ghost var visits: seq<Visit>

    ghost predicate Valid()
      reads this
    {
      |calls| == |visits| && forall k :: 0 <= k < |calls| ==> calls[k] == visits[k].piece
    }

    constructor (acts: seq<Act>, stop: nat)
      ensures Valid() && visits == [] && this.acts == acts && this.stop == stop
    {
      this.acts, this.stop := acts, stop;
      calls, visits := [], [];
    }

    method Call(ofs: nat, text: seq<byte>, s: BStream) returns (ret: int)
      requires Valid() && s.Valid() && |s.Remaining()| + PushedFrom(acts, |visits|) + s.maxBuffSz + 4 < MAX_SIZE
      modifies this, s`isEOF, s.core, s.buff, s.buff.data
      ensures Valid() && s.Valid() && (s.buff.data == old(s.buff.data) || fresh(s.buff.data))
      ensures s.Remaining() == Acted(old(s.Remaining()), acts, |old(visits)|)
      ensures visits == old(visits) + [Visit(Piece(ofs, text), old(s.Remaining()), s.Remaining())]
      ensures |s.Remaining()| + PushedFrom(acts, |visits|) <= old(|s.Remaining()| + PushedFrom(acts, |visits|))
      ensures ret == if |old(visits)| == stop then -1 else 0
    {
      ghost var met := s.Remaining();
      if |calls| < |acts| {
        Act(acts[|calls|], s);
      }
      ret := if |calls| == stop then -1 else 0;
      calls := calls + [Piece(ofs, text)];
      visits := visits + [Visit(Piece(ofs, text), met, s.Remaining())];
    }

    method Act(act: Act, s: BStream)
      requires s.Valid() && |s.Remaining()| + (if act.PushBack? then |act.x| else 0) + s.maxBuffSz + 4 < MAX_SIZE
      modifies s`isEOF, s.core, s.buff, s.buff.data
      ensures s.Valid() && (s.buff.data == old(s.buff.data) || fresh(s.buff.data))
      ensures s.Remaining() == Acted(old(s.Remaining()), [act], 0)
    {
      var done;
      if act.SkipLine? {
        var line := new Bstring.FromBlk([]);
        done := s.Bsreadlna(line, act.terminator);
      } else {
        var back := new Bstring.FromBlk(act.x);
        done := s.Bsunread(back.AsView());
      }
    }
  }

  // The characters up to the next separator, or to the end: i of them.
  method Collect(s: BStream, buff: Bstring, cf: CharField, ghost content: seq<byte>, ghost ts: seq<byte>)
    returns (i: nat, ended: bool)
    requires |content| + 1 < MAX_SIZE && Holds(cf, ts) && cf.content != buff.data && cf.content != s.buff.data
    requires Collecting(s, buff, content, 0, 0, ts)
    modifies s`isEOF, s.core, s.buff, s.buff.data, buff, buff.data
    ensures s.buff.data == old(s.buff.data) || fresh(s.buff.data)
    ensures buff.data == old(buff.data) || fresh(buff.data)
    ensures i <= |content| && Collecting(s, buff, content, 0, i, ts) && i == NextSplit(content, 0, ts)
    ensures ended <==> i == |content|
    ensures ended ==> buff.Text() == content && s.Remaining() == []
    ensures !ended ==> i < buff.slen
  {
    i, ended := 0, false;
    var found := false;
    while !found && !ended
      invariant 0 <= i <= |content| && Collecting(s, buff, content, 0, i, ts)
      invariant Holds(cf, ts) && cf.content != buff.data && cf.content != s.buff.data
      invariant s.buff.data == old(s.buff.data) || fresh(s.buff.data)
      invariant buff.data == old(buff.data) || fresh(buff.data)
      invariant ended ==> i == |content| && buff.Text() == content && s.Remaining() == []
      invariant found ==> i < |content| && i < buff.slen && content[i] in ts
      decreases !found && !ended, |content| - i
    {
      TopUp(s, buff, content, 0, i, ts);
      if i >= buff.slen {
        ended := true;
        assert content[0..] == content;
      } else {
        found := Look(s, buff, cf, content, 0, i, ts);
        i := if found then i else i + 1;
      }
    }
  }

  lemma NothingCollected(content: seq<byte>)
    ensures [] + content == content && content[0..] == content
  {
  }

  // The piece in the buffer, and the stream behind its separator.
  method CollectPiece(s: BStream, buff: Bstring, cf: CharField, ghost content: seq<byte>, ghost ts: seq<byte>)
    returns (i: nat, ended: bool)
    requires s.Valid() && buff.Valid() && s.Apart(buff) && buff.slen == 0 && Holds(cf, ts)
    requires cf.content != buff.data && cf.content != s.buff.data
    requires content == s.Remaining() && |content| + 1 < MAX_SIZE
    modifies s`isEOF, s.core, s.buff, s.buff.data, buff, buff.data
    ensures s.Valid() && buff.Valid() && s.Apart(buff)
    ensures s.buff.data == old(s.buff.data) || fresh(s.buff.data)
    ensures buff.data == old(buff.data) || fresh(buff.data)
    ensures i == NextSplit(content, 0, ts) && (ended <==> i == |content|)
    ensures buff.Text() == content[..i] && s.Remaining() == if ended then [] else content[i + 1..]
  {
    NothingCollected(content);
    i, ended := Collect(s, buff, cf, content, ts);
    if ended {
      assert content[..i] == content;
    } else {
      CutAt(s, buff, content, 0, i, ts);
      assert content[0..i] == content[..i];
    }
  }

  // What holds of the calls at any time.
  ghost predicate Visited(start: seq<byte>, visits: seq<Visit>, acts: seq<Act>, ts: seq<byte>)
  {
    && (forall k :: 0 <= k < |visits| ==> VisitIs(start, visits, acts, ts, k))
    && (forall k :: 0 <= k < |visits| - 1 ==> GoesOn(start, visits, ts, k))
  }

  // One piece and its callback.
  method Segment(s: BStream, buff: Bstring, cf: CharField, cb: Actor, p: nat, ghost start: seq<byte>,
                 ghost ts: seq<byte>)
    returns (over: bool, ret: int, p': nat)
    requires s.Valid() && buff.Valid() && s.Apart(buff) && buff.slen == 0 && Holds(cf, ts)
    requires cf.content != buff.data && cf.content != s.buff.data
    requires |s.Remaining()| + PushedFrom(cb.acts, |cb.visits|) + s.maxBuffSz + 4 < MAX_SIZE
    requires cb.Valid() && Visited(start, cb.visits, cb.acts, ts) && p == OffsetAt(cb.visits, |cb.visits|)
    requires s.Remaining() == ContentAt(start, cb.visits, |cb.visits|)
    requires |cb.visits| > 0 ==> GoesOn(start, cb.visits, ts, |cb.visits| - 1)
    modifies s`isEOF, s.core, s.buff, s.buff.data, buff, buff.data, cb
    ensures s.Valid() && buff.Valid() && s.Apart(buff) && buff.slen == 0
    ensures s.buff.data == old(s.buff.data) || fresh(s.buff.data)
    ensures buff.data == old(buff.data) || fresh(buff.data)
    ensures |s.Remaining()| + PushedFrom(cb.acts, |cb.visits|) + s.maxBuffSz + 4 < MAX_SIZE
    ensures cb.Valid() && Visited(start, cb.visits, cb.acts, ts) && |cb.visits| == |old(cb.visits)| + 1
    ensures p' == OffsetAt(cb.visits, |cb.visits|) && s.Remaining() == ContentAt(start, cb.visits, |cb.visits|)
    ensures ret < 0 <==> |old(cb.visits)| == cb.stop
    ensures over <==> ret < 0 || !GoesOn(start, cb.visits, ts, |cb.visits| - 1)
    ensures !over && |cb.visits| > |cb.acts| ==> |s.Remaining()| < |old(s.Remaining())|
  {
    ghost var content := s.Remaining();
    var i, ended := CollectPiece(s, buff, cf, content, ts);
    var text := buff.data[..buff.slen];
    buff.slen := 0;
    ret := CallActor(s, cb, p, text, i, ended, start, content, ts);
    over, p' := ended || ret < 0, p + i + 1;
  }

  // The callback for the piece of i characters that content begins with.
  method CallActor(s: BStream, cb: Actor, p: nat, text: seq<byte>, i: nat, ended: bool,
                  ghost start: seq<byte>, ghost content: seq<byte>, ghost ts: seq<byte>) returns (ret: int)
    requires s.Valid() && |content| + PushedFrom(cb.acts, |cb.visits|) + s.maxBuffSz + 4 < MAX_SIZE
    requires cb.Valid() && Visited(start, cb.visits, cb.acts, ts) && p == OffsetAt(cb.visits, |cb.visits|)
    requires content == ContentAt(start, cb.visits, |cb.visits|)
    requires |cb.visits| > 0 ==> GoesOn(start, cb.visits, ts, |cb.visits| - 1)
    requires i == NextSplit(content, 0, ts) && text == content[..i] && (ended <==> i == |content|)
    requires s.Remaining() == if ended then [] else content[i + 1..]
    modifies s`isEOF, s.core, s.buff, s.buff.data, cb
    ensures s.Valid() && (s.buff.data == old(s.buff.data) || fresh(s.buff.data))
    ensures |s.Remaining()| + PushedFrom(cb.acts, |cb.visits|) + s.maxBuffSz + 4 < MAX_SIZE
    ensures cb.Valid() && Visited(start, cb.visits, cb.acts, ts) && |cb.visits| == |old(cb.visits)| + 1
    ensures OffsetAt(cb.visits, |cb.visits|) == p + i + 1 && s.Remaining() == ContentAt(start, cb.visits, |cb.visits|)
    ensures ret < 0 <==> |old(cb.visits)| == cb.stop
    ensures GoesOn(start, cb.visits, ts, |cb.visits| - 1) <==> !ended
    ensures !ended && |cb.visits| > |cb.acts| ==> |s.Remaining()| < |content|
  {
    ghost var before, met := cb.visits, s.Remaining();
    ret := cb.Call(p, text, s);
    OneVisitMore(start, before, cb.visits, Visit(Piece(p, text), met, s.Remaining()), cb.acts, ts, content, i);
  }

  lemma OneVisitMore(start: seq<byte>, before: seq<Visit>, visits: seq<Visit>, v: Visit, acts: seq<Act>, ts: seq<byte>,
                     content: seq<byte>, i: nat)
    requires visits == before + [v] && Visited(start, before, acts, ts) && content == ContentAt(start, before, |before|)
    requires |before| > 0 ==> GoesOn(start, before, ts, |before| - 1)
    requires i == NextSplit(content, 0, ts) && v.piece == Piece(OffsetAt(before, |before|), content[..i])
    requires v.met == (if i < |content| then content[i + 1..] else []) && v.left == Acted(v.met, acts, |before|)
    ensures Visited(start, visits, acts, ts)
    ensures OffsetAt(visits, |visits|) == OffsetAt(before, |before|) + i + 1
      && ContentAt(start, visits, |visits|) == v.left
    ensures GoesOn(start, visits, ts, |before|) <==> i < |content|
  {
    NewVisit(start, before, visits, acts, ts, v, content, i);
    forall k | 0 <= k < |before|
      ensures VisitIs(start, visits, acts, ts, k) && GoesOn(start, visits, ts, k)
    {
      EarlierVisit(start, before, visits, acts, ts, k);
    }
  }

  lemma EarlierVisit(start: seq<byte>, before: seq<Visit>, visits: seq<Visit>, acts: seq<Act>, ts: seq<byte>, k: nat)
    requires k < |before| <= |visits| && visits[..|before|] == before && VisitIs(start, before, acts, ts, k)
    ensures VisitIs(start, visits, acts, ts, k) && (GoesOn(start, before, ts, k) ==> GoesOn(start, visits, ts, k))
  {
    assert visits[k] == before[k] && (k > 0 ==> visits[k - 1] == before[k - 1]);
  }

  lemma NewVisit(start: seq<byte>, before: seq<Visit>, visits: seq<Visit>, acts: seq<Act>, ts: seq<byte>,
                 v: Visit, content: seq<byte>, i: nat)
    requires visits == before + [v] && content == ContentAt(start, before, |before|)
    requires i == NextSplit(content, 0, ts) && v.piece == Piece(OffsetAt(before, |before|), content[..i])
    requires v.met == (if i < |content| then content[i + 1..] else []) && v.left == Acted(v.met, acts, |before|)
    ensures VisitIs(start, visits, acts, ts, |before|)
    ensures GoesOn(start, visits, ts, |before|) <==> i < |content|
    ensures OffsetAt(visits, |visits|) == OffsetAt(before, |before|) + i + 1
      && ContentAt(start, visits, |visits|) == v.left
  {
    assert visits[|before|] == v && (|before| > 0 ==> visits[|before| - 1] == before[|before| - 1]);
  }

  // Where the splitting has come to its end, and why.
  ghost predicate Finished(start: seq<byte>, s: BStream, cb: Actor, ts: seq<byte>, ret: int)
    requires s.Valid()
    reads s, s.buff, s.buff.data, s.core, cb
  {
    && cb.Valid() && cb.visits != [] && Visited(start, cb.visits, cb.acts, ts)
    && s.Remaining() == cb.visits[|cb.visits| - 1].left
    && (ret < 0 <==> |cb.visits| == cb.stop + 1)
    && (ret < 0 || !GoesOn(start, cb.visits, ts, |cb.visits| - 1))
  }

  // bssplitscb with callbacks that act on the stream: every call is as VisitIs says,
  // and they end with the stream or with the callback that gives up.
  method BssplitscbActing(s: BStream, splitStr: View, cb: Actor) returns (ret: int)
    requires s.Valid() && splitStr.Valid() && splitStr.data != s.buff.data && cb.Valid() && cb.calls == []
    requires |s.Remaining()| + PushedFrom(cb.acts, 0) + s.maxBuffSz + 4 < MAX_SIZE
    modifies s`isEOF, s.core, s.buff, s.buff.data, cb
    ensures s.Valid() && Finished(old(s.Remaining()), s, cb, splitStr.Text(), ret)
  {
    var buff := new Bstring.FromBlk([]);
    if splitStr.slen == 0 {
      ret := WholeStream(s, buff, cb);
      assert splitStr.Text() == [];
    } else {
      var cf := new CharField();
      var built := cf.Build(splitStr);
      ret := ActLoop(s, buff, cf, cb, splitStr.Text());
    }
  }

  // An empty set of separators: one call with everything.
  method WholeStream(s: BStream, buff: Bstring, cb: Actor) returns (ret: int)
    requires s.Valid() && buff.Valid() && s.Apart(buff) && buff.slen == 0 && cb.Valid() && cb.calls == []
    requires |s.Remaining()| + PushedFrom(cb.acts, 0) + s.maxBuffSz + 4 < MAX_SIZE
    modifies s`isEOF, s.core, s.buff, s.buff.data, buff, buff.data, cb
    ensures s.Valid() && Finished(old(s.Remaining()), s, cb, [], ret)
  {
    ghost var content := s.Remaining();
    NextSplitAt(content, 0, |content|, []);
    ReadAll(s, buff, content);
    assert content[..|content|] == content;
    var text := buff.data[..buff.slen];
    ret := cb.Call(0, text, s);
    OneVisitMore(content, [], cb.visits, Visit(Piece(0, text), [], s.Remaining()), cb.acts, [], content, |content|);
  }

  method ActLoop(s: BStream, buff: Bstring, cf: CharField, cb: Actor, ghost ts: seq<byte>) returns (ret: int)
    requires s.Valid() && buff.Valid() && s.Apart(buff) && buff.slen == 0 && cb.Valid() && cb.calls == []
    requires Holds(cf, ts) && cf.content != buff.data && cf.content != s.buff.data
    requires |s.Remaining()| + PushedFrom(cb.acts, 0) + s.maxBuffSz + 4 < MAX_SIZE
    modifies s`isEOF, s.core, s.buff, s.buff.data, buff, buff.data, cb
    ensures s.Valid() && Finished(old(s.Remaining()), s, cb, ts, ret)
  {
    ghost var start := s.Remaining();
    var p, over := 0, false;
    ret := 0;
    while !over
      invariant s.Valid() && buff.Valid() && s.Apart(buff) && buff.slen == 0 && Holds(cf, ts)
      invariant s.buff.data == old(s.buff.data) || fresh(s.buff.data)
      invariant buff.data == old(buff.data) || fresh(buff.data)
      invariant cf.content != buff.data && cf.content != s.buff.data
      invariant |s.Remaining()| + PushedFrom(cb.acts, |cb.visits|) + s.maxBuffSz + 4 < MAX_SIZE
      invariant cb.Valid() && Visited(start, cb.visits, cb.acts, ts) && p == OffsetAt(cb.visits, |cb.visits|)
      invariant s.Remaining() == ContentAt(start, cb.visits, |cb.visits|)
      invariant !over ==> |cb.visits| <= cb.stop && (|cb.visits| > 0 ==> GoesOn(start, cb.visits, ts, |cb.visits| - 1))
      invariant over ==> cb.visits != [] && (ret < 0 <==> |cb.visits| == cb.stop + 1)
      invariant over ==> ret < 0 || !GoesOn(start, cb.visits, ts, |cb.visits| - 1)
      decreases !over, if |cb.visits| < |cb.acts| then |cb.acts| - |cb.visits| else 0, |s.Remaining()|
    {
      over, ret, p := Segment(s, buff, cf, cb, p, start, ts);
    }
  }
}

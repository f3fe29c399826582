// Any sequence of reads and push-backs on one bStream.
module StreamRuns {
  import opened Bstrings
  import opened Growth
  import opened Memory
  import opened Streams

  datatype Call =
    | ReadLine(term: seq<byte>)   // bsreadlnsa
    | Read(n: int)                // bsreada
    | Unread(b: seq<byte>)        // bsunread

  // The calls, with what each of them put out, lead from a stream holding start to
  // one holding end: undoing the last call gives a stream the others account for.
  ghost predicate Accounted(calls: seq<Call>, outs: seq<seq<byte>>, start: seq<byte>, end: seq<byte>)
    requires |calls| == |outs|
    decreases |calls|
  {
    if |calls| == 0 then start == end
    else
      var n := |calls| - 1;
      match calls[n]
      case Unread(b) =>
        outs[n] == [] && |b| <= |end| && end[..|b|] == b &&
        Accounted(calls[..n], outs[..n], start, end[|b|..])
      case ReadLine(term) =>
        outs[n] == (if term == [] then [] else Line(outs[n] + end, term)) &&
        Accounted(calls[..n], outs[..n], start, outs[n] + end)
      case Read(k) =>
        (|outs[n]| <= k || outs[n] == []) && (outs[n] == [] ==> k <= 0 || end == []) &&
        Accounted(calls[..n], outs[..n], start, outs[n] + end)
  }

  function Flatten(outs: seq<seq<byte>>): seq<byte>
  {
    if |outs| == 0 then [] else Flatten(outs[..|outs| - 1]) + outs[|outs| - 1]
  }

  // Without push-backs the outputs, joined, are what is gone from the stream:
  // nothing lost, duplicated or reordered.
  lemma {:induction false} OutputsAreThePrefix(calls: seq<Call>, outs: seq<seq<byte>>, start: seq<byte>, end: seq<byte>)
    requires |calls| == |outs| && Accounted(calls, outs, start, end)
    requires forall i :: 0 <= i < |calls| ==> !calls[i].Unread?
    ensures start == Flatten(outs) + end
  {
    var n := |calls| - 1;
    if n >= 0 {
      assert !calls[n].Unread?;
      OutputsAreThePrefix(calls[..n], outs[..n], start, outs[n] + end);
    }
  }

  // All the bytes the calls push back, a bound on how long the stream can get.
  function Pushed(calls: seq<Call>): nat
  {
    if |calls| == 0 then 0
    else
      var last := calls[|calls| - 1];
      Pushed(calls[..|calls| - 1]) + (match last
        case Unread(b) => |b|
        case ReadLine(term) => |term|
        case Read(_) => 0)
  }

  lemma PushedGrows(calls: seq<Call>, k: nat)
    requires k < |calls|
    ensures Pushed(calls[..k + 1]) <= Pushed(calls)
    decreases |calls|
  {
    if k + 1 == |calls| {
      assert calls[..k + 1] == calls;
    } else {
      PushedGrows(calls[..|calls| - 1], k);
      assert calls[..|calls| - 1][..k + 1] == calls[..k + 1];
    }
  }

  lemma Delivered(all: seq<byte>, x: seq<byte>, out: seq<byte>, rest: seq<byte>)
    requires |x| <= |all| && all[..|x|] == x && out == [] + x && rest == all[|x|..]
    ensures out == x && out + rest == all
  {
  }

  // One call on the stream.
  method MakeCall(s: BStream, call: Call) returns (out: seq<byte>)
    requires s.Valid() && |s.Remaining()| + Pushed([call]) + s.maxBuffSz + 4 < MAX_SIZE
    modifies s`isEOF, s.core, s.buff, s.buff.data
    ensures s.Valid() && (s.buff.data == old(s.buff.data) || fresh(s.buff.data))
    ensures match call
      case Unread(b) => out == [] && s.Remaining() == b + old(s.Remaining())
      case ReadLine(term) =>
        && out + s.Remaining() == old(s.Remaining())
        && out == (if term == [] then [] else Line(old(s.Remaining()), term))
      case Read(k) =>
        && out + s.Remaining() == old(s.Remaining()) && (|out| <= k || out == [])
        && (out == [] ==> k <= 0 || s.Remaining() == [])
  {
    var arg := new Bstring.FromBlk(if call.Unread? then call.b else if call.ReadLine? then call.term else []);
    var r := new Bstring.FromBlk([]);
    ghost var all := s.Remaining();
    var ret;
    if call.Unread? {
      ret := s.Bsunread(arg.AsView());
      out := [];
    } else if call.ReadLine? {
      ret := s.Bsreadlnsa(r, arg.AsView());
      out := r.data[..r.slen];
      if call.term != [] {
        LineIsFirst(all, call.term);
        Delivered(all, Line(all, call.term), out, s.Remaining());
      }
    } else {
      ret := s.Bsreada(r, call.n);
      out := r.data[..r.slen];
      if call.n > 0 {
        Delivered(all, all[..r.slen], out, s.Remaining());
      }
    }
  }

  // Every run, whatever the buffer size and however short the core's reads are.
  method RunCalls(s: BStream, calls: seq<Call>) returns (outs: seq<seq<byte>>)
    requires s.Valid() && |s.Remaining()| + Pushed(calls) + s.maxBuffSz + 4 < MAX_SIZE
    modifies s`isEOF, s.core, s.buff, s.buff.data
    ensures s.Valid() && |outs| == |calls|
    ensures Accounted(calls, outs, old(s.Remaining()), s.Remaining())
  {
    ghost var start := s.Remaining();
    outs := [];
    var k := 0;
    while k < |calls|
      invariant 0 <= k <= |calls| && |outs| == k && s.Valid()
      invariant s.buff.data == old(s.buff.data) || fresh(s.buff.data)
      invariant Accounted(calls[..k], outs, start, s.Remaining())
      invariant |s.Remaining()| <= |start| + Pushed(calls[..k])
    {
      ghost var before := s.Remaining();
      PushedGrows(calls, k);
      assert calls[..k + 1][..k] == calls[..k];
      var out := MakeCall(s, calls[k]);
      assert (outs + [out])[..k] == outs;
      if calls[k].Unread? {
        assert s.Remaining()[|calls[k].b|..] == before;
      }
      outs := outs + [out];
      k := k + 1;
    }
    assert calls[..k] == calls;
  }
}

// Any sequence of edits on one bstring: what the text becomes, and how the
// buffer grows with it.
module Edits {
  import opened Bstrings
  import opened Growth
  import opened Memory

  // An argument of an edit: a string of its own, or the n bytes from position i of
  // the string being edited. A part that is not there is empty.
  datatype Argument = Given(x: seq<byte>) | Own(i: nat, n: nat)

  datatype Edit =
    | Append(x: Argument)
    | Overwrite(pos: nat, x: Argument, fill: byte)
    | Insert(pos: nat, x: Argument, fill: byte)
    | Replace(pos: nat, len: nat, x: Argument, fill: byte)
    | Delete(pos: nat, len: nat)

  // What the argument says before the edit.
  function Meant(s: seq<byte>, a: Argument): seq<byte>
  {
    match a
    case Given(x) => x
    case Own(i, n) => if i + n <= |s| then s[i..i + n] else []
  }

  lemma MeantIs(s: seq<byte>, i: nat, n: nat, k: nat)
    requires i + n <= |s|
    ensures |Meant(s, Own(i, n))| == n && (k < n ==> Meant(s, Own(i, n))[k] == s[i + k])
  {
  }

  function Apply(s: seq<byte>, e: Edit): seq<byte>
  {
    match e
    case Append(x) => s + Meant(s, x)
    case Overwrite(pos, x, fill) => Overwritten(s, pos, Meant(s, x), fill)
    case Insert(pos, x, fill) => Inserted(s, pos, Meant(s, x), fill)
    case Replace(pos, len, x, fill) => Replaced(s, pos, len, Meant(s, x), fill)
    case Delete(pos, len) => Deleted(s, pos, len)
  }

  function ApplyAll(s: seq<byte>, es: seq<Edit>): seq<byte>
  {
    if |es| == 0 then s else Apply(ApplyAll(s, es[..|es| - 1]), es[|es| - 1])
  }

  // The length of the longest text on the way.
  function Peak(s: seq<byte>, es: seq<Edit>): (n: nat)
    ensures |s| <= n && |ApplyAll(s, es)| <= n
  {
    if |es| == 0 then |s|
    else
      var n := Peak(s, es[..|es| - 1]);
      if n < |ApplyAll(s, es)| then |ApplyAll(s, es)| else n
  }

  // The peak is the length of the text after some of the edits, and none is longer.
  lemma {:induction false} PeakIsLongest(s: seq<byte>, es: seq<Edit>, j: nat) returns (k: nat)
    requires j <= |es|
    ensures k <= |es| && Peak(s, es) == |ApplyAll(s, es[..k])| >= |ApplyAll(s, es[..j])|
    decreases |es|
  {
    AllOfThem(es);
    if |es| == 0 {
      k := 0;
    } else {
      var first := es[..|es| - 1];
      k := PeakIsLongest(s, first, if j < |es| then j else 0);
      PrefixOfFirst(es, k);
      if j < |es| {
        PrefixOfFirst(es, j);
      }
      if Peak(s, es) != Peak(s, first) {
        k := |es|;
      }
    }
  }

  lemma AllOfThem(es: seq<Edit>)
    ensures es[..|es|] == es
  {
  }

  lemma PrefixOfFirst(es: seq<Edit>, j: nat)
    requires j < |es|
    ensures es[..|es| - 1][..j] == es[..j]
  {
  }

  lemma PeakGrows(s: seq<byte>, es: seq<Edit>, k: nat)
    requires k <= |es|
    ensures Peak(s, es[..k]) <= Peak(s, es)
    decreases |es|
  {
    if k == |es| {
      assert es[..k] == es;
    } else {
      PeakGrows(s, es[..|es| - 1], k);
      assert es[..|es| - 1][..k] == es[..k];
    }
  }

  // The view an edit is called with.
  method ViewOf(b: Bstring, a: Argument) returns (v: View)
    requires b.Valid() && (a.Given? ==> |a.x| + 2 < MAX_SIZE)
    ensures v.Valid() && v.Text() == Meant(b.Text(), a) && v.slen == |Meant(b.Text(), a)|
    ensures (v.data == b.data && v.ofs + v.slen <= b.slen) || fresh(v.data)
  {
    if a.Given? {
      var own := new Bstring.FromBlk(a.x);
      return own.AsView();
    }
    v := View(b.data, 0, 0);
    if a.i + a.n <= b.slen {
      PrefixSlice(b.data[..], b.Text(), a.i, a.i + a.n);
      v := View(b.data, a.i, a.n);
    }
  }

  // One edit on the bstring itself, the argument possibly part of it. The block
  // moves exactly when the capacity changes.
  method ApplyTo(b: Bstring, e: Edit)
    requires b.Valid() && b.slen + 2 < MAX_SIZE && |Apply(b.Text(), e)| + 2 < MAX_SIZE
    modifies b, b.data
    ensures b.Valid() && b.Text() == Apply(old(b.Text()), e)
    ensures b.data == old(b.data) || fresh(b.data)
    ensures b.data == old(b.data) <==> b.mlen == old(b.mlen)
    ensures Resized(old(b.mlen), b.mlen, b.slen)
  {
    var ret := BSTR_OK;
    if e.Delete? {
      ret := b.Bdelete(e.pos, e.len);
      return;
    }
    var v := ViewOf(b, e.x);
    match e {
      case Append(_) =>
        ret := b.Bconcat(v);
      case Overwrite(pos, _, fill) =>
        ret := b.Bsetstr(pos, v, fill);
        ResizedWithin(old(b.mlen), b.mlen, pos + v.slen, b.slen);
      case Insert(pos, _, fill) =>
        ret := b.Binsert(pos, v, fill);
      case Replace(pos, len, _, fill) =>
        ret := b.Breplace(pos, len, v, fill);
      case Delete(_, _) =>
    }
  }

  lemma RunStep(s: seq<byte>, es: seq<Edit>, k: nat)
    requires k < |es|
    ensures ApplyAll(s, es[..k + 1]) == Apply(ApplyAll(s, es[..k]), es[k])
    ensures |ApplyAll(s, es[..k])| <= Peak(s, es) && |ApplyAll(s, es[..k + 1])| <= Peak(s, es)
  {
    assert es[..k + 1][..k] == es[..k];
    PeakGrows(s, es, k);
    PeakGrows(s, es, k + 1);
  }

  // What holds of the buffer size and the number of moves between two edits.
  ghost predicate WithinPolicy(mlen: nat, moves: nat, peak: nat)
  {
    SnappedSize(mlen) && (mlen == 8 || mlen <= 2 * (peak + 1)) && 8 * Pow2(moves) <= mlen
  }

  lemma PolicyStep(m: nat, m2: nat, n: nat, moves: nat, peak: nat)
    requires WithinPolicy(m, moves, peak) && Resized(m, m2, n) && n <= peak && peak + 1 < MAX_SIZE
    ensures WithinPolicy(m2, if m2 == m then moves else moves + 1, peak)
  {
    ResizeKeepsPolicy(m, m2, n, peak);
  }

  // Every run of edits: the buffer size stays a power of two greater than the
  // length, and at most twice the longest text plus two if and only if that text
  // has three bytes or more (else it is 8); the block has moved at most log2 of the
  // longest text's length times.
  method RunEdits(s: seq<byte>, es: seq<Edit>) returns (b: Bstring, moves: nat)
    requires Peak(s, es) + 2 < MAX_SIZE
    ensures fresh(b) && fresh(b.data) && b.Valid()
    ensures b.Text() == ApplyAll(s, es)
    ensures SnappedSize(b.mlen) && (b.mlen == 8 || b.mlen <= 2 * (Peak(s, es) + 1))
    ensures b.mlen <= 2 * (Peak(s, es) + 1) <==> Peak(s, es) >= 3
    ensures moves == 0 || Pow2(moves) <= Peak(s, es)
  {
    b := new Bstring.FromBlk(s);
    SnappedBounds(if |s| == 0 then 2 else |s| + 1);
    moves := 0;
    ghost var peak := Peak(s, es);
    var k := 0;
    while k < |es|
      invariant 0 <= k <= |es| && fresh(b) && fresh(b.data) && b.Valid()
      invariant b.Text() == ApplyAll(s, es[..k])
      invariant WithinPolicy(b.mlen, moves, peak)
    {
      moves := ApplyNext(b, s, es, k, moves, peak);
      k := k + 1;
    }
    assert es[..|es|] == es;
    SmallestSize(b.mlen);
  }

  // The documented bound of 2 * (n + 1) bytes does not hold of the empty string.
  method BoundExceeded() returns (b: Bstring)
    ensures b.Valid() && b.Text() == [] == ApplyAll([], [])
    ensures b.mlen > 2 * (Peak([], []) + 1)
  {
    b := new Bstring.FromBlk([]);
    SnappedBounds(2);
  }

  method ApplyNext(b: Bstring, ghost s: seq<byte>, es: seq<Edit>, k: nat, moves: nat, ghost peak: nat)
    returns (moves': nat)
    requires k < |es| && b.Valid() && b.Text() == ApplyAll(s, es[..k])
    requires peak == Peak(s, es) && peak + 2 < MAX_SIZE && WithinPolicy(b.mlen, moves, peak)
    modifies b, b.data
    ensures b.Valid() && (b.data == old(b.data) || fresh(b.data))
    ensures b.Text() == ApplyAll(s, es[..k + 1]) && WithinPolicy(b.mlen, moves', peak)
  {
    RunStep(s, es, k);
    var before, block := b.mlen, b.data;
    ApplyTo(b, es[k]);
    PolicyStep(before, b.mlen, b.slen, moves, peak);
    moves' := if b.data != block then moves + 1 else moves;
  }
}

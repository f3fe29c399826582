// bStream: buffered reading from a core stream that may deliver short counts.
module Streams {
  import opened Bstrings
  import opened CharFields
  import opened Growth
  import opened Memory

  // The core stream behind a read function. rest is what it still delivers
  // before it first reports that there is nothing left.
  class Source {
    var rest: seq<byte>

    constructor (content: seq<byte>)
      ensures rest == content
    {
      rest := content;
    }

    // An fread-like call for n bytes: any positive number of them may arrive, none
    // only at the end.
    method Read(dst: array<byte>, ofs: nat, n: nat) returns (l: nat)
      requires ofs + n <= dst.Length
      modifies this, dst
      ensures l <= n && l <= |old(rest)| && (l == 0 <==> n == 0 || old(rest) == [])
      ensures rest == old(rest)[l..]
      ensures dst[ofs..ofs + l] == old(rest)[..l]
      ensures forall k :: 0 <= k < dst.Length && !(ofs <= k < ofs + l) ==> dst[k] == old(dst[k])
    {
      var chunk: nat :| chunk <= n && chunk <= |rest| && (chunk == 0 <==> n == 0 || rest == []);
      l := chunk;
      forall k | 0 <= k < l {
        dst[ofs + k] := rest[k];
      }
      rest := rest[l..];
    }
  }

  // The part of s a line read delivers: up to and including the first terminator,
  // or all of it.
  function Line(s: seq<byte>, ts: seq<byte>): (r: seq<byte>)
    ensures |r| <= |s|
  {
    if |s| == 0 then []
    else if s[0] in ts then [s[0]]
    else [s[0]] + Line(s[1..], ts)
  }

  ghost predicate Free(s: seq<byte>, ts: seq<byte>)
  {
    forall k :: 0 <= k < |s| ==> s[k] !in ts
  }

  // Line is a prefix; it has no terminator but its last character, and it
  // stops short of the end only behind a terminator.
  lemma {:induction false} LineIsFirst(s: seq<byte>, ts: seq<byte>)
    ensures var r := Line(s, ts);
            && s[..|r|] == r
            && ((r == s && Free(s, ts)) || (|r| > 0 && r[|r| - 1] in ts && Free(r[..|r| - 1], ts)))
  {
    if |s| > 0 && s[0] !in ts {
      var r, t := Line(s, ts), Line(s[1..], ts);
      LineIsFirst(s[1..], ts);
      assert s == [s[0]] + s[1..];
      if |t| > 0 {
        assert r[..|r| - 1] == [s[0]] + t[..|t| - 1];
      }
    }
  }

  lemma {:induction false} LineSkipsFree(a: seq<byte>, b: seq<byte>, ts: seq<byte>)
    requires Free(a, ts)
    ensures Line(a + b, ts) == a + Line(b, ts)
  {
    if |a| == 0 {
      assert a + b == b;
    } else {
      assert (a + b)[1..] == a[1..] + b;
      LineSkipsFree(a[1..], b, ts);
    }
  }

  // The first terminator at position i after a stretch without one.
  lemma LineEndsAt(s: seq<byte>, i: nat, ts: seq<byte>)
    requires i < |s| && Free(s[..i], ts) && s[i] in ts
    ensures Line(s, ts) == s[..i + 1]
  {
    assert s == s[..i] + s[i..];
    LineSkipsFree(s[..i], s[i..], ts);
  }

  ghost predicate Holds(cf: CharField, ts: seq<byte>)
    reads cf, cf.content
  {
    cf.Valid() && forall c: byte :: cf.Has(c) <==> c in ts
  }

  method Test(cf: CharField, c: byte, ghost ts: seq<byte>) returns (b: bool)
    requires Holds(cf, ts)
    ensures b <==> c in ts
  {
    b := cf.Has(c);
  }

  // The scan of a line read: no bound is tested, a terminator has been put behind
  // the data as a sentinel.
  method ScanToSentinel(cf: CharField, data: array<byte>, ofs: nat, l: nat, ghost ts: seq<byte>) returns (i: nat)
    requires Holds(cf, ts) && ofs + l < data.Length && data[ofs + l] in ts
    ensures i <= l && data[ofs + i] in ts && Free(data[ofs..ofs + i], ts)
  {
    i := 0;
    while !cf.Has(data[ofs + i])
      invariant i <= l && Free(data[ofs..ofs + i], ts)
      decreases l - i
    {
      assert data[ofs..ofs + i + 1] == data[ofs..ofs + i] + [data[ofs + i]];
      i := i + 1;
    }
  }

  class BStream {
    const buff: Bstring
    const core: Source
    var isEOF: bool
    var maxBuffSz: nat

    ghost predicate Valid()
      reads this, buff, core
    {
      && buff.Valid() && 0 < maxBuffSz && maxBuffSz + 2 < MAX_SIZE
      && (isEOF ==> core.rest == [])
    }

    // What the stream still has to deliver: the over-read bytes, then the core.
    ghost function Remaining(): seq<byte>
      requires Valid()
      reads this, buff, buff.data, core
    {
      buff.Text() + core.rest
    }

    // r is a string of its own, with room to take all that is left.
    ghost predicate Apart(r: Bstring)
      reads this, buff, r
    {
      r != buff && r.data != buff.data
    }

    // bsopen
    constructor (core: Source)
      ensures Valid() && this.core == core && fresh(buff) && fresh(buff.data)
      ensures Remaining() == core.rest && maxBuffSz == 1024
    {
      var b := new Bstring.FromBlk([]);
      this.buff := b;
      this.core := core;
      maxBuffSz := 1024;
      isEOF := false;
    }

    // bsbufflength
    method BufferLength(sz: int) returns (oldSz: int)
      requires Valid() && sz + 2 < MAX_SIZE
      modifies this`maxBuffSz
      ensures Valid()
      ensures oldSz == if sz < 0 then BSTR_ERR else old(maxBuffSz)
      ensures maxBuffSz == if sz > 0 then sz else old(maxBuffSz)
    {
      if sz < 0 {
        return BSTR_ERR;
      }
      oldSz := maxBuffSz;
      if sz > 0 {
        maxBuffSz := sz;
      }
    }

    // Looks for the first terminator in the buffer, with the sentinel behind it.
    method ScanBuffer(cf: CharField, sentinel: byte, ghost ts: seq<byte>) returns (i: nat)
      requires Valid() && Holds(cf, ts) && sentinel in ts && cf.content != buff.data
      modifies buff, buff.data
      ensures Valid() && maxBuffSz < buff.mlen
      ensures buff.data == old(buff.data) || fresh(buff.data)
      ensures buff.Text() == old(buff.Text())
      ensures i <= buff.slen && Free(buff.Text()[..i], ts)
      ensures i < buff.slen ==> buff.Text()[i] in ts
    {
      var l := buff.slen;
      buff.Reserve(maxBuffSz + 1);
      ghost var was := buff.data[..l];
      buff.data[l] := sentinel;
      assert buff.data[..l] == was;
      i := ScanToSentinel(cf, buff.data, 0, l, ts);
      assert buff.data[0..0 + i] == buff.data[..l][..i];
    }

    // Moves the first n bytes of the buffer to the end of r.
    method TakeFront(r: Bstring, n: nat)
      requires Valid() && r.Valid() && Apart(r) && n <= buff.slen && r.slen + n + 1 < MAX_SIZE
      modifies buff, buff.data, r, r.data
      ensures Valid() && r.Valid() && Apart(r)
      ensures buff.data == old(buff.data) && (r.data == old(r.data) || fresh(r.data))
      ensures buff.mlen == old(buff.mlen)
      ensures r.Text() == old(r.Text()) + old(buff.Text())[..n]
      ensures buff.Text() == old(buff.Text())[n..]
    {
      PrefixSlice(buff.data[..], buff.Text(), 0, n);
      var ret := r.Bconcat(View(buff.data, 0, n));
      ret := buff.Bdelete(0, n);
    }

    // The first part of a line read: if the buffer holds a terminator, the line
    // is taken from it; otherwise all of it goes to the output.
    method LineFromBuffer(r: Bstring, cf: CharField, sentinel: byte, ghost ts: seq<byte>) returns (found: bool)
      requires Valid() && r.Valid() && Apart(r) && Holds(cf, ts) && sentinel in ts
      requires cf.content != r.data && cf.content != buff.data
      requires r.slen + buff.slen + 1 < MAX_SIZE
      modifies buff, buff.data, r, r.data
      ensures Valid() && r.Valid() && Apart(r) && maxBuffSz < buff.mlen
      ensures buff.data == old(buff.data) || fresh(buff.data)
      ensures r.data == old(r.data) || fresh(r.data)
      ensures found ==> var line := Line(old(buff.Text()), ts);
              |line| > 0 && line[|line| - 1] in ts &&
              r.Text() == old(r.Text()) + line && buff.Text() == old(buff.Text())[|line|..]
      ensures !found ==> r.Text() == old(r.Text() + buff.Text()) && Free(old(buff.Text()), ts)
    {
      var i := ScanBuffer(cf, sentinel, ts);
      if i < buff.slen {
        LineEndsAt(buff.Text(), i, ts);
        TakeFront(r, i + 1);
        return true;
      }
      assert buff.Text()[..i] == buff.Text();
      var ret := r.Bconcat(buff.AsView());
      return false;
    }

    // One direct read behind the end of r: l bytes, the first terminator among
    // them at i. They are not part of r's text yet.
    method ReadChunk(r: Bstring, cf: CharField, sentinel: byte, ghost ts: seq<byte>)
      returns (l: nat, i: nat, ghost chunk: seq<byte>)
      requires Valid() && r.Valid() && Apart(r) && Holds(cf, ts) && sentinel in ts && cf.content != r.data
      requires r.slen + maxBuffSz + 1 < MAX_SIZE
      modifies core, r, r.data
      ensures Valid() && r.Valid() && Apart(r) && Holds(cf, ts) && cf.content != r.data
      ensures r.data == old(r.data) || fresh(r.data)
      ensures r.slen == old(r.slen) && r.Text() == old(r.Text()) && r.slen + l < r.mlen
      ensures l <= maxBuffSz && (l == 0 <==> old(core.rest) == [])
      ensures |chunk| == l && r.data[r.slen..r.slen + l] == chunk && chunk + core.rest == old(core.rest)
      ensures i <= l && Free(chunk[..i], ts) && (i < l ==> chunk[i] in ts)
    {
      r.Reserve(r.slen + maxBuffSz + 1);
      ghost var text, all := r.Text(), core.rest;
      l := core.Read(r.data, r.slen, maxBuffSz);
      assert r.Text() == text;
      i := 0;
      chunk := all[..l];
      if l > 0 {
        i := ScanChunk(r, cf, sentinel, l, chunk, ts);
      }
    }

    method ScanChunk(r: Bstring, cf: CharField, sentinel: byte, l: nat, ghost chunk: seq<byte>, ghost ts: seq<byte>)
      returns (i: nat)
      requires r.Valid() && Holds(cf, ts) && sentinel in ts && cf.content != r.data
      requires r.slen + l < r.mlen && |chunk| == l && r.data[r.slen..r.slen + l] == chunk
      modifies r.data
      ensures r.Text() == old(r.Text()) && r.data[r.slen..r.slen + l] == chunk
      ensures i <= l && Free(chunk[..i], ts) && (i < l ==> chunk[i] in ts)
    {
      ghost var text := r.Text();
      r.data[r.slen + l] := sentinel;
      assert r.data[r.slen..r.slen + l] == chunk;
      assert r.Text() == text;
      i := ScanToSentinel(cf, r.data, r.slen, l, ts);
      assert r.data[r.slen..r.slen + i] == chunk[..i];
    }

    // The line ends within the chunk: what is behind it goes to the buffer.
    method PushBack(r: Bstring, i: nat, l: nat, ghost chunk: seq<byte>)
      requires Valid() && r.Valid() && Apart(r) && i <= l && r.slen + l < r.mlen && l < buff.mlen
      requires |chunk| == l && r.data[r.slen..r.slen + l] == chunk
      modifies buff`slen, buff.data, r`slen, r.data
      ensures Valid() && r.Valid() && r.Text() == old(r.Text()) + chunk[..i]
      ensures buff.Text() == chunk[i..]
    {
      assert r.data[r.slen + i..r.slen + l] == chunk[i..];
      assert r.data[r.slen..r.slen + i] == chunk[..i];
      Memcpy(buff.data, 0, r.data, r.slen + i, l - i);
      buff.slen := l - i;
      r.SetLength(r.slen + i);
    }

    // The whole chunk belongs to the line.
    method Keep(r: Bstring, l: nat, ghost chunk: seq<byte>)
      requires r.Valid() && r.slen + l < r.mlen && |chunk| == l && r.data[r.slen..r.slen + l] == chunk
      modifies r`slen
      ensures r.Valid() && r.Text() == old(r.Text()) + chunk
    {
      r.slen := r.slen + l;
    }

    // The second part of a line read: direct reads into the output until a
    // terminator arrives or nothing more does. What was buffered has been used up.
    method LineFromCore(r: Bstring, cf: CharField, sentinel: byte, ghost ts: seq<byte>)
      requires Valid() && r.Valid() && Apart(r) && Holds(cf, ts) && sentinel in ts
      requires cf.content != r.data && cf.content != buff.data && maxBuffSz < buff.mlen
      requires r.slen + |core.rest| + maxBuffSz + 1 < MAX_SIZE
      modifies this`isEOF, core, buff`slen, buff.data, r, r.data
      ensures Valid() && r.Valid() && Apart(r) && (r.data == old(r.data) || fresh(r.data))
      ensures r.Text() == old(r.Text()) + Line(old(core.rest), ts)
      ensures Remaining() == old(core.rest)[|Line(old(core.rest), ts)|..]
    {
      ghost var text, all := r.Text(), core.rest;
      ghost var done: seq<byte> := [];
      var over := false;
      while !over
        invariant Valid() && r.Valid() && Apart(r) && Holds(cf, ts) && cf.content != r.data
        invariant maxBuffSz == old(maxBuffSz) && buff.mlen == old(buff.mlen) && buff.data == old(buff.data)
        invariant r.data == old(r.data) || fresh(r.data)
        invariant !over ==> r.Text() == text + done && done + core.rest == all && Free(done, ts)
        invariant over ==> r.Text() == text + Line(all, ts) && Remaining() == all[|Line(all, ts)|..]
        decreases !over, |core.rest|
      {
        over, done := LineRound(r, cf, sentinel, text, done, all, ts);
      }
    }

    // One round of that loop.
    method LineRound(r: Bstring, cf: CharField, sentinel: byte, ghost text: seq<byte>, ghost done0: seq<byte>,
                     ghost all: seq<byte>, ghost ts: seq<byte>) returns (over: bool, ghost done: seq<byte>)
      requires Valid() && r.Valid() && Apart(r) && Holds(cf, ts) && sentinel in ts
      requires cf.content != r.data && cf.content != buff.data && maxBuffSz < buff.mlen
      requires r.slen + maxBuffSz + 1 < MAX_SIZE
      requires r.Text() == text + done0 && done0 + core.rest == all && Free(done0, ts)
      modifies this`isEOF, core, buff`slen, buff.data, r, r.data
      ensures Valid() && r.Valid() && Apart(r) && Holds(cf, ts) && cf.content != r.data
      ensures r.data == old(r.data) || fresh(r.data)
      ensures !over ==> |core.rest| < |old(core.rest)|
      ensures !over ==> r.Text() == text + done && done + core.rest == all && Free(done, ts)
      ensures over ==> r.Text() == text + Line(all, ts) && Remaining() == all[|Line(all, ts)|..]
    {
      var l, i, chunk := ReadChunk(r, cf, sentinel, ts);
      if l == 0 {
        r.SetLength(r.slen);
        buff.slen := 0;
        isEOF := true;
        LineIsAll(done0, all, ts);
        return true, done0;
      }
      if i < l {
        LineSplit(all, done0, chunk, core.rest, i, ts);
        PushBack(r, i + 1, l, chunk);
        Assoc(text, done0, chunk[..i + 1]);
        return true, done0;
      }
      Keep(r, l, chunk);
      FreeJoin(done0, chunk, ts);
      Assoc(text, done0, chunk);
      Assoc(done0, chunk, core.rest);
      return false, done0 + chunk;
    }

    // bsreadlnsa and bsreadlna once the set of terminators is built.
    method ReadLine(r: Bstring, cf: CharField, sentinel: byte, ghost ts: seq<byte>) returns (ret: int)
      requires Valid() && r.Valid() && Apart(r) && Holds(cf, ts) && sentinel in ts
      requires cf.content != r.data && cf.content != buff.data
      requires r.slen + |Remaining()| + maxBuffSz + 1 < MAX_SIZE
      modifies this`isEOF, core, buff, buff.data, r, r.data
      ensures Valid() && r.Valid() && Apart(r)
      ensures buff.data == old(buff.data) || fresh(buff.data)
      ensures r.data == old(r.data) || fresh(r.data)
      ensures var all := old(Remaining());
              && r.Text() == old(r.Text()) + Line(all, ts)
              && Remaining() == all[|Line(all, ts)|..]
              && ret == if all == [] then BSTR_ERR else BSTR_OK
    {
      ghost var text, front, rest := r.Text(), buff.Text(), core.rest;
      var rlo := r.slen;
      var found := LineFromBuffer(r, cf, sentinel, ts);
      if found {
        LineInFront(front, rest, ts);
        return BSTR_OK;
      }
      LineFromCore(r, cf, sentinel, ts);
      LineSkipsFree(front, rest, ts);
      Assoc(text, front, Line(rest, ts));
      return if r.slen == rlo then BSTR_ERR else BSTR_OK;
    }

    // bsreadlna
    method Bsreadlna(r: Bstring, terminator: byte) returns (ret: int)
      requires Valid() && r.Valid() && Apart(r)
      requires r.slen + |Remaining()| + maxBuffSz + 1 < MAX_SIZE
      modifies this`isEOF, core, buff, buff.data, r, r.data
      ensures Valid() && r.Valid() && Apart(r)
      ensures buff.data == old(buff.data) || fresh(buff.data)
      ensures r.data == old(r.data) || fresh(r.data)
      ensures var all := old(Remaining());
              && r.Text() == old(r.Text()) + Line(all, [terminator])
              && Remaining() == all[|Line(all, [terminator])|..]
              && ret == if all == [] then BSTR_ERR else BSTR_OK
    {
      var one := new byte[1](_ => terminator);
      var cf := new CharField();
      var built := cf.Build(View(one, 0, 1));
      assert View(one, 0, 1).Text() == [terminator];
      ret := ReadLine(r, cf, terminator, [terminator]);
    }

    // bsreadlnsa
    method Bsreadlnsa(r: Bstring, term: View) returns (ret: int)
      requires Valid() && r.Valid() && Apart(r) && term.Valid()
      requires term.data != r.data && term.data != buff.data
      requires r.slen + |Remaining()| + maxBuffSz + 1 < MAX_SIZE
      modifies this`isEOF, core, buff, buff.data, r, r.data
      ensures Valid() && r.Valid() && Apart(r)
      ensures buff.data == old(buff.data) || fresh(buff.data)
      ensures r.data == old(r.data) || fresh(r.data)
      ensures term.slen == 0 ==> ret == BSTR_ERR && r.Text() == old(r.Text()) && Remaining() == old(Remaining())
      ensures term.slen > 0 ==>
        var all, ts := old(Remaining()), term.Text();
        && r.Text() == old(r.Text()) + Line(all, ts)
        && Remaining() == all[|Line(all, ts)|..]
        && ret == if all == [] then BSTR_ERR else BSTR_OK
    {
      if term.slen == 1 {
        assert term.Text() == [term.At(0)];
        ret := Bsreadlna(r, term.At(0));
        return;
      }
      var cf := new CharField();
      var built := cf.Build(term);
      if term.slen < 1 || built != BSTR_OK {
        return BSTR_ERR;
      }
      ret := ReadLine(r, cf, term.At(0), term.Text());
    }

    // bsreada: up to n bytes, at least one unless nothing is left, and exactly n
    // or all there are unless they can be read straight into r.
    method Bsreada(r: Bstring, n: int) returns (ret: int)
      requires Valid() && r.Valid() && Apart(r)
      requires r.slen + |Remaining()| + 1 < MAX_SIZE
      modifies this`isEOF, core, buff, buff.data, r, r.data
      ensures Valid() && r.Valid() && Apart(r)
      ensures buff.data == old(buff.data) || fresh(buff.data)
      ensures r.data == old(r.data) || fresh(r.data)
      ensures n <= 0 ==> ret == BSTR_ERR && r.Text() == old(r.Text()) && Remaining() == old(Remaining())
      ensures n > 0 ==>
        var all, d := old(Remaining()), r.slen - old(r.slen);
        && 0 <= d <= n && d <= |all| && (d == 0 <==> all == [])
        && (old(buff.slen) > 0 || old(r.mlen) <= n + old(r.slen) ==> d == n || d == |all|)
        && r.Text() == old(r.Text()) + all[..d]
        && Remaining() == all[d..]
        && ret == if all == [] then BSTR_ERR else BSTR_OK
    {
      if n <= 0 {
        return BSTR_ERR;
      }
      if 0 == buff.slen {
        if isEOF {
          return BSTR_ERR;
        }
        if r.mlen > n + r.slen {
          ret := ReadDirect(r, n);
          return;
        }
      }
      ret := ReadThrough(r, n);
    }

    // The buffer is empty and r has room: one read into r itself.
    method ReadDirect(r: Bstring, n: nat) returns (ret: int)
      requires Valid() && r.Valid() && Apart(r) && buff.slen == 0 && 0 < n && n + r.slen < r.mlen
      modifies this`isEOF, core, r`slen, r.data
      ensures Valid() && r.Valid()
      ensures var all, d := old(core.rest), r.slen - old(r.slen);
              && 0 <= d <= n && d <= |all| && (d == 0 <==> all == [])
              && r.Text() == old(r.Text()) + all[..d]
              && Remaining() == all[d..]
              && ret == if all == [] then BSTR_ERR else BSTR_OK
    {
      ghost var text, all := r.Text(), core.rest;
      var l := core.Read(r.data, r.slen, n);
      assert buff.Text() == [];
      if 0 >= l {
        isEOF := true;
        return BSTR_ERR;
      }
      assert r.data[..r.slen + l] == text + all[..l];
      r.SetLength(r.slen + l);
      return BSTR_OK;
    }

    // Reads go through the buffer until n bytes have been delivered or nothing
    // more arrives.
    method ReadThrough(r: Bstring, n: nat) returns (ret: int)
      requires Valid() && r.Valid() && Apart(r) && 0 < n
      requires r.slen + |Remaining()| + 1 < MAX_SIZE
      modifies this`isEOF, core, buff, buff.data, r, r.data
      ensures Valid() && r.Valid() && Apart(r)
      ensures buff.data == old(buff.data) || fresh(buff.data)
      ensures r.data == old(r.data) || fresh(r.data)
      ensures var all := old(Remaining());
              var d := if n <= |all| then n else |all|;
              && r.Text() == old(r.Text()) + all[..d]
              && Remaining() == all[d..]
              && ret == if all == [] then BSTR_ERR else BSTR_OK
    {
      ghost var text, all := r.Text(), Remaining();
      var orslen := r.slen;
      buff.Reserve(maxBuffSz + 1);
      DeliverUpTo(r, n + r.slen, text, all);
      return if r.slen == orslen then BSTR_ERR else BSTR_OK;
    }

    method DeliverUpTo(r: Bstring, end: nat, ghost text: seq<byte>, ghost all: seq<byte>)
      requires Valid() && r.Valid() && Apart(r) && maxBuffSz < buff.mlen && r.slen < end
      requires text == r.Text() && all == Remaining() && |text| + |all| + 1 < MAX_SIZE
      modifies this`isEOF, core, buff, buff.data, r, r.data
      ensures Valid() && r.Valid() && Apart(r)
      ensures buff.data == old(buff.data)
      ensures r.data == old(r.data) || fresh(r.data)
      ensures var d := if end <= |text| + |all| then end - |text| else |all|;
              r.Text() == text + all[..d] && Remaining() == all[d..]
    {
      var more := true;
      while more && buff.slen + r.slen < end
        invariant Valid() && r.Valid() && Apart(r) && maxBuffSz < buff.mlen
        invariant buff.data == old(buff.data)
        invariant r.data == old(r.data) || fresh(r.data)
        invariant Delivering(r, text, all) && r.slen < end
        invariant !more ==> r.slen == |text| + |all|
        decreases more, |core.rest|
      {
        more := PassOnce(r, end, text, all);
      }
      if more {
        DeliverLast(r, end - r.slen, text, all);
      }
      Delivered(r.Text(), Remaining(), text, all);
    }

    // One turn of the loop; false when the core is at its end.
    method PassOnce(r: Bstring, end: nat, ghost text: seq<byte>, ghost all: seq<byte>) returns (more: bool)
      requires Valid() && r.Valid() && Apart(r) && maxBuffSz < buff.mlen && buff.slen + r.slen < end
      requires Delivering(r, text, all) && |text| + |all| + 1 < MAX_SIZE
      modifies this`isEOF, core, buff`slen, buff.data, r, r.data
      ensures Valid() && r.Valid() && Apart(r)
      ensures r.data == old(r.data) || fresh(r.data)
      ensures Delivering(r, text, all) && r.slen < end
      ensures more ==> |core.rest| < |old(core.rest)|
      ensures !more ==> r.slen == |text| + |all|
    {
      var l := PassBuffer(r, end, text, all);
      more := l > 0;
      if !more {
        isEOF := true;
      }
    }

    // Part of all has been appended to text, the rest is still in the stream.
    ghost predicate Delivering(r: Bstring, text: seq<byte>, all: seq<byte>)
      requires Valid() && r.Valid()
      reads this, buff, buff.data, core, r, r.data
    {
      |text| <= r.slen && r.Text() + Remaining() == text + all
    }

    // The whole buffer goes to r and is refilled from the core, with no more than
    // is still wanted. (The source keeps the new length in l until it leaves the loop.)
    method PassBuffer(r: Bstring, end: nat, ghost text: seq<byte>, ghost all: seq<byte>) returns (l: nat)
      requires Valid() && r.Valid() && Apart(r) && maxBuffSz < buff.mlen && buff.slen + r.slen < end
      requires Delivering(r, text, all) && |text| + |all| + 1 < MAX_SIZE
      modifies core, buff`slen, buff.data, r, r.data
      ensures Valid() && r.Valid() && Apart(r)
      ensures r.data == old(r.data) || fresh(r.data)
      ensures l <= |old(core.rest)| && |core.rest| == |old(core.rest)| - l
      ensures Delivering(r, text, all) && r.slen < end && buff.slen == l && r.slen + l <= end
      ensures l == 0 <==> r.slen == |text| + |all|
    {
      ghost var was, front, rest := r.Text(), buff.Text(), core.rest;
      var ret := r.Bconcat(View(buff.data, 0, buff.slen));
      l := end - r.slen;
      if l > maxBuffSz {
        l := maxBuffSz;
      }
      l := core.Read(buff.data, 0, l);
      buff.slen := l;
      assert buff.Text() + core.rest == rest;
      Assoc(was, front, rest);
    }

    method DeliverLast(r: Bstring, n: nat, ghost text: seq<byte>, ghost all: seq<byte>)
      requires Valid() && r.Valid() && Apart(r) && n <= buff.slen
      requires Delivering(r, text, all) && |text| + |all| + 1 < MAX_SIZE
      modifies buff, buff.data, r, r.data
      ensures Valid() && r.Valid() && Apart(r) && Delivering(r, text, all) && r.slen == old(r.slen) + n
      ensures buff.data == old(buff.data) && (r.data == old(r.data) || fresh(r.data))
    {
      ghost var was, front, rest := r.Text(), buff.Text(), core.rest;
      TakeFront(r, n);
      Taken(was, front, rest, n);
    }

    // bsunread: the bytes of b come before everything else.
    method Bsunread(b: View) returns (ret: int)
      requires Valid() && b.Valid() && b.slen + buff.slen + 1 < MAX_SIZE
      modifies buff, buff.data
      ensures Valid() && ret == BSTR_OK
      ensures buff.data == old(buff.data) || fresh(buff.data)
      ensures Remaining() == old(b.Text()) + old(Remaining())
    {
      ghost var x, was := b.Text(), buff.Text();
      ret := buff.Binsert(0, b, '?' as byte);
      InFront(was, x, '?' as byte);
      Assoc(x, was, core.rest);
    }
  }

  lemma Delivered(now: seq<byte>, left: seq<byte>, text: seq<byte>, all: seq<byte>)
    requires |text| <= |now| && now + left == text + all
    ensures var d := |now| - |text|; d <= |all| && now == text + all[..d] && left == all[d..]
  {
    var d := |now| - |text|;
    assert now == (now + left)[..|now|] && left == (now + left)[|now|..];
    assert (text + all)[..|now|] == text + all[..d] && (text + all)[|now|..] == all[d..];
  }

  // The first n bytes of the buffer go over.
  lemma Taken(now: seq<byte>, front: seq<byte>, rest: seq<byte>, n: nat)
    requires n <= |front|
    ensures now + front[..n] + (front[n..] + rest) == now + (front + rest)
  {
  }

  lemma LineInFront(a: seq<byte>, b: seq<byte>, ts: seq<byte>)
    requires var r := Line(a, ts); |r| > 0 && r[|r| - 1] in ts
    ensures Line(a + b, ts) == Line(a, ts)
    ensures (a + b)[|Line(a, ts)|..] == a[|Line(a, ts)|..] + b
  {
    var r := Line(a, ts);
    LineIsFirst(a, ts);
    assert (a + b)[..|r|] == r;
    assert (a + b)[..|r| - 1] == r[..|r| - 1];
    LineEndsAt(a + b, |r| - 1, ts);
  }

  lemma LineIsAll(done: seq<byte>, all: seq<byte>, ts: seq<byte>)
    requires done + [] == all && Free(done, ts)
    ensures Line(all, ts) == done && all[|Line(all, ts)|..] == []
  {
    LineSkipsFree(done, [], ts);
  }

  lemma FreeJoin(a: seq<byte>, b: seq<byte>, ts: seq<byte>)
    requires Free(a, ts) && Free(b[..|b|], ts)
    ensures Free(a + b, ts)
  {
    assert b[..|b|] == b;
  }

  lemma InFront(s: seq<byte>, x: seq<byte>, fill: byte)
    ensures Inserted(s, 0, x, fill) == x + s
  {
  }

  lemma LineSplit(all: seq<byte>, done: seq<byte>, chunk: seq<byte>, rest: seq<byte>, i: nat, ts: seq<byte>)
    requires all == done + (chunk + rest) && Free(done, ts)
    requires i < |chunk| && Free(chunk[..i], ts) && chunk[i] in ts
    ensures Line(all, ts) == done + chunk[..i + 1]
    ensures all[|Line(all, ts)|..] == chunk[i + 1..] + rest
  {
    LineSkipsFree(done, chunk + rest, ts);
    assert (chunk + rest)[..i] == chunk[..i];
    LineEndsAt(chunk + rest, i, ts);
    assert (chunk + rest)[..i + 1] == chunk[..i + 1];
  }
}

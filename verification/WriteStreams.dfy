// The bwriteStream: writes gathered in a buffer on their way to a core stream.
module WriteStreams {
  import opened Bstrings
  import opened Growth
  import opened Memory

  // The core stream: an fwrite work-alike, called for one element. It takes all of
  // the block or fails, and then any first part of it may have gone out.
  class Sink {
    var written: seq<byte>

    constructor ()
      ensures written == []
    {
      written := [];
    }

    method WriteFn(block: View) returns (n: int)
      requires block.Valid()
      modifies this
      ensures n == 1 ==> written == old(written) + block.Text()
      ensures n != 1 ==> old(written) <= written <= old(written) + block.Text()
    {
      var taken: nat :| taken <= block.slen;
      n := if taken == block.slen then 1 else 0;
      written := written + block.Slice(0, taken);
      assert block.Text()[..block.slen] == block.Text();
    }
  }

  class BWriteStream {
    const buff: Bstring
    const core: Sink
    var isEOF: bool
    var minBuffSz: int

    ghost predicate Valid()
      reads this, buff
    {
      buff.Valid() && minBuffSz > 0
    }

    // All that was written to this stream and not refused.
    ghost function Output(): seq<byte>
      requires Valid()
      reads this, core, buff, buff.data
    {
      core.written + buff.Text()
    }

    // bwsOpen
    constructor (core: Sink)
      ensures Valid() && this.core == core && fresh(buff) && fresh(buff.data)
      ensures !isEOF && minBuffSz == 1024 && Output() == core.written
    {
      this.core := core;
      buff := new Bstring.FromBlk([]);
      isEOF, minBuffSz := false, 1024;
    }

    // internal_bwswriteout
    method WriteOut(b: View) returns (ret: int)
      requires b.Valid()
      modifies this`isEOF, core
      ensures ret == BSTR_OK || ret == BSTR_ERR
      ensures ret == BSTR_OK ==> isEOF == old(isEOF) && core.written == old(core.written) + b.Text()
      ensures core.written <= old(core.written) + b.Text()
      ensures ret == BSTR_ERR ==> isEOF
    {
      if b.slen > 0 {
        var n := core.WriteFn(b);
        if n != 1 {
          isEOF := true;
          return BSTR_ERR;
        }
      }
      return BSTR_OK;
    }

    // internal_bwswriteout of the buffer, which is empty then
    method Drain() returns (ret: int)
      requires Valid()
      modifies this`isEOF, core, buff`slen
      ensures Valid() && (ret == BSTR_OK || ret == BSTR_ERR)
      ensures ret == BSTR_OK ==> isEOF == old(isEOF) && buff.slen == 0 && core.written == old(Output())
      ensures core.written <= old(Output())
      ensures ret == BSTR_ERR ==> isEOF
    {
      ret := WriteOut(buff.AsView());
      if ret == BSTR_OK {
        buff.slen := 0;
      }
    }

    // bwsWriteFlush
    method BwsWriteFlush() returns (ret: int)
      requires Valid()
      modifies this`isEOF, core, buff`slen
      ensures Valid() && (ret == BSTR_OK || ret == BSTR_ERR)
      ensures old(isEOF) ==> ret == BSTR_ERR && core.written == old(core.written) && buff.slen == old(buff.slen)
      ensures ret == BSTR_OK ==> !isEOF && buff.slen == 0 && core.written == old(Output())
      ensures core.written <= old(Output())
      ensures ret == BSTR_ERR ==> isEOF
    {
      if isEOF {
        return BSTR_ERR;
      }
      ret := Drain();
    }

    // bwsBuffLength
    method BwsBuffLength(sz: int) returns (oldSz: int)
      requires Valid()
      modifies this`minBuffSz
      ensures Valid() && minBuffSz == (if sz > 0 then sz else old(minBuffSz))
      ensures oldSz == if sz < 0 then BSTR_ERR else old(minBuffSz)
    {
      if sz < 0 {
        return BSTR_ERR;
      }
      oldSz := minBuffSz;
      if sz > 0 {
        minBuffSz := sz;
      }
    }

    // bwsWriteBstr. What succeeds is kept in order, and leaves less than a
    // buffer's worth pending, even when the buffer was packed over its size or its
    // size was changed in between.
    method BwsWriteBstr(b: View) returns (ret: int)
      requires Valid() && b.Valid() && b.data != buff.data
      requires buff.slen + b.slen + 1 < MAX_SIZE
      modifies this`isEOF, core, buff, buff.data
      ensures Valid() && (buff.data == old(buff.data) || fresh(buff.data))
      ensures ret == BSTR_OK || ret == BSTR_ERR
      ensures old(isEOF) ==> ret == BSTR_ERR && Output() == old(Output())
      ensures ret == BSTR_OK ==> !isEOF && buff.slen < minBuffSz && Output() == old(Output()) + old(b.Text())
      ensures ret == BSTR_OK ==> buff.slen <= old(buff.slen) + b.slen
      ensures core.written <= old(Output()) + old(b.Text())
      ensures ret == BSTR_ERR ==> isEOF
      decreases b.slen
    {
      if isEOF {
        return BSTR_ERR;
      }
      ghost var out, text := Output(), b.Text();
      if b.slen > 0 && buff.mlen - buff.slen > b.slen {
        Assoc(core.written, buff.Text(), text);
        ret := buff.Bconcat(b);
        var empty := new byte[0];
        ret := BwsWriteBstr(View(empty, 0, 0));
        return;
      }
      ret := DrainOverfull();
      if ret == BSTR_ERR {
        return;
      }
      var l := minBuffSz - buff.slen;
      if b.slen < l {
        Assoc(core.written, buff.Text(), text);
        ret := buff.Bconcat(b);
        return;
      }
      ret := FillAndPass(b, l);
    }

    method DrainOverfull() returns (ret: int)
      requires Valid() && !isEOF
      modifies this`isEOF, core, buff`slen
      ensures Valid() && (ret == BSTR_OK || ret == BSTR_ERR)
      ensures ret == BSTR_OK ==>
        !isEOF && buff.slen <= minBuffSz && buff.slen <= old(buff.slen) && Output() == old(Output())
      ensures core.written <= old(Output())
      ensures ret == BSTR_ERR ==> isEOF
    {
      ret := BSTR_OK;
      if minBuffSz - buff.slen < 0 {
        ret := Drain();
        assert core.written + [] == core.written;
      }
    }

    // The rest of bwsWriteBstr when b fills the buffer up: l bytes of it complete
    // a buffer, and what is left is passed on or becomes pending.
    method FillAndPass(b: View, l: nat) returns (ret: int)
      requires Valid() && b.Valid() && b.data != buff.data && !isEOF
      requires l <= b.slen && buff.slen + l == minBuffSz && buff.slen + b.slen + 1 < MAX_SIZE
      modifies this`isEOF, core, buff, buff.data
      ensures Valid() && (buff.data == old(buff.data) || fresh(buff.data))
      ensures ret == BSTR_OK || ret == BSTR_ERR
      ensures ret == BSTR_OK ==> !isEOF && buff.slen < minBuffSz && Output() == old(Output()) + old(b.Text())
      ensures ret == BSTR_OK ==> buff.slen <= old(buff.slen) + b.slen
      ensures core.written <= old(Output()) + old(b.Text())
      ensures ret == BSTR_ERR ==> isEOF
    {
      ghost var text := b.Text();
      SuffixOfView(b, l);
      Halves(core.written, buff.Text(), text, l);
      ret := FillUp(View(b.data, b.ofs, l));
      if ret == BSTR_ERR {
        return;
      }
      var t := View(b.data, b.ofs + l, b.slen - l);
      SuffixOfView(b, l);
      ret := PassOn(t);
    }

    // Completes the buffer and writes it out.
    method FillUp(b: View) returns (ret: int)
      requires Valid() && b.Valid() && b.data != buff.data && !isEOF && buff.slen + b.slen + 1 < MAX_SIZE
      modifies this`isEOF, core, buff, buff.data
      ensures Valid() && (buff.data == old(buff.data) || fresh(buff.data))
      ensures ret == BSTR_OK || ret == BSTR_ERR
      ensures ret == BSTR_OK ==>
        !isEOF && buff.slen == 0 && core.written == old(core.written + (buff.Text() + b.Text()))
      ensures core.written <= old(core.written + (buff.Text() + b.Text()))
      ensures ret == BSTR_ERR ==> isEOF
    {
      ret := buff.Bconcat(b);
      ret := Drain();
    }

    method PassOn(t: View) returns (ret: int)
      requires Valid() && t.Valid() && t.data != buff.data && !isEOF && buff.slen == 0 && t.slen + 1 < MAX_SIZE
      modifies this`isEOF, core, buff, buff.data
      ensures Valid() && (buff.data == old(buff.data) || fresh(buff.data))
      ensures ret == BSTR_OK || ret == BSTR_ERR
      ensures ret == BSTR_OK ==> !isEOF && buff.slen < minBuffSz && buff.slen <= t.slen
      ensures ret == BSTR_OK ==> Output() == old(core.written) + old(t.Text())
      ensures core.written <= old(core.written) + old(t.Text())
      ensures ret == BSTR_ERR ==> isEOF
    {
      if t.slen >= minBuffSz {
        ret := WriteOut(t);
        assert core.written + [] == core.written;
        return;
      }
      ret := buff.Bassign(t);
    }
  }

  lemma SuffixOfView(b: View, l: nat)
    requires b.Valid() && l <= b.slen
    ensures b.data[b.ofs..b.ofs + l] == b.Text()[..l]
    ensures b.data[b.ofs + l..b.ofs + l + (b.slen - l)] == b.Text()[l..]
  {
    SliceOfSlice(b.data[..], b.ofs, b.slen, l, b.slen);
    SliceOfSlice(b.data[..], b.ofs, b.slen, 0, l);
  }

  lemma Halves(w: seq<byte>, p: seq<byte>, text: seq<byte>, l: nat)
    requires l <= |text|
    ensures w + (p + text[..l]) + text[l..] == w + p + text
    ensures w + (p + text[..l]) <= w + p + text
  {
  }

  // ---------- runs ----------

  datatype Call = Write(text: seq<byte>) | Flush | Resize(sz: int)

  function AllWritten(calls: seq<Call>): seq<byte>
  {
    if |calls| == 0 then []
    else
      var last := calls[|calls| - 1];
      AllWritten(calls[..|calls| - 1]) + (if last.Write? then last.text else [])
  }

  // Any sequence of calls up to the first that fails: the core stream and the
  // buffer hold together what was written, each byte once and in order. A flush at
  // the end puts all of it into the core stream. Even when a call fails, the core
  // stream has a first part of what was written and nothing else.
  method RunCalls(ws: BWriteStream, calls: seq<Call>) returns (done: nat, failed: bool)
    requires ws.Valid() && !ws.isEOF && ws.buff.slen + |AllWritten(calls)| + 2 < MAX_SIZE
    modifies ws, ws.core, ws.buff, ws.buff.data
    ensures ws.Valid() && done <= |calls| && (failed <==> done < |calls|) && failed == ws.isEOF
    ensures !failed ==> ws.Output() == old(ws.Output()) + AllWritten(calls)
    ensures ws.core.written <= old(ws.Output()) + AllWritten(calls)
    ensures !failed && |calls| > 0 && calls[|calls| - 1].Flush? ==>
      ws.core.written == old(ws.Output()) + AllWritten(calls)
    ensures !failed && |calls| > 0 && calls[|calls| - 1].Write? ==> ws.buff.slen < ws.minBuffSz
  {
    ghost var start := ws.Output();
    done, failed := 0, false;
    assert start + [] == start;
    while done < |calls| && !failed
      invariant 0 <= done <= |calls| && ws.Valid() && failed == ws.isEOF
      invariant failed ==> done < |calls|
      invariant ws.buff.data == old(ws.buff.data) || fresh(ws.buff.data)
      invariant !failed ==> ws.buff.slen <= old(ws.buff.slen) + |AllWritten(calls[..done])|
      invariant !failed ==> ws.Output() == start + AllWritten(calls[..done])
      invariant ws.core.written <= start + AllWritten(calls)
      invariant !failed && done > 0 && calls[done - 1].Flush? ==> ws.buff.slen == 0
      invariant !failed && done > 0 && calls[done - 1].Write? ==> ws.buff.slen < ws.minBuffSz
      decreases !failed, |calls| - done
    {
      WrittenGrows(calls, done);
      ghost var was := ws.Output();
      failed := MakeCall(ws, calls[done]);
      if !failed {
        done := done + 1;
      }
    }
    assert calls[..|calls|] == calls;
  }

  lemma {:induction false} WrittenGrows(calls: seq<Call>, k: nat)
    requires k < |calls|
    ensures AllWritten(calls[..k + 1]) == AllWritten(calls[..k]) + (if calls[k].Write? then calls[k].text else [])
    ensures AllWritten(calls[..k + 1]) <= AllWritten(calls)
    decreases |calls|
  {
    assert calls[..k + 1][..k] == calls[..k];
    if k + 1 == |calls| {
      assert calls[..k + 1] == calls;
    } else {
      WrittenGrows(calls[..|calls| - 1], k);
      assert calls[..|calls| - 1][..k + 1] == calls[..k + 1];
    }
  }

  method MakeCall(ws: BWriteStream, call: Call) returns (failed: bool)
    requires ws.Valid() && !ws.isEOF && (call.Write? ==> ws.buff.slen + |call.text| + 2 < MAX_SIZE)
    modifies ws, ws.core, ws.buff, ws.buff.data
    ensures ws.Valid() && failed == ws.isEOF
    ensures ws.buff.data == old(ws.buff.data) || fresh(ws.buff.data)
    ensures ws.core.written <= old(ws.Output()) + (if call.Write? then call.text else [])
    ensures !failed ==> ws.Output() == old(ws.Output()) + (if call.Write? then call.text else [])
    ensures !failed ==> ws.buff.slen <= old(ws.buff.slen) + (if call.Write? then |call.text| else 0)
    ensures !failed && call.Flush? ==> ws.buff.slen == 0
    ensures !failed && call.Write? ==> ws.buff.slen < ws.minBuffSz
  {
    ghost var was := ws.Output();
    assert was + [] == was;
    var ret := BSTR_OK;
    if call.Write? {
      var arg := new Bstring.FromBlk(call.text);
      ret := ws.BwsWriteBstr(arg.AsView());
    } else if call.Flush? {
      ret := ws.BwsWriteFlush();
      assert ws.core.written + [] == ws.core.written;
    } else {
      var oldSz := ws.BwsBuffLength(call.sz);
    }
    failed := ret != BSTR_OK;
  }
}

// The bstring header with its growable block, balloc, and the editing
// functions that accept an argument aliasing the string being edited.
module Bstrings {
  import opened Growth
  import opened Memory

  // What each edit means for the text. All of them first extend a text that is
  // too short to reach pos.
  function Padded(s: seq<byte>, pos: nat, fill: byte): seq<byte>
  {
    if |s| < pos then s + Repeat(fill, pos - |s|) else s
  }

  function Overwritten(s: seq<byte>, pos: nat, x: seq<byte>, fill: byte): seq<byte>
  {
    var p := Padded(s, pos, fill);
    p[..pos] + x + if pos + |x| <= |p| then p[pos + |x|..] else []
  }

  function Inserted(s: seq<byte>, pos: nat, x: seq<byte>, fill: byte): seq<byte>
  {
    var p := Padded(s, pos, fill);
    p[..pos] + x + p[pos..]
  }

  function Replaced(s: seq<byte>, pos: nat, len: nat, x: seq<byte>, fill: byte): seq<byte>
  {
    var p := Padded(s, pos, fill);
    p[..pos] + x + if pos + len <= |p| then p[pos + len..] else []
  }

  function Deleted(s: seq<byte>, pos: nat, len: nat): seq<byte>
  {
    if pos >= |s| then s
    else s[..pos] + if pos + len <= |s| then s[pos + len..] else []
  }

  // The same, character by character: the new text where it was put, the old one
  // around it, and the fill character between them.
  lemma OverwrittenAt(s: seq<byte>, pos: nat, x: seq<byte>, fill: byte, k: nat)
    ensures |Overwritten(s, pos, x, fill)| == if |s| > pos + |x| then |s| else pos + |x|
    ensures k < |Overwritten(s, pos, x, fill)| ==>
      Overwritten(s, pos, x, fill)[k] == if pos <= k < pos + |x| then x[k - pos] else if k < |s| then s[k] else fill
  {
  }

  lemma InsertedAt(s: seq<byte>, pos: nat, x: seq<byte>, fill: byte, k: nat)
    ensures |Inserted(s, pos, x, fill)| == |x| + if |s| > pos then |s| else pos
    ensures k < |Inserted(s, pos, x, fill)| ==>
      Inserted(s, pos, x, fill)[k] ==
      (if pos <= k < pos + |x| then x[k - pos]
       else if k >= pos then s[k - |x|]
       else if k < |s| then s[k] else fill)
  {
  }

  lemma ReplacedAt(s: seq<byte>, pos: nat, len: nat, x: seq<byte>, fill: byte, k: nat)
    ensures |Replaced(s, pos, len, x, fill)| == pos + |x| + if |s| > pos + len then |s| - pos - len else 0
    ensures k < |Replaced(s, pos, len, x, fill)| ==>
      Replaced(s, pos, len, x, fill)[k] ==
      (if pos <= k < pos + |x| then x[k - pos]
       else if k >= pos then s[k - |x| + len]
       else if k < |s| then s[k] else fill)
  {
  }

  lemma DeletedAt(s: seq<byte>, pos: nat, len: nat, k: nat)
    ensures |Deleted(s, pos, len)| ==
      if pos >= |s| then |s| else if pos + len >= |s| then pos else |s| - len
    ensures k < |Deleted(s, pos, len)| ==> Deleted(s, pos, len)[k] == if k < pos then s[k] else s[k + len]
  {
  }

  // What bsetstr leaves, cut after the new text, is what breplace promises when
  // the replaced range reaches the end.
  lemma OverwrittenCut(s: seq<byte>, pos: nat, len: nat, x: seq<byte>, fill: byte)
    requires pos + len >= |s|
    ensures pos + |x| <= |Overwritten(s, pos, x, fill)|
    ensures Overwritten(s, pos, x, fill)[..pos + |x|] == Replaced(s, pos, len, x, fill)
  {
  }

  lemma PrefixSlice(block: seq<byte>, p: seq<byte>, i: nat, j: nat)
    requires |p| <= |block| && block[..|p|] == p && i <= j <= |p|
    ensures block[i..j] == p[i..j]
  {
    forall k | i <= k < j ensures block[k] == p[k] {
      assert block[..|p|][k] == block[k];
    }
  }

  lemma SplicedParts(block: seq<byte>, after: seq<byte>, pos: nat, x: seq<byte>, m: nat)
    requires pos + |x| <= m <= |block| && after == Spliced(block, pos, x)
    ensures after[..m] == block[..pos] + x + block[pos + |x|..m]
    ensures after[pos + |x|..] == block[pos + |x|..]
  {
  }

  lemma SplicedBlock(a: array<byte>, block: seq<byte>, pos: nat, x: seq<byte>, m: nat)
    requires pos + |x| <= m <= |block| && a[..] == Spliced(block, pos, x)
    ensures a[..m] == block[..pos] + x + block[pos + |x|..m]
    ensures a[pos + |x|..] == block[pos + |x|..]
  {
    SplicedParts(block, a[..], pos, x, m);
  }

  lemma ResizedWithin(m: nat, m2: nat, n: nat, n2: nat)
    requires Resized(m, m2, n) && n <= n2
    ensures Resized(m, m2, n2)
  {
  }

  class Bstring {
    var data: array<byte>
    var mlen: nat
    var slen: nat

    // There is always room for the terminating NUL behind the text.
    ghost predicate Valid()
      reads this
    {
      slen < mlen == data.Length
    }

    ghost function Text(): seq<byte>
      requires Valid()
      reads this, data
    {
      data[..slen]
    }

    ghost predicate Terminated()
      requires Valid()
      reads this, data
    {
      data[slen] == 0
    }

    // blk2bstr, bfromcstr and bmidstr: a fresh string with the given text.
    constructor FromBlk(x: seq<byte>)
      requires |x| + 2 < MAX_SIZE
      ensures Valid() && Terminated() && fresh(data)
      ensures Text() == x
      ensures mlen == Snapped(if |x| == 0 then 2 else |x| + 1)
    {
      var size := SnapUpSize(|x| + (2 - if |x| != 0 then 1 else 0));
      SnappedBounds(|x| + (2 - if |x| != 0 then 1 else 0));
      data := new byte[size](i requires 0 <= i => if i < |x| then x[i] else 0);
      mlen, slen := size, |x|;
    }

    // A block of exactly size bytes for a text of size - 1, as bjoin allocates it.
    constructor Sized(size: nat)
      requires size > 0
      ensures Valid() && fresh(data) && mlen == size && slen == size - 1
    {
      data := new byte[size];
      mlen, slen := size, size - 1;
    }

    // bstrcpy
    constructor Copy(v: View)
      requires v.Valid() && v.slen + 1 < MAX_SIZE
      ensures Valid() && Terminated() && fresh(data)
      ensures Text() == v.Text()
    {
      var size := SnapUpSize(v.slen + 1);
      SnappedBounds(v.slen + 1);
      var block := new byte[size];
      mlen, slen, data := size, v.slen, block;
      new;
      Memcpy(data, 0, v.data, v.ofs, v.slen);
      data[slen] := 0;
    }

    // The closing lines of every edit: set the length and put the NUL.
    method SetLength(n: nat)
      requires Valid() && n < mlen
      modifies this`slen, data
      ensures Valid() && Terminated() && slen == n
      ensures Text() == old(data[..n])
    {
      slen := n;
      data[n] := 0;
    }

    // memset from the end of the text up to pos
    method Pad(pos: nat, fill: byte)
      requires Valid() && slen <= pos <= mlen
      modifies data
      ensures data[..pos] == Padded(old(Text()), pos, fill)
    {
      Memset(data, slen, fill, pos - slen);
    }

    // memmove of bytes k to n of the block to position l
    method MoveTail(n: nat, k: nat, l: nat, ghost kept: nat)
      requires Valid() && k <= n <= mlen && l + n - k <= mlen && kept <= k && kept <= l
      modifies data
      ensures data[l..l + n - k] == old(data[k..n])
      ensures data[..kept] == old(data[..kept])
      ensures l <= k ==> data[n..] == old(data[n..])
      ensures k <= l ==> data[l + n - k..] == old(data[l + n - k..])
    {
      Memmove(data, l, data, k, n - k);
    }

    // memmove of a view to position pos; m is how much of the block matters
    method Fill(pos: nat, v: View, m: nat)
      requires Valid() && v.Valid() && pos + v.slen <= m <= mlen
      modifies data
      ensures data[..m] == old(data[..pos]) + old(v.Text()) + old(data[pos + v.slen..m])
    {
      ghost var block, x := data[..], v.Text();
      Memmove(data, pos, v.data, v.ofs, v.slen);
      SplicedParts(block, data[..], pos, x, m);
    }

    // memcpy of a view to position pos; it lies in another block or before pos
    method FillCopy(pos: nat, v: View, m: nat)
      requires Valid() && v.Valid() && pos + v.slen <= m <= mlen
      requires v.slen == 0 || v.data != data || v.ofs + v.slen <= pos
      modifies data
      ensures data[..m] == old(data[..pos]) + old(v.Text()) + old(data[pos + v.slen..m])
      ensures data[pos + v.slen..] == old(data[pos + v.slen..])
    {
      ghost var block, x := data[..], v.Text();
      Memcpy(data, pos, v.data, v.ofs, v.slen);
      SplicedBlock(data, block, pos, x, m);
    }

    // The rest of bsetstr once there is room: fill up to pos, then copy v over
    // what is there. v must not alias.
    method PutOver(pos: nat, v: View, fill: byte)
      requires Valid() && v.Valid() && pos + v.slen < mlen
      requires v.slen == 0 || v.data != data
      modifies this`slen, data
      ensures Valid() && Terminated()
      ensures Text() == Overwritten(old(Text()), pos, old(v.Text()), fill)
    {
      ghost var p := Padded(Text(), pos, fill);
      var d, newlen := pos + v.slen, slen;
      if pos > newlen {
        Pad(pos, fill);
        newlen := pos;
      }
      PrefixSlice(data[..], p, 0, pos);
      if d > newlen {
        newlen := d;
      } else {
        PrefixSlice(data[..], p, d, newlen);
      }
      Fill(pos, v, newlen);
      SetLength(newlen);
    }

    // The moves of binsert and breplace once there is room: the text from k on
    // goes behind the place of v, then v is copied in. v must not alias.
    method PutBetween(pos: nat, k: nat, v: View)
      requires Valid() && v.Valid() && pos <= k <= slen && pos + v.slen + slen - k < mlen
      requires v.slen == 0 || v.data != data
      modifies this`slen, data
      ensures Valid() && Terminated()
      ensures Text() == old(Text()[..pos] + v.Text() + Text()[k..])
    {
      var newlen := pos + v.slen + slen - k;
      OpenBetween(pos, k, pos + v.slen);
      FillCopy(pos, v, newlen);
      SetLength(newlen);
    }

    // The text from k on moves to l; what is before pos stays.
    method OpenBetween(pos: nat, k: nat, l: nat)
      requires Valid() && pos <= k <= slen && pos <= l && l + slen - k < mlen
      modifies data
      ensures data[..pos] == old(Text()[..pos]) && data[l..l + slen - k] == old(Text()[k..])
    {
      PrefixSlice(data[..], Text(), 0, pos);
      PrefixSlice(data[..], Text(), k, slen);
      if l != k {
        MoveTail(slen, k, l, pos);
      }
    }

    // The whole string as a read-only argument.
    function AsView(): (v: View)
      requires Valid()
      reads this
      ensures v.Valid() && v.data == data && v.ofs == 0 && v.slen == slen
    {
      View(data, 0, slen)
    }

    // balloc. When the block moves, the old one is released: nothing is said
    // about what it holds afterwards.
    method Balloc(olen: int) returns (ret: int)
      requires Valid() && olen < MAX_SIZE
      modifies this, data
      ensures Valid() && slen == old(slen) && Text() == old(Text())
      ensures ret == if olen <= 0 then BSTR_ERR else BSTR_OK
      ensures olen < mlen
      ensures mlen == if olen >= old(mlen) then Snapped(olen) else old(mlen)
      ensures olen < old(mlen) ==> data == old(data) && data[..] == old(data[..])
      ensures olen >= old(mlen) ==> fresh(data) && Terminated()
    {
      if olen <= 0 {
        return BSTR_ERR;
      }
      if olen >= mlen {
        var len := SnapUpSize(olen);
        SnappedBounds(olen);
        if len <= mlen {
          return BSTR_OK;
        }
        var x := new byte[len];
        Memcpy(x, 0, data, 0, slen);
        data := x;
        mlen := len;
        data[slen] := 0;
      }
      return BSTR_OK;
    }

    // A call of balloc with a positive size, as its callers see it.
    method Reserve(olen: nat)
      requires Valid() && 0 < olen < MAX_SIZE
      modifies this, data
      ensures Valid() && olen < mlen && slen == old(slen) && Text() == old(Text())
      ensures data == old(data) || fresh(data)
      ensures data == old(data) <==> olen < old(mlen)
      ensures mlen == old(mlen) <==> olen < old(mlen)
      ensures data == old(data) ==> data[..] == old(data[..])
      ensures Resized(old(mlen), mlen, olen - 1)
    {
      var ret := Balloc(olen);
    }

    // True if v points into this string's block: the source's 0 <= pd < mlen test
    // on the difference of the two data pointers.
    predicate PointsInside(v: View)
      reads this
    {
      v.data == data && v.ofs < mlen
    }

    // The copy an edit takes of an argument that points into its own first
    // limit bytes; any other argument is used as it is.
    method Unaliased(v: View, limit: nat) returns (aux: View)
      requires Valid() && v.Valid() && v.slen + 1 < MAX_SIZE
      requires v.data == data && limit <= v.ofs ==> v.slen == 0
      ensures aux.Valid() && aux.slen == v.slen && aux.Text() == v.Text()
      ensures aux.slen == 0 || aux.data != data
      ensures aux.data == v.data || fresh(aux.data)
    {
      aux := v;
      if v.data == data && v.ofs < limit {
        var copy := new Bstring.Copy(v);
        aux := copy.AsView();
      }
    }

    // bconcat
    method Bconcat(b1: View) returns (ret: int)
      requires Valid() && b1.Valid() && slen + b1.slen + 1 < MAX_SIZE
      modifies this, data
      ensures ret == BSTR_OK && Valid() && Terminated()
      ensures Text() == old(Text()) + old(b1.Text())
      ensures data == old(data) || fresh(data)
      ensures Resized(old(mlen), mlen, slen)
      ensures mlen == old(mlen) <==> data == old(data)
    {
      var d, len := slen, b1.slen;
      var aux := b1;
      if mlen <= d + len + 1 {
        if PointsInside(b1) {
          var copy := new Bstring.Copy(b1);
          aux := copy.AsView();
        }
        ret := Balloc(d + len + 1);
      }
      Memmove(data, d, aux.data, aux.ofs, len);
      data[d + len] := 0;
      slen := d + len;
      return BSTR_OK;
    }

    // bconchar
    method Bconchar(c: byte) returns (ret: int)
      requires Valid() && slen + 2 < MAX_SIZE
      modifies this, data
      ensures ret == BSTR_OK && Valid() && Terminated()
      ensures Text() == old(Text()) + [c]
      ensures data == old(data) || fresh(data)
      ensures Resized(old(mlen), mlen, slen)
    {
      var d := slen;
      ret := Balloc(d + 2);
      data[d] := c;
      data[d + 1] := 0;
      slen := slen + 1;
    }

    // bsetstr; a NULL argument behaves as an empty view.
    method Bsetstr(pos: int, b1: View, fill: byte) returns (ret: int)
      requires Valid() && b1.Valid() && pos + b1.slen + 1 < MAX_SIZE && b1.slen + 1 < MAX_SIZE
      modifies this, data
      ensures Valid()
      ensures pos < 0 ==> ret == BSTR_ERR && Text() == old(Text()) && mlen == old(mlen)
      ensures pos >= 0 ==> ret == BSTR_OK && Terminated()
      ensures pos >= 0 ==> Text() == Overwritten(old(Text()), pos, old(b1.Text()), fill)
      ensures data == old(data) || fresh(data)
      ensures data == old(data) <==> mlen == old(mlen)
      ensures pos >= 0 ==> Resized(old(mlen), mlen, pos + b1.slen)
    {
      if pos < 0 {
        return BSTR_ERR;
      }
      var aux := Unaliased(b1, mlen);
      Reserve(pos + aux.slen + 1);
      PutOver(pos, aux, fill);
      return BSTR_OK;
    }

    // binsert
    method Binsert(pos: int, b2: View, fill: byte) returns (ret: int)
      requires Valid() && b2.Valid()
      requires pos + b2.slen + 1 < MAX_SIZE && slen + b2.slen + 1 < MAX_SIZE
      modifies this, data
      ensures Valid()
      ensures pos < 0 ==> ret == BSTR_ERR && Text() == old(Text()) && mlen == old(mlen)
      ensures pos >= 0 ==> ret == BSTR_OK && Terminated()
      ensures pos >= 0 ==> Text() == Inserted(old(Text()), pos, old(b2.Text()), fill)
      ensures data == old(data) || fresh(data)
      ensures data == old(data) <==> mlen == old(mlen)
      ensures Resized(old(mlen), mlen, slen)
    {
      if pos < 0 {
        return BSTR_ERR;
      }
      var aux := Unaliased(b2, mlen);
      var d, l := slen + aux.slen, pos + aux.slen;
      if l > d {
        Reserve(l + 1);
        PutOver(pos, aux, fill);
      } else {
        Reserve(d + 1);
        PutBetween(pos, pos, aux);
      }
      return BSTR_OK;
    }

    // breplace. A view of this string may reach past its text, but must not start
    // there.
    method Breplace(pos: int, len: int, b2: View, fill: byte) returns (ret: int)
      requires Valid() && b2.Valid()
      requires b2.data == data && b2.slen > 0 ==> b2.ofs < slen || pos + len >= slen
      requires b2.slen + 1 < MAX_SIZE && pos + b2.slen + 1 < MAX_SIZE && slen + b2.slen - len < MAX_SIZE
      modifies this, data
      ensures Valid()
      ensures pos < 0 || len < 0 ==> ret == BSTR_ERR && Text() == old(Text()) && mlen == old(mlen)
      ensures pos >= 0 && len >= 0 ==> ret == BSTR_OK && Terminated()
      ensures pos >= 0 && len >= 0 ==> Text() == Replaced(old(Text()), pos, len, old(b2.Text()), fill)
      ensures data == old(data) || fresh(data)
      ensures data == old(data) <==> mlen == old(mlen)
      ensures Resized(old(mlen), mlen, slen)
    {
      if pos < 0 || len < 0 {
        return BSTR_ERR;
      }
      ghost var was := Text();
      var pl := pos + len;
      if pl >= slen {
        OverwrittenCut(was, pos, len, b2.Text(), fill);
        ret := Bsetstr(pos, b2, fill);
        if pos + b2.slen < slen {
          SetLength(pos + b2.slen);
        }
        return;
      }
      ret := ReplaceInside(pos, len, b2);
    }

    // breplace when the replaced range ends before the text does
    method ReplaceInside(pos: nat, len: nat, b2: View) returns (ret: int)
      requires Valid() && b2.Valid() && pos + len < slen && b2.slen + 1 < MAX_SIZE && slen + b2.slen - len < MAX_SIZE
      requires b2.data == data && b2.slen > 0 ==> b2.ofs < slen
      modifies this, data
      ensures ret == BSTR_OK && Valid() && Terminated()
      ensures Text() == old(Text()[..pos] + b2.Text() + Text()[pos + len..])
      ensures data == old(data) || fresh(data)
      ensures data == old(data) <==> mlen == old(mlen)
      ensures Resized(old(mlen), mlen, slen)
    {
      var aux := Unaliased(b2, slen);
      if aux.slen > len {
        Reserve(slen + aux.slen - len);
      }
      PutBetween(pos, pos + len, aux);
      return BSTR_OK;
    }

    // bdelete
    method Bdelete(pos0: int, len0: int) returns (ret: int)
      requires Valid()
      modifies this, data
      ensures Valid() && data == old(data) && mlen == old(mlen)
      ensures var pos, len := if pos0 < 0 then 0 else pos0, if pos0 < 0 then len0 + pos0 else len0;
              if len < 0 then ret == BSTR_ERR && Text() == old(Text())
              else ret == BSTR_OK && Text() == Deleted(old(Text()), pos, len)
      ensures old(Terminated()) ==> Terminated()
    {
      var pos, len := pos0, len0;
      if pos < 0 {
        len := len + pos;
        pos := 0;
      }
      if len < 0 {
        return BSTR_ERR;
      }
      if len > 0 && pos < slen {
        if pos + len >= slen {
          SetLength(pos);
        } else {
          CloseGap(pos, len);
        }
      }
      return BSTR_OK;
    }

    // The move of bdelete when text remains behind the gap.
    method CloseGap(pos: nat, len: nat)
      requires Valid() && pos + len < slen
      modifies this`slen, data
      ensures Valid() && Terminated() && Text() == old(Text()[..pos] + Text()[pos + len..])
    {
      PrefixSlice(data[..], Text(), 0, pos);
      PrefixSlice(data[..], Text(), pos + len, slen);
      MoveTail(slen, pos + len, pos, pos);
      SliceInTwo(data[..], 0, pos, slen - len);
      SetLength(slen - len);
    }

    // bassign
    method Bassign(b: View) returns (ret: int)
      requires Valid() && b.Valid() && b.slen < MAX_SIZE
      requires b.data == data ==> b.slen < mlen
      modifies this, data
      ensures ret == BSTR_OK && Valid() && Terminated()
      ensures Text() == old(b.Text())
      ensures data == old(data) || fresh(data)
      ensures data == old(data) <==> mlen == old(mlen)
      ensures Resized(old(mlen), mlen, slen)
    {
      if b.slen != 0 {
        ret := Balloc(b.slen);
        Memmove(data, 0, b.data, b.ofs, b.slen);
      }
      data[b.slen] := 0;
      slen := b.slen;
      return BSTR_OK;
    }
  }

  // A few bconchar calls in a row.
  method Put(out: Bstring, x: seq<byte>)
    requires out.Valid() && out.slen + |x| + 1 < MAX_SIZE
    modifies out, out.data
    ensures out.Valid() && out.Text() == old(out.Text()) + x
    ensures out.data == old(out.data) || fresh(out.data)
    ensures old(out.Terminated()) ==> out.Terminated()
  {
    var k := 0;
    while k < |x|
      invariant 0 <= k <= |x| && out.Valid()
      invariant out.Text() == old(out.Text()) + x[..k]
      invariant out.data == old(out.data) || fresh(out.data)
      invariant old(out.Terminated()) ==> out.Terminated()
    {
      var ret := out.Bconchar(x[k]);
      k := k + 1;
    }
  }
}

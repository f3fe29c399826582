// The charField bit set: 256 bits in 32 bytes, one for each character.
module CharFields {
  import opened Memory

  const CFCLEN := 32

  // testInCharField
  predicate InField(content: seq<byte>, c: byte)
    requires |content| == CFCLEN
  {
    content[(c >> 3) as int] & (1 << (c & 7)) != 0
  }

  // setInCharField touches the bit of its own character and no other.
  lemma SetOneBit(content: seq<byte>, c: byte, d: byte)
    requires |content| == CFCLEN
    ensures var k := (c >> 3) as int;
            InField(content[k := content[k] | (1 << (c & 7))], d) <==> d == c || InField(content, d)
  {
    if c >> 3 == d >> 3 {
      OrBit(content[(c >> 3) as int], c, d);
    } else {
      OtherByte(c, d);
    }
  }

  method SetBit(content: array<byte>, c: byte)
    requires content.Length == CFCLEN
    modifies content
    ensures forall d: byte :: InField(content[..], d) <==> d == c || old(InField(content[..], d))
  {
    ghost var was := content[..];
    content[(c >> 3) as int] := content[(c >> 3) as int] | (1 << (c & 7));
    assert content[..] == was[(c >> 3) as int := was[(c >> 3) as int] | (1 << (c & 7))];
    forall d: byte ensures InField(content[..], d) <==> d == c || InField(was, d) {
      SetOneBit(was, c, d);
    }
  }

  lemma OneMore(s: seq<byte>, i: nat)
    requires i < |s|
    ensures s[..i + 1] == s[..i] + [s[i]]
  {
  }

  lemma OtherByte(c: byte, d: byte)
    requires c >> 3 != d >> 3
    ensures (c >> 3) as int != (d >> 3) as int && c != d
  {
  }

  lemma OrBit(b: byte, c: byte, d: byte)
    requires c >> 3 == d >> 3
    ensures (b | (1 << (c & 7))) & (1 << (d & 7)) != 0 <==> d == c || b & (1 << (d & 7)) != 0
  {
  }

  class CharField {
    var content: array<byte>

    ghost predicate Valid()
      reads this
    {
      content.Length == CFCLEN
    }

    constructor ()
      ensures Valid() && fresh(content)
    {
      content := new byte[CFCLEN];
    }

    predicate Has(c: byte)
      requires Valid()
      reads this, content
    {
      InField(content[..], c)
    }

    // buildCharField: the field holds exactly the characters of b.
    method Build(b: View) returns (ret: int)
      requires Valid() && b.Valid() && b.data != content
      modifies content
      ensures ret == if b.slen == 0 then BSTR_ERR else BSTR_OK
      ensures b.slen > 0 ==> forall c: byte :: Has(c) <==> c in b.Text()
    {
      if b.slen <= 0 {
        return BSTR_ERR;
      }
      Memset(content, 0, 0, CFCLEN);
      ghost var s := b.Text();
      var i := 0;
      while i < b.slen
        invariant 0 <= i <= |s| && b.Text() == s
        invariant forall c: byte :: Has(c) <==> c in s[..i]
      {
        SetBit(content, b.At(i));
        OneMore(s, i);
        i := i + 1;
      }
      assert s[..i] == s;
      return BSTR_OK;
    }

    // invertCharField
    method Invert()
      requires Valid()
      modifies content
      ensures forall c: byte :: Has(c) <==> !old(Has(c))
    {
      ghost var was := content[..];
      var i := 0;
      while i < CFCLEN
        invariant 0 <= i <= CFCLEN
        invariant forall k :: 0 <= k < CFCLEN ==> content[k] == if k < i then !was[k] else was[k]
      {
        content[i] := !content[i];
        i := i + 1;
      }
    }

    // binchrCF: the first position from pos on whose character is in the field.
    method Search(v: View, pos: nat) returns (r: int)
      requires Valid() && v.Valid() && v.data != content
      ensures r == BSTR_ERR ==> forall k :: pos <= k < v.slen ==> !Has(v.Text()[k])
      ensures r != BSTR_ERR ==> pos <= r < v.slen && Has(v.Text()[r]) && forall k :: pos <= k < r ==> !Has(v.Text()[k])
    {
      var i := pos;
      while i < v.slen
        invariant pos <= i
        invariant forall k :: pos <= k < i && k < v.slen ==> !Has(v.Text()[k])
      {
        if Has(v.At(i)) {
          return i;
        }
        i := i + 1;
      }
      return BSTR_ERR;
    }
  }
}

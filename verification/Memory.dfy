// Bytes, blocks of memory and the C library's block operations.
module Memory {
  type byte = bv8

  lemma Assoc<T>(a: seq<T>, b: seq<T>, c: seq<T>)
    ensures a + (b + c) == a + b + c
  {
  }

  const BSTR_OK: int := 0
  const BSTR_ERR: int := -1

  lemma SliceOfSlice<T>(s: seq<T>, ofs: nat, n: nat, i: nat, j: nat)
    requires i <= j <= n && ofs + n <= |s|
    ensures s[ofs..ofs + n][i..j] == s[ofs + i..ofs + j]
  {
    var x, y := s[ofs..ofs + n], s[ofs + i..ofs + j];
    var z := x[i..j];
    forall k | 0 <= k < |z|
      ensures z[k] == y[k]
    {
      assert x[i + k] == s[ofs + i + k];
    }
  }

  lemma SliceOfSuffix<T>(s: seq<T>, p: nat, i: nat, j: nat)
    requires i <= j && p + j <= |s|
    ensures s[p..][i..j] == s[p + i..p + j]
  {
    assert s[p..] == s[p..p + (|s| - p)];
    SliceOfSlice(s, p, |s| - p, i, j);
  }

  lemma SliceOfPrefix<T>(s: seq<T>, n: nat, i: nat, j: nat)
    requires i <= j <= n <= |s|
    ensures s[..n][i..j] == s[i..j]
  {
    assert s[..n] == s[0..0 + n];
    SliceOfSlice(s, 0, n, i, j);
  }

  lemma SuffixOfSuffix<T>(s: seq<T>, p: nat, i: nat)
    requires p + i <= |s|
    ensures s[p..][i..] == s[p + i..]
  {
  }

  lemma SliceInTwo<T>(s: seq<T>, i: nat, j: nat, k: nat)
    requires i <= j <= k <= |s|
    ensures s[i..k] == s[i..j] + s[j..k]
  {
  }

  lemma Pasted<T>(s: seq<T>, p: nat, m: nat, x: seq<T>, t: seq<T>)
    requires p <= m && m + |x| <= |s| && s[m..m + |x|] == x && t == s[m + |x|..]
    ensures s[p..m] + x + t == s[p..]
  {
    SliceInTwo(s, p, m, |s|);
    SliceInTwo(s, m, m + |x|, |s|);
    Assoc(s[p..m], x, t);
  }

  // The end of a prefix that is known in two parts.
  lemma EndOfPrefix<T>(s: seq<T>, n: nat, x: seq<T>, r: seq<T>)
    requires n <= |s| && s[..n] == x + r
    ensures |x| <= n && s[..|x|] == x && s[|x|..n] == r
  {
    SliceOfPrefix(s, n, |x|, n);
    SliceOfPrefix(s, n, 0, |x|);
  }

  // A pointer into a block with a length: the (data, slen) part of a read-only
  // bstring argument. Two views alias when they lie in the same block.
  datatype View = View(data: array<byte>, ofs: nat, slen: nat) {
    ghost predicate Valid()
    {
      ofs + slen <= data.Length
    }

    ghost function Text(): seq<byte>
      requires Valid()
      reads data
    {
      data[ofs..ofs + slen]
    }

    // The text from position i up to j.
    function Slice(i: nat, j: nat): (s: seq<byte>)
      requires Valid() && i <= j <= slen
      reads data
      ensures s == Text()[i..j]
    {
      SliceOfSlice(data[..], ofs, slen, i, j);
      data[ofs + i..ofs + j]
    }

    // data[i]
    function At(i: nat): (c: byte)
      requires Valid() && i < slen
      reads data
      ensures c == Text()[i]
    {
      data[ofs + i]
    }
  }

  // s with the elements from position ofs on overwritten by x
  function Spliced<T>(s: seq<T>, ofs: nat, x: seq<T>): seq<T>
    requires ofs + |x| <= |s|
  {
    s[..ofs] + x + s[ofs + |x|..]
  }

  lemma SplicedStart<T>(s: seq<T>, x: seq<T>)
    requires |x| <= |s|
    ensures Spliced(s, 0, x)[..|x|] == x
  {
  }

  function Repeat(c: byte, n: nat): seq<byte>
  {
    seq(n, _ => c)
  }

  // memmove: the two regions may overlap.
  method Memmove(dst: array<byte>, d: nat, src: array<byte>, s: nat, n: nat)
    requires d + n <= dst.Length && s + n <= src.Length
    modifies dst
    ensures dst[..] == Spliced(old(dst[..]), d, old(src[s..s + n]))
  {
    forall k | 0 <= k < n {
      dst[d + k] := src[s + k];
    }
  }

  // memcpy: callers must show that the regions do not overlap.
  method Memcpy(dst: array<byte>, d: nat, src: array<byte>, s: nat, n: nat)
    requires d + n <= dst.Length && s + n <= src.Length
    requires dst != src || n == 0 || s + n <= d || d + n <= s
    modifies dst
    ensures dst[..] == Spliced(old(dst[..]), d, old(src[s..s + n]))
  {
    var i := 0;
    while i < n
      invariant i <= n
      invariant forall k :: 0 <= k < dst.Length ==>
        dst[k] == if d <= k < d + i then old(src[s + k - d]) else old(dst[k])
    {
      dst[d + i] := src[s + i];
      i := i + 1;
    }
  }

  // memcpy from a string that lies elsewhere, given by its text
  method Store(dst: array<byte>, d: nat, x: seq<byte>)
    requires d + |x| <= dst.Length
    modifies dst
    ensures dst[..] == Spliced(old(dst[..]), d, x)
  {
    forall k | 0 <= k < |x| {
      dst[d + k] := x[k];
    }
  }

  method Memset(dst: array<byte>, d: nat, c: byte, n: nat)
    requires d + n <= dst.Length
    modifies dst
    ensures dst[..] == Spliced(old(dst[..]), d, Repeat(c, n))
  {
    forall k | 0 <= k < n {
      dst[d + k] := c;
    }
  }
}

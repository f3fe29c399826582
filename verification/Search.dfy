// Substring search: binstr against the least-occurrence specification.
module Search {
  import opened Memory

  // p occurs in s at position i
  predicate Occurs(s: seq<byte>, p: seq<byte>, i: int)
  {
    0 <= i && i + |p| <= |s| && s[i..i + |p|] == p
  }

  // The position binstr is to answer; FindIsLeast says which one that is.
  function Find(s: seq<byte>, pos: nat, p: seq<byte>): (r: int)
    ensures r == BSTR_ERR || pos <= r <= |s| - |p|
    decreases |s| - pos
  {
    if Occurs(s, p, pos) then pos
    else if pos >= |s| then BSTR_ERR
    else Find(s, pos + 1, p)
  }

  // It is the least position from pos on at which p occurs, or BSTR_ERR when
  // there is none.
  lemma {:induction false} FindIsLeast(s: seq<byte>, pos: nat, p: seq<byte>)
    ensures var r := Find(s, pos, p);
            && (r == BSTR_ERR <==> forall k :: pos <= k ==> !Occurs(s, p, k))
            && (r != BSTR_ERR ==> Occurs(s, p, r) && forall k :: pos <= k < r ==> !Occurs(s, p, k))
    decreases |s| - pos
  {
    if !Occurs(s, p, pos) && pos < |s| {
      FindIsLeast(s, pos + 1, p);
    }
  }

  // Nothing before pos matters to a search from pos.
  lemma FindInSuffix(s: seq<byte>, t: seq<byte>, pos: nat, p: seq<byte>)
    requires pos <= |s| == |t| && s[pos..] == t[pos..]
    ensures Find(s, pos, p) == Find(t, pos, p)
  {
    FindIsLeast(s, pos, p);
    FindIsLeast(t, pos, p);
    forall k | pos <= k ensures Occurs(s, p, k) <==> Occurs(t, p, k) {
      if k + |p| <= |s| {
        SliceOfSuffix(s, pos, k - pos, k - pos + |p|);
        SliceOfSuffix(t, pos, k - pos, k - pos + |p|);
      }
    }
  }

  // Every occurrence from pos on is at low or later.
  ghost predicate NoneBefore(s: seq<byte>, p: seq<byte>, pos: nat, low: int)
  {
    forall k :: pos <= k && Occurs(s, p, k) ==> low <= k
  }

  lemma FoundAt(s: seq<byte>, p: seq<byte>, pos: nat, r: nat)
    requires NoneBefore(s, p, pos, r) && pos <= r && r + |p| <= |s| && s[r..r + |p|] == p[..|p|]
    ensures Find(s, pos, p) == r
  {
    assert p[..|p|] == p;
    assert Occurs(s, p, r);
    FindIsLeast(s, pos, p);
  }

  lemma FoundNowhere(s: seq<byte>, p: seq<byte>, pos: nat, low: int)
    requires NoneBefore(s, p, pos, low) && |s| < low + |p|
    ensures Find(s, pos, p) == BSTR_ERR
  {
    FindIsLeast(s, pos, p);
  }

  // A character that differs from p[j] rules out the occurrence that needs it there.
  lemma MismatchRaisesBound(s: seq<byte>, p: seq<byte>, pos: nat, i: nat, j: nat)
    requires NoneBefore(s, p, pos, i - j)
    requires j < |p| && i < |s| && s[i] != p[j]
    ensures NoneBefore(s, p, pos, i + 1 - j)
  {
    forall k | pos <= k && Occurs(s, p, k) ensures i + 1 - j <= k {
      assert s[k..k + |p|][j] == p[j];
    }
  }

  // The state of the greedy loop: j characters of p matched as a subsequence
  // that began at ii, the next one is looked for at i. While the match is
  // contiguous it is a piece of s; i - j bounds every occurrence from below.
  ghost predicate Matching(s: seq<byte>, p: seq<byte>, pos: nat, i: nat, j: nat, ii: int)
  {
    && j <= |p| && pos <= i - j && i <= |s|
    && (j > 0 ==> pos <= ii && ii + j <= i && (ii + j == i ==> s[ii..i] == p[..j]))
    && NoneBefore(s, p, pos, i - j)
  }

  lemma SkipCharacter(s: seq<byte>, p: seq<byte>, pos: nat, i: nat, j: nat, ii: int)
    requires Matching(s, p, pos, i, j, ii) && j < |p| && i < |s| && s[i] != p[j]
    ensures Matching(s, p, pos, i + 1, j, ii)
  {
    MismatchRaisesBound(s, p, pos, i, j);
  }

  lemma TakeCharacter(s: seq<byte>, p: seq<byte>, pos: nat, i: nat, j: nat, ii: int)
    requires Matching(s, p, pos, i, j, ii) && j < |p| && i < |s| && s[i] == p[j]
    ensures Matching(s, p, pos, i + 1, j + 1, if j == 0 then i else ii)
  {
    var ii' := if j == 0 then i else ii;
    if ii' + j == i {
      assert s[ii'..i + 1] == s[ii'..i] + [s[i]];
    }
  }

  // A match with gaps: starting over at i - j loses no occurrence, and it is
  // behind the place where the attempt began.
  lemma Restart(s: seq<byte>, p: seq<byte>, pos: nat, i: nat, j: nat, ii: int)
    requires Matching(s, p, pos, i, j, ii) && j > 0 && i != ii + j
    ensures Matching(s, p, pos, i - j, 0, ii)
    ensures i - j > ii && forall k :: pos <= k && Occurs(s, p, k) ==> i - j <= k
  {
  }

  lemma ContiguousMatch(s: seq<byte>, p: seq<byte>, pos: nat, i: nat, ii: int)
    requires Matching(s, p, pos, i, |p|, ii) && i == ii + |p| && |p| > 0
    ensures Find(s, pos, p) == ii
  {
    FoundAt(s, p, pos, ii);
  }

  lemma OutOfRoom(s: seq<byte>, p: seq<byte>, pos: nat, i: nat, j: nat, ii: int)
    requires Matching(s, p, pos, i, j, ii) && |s| - i < |p| - j
    ensures Find(s, pos, p) == BSTR_ERR
  {
    FoundNowhere(s, p, pos, i - j);
  }

  // binstr
  method Binstr(b1: View, pos: int, b2: View) returns (r: int)
    requires b1.Valid() && b2.Valid()
    ensures r == if pos < 0 then BSTR_ERR else Find(b1.Text(), pos, b2.Text())
  {
    if b1.slen == pos {
      return if b2.slen == 0 then pos else BSTR_ERR;
    }
    if b1.slen < pos || pos < 0 {
      return BSTR_ERR;
    }
    if b2.slen == 0 {
      return pos;
    }
    var lf := b1.slen - b2.slen + 1;
    if lf <= pos {
      return BSTR_ERR;
    }
    if b1.data == b2.data && b1.ofs == b2.ofs && pos == 0 {
      assert Occurs(b1.Text(), b2.Text(), 0);
      return 0;
    }
    if 1 == b2.slen {
      r := FindCharacter(b1, pos, b2);
    } else {
      r := FindLonger(b1, pos, b2);
    }
  }

  // binstr's peeled-off case of a single character
  method FindCharacter(b1: View, pos: nat, b2: View) returns (r: int)
    requires b1.Valid() && b2.Valid() && pos < b1.slen && b2.slen == 1
    ensures r == Find(b1.Text(), pos, b2.Text())
  {
    ghost var s, p := b1.Text(), b2.Text();
    var c0 := b2.At(0);
    var i := pos;
    while i < b1.slen
      invariant Matching(s, p, pos, i, 0, -1)
    {
      if c0 == b1.At(i) {
        TakeCharacter(s, p, pos, i, 0, -1);
        ContiguousMatch(s, p, pos, i + 1, i);
        return i;
      }
      SkipCharacter(s, p, pos, i, 0, -1);
      i := i + 1;
    }
    OutOfRoom(s, p, pos, i, 0, -1);
    return BSTR_ERR;
  }

  // binstr's main loop. It matches p as a subsequence, greedily, two characters
  // a step, and checks only at the end whether the match is contiguous. Each
  // restart moves the beginning of the attempt forward, which is why it stops.
  method FindLonger(b1: View, pos: nat, b2: View) returns (r: int)
    requires b1.Valid() && b2.Valid() && pos < b1.slen && 2 <= b2.slen
    ensures r == Find(b1.Text(), pos, b2.Text())
  {
    ghost var s, p := b1.Text(), b2.Text();
    var i, j, ii := pos, 0, -1;
    var ll, lf := b2.slen, b1.slen - 1;
    var c0 := b2.At(0);
    var c1 := c0;
    while true
      invariant 0 <= j < ll && 0 <= i && c0 == p[0] && c1 == p[j]
      invariant Matching(s, p, pos, i, j, ii)
      decreases |s| - (if j == 0 then i else ii), |s| - i
    {
      if i < lf {
        i, j, ii := TestTwo(b1, b2, pos, i, j, ii, c1);
        if j < ll {
          c1 := b2.At(j);
          continue;
        }
        if i == ii + j {
          ContiguousMatch(s, p, pos, i, ii);
          return ii;
        }
      } else {
        // The unrolling may leave one last character to look at.
        if !(i == lf && ll == j + 1 && c1 == b1.At(i)) {
          NothingLeft(s, p, pos, i, j, ii);
          return BSTR_ERR;
        }
        if i == ii + j {
          TakeCharacter(s, p, pos, i, j, ii);
          ContiguousMatch(s, p, pos, i + 1, ii);
          return ii;
        }
      }
      Restart(s, p, pos, i, j, ii);
      i := i - j;
      j := 0;
      c1 := c0;
    }
  }

  // The unrolled tests at i and i + 1: past both characters, or one more character
  // of the pattern matched.
  method TestTwo(b1: View, b2: View, pos: nat, i: nat, j: nat, ii: int, c1: byte)
    returns (i': nat, j': nat, ii': int)
    requires b1.Valid() && b2.Valid() && i + 1 < b1.slen && j < b2.slen && c1 == b2.Text()[j]
    requires Matching(b1.Text(), b2.Text(), pos, i, j, ii)
    ensures Matching(b1.Text(), b2.Text(), pos, i', j', ii')
    ensures i < i' && j <= j' <= j + 1 && (j > 0 ==> ii' == ii) && (j == 0 < j' ==> i <= ii')
  {
    ghost var s, p := b1.Text(), b2.Text();
    i', j', ii' := i, j, ii;
    if c1 != b1.At(i') {
      SkipCharacter(s, p, pos, i', j, ii);
      if c1 != b1.At(1 + i') {
        SkipCharacter(s, p, pos, i' + 1, j, ii);
        i' := i' + 2;
        return;
      }
      i' := i' + 1;
    }
    TakeCharacter(s, p, pos, i', j, ii);
    if 0 == j {
      ii' := i';
    }
    j' := j + 1;
    i' := i' + 1;
  }

  // At the last character or behind it, with more of the pattern to come than that.
  lemma NothingLeft(s: seq<byte>, p: seq<byte>, pos: nat, i: nat, j: nat, ii: int)
    requires Matching(s, p, pos, i, j, ii) && j < |p| && |s| <= i + 1 && 2 <= |p|
    requires !(i + 1 == |s| && |p| == j + 1 && p[j] == s[i])
    ensures Find(s, pos, p) == BSTR_ERR
  {
    if i + 1 == |s| && |p| == j + 1 {
      SkipCharacter(s, p, pos, i, j, ii);
      OutOfRoom(s, p, pos, i + 1, j, ii);
    } else {
      OutOfRoom(s, p, pos, i, j, ii);
    }
  }
}

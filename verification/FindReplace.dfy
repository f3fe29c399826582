// findreplaceengine: three ways to replace every occurrence in place, all equal to
// the leftmost, non-overlapping replacement.
module FindReplace {
  import opened Bstrings
  import opened Growth
  import opened Memory
  import opened Search

  // The text from pos on, with its occurrences of f replaced from left to right.
  function ReplacedFrom(s: seq<byte>, pos: nat, f: seq<byte>, r: seq<byte>): seq<byte>
    requires pos <= |s| && |f| > 0
    decreases |s| - pos
  {
    var i := Find(s, pos, f);
    if i < 0 then s[pos..] else s[pos..i] + r + ReplacedFrom(s, i + |f|, f, r)
  }

  function FindReplaced(s: seq<byte>, pos: nat, f: seq<byte>, r: seq<byte>): seq<byte>
    requires pos <= |s| && |f| > 0
  {
    s[..pos] + ReplacedFrom(s, pos, f, r)
  }

  lemma FoundText(s: seq<byte>, pos: nat, f: seq<byte>, i: nat)
    requires pos <= |s| && i == Find(s, pos, f)
    ensures pos <= i && i + |f| <= |s| && s[i..i + |f|] == f
  {
    FindIsLeast(s, pos, f);
  }

  // Replacing a text by itself changes nothing.
  lemma {:induction false} ReplacedByItself(s: seq<byte>, pos: nat, f: seq<byte>)
    requires pos <= |s| && |f| > 0
    ensures ReplacedFrom(s, pos, f, f) == s[pos..]
    decreases |s| - pos
  {
    var i := Find(s, pos, f);
    if i < 0 {
      ReplacedNowhere(s, pos, f, f);
    } else {
      FoundText(s, pos, f, i);
      ReplacedStep(s, pos, f, f, i);
      ReplacedByItself(s, i + |f|, f);
      Pasted(s, pos, i, f, ReplacedFrom(s, i + |f|, f, f));
    }
  }

  // An argument that no write at pos or later can change.
  ghost predicate Settled(b: Bstring, v: View, pos: nat)
    reads b
  {
    v.Valid() && (v.slen == 0 || v.data != b.data || v.ofs + v.slen <= pos)
  }

  // Between two matches of the same-size and shrinking strategies: the block
  // starts with finished text that ends acc bytes before pos, and the text
  // still to be searched has not been touched. What is
  // finished and what the rest becomes are together all there will be.
  ghost predicate Between(block: seq<byte>, s: seq<byte>, start: nat, pos: nat, acc: nat,
                          rest: seq<byte>, all: seq<byte>)
  {
    && start <= pos - acc && pos <= |s| < |block|
    && block[pos..|s|] == s[pos..]
    && block[..start] == s[..start]
    && block[..pos - acc] + rest == all
  }

  lemma SearchUntouched(block: seq<byte>, s: seq<byte>, pos: nat, f: seq<byte>)
    requires |f| > 0 && pos <= |s| <= |block| && block[pos..|s|] == s[pos..]
    ensures Find(block[..|s|], pos, f) == Find(s, pos, f)
  {
    assert block[..|s|][pos..] == block[pos..|s|];
    FindInSuffix(block[..|s|], s, pos, f);
  }

  // One match at i: the text before it has been moved down by acc and the
  // replacement written behind it, and nothing from the end of the match on.
  lemma BetweenNext(block: seq<byte>, next: seq<byte>, s: seq<byte>, start: nat, pos: nat, acc: nat,
                    i: nat, pos': nat, r: seq<byte>, rest: seq<byte>, all: seq<byte>)
    requires pos <= i && i + |r| <= pos' <= |s| && Between(block, s, start, pos, acc, s[pos..i] + r + rest, all)
    requires |next| == |block|
    requires next[..i - acc + |r|] == block[..pos - acc] + (s[pos..i] + r) && next[pos'..] == block[pos'..]
    ensures Between(next, s, start, pos', acc + (pos' - i) - |r|, rest, all)
  {
    FrontKept(block, next, pos - acc, s[pos..i] + r, start);
    TailKept(block, next, s, pos, pos');
    Assoc(block[..pos - acc], s[pos..i] + r, rest);
  }

  lemma TailKept(block: seq<byte>, next: seq<byte>, s: seq<byte>, pos: nat, pos': nat)
    requires pos <= pos' <= |s| <= |block| == |next|
    requires block[pos..|s|] == s[pos..] && next[pos'..] == block[pos'..]
    ensures next[pos'..|s|] == s[pos'..]
  {
    assert next[pos'..|s|] == next[pos'..][..|s| - pos'];
    assert block[pos'..|s|] == block[pos'..][..|s| - pos'];
    assert block[pos'..|s|] == block[pos..|s|][pos' - pos..];
  }

  lemma ReplacedStep(s: seq<byte>, pos: nat, f: seq<byte>, r: seq<byte>, i: nat)
    requires pos <= |s| && |f| > 0 && Find(s, pos, f) == i
    ensures ReplacedFrom(s, pos, f, r) == s[pos..i] + r + ReplacedFrom(s, i + |f|, f, r)
  {
  }

  lemma BetweenStart(block: seq<byte>, s: seq<byte>, start: nat, f: seq<byte>, r: seq<byte>)
    requires |f| > 0 && start <= |s| < |block| && block[..|s|] == s
    ensures Between(block, s, start, start, 0, ReplacedFrom(s, start, f, r), FindReplaced(s, start, f, r))
  {
    assert block[start..|s|] == block[..|s|][start..];
    assert block[..start] == block[..|s|][..start];
  }

  // A settled argument in b's own block is the same piece of any text that
  // shares b's first start bytes.
  lemma SettledText(b: Bstring, v: View, start: nat, s: seq<byte>)
    requires Settled(b, v, start) && start <= |s| && start <= b.data.Length
    requires b.data[..start] == s[..start]
    ensures v.slen == 0 || v.data != b.data || v.Text() == s[v.ofs..v.ofs + v.slen]
  {
    if v.slen > 0 && v.data == b.data {
      SamePart(b.data[..], s, start, v.ofs, v.ofs + v.slen);
    }
  }

  lemma SamePart(a: seq<byte>, b: seq<byte>, n: nat, i: nat, j: nat)
    requires i <= j <= n && n <= |a| && n <= |b| && a[..n] == b[..n]
    ensures a[i..j] == b[i..j]
  {
    SliceOfPrefix(a, n, i, j);
    SliceOfPrefix(b, n, i, j);
  }

  lemma SuffixSlice(a: seq<byte>, b: seq<byte>, i: nat, j: nat)
    requires |a| == |b| && i <= j <= |a| && a[i..] == b[i..]
    ensures a[j..] == b[j..]
  {
    SuffixOfSuffix(a, i, j - i);
    SuffixOfSuffix(b, i, j - i);
  }

  // Moves the text between two matches down by acc.
  method MoveGap(b: Bstring, pos: nat, acc: nat, i: nat, ghost s: seq<byte>)
    requires b.Valid() && acc <= pos <= i <= |s| == b.slen
    requires b.data[pos..|s|] == s[pos..]
    modifies b.data
    ensures b.data[..i - acc] == old(b.data[..pos - acc]) + s[pos..i]
    ensures b.data[i..] == old(b.data[i..])
  {
    ghost var block := b.data[..];
    assert block[pos..i] == block[pos..|s|][..i - pos] == s[pos..][..i - pos] == s[pos..i];
    if acc > 0 && i > pos {
      b.MoveTail(i, pos, pos - acc, pos - acc);
      assert b.data[pos - acc..i - acc] == block[pos..i];
    } else if i == pos {
      assert b.data[pos - acc..i - acc] == [] == block[pos..i];
    }
    Joined(b.data[..], pos - acc, i - acc, block[..pos - acc], s[pos..i]);
  }

  lemma Joined(a: seq<byte>, i: nat, j: nat, x: seq<byte>, y: seq<byte>)
    requires i <= j <= |a| && a[..i] == x && a[i..j] == y
    ensures a[..j] == x + y
  {
  }

  // The source's body of the shrinking loop; with acc == 0 and equal lengths it
  // is the body of the same-size loop.
  method ReplaceMatch(b: Bstring, repl: View, flen: nat, pos: nat, acc: nat, i: nat, ghost s: seq<byte>,
                      ghost start: nat)
    requires b.Valid() && Settled(b, repl, start)
    requires start <= pos - acc && pos <= i && i + flen <= |s| == b.slen && repl.slen <= flen
    requires b.data[pos..|s|] == s[pos..] && b.data[..start] == s[..start]
    modifies b.data
    ensures b.data[..i - acc + repl.slen] == old(b.data[..pos - acc]) + (s[pos..i] + old(repl.Text()))
    ensures b.data[i + flen..] == old(b.data[i + flen..])
    ensures b.data[..start] == s[..start]
  {
    ghost var block, r := b.data[..], repl.Text();
    CloseGap(b, repl, pos, acc, i, s, start);
    ghost var middle := b.data[..];
    PutReplacement(b, i - acc, repl, i + flen);
    Assembled(block, middle, b.data[..], s, start, pos, acc, i, i + flen, r);
  }

  // Moving the gap leaves a replacement alone that lies elsewhere or before start.
  method CloseGap(b: Bstring, repl: View, pos: nat, acc: nat, i: nat, ghost s: seq<byte>, ghost start: nat)
    requires b.Valid() && Settled(b, repl, start)
    requires start <= pos - acc && pos <= i <= |s| == b.slen
    requires b.data[pos..|s|] == s[pos..] && b.data[..start] == s[..start]
    modifies b.data
    ensures b.data[..i - acc] == old(b.data[..pos - acc]) + s[pos..i] && b.data[i..] == old(b.data[i..])
    ensures b.data[..start] == s[..start] && repl.Text() == old(repl.Text())
  {
    ghost var block := b.data[..];
    SettledText(b, repl, start, s);
    MoveGap(b, pos, acc, i, s);
    FrontKept(block, b.data[..], pos - acc, s[pos..i], start);
    SettledText(b, repl, start, s);
  }

  lemma Assembled(block: seq<byte>, middle: seq<byte>, next: seq<byte>, s: seq<byte>,
                  start: nat, pos: nat, acc: nat, i: nat, tail: nat, r: seq<byte>)
    requires start <= pos - acc && pos <= i <= |s| && i - acc + |r| <= tail
    requires tail <= |block| == |middle| == |next|
    requires i <= tail
    requires middle[..i - acc] == block[..pos - acc] + s[pos..i] && middle[i..] == block[i..]
    requires next[..i - acc + |r|] == middle[..i - acc] + r && next[tail..] == middle[tail..]
    ensures next[..i - acc + |r|] == block[..pos - acc] + (s[pos..i] + r)
    ensures next[tail..] == block[tail..]
    ensures next[..start] == block[..start]
  {
    SuffixSlice(middle, block, i, tail);
    FrontKept(block, middle, pos - acc, s[pos..i], start);
    FrontKept(middle, next, i - acc, r, start);
  }

  method PutReplacement(b: Bstring, k: nat, repl: View, tail: nat)
    requires b.Valid() && repl.Valid() && k + repl.slen <= tail <= b.mlen
    requires repl.slen == 0 || repl.data != b.data || repl.ofs + repl.slen <= k
    modifies b.data
    ensures b.data[..k + repl.slen] == old(b.data[..k]) + old(repl.Text())
    ensures b.data[tail..] == old(b.data[tail..])
  {
    ghost var middle := b.data[..];
    if repl.slen > 0 {
      b.FillCopy(k, repl, k + repl.slen);
    }
    SuffixSlice(b.data[..], middle, k + repl.slen, tail);
  }

  method SearchIn(b: Bstring, find: View, pos: nat) returns (i: int)
    requires b.Valid() && find.Valid()
    ensures i == Find(b.Text(), pos, find.Text())
  {
    i := Binstr(b.AsView(), pos, find);
  }

  // The search at the head of either loop, in the partly rewritten text.
  method SearchOn(b: Bstring, find: View, pos: nat, ghost s: seq<byte>) returns (i: int)
    requires b.Valid() && b.slen == |s| && find.Valid() && find.slen > 0
    requires pos <= |s| && b.data[pos..|s|] == s[pos..]
    ensures i == Find(s, pos, find.Text())
  {
    SearchUntouched(b.data[..], s, pos, find.Text());
    i := SearchIn(b, find, pos);
  }

  // One iteration of either loop.
  method ReplaceAndGo(b: Bstring, find: View, repl: View, pos: nat, acc: nat, i: nat,
                      ghost s: seq<byte>, ghost start: nat, ghost whole: seq<byte>, ghost rest: seq<byte>,
                      ghost all: seq<byte>)
    returns (next: nat, acc': nat)
    requires b.Valid() && b.slen == |s| && Settled(b, find, start) && Settled(b, repl, start)
    requires repl.slen <= find.slen && pos <= i && i + find.slen <= |s|
    requires Between(b.data[..], s, start, pos, acc, whole, all) && whole == s[pos..i] + repl.Text() + rest
    modifies b.data
    ensures next == i + find.slen && acc' == acc + find.slen - repl.slen
    ensures Between(b.data[..], s, start, next, acc', rest, all) && b.data[b.slen] == old(b.data[b.slen])
    ensures find.Text() == old(find.Text()) && repl.Text() == old(repl.Text())
  {
    ghost var block, r := b.data[..], repl.Text();
    ReplaceKeeping(b, find, repl, pos, acc, i, s, start);
    next := i + find.slen;
    acc' := acc + (next - i) - repl.slen;
    SuffixElement(block, b.data[..], next, b.slen);
    BetweenNext(block, b.data[..], s, start, pos, acc, i, next, r, rest, all);
  }

  // A replacement leaves both arguments alone, each of which lies elsewhere or before start.
  method ReplaceKeeping(b: Bstring, find: View, repl: View, pos: nat, acc: nat, i: nat, ghost s: seq<byte>,
                        ghost start: nat)
    requires b.Valid() && Settled(b, find, start) && Settled(b, repl, start)
    requires start <= pos - acc && pos <= i && i + find.slen <= |s| == b.slen && repl.slen <= find.slen
    requires b.data[pos..|s|] == s[pos..] && b.data[..start] == s[..start]
    modifies b.data
    ensures b.data[..i - acc + repl.slen] == old(b.data[..pos - acc]) + (s[pos..i] + old(repl.Text()))
    ensures b.data[i + find.slen..] == old(b.data[i + find.slen..])
    ensures find.Text() == old(find.Text()) && repl.Text() == old(repl.Text())
  {
    SettledText(b, find, start, s);
    SettledText(b, repl, start, s);
    ReplaceMatch(b, repl, find.slen, pos, acc, i, s, start);
    SettledText(b, find, start, s);
    SettledText(b, repl, start, s);
  }

  lemma SuffixElement(a: seq<byte>, b: seq<byte>, i: nat, k: nat)
    requires i <= k < |a| == |b| && a[i..] == b[i..]
    ensures a[k] == b[k]
  {
    assert a[k] == a[i..][k - i] && b[k] == b[i..][k - i];
  }

  // The search and what follows it, for both loops. Rest is what the text from the
  // current position on is to become.
  method Round(b: Bstring, find: View, repl: View, pos: nat, acc: nat,
               ghost s: seq<byte>, ghost start: nat, ghost rest: seq<byte>, ghost all: seq<byte>)
    returns (more: bool, next: nat, acc': int, ghost rest': seq<byte>)
    requires b.Valid() && b.slen == |s| && Settled(b, find, start) && Settled(b, repl, start)
    requires repl.slen <= find.slen && 0 < find.slen && pos <= |s|
    requires rest == ReplacedFrom(s, pos, find.Text(), repl.Text())
      && Between(b.data[..], s, start, pos, acc, rest, all)
    modifies b.data
    ensures find.Text() == old(find.Text()) && repl.Text() == old(repl.Text())
    ensures pos <= next <= |s| && acc' >= acc && Between(b.data[..], s, start, next, acc', rest', all)
    ensures !more ==> rest' == s[next..]
    ensures more ==> pos < next && rest' == ReplacedFrom(s, next, find.Text(), repl.Text())
    ensures acc' == if more then acc + find.slen - repl.slen else acc
    ensures b.data[b.slen] == old(b.data[b.slen])
  {
    var i := SearchOn(b, find, pos, s);
    more, next, acc' := i >= 0, pos, acc;
    if more {
      ghost var f, r := find.Text(), repl.Text();
      ReplacedStep(s, pos, f, r, i);
      rest' := ReplacedFrom(s, i + |f|, f, r);
      next, acc' := ReplaceAndGo(b, find, repl, pos, acc, i, s, start, rest, rest', all);
    } else {
      ReplacedNowhere(s, pos, find.Text(), repl.Text());
      rest' := s[pos..];
    }
  }

  lemma FrontKept(block: seq<byte>, next: seq<byte>, k: nat, x: seq<byte>, start: nat)
    requires start <= k <= |block| && k + |x| <= |next|
    requires next[..k + |x|] == block[..k] + x
    ensures next[..start] == block[..start]
  {
    assert next[..start] == next[..k + |x|][..start];
    assert block[..start] == block[..k][..start];
  }

  // Equal lengths: every replacement is copied over its match.
  method ReplaceSameSize(b: Bstring, find: View, repl: View, start: nat)
    requires b.Valid() && start <= b.slen
    requires Settled(b, find, start) && Settled(b, repl, start) && find.slen == repl.slen > 0
    modifies b.data
    ensures old(b.Terminated()) ==> b.Terminated()
    ensures b.Text() == FindReplaced(old(b.Text()), start, old(find.Text()), old(repl.Text()))
  {
    ghost var s, f, r := b.Text(), find.Text(), repl.Text();
    var pos: nat := start;
    BetweenStart(b.data[..], s, start, f, r);
    ghost var all, rest := FindReplaced(s, start, f, r), ReplacedFrom(s, start, f, r);
    var more := true;
    while more
      invariant pos <= |s| && Between(b.data[..], s, start, pos, 0, rest, all)
      invariant rest == if more then ReplacedFrom(s, pos, f, r) else s[pos..]
      invariant find.Text() == f && repl.Text() == r && b.data[b.slen] == old(b.data[b.slen])
      decreases more, |s| - pos
    {
      var acc;
      more, pos, acc, rest := Round(b, find, repl, pos, 0, s, start, rest, all);
    }
    assert b.Text() == b.data[..pos] + b.data[pos..|s|];
  }

  // Shorter replacements: the text between matches is moved down as the search goes on.
  method ReplaceShrinking(b: Bstring, find: View, repl: View, start: nat)
    requires b.Valid() && start <= b.slen
    requires Settled(b, find, start) && Settled(b, repl, start) && find.slen > repl.slen
    modifies b`slen, b.data
    ensures b.Valid() && (old(b.Terminated()) ==> b.Terminated())
    ensures b.Text() == FindReplaced(old(b.Text()), start, old(find.Text()), old(repl.Text()))
  {
    ghost var s, f, r := b.Text(), find.Text(), repl.Text();
    ghost var all := FindReplaced(s, start, f, r);
    BetweenStart(b.data[..], s, start, f, r);
    var pos, acc := ShrinkLoop(b, find, repl, start, s, all);
    FinishShrinking(b, pos, acc, s, start, all);
  }

  method ShrinkLoop(b: Bstring, find: View, repl: View, start: nat, ghost s: seq<byte>, ghost all: seq<byte>)
    returns (pos: nat, acc: nat)
    requires b.Valid() && b.slen == |s| && start <= |s|
    requires Settled(b, find, start) && Settled(b, repl, start) && find.slen > repl.slen
    requires Between(b.data[..], s, start, start, 0, ReplacedFrom(s, start, find.Text(), repl.Text()), all)
    modifies b.data
    ensures pos <= |s| && Between(b.data[..], s, start, pos, acc, s[pos..], all)
      && b.data[b.slen] == old(b.data[b.slen])
  {
    ghost var f, r := find.Text(), repl.Text();
    ghost var rest := ReplacedFrom(s, start, f, r);
    pos, acc := start, 0;
    var more := true;
    while more
      invariant pos <= |s| && Between(b.data[..], s, start, pos, acc, rest, all)
      invariant rest == if more then ReplacedFrom(s, pos, f, r) else s[pos..]
      invariant find.Text() == f && repl.Text() == r && b.data[b.slen] == old(b.data[b.slen])
      decreases more, |s| - pos
    {
      more, pos, acc, rest := Round(b, find, repl, pos, acc, s, start, rest, all);
    }
  }

  method FinishShrinking(b: Bstring, pos: nat, acc: nat, ghost s: seq<byte>, ghost start: nat, ghost all: seq<byte>)
    requires b.Valid() && b.slen == |s| && pos <= |s|
    requires Between(b.data[..], s, start, pos, acc, s[pos..], all)
    modifies b`slen, b.data
    ensures b.Valid() && b.Text() == all && (old(b.data[b.slen]) == 0 ==> b.Terminated())
  {
    assert s[pos..|s|] == s[pos..];
    if acc > 0 {
      MoveGap(b, pos, acc, b.slen, s);
      b.SetLength(b.slen - acc);
    } else {
      assert b.Text() == b.data[..pos] + b.data[pos..|s|];
    }
  }

  // ---------- the expanding strategy ----------

  function Times(n: nat, e: nat): nat
  {
    if n == 0 then 0 else Times(n - 1, e) + e
  }

  // The matches from pos on.
  function MatchesFrom(s: seq<byte>, pos: nat, f: seq<byte>): seq<nat>
    requires pos <= |s| && |f| > 0
    decreases |s| - pos
  {
    var i := Find(s, pos, f);
    if i < 0 then [] else [i] + MatchesFrom(s, i + |f|, f)
  }

  // Entry i of a table of matches is a match at or behind pos, and the next match is
  // the next entry.
  ghost predicate IsMatch(s: seq<byte>, pos: nat, f: seq<byte>, m: seq<nat>, i: nat)
    requires i < |m|
  {
    && pos <= m[i] && m[i] + |f| <= |s| && Find(s, m[i], f) == m[i]
    && (i + 1 < |m| ==> m[i] + |f| <= m[i + 1])
    && Find(s, m[i] + |f|, f) == if i + 1 < |m| then m[i + 1] else BSTR_ERR
  }

  lemma {:induction false} MatchFacts(s: seq<byte>, pos: nat, f: seq<byte>, i: nat)
    requires pos <= |s| && |f| > 0 && i < |MatchesFrom(s, pos, f)|
    ensures IsMatch(s, pos, f, MatchesFrom(s, pos, f), i)
    decreases |s| - pos
  {
    var j := Find(s, pos, f);
    MatchesStep(s, pos, f);
    if i == 0 {
      FirstMatch(s, pos, f);
    } else {
      MatchFacts(s, j + |f|, f, i - 1);
      LaterMatch(s, pos, f, MatchesFrom(s, pos, f), j, MatchesFrom(s, j + |f|, f), i);
    }
  }

  lemma MatchesStep(s: seq<byte>, pos: nat, f: seq<byte>)
    requires pos <= |s| && |f| > 0 && MatchesFrom(s, pos, f) != []
    ensures pos <= Find(s, pos, f) <= |s| - |f|
    ensures MatchesFrom(s, pos, f) == [Find(s, pos, f)] + MatchesFrom(s, Find(s, pos, f) + |f|, f)
  {
  }

  lemma FirstMatch(s: seq<byte>, pos: nat, f: seq<byte>)
    requires pos <= |s| && |f| > 0 && MatchesFrom(s, pos, f) != []
    ensures IsMatch(s, pos, f, MatchesFrom(s, pos, f), 0)
  {
    FindAgain(s, pos, f);
  }

  lemma LaterMatch(s: seq<byte>, pos: nat, f: seq<byte>, m: seq<nat>, j: nat, rest: seq<nat>, i: nat)
    requires m == [j] + rest && 0 < i < |m| && pos <= j && IsMatch(s, j + |f|, f, rest, i - 1)
    ensures IsMatch(s, pos, f, m, i)
  {
  }

  lemma FindAgain(s: seq<byte>, pos: nat, f: seq<byte>)
    requires pos <= |s| && Find(s, pos, f) >= 0
    ensures Find(s, Find(s, pos, f), f) == Find(s, pos, f)
  {
    FindIsLeast(s, pos, f);
  }

  // From a search position to the next match, or the end, the text stays as it is.
  lemma ReplacedUpTo(s: seq<byte>, p: nat, q: nat, f: seq<byte>, r: seq<byte>)
    requires p <= q <= |s| && |f| > 0
    requires Find(s, p, f) == if q == |s| then BSTR_ERR else q
    ensures ReplacedFrom(s, p, f, r) == s[p..q] + ReplacedFrom(s, q, f, r)
  {
    if q < |s| {
      FindAgain(s, p, f);
      ReplacedStep(s, p, f, r, q);
      ReplacedStep(s, q, f, r, q);
      Skipped(ReplacedFrom(s, p, f, r), s[p..q], s[q..q], r, ReplacedFrom(s, q + |f|, f, r), ReplacedFrom(s, q, f, r));
    } else {
      ReplacedNowhere(s, p, f, r);
      ReplacedNowhere(s, q, f, r);
    }
  }

  lemma ReplacedNowhere(s: seq<byte>, p: nat, f: seq<byte>, r: seq<byte>)
    requires p <= |s| && |f| > 0 && (Find(s, p, f) < 0 || p == |s|)
    ensures ReplacedFrom(s, p, f, r) == s[p..|s|] == s[p..|s|] + []
  {
  }

  lemma Skipped(whole: seq<byte>, x: seq<byte>, empty: seq<byte>, r: seq<byte>, rest: seq<byte>, part: seq<byte>)
    requires whole == x + r + rest && part == empty + r + rest && empty == []
    ensures whole == x + part
  {
  }

  lemma MatchesGrow(d: seq<nat>, s: seq<byte>, pos: nat, f: seq<byte>)
    requires pos <= |s| && |f| > 0 && Find(s, pos, f) >= 0
    ensures var i := Find(s, pos, f);
            d + MatchesFrom(s, pos, f) == (d + [i]) + MatchesFrom(s, i + |f|, f)
  {
  }

  // The first pass: collects the matches and how much longer the text will get.
  method CollectMatches(b: Bstring, find: View, start: nat, e: nat) returns (d: seq<nat>, acc: nat)
    requires b.Valid() && start <= b.slen && find.Valid() && find.slen > 0
    ensures d == MatchesFrom(b.Text(), start, find.Text())
    ensures acc == Times(|d|, e)
  {
    ghost var s, f := b.Text(), find.Text();
    ghost var all := MatchesFrom(s, start, f);
    d, acc := [], 0;
    var pos: nat, more := start, true;
    while more
      invariant start <= pos <= |s| && acc == Times(|d|, e)
      invariant if more then d + MatchesFrom(s, pos, f) == all else d == all
      decreases more, |s| - pos
    {
      more, d, pos := CollectOne(b, find, d, pos, all);
      acc := if more then acc + e else acc;
    }
  }

  method CollectOne(b: Bstring, find: View, d: seq<nat>, pos: nat, ghost all: seq<nat>)
    returns (more: bool, d': seq<nat>, next: nat)
    requires b.Valid() && pos <= b.slen && find.Valid() && find.slen > 0
    requires d + MatchesFrom(b.Text(), pos, find.Text()) == all
    ensures more ==> pos < next <= b.slen && |d'| == |d| + 1 && d' + MatchesFrom(b.Text(), next, find.Text()) == all
    ensures !more ==> next == pos && d' == d == all
  {
    ghost var s, f := b.Text(), find.Text();
    var i := SearchIn(b, find, pos);
    if i < 0 {
      NoMoreMatches(d, s, pos, f);
      return false, d, pos;
    }
    MatchesGrow(d, s, pos, f);
    return true, d + [i], i + find.slen;
  }

  lemma NoMoreMatches(d: seq<nat>, s: seq<byte>, pos: nat, f: seq<byte>)
    requires pos <= |s| && |f| > 0 && Find(s, pos, f) < 0
    ensures d + MatchesFrom(s, pos, f) == d
  {
  }

  // One step of the second pass, on the block: the text between two matches goes
  // up by acc, the replacement goes in front of it.
  method MoveUp(b: Bstring, repl: View, from: nat, to: nat, acc: nat, newlen: nat, ghost kept: nat)
    requires b.Valid() && repl.Valid() && from <= to && to + acc <= newlen < b.mlen
    requires kept <= from && kept + repl.slen <= from + acc
    requires repl.slen == 0 || repl.data != b.data || repl.ofs + repl.slen <= kept
    modifies b.data
    ensures b.data[from + acc - repl.slen..newlen] ==
      old(repl.Text()) + old(b.data[from..to]) + old(b.data[to + acc..newlen])
    ensures b.data[..kept] == old(b.data[..kept])
  {
    ghost var block, r := b.data[..], repl.Text();
    OpenGap(b, repl, from, to, acc, kept);
    ghost var middle := b.data[..];
    PutReplacement(b, from + acc - repl.slen, repl, from + acc);
    MovedUp(block, middle, b.data[..], r, from, to, acc, newlen, kept);
  }

  // Moving a part right leaves a replacement alone that lies elsewhere or in what is kept.
  method OpenGap(b: Bstring, repl: View, from: nat, to: nat, acc: nat, ghost kept: nat)
    requires b.Valid() && repl.Valid() && kept <= from <= to && to + acc <= b.mlen
    requires repl.slen == 0 || repl.data != b.data || repl.ofs + repl.slen <= kept
    modifies b.data
    ensures b.data[from + acc..to + acc] == old(b.data[from..to])
    ensures b.data[to + acc..] == old(b.data[to + acc..])
    ensures b.data[..kept] == old(b.data[..kept])
    ensures repl.Text() == old(repl.Text())
  {
    ghost var block, r := b.data[..], repl.Text();
    MoveRight(b, from, to, acc, kept);
    StillThere(b, repl, kept, block, r);
  }

  method MoveRight(b: Bstring, from: nat, to: nat, acc: nat, ghost kept: nat)
    requires b.Valid() && kept <= from <= to && to + acc <= b.mlen
    modifies b.data
    ensures b.data[from + acc..to + acc] == old(b.data[from..to])
    ensures b.data[to + acc..] == old(b.data[to + acc..])
    ensures b.data[..kept] == old(b.data[..kept])
  {
    var l := to - from;
    if l != 0 {
      b.MoveTail(to, from, from + acc, kept);
    } else {
      EmptySlices(b.data[..], from, from + acc);
    }
  }

  lemma EmptySlices(a: seq<byte>, i: nat, j: nat)
    requires i <= |a| && j <= |a|
    ensures a[i..i] == a[j..j]
  {
  }

  // A replacement that lies elsewhere, or in the part of the block that was kept.
  lemma StillThere(b: Bstring, repl: View, kept: nat, block: seq<byte>, r: seq<byte>)
    requires repl.Valid() && kept <= |block| == b.data.Length && b.data[..kept] == block[..kept] && |r| == repl.slen
    requires repl.data != b.data ==> r == repl.Text()
    requires repl.slen > 0 && repl.data == b.data ==>
      repl.ofs + repl.slen <= kept && r == block[repl.ofs..repl.ofs + repl.slen]
    ensures repl.Text() == r
  {
    if repl.slen > 0 && repl.data == b.data {
      SamePart(b.data[..], block, kept, repl.ofs, repl.ofs + repl.slen);
    }
  }

  lemma MovedUp(block: seq<byte>, middle: seq<byte>, next: seq<byte>, r: seq<byte>,
                from: nat, to: nat, acc: nat, newlen: nat, kept: nat)
    requires from <= to && to + acc <= newlen < |block| == |middle| == |next|
    requires kept <= from && kept + |r| <= from + acc
    requires middle[from + acc..to + acc] == block[from..to] && middle[to + acc..] == block[to + acc..]
    requires middle[..kept] == block[..kept]
    requires next[..from + acc] == middle[..from + acc - |r|] + r && next[from + acc..] == middle[from + acc..]
    ensures next[from + acc - |r|..newlen] == r + block[from..to] + block[to + acc..newlen]
    ensures next[..kept] == block[..kept]
  {
    var k, m, n := from + acc - |r|, from + acc, to + acc;
    FrontKept(middle, next, k, r, kept);
    EndOfPrefix(next, m, middle[..k], r);
    SliceOfSuffix(next, m, 0, n - m);
    SliceOfSuffix(middle, m, 0, n - m);
    SuffixSlice(next, middle, m, n);
    SliceOfSuffix(next, n, 0, newlen - n);
    SliceOfSuffix(block, n, 0, newlen - n);
    SliceInTwo(next, k, m, newlen);
    SliceInTwo(next, m, n, newlen);
    Assoc(r, block[from..to], block[n..newlen]);
  }

  // The second pass, from the last match to the first: what is right of the
  // current match is final, what is left of it is as it was.
  method PlaceReplacements(b: Bstring, repl: View, flen: nat, d: seq<nat>, total: nat, newlen: nat,
                           ghost s: seq<byte>, ghost start: nat, ghost f: seq<byte>)
    requires b.Valid() && Settled(b, repl, start) && |f| == flen > 0 && flen <= repl.slen
    requires start <= |s| && d == MatchesFrom(s, start, f) + [|s|]
    requires total == Times(|d| - 1, repl.slen - flen) && newlen == |s| + total < b.mlen
    requires b.data[..|s|] == s
    modifies b.data
    ensures b.data[..newlen] == FindReplaced(s, start, f, old(repl.Text()))
  {
    ghost var r := repl.Text();
    ghost var tails := AllTails(s, start, f, r, d);
    PlaceAll(b, repl, flen, d, total, newlen, s, start, r, tails);
    Finished(b.data[..], newlen, s, start, f, r, d);
  }

  // What the replacements make of the text from each entry of the table on.
  ghost predicate Tails(s: seq<byte>, start: nat, r: seq<byte>, flen: nat, d: seq<nat>, tails: seq<seq<byte>>)
  {
    && |tails| == |d| > 0 && start <= d[|d| - 1] == |s| && tails[|d| - 1] == []
    && forall i :: 0 <= i < |d| - 1 ==> TailAt(s, start, r, flen, d, tails, i)
  }

  ghost predicate TailAt(s: seq<byte>, start: nat, r: seq<byte>, flen: nat, d: seq<nat>, tails: seq<seq<byte>>, i: nat)
    requires i + 1 < |d| == |tails|
  {
    && start <= d[i] && d[i] + flen <= d[i + 1] <= |s|
    && tails[i] == r + s[d[i] + flen..d[i + 1]] + tails[i + 1]
  }

  lemma AllTails(s: seq<byte>, start: nat, f: seq<byte>, r: seq<byte>, d: seq<nat>) returns (tails: seq<seq<byte>>)
    requires start <= |s| && |f| > 0 && d == MatchesFrom(s, start, f) + [|s|]
    ensures Tails(s, start, r, |f|, d, tails) && d[0] <= |s| && tails[0] == ReplacedFrom(s, d[0], f, r)
  {
    forall i | 0 <= i < |d| - 1
      ensures d[i] <= |s|
    {
      OneMatch(s, start, f, r, d, i);
    }
    tails := seq(|d|, i requires 0 <= i < |d| => ReplacedFrom(s, d[i], f, r));
    forall i | 0 <= i < |d| - 1
      ensures TailAt(s, start, r, |f|, d, tails, i)
    {
      OneMatch(s, start, f, r, d, i);
    }
    ReplacedNowhere(s, |s|, f, r);
  }

  // The loop over the table, from its end.
  method PlaceAll(b: Bstring, repl: View, flen: nat, d: seq<nat>, total: nat, newlen: nat,
                  ghost s: seq<byte>, ghost start: nat, ghost r: seq<byte>, ghost tails: seq<seq<byte>>)
    requires b.Valid() && Settled(b, repl, start) && 0 < flen <= repl.slen && repl.Text() == r
    requires Tails(s, start, r, flen, d, tails)
    requires total == Times(|d| - 1, repl.slen - flen) && newlen == |s| + total < b.mlen
    requires b.data[..|s|] == s
    modifies b.data
    ensures d[0] <= |s| && d[0] <= newlen && b.data[..d[0]] == s[..d[0]] && b.data[d[0]..newlen] == tails[0]
  {
    var i: nat, acc: nat := |d| - 1, total;
    while i > 0
      invariant 0 <= i < |d| && acc == Times(i, repl.slen - flen)
      invariant start <= d[i] <= |s| && d[i] + acc <= newlen
      invariant b.data[..d[i]] == s[..d[i]] && b.data[d[i] + acc..newlen] == tails[i]
      invariant repl.Text() == r
    {
      i := i - 1;
      acc := PlaceOne(b, repl, flen, d, i, acc, newlen, s, start, r, tails);
    }
  }

  lemma FirstEntry(s: seq<byte>, start: nat, f: seq<byte>, d: seq<nat>)
    requires start <= |s| && |f| > 0 && d == MatchesFrom(s, start, f) + [|s|]
    ensures start <= d[0] <= |s|
    ensures Find(s, start, f) == if d[0] == |s| then BSTR_ERR else d[0]
  {
  }

  // Entry i of the table and the text up to the next entry.
  lemma OneMatch(s: seq<byte>, start: nat, f: seq<byte>, r: seq<byte>, d: seq<nat>, i: nat)
    requires start <= |s| && |f| > 0 && d == MatchesFrom(s, start, f) + [|s|] && i < |d| - 1
    ensures start <= d[i] && d[i] + |f| <= d[i + 1] <= |s|
    ensures ReplacedFrom(s, d[i], f, r) == r + s[d[i] + |f|..d[i + 1]] + ReplacedFrom(s, d[i + 1], f, r)
  {
    EntryFacts(s, start, f, MatchesFrom(s, start, f), d, i);
    ReplacedAtMatch(s, d[i], d[i + 1], f, r);
  }

  lemma EntryFacts(s: seq<byte>, start: nat, f: seq<byte>, m: seq<nat>, d: seq<nat>, i: nat)
    requires start <= |s| && |f| > 0 && m == MatchesFrom(s, start, f) && d == m + [|s|] && i < |m|
    ensures start <= d[i] && d[i] + |f| <= d[i + 1] <= |s| && Find(s, d[i], f) == d[i]
    ensures Find(s, d[i] + |f|, f) == if d[i + 1] == |s| then BSTR_ERR else d[i + 1]
  {
    MatchFacts(s, start, f, i);
    assert d[i] == m[i];
    if i + 1 < |m| {
      MatchFacts(s, start, f, i + 1);
      assert d[i + 1] == m[i + 1];
    }
  }

  // A match at q, and the text from its end to q2, where the next one is.
  lemma ReplacedAtMatch(s: seq<byte>, q: nat, q2: nat, f: seq<byte>, r: seq<byte>)
    requires |f| > 0 && q + |f| <= q2 <= |s| && Find(s, q, f) == q
    requires Find(s, q + |f|, f) == if q2 == |s| then BSTR_ERR else q2
    ensures ReplacedFrom(s, q, f, r) == r + s[q + |f|..q2] + ReplacedFrom(s, q2, f, r)
  {
    ReplacedUpTo(s, q + |f|, q2, f, r);
    Regrouped(ReplacedFrom(s, q, f, r), s[q..q], r, ReplacedFrom(s, q + |f|, f, r),
              s[q + |f|..q2], ReplacedFrom(s, q2, f, r));
  }

  lemma Regrouped(whole: seq<byte>, empty: seq<byte>, a: seq<byte>, rest: seq<byte>, b: seq<byte>, c: seq<byte>)
    requires whole == empty + a + rest && rest == b + c && empty == []
    ensures whole == a + b + c
  {
  }

  // The finished block when the first match has been dealt with.
  lemma Finished(block: seq<byte>, newlen: nat, s: seq<byte>, start: nat, f: seq<byte>, r: seq<byte>, d: seq<nat>)
    requires start <= |s| && |f| > 0 && d == MatchesFrom(s, start, f) + [|s|]
    requires d[0] <= |s| && d[0] <= newlen <= |block|
    requires block[..d[0]] == s[..d[0]] && block[d[0]..newlen] == ReplacedFrom(s, d[0], f, r)
    ensures block[..newlen] == FindReplaced(s, start, f, r)
  {
    FirstEntry(s, start, f, d);
    ReplacedUpTo(s, start, d[0], f, r);
    Halves(block, d[0], newlen);
    Halves(s, start, d[0]);
    Assoc(s[..start], s[start..d[0]], ReplacedFrom(s, d[0], f, r));
  }

  lemma Halves(s: seq<byte>, i: nat, j: nat)
    requires i <= j <= |s|
    ensures s[..j] == s[..i] + s[i..j]
  {
  }

  // One round of the second pass.
  method PlaceOne(b: Bstring, repl: View, flen: nat, d: seq<nat>, i: nat, acc: nat, newlen: nat,
                  ghost s: seq<byte>, ghost start: nat, ghost r: seq<byte>, ghost tails: seq<seq<byte>>)
    returns (next: nat)
    requires b.Valid() && Settled(b, repl, start) && 0 < flen <= repl.slen && repl.Text() == r
    requires i + 1 < |d| == |tails| && TailAt(s, start, r, flen, d, tails, i)
    requires acc == Times(i + 1, repl.slen - flen) && d[i + 1] + acc <= newlen < b.mlen
    requires b.data[..d[i + 1]] == s[..d[i + 1]] && b.data[d[i + 1] + acc..newlen] == tails[i + 1]
    modifies b.data
    ensures next == Times(i, repl.slen - flen) && d[i] + next <= newlen && b.data[..d[i]] == s[..d[i]]
    ensures b.data[d[i] + next..newlen] == tails[i] && repl.Text() == r
  {
    next := PlaceAt(b, repl, d[i], d[i] + flen, d[i + 1], acc, newlen, s, start, tails[i + 1]);
  }

  // The moves of one round: a match at q that ends at from, the next one at to.
  method PlaceAt(b: Bstring, repl: View, q: nat, from: nat, to: nat, acc: nat, newlen: nat,
                 ghost s: seq<byte>, ghost start: nat, ghost rest: seq<byte>) returns (acc': nat)
    requires b.Valid() && Settled(b, repl, start) && start <= q <= from <= to <= |s|
    requires q + repl.slen <= from + acc && to + acc <= newlen < b.mlen
    requires b.data[..to] == s[..to] && b.data[to + acc..newlen] == rest
    modifies b.data
    ensures b.data[..q] == s[..q] && repl.Text() == old(repl.Text())
    ensures q + acc' == from + acc - repl.slen
    ensures b.data[q + acc'..newlen] == old(repl.Text()) + s[from..to] + rest
  {
    ghost var block := b.data[..];
    PrefixSlice(block, s[..to], 0, q);
    PrefixSlice(block, s[..to], from, to);
    PrefixSlice(block, s[..to], 0, start);
    SettledText(b, repl, start, s);
    MoveUp(b, repl, from, to, acc, newlen, q);
    PrefixSlice(b.data[..], s[..q], 0, start);
    SettledText(b, repl, start, s);
    acc' := from + acc - repl.slen - q;
  }

  // The calls on which the source reads a released block: the replacement is
  // longer than the pattern, lies in b before pos, there is something to
  // replace, and the result does not fit the buffer.
  ghost predicate Dangles(b: Bstring, find: View, repl: View, pos: nat)
    requires b.Valid() && find.Valid() && repl.Valid() && pos <= b.slen && find.slen > 0
    reads b, b.data, find.data, repl.data
  {
    && repl.data == b.data && repl.ofs + repl.slen <= pos
    && find.slen < repl.slen && Find(b.Text(), pos, find.Text()) >= 0
    && b.mlen <= |FindReplaced(b.Text(), pos, find.Text(), repl.Text())| + 1
  }

  // Such a call: the first two of six bytes stand for each of the later ones.
  method DanglingCall() returns (b: Bstring, find: View, repl: View)
    ensures b.Valid() && find.Valid() && repl.Valid() && b.slen == 6 && find.slen == 1
    ensures Dangles(b, find, repl, 2)
  {
    b := new Bstring.FromBlk([1, 2, 3, 3, 3, 3]);
    var one := new byte[1](_ => 3);
    find, repl := View(one, 0, 1), View(b.data, 0, 2);
    ghost var s, f, r := b.Text(), find.Text(), repl.Text();
    assert f == [3] && |r| == 2 && b.mlen == 8;
    assert s[2..3] == [3];
    assert Occurs(s, f, 2) && Find(s, 2, f) == 2;
    ReplacedLength(s, 2, f, r);
  }

  // Longer replacements: find all matches, grow once, move from right to left.
  // When stale, the source's behaviour is undefined and the text is not described.
  method ReplaceExpanding(b: Bstring, find: View, repl: View, start: nat) returns (stale: bool)
    requires b.Valid() && start <= b.slen
    requires Settled(b, find, start) && Settled(b, repl, start) && 0 < find.slen < repl.slen
    requires |FindReplaced(b.Text(), start, find.Text(), repl.Text())| + 1 < MAX_SIZE
    modifies b, b.data
    ensures stale == old(Dangles(b, find, repl, start))
    ensures b.Valid() && Resized(old(b.mlen), b.mlen, b.slen)
    ensures !stale ==> b.Terminated()
    ensures !stale ==> b.Text() == FindReplaced(old(b.Text()), start, old(find.Text()), old(repl.Text()))
  {
    ghost var s, f, r := b.Text(), find.Text(), repl.Text();
    var d, acc := MeasureMatches(b, find, repl, start);
    var buffer := b.data;
    b.Reserve(b.slen + acc + 1);
    var newlen := b.slen + acc;
    if repl.data == buffer && b.data != buffer && |d| > 0 {
      b.slen := newlen;
      return true;
    }
    ExpandInto(b, repl, find.slen, d, acc, newlen, s, start, f, r);
    return false;
  }

  method MeasureMatches(b: Bstring, find: View, repl: View, start: nat) returns (d: seq<nat>, acc: nat)
    requires b.Valid() && start <= b.slen && find.Valid() && repl.Valid() && 0 < find.slen < repl.slen
    ensures d == MatchesFrom(b.Text(), start, find.Text()) && acc == Times(|d|, repl.slen - find.slen)
    ensures |FindReplaced(b.Text(), start, find.Text(), repl.Text())| == b.slen + acc
    ensures |d| > 0 <==> Find(b.Text(), start, find.Text()) >= 0
  {
    d, acc := CollectMatches(b, find, start, repl.slen - find.slen);
    ReplacedLength(b.Text(), start, find.Text(), repl.Text());
  }

  // The moves of the expanding case, when the block is large enough.
  method ExpandInto(b: Bstring, repl: View, flen: nat, d: seq<nat>, acc: nat, newlen: nat,
                    ghost s: seq<byte>, ghost start: nat, ghost f: seq<byte>, ghost r: seq<byte>)
    requires b.Valid() && b.Text() == s && start <= |s| && Settled(b, repl, start)
    requires 0 < |f| == flen < repl.slen && d == MatchesFrom(s, start, f)
    requires acc == Times(|d|, repl.slen - flen) && newlen == |s| + acc < b.mlen
    requires |d| > 0 ==> repl.Text() == r
    modifies b`slen, b.data
    ensures b.Valid() && b.Terminated() && b.slen == newlen && b.Text() == FindReplaced(s, start, f, r)
  {
    ghost var r' := repl.Text();
    PlaceReplacements(b, repl, flen, d + [b.slen], acc, newlen, s, start, f);
    if |d| == 0 {
      NothingReplaced(s, start, f, r, r');
    }
    b.SetLength(newlen);
  }

  lemma NothingReplaced(s: seq<byte>, start: nat, f: seq<byte>, r: seq<byte>, r': seq<byte>)
    requires start <= |s| && |f| > 0 && MatchesFrom(s, start, f) == []
    ensures FindReplaced(s, start, f, r) == FindReplaced(s, start, f, r')
  {
  }

  lemma {:induction false} ReplacedLength(s: seq<byte>, pos: nat, f: seq<byte>, r: seq<byte>)
    requires pos <= |s| && 0 < |f| <= |r|
    ensures |ReplacedFrom(s, pos, f, r)| == |s| - pos + Times(|MatchesFrom(s, pos, f)|, |r| - |f|)
    decreases |s| - pos
  {
    var i := Find(s, pos, f);
    if i >= 0 {
      ReplacedLength(s, i + |f|, f, r);
      LengthFromMatch(s, pos, f, r, i);
    } else {
      ReplacedNowhere(s, pos, f, r);
    }
  }

  lemma LengthFromMatch(s: seq<byte>, pos: nat, f: seq<byte>, r: seq<byte>, i: nat)
    requires pos <= |s| && 0 < |f| <= |r| && Find(s, pos, f) == i && i + |f| <= |s|
    requires |ReplacedFrom(s, i + |f|, f, r)| == |s| - (i + |f|) + Times(|MatchesFrom(s, i + |f|, f)|, |r| - |f|)
    ensures |ReplacedFrom(s, pos, f, r)| == |s| - pos + Times(|MatchesFrom(s, pos, f)|, |r| - |f|)
  {
    LengthOfStep(s, pos, f, r, i);
    CountOfStep(s, pos, f, i);
    OneMoreTime(|MatchesFrom(s, i + |f|, f)|, |r| - |f|);
  }

  lemma LengthOfStep(s: seq<byte>, pos: nat, f: seq<byte>, r: seq<byte>, i: nat)
    requires pos <= |s| && |f| > 0 && Find(s, pos, f) == i && i + |f| <= |s|
    ensures |ReplacedFrom(s, pos, f, r)| == i - pos + |r| + |ReplacedFrom(s, i + |f|, f, r)|
  {
    ReplacedStep(s, pos, f, r, i);
  }

  lemma CountOfStep(s: seq<byte>, pos: nat, f: seq<byte>, i: nat)
    requires pos <= |s| && |f| > 0 && Find(s, pos, f) == i && i + |f| <= |s|
    ensures |MatchesFrom(s, pos, f)| == 1 + |MatchesFrom(s, i + |f|, f)|
  {
    MatchesStep(s, pos, f);
  }

  lemma OneMoreTime(n: nat, e: nat)
    ensures Times(n + 1, e) == Times(n, e) + e
  {
  }

  // The source's test whether an argument overlaps the part of b that may be
  // rewritten before it is used for the last time.
  predicate Overlaps(b: Bstring, v: View, pos: int)
    reads b
  {
    v.data == b.data && pos - v.slen < v.ofs < b.slen
  }

  // An argument that overlaps what is still to be searched is copied.
  method Detached(b: Bstring, v: View, pos: nat) returns (w: View)
    requires b.Valid() && v.Valid() && v.slen + 1 < MAX_SIZE
    requires v.data == b.data && v.slen > 0 ==> v.ofs < b.slen
    ensures w.Valid() && w.Text() == v.Text() && Settled(b, w, pos)
    ensures if v.data == b.data && v.ofs + v.slen > pos && v.ofs < b.slen then fresh(w.data) else w == v
  {
    w := v;
    if Overlaps(b, v, pos) {
      var copy := new Bstring.Copy(v);
      w := copy.AsView();
    }
  }

  // The engine once its arguments have been checked.
  method ReplaceAll(b: Bstring, find: View, repl: View, pos: nat) returns (stale: bool)
    requires b.Valid() && find.Valid() && repl.Valid()
    requires find.data == b.data && find.slen > 0 ==> find.ofs < b.slen
    requires repl.data == b.data && repl.slen > 0 ==> repl.ofs < b.slen
    requires find.slen + 1 < MAX_SIZE && repl.slen + 1 < MAX_SIZE
    requires 0 < find.slen && pos + find.slen <= b.slen
    requires |FindReplaced(b.Text(), pos, find.Text(), repl.Text())| + 1 < MAX_SIZE
    modifies b, b.data
    ensures stale == old(Dangles(b, find, repl, pos))
    ensures b.Valid() && Resized(old(b.mlen), b.mlen, b.slen)
    ensures !stale && old(b.Terminated()) ==> b.Terminated()
    ensures !stale ==> b.Text() == FindReplaced(old(b.Text()), pos, old(find.Text()), old(repl.Text()))
  {
    var auxf := Detached(b, find, pos);
    var auxr := Detached(b, repl, pos);
    var delta := auxf.slen - auxr.slen;
    stale := false;
    if delta == 0 {
      ReplaceSameSize(b, auxf, auxr, pos);
    } else if delta > 0 {
      ReplaceShrinking(b, auxf, auxr, pos);
    } else {
      stale := ReplaceExpanding(b, auxf, auxr, pos);
    }
  }

  // findreplaceengine with binstr as the search (bfindreplace). A view of b must not
  // start behind its text. Without a dangling replacement the result is the
  // specification, as if find and repl had been copied first.
  method FindReplaceEngine(b: Bstring, find: View, repl: View, pos: int) returns (ret: int, stale: bool)
    requires b.Valid() && find.Valid() && repl.Valid()
    requires find.data == b.data && find.slen > 0 ==> find.ofs < b.slen
    requires repl.data == b.data && repl.slen > 0 ==> repl.ofs < b.slen
    requires find.slen + 1 < MAX_SIZE && repl.slen + 1 < MAX_SIZE
    requires 0 <= pos <= b.slen && find.slen > 0 ==>
      |FindReplaced(b.Text(), pos, find.Text(), repl.Text())| + 1 < MAX_SIZE
    modifies b, b.data
    ensures b.Valid() && Resized(old(b.mlen), b.mlen, b.slen)
    ensures ret == if pos < 0 || find.slen == 0 then BSTR_ERR else BSTR_OK
    ensures ret == BSTR_ERR || pos > old(b.slen) ==> !stale && b.Text() == old(b.Text())
    ensures ret == BSTR_OK && pos <= old(b.slen) ==> stale == old(Dangles(b, find, repl, pos))
    ensures ret == BSTR_OK && pos <= old(b.slen) && !stale ==>
      (old(b.Terminated()) ==> b.Terminated())
        && b.Text() == FindReplaced(old(b.Text()), pos, old(find.Text()), old(repl.Text()))
  {
    if pos < 0 || find.slen <= 0 {
      return BSTR_ERR, false;
    }
    if pos > b.slen - find.slen {
      if pos <= b.slen {
        assert b.Text() == b.Text()[..pos] + b.Text()[pos..];
      }
      return BSTR_OK, false;
    }
    stale := ReplaceAll(b, find, repl, pos);
    return BSTR_OK, stale;
  }
}

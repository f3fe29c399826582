// Find and replace, seen from splitting and joining.
module Replacing {
  import opened FindReplace
  import opened Joins
  import opened Memory
  import opened Search

  // To replace every occurrence is to split the text at the pattern and to join the
  // pieces with the replacement.
  lemma {:induction false} ReplacingIsJoining(s: seq<byte>, pos: nat, f: seq<byte>, r: seq<byte>)
    requires pos <= |s| && |f| > 0
    ensures |CleanPieces(s, pos, f)| > 0
    ensures ReplacedFrom(s, pos, f, r) == Join(CleanPieces(s, pos, f), r)
    decreases |s| - pos
  {
    var i := Find(s, pos, f);
    if i < 0 {
      ReplacedNowhere(s, pos, f, r);
      OnePiece(s, pos, f);
      JoinOne(s[pos..], r);
    } else {
      ReplacingIsJoining(s, i + |f|, f, r);
      ReplacedStep(s, pos, f, r, i);
      CleanUnfold(s, pos, f, i);
      JoinMore(s[pos..i], CleanPieces(s, i + |f|, f), r);
    }
  }

  lemma OnePiece(s: seq<byte>, pos: nat, f: seq<byte>)
    requires pos <= |s| && |f| > 0 && Find(s, pos, f) < 0
    ensures CleanPieces(s, pos, f) == [s[pos..]] && s[pos..] == s[pos..|s|]
  {
  }

  // The whole text, with what stands before the position left alone.
  lemma FindReplacedIsJoined(s: seq<byte>, pos: nat, f: seq<byte>, r: seq<byte>)
    requires pos <= |s| && |f| > 0
    ensures FindReplaced(s, pos, f, r) == s[..pos] + Join(CleanPieces(s, pos, f), r)
  {
    ReplacingIsJoining(s, pos, f, r);
  }
}

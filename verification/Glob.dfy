/**
 Glob patterns and ':'-separated lists of them, as `hxtest` matches them
 against test names. A range of characters is a string here.
 */
module Globs {
  import opened Scanning

  /** The definition of a match: '*' stands for any run of characters. */
  predicate Matches(pattern: string, target: string)
    decreases |pattern| + |target|
  {
    if pattern == "" then target == ""
    else if pattern[0] == '*' then
      Matches(pattern[1..], target) || (target != "" && Matches(pattern, target[1..]))
    else target != "" && target[0] == pattern[0] && Matches(pattern[1..], target[1..])
  }

  /** A star followed by `rest` matches when `rest` matches some suffix of the target. */
  lemma {:induction false} StarMatchesAnyRun(rest: string, target: string)
    ensures Matches("*" + rest, target) <==> exists k :: 0 <= k <= |target| && Matches(rest, target[k..])
  {
    var p := "*" + rest;
    assert p[1..] == rest && target[0..] == target;
    if target != "" {
      StarMatchesAnyRun(rest, target[1..]);
      forall k | 0 <= k < |target| ensures target[1..][k..] == target[k + 1..] {
      }
      if k :| 0 <= k <= |target| && Matches(rest, target[k..]) {
        assert k > 0 ==> target[1..][k - 1..] == target[k..];
      }
    } else {
      assert forall k :: 0 <= k <= |target| ==> target[k..] == target;
    }
  }

  /** The star may start earlier. */
  lemma StarStartsEarlier(rest: string, target: string, j: nat, k: nat)
    requires j <= k <= |target| && Matches("*" + rest, target[k..])
    ensures Matches("*" + rest, target[j..])
  {
    StarMatchesAnyRun(rest, target[k..]);
    StarMatchesAnyRun(rest, target[j..]);
    var i :| 0 <= i <= |target[k..]| && Matches(rest, target[k..][i..]);
    assert target[k..][i..] == target[j..][k - j + i..];
  }

  predicate Literal(s: string) { forall k :: 0 <= k < |s| ==> s[k] != '*' }

  /** A literal run matches itself and nothing else. */
  lemma {:induction false} LiteralMatches(literal: string, rest: string, target: string)
    requires Literal(literal)
    ensures Matches(literal + rest, target) <==> literal <= target && Matches(rest, target[|literal|..])
  {
    var p := literal + rest;
    if literal == "" {
      assert p == rest && target[0..] == target;
    } else {
      assert p[1..] == literal[1..] + rest;
      if target != "" {
        LiteralMatches(literal[1..], rest, target[1..]);
        assert literal <= target <==> literal[0] == target[0] && literal[1..] <= target[1..] by {
          assert literal == [literal[0]] + literal[1..] && target == [target[0]] + target[1..];
        }
        if literal <= target {
          assert target[1..][|literal[1..]|..] == target[|literal|..];
        }
      }
    }
  }

  // ---- What the greedy matcher knows ----

  /** The last star seen: where its pattern goes on, and the place in the target it is tried at. */
  datatype Star = None | Some(pattern: nat, target: nat)

  /**
   With a star remembered, all that matters is whether the star and what
   follows it match from the remembered place in the target; what was matched
   since then is literal.
   */
  ghost predicate Known(pattern: string, target: string, star: Star, p: nat, t: nat) {
    && p <= |pattern| && t <= |target|
    && match star
       case None =>
         Matches(pattern, target) <==> Matches(pattern[p..], target[t..])
       case Some(sp, st) =>
         && sp <= p && st <= t && p - sp == t - st
         && pattern[sp..p] == target[st..t] && Literal(pattern[sp..p])
         && (Matches(pattern, target) <==> Matches("*" + pattern[sp..], target[st..]))
  }

  lemma KnownStar(pattern: string, target: string, star: Star, p: nat, t: nat)
    requires Known(pattern, target, star, p, t) && p < |pattern| && pattern[p] == '*'
    ensures Known(pattern, target, Some(p + 1, t), p + 1, t)
  {
    hide Matches;
    assert pattern[p..] == "*" + pattern[p + 1..];
    if star.Some? {
      var sp, st := star.pattern, star.target;
      SecondStar(pattern[sp..p], pattern[p + 1..], target[st..]);
      assert pattern[sp..] == pattern[sp..p] + "*" + pattern[p + 1..];
      assert target[st..][..t - st] == target[st..t] && target[st..][t - st..] == target[t..];
    }
  }

  /** Once a literal has matched after a star, a second star makes later places for that literal useless. */
  lemma SecondStar(literal: string, rest: string, target: string)
    requires Literal(literal) && literal <= target
    ensures Matches("*" + (literal + "*" + rest), target) <==> Matches("*" + rest, target[|literal|..])
  {
    hide Matches;
    var q, n := literal + "*" + rest, |literal|;
    StarMatchesAnyRun(q, target);
    assert q == literal + ("*" + rest);
    LiteralMatches(literal, "*" + rest, target);
    assert target[0..] == target;
    if k :| 0 <= k <= |target| && Matches(q, target[k..]) {
      LiteralMatches(literal, "*" + rest, target[k..]);
      assert target[k..][n..] == target[k + n..];
      StarStartsEarlier(rest, target, n, k + n);
    }
  }

  lemma KnownLiteral(pattern: string, target: string, star: Star, p: nat, t: nat)
    requires Known(pattern, target, star, p, t) && p < |pattern| && t < |target|
    requires pattern[p] != '*' && pattern[p] == target[t]
    ensures Known(pattern, target, star, p + 1, t + 1)
  {
    if star.Some? {
      var sp, st := star.pattern, star.target;
      assert pattern[sp..p + 1] == pattern[sp..p] + [pattern[p]];
      assert target[st..t + 1] == target[st..t] + [target[t]];
    }
  }

  lemma KnownEnd(pattern: string, target: string, star: Star, p: nat)
    requires Known(pattern, target, star, p, |target|) && (p == |pattern| || pattern[p] != '*')
    ensures Matches(pattern, target) <==> p == |pattern|
  {
    var t := |target|;
    if star.None? {
      assert target[t..] == "";
    } else {
      hide Matches, Literal;
      var sp, st := star.pattern, star.target;
      assert target[st..] == target[st..t];
      if p == |pattern| {
        assert pattern[sp..] == pattern[sp..p];
        LiteralSuffix(pattern[sp..], target[st..]);
      } else {
        LiteralLonger(pattern, sp, p);
        LiteralTooLong(pattern[sp..p + 1], pattern[p + 1..], target[st..]);
      }
    }
  }

  lemma LiteralLonger(pattern: string, sp: nat, p: nat)
    requires sp <= p < |pattern| && Literal(pattern[sp..p]) && pattern[p] != '*'
    ensures Literal(pattern[sp..p + 1]) && pattern[sp..p + 1] + pattern[p + 1..] == pattern[sp..]
  {
    assert pattern[sp..p + 1] == pattern[sp..p] + [pattern[p]];
  }

  lemma LiteralSuffix(literal: string, target: string)
    requires Literal(literal) && literal == target
    ensures Matches("*" + literal, target)
  {
    hide Matches;
    StarMatchesAnyRun(literal, target);
    LiteralMatches(literal, "", target);
    EmptyMatches(target[|literal|..]);
    assert literal + "" == literal && target[0..] == target;
  }

  lemma LiteralTooLong(literal: string, rest: string, target: string)
    requires Literal(literal) && |target| < |literal|
    ensures !Matches("*" + (literal + rest), target)
  {
    hide Matches;
    StarMatchesAnyRun(literal + rest, target);
    forall k | 0 <= k <= |target| ensures !Matches(literal + rest, target[k..]) {
      LiteralMatches(literal, rest, target[k..]);
    }
  }

  lemma EmptyMatches(s: string)
    ensures Matches("", s) <==> s == ""
  {
  }

  lemma KnownMismatch(pattern: string, target: string, star: Star, p: nat, t: nat)
    requires Known(pattern, target, star, p, t) && t < |target|
    requires p == |pattern| || (pattern[p] != '*' && pattern[p] != target[t])
    ensures star.None? ==> !Matches(pattern, target)
    ensures star.Some? ==> Known(pattern, target, Some(star.pattern, star.target + 1), star.pattern, star.target + 1)
  {
    hide Matches, Literal;
    Differ(pattern[p..], target[t..]);
    if star.Some? {
      var sp, st := star.pattern, star.target;
      MatchedSince(pattern, target, sp, st, p, t);
      StarAdvances(pattern[sp..p], pattern[p..], target[st..]);
      KnownRestart(pattern, target, sp, st + 1);
    }
  }

  /** What has been matched since the star, and what is left. */
  lemma MatchedSince(pattern: string, target: string, sp: nat, st: nat, p: nat, t: nat)
    requires sp <= p <= |pattern| && st <= t < |target| && p - sp == t - st
    ensures pattern[sp..] == pattern[sp..p] + pattern[p..] && |pattern[sp..p]| < |target[st..]|
    ensures target[st..][|pattern[sp..p]|..] == target[t..] && target[st..][1..] == target[st + 1..]
  {
  }

  lemma KnownRestart(pattern: string, target: string, sp: nat, st: nat)
    requires sp <= |pattern| && st <= |target|
    requires Matches(pattern, target) <==> Matches("*" + pattern[sp..], target[st..])
    ensures Known(pattern, target, Some(sp, st), sp, st)
  {
    hide Matches;
    assert pattern[sp..sp] == "" == target[st..st];
  }

  /** A star whose literal is followed by a mismatch here has to take in one character more. */
  lemma StarAdvances(literal: string, rest: string, target: string)
    requires Literal(literal) && |literal| < |target| && !Matches(rest, target[|literal|..])
    ensures Matches("*" + (literal + rest), target) <==> Matches("*" + (literal + rest), target[1..])
  {
    hide Matches, Literal;
    LiteralMatches(literal, rest, target);
    StarGivesUp(literal + rest, target);
  }

  lemma Differ(pattern: string, target: string)
    requires target != "" && (pattern == "" || (pattern[0] != '*' && pattern[0] != target[0]))
    ensures !Matches(pattern, target)
  {
  }

  /** A star that cannot match nothing here can only match one character more. */
  lemma StarGivesUp(rest: string, target: string)
    requires target != "" && !Matches(rest, target)
    ensures Matches("*" + rest, target) <==> Matches("*" + rest, target[1..])
  {
    assert ("*" + rest)[1..] == rest;
  }

  /** `hxtest_pattern_match_`: greedy, with only the last star remembered. */
  method PatternMatch(pattern: string, target: string) returns (matched: bool)
    ensures matched <==> Matches(pattern, target)
  {
    hide Matches, Known;
    var star := None;
    var p: nat, t: nat := 0, 0;
    assert Known(pattern, target, star, 0, 0) by { KnownStart(pattern, target); }
    while true
      invariant p <= |pattern| && t <= |target| && Known(pattern, target, star, p, t)
      invariant star.Some? ==> star.pattern <= p && star.target <= t
      decreases if star.Some? then |pattern| - star.pattern else |pattern| + 1,
        if star.Some? then |target| - star.target else 0, |pattern| - p
    {
      if p != |pattern| && pattern[p] == '*' {
        KnownStar(pattern, target, star, p, t);
        p := p + 1;
        star := Some(p, t);
        continue;
      }
      if t != |target| && p != |pattern| && pattern[p] == target[t] {
        KnownLiteral(pattern, target, star, p, t);
        p, t := p + 1, t + 1;
        continue;
      }
      if t == |target| {
        KnownEnd(pattern, target, star, p);
        return p == |pattern|;
      }
      KnownMismatch(pattern, target, star, p, t);
      if star != None {
        star := Some(star.pattern, star.target + 1);
        p, t := star.pattern, star.target;
        continue;
      }
      return false;
    }
  }

  lemma KnownStart(pattern: string, target: string)
    ensures Known(pattern, target, None, 0, 0)
  {
    assert pattern[0..] == pattern && target[0..] == target;
  }

  // ---- Lists of patterns ----

  /** The pieces of a list between ':' characters. */
  function Split(list: string): (pieces: seq<string>)
    ensures pieces != []
    decreases |list|
  {
    var k := Find(list, ':', 0);
    if k == |list| then [list] else [list[..k]] + Split(list[k + 1..])
  }

  function Joined(pieces: seq<string>): string
    requires pieces != []
  {
    if |pieces| == 1 then pieces[0] else pieces[0] + ":" + Joined(pieces[1..])
  }

  /** Splitting loses nothing, and no piece holds a separator. */
  lemma {:induction false} SplitJoins(list: string)
    ensures Joined(Split(list)) == list
    ensures forall piece :: piece in Split(list) ==> ':' !in piece
    decreases |list|
  {
    var k := Find(list, ':', 0);
    assert list[0..k] == list[..k];
    if k < |list| {
      SplitJoins(list[k + 1..]);
      assert list == list[..k] + ":" + list[k + 1..];
      assert Split(list)[1..] == Split(list[k + 1..]);
    }
  }

  /** Splitting is the only way to write a list as pieces without separators. */
  lemma {:induction false} SplitUnique(pieces: seq<string>)
    requires pieces != [] && forall piece :: piece in pieces ==> ':' !in piece
    ensures Split(Joined(pieces)) == pieces
  {
    hide Find;
    var list, first := Joined(pieces), pieces[0];
    assert first in pieces;
    if |pieces| == 1 {
      assert list[0..|list|] == list;
      FindIs(list, ':', 0, |list|);
    } else {
      var rest := Joined(pieces[1..]);
      SplitUnique(pieces[1..]);
      JoinedParts(first, rest);
      FindIs(list, ':', 0, |first|);
    }
  }

  lemma JoinedParts(first: string, rest: string)
    ensures var list := first + ":" + rest;
      list[..|first|] == list[0..|first|] == first && list[|first|] == ':' && list[|first| + 1..] == rest
  {
  }

  predicate NonEmpty(pieces: seq<string>) { forall k :: 0 <= k < |pieces| ==> pieces[k] != "" }

  predicate ValidList(list: string) { list != "" && NonEmpty(Split(list)) }

  /** A list is valid when all of its pieces are non-empty. */
  lemma ValidPieces(list: string)
    ensures ValidList(list) <==> forall piece :: piece in Split(list) ==> |piece| > 0
  {
    hide Split, NonEmpty;
    NonEmptyPieces(Split(list));
    if list == "" {
      EmptyPiece(list);
    }
  }

  lemma EmptyPiece(list: string)
    requires list == ""
    ensures Split(list)[0] in Split(list) && |Split(list)[0]| == 0
  {
    assert Split(list) == [list];
  }

  lemma NonEmptyPieces(pieces: seq<string>)
    ensures NonEmpty(pieces) <==> forall piece :: piece in pieces ==> |piece| > 0
  {
    if forall piece :: piece in pieces ==> |piece| > 0 {
      forall k | 0 <= k < |pieces| ensures pieces[k] != "" {
        assert pieces[k] in pieces;
      }
    }
  }

  predicate ListMatches(list: string, target: string) {
    exists piece :: piece in Split(list) && Matches(piece, target)
  }

  /** Piece after piece: the first ends at the first separator. */
  lemma SplitStep(list: string, i: nat)
    requires i <= |list|
    ensures var k := Find(list, ':', i);
      && (k == |list| ==> Split(list[i..]) == [list[i..k]])
      && (k < |list| ==> Split(list[i..]) == [list[i..k]] + Split(list[k + 1..]))
  {
    hide Find;
    FindInSuffix(list, ':', i, 0);
    var k := Find(list, ':', i);
    assert list[i..][..k - i] == list[i..k];
    if k < |list| {
      assert list[i..][k - i + 1..] == list[k + 1..];
    } else {
      assert list[i..] == list[i..k];
    }
  }

  ghost predicate ValidFrom(list: string, i: nat)
    requires i <= |list|
  {
    NonEmpty(Split(list[i..]))
  }

  lemma ValidStep(list: string, i: nat)
    requires i <= |list|
    ensures var k := Find(list, ':', i);
      ValidFrom(list, i) <==> i != k && (k == |list| || ValidFrom(list, k + 1))
  {
    hide NonEmpty, Find, Split;
    SplitStep(list, i);
    var k := Find(list, ':', i);
    assert |list[i..k]| == k - i;
    if k == |list| {
      NonEmptyConcat(list[i..k], []);
      assert [list[i..k]] + [] == [list[i..k]];
    } else {
      NonEmptyConcat(list[i..k], Split(list[k + 1..]));
    }
  }

  lemma ValidStart(list: string)
    requires list != ""
    ensures ValidList(list) <==> ValidFrom(list, 0)
  {
    assert list[0..] == list;
  }

  lemma NonEmptyConcat(first: string, rest: seq<string>)
    ensures NonEmpty([first] + rest) <==> |first| > 0 && NonEmpty(rest)
    ensures NonEmpty([])
  {
    var all := [first] + rest;
    assert all[0] == first;
    if NonEmpty(all) {
      forall k | 0 <= k < |rest| ensures rest[k] != "" {
        assert all[k + 1] == rest[k];
      }
    }
  }

  ghost predicate MatchesFrom(list: string, i: nat, target: string)
    requires i <= |list|
  {
    exists piece :: piece in Split(list[i..]) && Matches(piece, target)
  }

  lemma MatchesStep(list: string, i: nat, target: string)
    requires i <= |list|
    ensures var k := Find(list, ':', i);
      MatchesFrom(list, i, target) <==> Matches(list[i..k], target) || (k < |list| && MatchesFrom(list, k + 1, target))
    ensures i == 0 ==> (ListMatches(list, target) <==> MatchesFrom(list, 0, target))
  {
    hide Split, Matches;
    SplitStep(list, i);
    var k := Find(list, ':', i);
    assert list[i..k] in Split(list[i..]);
    if k < |list| {
      forall piece | piece in Split(list[k + 1..]) ensures piece in Split(list[i..]) {
      }
    }
    assert list[0..] == list;
  }

  /** `hxtest_pattern_list_valid_`. */
  method PatternListValid(list: string) returns (valid: bool)
    ensures valid <==> ValidList(list)
  {
    hide ValidFrom;
    if list == "" {
      return false;
    }
    var pattern := 0;
    ValidStart(list);
    while true
      invariant pattern <= |list| && (ValidList(list) <==> ValidFrom(list, pattern))
      decreases |list| - pattern
    {
      var patternEnd := MemChr(list, ':', pattern);
      ValidStep(list, pattern);
      if pattern == patternEnd {
        return false;
      }
      if patternEnd == |list| {
        return true;
      }
      pattern := patternEnd + 1;
    }
  }

  /** `hxtest_pattern_list_match_`. */
  method PatternListMatch(list: string, target: string) returns (matched: bool)
    ensures matched <==> ListMatches(list, target)
  {
    hide MatchesFrom, Matches;
    var pattern := 0;
    MatchesStep(list, 0, target);
    while true
      invariant pattern <= |list| && (ListMatches(list, target) <==> MatchesFrom(list, pattern, target))
      decreases |list| - pattern
    {
      var patternEnd := MemChr(list, ':', pattern);
      MatchesStep(list, pattern, target);
      matched := PatternMatch(list[pattern..patternEnd], target);
      if matched {
        return true;
      }
      if patternEnd == |list| {
        return false;
      }
      pattern := patternEnd + 1;
    }
  }
}

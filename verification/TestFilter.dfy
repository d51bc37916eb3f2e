/**
 `hxtest_::filter_`: compacts an array of test cases in place, keeping those
 that a Google Test style filter string selects.
 */
module TestFilters {
  import opened Order
  import opened Globs
  import opened Scanning
  import opened Settings

  datatype TestCase = TestCase(suite: string, name: string)

  /** The name a test is selected by; it has to fit the line buffer. */
  function FullName(test: TestCase): string { test.suite + "." + test.name }

  /** What precedes the first dash. */
  function Positive(filter: string): string { filter[..Find(filter, '-', 0)] }

  predicate HasNegative(filter: string) { Find(filter, '-', 0) < |filter| }

  /** What follows the first dash. */
  function Negative(filter: string): string
    requires HasNegative(filter)
  {
    filter[Find(filter, '-', 0) + 1..]
  }

  predicate WellFormed(filter: string) {
    && (Positive(filter) == "" || ValidList(Positive(filter)))
    && (HasNegative(filter) ==> ValidList(Negative(filter)))
  }

  /** Matches some positive pattern, or there is none, and no negative one. */
  predicate Selects(filter: string, test: TestCase) {
    && (Positive(filter) == "" || ListMatches(Positive(filter), FullName(test)))
    && !(HasNegative(filter) && ListMatches(Negative(filter), FullName(test)))
  }

  // ---- What a filter string says ----

  /** The parts of a filter that is written with a dash, and of one without. */
  lemma Parts(positive: string, rest: string)
    requires '-' !in positive && (rest == "" || rest[0] == '-')
    ensures Positive(positive + rest) == positive && (HasNegative(positive + rest) <==> rest != "")
    ensures rest != "" ==> Negative(positive + rest) == rest[1..]
  {
    hide Find;
    var filter := positive + rest;
    assert filter[0..|positive|] == positive;
    FindIs(filter, '-', 0, |positive|);
    assert filter[..|positive|] == positive;
    if rest != "" {
      assert filter[|positive| + 1..] == rest[1..];
    }
  }

  /** `positive-negative`: no negative pattern, and some positive one unless there is none. */
  lemma SelectsWithNegative(positive: string, negative: string, test: TestCase)
    requires '-' !in positive
    ensures var filter, target := positive + "-" + negative, test.suite + "." + test.name;
      Selects(filter, test) <==>
        (forall piece :: piece in Split(negative) ==> !Matches(piece, target)) &&
        (positive == "" || exists piece :: piece in Split(positive) && Matches(piece, target))
    ensures WellFormed(positive + "-" + negative) <==>
      (positive == "" || forall piece :: piece in Split(positive) ==> |piece| > 0) && forall piece :: piece in Split(negative) ==> |piece| > 0
  {
    hide Matches, Split, Positive, Negative, HasNegative;
    assert positive + "-" + negative == positive + ("-" + negative);
    assert ("-" + negative)[1..] == negative;
    Parts(positive, "-" + negative);
    ValidPieces(positive);
    ValidPieces(negative);
  }

  /** A filter without a dash: some pattern, unless there is none. */
  lemma SelectsWithoutNegative(positive: string, test: TestCase)
    requires '-' !in positive
    ensures var target := test.suite + "." + test.name;
      Selects(positive, test) <==> positive == "" || exists piece :: piece in Split(positive) && Matches(piece, target)
    ensures WellFormed(positive) <==> positive == "" || forall piece :: piece in Split(positive) ==> |piece| > 0
  {
    hide Matches, Split, Positive, Negative, HasNegative;
    assert positive + "" == positive;
    Parts(positive, "");
    ValidPieces(positive);
  }

  predicate Plain(s: string) { forall c :: c in s ==> c !in ".-:*" }

  /** The name of a test, written out, selects that test and no other. */
  lemma NameSelects(suite: string, name: string, test: TestCase)
    requires Plain(suite) && Plain(name)
    ensures WellFormed(suite + "." + name)
    ensures Selects(suite + "." + name, test) <==> test == TestCase(suite, name)
  {
    hide Matches, Split, Selects, WellFormed;
    var filter, target := suite + "." + name, test.suite + "." + test.name;
    SelectsWithoutNegative(filter, test);
    assert Joined([filter]) == filter;
    SplitUnique([filter]);
    assert filter + "" == filter && filter != "";
    assert Literal(filter) by {
      assert forall k :: 0 <= k < |filter| ==> filter[k] in suite || filter[k] == '.' || filter[k] in name;
    }
    LiteralMatches(filter, "", target);
    EmptyMatches(if filter <= target then target[|filter|..] else "");
    if filter == target {
      OneDot(suite, name, test.suite, test.name);
    } else if filter <= target {
      assert target == filter + target[|filter|..];
    }
  }

  /** Where the only dot is. */
  lemma OneDot(a: string, b: string, c: string, d: string)
    requires a + "." + b == c + "." + d && '.' !in a && '.' !in b
    ensures a == c && b == d
  {
    var s := a + "." + b;
    forall i | 0 <= i < |a| ensures s[i] != '.' {
      assert s[i] == a[i] && a[i] in a;
    }
    forall i | |a| < i < |s| ensures s[i] != '.' {
      assert s[i] == b[i - |a| - 1] && s[i] in b;
    }
    assert s[|c|] == '.';
    assert s[..|a|] == a && s[..|c|] == c && s[|a| + 1..] == b && s[|c| + 1..] == d;
  }

  function Selector(filter: string): TestCase -> bool { test => Selects(filter, test) }

  ghost function Selected(filter: string, tests: seq<TestCase>, lo: nat, hi: nat): multiset<TestCase>
    requires lo <= hi <= |tests|
  {
    multiset(Filter(Selector(filter), tests[lo..hi]))
  }

  /** Overwriting a rejected test with the last of the range, which then shrinks. */
  lemma RejectKeepsSelected(filter: string, tests: seq<TestCase>, lo: nat, it: nat, hi: nat)
    requires lo <= it < hi <= |tests| && !Selects(filter, tests[it])
    ensures Selected(filter, tests[it := tests[hi - 1]], lo, hi - 1) == Selected(filter, tests, lo, hi)
  {
    hide Filter, Selects;
    var p, after := Selector(filter), tests[it := tests[hi - 1]];
    var s, t := tests[lo..hi], after[lo..hi - 1];
    ShrunkMultiset(s, it - lo, t);
    forall x ensures multiset(Filter(p, s))[x] == multiset(Filter(p, t))[x] {
      FilterMultiset(p, s, x);
      FilterMultiset(p, t, x);
    }
  }

  lemma ShrunkMultiset(s: seq<TestCase>, i: nat, t: seq<TestCase>)
    requires i < |s| && |t| == |s| - 1
    requires forall k :: 0 <= k < |t| ==> t[k] == if k == i then s[|s| - 1] else s[k]
    ensures multiset(s) == multiset(t) + multiset{s[i]}
  {
    var n := |s| - 1;
    assert s == s[..n] + [s[n]];
    if i < n {
      assert t == s[..n][i := s[n]];
    } else {
      assert t == s[..n];
    }
  }

  lemma NoneSelected(filter: string, tests: seq<TestCase>, lo: nat, hi: nat)
    requires lo <= hi <= |tests|
    ensures |Selected(filter, tests, lo, hi)| == 0 <==> forall k :: lo <= k < hi ==> !Selects(filter, tests[k])
  {
    hide Filter, Selects;
    var s, p := tests[lo..hi], Selector(filter);
    if |Selected(filter, tests, lo, hi)| == 0 {
      forall k | lo <= k < hi ensures !Selects(filter, tests[k]) {
        FilterMember(p, s, s[k - lo]);
        assert s[k - lo] in s && s[k - lo] !in multiset(Filter(p, s));
      }
    } else {
      var x := Filter(p, s)[0];
      FilterMember(p, s, x);
    }
  }

  /** What the loop asks of one test. */
  method MatchTest(ghost filter: string, positive: string, negated: bool, negative: string, test: TestCase) returns (selected: bool)
    requires |FullName(test)| < MAX_LINE
    requires positive == Positive(filter) && negated == HasNegative(filter)
    requires negated ==> negative == Negative(filter)
    ensures selected == Selects(filter, test)
  {
    hide ListMatches, Find, FullName;
    var target := FullName(test);
    var positiveMatch := positive == "";
    if !positiveMatch {
      positiveMatch := PatternListMatch(positive, target);
    }
    var negativeMatch := false;
    if negated {
      negativeMatch := PatternListMatch(negative, target);
    }
    return positiveMatch && !negativeMatch;
  }

  /** The filter string taken apart. */
  method ParseFilter(filter: string) returns (valid: bool, positive: string, negated: bool, negative: string)
    ensures valid == WellFormed(filter)
    ensures positive == Positive(filter) && negated == HasNegative(filter)
    ensures negated ==> negative == Negative(filter)
  {
    hide ValidList, Find;
    var dash := MemChr(filter, '-', 0);
    negated := dash < |filter|;
    positive := filter[..dash];
    negative := if negated then filter[dash + 1..] else "";
    var positiveIsValid := positive == "";
    if !positiveIsValid {
      positiveIsValid := PatternListValid(positive);
    }
    var negativeIsValid := false;
    if negated {
      negativeIsValid := PatternListValid(negative);
    }
    valid := positiveIsValid && (!negated || negativeIsValid);
  }

  method FilterTests(filter: string, a: array<TestCase>, begin: nat, end: nat) returns (newEnd: nat)
    requires begin <= end <= a.Length
    requires WellFormed(filter) ==> forall k :: begin <= k < end ==> |a[k].suite| + 1 + |a[k].name| < MAX_LINE
    modifies a
    ensures begin <= newEnd <= end
    ensures !WellFormed(filter) ==> newEnd == begin && a[..] == old(a[..])
    ensures WellFormed(filter) ==> multiset(a[begin..newEnd]) == Selected(filter, old(a[..]), begin, end)
    ensures WellFormed(filter) ==> forall x ::
      multiset(a[begin..newEnd])[x] == if Selects(filter, x) then multiset(old(a[begin..end]))[x] else 0
    ensures newEnd == begin <==> !WellFormed(filter) || forall k :: begin <= k < end ==> !Selects(filter, old(a[k]))
    ensures forall k :: 0 <= k < a.Length && !(begin <= k < end) ==> a[k] == old(a[k])
  {
    hide Filter, Selects, Selected, WellFormed, Positive, Negative, HasNegative;
    ghost var was := a[..];
    var valid, positive, negated, negative := ParseFilter(filter);
    if !valid {
      return begin;
    }
    var it := begin;
    newEnd := end;
    while it != newEnd
      invariant begin <= it <= newEnd <= end
      invariant forall k :: begin <= k < it ==> Selects(filter, a[k])
      invariant forall k :: begin <= k < newEnd ==> |FullName(a[k])| < MAX_LINE
      invariant Selected(filter, a[..], begin, newEnd) == Selected(filter, was, begin, end)
      invariant forall k :: 0 <= k < a.Length && !(begin <= k < end) ==> a[k] == was[k]
      decreases newEnd - it
    {
      var selected := MatchTest(filter, positive, negated, negative, a[it]);
      if !selected {
        ghost var before := a[..];
        RejectKeepsSelected(filter, before, begin, it, newEnd);
        newEnd := newEnd - 1;
        a[it] := a[newEnd];
        assert a[..] == before[it := before[newEnd]];
        continue;
      }
      it := it + 1;
    }
    SelectedCounts(filter, was, begin, end);
    assert was[begin..end] == old(a[begin..end]);
    SelectedPrefix(filter, a[..], begin, newEnd);
    assert a[..][begin..newEnd] == a[begin..newEnd];
    NoneSelected(filter, was, begin, end);
  }

  lemma SelectedCounts(filter: string, tests: seq<TestCase>, lo: nat, hi: nat)
    requires lo <= hi <= |tests|
    ensures forall x :: Selected(filter, tests, lo, hi)[x] == if Selects(filter, x) then multiset(tests[lo..hi])[x] else 0
  {
    hide Selects, Filter;
    forall x ensures Selected(filter, tests, lo, hi)[x] == if Selects(filter, x) then multiset(tests[lo..hi])[x] else 0 {
      FilterMultiset(Selector(filter), tests[lo..hi], x);
    }
  }

  lemma SelectedPrefix(filter: string, tests: seq<TestCase>, lo: nat, hi: nat)
    requires lo <= hi <= |tests| && forall k :: lo <= k < hi ==> Selects(filter, tests[k])
    ensures Selected(filter, tests, lo, hi) == multiset(tests[lo..hi])
    ensures |Selected(filter, tests, lo, hi)| == hi - lo
  {
    hide Selects;
    FilterAll(Selector(filter), tests[lo..hi]);
  }
}

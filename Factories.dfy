/** `CharParserMatchableFactory`: a set of parsers that a token may start
  * with, a first-character pre-filter over them, and `createParser`, which
  * hands out a new copy of the parser, or of a `Filter` over all of them.
  *
  * A factory is built once and never changed afterwards, so it is a value;
  * the loops that gather the first characters and the predicates are
  * methods proved against functions of the parsers. */
module Factories {
  import opened Text
  import opened Conditions
  import opened Filters

  /** A parser as the factory sees it: its configuration, the first
    * characters it reports (`getFirstChars()`, none when it reports null)
    * and its first-character matcher (`getFirstCharMatcher()`). */
  datatype Matchable = Matchable(cond: Cond, firstChars: Option<seq<char>>, firstCharMatcher: char -> bool)

  /** The fields of a factory: whether its tokens may hold nested tokens, the
    * first-character predicates, the parsers, and the condition that
    * `createParser` copies. */
  datatype Factory = Factory(compound: bool, firstCharConds: seq<char -> bool>, conditions: seq<Cond>, conditionSet: Cond)

  /** The number of distinct first characters the matchable constructor
    * still merges into one predicate. */
  const MaxFirstChars := 200

  /** Below this many distinct first characters a plain list is searched. */
  const ListLimit := 20

  predicate NoDuplicates(s: seq<char>) {
    forall i, j :: 0 <= i < j < |s| ==> s[i] != s[j]
  }

  predicate AllHaveFirstChars(parsers: seq<Matchable>) {
    forall k :: 0 <= k < |parsers| ==> parsers[k].firstChars.Some?
  }

  /** `acc` followed by the characters of `chars` it does not hold yet, in
    * order. */
  function AddDistinct(acc: seq<char>, chars: seq<char>): seq<char>
    decreases |chars|
  {
    if |chars| == 0 then acc
    else
      var a := AddDistinct(acc, chars[..|chars| - 1]);
      if chars[|chars| - 1] in a then a else a + [chars[|chars| - 1]]
  }

  /** The distinct first characters of all the parsers, in the order they
    * are first reported. */
  function Gathered(parsers: seq<Matchable>): seq<char>
    requires AllHaveFirstChars(parsers)
    decreases |parsers|
  {
    if |parsers| == 0 then []
    else AddDistinct(Gathered(parsers[..|parsers| - 1]), parsers[|parsers| - 1].firstChars.value)
  }

  /** Adding distinct characters keeps what was there, adds no duplicate and
    * holds exactly the characters of both. */
  lemma {:induction false} AddDistinctSpec(acc: seq<char>, chars: seq<char>)
    requires NoDuplicates(acc)
    ensures var r := AddDistinct(acc, chars);
            NoDuplicates(r) && |acc| <= |r| && r[..|acc|] == acc &&
            forall ch :: ch in r <==> ch in acc || ch in chars
    decreases |chars|
  {
    if |chars| > 0 {
      var init := chars[..|chars| - 1];
      AddDistinctSpec(acc, init);
      var a := AddDistinct(acc, init);
      assert chars == init + [chars[|chars| - 1]];
      if chars[|chars| - 1] !in a {
        var r := a + [chars[|chars| - 1]];
        assert r[..|acc|] == a[..|acc|];
      }
    }
  }

  /** The gathered list has no duplicates and holds exactly the first
    * characters of every parser. */
  lemma {:induction false} GatheredSpec(parsers: seq<Matchable>)
    requires AllHaveFirstChars(parsers)
    ensures NoDuplicates(Gathered(parsers))
    ensures forall ch :: ch in Gathered(parsers) <==>
              exists k :: 0 <= k < |parsers| && ch in parsers[k].firstChars.value
    decreases |parsers|
  {
    if |parsers| > 0 {
      var init := parsers[..|parsers| - 1];
      assert AllHaveFirstChars(init);
      GatheredSpec(init);
      AddDistinctSpec(Gathered(init), parsers[|parsers| - 1].firstChars.value);
      forall ch ensures ch in Gathered(parsers) <==> exists k :: 0 <= k < |parsers| && ch in parsers[k].firstChars.value {
        if ch in Gathered(parsers) && ch in Gathered(init) {
          var k :| 0 <= k < |init| && ch in init[k].firstChars.value;
          assert parsers[k] == init[k];
        }
        if exists k :: 0 <= k < |parsers| && ch in parsers[k].firstChars.value {
          var k :| 0 <= k < |parsers| && ch in parsers[k].firstChars.value;
          if k < |init| {
            assert parsers[k] == init[k];
          }
        }
      }
    }
  }

  /** The first loop: whether every parser reports its first characters;
    * stops at the first that does not. */
  method CheckFirstChars(parsers: seq<Matchable>) returns (all: bool)
    ensures all <==> AllHaveFirstChars(parsers)
  {
    all := true;
    var i := 0;
    while i < |parsers|
      invariant 0 <= i <= |parsers|
      invariant forall k :: 0 <= k < i ==> parsers[k].firstChars.Some?
    {
      if parsers[i].firstChars.None? {
        all := false;
        return;
      }
      i := i + 1;
    }
  }

  /** The nested loop gathering the distinct first characters. */
  method GatherFirstChars(parsers: seq<Matchable>) returns (all: seq<char>)
    requires AllHaveFirstChars(parsers)
    ensures all == Gathered(parsers)
  {
    all := [];
    var i := 0;
    while i < |parsers|
      invariant 0 <= i <= |parsers|
      invariant AllHaveFirstChars(parsers[..i]) && all == Gathered(parsers[..i])
    {
      var chars := parsers[i].firstChars.value;
      ghost var before := all;
      var j := 0;
      while j < |chars|
        invariant 0 <= j <= |chars|
        invariant all == AddDistinct(before, chars[..j])
      {
        assert chars[..j + 1][..j] == chars[..j];
        if chars[j] !in all {
          all := all + [chars[j]];
        }
        j := j + 1;
      }
      assert chars[..j] == chars;
      assert parsers[..i + 1][..i] == parsers[..i];
      i := i + 1;
    }
    assert parsers[..i] == parsers;
  }

  /** `getFirstCharMatchers`: every parser's own matcher, in order. */
  method FirstCharMatchers(parsers: seq<Matchable>) returns (preds: seq<char -> bool>)
    ensures |preds| == |parsers|
    ensures forall k :: 0 <= k < |parsers| ==> preds[k] == parsers[k].firstCharMatcher
  {
    preds := [];
    var i := 0;
    while i < |parsers|
      invariant 0 <= i <= |parsers| && |preds| == i
      invariant forall k :: 0 <= k < i ==> preds[k] == parsers[k].firstCharMatcher
    {
      preds := preds + [parsers[i].firstCharMatcher];
      i := i + 1;
    }
  }

  /** One predicate over the gathered first characters is built exactly when
    * every parser reports them and there are fewer than `ListLimit` of them
    * or at most `maxFirstChars`. */
  predicate Merged(parsers: seq<Matchable>, maxFirstChars: int) {
    AllHaveFirstChars(parsers) && (|Gathered(parsers)| < ListLimit || |Gathered(parsers)| <= maxFirstChars)
  }

  /** `getOrCreateFirstCharPredicates`: one predicate that holds exactly for
    * the gathered first characters (one comparison, two comparisons, a list
    * search or a sorted-list search, by count), or, when some parser reports
    * none or there are too many, one matcher per parser. */
  method FirstCharPredicates(parsers: seq<Matchable>, maxFirstChars: int) returns (preds: seq<char -> bool>)
    ensures Merged(parsers, maxFirstChars) ==>
              |preds| == 1 && forall ch :: preds[0](ch) <==> ch in Gathered(parsers)
    ensures !Merged(parsers, maxFirstChars) ==>
              |preds| == |parsers| && forall k :: 0 <= k < |parsers| ==> preds[k] == parsers[k].firstCharMatcher
  {
    var allHave := CheckFirstChars(parsers);
    if !allHave {
      preds := FirstCharMatchers(parsers);
      return;
    }
    var all := GatherFirstChars(parsers);
    var count := |all|;
    var matcher: char -> bool;
    if count == 1 {
      var ch1 := all[0];
      matcher := ch => ch1 == ch;
      assert forall ch :: matcher(ch) <==> ch in all;
    } else if count == 2 {
      var ch1, ch2 := all[0], all[1];
      matcher := ch => ch1 == ch || ch2 == ch;
      assert forall ch :: ch in all <==> ch == all[0] || ch == all[1];
    } else if count < ListLimit {
      matcher := ch => ch in all;
    } else if count <= maxFirstChars {
      matcher := ch => ch in all;
    } else {
      preds := FirstCharMatchers(parsers);
      return;
    }
    preds := [matcher];
  }

  /** The predicates of a factory always number at least one: with no
    * parser the merged predicate is built. */
  lemma PredicatesNonEmpty(parsers: seq<Matchable>, maxFirstChars: int, preds: seq<char -> bool>)
    requires Merged(parsers, maxFirstChars) ==> |preds| == 1
    requires !Merged(parsers, maxFirstChars) ==> |preds| == |parsers|
    ensures |preds| >= 1
  {
    if |parsers| == 0 {
      assert AllHaveFirstChars(parsers) && Gathered(parsers) == [];
    }
  }

  /** The constructor: one parser is used as it is, several are wrapped in
    * a `Filter` over all of them. */
  method NewFactory(compound: bool, firstCharPredicates: seq<char -> bool>, parsers: seq<Cond>) returns (f: Factory)
    ensures f.compound == compound && f.firstCharConds == firstCharPredicates && f.conditions == parsers
    ensures |parsers| == 1 ==> f.conditionSet == parsers[0]
    ensures |parsers| != 1 ==> f.conditionSet == FilterCond(Filter, parsers)
  {
    if |parsers| == 1 {
      f := Factory(compound, firstCharPredicates, [parsers[0]], parsers[0]);
    } else {
      var conds: seq<Cond> := [];
      var i := 0;
      while i < |parsers|
        invariant 0 <= i <= |parsers| && conds == parsers[..i]
      {
        conds := conds + [parsers[i]];
        i := i + 1;
      }
      assert conds == parsers;
      f := Factory(compound, firstCharPredicates, conds, FilterCond(Filter, conds));
    }
  }

  function Conds(parsers: seq<Matchable>): (r: seq<Cond>)
    ensures |r| == |parsers| && forall k :: 0 <= k < |parsers| ==> r[k] == parsers[k].cond
  {
    seq(|parsers|, k requires 0 <= k < |parsers| => parsers[k].cond)
  }

  /** The factory's pre-filter holds for `ch`. */
  predicate Matches(f: Factory, ch: char) {
    exists k :: 0 <= k < |f.firstCharConds| && f.firstCharConds[k](ch)
  }

  /** Some parser reports `ch` among its first characters. */
  predicate Reported(parsers: seq<Matchable>, ch: char)
    requires AllHaveFirstChars(parsers)
  {
    exists k :: 0 <= k < |parsers| && ch in parsers[k].firstChars.value
  }

  /** Some parser's own first-character matcher accepts `ch`. */
  predicate SomeMatcher(parsers: seq<Matchable>, ch: char) {
    exists k :: 0 <= k < |parsers| && parsers[k].firstCharMatcher(ch)
  }

  /** The constructor from matchable parsers: the predicates are built with
    * at most `MaxFirstChars` merged first characters. */
  method NewMatchableFactory(compound: bool, parsers: seq<Matchable>) returns (f: Factory)
    ensures f.compound == compound && f.conditions == Conds(parsers) && |f.firstCharConds| >= 1
    ensures |parsers| == 1 ==> f.conditionSet == parsers[0].cond
    ensures |parsers| != 1 ==> f.conditionSet == FilterCond(Filter, Conds(parsers))
    ensures forall ch :: Matches(f, ch) <==>
              if Merged(parsers, MaxFirstChars) then Reported(parsers, ch) else SomeMatcher(parsers, ch)
  {
    var preds := FirstCharPredicates(parsers, MaxFirstChars);
    PredicatesNonEmpty(parsers, MaxFirstChars, preds);
    f := NewFactory(compound, preds, Conds(parsers));
    if Merged(parsers, MaxFirstChars) {
      GatheredSpec(parsers);
      assert forall ch :: Matches(f, ch) <==> preds[0](ch);
    }
  }

  /** `isMatch(ch, buf)`: whether some first-character predicate accepts
    * `ch`; the first one is tried before the loop over the others. */
  method IsMatch(f: Factory, ch: char) returns (b: bool)
    requires |f.firstCharConds| > 0
    ensures b <==> Matches(f, ch)
  {
    var charConds := f.firstCharConds;
    if charConds[0](ch) {
      return true;
    }
    var i := 1;
    while i < |charConds|
      invariant 1 <= i <= |charConds|
      invariant forall k :: 0 <= k < i ==> !charConds[k](ch)
    {
      if charConds[i](ch) {
        return true;
      }
      i := i + 1;
    }
    return false;
  }

  /** `createParser()`: a new copy of the factory's condition, sharing no
    * progress with any earlier copy. */
  function CreateParser(f: Factory): (n: Node)
    ensures Wf(f.conditionSet, n)
  {
    Fresh(f.conditionSet)
  }

  /** A factory over several parsers hands out a `Filter` whose bag holds one
    * new copy of every parser, in order, none of them complete or failed. */
  lemma CreateParserCopiesAll(f: Factory)
    requires |f.conditions| != 1 && f.conditionSet == FilterCond(Filter, f.conditions)
    ensures var n := CreateParser(f);
            n.FilterNode? && |n.filter.bag| == |f.conditions| && n.filter.acceptedCount == 0 &&
            !IsComplete(n) && !IsFailed(n) &&
            forall k :: 0 <= k < |f.conditions| ==> n.filter.bag[k] == Member(k, Fresh(f.conditions[k]))
  {
    FreshFilter(f.conditionSet);
  }
}

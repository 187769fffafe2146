/** What `Filter` and `EndFilter` do with their bag of candidate conditions:
  * `updateMatches` keeps exactly the candidates that have not failed and
  * accept the character, and its found code says whether any survived and
  * whether a survivor is complete. */
module Filters {
  import opened Text
  import opened Conditions
  import CharConditions

  /** Member `m` survives `ch`: it has not failed and accepts the character. */
  predicate Survives(c: Cond, m: Member, ch: char, cur: Cursor)
    requires c.FilterCond? && ValidCond(c) && m.idx < |c.conds| && Wf(c.conds[m.idx], m.node)
  {
    !IsFailed(m.node) && Accept(c.conds[m.idx], m.node, ch, cur).accepted
  }

  /** Member `m` after it took `ch`. */
  function Advanced(c: Cond, m: Member, ch: char, cur: Cursor): (r: Member)
    requires c.FilterCond? && ValidCond(c) && m.idx < |c.conds| && Wf(c.conds[m.idx], m.node)
    ensures r.idx == m.idx && Wf(c.conds[m.idx], r.node)
  {
    Member(m.idx, Accept(c.conds[m.idx], m.node, ch, cur).node)
  }

  /** The survivors of `bag`, in bag order, each with its new progress. */
  function Survivors(c: Cond, bag: seq<Member>, ch: char, cur: Cursor): (r: seq<Member>)
    requires c.FilterCond? && ValidCond(c) && MembersWf(c, bag)
    ensures |r| <= |bag|
    decreases |bag|
  {
    if bag == [] then []
    else
      var last := bag[|bag| - 1];
      assert last in bag;
      assert MembersWf(c, bag[..|bag| - 1]) by {
        forall m | m in bag[..|bag| - 1] ensures m in bag {
        }
      }
      Survivors(c, bag[..|bag| - 1], ch, cur) + (if Survives(c, last, ch, cur) then [Advanced(c, last, ch, cur)] else [])
  }

  /** A survivor is exactly an old member that survives, advanced. */
  lemma {:induction false} SurvivorsMember(c: Cond, bag: seq<Member>, ch: char, cur: Cursor, x: Member)
    requires c.FilterCond? && ValidCond(c) && MembersWf(c, bag)
    ensures x in Survivors(c, bag, ch, cur) <==>
            exists m :: m in bag && Survives(c, m, ch, cur) && x == Advanced(c, m, ch, cur)
    decreases |bag|
  {
    if bag != [] {
      var init := bag[..|bag| - 1];
      var last := bag[|bag| - 1];
      assert bag == init + [last];
      assert MembersWf(c, init) by {
        forall m | m in init ensures m in bag {
        }
      }
      SurvivorsMember(c, init, ch, cur, x);
      if x in Survivors(c, bag, ch, cur) && x !in Survivors(c, init, ch, cur) {
        assert last in bag && Survives(c, last, ch, cur) && x == Advanced(c, last, ch, cur);
      }
      if exists m :: m in bag && Survives(c, m, ch, cur) && x == Advanced(c, m, ch, cur) {
        var m :| m in bag && Survives(c, m, ch, cur) && x == Advanced(c, m, ch, cur);
        if m != last {
          assert m in init;
        }
      }
    }
  }

  /** Some member of `kept` is complete. */
  ghost predicate HasComplete(kept: seq<Member>) {
    exists x :: x in kept && IsComplete(x.node)
  }

  lemma HasCompleteSnoc(kept: seq<Member>, x: Member)
    ensures HasComplete(kept + [x]) <==> HasComplete(kept) || IsComplete(x.node)
  {
    if IsComplete(x.node) {
      assert x in kept + [x];
    }
    if HasComplete(kept) {
      var y :| y in kept && IsComplete(y.node);
      assert y in kept + [y] && y in kept + [x];
    }
  }

  /** The found code the loop should end with, having started from `found`
    * and met the survivors `kept`. */
  ghost function Combine(found: nat, kept: seq<Member>): nat {
    if kept == [] then found
    else if found == 2 || HasComplete(kept) then 2
    else 1
  }

  /** The found code of the loop as written: a survivor overwrites the code
    * with 1 unless it is itself complete, so the survivor visited last, the
    * first one in bag order, decides. */
  function CombineAsWritten(found: nat, kept: seq<Member>): nat {
    if kept == [] then found
    else if IsComplete(kept[0].node) then 2
    else 1
  }

  lemma CombineSnoc(found: nat, kept: seq<Member>, x: Member, asWritten: bool)
    ensures !asWritten ==> Combine(NextCode(found, IsComplete(x.node), asWritten), kept) == Combine(found, kept + [x])
    ensures asWritten ==> CombineAsWritten(NextCode(found, IsComplete(x.node), asWritten), kept) == CombineAsWritten(found, kept + [x])
  {
    HasCompleteSnoc(kept, x);
    assert (kept + [x])[0] == if kept == [] then x else kept[0];
  }

  lemma SurvivorsSnoc(c: Cond, bag: seq<Member>, i: nat, ch: char, cur: Cursor)
    requires c.FilterCond? && ValidCond(c) && MembersWf(c, bag) && 0 < i <= |bag|
    ensures MembersWf(c, bag[..i]) && MembersWf(c, bag[..i - 1])
    ensures bag[i - 1] in bag
    ensures Survivors(c, bag[..i], ch, cur) == Survivors(c, bag[..i - 1], ch, cur) +
            (if Survives(c, bag[i - 1], ch, cur) then [Advanced(c, bag[i - 1], ch, cur)] else [])
  {
    assert bag[..i][..i - 1] == bag[..i - 1];
    forall m | m in bag[..i] ensures m in bag {
    }
  }

  /** A member that survives moves, advanced, from the unvisited part to the
    * survivors. */
  lemma SurvivorsMultisetKeep(c: Cond, bag: seq<Member>, i: nat, ch: char, cur: Cursor)
    requires c.FilterCond? && ValidCond(c) && MembersWf(c, bag) && 0 < i <= |bag|
    requires bag[i - 1] in bag && Survives(c, bag[i - 1], ch, cur)
    ensures var bag' := bag[i - 1 := Advanced(c, bag[i - 1], ch, cur)];
            MembersWf(c, bag') && MembersWf(c, bag'[..i - 1]) &&
            multiset(Survivors(c, bag'[..i - 1], ch, cur)) + multiset(bag'[i - 1..])
            == multiset(Survivors(c, bag[..i], ch, cur)) + multiset(bag[i..])
  {
    var a := Advanced(c, bag[i - 1], ch, cur);
    var bag' := bag[i - 1 := a];
    assert bag'[..i - 1] == bag[..i - 1];
    forall m | m in bag' ensures m.idx < |c.conds| && Wf(c.conds[m.idx], m.node) {
      if m != a {
        var k :| 0 <= k < |bag'| && bag'[k] == m;
        assert bag[k] == m;
      }
    }
    SurvivorsSnoc(c, bag, i, ch, cur);
    assert bag'[i - 1..] == [a] + bag[i..];
  }

  /** A member that does not survive is swap-removed: the last element takes
    * its place among the unvisited ones. */
  lemma SurvivorsMultisetDrop(c: Cond, bag: seq<Member>, i: nat, ch: char, cur: Cursor)
    requires c.FilterCond? && ValidCond(c) && MembersWf(c, bag) && 0 < i <= |bag|
    requires bag[i - 1] in bag && !Survives(c, bag[i - 1], ch, cur)
    ensures var bag' := SwapRemove(bag, i - 1);
            MembersWf(c, bag') && MembersWf(c, bag'[..i - 1]) &&
            multiset(Survivors(c, bag'[..i - 1], ch, cur)) + multiset(bag'[i - 1..])
            == multiset(Survivors(c, bag[..i], ch, cur)) + multiset(bag[i..])
  {
    var k := i - 1;
    var bag' := SwapRemove(bag, k);
    SwapRemoveMultiset(bag, k);
    forall m | m in bag' ensures m in bag {
      assert m in multiset(bag');
    }
    assert bag'[..k] == bag[..k];
    SurvivorsSnoc(c, bag, i, ch, cur);
  }

  /** The loop keeps the survivors of the visited part together with the
    * part not visited yet. */
  lemma {:induction false} LoopBag(c: Cond, bag: seq<Member>, i: nat, ch: char, cur: Cursor, found: nat, asWritten: bool)
    requires c.FilterCond? && ValidCond(c) && i <= |bag| && MembersWf(c, bag)
    ensures MembersWf(c, bag[..i])
    ensures multiset(FilterLoop(c, bag, i, ch, cur, found, asWritten).bag)
            == multiset(Survivors(c, bag[..i], ch, cur)) + multiset(bag[i..])
    decreases i
  {
    forall m | m in bag[..i] ensures m in bag {
    }
    if i == 0 {
      assert bag[..0] == [] && bag[0..] == bag;
    } else {
      var k := i - 1;
      var m := bag[k];
      assert m in bag;
      if Survives(c, m, ch, cur) {
        var bag' := bag[k := Advanced(c, m, ch, cur)];
        SurvivorsMultisetKeep(c, bag, i, ch, cur);
        LoopBag(c, bag', k, ch, cur, NextCode(found, IsComplete(Advanced(c, m, ch, cur).node), asWritten), asWritten);
      } else {
        SurvivorsMultisetDrop(c, bag, i, ch, cur);
        LoopBag(c, SwapRemove(bag, k), k, ch, cur, found, asWritten);
      }
    }
  }

  /** The loop ends with the code of `Combine` (corrected) or of
    * `CombineAsWritten` (as written) over the survivors. */
  lemma {:induction false} LoopFound(c: Cond, bag: seq<Member>, i: nat, ch: char, cur: Cursor, found: nat, asWritten: bool)
    requires c.FilterCond? && ValidCond(c) && i <= |bag| && MembersWf(c, bag)
    ensures MembersWf(c, bag[..i])
    ensures !asWritten ==> FilterLoop(c, bag, i, ch, cur, found, asWritten).found == Combine(found, Survivors(c, bag[..i], ch, cur))
    ensures asWritten ==> FilterLoop(c, bag, i, ch, cur, found, asWritten).found == CombineAsWritten(found, Survivors(c, bag[..i], ch, cur))
    decreases i
  {
    forall m | m in bag[..i] ensures m in bag {
    }
    if i > 0 {
      var k := i - 1;
      var m := bag[k];
      assert m in bag;
      SurvivorsSnoc(c, bag, i, ch, cur);
      if Survives(c, m, ch, cur) {
        var a := Advanced(c, m, ch, cur);
        var bag' := bag[k := a];
        SurvivorsMultisetKeep(c, bag, i, ch, cur);
        assert bag'[..k] == bag[..k];
        LoopFound(c, bag', k, ch, cur, NextCode(found, IsComplete(a.node), asWritten), asWritten);
        CombineSnoc(found, Survivors(c, bag[..k], ch, cur), a, asWritten);
      } else {
        var bag' := SwapRemove(bag, k);
        SurvivorsMultisetDrop(c, bag, i, ch, cur);
        assert bag'[..k] == bag[..k];
        LoopFound(c, bag', k, ch, cur, found, asWritten);
      }
    }
  }

  /** `updateMatches(ch, buf)` with the found code corrected. */
  function UpdateMatches(c: Cond, bag: seq<Member>, ch: char, cur: Cursor): Update
    requires c.FilterCond? && ValidCond(c) && MembersWf(c, bag)
  {
    FilterLoop(c, bag, |bag|, ch, cur, 0, false)
  }

  /** `updateMatches` keeps exactly the members that have not failed and
    * accept `ch`, each advanced; the bag never grows; the code is 0 exactly
    * when none is left and 2 exactly when a survivor is complete. */
  lemma UpdateMatchesSpec(c: Cond, bag: seq<Member>, ch: char, cur: Cursor)
    requires c.FilterCond? && ValidCond(c) && MembersWf(c, bag)
    ensures var r := UpdateMatches(c, bag, ch, cur);
            multiset(r.bag) == multiset(Survivors(c, bag, ch, cur)) &&
            |r.bag| <= |bag| &&
            (r.found == 0 <==> r.bag == []) &&
            (r.found == 2 <==> HasComplete(r.bag)) &&
            (r.found > 0 <==> Survivors(c, bag, ch, cur) != []) &&
            (r.found == 2 <==> HasComplete(Survivors(c, bag, ch, cur))) &&
            r.found <= 2
    ensures forall x :: x in UpdateMatches(c, bag, ch, cur).bag <==>
            exists m :: m in bag && Survives(c, m, ch, cur) && x == Advanced(c, m, ch, cur)
  {
    var r := UpdateMatches(c, bag, ch, cur);
    var sv := Survivors(c, bag, ch, cur);
    assert bag[..|bag|] == bag && bag[|bag|..] == [];
    LoopBag(c, bag, |bag|, ch, cur, 0, false);
    LoopFound(c, bag, |bag|, ch, cur, 0, false);
    assert multiset(r.bag) == multiset(sv);
    assert |r.bag| == |multiset(r.bag)| == |multiset(sv)| == |sv|;
    forall x
      ensures x in r.bag <==> exists m :: m in bag && Survives(c, m, ch, cur) && x == Advanced(c, m, ch, cur)
    {
      assert x in r.bag <==> x in multiset(r.bag);
      assert x in sv <==> x in multiset(sv);
      SurvivorsMember(c, bag, ch, cur, x);
    }
    if r.bag == [] {
      assert multiset(sv) == multiset{};
    }
    if sv == [] {
      assert multiset(r.bag) == multiset{};
    }
    if HasComplete(r.bag) {
      var x :| x in r.bag && IsComplete(x.node);
      assert x in multiset(sv);
    }
    if HasComplete(sv) {
      var x :| x in sv && IsComplete(x.node);
      assert x in multiset(r.bag);
    }
  }

  /** `updateMatches(ch, buf)` as written: the bag is right, but the code is
    * 2 only when the first survivor in bag order is complete. */
  function UpdateMatchesAsWritten(c: Cond, bag: seq<Member>, ch: char, cur: Cursor): (r: Update)
    requires c.FilterCond? && ValidCond(c) && MembersWf(c, bag)
    ensures multiset(r.bag) == multiset(Survivors(c, bag, ch, cur))
    ensures r.found == CombineAsWritten(0, Survivors(c, bag, ch, cur))
  {
    assert bag[..|bag|] == bag && bag[|bag|..] == [];
    LoopBag(c, bag, |bag|, ch, cur, 0, true);
    LoopFound(c, bag, |bag|, ch, cur, 0, true);
    FilterLoop(c, bag, |bag|, ch, cur, 0, true)
  }

  /** A filter over `End` on `x` and then `Start` on `a`. */
  function ExampleFilter(): (c: Cond)
    ensures c.FilterCond? && ValidCond(c) && MembersWf(c, Fresh(c).filter.bag)
  {
    FilterCond(Filter, [CharCond(CharConditions.OfChars(CharConditions.End, ['x'], [])),
                        CharCond(CharConditions.OfChars(CharConditions.Start, ['a'], []))])
  }

  /** Fed `a`, both members of the example filter survive and only the
    * second one is complete. */
  lemma ExampleSurvivors()
    ensures var c := ExampleFilter();
            var sv := Survivors(c, Fresh(c).filter.bag, 'a', Cursor(['a'], 1));
            |sv| == 2 && !IsComplete(sv[0].node) && IsComplete(sv[1].node)
  {
    var c := ExampleFilter();
    var endCfg := c.conds[0].charConfig;
    var startCfg := c.conds[1].charConfig;
    var cur := Cursor(['a'], 1);
    var bag := Fresh(c).filter.bag;
    FreshFilter(c);
    assert bag[0] == Member(0, Fresh(c.conds[0])) && bag[1] == Member(1, Fresh(c.conds[1]));
    var e := CharConditions.Accept(endCfg, CharConditions.Fresh, 'a', cur);
    var st := CharConditions.Accept(startCfg, CharConditions.Fresh, 'a', cur);
    assert e.accepted && !CharConditions.IsComplete(e.progress);
    assert st.accepted && CharConditions.IsComplete(st.progress);
    assert Survives(c, bag[0], 'a', cur) && Survives(c, bag[1], 'a', cur);
    SurvivorsSnoc(c, bag, 2, 'a', cur);
    SurvivorsSnoc(c, bag, 1, 'a', cur);
    assert bag[..2] == bag && bag[..0] == [];
  }

  /** With the found code as written, a filter whose complete survivor is
    * not the first one in its bag reports a plain match: in the example
    * filter fed `a` the `Start` member is complete, yet the loop ends on the
    * `End` member and returns 1. */
  lemma UpdateMatchesAsWrittenMissesCompletion()
    ensures var c := ExampleFilter();
            var bag := Fresh(c).filter.bag;
            HasComplete(Survivors(c, bag, 'a', Cursor(['a'], 1))) &&
            UpdateMatchesAsWritten(c, bag, 'a', Cursor(['a'], 1)).found == 1 &&
            UpdateMatches(c, bag, 'a', Cursor(['a'], 1)).found == 2
  {
    var c := ExampleFilter();
    var bag := Fresh(c).filter.bag;
    var sv := Survivors(c, bag, 'a', Cursor(['a'], 1));
    ExampleSurvivors();
    assert sv[1] in sv;
    UpdateMatchesSpec(c, bag, 'a', Cursor(['a'], 1));
  }

  /** `Filter.acceptNext`: it accepts exactly when some member survives; it
    * then keeps the survivors, counts the character, starts its fragment on
    * the first accepted character and is complete once a survivor is
    * complete, its fragment ending at that character. Otherwise it fails and
    * is not complete. */
  lemma FilterAcceptSpec(c: Cond, f: FilterState, ch: char, cur: Cursor)
    requires c.FilterCond? && c.filterKind.Filter? && ValidCond(c) && MembersWf(c, f.bag)
    ensures var r := FilterAccept(c, f, ch, cur);
            var sv := Survivors(c, f.bag, ch, cur);
            r.node.FilterNode? && multiset(r.node.filter.bag) == multiset(sv) &&
            (r.accepted <==> sv != []) &&
            (r.accepted ==>
               r.node.filter.acceptedCount == f.acceptedCount + 1 &&
               r.node.filter.failed == f.failed &&
               r.node.filter.coords.start == (if f.acceptedCount == 0 then cur.pos - 1 else f.coords.start) &&
               (r.node.filter.anyComplete <==> f.anyComplete || HasComplete(sv)) &&
               (r.node.filter.anyComplete ==> r.node.filter.coords.end == cur.pos)) &&
            (!r.accepted ==> r.node.filter.failed && !IsComplete(r.node))
  {
    UpdateMatchesSpec(c, f.bag, ch, cur);
  }

  /** `EndFilter.acceptNext`: once complete it refuses the next character and
    * fails; before that it accepts every character. While some member
    * survives it behaves like `Filter`; when none does it starts over with
    * every condition fresh. */
  lemma EndFilterAcceptSpec(c: Cond, f: FilterState, ch: char, cur: Cursor)
    requires c.FilterCond? && c.filterKind.EndFilter? && ValidCond(c) && MembersWf(c, f.bag)
    ensures var r := FilterAccept(c, f, ch, cur);
            (IsComplete(FilterNode(f)) ==> !r.accepted && r.node == FilterNode(f.(failed := true))) &&
            (!IsComplete(FilterNode(f)) ==> r.accepted)
    ensures var r := FilterAccept(c, f, ch, cur);
            var sv := Survivors(c, f.bag, ch, cur);
            !IsComplete(FilterNode(f)) && sv == [] ==> r.node == Fresh(c)
    ensures var r := FilterAccept(c, f, ch, cur);
            var sv := Survivors(c, f.bag, ch, cur);
            !IsComplete(FilterNode(f)) && sv != [] ==>
              r.node.FilterNode? && multiset(r.node.filter.bag) == multiset(sv) &&
              r.node.filter.acceptedCount == f.acceptedCount + 1 &&
              r.node.filter.failed == f.failed &&
              r.node.filter.coords.start == (if f.acceptedCount == 0 then cur.pos - 1 else f.coords.start) &&
              (r.node.filter.anyComplete <==> f.anyComplete || HasComplete(sv)) &&
              (r.node.filter.anyComplete ==> r.node.filter.coords.end == cur.pos)
  {
    if !IsComplete(FilterNode(f)) {
      UpdateMatchesSpec(c, f.bag, ch, cur);
    }
  }

  /** A new filter, and one just reset, holds one fresh member for each of
    * its conditions, in order, and has matched nothing. */
  lemma FreshFilter(c: Cond)
    requires c.FilterCond?
    ensures Fresh(c).FilterNode? && |Fresh(c).filter.bag| == |c.conds|
    ensures forall k :: 0 <= k < |c.conds| ==> Fresh(c).filter.bag[k] == Member(k, Fresh(c.conds[k]))
    ensures !IsComplete(Fresh(c)) && !IsFailed(Fresh(c)) && Fresh(c).filter.acceptedCount == 0
  {
  }

  /** `reset()` as written: the bag is refilled with the filter's original
    * condition objects, which every copy of the filter shares, in whatever
    * state `origs` they are in now. They are not reset, and from the second
    * reset on they are the members the filter fed after the first one. */
  function ResetToOriginals(c: Cond, origs: seq<Node>): (f: FilterState)
    requires c.FilterCond? && |origs| == |c.conds|
    requires forall k :: 0 <= k < |origs| ==> Wf(c.conds[k], origs[k])
    ensures MembersWf(c, f.bag) && |f.bag| == |c.conds|
    ensures forall k :: 0 <= k < |c.conds| ==> f.bag[k] == Member(k, origs[k])
    ensures !f.anyComplete && !f.failed && f.acceptedCount == 0 && f.coords == NoCoords
  {
    FilterState(seq(|origs|, k requires 0 <= k < |origs| => Member(k, origs[k])), false, false, 0, NoCoords)
  }

  /** While the originals are still unused, the reset as written gives the
    * same filter as a new copy. */
  lemma ResetToUnusedOriginals(c: Cond)
    requires c.FilterCond?
    ensures ResetToOriginals(c, seq(|c.conds|, k requires 0 <= k < |c.conds| => Fresh(c.conds[k]))) == Fresh(c).filter
  {
    var origs := seq(|c.conds|, k requires 0 <= k < |c.conds| => Fresh(c.conds[k]));
    FreshFilter(c);
    assert ResetToOriginals(c, origs).bag == Fresh(c).filter.bag;
  }

  /** A bag made only of failed members has no survivor, whatever the
    * character: `updateMatches` empties it and returns 0. The failed members
    * are dropped without being fed, so they stay failed. */
  lemma {:induction false} FailedBagNoSurvivors(c: Cond, bag: seq<Member>, ch: char, cur: Cursor)
    requires c.FilterCond? && ValidCond(c) && MembersWf(c, bag)
    requires forall m :: m in bag ==> IsFailed(m.node)
    ensures Survivors(c, bag, ch, cur) == []
    ensures UpdateMatches(c, bag, ch, cur) == Update([], 0)
  {
    var sv := Survivors(c, bag, ch, cur);
    if sv != [] {
      SurvivorsMember(c, bag, ch, cur, sv[0]);
      assert false;
    }
    UpdateMatchesSpec(c, bag, ch, cur);
  }

  /** With the reset as written, once every original condition has failed,
    * an `EndFilter` reset onto them never takes a member again: every later
    * character finds no survivor, so it resets onto the same failed
    * originals and is never complete. */
  lemma FailedOriginalsNeverComplete(c: Cond, origs: seq<Node>, ch: char, cur: Cursor)
    requires c.FilterCond? && c.filterKind.EndFilter? && ValidCond(c) && |origs| == |c.conds|
    requires forall k :: 0 <= k < |origs| ==> Wf(c.conds[k], origs[k]) && IsFailed(origs[k])
    ensures var f := ResetToOriginals(c, origs);
            UpdateMatches(c, f.bag, ch, cur) == Update([], 0) && !IsComplete(FilterNode(f))
  {
    var f := ResetToOriginals(c, origs);
    forall m | m in f.bag
      ensures IsFailed(m.node)
    {
      var k :| 0 <= k < |f.bag| && f.bag[k] == m;
    }
    FailedBagNoSurvivors(c, f.bag, ch, cur);
  }

  /** An `EndFilter` over a single `Start` on `a`. */
  function ExampleEndFilter(): (c: Cond)
    ensures c.FilterCond? && c.filterKind.EndFilter? && ValidCond(c) && |c.conds| == 1
  {
    FilterCond(EndFilter, [CharCond(CharConditions.OfChars(CharConditions.Start, ['a'], []))])
  }

  /** A copy of the example `EndFilter` fed `bba`. The first `b` leaves no
    * survivor, and the reset as written refills the bag with the unused
    * original. The second `b` is fed to that original, which fails, and the
    * next reset puts the failed original back. From then on no character
    * completes the filter, so the `a` does not. With the corrected reset
    * (every member fresh) the same filter completes on the `a`. */
  lemma ExampleEndFilterOriginalSpent()
    ensures var c := ExampleEndFilter();
            var o := Fresh(c.conds[0]);
            var s := Accept(c.conds[0], o, 'b', Cursor(['b', 'b'], 2));
            !s.accepted && IsFailed(s.node) &&
            UpdateMatches(c, ResetToOriginals(c, [s.node]).bag, 'a', Cursor(['b', 'b', 'a'], 3)) == Update([], 0)
    ensures var c := ExampleEndFilter();
            var n1 := FilterAccept(c, Fresh(c).filter, 'b', Cursor(['b'], 1)).node;
            var n2 := FilterAccept(c, n1.filter, 'b', Cursor(['b', 'b'], 2)).node;
            n1 == Fresh(c) && n2 == Fresh(c) &&
            IsComplete(FilterAccept(c, n2.filter, 'a', Cursor(['b', 'b', 'a'], 3)).node)
  {
    var c := ExampleEndFilter();
    var s := Accept(c.conds[0], Fresh(c.conds[0]), 'b', Cursor(['b', 'b'], 2));
    FailedOriginalsNeverComplete(c, [s.node], 'a', Cursor(['b', 'b', 'a'], 3));
    var bag := Fresh(c).filter.bag;
    FreshFilter(c);
    assert bag == [Member(0, Fresh(c.conds[0]))];
    FailedBagNoSurvivors(c, [Member(0, Accept(c.conds[0], Fresh(c.conds[0]), 'b', Cursor(['b'], 1)).node)], 'b', Cursor(['b'], 1));
    SurvivorsSnoc(c, bag, 1, 'b', Cursor(['b'], 1));
    SurvivorsSnoc(c, bag, 1, 'b', Cursor(['b', 'b'], 2));
    SurvivorsSnoc(c, bag, 1, 'a', Cursor(['b', 'b', 'a'], 3));
    assert bag[..1] == bag && bag[..0] == [];
    EndFilterAcceptSpec(c, Fresh(c).filter, 'b', Cursor(['b'], 1));
    EndFilterAcceptSpec(c, Fresh(c).filter, 'b', Cursor(['b', 'b'], 2));
    EndFilterAcceptSpec(c, Fresh(c).filter, 'a', Cursor(['b', 'b', 'a'], 3));
  }
}

/** The mutable `Filter`/`EndFilter` object: the bag of live candidates is an
  * array whose first `matchingCondsSize` entries are live, narrowed in place
  * by swap-removal. Every method is proved to follow the functions of
  * `Conditions`; the candidates themselves are progress values. */
module FilterParsers {
  import opened Text
  import opened Conditions

  /** A member of a well-formed bag names one of the filter's conditions. */
  lemma MemberOf(c: Cond, bag: seq<Member>, i: nat)
    requires c.FilterCond? && i < |bag| && MembersWf(c, bag)
    ensures bag[i].idx < |c.conds| && c.conds[bag[i].idx] in c.conds && Wf(c.conds[bag[i].idx], bag[i].node)
  {
    assert bag[i] in bag;
  }

  /** The three outcomes of `acceptNext` once the bag has been narrowed. */
  lemma AcceptCases(c: Cond, f: FilterState, ch: char, cur: Cursor)
    requires c.FilterCond? && ValidCond(c) && MembersWf(c, f.bag)
    requires !(c.filterKind.EndFilter? && f.anyComplete && !f.failed)
    ensures var u := FilterLoop(c, f.bag, |f.bag|, ch, cur, 0, false);
            var ac := f.anyComplete || u.found == 2;
            var start := if f.acceptedCount == 0 then SetStart(f.coords, cur) else f.coords;
            (u.found > 0 ==>
               FilterAccept(c, f, ch, cur) ==
                 Step(FilterNode(f.(bag := u.bag, anyComplete := ac, acceptedCount := f.acceptedCount + 1,
                                    coords := if ac then SetEnd(start, cur) else start)), true)) &&
            (u.found == 0 && c.filterKind.Filter? ==>
               FilterAccept(c, f, ch, cur) == Step(FilterNode(f.(bag := u.bag, anyComplete := false, failed := true)), false)) &&
            (u.found == 0 && c.filterKind.EndFilter? ==>
               FilterAccept(c, f, ch, cur) == Step(Fresh(c), true))
  {
  }

  /** The loop ends with the bag it has narrowed. */
  lemma LoopDone(c: Cond, bag: seq<Member>, ch: char, cur: Cursor, found: nat)
    requires c.FilterCond? && ValidCond(c) && MembersWf(c, bag)
    ensures FilterLoop(c, bag, 0, ch, cur, found, false) == Update(bag, found)
  {
  }

  /** One turn of the loop on a member that takes `ch`. */
  lemma LoopKeep(c: Cond, bag: seq<Member>, i: nat, ch: char, cur: Cursor, found: nat)
    requires c.FilterCond? && ValidCond(c) && i < |bag| && MembersWf(c, bag)
    requires bag[i].idx < |c.conds| && !IsFailed(bag[i].node)
    requires Accept(c.conds[bag[i].idx], bag[i].node, ch, cur).accepted
    ensures var s := Accept(c.conds[bag[i].idx], bag[i].node, ch, cur);
            MembersWf(c, bag[i := Member(bag[i].idx, s.node)]) &&
            FilterLoop(c, bag, i + 1, ch, cur, found, false) ==
              FilterLoop(c, bag[i := Member(bag[i].idx, s.node)], i, ch, cur,
                         NextCode(found, IsComplete(s.node), false), false)
  {
    MemberOf(c, bag, i);
    var s := Accept(c.conds[bag[i].idx], bag[i].node, ch, cur);
    var b := bag[i := Member(bag[i].idx, s.node)];
    forall m | m in b ensures m.idx < |c.conds| && Wf(c.conds[m.idx], m.node) {
      var k :| 0 <= k < |b| && b[k] == m;
      if k != i {
        assert bag[k] in bag;
      }
    }
  }

  /** One turn of the loop on a member that has failed or rejects `ch`. */
  lemma LoopDrop(c: Cond, bag: seq<Member>, i: nat, ch: char, cur: Cursor, found: nat)
    requires c.FilterCond? && ValidCond(c) && i < |bag| && MembersWf(c, bag)
    requires bag[i].idx < |c.conds|
    requires IsFailed(bag[i].node) || !Accept(c.conds[bag[i].idx], bag[i].node, ch, cur).accepted
    ensures MembersWf(c, SwapRemove(bag, i)) &&
            FilterLoop(c, bag, i + 1, ch, cur, found, false) ==
              FilterLoop(c, SwapRemove(bag, i), i, ch, cur, found, false)
  {
    var b := SwapRemove(bag, i);
    forall m | m in b ensures m.idx < |c.conds| && Wf(c.conds[m.idx], m.node) {
      var k :| 0 <= k < |b| && b[k] == m;
      if k == i {
        assert bag[|bag| - 1] in bag;
      } else {
        assert bag[k] in bag;
      }
    }
  }

  class FilterParser {
    const cond: Cond
    const matchingConds: array<Member>
    var matchingCondsSize: nat
    var anyComplete: bool
    var failed: bool
    var acceptedCount: nat
    var coords: Coords

    ghost predicate Valid()
      reads this, matchingConds
    {
      cond.FilterCond? && ValidCond(cond) &&
      matchingConds.Length == |cond.conds| && matchingCondsSize <= matchingConds.Length &&
      MembersWf(cond, matchingConds[..matchingCondsSize])
    }

    /** The fields as a value. */
    function State(): FilterState
      reads this, matchingConds
      requires matchingCondsSize <= matchingConds.Length
    {
      FilterState(matchingConds[..matchingCondsSize], anyComplete, failed, acceptedCount, coords)
    }

    /** Fills the bag with a fresh copy of every condition, in order. */
    method Fill()
      requires cond.FilterCond? && ValidCond(cond) && matchingConds.Length == |cond.conds|
      modifies this, matchingConds
      ensures Valid() && matchingConds[..matchingCondsSize] == Fresh(cond).filter.bag
      ensures anyComplete == old(anyComplete) && failed == old(failed)
      ensures acceptedCount == old(acceptedCount) && coords == old(coords)
    {
      var n := |cond.conds|;
      var i := 0;
      while i < n
        invariant 0 <= i <= n && matchingConds.Length == n
        invariant forall k :: 0 <= k < i ==> matchingConds[k] == Member(k, Fresh(cond.conds[k]))
        modifies matchingConds
      {
        assert cond.conds[i] in cond.conds;
        matchingConds[i] := Member(i, Fresh(cond.conds[i]));
        i := i + 1;
      }
      matchingCondsSize := n;
      assert matchingConds[..n] == Fresh(cond).filter.bag;
    }

    /** Copies every condition into the bag. */
    constructor (cond: Cond)
      requires cond.FilterCond? && ValidCond(cond)
      ensures Valid() && this.cond == cond && FilterNode(State()) == Fresh(cond)
      ensures fresh(matchingConds)
    {
      this.cond := cond;
      matchingConds := new Member[|cond.conds|];
      anyComplete, failed, acceptedCount, coords := false, false, 0, NoCoords;
      new;
      Fill();
    }

    /** `reset()`, corrected: the bag holds every condition again, each
      * fresh, and the progress is cleared, so a recycled filter answers like
      * a new copy. As written the bag is refilled with the shared original
      * condition objects in their current state (`Filters.ResetToOriginals`). */
    method Reset()
      requires Valid()
      modifies this, matchingConds
      ensures Valid() && FilterNode(State()) == Fresh(cond)
    {
      Fill();
      anyComplete, failed := false, false;
      coords := NoCoords;
      acceptedCount := 0;
    }

    /** `copy()`: a new filter over the same conditions. */
    method Copy() returns (c: FilterParser)
      requires Valid()
      ensures fresh(c) && fresh(c.matchingConds) && c.Valid() && c.cond == cond && FilterNode(c.State()) == Fresh(cond)
    {
      c := new FilterParser(cond);
    }

    /** Swap-removes entry `i` of the first `size` entries of the bag. */
    method RemoveAt(i: nat, size: nat)
      requires i < size <= matchingConds.Length
      modifies matchingConds
      ensures matchingConds[..size - 1] == SwapRemove(old(matchingConds[..size]), i)
    {
      ghost var before := matchingConds[..size];
      matchingConds[i] := matchingConds[size - 1];
      assert matchingConds[..size] == before[i := before[size - 1]];
    }

    /** One turn of the loop of `updateMatches` on entry `i`: a candidate that
      * has failed or rejects `ch` is swap-removed, one that takes it is
      * replaced by its progress and raises the found code. */
    method Visit(i: nat, size: nat, found: nat, ch: char, cur: Cursor) returns (size': nat, found': nat)
      requires cond.FilterCond? && ValidCond(cond)
      requires i < size <= matchingConds.Length && MembersWf(cond, matchingConds[..size])
      modifies matchingConds
      ensures i <= size' <= size && MembersWf(cond, matchingConds[..size'])
      ensures FilterLoop(cond, matchingConds[..size'], i, ch, cur, found', false)
              == FilterLoop(cond, old(matchingConds[..size]), i + 1, ch, cur, found, false)
    {
      ghost var before := matchingConds[..size];
      var m := matchingConds[i];
      assert m == before[i];
      MemberOf(cond, before, i);
      size', found' := size, found;
      if !IsFailed(m.node) {
        var s := Accept(cond.conds[m.idx], m.node, ch, cur);
        if s.accepted {
          matchingConds[i] := Member(m.idx, s.node);
          assert matchingConds[..size] == before[i := Member(m.idx, s.node)];
          LoopKeep(cond, before, i, ch, cur, found);
          if IsComplete(s.node) {
            found' := 2;
          } else if found != 2 {
            found' := 1;
          }
          return;
        }
      }
      LoopDrop(cond, before, i, ch, cur, found);
      RemoveAt(i, size);
      size' := size - 1;
    }

    /** The loop of `updateMatches` over the first `size0` entries of the bag. */
    method Sweep(size0: nat, ch: char, cur: Cursor) returns (size: nat, found: nat)
      requires cond.FilterCond? && ValidCond(cond)
      requires size0 <= matchingConds.Length && MembersWf(cond, matchingConds[..size0])
      modifies matchingConds
      ensures size <= matchingConds.Length && MembersWf(cond, matchingConds[..size])
      ensures Update(matchingConds[..size], found) == FilterLoop(cond, old(matchingConds[..size0]), size0, ch, cur, 0, false)
    {
      ghost var bag0 := matchingConds[..size0];
      size := size0;
      found := 0;
      var i := size;
      while i > 0
        invariant 0 <= i <= size <= matchingConds.Length
        invariant MembersWf(cond, matchingConds[..size])
        invariant FilterLoop(cond, matchingConds[..size], i, ch, cur, found, false)
                  == FilterLoop(cond, bag0, size0, ch, cur, 0, false)
        decreases i
      {
        i := i - 1;
        size, found := Visit(i, size, found, ch, cur);
      }
      LoopDone(cond, matchingConds[..size], ch, cur, found);
    }

    /** `updateMatches(ch, buf)` with the found code corrected: visits the bag
      * from the end, swap-removing the candidates that have failed or reject
      * `ch`; returns 0, 1, or 2 when some survivor is complete. */
    method UpdateMatches(ch: char, buf: TextParser) returns (found: nat)
      requires Valid()
      modifies this, matchingConds
      ensures Valid()
      ensures var u := FilterLoop(cond, old(matchingConds[..matchingCondsSize]), old(matchingCondsSize), ch, buf.State(), 0, false);
              matchingConds[..matchingCondsSize] == u.bag && found == u.found
      ensures anyComplete == old(anyComplete) && failed == old(failed)
      ensures acceptedCount == old(acceptedCount) && coords == old(coords)
    {
      var size;
      size, found := Sweep(matchingCondsSize, ch, buf.State());
      matchingCondsSize := size;
    }

    /** The bookkeeping after an accepted character: the fragment starts at
      * the first accepted character and ends at the last one once complete. */
    method Count(buf: TextParser)
      requires matchingCondsSize <= matchingConds.Length
      modifies this
      ensures matchingCondsSize == old(matchingCondsSize) && anyComplete == old(anyComplete) && failed == old(failed)
      ensures acceptedCount == old(acceptedCount) + 1
      ensures var start := if old(acceptedCount) == 0 then SetStart(old(coords), buf.State()) else old(coords);
              coords == if anyComplete then SetEnd(start, buf.State()) else start
    {
      if acceptedCount == 0 {
        coords := SetStart(coords, buf.State());
      }
      acceptedCount := acceptedCount + 1;
      if anyComplete {
        coords := SetEnd(coords, buf.State());
      }
    }

    /** `Filter.acceptNext` and `EndFilter.acceptNext`. */
    method AcceptNext(ch: char, buf: TextParser) returns (accepted: bool)
      requires Valid()
      modifies this, matchingConds
      ensures Valid() && Step(FilterNode(State()), accepted) == FilterAccept(cond, old(State()), ch, buf.State())
    {
      ghost var f0 := State();
      if cond.filterKind.EndFilter? && anyComplete && !failed {
        failed := true;
        accepted := false;
        assert State() == f0.(failed := true);
        return;
      }
      ghost var u := FilterLoop(cond, f0.bag, |f0.bag|, ch, buf.State(), 0, false);
      var found := UpdateMatches(ch, buf);
      assert State() == f0.(bag := u.bag) && found == u.found;
      if found == 2 {
        anyComplete := true;
      }
      AcceptCases(cond, f0, ch, buf.State());
      if found > 0 {
        Count(buf);
        accepted := true;
      } else if cond.filterKind.Filter? {
        failed := true;
        anyComplete := false;
        accepted := false;
        assert State() == f0.(bag := u.bag, anyComplete := false, failed := true);
      } else {
        Reset();
        accepted := true;
      }
    }
  }
}

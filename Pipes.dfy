/** What the pipes promise: they walk their conditions in order, one at a
  * time; they append every accepted character to their text and fail on a
  * rejected one; `AllRequired` completes with its last condition,
  * `OptionalSuffix` once its first set is done unless the next character
  * starts an optional suffix, `RepeatableSeparator` after every element, and
  * `OptionalSuffixesAny` moves to the first following condition that
  * accepts the character at hand. */
module Pipes {
  import opened Text
  import opened Conditions
  import StringConditions

  /** Position `(i2, j2)` is not before `(i, j)` in the order the sets and
    * their conditions are read. */
  predicate AtOrAfter(i: nat, j: nat, i2: nat, j2: nat) {
    i2 > i || (i2 == i && j2 >= j)
  }

  /** `(i, j)` names a condition of the pipe `c`. */
  predicate IsPos(c: Cond, i: nat, j: nat)
    requires c.PipeCond?
  {
    i < |c.sets| && j < |c.sets[i].conds|
  }

  /** The condition at `(i, j)`, fresh, accepts `ch`. */
  predicate AcceptsFresh(c: Cond, i: nat, j: nat, ch: char, cur: Cursor)
    requires c.PipeCond? && ValidCond(c) && IsPos(c, i, j)
  {
    Accept(c.sets[i].conds[j], FreshAt(c, i, j), ch, cur).accepted
  }

  /** A pipe whose current condition, if any, is fresh: the state in which
    * `nextCondition` leaves it. */
  predicate AtFresh(c: Cond, p: PipeState)
    requires c.PipeCond?
  {
    p.cur.Some? ==> IsPos(c, p.setIdx, p.condIdx) && p.cur.value == FreshAt(c, p.setIdx, p.condIdx)
  }

  /** `nextCondition` moves to the next position in reading order, skipping
    * none, and enters it fresh; it stops at an empty set or after the last
    * set, and the pipe is complete once it left a set. */
  lemma NextConditionSpec(c: Cond, p: PipeState)
    requires c.PipeCond? && (c.pipeKind.OptionalSuffix? || c.pipeKind.OptionalSuffixesAny?)
    requires ValidCond(c) && PipeWf(c, p) && p.cur.Some?
    ensures var r := NextCondition(c, p);
            AtFresh(c, r) &&
            (p.condIdx + 1 < |c.sets[p.setIdx].conds| ==>
               r.setIdx == p.setIdx && r.condIdx == p.condIdx + 1 && r.cur.Some? && r.anyComplete == p.anyComplete) &&
            (p.condIdx + 1 == |c.sets[p.setIdx].conds| ==> r.anyComplete) &&
            (p.condIdx + 1 == |c.sets[p.setIdx].conds| && p.setIdx + 1 < |c.sets| ==>
               r.setIdx == p.setIdx + 1 && r.condIdx == 0 && (r.cur.Some? <==> |c.sets[r.setIdx].conds| > 0)) &&
            (p.condIdx + 1 == |c.sets[p.setIdx].conds| && p.setIdx + 1 == |c.sets| ==> r.cur.None?)
    ensures forall i: nat, j: nat :: IsPos(c, i, j) && AtOrAfter(p.setIdx, p.condIdx + 1, i, j) ==>
              AtOrAfter(NextCondition(c, p).setIdx, NextCondition(c, p).condIdx, i, j)
  {
  }

  /** The search loop of `OptionalSuffixesAny` leaves the text, the failure
    * flag, the coordinates and the look-ahead alone; it stops at the first
    * condition, from the current one on in reading order, that accepts
    * `nextCh` when fresh, which it enters (fresh again when `nextCh` was
    * peeked); when none does it ends without a current condition, and the
    * pipe is complete. */
  lemma {:induction false} ScanSuffixesSpec(c: Cond, p: PipeState, nextCh: char, laCur: Cursor, peeked: bool)
    requires c.PipeCond? && c.pipeKind.OptionalSuffixesAny? && ValidCond(c) && PipeWf(c, p)
    requires p.setIdx < |c.sets| && p.condIdx <= |c.sets[p.setIdx].conds| && AtFresh(c, p)
    ensures var r := ScanSuffixes(c, p, nextCh, laCur, peeked).0;
            r.dstBuf == p.dstBuf && r.failed == p.failed && r.coords == p.coords && r.lookAhead == p.lookAhead &&
            AtOrAfter(p.setIdx, p.condIdx, r.setIdx, r.condIdx)
    ensures var (r, ok) := ScanSuffixes(c, p, nextCh, laCur, peeked);
            ok ==> r.cur.Some? && IsPos(c, r.setIdx, r.condIdx) && !r.anyComplete &&
                   AcceptsFresh(c, r.setIdx, r.condIdx, nextCh, laCur) &&
                   r.cur.value == (if peeked then FreshAt(c, r.setIdx, r.condIdx)
                                   else Accept(c.sets[r.setIdx].conds[r.condIdx], FreshAt(c, r.setIdx, r.condIdx), nextCh, laCur).node)
    ensures var (r, ok) := ScanSuffixes(c, p, nextCh, laCur, peeked);
            !ok ==> r.cur.None? && (p.cur.Some? ==> r.anyComplete) && (p.cur.None? ==> r == p)
    ensures p.cur.Some? ==>
            var r := ScanSuffixes(c, p, nextCh, laCur, peeked).0;
            forall i: nat, j: nat :: IsPos(c, i, j) && AtOrAfter(p.setIdx, p.condIdx, i, j) && !AtOrAfter(r.setIdx, r.condIdx, i, j) ==>
              !AcceptsFresh(c, i, j, nextCh, laCur)
    decreases |c.sets| - p.setIdx, |c.sets[p.setIdx].conds| - p.condIdx
  {
    if p.cur.Some? {
      var sub := CurCond(c, p);
      var s := Accept(sub, p.cur.value, nextCh, laCur);
      var p1 := p.(cur := Some(if peeked then Fresh(sub) else s.node));
      if !s.accepted {
        var q := NextCondition(c, p1);
        NextConditionSpec(c, p1);
        ScanSuffixesSpec(c, q, nextCh, laCur, peeked);
        var r := ScanSuffixes(c, q, nextCh, laCur, peeked).0;
        assert ScanSuffixes(c, p, nextCh, laCur, peeked) == ScanSuffixes(c, q, nextCh, laCur, peeked);
        forall i: nat, j: nat | IsPos(c, i, j) && AtOrAfter(p.setIdx, p.condIdx, i, j) && !AtOrAfter(r.setIdx, r.condIdx, i, j)
          ensures !AcceptsFresh(c, i, j, nextCh, laCur)
        {
          if i == p.setIdx && j == p.condIdx {
          } else {
            assert AtOrAfter(p.setIdx, p.condIdx + 1, i, j);
          }
        }
      }
    }
  }

  /** The character an `OptionalSuffixesAny` pipe already fed to its current
    * condition while looking ahead. */
  predicate LookAheadHit(c: Cond, p: PipeState, ch: char)
    requires c.PipeCond?
  {
    c.pipeKind.OptionalSuffixesAny? && p.cur.Some? && p.lookAhead == Some(ch)
  }

  /** Every pipe refuses a character and fails when it has no current
    * condition. Otherwise an accepted character is appended to the pipe's
    * text and a rejected one fails the pipe and leaves its text alone; the
    * one exception is the character an `OptionalSuffixesAny` pipe already
    * looked ahead at, which is accepted without being appended. */
  lemma PipeAcceptText(c: Cond, p: PipeState, ch: char, cur: Cursor)
    requires c.PipeCond? && ValidCond(c) && PipeWf(c, p)
    ensures var r := PipeAccept(c, p, ch, cur);
            r.node.PipeNode? &&
            (p.cur.None? ==> !r.accepted && r.node.pipe == p.(failed := true)) &&
            (LookAheadHit(c, p, ch) ==> r.accepted && r.node.pipe == p.(lookAhead := None)) &&
            (p.cur.Some? && !LookAheadHit(c, p, ch) ==>
               (r.accepted ==> r.node.pipe.dstBuf == p.dstBuf + [ch] && r.node.pipe.failed == p.failed) &&
               (!r.accepted ==> r.node.pipe.dstBuf == p.dstBuf && r.node.pipe.failed))
  {
    if p.cur.Some? {
      match c.pipeKind
      case OptionalSuffixesAny =>
        assert PipeAccept(c, p, ch, cur) == SuffixesAnyAccept(c, p, ch, cur);
        if p.lookAhead != Some(ch) {
          var sub := CurCond(c, p);
          var s := Accept(sub, p.cur.value, ch, cur);
          var again :=
            if IsComplete(s.node) && (!s.accepted || cur.HasNext())
            then Accept(sub, s.node, if s.accepted then cur.Peek() else ch, if s.accepted then cur.Advance() else cur)
            else Step(s.node, false);
          SuffixesAnyAcceptIs(c, p, ch, cur);
          SuffixesAnyText(c, p, s, again, ch, cur);
        }
      case AllRequired =>
        SequenceText(c, p, Accept(CurCond(c, p), p.cur.value, ch, cur), ch);
      case AllRequiredPlain(_) =>
        SequenceText(c, p, Accept(CurCond(c, p), p.cur.value, ch, cur), ch);
      case OptionalSuffix =>
        MultipleAcceptIs(c, p, ch, cur);
        MultipleTextAt(c, p, ch, cur);
      case RepeatableSeparator =>
        MultipleAcceptIs(c, p, ch, cur);
        MultipleTextAt(c, p, ch, cur);
    }
  }

  lemma SequenceText(c: Cond, p: PipeState, s: Step, ch: char)
    requires c.PipeCond? && (c.pipeKind.AllRequired? || c.pipeKind.AllRequiredPlain?)
    requires ValidCond(c) && PipeWf(c, p) && p.cur.Some? && Wf(CurCond(c, p), s.node)
    ensures var r := SequenceStep(c, p, s, ch);
            r.node.PipeNode? &&
            (r.accepted ==> r.node.pipe.dstBuf == p.dstBuf + [ch] && r.node.pipe.failed == p.failed) &&
            (!r.accepted ==> r.node.pipe.dstBuf == p.dstBuf && r.node.pipe.failed)
  {
  }

  lemma MultipleText(c: Cond, p: PipeState, s: Step, ch: char, cur: Cursor, la: bool)
    requires c.PipeCond? && (c.pipeKind.OptionalSuffix? || c.pipeKind.RepeatableSeparator?)
    requires ValidCond(c) && PipeWf(c, p) && p.cur.Some? && Wf(CurCond(c, p), s.node)
    ensures var r := MultipleStep(c, p, s, ch, cur, la);
            r.node.PipeNode? &&
            (r.accepted ==> r.node.pipe.dstBuf == p.dstBuf + [ch] && r.node.pipe.failed == p.failed) &&
            (!r.accepted ==> r.node.pipe.dstBuf == p.dstBuf && r.node.pipe.failed)
  {
    if IsComplete(s.node) {
      var p2 := MultipleNext(c, p, s);
      assert p2.dstBuf == p.dstBuf && p2.failed == p.failed;
    }
  }

  lemma MultipleTextAt(c: Cond, p: PipeState, ch: char, cur: Cursor)
    requires c.PipeCond? && (c.pipeKind.OptionalSuffix? || c.pipeKind.RepeatableSeparator?)
    requires ValidCond(c) && PipeWf(c, p) && p.cur.Some?
    ensures var s := Accept(CurCond(c, p), p.cur.value, ch, cur);
            forall la: bool ::
              var r := MultipleStep(c, p, s, ch, cur, la);
              r.node.PipeNode? &&
              (r.accepted ==> r.node.pipe.dstBuf == p.dstBuf + [ch] && r.node.pipe.failed == p.failed) &&
              (!r.accepted ==> r.node.pipe.dstBuf == p.dstBuf && r.node.pipe.failed)
  {
    var s := Accept(CurCond(c, p), p.cur.value, ch, cur);
    MultipleText(c, p, s, ch, cur, true);
    MultipleText(c, p, s, ch, cur, false);
  }

  /** `acceptNext` of `OptionalSuffix` and `RepeatableSeparator` is the step
    * of the pipe after its current condition took `ch`, with `la` telling
    * whether the condition it moved to accepts the next character. */
  lemma MultipleAcceptIs(c: Cond, p: PipeState, ch: char, cur: Cursor)
    requires c.PipeCond? && (c.pipeKind.OptionalSuffix? || c.pipeKind.RepeatableSeparator?)
    requires ValidCond(c) && PipeWf(c, p) && p.cur.Some?
    ensures IsPos(c, p.setIdx, p.condIdx)
    ensures var s := Accept(CurCond(c, p), p.cur.value, ch, cur);
            var q := MultipleNext(c, p, s);
            (q.cur.Some? ==> IsPos(c, q.setIdx, q.condIdx) && q.cur.value == FreshAt(c, q.setIdx, q.condIdx)) &&
            PipeAccept(c, p, ch, cur) ==
              MultipleStep(c, p, s, ch, cur,
                           IsComplete(s.node) && q.setIdx > 0 && q.cur.Some? && cur.HasNext() &&
                           AcceptsFresh(c, q.setIdx, q.condIdx, cur.Peek(), cur.Advance()))
  {
    assert PipeAccept(c, p, ch, cur) == MultipleAccept(c, p, ch, cur);
  }

  lemma SuffixesAnyText(c: Cond, p: PipeState, s: Step, again: Step, ch: char, cur: Cursor)
    requires c.PipeCond? && c.pipeKind.OptionalSuffixesAny?
    requires ValidCond(c) && PipeWf(c, p) && p.cur.Some?
    requires Wf(CurCond(c, p), s.node) && Wf(CurCond(c, p), again.node)
    ensures var r := SuffixesAnyStep(c, p, s, again, ch, cur);
            (r.accepted ==> r.node.pipe.dstBuf == p.dstBuf + [ch] && r.node.pipe.failed == p.failed) &&
            (!r.accepted ==> r.node.pipe.dstBuf == p.dstBuf && r.node.pipe.failed)
  {
    var complete := IsComplete(s.node);
    if complete || IsFailed(s.node) {
      var p1 := p.(lookAhead := None, cur := Some(s.node));
      var p2 := if complete then p1.(coords := MergeCoords(p.coords, CoordsOf(s.node))) else p1;
      if !s.accepted || cur.HasNext() {
        var s2 := if complete then again else Step(s.node, false);
        if !s2.accepted {
          var p3 := p2.(cur := Some(s2.node));
          NextConditionSpec(c, p3);
          ScanSuffixesSpec(c, NextCondition(c, p3), if s.accepted then cur.Peek() else ch,
                           if s.accepted then cur.Advance() else cur, s.accepted);
        }
      }
    }
  }

  /** `OptionalSuffixesAny.acceptNext` on a character it had not looked
    * ahead at is the step of the pipe after its current condition answered
    * `ch` and, once complete, the character after it. */
  lemma SuffixesAnyAcceptIs(c: Cond, p: PipeState, ch: char, cur: Cursor)
    requires c.PipeCond? && c.pipeKind.OptionalSuffixesAny?
    requires ValidCond(c) && PipeWf(c, p) && p.cur.Some? && p.lookAhead != Some(ch)
    ensures IsPos(c, p.setIdx, p.condIdx)
    ensures var sub := CurCond(c, p);
            var s := Accept(sub, p.cur.value, ch, cur);
            var again :=
              if IsComplete(s.node) && (!s.accepted || cur.HasNext())
              then Accept(sub, s.node, if s.accepted then cur.Peek() else ch, if s.accepted then cur.Advance() else cur)
              else Step(s.node, false);
            PipeAccept(c, p, ch, cur) == SuffixesAnyStep(c, p, s, again, ch, cur)
  {
    assert PipeAccept(c, p, ch, cur) == SuffixesAnyAccept(c, p, ch, cur);
  }

  /** `(i, j)` is the last condition of the last set. */
  predicate IsLastPos(c: Cond, i: nat, j: nat)
    requires c.PipeCond?
  {
    i + 1 == |c.sets| && j + 1 == |c.sets[i].conds|
  }

  /** `(i2, j2)` comes right after `(i, j)`: the next condition of the set,
    * or the first one of the next set. */
  predicate IsNextPos(c: Cond, i: nat, j: nat, i2: nat, j2: nat)
    requires c.PipeCond? && IsPos(c, i, j)
  {
    (j + 1 < |c.sets[i].conds| && i2 == i && j2 == j + 1) ||
    (j + 1 == |c.sets[i].conds| && i + 1 < |c.sets| && i2 == i + 1 && j2 == 0)
  }

  /** `AllRequired` and `AllRequiredPlain` accept exactly what their current
    * condition accepts. While it is not complete the pipe stays on it; when
    * it completes the pipe takes its coordinates (unless an
    * `AllRequiredPlain` ignores those of a set's first condition) and moves
    * to the next condition, fresh, or, after the last condition of the last
    * set, completes and keeps no current condition, so that it refuses any
    * further character. */
  lemma SequenceAcceptSpec(c: Cond, p: PipeState, s: Step, ch: char)
    requires c.PipeCond? && (c.pipeKind.AllRequired? || c.pipeKind.AllRequiredPlain?)
    requires ValidCond(c) && PipeWf(c, p) && p.cur.Some? && Wf(CurCond(c, p), s.node)
    ensures IsPos(c, p.setIdx, p.condIdx)
    ensures var r := SequenceStep(c, p, s, ch);
            r.node.PipeNode? && r.accepted == s.accepted &&
            (!IsComplete(s.node) ==>
               r.node.pipe.setIdx == p.setIdx && r.node.pipe.condIdx == p.condIdx &&
               r.node.pipe.cur == Some(s.node) && r.node.pipe.anyComplete == p.anyComplete &&
               r.node.pipe.coords == p.coords) &&
            (IsComplete(s.node) ==>
               r.node.pipe.coords ==
                 (if c.pipeKind.AllRequiredPlain? && c.pipeKind.ignoreFirstConditionCoords && p.condIdx == 0
                  then p.coords else MergeCoords(p.coords, CoordsOf(s.node)))) &&
            (IsComplete(s.node) && !IsLastPos(c, p.setIdx, p.condIdx) ==>
               IsNextPos(c, p.setIdx, p.condIdx, r.node.pipe.setIdx, r.node.pipe.condIdx) &&
               AtFresh(c, r.node.pipe) && r.node.pipe.cur.Some? && r.node.pipe.anyComplete == p.anyComplete) &&
            (IsComplete(s.node) && IsLastPos(c, p.setIdx, p.condIdx) ==>
               r.node.pipe.cur.None? && r.node.pipe.anyComplete)
  {
    var q := SequenceMove(c, p, s);
    var r := SequenceStep(c, p, s, ch);
    assert r.node.pipe.setIdx == q.setIdx && r.node.pipe.condIdx == q.condIdx && r.node.pipe.cur == q.cur;
    assert r.node.pipe.anyComplete == q.anyComplete && r.node.pipe.coords == q.coords;
  }

  /** An `AllRequired` pipe that has not completed yet becomes complete only
    * by its last condition completing on an accepted character. */
  lemma SequenceCompletesAtEnd(c: Cond, p: PipeState, s: Step, ch: char)
    requires c.PipeCond? && (c.pipeKind.AllRequired? || c.pipeKind.AllRequiredPlain?)
    requires ValidCond(c) && PipeWf(c, p) && p.cur.Some? && Wf(CurCond(c, p), s.node) && !p.anyComplete
    ensures IsComplete(SequenceStep(c, p, s, ch).node) ==>
              IsLastPos(c, p.setIdx, p.condIdx) && !p.failed && s.accepted && IsComplete(s.node)
  {
    SequenceAcceptSpec(c, p, s, ch);
    SequenceText(c, p, s, ch);
  }

  /** `OptionalSuffix` and `RepeatableSeparator` accept exactly what their
    * current condition accepts, and stay on it while it is not complete.
    * When it completes, the pipe takes its coordinates and moves on with
    * `nextCondition`; within the first set nothing else happens. */
  lemma MultipleAcceptSpec(c: Cond, p: PipeState, s: Step, ch: char, cur: Cursor, la: bool)
    requires c.PipeCond? && (c.pipeKind.OptionalSuffix? || c.pipeKind.RepeatableSeparator?)
    requires ValidCond(c) && PipeWf(c, p) && p.cur.Some? && Wf(CurCond(c, p), s.node)
    ensures var r := MultipleStep(c, p, s, ch, cur, la);
            r.node.PipeNode? && r.accepted == s.accepted &&
            (!IsComplete(s.node) ==>
               r.node.pipe.setIdx == p.setIdx && r.node.pipe.condIdx == p.condIdx &&
               r.node.pipe.cur == Some(s.node) && r.node.pipe.anyComplete == p.anyComplete &&
               r.node.pipe.coords == p.coords) &&
            (IsComplete(s.node) ==>
               var q := MultipleNext(c, p, s);
               r.node.pipe.coords == MergeCoords(p.coords, CoordsOf(s.node)) &&
               r.node.pipe.setIdx == q.setIdx && r.node.pipe.condIdx == q.condIdx &&
               (q.setIdx == 0 ==> r.node.pipe.cur == q.cur && r.node.pipe.anyComplete == q.anyComplete))
  {
  }

  /** Once an `OptionalSuffix` or `RepeatableSeparator` pipe is in a later
    * set and its condition there completes, it looks one character ahead: if
    * the next condition accepts that character (`la`) the pipe waits for it,
    * fresh, and is not complete; otherwise, and for `OptionalSuffix` also at
    * the end of the input or with no condition left, it is complete and
    * takes no more input. */
  lemma MultipleLookAhead(c: Cond, p: PipeState, s: Step, ch: char, cur: Cursor, la: bool)
    requires c.PipeCond? && (c.pipeKind.OptionalSuffix? || c.pipeKind.RepeatableSeparator?)
    requires ValidCond(c) && PipeWf(c, p) && p.cur.Some? && Wf(CurCond(c, p), s.node)
    requires IsComplete(s.node)
    ensures var q := MultipleNext(c, p, s);
            var r := MultipleStep(c, p, s, ch, cur, la).node.pipe;
            (q.setIdx > 0 && q.cur.Some? && cur.HasNext() ==>
               IsPos(c, q.setIdx, q.condIdx) &&
               (r.anyComplete <==> !la) && (r.cur.Some? <==> la) &&
               (r.cur.Some? ==> r.cur == Some(FreshAt(c, q.setIdx, q.condIdx)))) &&
            (q.setIdx > 0 && !(q.cur.Some? && cur.HasNext()) && c.pipeKind.OptionalSuffix? ==>
               r.anyComplete && r.cur.None?)
  {
  }

  /** `OptionalSuffix` after its first set: the pipe is complete when the
    * last condition of a set completes, unless the next character starts
    * the following optional set; after the last set it is complete. */
  lemma OptionalSuffixEndOfSet(c: Cond, p: PipeState, ch: char, cur: Cursor)
    requires c.PipeCond? && c.pipeKind.OptionalSuffix? && ValidCond(c) && PipeWf(c, p) && p.cur.Some?
    requires p.condIdx + 1 == |c.sets[p.setIdx].conds|
    requires IsComplete(Accept(CurCond(c, p), p.cur.value, ch, cur).node)
    ensures var r := PipeAccept(c, p, ch, cur).node.pipe;
            (p.setIdx + 1 == |c.sets| ==> r.anyComplete && r.cur.None?) &&
            (p.setIdx + 1 < |c.sets| && (|c.sets[p.setIdx + 1].conds| == 0 || !cur.HasNext()) ==>
               r.anyComplete && r.cur.None?) &&
            (p.setIdx + 1 < |c.sets| && |c.sets[p.setIdx + 1].conds| > 0 && cur.HasNext() ==>
               r.setIdx == p.setIdx + 1 && r.condIdx == 0 &&
               (r.anyComplete <==> !AcceptsFresh(c, p.setIdx + 1, 0, cur.Peek(), cur.Advance())))
  {
    var s := Accept(CurCond(c, p), p.cur.value, ch, cur);
    var la := IsComplete(s.node) && MultipleNext(c, p, s).setIdx > 0 && MultipleNext(c, p, s).cur.Some? && cur.HasNext() &&
              AcceptsFresh(c, MultipleNext(c, p, s).setIdx, MultipleNext(c, p, s).condIdx, cur.Peek(), cur.Advance());
    MultipleAcceptIs(c, p, ch, cur);
    MultipleLookAhead(c, p, s, ch, cur, la);
    MultipleAcceptSpec(c, p, s, ch, cur, la);
  }

  /** `RepeatableSeparator`: when the element set is done the pipe is
    * complete (with no separator set it starts the element again, fresh),
    * unless the separator accepts the next character; when the separator
    * set is done it starts the element again, fresh, and stays incomplete
    * until that element is done. */
  lemma RepeatableSeparatorCycle(c: Cond, p: PipeState, ch: char, cur: Cursor)
    requires c.PipeCond? && c.pipeKind.RepeatableSeparator? && ValidCond(c) && PipeWf(c, p) && p.cur.Some?
    requires p.condIdx + 1 == |c.sets[p.setIdx].conds|
    requires IsComplete(Accept(CurCond(c, p), p.cur.value, ch, cur).node)
    ensures var r := PipeAccept(c, p, ch, cur).node.pipe;
            (p.setIdx == 0 && |c.sets| == 1 ==>
               r.setIdx == 0 && r.condIdx == 0 && r.anyComplete && r.cur == Some(FreshAt(c, 0, 0))) &&
            (p.setIdx == 0 && |c.sets| == 2 && |c.sets[1].conds| > 0 && cur.HasNext() ==>
               r.setIdx == 1 && r.condIdx == 0 &&
               (r.anyComplete <==> !AcceptsFresh(c, 1, 0, cur.Peek(), cur.Advance()))) &&
            (p.setIdx == 0 && |c.sets| == 2 && (|c.sets[1].conds| == 0 || !cur.HasNext()) ==>
               r.setIdx == 1 && r.condIdx == 0 && r.anyComplete) &&
            (p.setIdx == 1 ==>
               r.setIdx == 0 && r.condIdx == 0 && r.anyComplete == p.anyComplete && r.cur == Some(FreshAt(c, 0, 0)))
  {
    var s := Accept(CurCond(c, p), p.cur.value, ch, cur);
    var la := IsComplete(s.node) && MultipleNext(c, p, s).setIdx > 0 && MultipleNext(c, p, s).cur.Some? && cur.HasNext() &&
              AcceptsFresh(c, MultipleNext(c, p, s).setIdx, MultipleNext(c, p, s).condIdx, cur.Peek(), cur.Advance());
    MultipleAcceptIs(c, p, ch, cur);
    MultipleLookAhead(c, p, s, ch, cur, la);
    MultipleAcceptSpec(c, p, s, ch, cur, la);
  }

  /** `OptionalSuffixesAny` when its current condition takes a character it
    * had not looked ahead at. While the condition is neither complete nor
    * failed the pipe follows it. When it completes on `ch` with input left,
    * the pipe peeks at the next character: if the completed condition takes
    * it too, the pipe records the look-ahead and stays; otherwise the
    * following conditions, fresh, are tried in order, the first one that
    * takes it becomes current, and with none the pipe is complete. At the
    * end of the input a completed condition completes the pipe. */
  lemma SuffixesAnySpec(c: Cond, p: PipeState, s: Step, again: Step, ch: char, cur: Cursor)
    requires c.PipeCond? && c.pipeKind.OptionalSuffixesAny?
    requires ValidCond(c) && PipeWf(c, p) && p.cur.Some?
    requires Wf(CurCond(c, p), s.node) && Wf(CurCond(c, p), again.node)
    ensures IsPos(c, p.setIdx, p.condIdx)
    ensures var r := SuffixesAnyStep(c, p, s, again, ch, cur);
            r.node.PipeNode? &&
            (!IsComplete(s.node) && !IsFailed(s.node) ==>
               r.accepted == s.accepted && r.node.pipe.cur == Some(s.node) &&
               r.node.pipe.setIdx == p.setIdx && r.node.pipe.condIdx == p.condIdx && r.node.pipe.lookAhead.None?) &&
            (IsComplete(s.node) && s.accepted && !cur.HasNext() ==>
               r.accepted && IsComplete(r.node) == !p.failed && r.node.pipe.cur.None?)
    ensures var r := SuffixesAnyStep(c, p, s, again, ch, cur);
            IsComplete(s.node) && s.accepted && cur.HasNext() && again.accepted ==>
              r.accepted && r.node.pipe.lookAhead == Some(cur.Peek()) && !r.node.pipe.anyComplete &&
              r.node.pipe.setIdx == p.setIdx && r.node.pipe.condIdx == p.condIdx && r.node.pipe.cur == Some(again.node)
    ensures var r := SuffixesAnyStep(c, p, s, again, ch, cur);
            var q := r.node.pipe;
            IsComplete(s.node) && s.accepted && cur.HasNext() && !again.accepted ==>
              r.accepted && q.lookAhead.None? &&
              AtOrAfter(p.setIdx, p.condIdx + 1, q.setIdx, q.condIdx) &&
              (q.cur.Some? ==> IsPos(c, q.setIdx, q.condIdx) && !q.anyComplete &&
                               q.cur == Some(FreshAt(c, q.setIdx, q.condIdx)) &&
                               AcceptsFresh(c, q.setIdx, q.condIdx, cur.Peek(), cur.Advance())) &&
              (q.cur.None? ==> q.anyComplete) &&
              forall i: nat, j: nat :: IsPos(c, i, j) && AtOrAfter(p.setIdx, p.condIdx + 1, i, j) && !AtOrAfter(q.setIdx, q.condIdx, i, j) ==>
                !AcceptsFresh(c, i, j, cur.Peek(), cur.Advance())
  {
    if IsComplete(s.node) && s.accepted && cur.HasNext() && !again.accepted {
      var p3 := p.(lookAhead := None, cur := Some(again.node), coords := MergeCoords(p.coords, CoordsOf(s.node)));
      NextConditionSpec(c, p3);
      ScanSuffixesSpec(c, NextCondition(c, p3), cur.Peek(), cur.Advance(), true);
    }
  }

  /** `reset()` as written: the indices, flags, text and coordinates are
    * cleared and every condition restarts, but an `OptionalSuffixesAny`
    * pipe keeps its look-ahead. */
  function ResetAsWritten(c: Cond, p: PipeState): (r: PipeState)
    requires c.PipeCond?
    ensures r.setIdx == 0 && r.condIdx == 0 && !r.anyComplete && !r.failed && r.dstBuf == [] && r.coords.None?
    ensures r.cur == FreshFirst(c)
    ensures c.pipeKind.OptionalSuffixesAny? ==> r.lookAhead == p.lookAhead
  {
    Fresh(c).pipe.(lookAhead := if c.pipeKind.OptionalSuffixesAny? then p.lookAhead else None)
  }

  /** `reset()` with the look-ahead cleared too. */
  function Reset(c: Cond, p: PipeState): (r: PipeState)
    requires c.PipeCond?
    ensures PipeNode(r) == Fresh(c)
  {
    Fresh(c).pipe
  }

  /** A reset pipe behaves like a new copy: whatever state it was reset from,
    * the next call gives the same result. */
  lemma ResetForgets(c: Cond, p1: PipeState, p2: PipeState, ch: char, cur: Cursor)
    requires c.PipeCond? && ValidCond(c)
    ensures PipeWf(c, Reset(c, p1))
    ensures PipeAccept(c, Reset(c, p1), ch, cur) == PipeAccept(c, Reset(c, p2), ch, cur) == Accept(c, Fresh(c), ch, cur)
  {
  }

  /** An `OptionalSuffixesAny` pipe over one `Literal` condition matching
    * `a` or `ab`. */
  function ExamplePipe(): (c: Cond)
    ensures c.PipeCond? && ValidCond(c)
  {
    PipeCond(OptionalSuffixesAny, [CondSet([StrCond(StringConditions.Config(StringConditions.Literal, ["a", "ab"]))])])
  }

  /** The example condition after it matched `ab`: only `ab` can be left. */
  predicate MatchedAb(q: StringConditions.Progress) {
    q.dstBuf == "ab" && !q.failed && forall str :: str in q.matching ==> str == "a" || str == "ab"
  }

  /** Fed `a` of a text starting with `ab`, the example pipe's condition
    * completes on `a` and takes the peeked `b` as well, so the pipe records
    * the look-ahead `b`. */
  lemma ExampleLookAhead(text: seq<char>)
    requires |text| >= 2 && text[0] == 'a' && text[1] == 'b'
    ensures var c := ExamplePipe();
            var r := Accept(c, Fresh(c), 'a', Cursor(text, 1));
            r.accepted && r.node.PipeNode? && PipeWf(c, r.node.pipe) && r.node.pipe.lookAhead == Some('b') &&
            r.node.pipe.setIdx == 0 && r.node.pipe.condIdx == 0 &&
            r.node.pipe.cur.Some? && r.node.pipe.cur.value.StrNode? && MatchedAb(r.node.pipe.cur.value.strProgress)
  {
    var c := ExamplePipe();
    var cfg := c.sets[0].conds[0].strConfig;
    var cur := Cursor(text, 1);
    var p0 := StringConditions.Init(cfg);
    var s := StringConditions.LiteralAccept(p0, 'a', cur);
    assert "a" in p0.matching && StringConditions.Matches("a", 'a', 0);
    assert s.accepted && StringConditions.IsComplete(s.progress);
    assert "ab" in p0.matching && StringConditions.Matches("ab", 'a', 0);
    assert "ab" in s.progress.matching && StringConditions.Matches("ab", 'b', |s.progress.dstBuf|);
    var s2 := StringConditions.LiteralAccept(s.progress, 'b', cur.Advance());
    assert s2.accepted && s2.progress.dstBuf == "ab";
    var p := Fresh(c).pipe;
    var st := Accept(CurCond(c, p), p.cur.value, 'a', cur);
    SuffixesAnyAcceptIs(c, p, 'a', cur);
    SuffixesAnySpec(c, p, st, Accept(CurCond(c, p), st.node, 'b', cur.Advance()), 'a', cur);
  }

  /** A fresh example pipe rejects `b` and fails: no candidate starts with
    * `b`. */
  lemma ExampleRejectsB(cur: Cursor)
    ensures var c := ExamplePipe();
            !Accept(c, Fresh(c), 'b', cur).accepted
  {
    var c := ExamplePipe();
    var p0 := StringConditions.Init(c.sets[0].conds[0].strConfig);
    assert forall str :: str in p0.matching ==> !StringConditions.Matches(str, 'b', 0);
    PipeAcceptText(c, Fresh(c).pipe, 'b', cur);
    var s := StringConditions.LiteralAccept(p0, 'b', cur);
    assert !s.accepted && !StringConditions.IsComplete(s.progress);
  }

  /** As written, `reset()` leaves the look-ahead of an `OptionalSuffixesAny`
    * pipe: the example pipe, reset after reading `a` of `ab`, accepts a `b`
    * without consulting its condition, while a new copy rejects it. */
  lemma ResetAsWrittenKeepsLookAhead()
    ensures var c := ExamplePipe();
            var r := Accept(c, Fresh(c), 'a', Cursor(['a', 'b'], 1));
            r.node.PipeNode? && PipeWf(c, ResetAsWritten(c, r.node.pipe)) &&
            PipeAccept(c, ResetAsWritten(c, r.node.pipe), 'b', Cursor(['b'], 1)).accepted &&
            !PipeAccept(c, Reset(c, r.node.pipe), 'b', Cursor(['b'], 1)).accepted
  {
    var c := ExamplePipe();
    var r := Accept(c, Fresh(c), 'a', Cursor(['a', 'b'], 1));
    ExampleLookAhead(['a', 'b']);
    ExampleRejectsB(Cursor(['b'], 1));
    var q := ResetAsWritten(c, r.node.pipe);
    assert q.cur.Some? && q.lookAhead == Some('b');
    PipeAcceptText(c, q, 'b', Cursor(['b'], 1));
  }

  /** The look-ahead is used once: after the call that consumed it, the next
    * character, whatever it is, goes to the current condition. */
  lemma LookAheadUsedOnce(c: Cond, p: PipeState, ch: char, cur: Cursor, next: char)
    requires c.PipeCond? && ValidCond(c) && PipeWf(c, p) && LookAheadHit(c, p, ch)
    ensures PipeAccept(c, p, ch, cur).accepted
    ensures !LookAheadHit(c, PipeAccept(c, p, ch, cur).node.pipe, next)
  {
    PipeAcceptText(c, p, ch, cur);
  }

  /** The example pipe whose condition has matched `ab` rejects a further
    * `b` it had not looked ahead at. */
  lemma ExampleRejectsSecondB(p: PipeState, cur: Cursor)
    requires PipeWf(ExamplePipe(), p) && p.setIdx == 0 && p.condIdx == 0 && p.lookAhead.None?
    requires p.cur.Some? && p.cur.value.StrNode? && MatchedAb(p.cur.value.strProgress)
    ensures !PipeAccept(ExamplePipe(), p, 'b', cur).accepted
  {
    var c := ExamplePipe();
    var q := p.cur.value.strProgress;
    assert forall str :: str in q.matching ==> !StringConditions.Matches(str, 'b', 2);
    var s3 := StringConditions.LiteralAccept(q, 'b', cur);
    assert !s3.accepted && !StringConditions.IsComplete(s3.progress) && s3.progress.failed;
    assert PipeAccept(c, p, 'b', cur) == SuffixesAnyAccept(c, p, 'b', cur);
    var p3 := p.(cur := Some(StrNode(s3.progress)));
    NextConditionSpec(c, p3);
    ScanSuffixesSpec(c, NextCondition(c, p3), 'b', cur, false);
  }

  /** As written, the look-ahead survives the call that consumed it: the
    * example pipe, having read `a` and looked ahead at `b` of `abb`, skips
    * the first `b` and then skips the second one as well although its
    * condition, which has matched `ab`, cannot take it; with the look-ahead
    * used up the second `b` reaches the condition and the pipe rejects it. */
  lemma LookAheadSkipAsWrittenRepeats()
    ensures var c := ExamplePipe();
            var r := Accept(c, Fresh(c), 'a', Cursor(['a', 'b', 'b'], 1));
            r.node.PipeNode? && PipeWf(c, r.node.pipe) && r.node.pipe.lookAhead == Some('b') &&
            PipeAccept(c, LookAheadSkip(r.node.pipe, true), 'b', Cursor(['a', 'b', 'b'], 3)).accepted &&
            !PipeAccept(c, LookAheadSkip(r.node.pipe, false), 'b', Cursor(['a', 'b', 'b'], 3)).accepted
  {
    var c := ExamplePipe();
    var text := ['a', 'b', 'b'];
    ExampleLookAhead(text);
    var r := Accept(c, Fresh(c), 'a', Cursor(text, 1)).node.pipe;
    PipeAcceptText(c, LookAheadSkip(r, true), 'b', Cursor(text, 3));
    ExampleRejectsSecondB(LookAheadSkip(r, false), Cursor(text, 3));
  }
}

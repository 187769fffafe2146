/** The condition tree: single-character and multi-string conditions at the
  * leaves, `Filter`/`EndFilter` alternations and the sequencing pipes
  * (`AllRequired`, `AllRequiredPlain`, `OptionalSuffix`,
  * `OptionalSuffixesAny`, `RepeatableSeparator`) as inner nodes.
  *
  * A condition is split into what `copy()` carries over (`Cond`, its
  * configuration) and what `acceptNext` changes (`Node`, its progress). A
  * `Node` is read against the `Cond` it belongs to: the members of a filter's
  * bag name the index of their condition, and the current condition of a
  * pipe is the one at its set and condition indices. `copy()`, and
  * `copyOrReuse()` on the conditions of a pipe, give `Fresh(c)`. */
module Conditions {
  import opened Text
  import CharConditions
  import StringConditions

  datatype FilterKind = Filter | EndFilter

  datatype PipeKind =
    | AllRequired
    | AllRequiredPlain(ignoreFirstConditionCoords: bool)
    | OptionalSuffix
    | OptionalSuffixesAny
    | RepeatableSeparator

  /** The configuration of a condition. */
  datatype Cond =
    | CharCond(charConfig: CharConditions.Config)
    | StrCond(strConfig: StringConditions.Config)
    | FilterCond(filterKind: FilterKind, conds: seq<Cond>)
    | PipeCond(pipeKind: PipeKind, sets: seq<CondSet>)

  /** One condition set of a pipe, in order. */
  datatype CondSet = CondSet(conds: seq<Cond>)

  /** The progress of a condition. */
  datatype Node =
    | CharNode(charProgress: CharConditions.Progress)
    | StrNode(strProgress: StringConditions.Progress)
    | FilterNode(filter: FilterState)
    | PipeNode(pipe: PipeState)

  /** The fields of a filter: the bag of live candidates and the progress
    * flags. */
  datatype FilterState = FilterState(bag: seq<Member>, anyComplete: bool, failed: bool, acceptedCount: nat, coords: Coords)

  /** The fields of a pipe. `cur` is the progress of the current condition,
    * the one at `setIdx` and `condIdx`, or none. `lookAhead` is the
    * character an `OptionalSuffixesAny` pipe has already fed to its current
    * condition (`prevCallLookAheadSucceeded` with `prevCallLookAheadChar`). */
  datatype PipeState = PipeState(setIdx: nat, condIdx: nat, cur: Option<Node>, anyComplete: bool, failed: bool,
                                 dstBuf: seq<char>, coords: Option<Coords>, lookAhead: Option<char>)

  /** A live candidate of a filter: the index of its condition and its
    * progress. */
  datatype Member = Member(idx: nat, node: Node)

  /** The result of one `acceptNext` call. */
  datatype Step = Step(node: Node, accepted: bool)

  /** `OptionalSuffix` and `OptionalSuffixesAny` treat the sets after the
    * first as optional; `RepeatableSeparator` does not. */
  predicate SubsequentOptional(pk: PipeKind) {
    pk.OptionalSuffix? || pk.OptionalSuffixesAny?
  }

  /** The shapes the constructors and the index arithmetic of a pipe rely
    * on: a matchable pipe reads its first condition when it is built, the
    * `AllRequired` pipes enter every later set at its first condition, and a
    * `RepeatableSeparator` holds at most an element set and a separator
    * set. The constructors do not check the second clause: an `AllRequired`
    * pipe with an empty later set is built, and throws only when it moves
    * on to that set. The model excludes that shape. */
  predicate PipeShape(pk: PipeKind, sets: seq<CondSet>) {
    (if pk.AllRequiredPlain? then |sets| == 0 || |sets[0].conds| > 0 else |sets| > 0 && |sets[0].conds| > 0) &&
    ((pk.AllRequired? || pk.AllRequiredPlain?) ==> forall i :: 0 < i < |sets| ==> |sets[i].conds| > 0) &&
    (pk.RepeatableSeparator? ==> |sets| <= 2)
  }

  /** A configuration the model accepts: what the constructors accept
    * without throwing, less the pipes whose `acceptNext` would index an
    * empty later set. */
  predicate ValidCond(c: Cond)
    decreases c
  {
    match c
    case CharCond(_) => true
    case StrCond(sc) => StringConditions.ValidStrs(sc.originalStrs)
    case FilterCond(_, conds) => forall k :: 0 <= k < |conds| ==> ValidCond(conds[k])
    case PipeCond(pk, sets) =>
      PipeShape(pk, sets) &&
      forall i, j :: 0 <= i < |sets| && 0 <= j < |sets[i].conds| ==> ValidCond(sets[i].conds[j])
  }

  /** The progress `n` has the shape of a condition configured by `c`. */
  predicate Wf(c: Cond, n: Node)
    decreases c, 2
  {
    match c
    case CharCond(_) => n.CharNode?
    case StrCond(_) => n.StrNode?
    case FilterCond(_, _) => n.FilterNode? && MembersWf(c, n.filter.bag)
    case PipeCond(_, _) => n.PipeNode? && PipeWf(c, n.pipe)
  }

  /** Every member of the bag belongs to a condition of the filter `c`. */
  predicate MembersWf(c: Cond, bag: seq<Member>)
    requires c.FilterCond?
    decreases c, 1
  {
    forall m :: m in bag ==> m.idx < |c.conds| && Wf(c.conds[m.idx], m.node)
  }

  /** A current condition sits at valid indices and has the shape of the
    * condition configured there. */
  predicate PipeWf(c: Cond, p: PipeState)
    requires c.PipeCond?
    decreases c, 1
  {
    p.cur.Some? ==>
      p.setIdx < |c.sets| && p.condIdx < |c.sets[p.setIdx].conds| &&
      var sub := c.sets[p.setIdx].conds[p.condIdx];
      assert c.sets[p.setIdx] in c.sets;
      assert sub in c.sets[p.setIdx].conds;
      Wf(sub, p.cur.value)
  }

  /** The progress of a new condition: `copy()`. A filter holds one fresh
    * member per condition, in order; a pipe starts at the first condition of
    * its first set. */
  function Fresh(c: Cond): (n: Node)
    ensures Wf(c, n)
    decreases c
  {
    match c
    case CharCond(_) => CharNode(CharConditions.Fresh)
    case StrCond(sc) => StrNode(StringConditions.Init(sc))
    case FilterCond(_, conds) =>
      var bag := seq(|conds|, k requires 0 <= k < |conds| => Member(k, Fresh(conds[k])));
      assert MembersWf(c, bag) by {
        forall m | m in bag ensures m.idx < |conds| && Wf(conds[m.idx], m.node) {
          var k :| 0 <= k < |bag| && bag[k] == m;
        }
      }
      FilterNode(FilterState(bag, false, false, 0, NoCoords))
    case PipeCond(_, sets) =>
      PipeNode(PipeState(0, 0, FreshFirst(c), false, false, [], None, None))
  }

  /** The first condition of a pipe, fresh, if the first set has one. */
  function FreshFirst(c: Cond): (r: Option<Node>)
    requires c.PipeCond?
    ensures r.Some? <==> |c.sets| > 0 && |c.sets[0].conds| > 0
    ensures r.Some? ==> Wf(c.sets[0].conds[0], r.value)
    decreases c, 0
  {
    if |c.sets| > 0 && |c.sets[0].conds| > 0 then
      assert c.sets[0] in c.sets;
      assert c.sets[0].conds[0] in c.sets[0].conds;
      Some(Fresh(c.sets[0].conds[0]))
    else None
  }

  predicate IsComplete(n: Node) {
    match n
    case CharNode(p) => CharConditions.IsComplete(p)
    case StrNode(p) => StringConditions.IsComplete(p)
    case FilterNode(f) => f.anyComplete && !f.failed
    case PipeNode(p) => p.anyComplete && !p.failed
  }

  predicate IsFailed(n: Node) {
    match n
    case CharNode(p) => CharConditions.IsFailed(p)
    case StrNode(p) => p.failed
    case FilterNode(f) => f.failed
    case PipeNode(p) => p.failed
  }

  /** `getMatchedTextCoords()`; a pipe has none until one of its conditions
    * completes. */
  function CoordsOf(n: Node): Option<Coords> {
    match n
    case CharNode(p) => Some(p.coords)
    case StrNode(p) => Some(p.coords)
    case FilterNode(f) => Some(f.coords)
    case PipeNode(p) => p.coords
  }

  /** A pipe's coordinates after its current condition completed with
    * `sub`: the first ones are copied, later ones are spanned. */
  function MergeCoords(acc: Option<Coords>, sub: Option<Coords>): (r: Option<Coords>)
    ensures sub.None? ==> r == acc
    ensures sub.Some? && acc.None? ==> r == sub
    ensures sub.Some? && acc.Some? ==> r == Some(Span(acc.value, sub.value))
  {
    match sub
    case None => acc
    case Some(s) => if acc.None? then Some(s) else Some(Span(acc.value, s))
  }

  /** The configuration of a pipe's current condition. */
  function CurCond(c: Cond, p: PipeState): (sub: Cond)
    requires c.PipeCond? && p.setIdx < |c.sets| && p.condIdx < |c.sets[p.setIdx].conds|
    ensures sub == c.sets[p.setIdx].conds[p.condIdx] && sub < c
  {
    assert c.sets[p.setIdx] in c.sets;
    assert c.sets[p.setIdx].conds[p.condIdx] in c.sets[p.setIdx].conds;
    c.sets[p.setIdx].conds[p.condIdx]
  }

  /** The condition at `i`, `j` of a pipe, fresh. */
  function FreshAt(c: Cond, i: nat, j: nat): (r: Node)
    requires c.PipeCond? && i < |c.sets| && j < |c.sets[i].conds|
    ensures r == Fresh(c.sets[i].conds[j]) && Wf(c.sets[i].conds[j], r)
  {
    Fresh(c.sets[i].conds[j])
  }

  /** The condition a pipe moves to after its current one completed: the
    * next one of the set; at the end of a set, the first one of the next
    * set, or, for `RepeatableSeparator`, of the other set; none after the
    * last set. The pipe becomes complete when it leaves a set (for
    * `RepeatableSeparator`, when it leaves the element set). */
  function NextCondition(c: Cond, p: PipeState): (r: PipeState)
    requires c.PipeCond? && !c.pipeKind.AllRequired? && !c.pipeKind.AllRequiredPlain?
    requires PipeWf(c, p) && p.cur.Some?
    ensures PipeWf(c, r) && r.setIdx < |c.sets| && r.condIdx <= |c.sets[r.setIdx].conds|
    ensures r == p.(setIdx := r.setIdx, condIdx := r.condIdx, cur := r.cur, anyComplete := r.anyComplete)
    ensures !c.pipeKind.RepeatableSeparator? ==>
      r.setIdx > p.setIdx || (r.setIdx == p.setIdx && r.condIdx > p.condIdx)
  {
    var k := p.condIdx + 1;
    if k < |c.sets[p.setIdx].conds| then
      p.(condIdx := k, cur := Some(FreshAt(c, p.setIdx, k)))
    else if c.pipeKind.RepeatableSeparator? then
      var s := if p.setIdx == 0 then 1 % |c.sets| else 0;
      var p1 := if p.setIdx == 0 then p.(anyComplete := true) else p;
      p1.(setIdx := s, condIdx := 0, cur := if |c.sets[s].conds| > 0 then Some(FreshAt(c, s, 0)) else None)
    else if p.setIdx < |c.sets| - 1 then
      var s := p.setIdx + 1;
      p.(anyComplete := true, setIdx := s, condIdx := 0,
         cur := if |c.sets[s].conds| > 0 then Some(FreshAt(c, s, 0)) else None)
    else
      p.(condIdx := k, anyComplete := true, cur := None)
  }

  /** The end of every pipe's `acceptNext`: a rejected character fails the
    * pipe, an accepted one is appended to its text. */
  function Finish(p: PipeState, ch: char, res: bool): (r: Step)
    ensures r.accepted == res
    ensures res ==> r.node == PipeNode(p.(dstBuf := p.dstBuf + [ch]))
    ensures !res ==> r.node == PipeNode(p.(failed := true))
  {
    if res then Step(PipeNode(p.(dstBuf := p.dstBuf + [ch])), true) else Step(PipeNode(p.(failed := true)), false)
  }

  /** The found code after a member accepted the character: 2 when it is
    * complete, else 1, or, with the corrected combination, 2 if an earlier
    * member was complete. */
  function NextCode(found: nat, complete: bool, asWritten: bool): nat {
    if complete then 2 else if asWritten || found != 2 then 1 else 2
  }

  /** What `updateMatches` leaves: the bag and the found code. */
  datatype Update = Update(bag: seq<Member>, found: nat)

  /** One `acceptNext(ch, buf)` call; `cur` is the cursor just after `ch`. */
  function Accept(c: Cond, n: Node, ch: char, cur: Cursor): (r: Step)
    requires ValidCond(c) && Wf(c, n)
    ensures Wf(c, r.node)
    decreases c, 4
  {
    match c
    case CharCond(cc) =>
      var s := CharConditions.Accept(cc, n.charProgress, ch, cur);
      Step(CharNode(s.progress), s.accepted)
    case StrCond(sc) =>
      var s := StringConditions.Accept(sc, n.strProgress, ch, cur);
      Step(StrNode(s.progress), s.accepted)
    case FilterCond(_, _) => FilterAccept(c, n.filter, ch, cur)
    case PipeCond(_, _) => PipeAccept(c, n.pipe, ch, cur)
  }

  /** The reverse loop of `updateMatches` from member `i - 1` down to 0: a
    * failed member, or one that rejects `ch`, is swap-removed; the others
    * take the character. */
  function FilterLoop(c: Cond, bag: seq<Member>, i: nat, ch: char, cur: Cursor, found: nat, asWritten: bool): (r: Update)
    requires c.FilterCond? && ValidCond(c) && i <= |bag| && MembersWf(c, bag)
    ensures MembersWf(c, r.bag)
    decreases c, 1, i
  {
    if i == 0 then Update(bag, found)
    else
      var m := bag[i - 1];
      assert m in bag;
      if IsFailed(m.node) then
        FilterLoop(c, SwapRemove(bag, i - 1), i - 1, ch, cur, found, asWritten)
      else
        assert c.conds[m.idx] in c.conds;
        var s := Accept(c.conds[m.idx], m.node, ch, cur);
        if !s.accepted then
          FilterLoop(c, SwapRemove(bag, i - 1), i - 1, ch, cur, found, asWritten)
        else
          FilterLoop(c, bag[i - 1 := Member(m.idx, s.node)], i - 1, ch, cur,
                     NextCode(found, IsComplete(s.node), asWritten), asWritten)
  }

  /** `Filter.acceptNext` and `EndFilter.acceptNext`. */
  function FilterAccept(c: Cond, f: FilterState, ch: char, cur: Cursor): (r: Step)
    requires c.FilterCond? && ValidCond(c) && MembersWf(c, f.bag)
    ensures Wf(c, r.node)
    decreases c, 3
  {
    if c.filterKind.EndFilter? && f.anyComplete && !f.failed then
      Step(FilterNode(f.(failed := true)), false)
    else
      var u := FilterLoop(c, f.bag, |f.bag|, ch, cur, 0, false);
      var ac := f.anyComplete || u.found == 2;
      if u.found > 0 then
        var coords := if f.acceptedCount == 0 then SetStart(f.coords, cur) else f.coords;
        Step(FilterNode(f.(bag := u.bag, anyComplete := ac, acceptedCount := f.acceptedCount + 1,
                           coords := if ac then SetEnd(coords, cur) else coords)), true)
      else if c.filterKind.Filter? then
        Step(FilterNode(f.(bag := u.bag, anyComplete := false, failed := true)), false)
      else
        Step(Fresh(c), true)
  }

  /** `acceptNext` of the pipes: with no current condition the pipe fails. */
  function PipeAccept(c: Cond, p: PipeState, ch: char, cur: Cursor): (r: Step)
    requires c.PipeCond? && ValidCond(c) && PipeWf(c, p)
    ensures Wf(c, r.node)
    decreases c, 3
  {
    if p.cur.None? then Step(PipeNode(p.(failed := true)), false)
    else match c.pipeKind
      case AllRequired => SequenceAccept(c, p, ch, cur)
      case AllRequiredPlain(_) => SequenceAccept(c, p, ch, cur)
      case OptionalSuffix => MultipleAccept(c, p, ch, cur)
      case RepeatableSeparator => MultipleAccept(c, p, ch, cur)
      case OptionalSuffixesAny => SuffixesAnyAccept(c, p, ch, cur)
  }

  /** `AllRequired.acceptNext` and `AllRequiredPlain.acceptNext`: the current
    * condition takes the character, then the pipe follows it. */
  function SequenceAccept(c: Cond, p: PipeState, ch: char, cur: Cursor): (r: Step)
    requires c.PipeCond? && (c.pipeKind.AllRequired? || c.pipeKind.AllRequiredPlain?)
    requires ValidCond(c) && PipeWf(c, p) && p.cur.Some?
    ensures Wf(c, r.node)
    decreases c, 2
  {
    var sub := CurCond(c, p);
    SequenceStep(c, p, Accept(sub, p.cur.value, ch, cur), ch)
  }

  /** What an `AllRequired` pipe does once its current condition took `ch`
    * with result `s`: when the condition completes, the pipe takes its
    * coordinates (except, for `AllRequiredPlain` ignoring them, those of a
    * set's first condition) and moves to the next condition, the next set,
    * or, after the last condition of the last set, completes. */
  function SequenceStep(c: Cond, p: PipeState, s: Step, ch: char): (r: Step)
    requires c.PipeCond? && (c.pipeKind.AllRequired? || c.pipeKind.AllRequiredPlain?)
    requires ValidCond(c) && PipeWf(c, p) && p.cur.Some? && Wf(CurCond(c, p), s.node)
    ensures Wf(c, r.node)
  {
    Finish(SequenceMove(c, p, s), ch, s.accepted)
  }

  /** Where `SequenceStep` leaves the pipe, before its text and failure flag
    * are updated. */
  function SequenceMove(c: Cond, p: PipeState, s: Step): (q: PipeState)
    requires c.PipeCond? && (c.pipeKind.AllRequired? || c.pipeKind.AllRequiredPlain?)
    requires ValidCond(c) && PipeWf(c, p) && p.cur.Some? && Wf(CurCond(c, p), s.node)
    ensures PipeWf(c, q) && q.dstBuf == p.dstBuf && q.failed == p.failed && q.lookAhead == p.lookAhead
  {
    var p1 := p.(cur := Some(s.node));
    if !IsComplete(s.node) then p1
    else
      var keep := !(c.pipeKind.AllRequiredPlain? && c.pipeKind.ignoreFirstConditionCoords && p.condIdx == 0);
      var p2 := if keep then p1.(coords := MergeCoords(p.coords, CoordsOf(s.node))) else p1;
      var k := p.condIdx + 1;
      if k < |c.sets[p.setIdx].conds| then
        p2.(condIdx := k, cur := Some(FreshAt(c, p.setIdx, k)))
      else if p.setIdx < |c.sets| - 1 then
        p2.(setIdx := p.setIdx + 1, condIdx := 0, cur := Some(FreshAt(c, p.setIdx + 1, 0)))
      else
        p2.(condIdx := k, anyComplete := true, cur := None)
  }

  /** The pipe an `AcceptMultiple` pipe moves to when its current condition
    * completed with `s`. */
  function MultipleNext(c: Cond, p: PipeState, s: Step): (q: PipeState)
    requires c.PipeCond? && (c.pipeKind.OptionalSuffix? || c.pipeKind.RepeatableSeparator?)
    requires PipeWf(c, p) && p.cur.Some? && Wf(CurCond(c, p), s.node)
    ensures PipeWf(c, q) && q.setIdx < |c.sets|
    ensures q == p.(setIdx := q.setIdx, condIdx := q.condIdx, cur := q.cur, anyComplete := q.anyComplete,
                    coords := MergeCoords(p.coords, CoordsOf(s.node)))
  {
    NextCondition(c, p.(cur := Some(s.node), coords := MergeCoords(p.coords, CoordsOf(s.node))))
  }

  /** `AcceptMultiple.acceptNext` (`OptionalSuffix`, `RepeatableSeparator`):
    * the current condition takes the character; when it completes and the
    * pipe moved into a later set with input left, the new condition is
    * offered the next character, peeked and given back. */
  function MultipleAccept(c: Cond, p: PipeState, ch: char, cur: Cursor): (r: Step)
    requires c.PipeCond? && (c.pipeKind.OptionalSuffix? || c.pipeKind.RepeatableSeparator?)
    requires ValidCond(c) && PipeWf(c, p) && p.cur.Some?
    ensures Wf(c, r.node)
    decreases c, 2
  {
    var sub := CurCond(c, p);
    var s := Accept(sub, p.cur.value, ch, cur);
    var q := MultipleNext(c, p, s);
    var la := IsComplete(s.node) && q.setIdx > 0 && q.cur.Some? && cur.HasNext() &&
              Accept(CurCond(c, q), q.cur.value, cur.Peek(), cur.Advance()).accepted;
    MultipleStep(c, p, s, ch, cur, la)
  }

  /** What an `AcceptMultiple` pipe does once its current condition took `ch`
    * with result `s`; `la` says whether the condition it moves to accepted
    * the peeked next character. When the condition completes the pipe takes
    * its coordinates and moves on with `NextCondition`; in a later set with
    * input left, the new condition restarts fresh and the pipe waits for it
    * if it accepted the peeked character, and is otherwise complete and
    * takes no more input; at the end of the input an optional later set
    * completes the pipe. */
  function MultipleStep(c: Cond, p: PipeState, s: Step, ch: char, cur: Cursor, la: bool): (r: Step)
    requires c.PipeCond? && (c.pipeKind.OptionalSuffix? || c.pipeKind.RepeatableSeparator?)
    requires ValidCond(c) && PipeWf(c, p) && p.cur.Some? && Wf(CurCond(c, p), s.node)
    ensures Wf(c, r.node)
  {
    Finish(MultipleMove(c, p, s, cur, la), ch, s.accepted)
  }

  /** Where `MultipleStep` leaves the pipe, before its text and failure flag
    * are updated. */
  function MultipleMove(c: Cond, p: PipeState, s: Step, cur: Cursor, la: bool): (q: PipeState)
    requires c.PipeCond? && (c.pipeKind.OptionalSuffix? || c.pipeKind.RepeatableSeparator?)
    requires ValidCond(c) && PipeWf(c, p) && p.cur.Some? && Wf(CurCond(c, p), s.node)
    ensures PipeWf(c, q) && q.dstBuf == p.dstBuf && q.failed == p.failed && q.lookAhead == p.lookAhead
  {
    if !IsComplete(s.node) then p.(cur := Some(s.node))
    else
      var p2 := MultipleNext(c, p, s);
      if p2.setIdx > 0 && p2.cur.Some? && cur.HasNext() then
        var p3 := p2.(cur := Some(FreshAt(c, p2.setIdx, p2.condIdx)));
        if la then p3.(anyComplete := false) else p3.(anyComplete := true, cur := None)
      else if p2.setIdx > 0 && SubsequentOptional(c.pipeKind) then
        p2.(anyComplete := true, cur := None)
      else
        p2
  }

  /** The search loop of `OptionalSuffixesAny.acceptNext`: each following
    * condition in turn is offered `nextCh` until one accepts it. When
    * `nextCh` was peeked (`peeked`), the condition is restarted fresh
    * afterwards. Returns the pipe and whether a condition accepted. */
  function ScanSuffixes(c: Cond, p: PipeState, nextCh: char, laCur: Cursor, peeked: bool): (r: (PipeState, bool))
    requires c.PipeCond? && c.pipeKind.OptionalSuffixesAny? && ValidCond(c) && PipeWf(c, p)
    requires p.setIdx < |c.sets| && p.condIdx <= |c.sets[p.setIdx].conds|
    ensures PipeWf(c, r.0)
    decreases c, 1, |c.sets| - p.setIdx, |c.sets[p.setIdx].conds| - p.condIdx
  {
    if p.cur.None? then (p, false)
    else
      var sub := CurCond(c, p);
      var s := Accept(sub, p.cur.value, nextCh, laCur);
      var p1 := p.(cur := Some(if peeked then Fresh(sub) else s.node));
      if s.accepted then (p1.(anyComplete := false), true)
      else ScanSuffixes(c, NextCondition(c, p1), nextCh, laCur, peeked)
  }

  /** An `OptionalSuffixesAny` pipe given the character its previous call
    * already fed to the current condition: nothing is fed again and the
    * look-ahead is used up. As written (`asWritten`) the look-ahead is kept,
    * so the same character is skipped again on every later call. */
  function LookAheadSkip(p: PipeState, asWritten: bool): (r: PipeState)
    ensures r == p.(lookAhead := r.lookAhead)
    ensures asWritten ==> r.lookAhead == p.lookAhead
    ensures !asWritten ==> r.lookAhead.None?
  {
    if asWritten then p else p.(lookAhead := None)
  }

  /** `OptionalSuffixesAny.acceptNext`. A character equal to the one the
    * previous call already fed to the current condition is accepted at
    * once, with the look-ahead used up. Otherwise, when the current
    * condition completes or fails, the pipe tries to continue with the next
    * character (peeked) or, if the condition rejected `ch`, with `ch`
    * itself: first the completed condition, then the following ones in
    * order. */
  function SuffixesAnyAccept(c: Cond, p: PipeState, ch: char, cur: Cursor): (r: Step)
    requires c.PipeCond? && c.pipeKind.OptionalSuffixesAny?
    requires ValidCond(c) && PipeWf(c, p) && p.cur.Some?
    ensures Wf(c, r.node)
    decreases c, 2, 1
  {
    if p.lookAhead == Some(ch) then Step(PipeNode(LookAheadSkip(p, false)), true)
    else
      var sub := CurCond(c, p);
      var s := Accept(sub, p.cur.value, ch, cur);
      var again :=
        if IsComplete(s.node) && (!s.accepted || cur.HasNext())
        then Accept(sub, s.node, if s.accepted then cur.Peek() else ch, if s.accepted then cur.Advance() else cur)
        else Step(s.node, false);
      SuffixesAnyStep(c, p, s, again, ch, cur)
  }

  /** `OptionalSuffixesAny.acceptNext` once the current condition has given
    * `s` for `ch` and, when it completed, `again` for the character after
    * (peeked, or `ch` itself if the condition rejected it). */
  function SuffixesAnyStep(c: Cond, p: PipeState, s: Step, again: Step, ch: char, cur: Cursor): (r: Step)
    requires c.PipeCond? && c.pipeKind.OptionalSuffixesAny?
    requires ValidCond(c) && PipeWf(c, p) && p.cur.Some?
    requires Wf(CurCond(c, p), s.node) && Wf(CurCond(c, p), again.node)
    ensures Wf(c, r.node)
    decreases c, 2, 0
  {
    var initRes := s.accepted;
    var complete := IsComplete(s.node);
    var p1 := p.(lookAhead := None, cur := Some(s.node));
    if !complete && !IsFailed(s.node) then Finish(p1, ch, initRes)
    else
      var p2 := if complete then p1.(coords := MergeCoords(p.coords, CoordsOf(s.node))) else p1;
      if !initRes || cur.HasNext() then
        var nextCh := if initRes then cur.Peek() else ch;
        var laCur := if initRes then cur.Advance() else cur;
        var s2 := if complete then again else Step(s.node, false);
        if s2.accepted then
          Finish(p2.(cur := Some(s2.node), anyComplete := false,
                     lookAhead := if initRes then Some(nextCh) else None), ch, true)
        else
          var sc := ScanSuffixes(c, NextCondition(c, p2.(cur := Some(s2.node))), nextCh, laCur, initRes);
          Finish(sc.0, ch, sc.1 || initRes)
      else if complete then
        Finish(p2.(anyComplete := true, cur := None), ch, initRes)
      else
        Finish(p2, ch, initRes)
  }
}

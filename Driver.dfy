/** `CharMultiConditionParser`: the driver that, for each character of the
  * input, tries the factories in order. A simple (non-compound) factory whose
  * pre-filter accepts the character reads ahead until its parser completes
  * or fails; the first that completes produces the token for these
  * characters. Compound factories start a new matcher instead. When no
  * simple token completed, the character is offered to the open compound
  * matchers, newest first, and at most one of them may complete with it.
  *
  * The parsers are the condition values of `Conditions`; `Accept` stands for
  * a parser's `acceptNext` call and `Consume` for a consumer's `accept` call,
  * which the driver records as a token. The specification functions compute
  * what one `parse` call does; the class `MultiConditionParser` holds the
  * open matchers and the tokens handed out, and its `Parse` method is proved
  * to follow them. */
module Drivers {
  import opened Text
  import opened Conditions
  import opened Factories

  /** `MatcherState`: an open compound matcher, the offset where it started,
    * its parser and the index of its consumer. */
  datatype Matcher = Matcher(startOff: int, cond: Cond, node: Node, consumer: nat)

  /** One call of a consumer: its index, the start offset and the length of
    * the token. */
  datatype Token = Token(consumer: nat, start: int, length: int)

  /** Why a `parse` call stops with an exception: a compound matcher used a
    * character that had already completed a token, a completed parser has
    * no coordinates to hand over, or the cursor was asked to unread past the
    * start of the text. */
  datatype Fault = IllegalState | MissingCoords | UnreadPastStart

  /** What a `parse` call returns: the number of characters read, or an
    * exception. */
  datatype Outcome = Read(charsRead: nat) | Thrown(fault: Fault)

  predicate FactoriesWf(fs: seq<Factory>) {
    forall k :: 0 <= k < |fs| ==> |fs[k].firstCharConds| > 0 && ValidCond(fs[k].conditionSet)
  }

  predicate MatcherWf(m: Matcher) {
    ValidCond(m.cond) && Wf(m.cond, m.node)
  }

  predicate MatchersWf(ms: seq<Matcher>) {
    forall k :: 0 <= k < |ms| ==> MatcherWf(ms[k])
  }

  /** `consumeToken`: the consumer is handed the start offset of the matched
    * coordinates and their length; a parser without coordinates has none to
    * hand over. */
  function Consume(n: Node, consumer: nat): (t: Option<Token>)
    ensures t.Some? <==> CoordsOf(n).Some?
    ensures t.Some? ==> t.value.consumer == consumer && t.value.start == CoordsOf(n).value.start &&
                        t.value.start + t.value.length == CoordsOf(n).value.end
  {
    match CoordsOf(n)
    case None => None
    case Some(c) => Some(Token(consumer, c.start, c.end - c.start))
  }

  // ---------------------------------------------------------------------
  // Simple factories: read ahead until the parser completes or fails
  // ---------------------------------------------------------------------

  datatype RunStatus = Completed | Failed | Exhausted

  /** The read-ahead loop of a simple parser: the parser, the cursor and
    * the running count of characters read when it stops. */
  datatype Run = Run(node: Node, cur: Cursor, read: nat, status: RunStatus)

  /** Reads characters and feeds them to the parser until it completes, it
    * fails or the input ends. */
  function SimpleRun(c: Cond, n: Node, cur: Cursor, read: nat): (r: Run)
    requires ValidCond(c) && Wf(c, n) && cur.pos <= |cur.text|
    ensures Wf(c, r.node) && r.cur.text == cur.text && r.cur.pos <= |cur.text|
    ensures read <= r.read && r.cur.pos == cur.pos + (r.read - read)
    ensures cur.HasNext() ==> read < r.read
    ensures r.status.Completed? ==> IsComplete(r.node)
    ensures r.status.Failed? ==> IsFailed(r.node) && !IsComplete(r.node)
    ensures r.status.Exhausted? ==> r.cur.pos == |cur.text|
    decreases |cur.text| - cur.pos
  {
    if !cur.HasNext() then Run(n, cur, read, Exhausted)
    else
      var next := cur.Advance();
      var s := Accept(c, n, cur.Peek(), next);
      if IsComplete(s.node) then Run(s.node, next, read + 1, Completed)
      else if IsFailed(s.node) then Run(s.node, next, read + 1, Failed)
      else SimpleRun(c, s.node, next, read + 1)
  }

  // ---------------------------------------------------------------------
  // The loop over the factories
  // ---------------------------------------------------------------------

  datatype ScanStatus = NoToken | TokenDone(factory: nat) | Stopped(fault: Fault)

  /** The state after the loop over the factories. */
  datatype Scan = Scan(matchers: seq<Matcher>, tokens: seq<Token>, cur: Cursor, charsRead: nat, status: ScanStatus)

  /** The matcher that a compound factory starts at the current position. */
  function Pushed(f: Factory, k: nat, cur: Cursor): (m: Matcher)
    requires ValidCond(f.conditionSet)
    ensures MatcherWf(m)
  {
    Matcher(cur.pos - 1, f.conditionSet, CreateParser(f), k)
  }

  /** The loop over the factories from index `i`. With `asWritten` a simple
    * parser that runs out of input keeps the cursor where it stopped and
    * its count of characters read, as the code is written; without it the
    * cursor is rewound to where the loop started, as after a failure. */
  function FactoryLoop(fs: seq<Factory>, i: nat, ch: char, cur: Cursor, ms: seq<Matcher>, toks: seq<Token>,
                       charsRead: nat, asWritten: bool): (r: Scan)
    requires i <= |fs| && FactoriesWf(fs) && cur.pos <= |cur.text|
    ensures r.cur.text == cur.text && r.cur.pos <= |cur.text|
    ensures MatchersWf(ms) ==> MatchersWf(r.matchers)
    decreases |fs| - i
  {
    if i == |fs| then Scan(ms, toks, cur, charsRead, NoToken)
    else if !Matches(fs[i], ch) then FactoryLoop(fs, i + 1, ch, cur, ms, toks, charsRead, asWritten)
    else if fs[i].compound then FactoryLoop(fs, i + 1, ch, cur, ms + [Pushed(fs[i], i, cur)], toks, charsRead, asWritten)
    else if cur.pos == 0 then Scan(ms, toks, cur, charsRead, Stopped(UnreadPastStart))
    else
      var run := SimpleRun(fs[i].conditionSet, CreateParser(fs[i]), cur.Unread(1), charsRead);
      if run.status.Completed? then
        match Consume(run.node, i)
        case None => Scan(ms, toks, run.cur, run.read, Stopped(MissingCoords))
        case Some(t) => Scan(ms, toks + [t], run.cur, run.read, TokenDone(i))
      else if run.status.Failed? || !asWritten then
        if run.read - 1 > run.cur.pos then Scan(ms, toks, run.cur, run.read, Stopped(UnreadPastStart))
        else FactoryLoop(fs, i + 1, ch, run.cur.Unread(run.read - 1), ms, toks, 0, asWritten)
      else FactoryLoop(fs, i + 1, ch, run.cur, ms, toks, run.read, asWritten)
  }

  // ---------------------------------------------------------------------
  // Offering the character to the compound matchers
  // ---------------------------------------------------------------------

  /** The matcher after its parser was offered `ch`. */
  function Offer(m: Matcher, ch: char, cur: Cursor): (r: Matcher)
    requires MatcherWf(m)
    ensures MatcherWf(r) && r.cond == m.cond && r.consumer == m.consumer && r.startOff == m.startOff
  {
    m.(node := Accept(m.cond, m.node, ch, cur).node)
  }

  predicate Done(m: Matcher) {
    IsComplete(m.node) || IsFailed(m.node)
  }

  /** `ArrayList.remove(k)`: the others keep their order. */
  function Remove(ms: seq<Matcher>, k: nat): (r: seq<Matcher>)
    requires k < |ms|
    ensures |r| == |ms| - 1 && r[..k] == ms[..k] && r[k..] == ms[k + 1..]
  {
    ms[..k] + ms[k + 1..]
  }

  datatype Pass = Pass(matchers: seq<Matcher>, tokens: seq<Token>, fault: Option<Fault>)

  /** After a one-character token: the older matchers, from index `k - 1`
    * down, are offered the same character; `true` when one of them
    * completes or fails with it. */
  function Reoffer(ms: seq<Matcher>, k: nat, ch: char, cur: Cursor): (r: (seq<Matcher>, bool))
    requires k <= |ms| && MatchersWf(ms)
    ensures |r.0| == |ms| && MatchersWf(r.0)
    decreases k
  {
    if k == 0 then (ms, false)
    else
      var m := Offer(ms[k - 1], ch, cur);
      if Done(m) then (ms[k - 1 := m], true) else Reoffer(ms[k - 1 := m], k - 1, ch, cur)
  }

  /** `passCompletedCharsToCompoundParsers` over the matchers below index
    * `i`, newest first: a failed matcher is removed; the first that
    * completes hands its token to its consumer, is removed and ends the
    * loop. */
  function PassLoop(ms: seq<Matcher>, i: nat, ch: char, cur: Cursor, toks: seq<Token>): (r: Pass)
    requires i <= |ms| && MatchersWf(ms)
    ensures MatchersWf(r.matchers)
    decreases i
  {
    if i == 0 then Pass(ms, toks, None)
    else
      var m := Offer(ms[i - 1], ch, cur);
      if IsComplete(m.node) then
        match Consume(m.node, m.consumer)
        case None => Pass(ms[i - 1 := m], toks, Some(MissingCoords))
        case Some(t) =>
          if t.length == 1 then
            var (ms2, bad) := Reoffer(ms[i - 1 := m], i - 1, ch, cur);
            if bad then Pass(ms2, toks + [t], Some(IllegalState))
            else Pass(Remove(ms2, i - 1), toks + [t], None)
          else Pass(Remove(ms, i - 1), toks + [t], None)
      else if IsFailed(m.node) then PassLoop(Remove(ms, i - 1), i - 1, ch, cur, toks)
      else PassLoop(ms[i - 1 := m], i - 1, ch, cur, toks)
  }

  // ---------------------------------------------------------------------
  // One parse call
  // ---------------------------------------------------------------------

  datatype Parsed = Parsed(matchers: seq<Matcher>, tokens: seq<Token>, cur: Cursor, outcome: Outcome)

  /** `parse(ch, buf)`: the loop over the factories, then, when no simple
    * token completed, the pass over the compound matchers. */
  function ParseSpec(fs: seq<Factory>, ms: seq<Matcher>, toks: seq<Token>, ch: char, cur: Cursor, asWritten: bool): (r: Parsed)
    requires FactoriesWf(fs) && MatchersWf(ms) && cur.pos <= |cur.text|
    ensures MatchersWf(r.matchers)
  {
    var s := FactoryLoop(fs, 0, ch, cur, ms, toks, 0, asWritten);
    match s.status
    case Stopped(f) => Parsed(s.matchers, s.tokens, s.cur, Thrown(f))
    case TokenDone(_) => Parsed(s.matchers, s.tokens, s.cur, Read(s.charsRead))
    case NoToken =>
      var p := PassLoop(s.matchers, |s.matchers|, ch, s.cur, s.tokens);
      Parsed(p.matchers, p.tokens, s.cur, if p.fault.Some? then Thrown(p.fault.value) else Read(s.charsRead))
  }

  // ---------------------------------------------------------------------
  // What the pass over the compound matchers does
  // ---------------------------------------------------------------------

  /** Every matcher offered `ch`, in order, keeping those that neither
    * complete nor fail. */
  function Offered(ms: seq<Matcher>, ch: char, cur: Cursor): (r: seq<Matcher>)
    requires MatchersWf(ms)
    ensures MatchersWf(r) && |r| <= |ms|
    decreases |ms|
  {
    if |ms| == 0 then []
    else
      var m := Offer(ms[0], ch, cur);
      (if Done(m) then [] else [m]) + Offered(ms[1..], ch, cur)
  }

  /** Every matcher offered `ch`, all kept. */
  function Advanced(ms: seq<Matcher>, ch: char, cur: Cursor): (r: seq<Matcher>)
    requires MatchersWf(ms)
    ensures |r| == |ms| && forall k :: 0 <= k < |ms| ==> r[k] == Offer(ms[k], ch, cur)
  {
    seq(|ms|, k requires 0 <= k < |ms| => Offer(ms[k], ch, cur))
  }

  /** The newest matcher below index `i` that completes with `ch`. */
  function Newest(ms: seq<Matcher>, i: nat, ch: char, cur: Cursor): (r: Option<nat>)
    requires i <= |ms| && MatchersWf(ms)
    ensures r.Some? ==> r.value < i && IsComplete(Offer(ms[r.value], ch, cur).node)
    ensures r.Some? ==> forall k :: r.value < k < i ==> !IsComplete(Offer(ms[k], ch, cur).node)
    ensures r.None? ==> forall k :: 0 <= k < i ==> !IsComplete(Offer(ms[k], ch, cur).node)
    decreases i
  {
    if i == 0 then None
    else if IsComplete(Offer(ms[i - 1], ch, cur).node) then Some(i - 1)
    else Newest(ms, i - 1, ch, cur)
  }

  /** Some matcher below index `k` completes or fails with `ch`. */
  predicate AnyDone(ms: seq<Matcher>, k: nat, ch: char, cur: Cursor)
    requires k <= |ms| && MatchersWf(ms)
  {
    exists j :: 0 <= j < k && Done(Offer(ms[j], ch, cur))
  }

  /** The re-offer reports a clash exactly when an older matcher completes
    * or fails with the character, and otherwise leaves every older matcher
    * advanced and the rest as they were. */
  lemma {:induction false} ReofferSpec(orig: seq<Matcher>, ms: seq<Matcher>, k: nat, ch: char, cur: Cursor)
    requires MatchersWf(orig) && MatchersWf(ms) && k <= |orig| && k <= |ms| && ms[..k] == orig[..k]
    ensures var r := Reoffer(ms, k, ch, cur);
            (r.1 <==> AnyDone(orig, k, ch, cur)) &&
            (!r.1 ==> r.0 == Advanced(orig[..k], ch, cur) + ms[k..])
    decreases k, 1
  {
    if k > 0 {
      assert ms[k - 1] == orig[k - 1] by { assert ms[..k][k - 1] == orig[..k][k - 1]; }
      if !Done(Offer(ms[k - 1], ch, cur)) {
        ReofferNext(orig, ms, k, ch, cur);
      }
    }
  }

  /** The step of the re-offer at a matcher that neither completes nor
    * fails. */
  lemma {:induction false} ReofferNext(orig: seq<Matcher>, ms: seq<Matcher>, k: nat, ch: char, cur: Cursor)
    requires MatchersWf(orig) && MatchersWf(ms) && 0 < k <= |orig| && k <= |ms| && ms[..k] == orig[..k]
    requires ms[k - 1] == orig[k - 1] && !Done(Offer(ms[k - 1], ch, cur))
    ensures var r := Reoffer(ms, k, ch, cur);
            (r.1 <==> AnyDone(orig, k, ch, cur)) &&
            (!r.1 ==> r.0 == Advanced(orig[..k], ch, cur) + ms[k..])
    decreases k, 0
  {
    var m := Offer(ms[k - 1], ch, cur);
    var ms1 := ms[k - 1 := m];
    assert ms1[..k - 1] == orig[..k - 1] by { assert ms1[..k - 1] == ms[..k][..k - 1]; }
    ReofferSpec(orig, ms1, k - 1, ch, cur);
    ReofferStep(ms, k, ch, cur);
    assert AnyDone(orig, k, ch, cur) == AnyDone(orig, k - 1, ch, cur);
    if !Reoffer(ms1, k - 1, ch, cur).1 {
      AdvancedSnoc(orig, ms, k, ch, cur);
    }
  }

  /** The re-offer at a matcher that neither completes nor fails goes on
    * below it. */
  lemma ReofferStep(ms: seq<Matcher>, k: nat, ch: char, cur: Cursor)
    requires MatchersWf(ms) && 0 < k <= |ms| && !Done(Offer(ms[k - 1], ch, cur))
    ensures Reoffer(ms, k, ch, cur) == Reoffer(ms[k - 1 := Offer(ms[k - 1], ch, cur)], k - 1, ch, cur)
  {
  }

  /** Advancing one more matcher, and putting it back in place. */
  lemma AdvancedSnoc(orig: seq<Matcher>, ms: seq<Matcher>, k: nat, ch: char, cur: Cursor)
    requires MatchersWf(orig) && 0 < k <= |orig| && k <= |ms| && ms[k - 1] == orig[k - 1]
    ensures var m := Offer(orig[k - 1], ch, cur);
            Advanced(orig[..k - 1], ch, cur) + ms[k - 1 := m][k - 1..] == Advanced(orig[..k], ch, cur) + ms[k..]
  {
    var m := Offer(orig[k - 1], ch, cur);
    assert ms[k - 1 := m][k - 1..] == [m] + ms[k..];
    assert Advanced(orig[..k], ch, cur) == Advanced(orig[..k - 1], ch, cur) + [m];
  }

  lemma OfferedCons(ms: seq<Matcher>, i: nat, ch: char, cur: Cursor)
    requires MatchersWf(ms) && 0 < i <= |ms|
    ensures var m := Offer(ms[i - 1], ch, cur);
            Offered(ms[i - 1..], ch, cur) == (if Done(m) then [] else [m]) + Offered(ms[i..], ch, cur)
  {
    assert ms[i - 1..][1..] == ms[i..];
  }

  /** What the pass leaves, given the newest matcher that completes (`nw`):
    * with none, every matcher is offered the character and those that
    * complete or fail are gone. Otherwise that matcher hands over its token
    * and is removed; all newer ones were offered the character and those
    * that failed are gone; the older ones are left as they were, or, after a
    * one-character token, are offered the character too, which is an error
    * when one of them completes or fails with it. */
  ghost predicate PassOutcome(orig: seq<Matcher>, nw: Option<nat>, ch: char, cur: Cursor, toks: seq<Token>, r: Pass)
    requires MatchersWf(orig) && (nw.Some? ==> nw.value < |orig|)
  {
    match nw
    case None => r == Pass(Offered(orig, ch, cur), toks, None)
    case Some(j) =>
      var m := Offer(orig[j], ch, cur);
      match Consume(m.node, m.consumer)
      case None => r.fault == Some(MissingCoords) && r.tokens == toks
      case Some(t) =>
        r.tokens == toks + [t] &&
        if t.length != 1 then r == Pass(orig[..j] + Offered(orig[j + 1..], ch, cur), toks + [t], None)
        else if AnyDone(orig, j, ch, cur) then r.fault == Some(IllegalState)
        else r == Pass(Advanced(orig[..j], ch, cur) + Offered(orig[j + 1..], ch, cur), toks + [t], None)
  }

  lemma PartlyOfferedWf(orig: seq<Matcher>, ms: seq<Matcher>, i: nat, ch: char, cur: Cursor)
    requires MatchersWf(orig) && i <= |orig|
    requires ms == orig[..i] + Offered(orig[i..], ch, cur)
    ensures MatchersWf(ms) && i <= |ms| && ms[..i] == orig[..i] && ms[i..] == Offered(orig[i..], ch, cur)
  {
    forall k | 0 <= k < |ms| ensures MatcherWf(ms[k]) {
      if k < i {
        assert ms[k] == orig[..i][k];
      } else {
        assert ms[k] == Offered(orig[i..], ch, cur)[k - i];
      }
    }
  }

  /** The step of the pass at a matcher that completes. */
  lemma PassLoopComplete(ms: seq<Matcher>, i: nat, ch: char, cur: Cursor, toks: seq<Token>)
    requires 0 < i <= |ms| && MatchersWf(ms) && IsComplete(Offer(ms[i - 1], ch, cur).node)
    ensures var m := Offer(ms[i - 1], ch, cur);
            PassLoop(ms, i, ch, cur, toks) ==
              match Consume(m.node, m.consumer)
              case None => Pass(ms[i - 1 := m], toks, Some(MissingCoords))
              case Some(t) =>
                if t.length == 1 then
                  var (ms2, bad) := Reoffer(ms[i - 1 := m], i - 1, ch, cur);
                  if bad then Pass(ms2, toks + [t], Some(IllegalState))
                  else Pass(Remove(ms2, i - 1), toks + [t], None)
                else Pass(Remove(ms, i - 1), toks + [t], None)
  {
  }

  /** The step of the pass at the newest matcher that completes with a
    * one-character token: the older matchers are offered the character. */
  lemma PassCompleteOne(orig: seq<Matcher>, ms: seq<Matcher>, i: nat, ch: char, cur: Cursor, toks: seq<Token>)
    requires MatchersWf(orig) && 0 < i <= |orig|
    requires ms == orig[..i] + Offered(orig[i..], ch, cur)
    requires var m := Offer(orig[i - 1], ch, cur);
             IsComplete(m.node) && Consume(m.node, m.consumer).Some? && Consume(m.node, m.consumer).value.length == 1
    ensures MatchersWf(ms) && i <= |ms|
    ensures var m := Offer(orig[i - 1], ch, cur);
            var r := Reoffer(ms[i - 1 := m], i - 1, ch, cur);
            (r.1 <==> AnyDone(orig, i - 1, ch, cur)) &&
            (!r.1 ==> Remove(r.0, i - 1) == Advanced(orig[..i - 1], ch, cur) + Offered(orig[i..], ch, cur))
  {
    PartlyOfferedAt(orig, ms, i, ch, cur);
    var m := Offer(orig[i - 1], ch, cur);
    var ms1 := ms[i - 1 := m];
    assert ms1[..i - 1] == orig[..i - 1];
    ReofferSpec(orig, ms1, i - 1, ch, cur);
    var (ms2, bad) := Reoffer(ms1, i - 1, ch, cur);
    if !bad {
      assert ms1[i - 1..] == [m] + ms[i..];
    }
  }

  /** The step of the pass at the newest matcher that completes. */
  lemma PassCompleteStep(orig: seq<Matcher>, ms: seq<Matcher>, i: nat, ch: char, cur: Cursor, toks: seq<Token>)
    requires MatchersWf(orig) && 0 < i <= |orig|
    requires ms == orig[..i] + Offered(orig[i..], ch, cur)
    requires IsComplete(Offer(orig[i - 1], ch, cur).node)
    ensures MatchersWf(ms) && i <= |ms|
    ensures PassOutcome(orig, Some(i - 1), ch, cur, toks, PassLoop(ms, i, ch, cur, toks))
  {
    PartlyOfferedAt(orig, ms, i, ch, cur);
    PassLoopComplete(ms, i, ch, cur, toks);
    var m := Offer(orig[i - 1], ch, cur);
    match Consume(m.node, m.consumer)
    case None =>
    case Some(t) =>
      if t.length == 1 {
        PassCompleteOne(orig, ms, i, ch, cur, toks);
      } else {
        assert Remove(ms, i - 1) == orig[..i - 1] + ms[i..];
      }
  }

  /** The step of the pass at a matcher that does not complete. */
  lemma PassLoopSkip(ms: seq<Matcher>, i: nat, ch: char, cur: Cursor, toks: seq<Token>)
    requires 0 < i <= |ms| && MatchersWf(ms) && !IsComplete(Offer(ms[i - 1], ch, cur).node)
    ensures var m := Offer(ms[i - 1], ch, cur);
            PassLoop(ms, i, ch, cur, toks) ==
              PassLoop(if IsFailed(m.node) then Remove(ms, i - 1) else ms[i - 1 := m], i - 1, ch, cur, toks)
  {
  }

  /** Once the pass has reached the oldest matcher, every matcher has been
    * offered the character. */
  lemma PassLoopEnd(orig: seq<Matcher>, ms: seq<Matcher>, ch: char, cur: Cursor, toks: seq<Token>)
    requires MatchersWf(orig) && ms == orig[..0] + Offered(orig[0..], ch, cur)
    ensures MatchersWf(ms) && PassLoop(ms, 0, ch, cur, toks) == Pass(Offered(orig, ch, cur), toks, None)
  {
    assert orig[..0] == [] && orig[0..] == orig;
  }

  /** The pass over the compound matchers below index `i`, where the ones
    * from `i` on were already offered the character and none of them
    * completed. */
  lemma {:induction false} PassLoopSpec(orig: seq<Matcher>, ms: seq<Matcher>, i: nat, ch: char, cur: Cursor, toks: seq<Token>)
    requires MatchersWf(orig) && i <= |orig|
    requires ms == orig[..i] + Offered(orig[i..], ch, cur)
    requires forall k :: i <= k < |orig| ==> !IsComplete(Offer(orig[k], ch, cur).node)
    ensures MatchersWf(ms) && i <= |ms|
    ensures PassOutcome(orig, Newest(orig, i, ch, cur), ch, cur, toks, PassLoop(ms, i, ch, cur, toks))
    decreases i, 1
  {
    PartlyOfferedWf(orig, ms, i, ch, cur);
    if i == 0 {
      PassLoopEnd(orig, ms, ch, cur, toks);
    } else if IsComplete(Offer(orig[i - 1], ch, cur).node) {
      PassCompleteStep(orig, ms, i, ch, cur, toks);
    } else {
      PassLoopNext(orig, ms, i, ch, cur, toks);
    }
  }

  lemma PartlyOfferedAt(orig: seq<Matcher>, ms: seq<Matcher>, i: nat, ch: char, cur: Cursor)
    requires MatchersWf(orig) && 0 < i <= |orig|
    requires ms == orig[..i] + Offered(orig[i..], ch, cur)
    ensures MatchersWf(ms) && i <= |ms| && ms[i - 1] == orig[i - 1] && ms[..i - 1] == orig[..i - 1]
    ensures ms[i..] == Offered(orig[i..], ch, cur)
  {
    PartlyOfferedWf(orig, ms, i, ch, cur);
    assert ms[i - 1] == orig[..i][i - 1];
    assert ms[..i - 1] == orig[..i][..i - 1];
  }

  /** The matchers once the one at `i - 1` has failed and been removed. */
  lemma NextDropped(orig: seq<Matcher>, ms: seq<Matcher>, i: nat, ch: char, cur: Cursor)
    requires MatchersWf(orig) && 0 < i <= |orig|
    requires ms == orig[..i] + Offered(orig[i..], ch, cur)
    requires Done(Offer(orig[i - 1], ch, cur))
    ensures MatchersWf(ms) && i <= |ms|
    ensures Remove(ms, i - 1) == orig[..i - 1] + Offered(orig[i - 1..], ch, cur)
  {
    PartlyOfferedAt(orig, ms, i, ch, cur);
    OfferedCons(orig, i, ch, cur);
  }

  /** The matchers once the one at `i - 1` has been offered the character
    * and kept. */
  lemma NextKept(orig: seq<Matcher>, ms: seq<Matcher>, i: nat, ch: char, cur: Cursor)
    requires MatchersWf(orig) && 0 < i <= |orig|
    requires ms == orig[..i] + Offered(orig[i..], ch, cur)
    requires !Done(Offer(orig[i - 1], ch, cur))
    ensures MatchersWf(ms) && i <= |ms|
    ensures ms[i - 1 := Offer(orig[i - 1], ch, cur)] == orig[..i - 1] + Offered(orig[i - 1..], ch, cur)
  {
    PartlyOfferedAt(orig, ms, i, ch, cur);
    OfferedCons(orig, i, ch, cur);
    var m := Offer(orig[i - 1], ch, cur);
    assert ms[i - 1 := m] == ms[..i - 1] + ([m] + ms[i..]);
  }

  /** The step of the pass at a matcher that does not complete. */
  lemma {:induction false} PassLoopNext(orig: seq<Matcher>, ms: seq<Matcher>, i: nat, ch: char, cur: Cursor, toks: seq<Token>)
    requires MatchersWf(orig) && 0 < i <= |orig|
    requires ms == orig[..i] + Offered(orig[i..], ch, cur)
    requires forall k :: i <= k < |orig| ==> !IsComplete(Offer(orig[k], ch, cur).node)
    requires !IsComplete(Offer(orig[i - 1], ch, cur).node)
    ensures MatchersWf(ms) && i <= |ms|
    ensures PassOutcome(orig, Newest(orig, i, ch, cur), ch, cur, toks, PassLoop(ms, i, ch, cur, toks))
    decreases i, 0
  {
    PartlyOfferedAt(orig, ms, i, ch, cur);
    PassLoopSkip(ms, i, ch, cur, toks);
    assert Newest(orig, i, ch, cur) == Newest(orig, i - 1, ch, cur);
    var m := Offer(orig[i - 1], ch, cur);
    if IsFailed(m.node) {
      NextDropped(orig, ms, i, ch, cur);
      PassLoopSpec(orig, Remove(ms, i - 1), i - 1, ch, cur, toks);
    } else {
      NextKept(orig, ms, i, ch, cur);
      PassLoopSpec(orig, ms[i - 1 := m], i - 1, ch, cur, toks);
    }
  }

  /** The whole pass, from the newest matcher down. */
  lemma PassSpec(ms: seq<Matcher>, ch: char, cur: Cursor, toks: seq<Token>)
    requires MatchersWf(ms)
    ensures PassOutcome(ms, Newest(ms, |ms|, ch, cur), ch, cur, toks, PassLoop(ms, |ms|, ch, cur, toks))
  {
    assert ms == ms[..|ms|] + Offered(ms[|ms|..], ch, cur);
    PassLoopSpec(ms, ms, |ms|, ch, cur, toks);
  }

  /** A pass adds at most one token: a character completes at most one
    * compound token. */
  lemma PassAddsAtMostOneToken(ms: seq<Matcher>, ch: char, cur: Cursor, toks: seq<Token>)
    requires MatchersWf(ms)
    ensures var r := PassLoop(ms, |ms|, ch, cur, toks);
            r.tokens == toks || (exists t :: r.tokens == toks + [t])
  {
    PassSpec(ms, ch, cur, toks);
  }

  // ---------------------------------------------------------------------
  // What the loop over the factories does
  // ---------------------------------------------------------------------

  /** The matchers that the compound factories from `i` to `j` whose
    * pre-filter accepts `ch` start, in order. */
  function Pushes(fs: seq<Factory>, i: nat, j: nat, ch: char, cur: Cursor): (r: seq<Matcher>)
    requires i <= j <= |fs| && FactoriesWf(fs)
    ensures MatchersWf(r)
    decreases j - i
  {
    if i == j then []
    else (if Matches(fs[i], ch) && fs[i].compound then [Pushed(fs[i], i, cur)] else []) + Pushes(fs, i + 1, j, ch, cur)
  }

  /** The read-ahead of simple factory `k`, started on the character just
    * read. */
  function RunOf(fs: seq<Factory>, k: nat, cur: Cursor): Run
    requires k < |fs| && FactoriesWf(fs) && 1 <= cur.pos <= |cur.text|
  {
    SimpleRun(fs[k].conditionSet, CreateParser(fs[k]), cur.Unread(1), 0)
  }

  /** The first simple factory from `i` on whose pre-filter accepts `ch` and
    * whose parser completes. */
  function FirstCompleting(fs: seq<Factory>, i: nat, ch: char, cur: Cursor): (r: Option<nat>)
    requires i <= |fs| && FactoriesWf(fs) && 1 <= cur.pos <= |cur.text|
    ensures r.Some? ==> i <= r.value < |fs| && Matches(fs[r.value], ch) && !fs[r.value].compound &&
                        RunOf(fs, r.value, cur).status.Completed?
    ensures forall k :: i <= k < (if r.Some? then r.value else |fs|) && Matches(fs[k], ch) && !fs[k].compound ==>
              !RunOf(fs, k, cur).status.Completed?
    decreases |fs| - i
  {
    if i == |fs| then None
    else if Matches(fs[i], ch) && !fs[i].compound && RunOf(fs, i, cur).status.Completed? then Some(i)
    else FirstCompleting(fs, i + 1, ch, cur)
  }

  /** What the loop over the factories from `i` leaves, given the first
    * simple factory that completes (`fc`): with none, the cursor is back
    * where it was, no character counts as read and every compound factory
    * whose pre-filter accepts `ch` started a matcher. Otherwise only the
    * compound factories before it did, and its token is handed out. */
  ghost predicate LoopOutcome(fs: seq<Factory>, i: nat, ch: char, cur: Cursor, ms: seq<Matcher>, toks: seq<Token>,
                              fc: Option<nat>, r: Scan)
    requires i <= |fs| && FactoriesWf(fs) && 1 <= cur.pos <= |cur.text|
    requires fc.Some? ==> i <= fc.value < |fs|
  {
    match fc
    case None => r == Scan(ms + Pushes(fs, i, |fs|, ch, cur), toks, cur, 0, NoToken)
    case Some(j) =>
      var run := RunOf(fs, j, cur);
      r.matchers == ms + Pushes(fs, i, j, ch, cur) && r.cur == run.cur && r.charsRead == run.read &&
      match Consume(run.node, j)
      case None => r.tokens == toks && r.status == Stopped(MissingCoords)
      case Some(t) => r.tokens == toks + [t] && r.status == TokenDone(j)
  }

  lemma PushesCons(fs: seq<Factory>, i: nat, ch: char, cur: Cursor, ms: seq<Matcher>)
    requires i < |fs| && FactoriesWf(fs) && Matches(fs[i], ch) && fs[i].compound
    ensures forall j :: i + 1 <= j <= |fs| ==>
              (ms + [Pushed(fs[i], i, cur)]) + Pushes(fs, i + 1, j, ch, cur) == ms + Pushes(fs, i, j, ch, cur)
  {
  }

  /** A simple factory whose parser does not complete leaves the cursor
    * and the count as they were. */
  lemma SimpleRewinds(fs: seq<Factory>, i: nat, ch: char, cur: Cursor, ms: seq<Matcher>, toks: seq<Token>)
    requires i < |fs| && FactoriesWf(fs) && 1 <= cur.pos <= |cur.text|
    requires Matches(fs[i], ch) && !fs[i].compound && !RunOf(fs, i, cur).status.Completed?
    ensures FactoryLoop(fs, i, ch, cur, ms, toks, 0, false) == FactoryLoop(fs, i + 1, ch, cur, ms, toks, 0, false)
  {
    var run := RunOf(fs, i, cur);
    assert run.cur.Unread(run.read - 1) == cur;
  }

  /** The step of the rewinding loop at a simple factory whose pre-filter
    * accepts `ch`: a completing parser ends the loop, any other leaves the
    * cursor where it was. */
  lemma LoopAtSimple(fs: seq<Factory>, i: nat, ch: char, cur: Cursor, ms: seq<Matcher>, toks: seq<Token>)
    requires i < |fs| && FactoriesWf(fs) && 1 <= cur.pos <= |cur.text| && Matches(fs[i], ch) && !fs[i].compound
    ensures var run := RunOf(fs, i, cur);
            (!run.status.Completed? ==>
               1 <= run.read && run.read - 1 <= run.cur.pos && run.cur.Unread(run.read - 1) == cur &&
               FactoryLoop(fs, i, ch, cur, ms, toks, 0, false) == FactoryLoop(fs, i + 1, ch, cur, ms, toks, 0, false)) &&
            (run.status.Completed? ==>
               FactoryLoop(fs, i, ch, cur, ms, toks, 0, false) ==
                 match Consume(run.node, i)
                 case None => Scan(ms, toks, run.cur, run.read, Stopped(MissingCoords))
                 case Some(t) => Scan(ms, toks + [t], run.cur, run.read, TokenDone(i)))
  {
    if !RunOf(fs, i, cur).status.Completed? {
      SimpleRewinds(fs, i, ch, cur, ms, toks);
    }
  }

  /** The loop over the factories, rewinding after every simple parser that
    * does not complete: the first simple factory whose parser completes
    * produces the token and ends the loop. */
  lemma {:induction false} FactoryLoopSpec(fs: seq<Factory>, i: nat, ch: char, cur: Cursor, ms: seq<Matcher>, toks: seq<Token>)
    requires i <= |fs| && FactoriesWf(fs) && 1 <= cur.pos <= |cur.text|
    ensures LoopOutcome(fs, i, ch, cur, ms, toks, FirstCompleting(fs, i, ch, cur), FactoryLoop(fs, i, ch, cur, ms, toks, 0, false))
    decreases |fs| - i, 1
  {
    if i < |fs| && Matches(fs[i], ch) && fs[i].compound {
      FactoryLoopCompound(fs, i, ch, cur, ms, toks);
    } else if i < |fs| && !(Matches(fs[i], ch) && RunOf(fs, i, cur).status.Completed?) {
      FactoryLoopNext(fs, i, ch, cur, ms, toks);
    }
  }

  /** The step of the loop at a compound factory whose pre-filter accepts
    * `ch`. */
  lemma {:induction false} FactoryLoopCompound(fs: seq<Factory>, i: nat, ch: char, cur: Cursor, ms: seq<Matcher>, toks: seq<Token>)
    requires i < |fs| && FactoriesWf(fs) && 1 <= cur.pos <= |cur.text| && Matches(fs[i], ch) && fs[i].compound
    ensures LoopOutcome(fs, i, ch, cur, ms, toks, FirstCompleting(fs, i, ch, cur), FactoryLoop(fs, i, ch, cur, ms, toks, 0, false))
    decreases |fs| - i, 0
  {
    FactoryLoopSpec(fs, i + 1, ch, cur, ms + [Pushed(fs[i], i, cur)], toks);
    PushesCons(fs, i, ch, cur, ms);
  }

  /** The step of the loop at a factory that starts nothing and produces no
    * token. */
  lemma {:induction false} FactoryLoopNext(fs: seq<Factory>, i: nat, ch: char, cur: Cursor, ms: seq<Matcher>, toks: seq<Token>)
    requires i < |fs| && FactoriesWf(fs) && 1 <= cur.pos <= |cur.text| && !(Matches(fs[i], ch) && fs[i].compound)
    requires !(Matches(fs[i], ch) && RunOf(fs, i, cur).status.Completed?)
    ensures LoopOutcome(fs, i, ch, cur, ms, toks, FirstCompleting(fs, i, ch, cur), FactoryLoop(fs, i, ch, cur, ms, toks, 0, false))
    decreases |fs| - i, 0
  {
    if Matches(fs[i], ch) {
      SimpleRewinds(fs, i, ch, cur, ms, toks);
    }
    assert FirstCompleting(fs, i, ch, cur) == FirstCompleting(fs, i + 1, ch, cur);
    assert forall j :: i + 1 <= j <= |fs| ==> Pushes(fs, i, j, ch, cur) == Pushes(fs, i + 1, j, ch, cur);
    FactoryLoopSpec(fs, i + 1, ch, cur, ms, toks);
  }

  /** One `parse` call, rewinding after every simple parser that does not
    * complete: either a simple factory completes a token, and the open
    * compound matchers are not offered the character, or the cursor is back
    * where it was, nothing counts as read and the matchers (old and newly
    * started) go through the pass. Either way at most one token is handed
    * out. */
  lemma ParseSpecCases(fs: seq<Factory>, ms: seq<Matcher>, toks: seq<Token>, ch: char, cur: Cursor)
    requires FactoriesWf(fs) && MatchersWf(ms) && 1 <= cur.pos <= |cur.text|
    ensures var p := ParseSpec(fs, ms, toks, ch, cur, false);
      (p.tokens == toks || exists t :: p.tokens == toks + [t]) &&
      match FirstCompleting(fs, 0, ch, cur)
      case Some(j) =>
        p.matchers == ms + Pushes(fs, 0, j, ch, cur) && p.cur == RunOf(fs, j, cur).cur &&
        (p.outcome == Read(RunOf(fs, j, cur).read) || p.outcome == Thrown(MissingCoords))
      case None =>
        var all := ms + Pushes(fs, 0, |fs|, ch, cur);
        var q := PassLoop(all, |all|, ch, cur, toks);
        p.cur == cur && p.matchers == q.matchers && p.tokens == q.tokens &&
        p.outcome == (if q.fault.Some? then Thrown(q.fault.value) else Read(0))
  {
    FactoryLoopSpec(fs, 0, ch, cur, ms, toks);
    if FirstCompleting(fs, 0, ch, cur).None? {
      var all := ms + Pushes(fs, 0, |fs|, ch, cur);
      PassAddsAtMostOneToken(all, ch, cur, toks);
    }
  }

  // ---------------------------------------------------------------------
  // The driver
  // ---------------------------------------------------------------------

  /** One character of the read-ahead. */
  lemma SimpleRunStep(c: Cond, n: Node, cur: Cursor, read: nat)
    requires ValidCond(c) && Wf(c, n) && cur.HasNext()
    ensures var next := cur.Advance();
            var m := Accept(c, n, cur.Peek(), next).node;
            SimpleRun(c, n, cur, read) ==
              if IsComplete(m) then Run(m, next, read + 1, Completed)
              else if IsFailed(m) then Run(m, next, read + 1, Failed)
              else SimpleRun(c, m, next, read + 1)
  {
  }

  /** One turn of the read-ahead loop: reads a character, feeds it to the
    * parser and says whether the parser stopped. */
  method ReadOne(c: Cond, n: Node, buf: TextParser, charsRead: nat) returns (next: Node, read: nat, stop: bool, status: RunStatus)
    requires ValidCond(c) && Wf(c, n) && buf.Valid() && buf.pos < |buf.text|
    modifies buf
    ensures buf.Valid() && Wf(c, next) && buf.pos == old(buf.pos) + 1
    ensures stop ==> Run(next, buf.State(), read, status) == SimpleRun(c, n, old(buf.State()), charsRead)
    ensures !stop ==> SimpleRun(c, next, buf.State(), read) == SimpleRun(c, n, old(buf.State()), charsRead)
  {
    ghost var before := buf.State();
    SimpleRunStep(c, n, before, charsRead);
    var ch2 := buf.NextChar();
    assert ch2 == before.Peek() && buf.State() == before.Advance();
    read := charsRead + 1;
    next := Accept(c, n, ch2, buf.State()).node;
    stop := IsComplete(next) || IsFailed(next);
    status := if IsComplete(next) then Completed else if IsFailed(next) then Failed else Exhausted;
  }

  /** The read-ahead loop of a simple parser, on the shared cursor. */
  method RunSimple(c: Cond, buf: TextParser) returns (n: Node, charsRead: nat, status: RunStatus)
    requires ValidCond(c) && buf.Valid()
    modifies buf
    ensures buf.Valid()
    ensures Run(n, buf.State(), charsRead, status) == SimpleRun(c, Fresh(c), old(buf.State()), 0)
  {
    n := Fresh(c);
    charsRead := 0;
    status := Exhausted;
    var has := buf.HasNext();
    while has
      invariant buf.Valid() && Wf(c, n) && (has <==> buf.pos < |buf.text|)
      invariant SimpleRun(c, n, buf.State(), charsRead) == SimpleRun(c, Fresh(c), old(buf.State()), 0)
      decreases |buf.text| - buf.pos
    {
      var stop, st;
      n, charsRead, stop, st := ReadOne(c, n, buf, charsRead);
      if stop {
        status := st;
        return;
      }
      has := buf.HasNext();
    }
  }

  /** The loop over the factories of one `parse` call, rewinding the cursor
    * after every simple parser that does not complete. */
  method ScanFactories(fs: seq<Factory>, ms: seq<Matcher>, toks: seq<Token>, ch: char, buf: TextParser)
    returns (matchers: seq<Matcher>, tokens: seq<Token>, charsRead: nat, status: ScanStatus)
    requires FactoriesWf(fs) && buf.Valid() && 1 <= buf.pos
    modifies buf
    ensures buf.Valid()
    ensures Scan(matchers, tokens, buf.State(), charsRead, status) == FactoryLoop(fs, 0, ch, old(buf.State()), ms, toks, 0, false)
  {
    ghost var cur := buf.State();
    matchers, tokens, charsRead := ms, toks, 0;
    var i := 0;
    while i < |fs|
      invariant 0 <= i <= |fs| && buf.Valid() && buf.State() == cur
      invariant FactoryLoop(fs, i, ch, cur, matchers, tokens, 0, false) == FactoryLoop(fs, 0, ch, cur, ms, toks, 0, false)
    {
      var f := fs[i];
      var isMatch := IsMatch(f, ch);
      if isMatch {
        if f.compound {
          var off := buf.GetPosition();
          matchers := matchers + [Matcher(off, f.conditionSet, CreateParser(f), i)];
        } else {
          LoopAtSimple(fs, i, ch, cur, matchers, tokens);
          buf.Unread(1);
          var n, read, st := RunSimple(f.conditionSet, buf);
          if st == Completed {
            charsRead := read;
            var t := Consume(n, i);
            if t.None? {
              status := Stopped(MissingCoords);
              return;
            }
            tokens := tokens + [t.value];
            status := TokenDone(i);
            return;
          }
          buf.Unread(read - 1);
        }
      }
      i := i + 1;
    }
    status := NoToken;
  }

  /** The re-offer after a one-character token, from index `k - 1` down. */
  method ReofferOlder(ms: seq<Matcher>, k: nat, ch: char, buf: TextParser) returns (r: seq<Matcher>, clash: bool)
    requires k <= |ms| && MatchersWf(ms)
    ensures (r, clash) == Reoffer(ms, k, ch, buf.State())
  {
    r := ms;
    var j: nat := k;
    while j > 0
      invariant j <= |r| && MatchersWf(r)
      invariant Reoffer(r, j, ch, buf.State()) == Reoffer(ms, k, ch, buf.State())
    {
      var e := r[j - 1];
      var m := e.(node := Accept(e.cond, e.node, ch, buf.State()).node);
      r := r[j - 1 := m];
      if IsComplete(m.node) || IsFailed(m.node) {
        clash := true;
        return;
      }
      j := j - 1;
    }
    clash := false;
  }

  /** `passCompletedCharsToCompoundParsers`: offers `ch` to the open
    * compound matchers, newest first. */
  method PassCompletedChars(ms: seq<Matcher>, toks: seq<Token>, ch: char, buf: TextParser) returns (r: Pass)
    requires MatchersWf(ms)
    ensures r == PassLoop(ms, |ms|, ch, buf.State(), toks)
  {
    var list, out := ms, toks;
    var i: nat := |ms|;
    while i > 0
      invariant i <= |list| && MatchersWf(list)
      invariant PassLoop(list, i, ch, buf.State(), out) == PassLoop(ms, |ms|, ch, buf.State(), toks)
    {
      var e := list[i - 1];
      var m := e.(node := Accept(e.cond, e.node, ch, buf.State()).node);
      if IsComplete(m.node) {
        var t := Consume(m.node, m.consumer);
        if t.None? {
          return Pass(list[i - 1 := m], out, Some(MissingCoords));
        }
        out := out + [t.value];
        if t.value.length == 1 {
          var clash;
          list, clash := ReofferOlder(list[i - 1 := m], i - 1, ch, buf);
          if clash {
            return Pass(list, out, Some(IllegalState));
          }
        }
        return Pass(Remove(list, i - 1), out, None);
      } else if IsFailed(m.node) {
        list := Remove(list, i - 1);
      } else {
        list := list[i - 1 := m];
      }
      i := i - 1;
    }
    r := Pass(list, out, None);
  }

  /** The driver: the factories, the open compound matchers and the tokens
    * handed to the consumers so far. */
  class MultiConditionParser {
    const factories: seq<Factory>
    var matchers: seq<Matcher>
    var tokens: seq<Token>

    ghost predicate Valid()
      reads this
    {
      FactoriesWf(factories) && MatchersWf(matchers)
    }

    constructor (factories: seq<Factory>)
      requires FactoriesWf(factories)
      ensures Valid() && this.factories == factories && matchers == [] && tokens == []
    {
      this.factories := factories;
      matchers := [];
      tokens := [];
    }

    /** `parse(ch, buf)`, with `ch` the character just read from `buf`. */
    method Parse(ch: char, buf: TextParser) returns (r: Outcome)
      requires Valid() && buf.Valid() && 1 <= buf.pos
      modifies this, buf
      ensures Valid() && buf.Valid()
      ensures Parsed(matchers, tokens, buf.State(), r) ==
              ParseSpec(factories, old(matchers), old(tokens), ch, old(buf.State()), false)
    {
      var ms, toks, charsRead, status := ScanFactories(factories, matchers, tokens, ch, buf);
      matchers, tokens := ms, toks;
      match status
      case Stopped(f) =>
        r := Thrown(f);
      case TokenDone(_) =>
        r := Read(charsRead);
      case NoToken =>
        var p := PassCompletedChars(ms, toks, ch, buf);
        matchers, tokens := p.matchers, p.tokens;
        r := if p.fault.Some? then Thrown(p.fault.value) else Read(charsRead);
    }
  }

  // ---------------------------------------------------------------------
  // A simple parser that runs out of input, as the code is written
  // ---------------------------------------------------------------------

  /** One turn of the loop at a simple factory whose parser runs out of
    * input, as the code is written: the cursor stays at the end and the
    * count is kept. */
  lemma LoopPastExhausted(fs: seq<Factory>, i: nat, ch: char, cur: Cursor, charsRead: nat, next: Cursor, read: nat)
    requires i < |fs| && FactoriesWf(fs) && 1 <= cur.pos <= |cur.text| && Matches(fs[i], ch) && !fs[i].compound
    requires var run := SimpleRun(fs[i].conditionSet, CreateParser(fs[i]), cur.Unread(1), charsRead);
             run.status == Exhausted && run.cur == next && run.read == read
    ensures FactoryLoop(fs, i, ch, cur, [], [], charsRead, true) == FactoryLoop(fs, i + 1, ch, next, [], [], read, true)
  {
  }

  /** One turn of the loop at a simple factory whose parser fails: the
    * cursor goes back by one less than the count, which starts again at
    * zero. */
  lemma LoopPastFailed(fs: seq<Factory>, i: nat, ch: char, cur: Cursor, charsRead: nat, next: Cursor, asWritten: bool)
    requires i < |fs| && FactoriesWf(fs) && 1 <= cur.pos <= |cur.text| && Matches(fs[i], ch) && !fs[i].compound
    requires var run := SimpleRun(fs[i].conditionSet, CreateParser(fs[i]), cur.Unread(1), charsRead);
             run.status == Failed && run.read - 1 <= run.cur.pos && run.cur.Unread(run.read - 1) == next
    ensures FactoryLoop(fs, i, ch, cur, [], [], charsRead, asWritten) == FactoryLoop(fs, i + 1, ch, next, [], [], 0, asWritten)
  {
  }

  /** Two simple factories that both take `ch`, the first of which runs
    * out of input, as the code is written: the second is fed from where
    * the first stopped and, when it fails, its rewind decides the cursor. */
  lemma ExhaustedThenFailed(fs: seq<Factory>, ch: char, cur: Cursor, mid: Cursor, read: nat, last: Cursor)
    requires |fs| == 2 && FactoriesWf(fs) && 1 <= cur.pos <= |cur.text|
    requires Matches(fs[0], ch) && !fs[0].compound && Matches(fs[1], ch) && !fs[1].compound
    requires var run := SimpleRun(fs[0].conditionSet, CreateParser(fs[0]), cur.Unread(1), 0);
             run.status == Exhausted && run.cur == mid && run.read == read && 1 <= mid.pos
    requires var run := SimpleRun(fs[1].conditionSet, CreateParser(fs[1]), mid.Unread(1), read);
             run.status == Failed && run.read - 1 <= run.cur.pos && run.cur.Unread(run.read - 1) == last
    ensures FactoryLoop(fs, 0, ch, cur, [], [], 0, true) == Scan([], [], last, 0, NoToken)
  {
    LoopPastExhausted(fs, 0, ch, cur, 0, mid, read);
    LoopPastFailed(fs, 1, ch, mid, read, last, true);
  }

  /** The text `ab`. */
  predicate IsAB(t: seq<char>) {
    |t| == 2 && t[0] == 'a' && t[1] == 'b'
  }

  /** An `End` condition whose set holds neither `a` nor `b`. */
  predicate EndNotOnAB(e: CharConditions.Config) {
    e.kind == CharConditions.End && !e.charMatcher('a') && !e.charMatcher('b')
  }

  /** A `Start` condition whose set holds `a` but not `b`. */
  predicate StartOnA(s: CharConditions.Config) {
    s.kind == CharConditions.Start && s.charMatcher('a') && !s.charMatcher('b')
  }

  /** Such conditions exist: `End` on `x` and `Start` on `a`. */
  lemma ExampleConditions()
    ensures EndNotOnAB(CharConditions.OfChars(CharConditions.End, ['x'], []))
    ensures StartOnA(CharConditions.OfChars(CharConditions.Start, ['a'], []))
  {
  }

  /** Two simple factories whose pre-filter is `p`: first the `End` parser,
    * then the `Start` parser. */
  function ExampleFactories(p: char -> bool, e: CharConditions.Config, s: CharConditions.Config): (fs: seq<Factory>)
    ensures FactoriesWf(fs) && |fs| == 2
  {
    [Factory(false, [p], [CharCond(e)], CharCond(e)), Factory(false, [p], [CharCond(s)], CharCond(s))]
  }

  /** The `End` parser reads `a` and `b` without completing or failing. */
  lemma ExampleEndRunsOut(e: CharConditions.Config, t: seq<char>)
    requires EndNotOnAB(e) && IsAB(t)
    ensures var r := SimpleRun(CharCond(e), Fresh(CharCond(e)), Cursor(t, 0), 0);
            r.status == Exhausted && r.read == 2 && r.cur == Cursor(t, 2)
  {
    var c := CharCond(e);
    SimpleRunStep(c, Fresh(c), Cursor(t, 0), 0);
    var e1 := CharConditions.EndStep(e, CharConditions.Fresh, 'a', Cursor(t, 1));
    assert Accept(c, Fresh(c), 'a', Cursor(t, 1)).node == CharNode(e1.progress);
    SimpleRunStep(c, CharNode(e1.progress), Cursor(t, 1), 1);
    var e2 := CharConditions.EndStep(e, e1.progress, 'b', Cursor(t, 2));
    assert Accept(c, CharNode(e1.progress), 'b', Cursor(t, 2)).node == CharNode(e2.progress);
  }

  /** Fed `b`, the `Start` parser fails. */
  lemma ExampleStartFailsOnB(s: CharConditions.Config, t: seq<char>)
    requires StartOnA(s) && IsAB(t)
    ensures var r := SimpleRun(CharCond(s), Fresh(CharCond(s)), Cursor(t, 1), 2);
            r.status == Failed && r.read == 3 && r.cur == Cursor(t, 2)
  {
    SimpleRunStep(CharCond(s), Fresh(CharCond(s)), Cursor(t, 1), 2);
  }

  /** Fed `a`, the `Start` parser completes a token of one character. */
  lemma ExampleStartTakesA(s: CharConditions.Config, t: seq<char>)
    requires StartOnA(s) && IsAB(t)
    ensures var r := SimpleRun(CharCond(s), Fresh(CharCond(s)), Cursor(t, 0), 0);
            r.status == Completed && r.read == 1 && r.cur == Cursor(t, 1) && Consume(r.node, 1) == Some(Token(1, 0, 1))
  {
    SimpleRunStep(CharCond(s), Fresh(CharCond(s)), Cursor(t, 0), 0);
  }

  /** In the text `ab`, with `a` just read, as the code is written: the
    * `End` parser reads to the end of the text, the `Start` parser is then
    * fed `b` instead of `a` and fails, and the rewind leaves the cursor
    * before the `a`, with no token. */
  lemma ExhaustedParserAsWritten(p: char -> bool, e: CharConditions.Config, s: CharConditions.Config, t: seq<char>)
    requires p('a') && EndNotOnAB(e) && StartOnA(s) && IsAB(t)
    ensures FactoryLoop(ExampleFactories(p, e, s), 0, 'a', Cursor(t, 1), [], [], 0, true) == Scan([], [], Cursor(t, 0), 0, NoToken)
  {
    var fs := ExampleFactories(p, e, s);
    assert Matches(fs[0], 'a') && Matches(fs[1], 'a') by { assert fs[0].firstCharConds[0] == p == fs[1].firstCharConds[0]; }
    ExampleEndRunsOut(e, t);
    ExampleStartFailsOnB(s, t);
    ExhaustedThenFailed(fs, 'a', Cursor(t, 1), Cursor(t, 2), 2, Cursor(t, 0));
  }

  /** The same, rewinding after the exhausted parser: the `Start` parser is
    * fed the `a` and completes its one-character token. */
  lemma ExhaustedParserRewound(p: char -> bool, e: CharConditions.Config, s: CharConditions.Config, t: seq<char>)
    requires p('a') && EndNotOnAB(e) && StartOnA(s) && IsAB(t)
    ensures FactoryLoop(ExampleFactories(p, e, s), 0, 'a', Cursor(t, 1), [], [], 0, false)
            == Scan([], [Token(1, 0, 1)], Cursor(t, 1), 1, TokenDone(1))
  {
    var fs := ExampleFactories(p, e, s);
    assert Matches(fs[0], 'a') && Matches(fs[1], 'a') by { assert fs[0].firstCharConds[0] == p == fs[1].firstCharConds[0]; }
    ExampleEndRunsOut(e, t);
    SimpleRewinds(fs, 0, 'a', Cursor(t, 1), [], []);
    ExampleStartTakesA(s, t);
  }
}

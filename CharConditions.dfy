/** Single-character conditions: `Start`/`Literal` (exactly one character of a
  * set), `ContainsFirstSpecial`/`Contains` (a maximal run of matching
  * characters), `End` (everything up to and including a character of a set)
  * and `EndNotPrecededBy` (like `End`, but an escape character cancels the
  * match).
  *
  * The progress of a condition is a value (`Progress`); `Accept` is the
  * specification of one `acceptNext` call and `CharParser` is the mutable
  * condition object, proved to follow it. */
module CharConditions {
  import opened Text

  datatype Kind = Start | Literal | ContainsFirstSpecial | Contains | End | EndNotPrecededBy

  /** What a copy of a condition carries over: its kind and matchers. */
  datatype Config = Config(
    kind: Kind,
    charMatcher: char -> bool,
    firstCharMatcher: char -> bool,
    firstMatchChars: seq<char>,
    notPreceding: seq<char>)

  /** The fields that `acceptNext` updates and `reset` clears. */
  datatype Progress = Progress(
    anyComplete: bool,
    failed: bool,
    acceptedChar: char,
    acceptedCount: nat,
    matchCount: nat,
    lastCharNotMatch: bool,
    coords: Coords,
    dstBuf: seq<char>)

  /** The result of one `acceptNext` call. */
  datatype Step = Step(progress: Progress, accepted: bool)

  /** The progress of a new condition, and of one just reset. */
  const Fresh := Progress(false, false, 0 as char, 0, 0, false, NoCoords, [])

  predicate IsComplete(p: Progress) {
    p.anyComplete && !p.failed
  }

  predicate IsFailed(p: Progress) {
    p.failed
  }

  /** A condition is never complete and failed at once. */
  lemma CompleteExcludesFailed(p: Progress)
    ensures !(IsComplete(p) && IsFailed(p))
  {
  }

  /** The first-character matcher of a matchable condition: the one given, or
    * else membership in `firstMatchChars`. */
  function FirstCharMatcher(given: Option<char -> bool>, firstMatchChars: seq<char>): (m: char -> bool)
    ensures given.Some? ==> m == given.value
    ensures given.None? ==> forall ch :: m(ch) <==> ch in firstMatchChars
  {
    match given
    case Some(f) => f
    case None => ch => ch in firstMatchChars
  }

  /** A condition built from a matcher, the characters it may start with and,
    * for `EndNotPrecededBy`, the escape characters. */
  function Matchable(kind: Kind, charMatcher: char -> bool, given: Option<char -> bool>,
                     firstMatchChars: seq<char>, notPreceding: seq<char>): (cfg: Config)
    ensures cfg.kind == kind && cfg.charMatcher == charMatcher
    ensures cfg.firstMatchChars == firstMatchChars && cfg.notPreceding == notPreceding
    ensures forall ch :: cfg.firstCharMatcher(ch) <==> (if given.Some? then given.value(ch) else ch in firstMatchChars)
  {
    Config(kind, charMatcher, FirstCharMatcher(given, firstMatchChars), firstMatchChars, notPreceding)
  }

  /** A condition built from a list of characters: the list is both the
    * character set and the first characters. */
  function OfChars(kind: Kind, chars: seq<char>, notPreceding: seq<char>): (cfg: Config)
    ensures cfg.kind == kind && cfg.firstMatchChars == chars && cfg.notPreceding == notPreceding
    ensures forall ch :: cfg.charMatcher(ch) <==> ch in chars
    ensures forall ch :: cfg.firstCharMatcher(ch) <==> ch in chars
  {
    Matchable(kind, ch => ch in chars, None, chars, notPreceding)
  }

  /** Records a character that is part of the match and counts towards
    * completion. */
  function WithCompletedChar(p: Progress, ch: char, cur: Cursor): (q: Progress)
    ensures q.dstBuf == p.dstBuf + [ch] && q.matchCount == p.matchCount + 1
    ensures q.acceptedCount == p.acceptedCount + 1 && q.acceptedChar == ch
    ensures q.coords.start == (if p.matchCount == 0 then cur.pos - 1 else p.coords.start)
    ensures q.coords.end == p.coords.end
    ensures q.anyComplete == p.anyComplete && q.failed == p.failed && q.lastCharNotMatch == p.lastCharNotMatch
  {
    var coords := if p.matchCount == 0 then SetStart(p.coords, cur) else p.coords;
    p.(coords := coords, dstBuf := p.dstBuf + [ch], acceptedChar := ch,
       acceptedCount := p.acceptedCount + 1, matchCount := p.matchCount + 1)
  }

  /** Records a character of an `End` match; it counts as accepted, and closes
    * the match, only when the condition has just become complete. */
  function WithMatchOrCompleteChar(p: Progress, ch: char, cur: Cursor): (q: Progress)
    ensures q.dstBuf == p.dstBuf + [ch] && q.matchCount == p.matchCount + 1
    ensures q.acceptedCount == p.acceptedCount + (if p.anyComplete then 1 else 0)
    ensures q.coords.start == (if p.matchCount == 0 then cur.pos - 1 else p.coords.start)
    ensures q.coords.end == (if p.anyComplete then cur.pos else p.coords.end)
    ensures q.anyComplete == p.anyComplete && q.failed == p.failed && q.lastCharNotMatch == p.lastCharNotMatch
  {
    var coords := if p.matchCount == 0 then SetStart(p.coords, cur) else p.coords;
    if p.anyComplete then
      p.(coords := SetEnd(coords, cur), dstBuf := p.dstBuf + [ch], acceptedChar := ch,
         acceptedCount := p.acceptedCount + 1, matchCount := p.matchCount + 1)
    else
      p.(coords := coords, dstBuf := p.dstBuf + [ch], matchCount := p.matchCount + 1)
  }

  /** `Start` and `Literal`: exactly one character of the set. */
  function StartAccept(cfg: Config, p: Progress, ch: char, cur: Cursor): (r: Step)
    ensures r.accepted <==> !p.anyComplete && !p.failed && cfg.charMatcher(ch)
    ensures r.accepted ==> IsComplete(r.progress) && r.progress.dstBuf == p.dstBuf + [ch]
                           && r.progress.coords.end == cur.pos
    ensures !r.accepted ==> IsFailed(r.progress) && r.progress.dstBuf == p.dstBuf
  {
    if p.anyComplete || p.failed then
      Step(p.(failed := true), false)
    else if cfg.charMatcher(ch) then
      var q := WithCompletedChar(p.(anyComplete := true), ch, cur);
      Step(q.(coords := SetEnd(q.coords, cur)), true)
    else
      Step(p.(anyComplete := false, failed := true), false)
  }

  /** `ContainsFirstSpecial` and `Contains`: the first character is checked
    * with the first-character matcher, later ones with the character
    * matcher; the match is complete once the next character would not
    * match. A rejected character leaves the condition as it was. */
  function ContainsAccept(cfg: Config, p: Progress, ch: char, cur: Cursor): (r: Step)
    ensures p.anyComplete ==> !r.accepted && IsFailed(r.progress)
    ensures !p.anyComplete ==>
      (r.accepted <==> (if p.matchCount == 0 then cfg.firstCharMatcher(ch) else cfg.charMatcher(ch)))
    ensures !p.anyComplete && !r.accepted ==> r.progress == p
    ensures !p.anyComplete && r.accepted ==>
      r.progress.dstBuf == p.dstBuf + [ch] && r.progress.failed == p.failed &&
      (r.progress.anyComplete <==> !NextMatches(cur, cfg.charMatcher))
  {
    if p.anyComplete then
      Step(p.(failed := true), false)
    else if (if p.matchCount == 0 then cfg.firstCharMatcher(ch) else cfg.charMatcher(ch)) then
      var q := WithCompletedChar(p, ch, cur);
      if !NextMatches(cur, cfg.charMatcher) then
        Step(q.(anyComplete := true, coords := SetEnd(q.coords, cur)), true)
      else
        Step(q, true)
    else
      Step(p, false)
  }

  /** The `End` step proper, shared with `EndNotPrecededBy`. */
  function EndStep(cfg: Config, p: Progress, ch: char, cur: Cursor): (r: Step)
    ensures r.accepted && r.progress.dstBuf == p.dstBuf + [ch]
    ensures r.progress.anyComplete == cfg.charMatcher(ch) && r.progress.failed == p.failed
    ensures r.progress.anyComplete ==> r.progress.coords.end == cur.pos
  {
    Step(WithMatchOrCompleteChar(p.(anyComplete := cfg.charMatcher(ch)), ch, cur), true)
  }

  /** `End`: every character is accepted until one of the set completes the
    * match; any character after that fails the condition. */
  function EndAccept(cfg: Config, p: Progress, ch: char, cur: Cursor): (r: Step)
    ensures r.accepted <==> !p.anyComplete && !p.failed
    ensures r.accepted ==> (IsComplete(r.progress) <==> cfg.charMatcher(ch))
    ensures r.accepted ==> r.progress.dstBuf == p.dstBuf + [ch]
    ensures !r.accepted ==> IsFailed(r.progress) && r.progress.dstBuf == p.dstBuf
  {
    if p.anyComplete || p.failed then
      Step(p.(failed := true), false)
    else
      EndStep(cfg, p, ch, cur)
  }

  /** The character before the first one of a match is an escape character. */
  predicate PrecededByEscape(cfg: Config, p: Progress, cur: Cursor) {
    p.matchCount == 0 && cur.HasPrevChar() && cur.PrevChar() in cfg.notPreceding
  }

  /** `EndNotPrecededBy`: an escape character is accepted without being
    * recorded and flags the condition; the character after a flagged one
    * resets the condition instead of being matched. */
  function EndNotPrecededByAccept(cfg: Config, p: Progress, ch: char, cur: Cursor): (r: Step)
    ensures r.accepted <==> !p.anyComplete && !p.failed
    ensures r.accepted && ch in cfg.notPreceding ==>
      r.progress.lastCharNotMatch && r.progress.dstBuf == p.dstBuf && !IsComplete(r.progress)
    ensures r.accepted && ch !in cfg.notPreceding && (p.lastCharNotMatch || PrecededByEscape(cfg, p, cur)) ==>
      r.progress == Fresh
    ensures r.accepted && ch !in cfg.notPreceding && !p.lastCharNotMatch && !PrecededByEscape(cfg, p, cur) ==>
      (IsComplete(r.progress) <==> cfg.charMatcher(ch)) && r.progress.dstBuf == p.dstBuf + [ch]
    ensures !r.accepted ==> IsFailed(r.progress)
  {
    if p.anyComplete || p.failed then
      Step(p.(failed := true), false)
    else
      var p1 := if PrecededByEscape(cfg, p, cur) then p.(lastCharNotMatch := true) else p;
      if ch in cfg.notPreceding then
        Step(p1.(lastCharNotMatch := true), true)
      else if p1.lastCharNotMatch then
        Step(Fresh, true)
      else
        EndStep(cfg, p1, ch, cur)
  }

  /** One `acceptNext(ch, buf)` call; `cur` is the cursor just after `ch`. */
  function Accept(cfg: Config, p: Progress, ch: char, cur: Cursor): (r: Step)
    ensures p.anyComplete ==> !r.accepted && IsFailed(r.progress)
    ensures IsFailed(p) ==> IsFailed(r.progress)
  {
    match cfg.kind
    case Start => StartAccept(cfg, p, ch, cur)
    case Literal => StartAccept(cfg, p, ch, cur)
    case ContainsFirstSpecial => ContainsAccept(cfg, p, ch, cur)
    case Contains => ContainsAccept(cfg, p, ch, cur)
    case End => EndAccept(cfg, p, ch, cur)
    case EndNotPrecededBy => EndNotPrecededByAccept(cfg, p, ch, cur)
  }

  /** `copy()` as written: every kind is rebuilt through the constructor
    * that takes no first-character matcher, so the copy tests its first
    * character by membership in `firstMatchChars`. A `ContainsFirstSpecial`
    * built with a matcher of its own loses it. */
  function CopyConfigAsWritten(cfg: Config): (r: Config)
    ensures r.kind == cfg.kind && r.charMatcher == cfg.charMatcher
    ensures r.firstMatchChars == cfg.firstMatchChars && r.notPreceding == cfg.notPreceding
    ensures forall ch :: r.firstCharMatcher(ch) <==> ch in cfg.firstMatchChars
  {
    cfg.(firstCharMatcher := FirstCharMatcher(None, cfg.firstMatchChars))
  }

  /** When the first-character matcher is membership in `firstMatchChars`, as
    * for every condition built without a matcher of its own, the copy as
    * written answers every character exactly as the original. */
  lemma CopyAsWrittenAnswersAlike(cfg: Config, p: Progress, ch: char, cur: Cursor)
    requires forall c :: cfg.firstCharMatcher(c) <==> c in cfg.firstMatchChars
    ensures Accept(CopyConfigAsWritten(cfg), p, ch, cur) == Accept(cfg, p, ch, cur)
  {
    var r := CopyConfigAsWritten(cfg);
    assert r.firstCharMatcher(ch) == cfg.firstCharMatcher(ch);
  }

  /** The identifier condition of the pipe tests: a `ContainsFirstSpecial`
    * whose first character is a letter, `_` or `$` and whose later
    * characters may also be digits, built with the letters alone as its
    * first characters. */
  function ExampleIdentifier(): (cfg: Config)
    ensures cfg.kind == ContainsFirstSpecial
    ensures cfg.firstCharMatcher('_') && '_' !in cfg.firstMatchChars
  {
    var letters := seq(26, i requires 0 <= i < 26 => (65 + i) as char) + seq(26, i requires 0 <= i < 26 => (97 + i) as char);
    assert '_' !in letters by {
      forall k | 0 <= k < |letters| ensures letters[k] != '_' {
        if k < 26 { assert letters[k] == (65 + k) as char; } else { assert letters[k] == (97 + k - 26) as char; }
      }
    }
    Matchable(ContainsFirstSpecial,
              ch => ('0' <= ch <= '9') || ('A' <= ch <= 'Z') || ('a' <= ch <= 'z') || ch == '_' || ch == '$',
              Some(ch => ('A' <= ch <= 'Z') || ('a' <= ch <= 'z') || ch == '_' || ch == '$'),
              letters, [])
  }

  /** The example identifier takes `_` as its first character, and its copy
    * as written refuses it. */
  lemma ExampleCopyLosesFirstCharMatcher()
    ensures Accept(ExampleIdentifier(), Fresh, '_', Cursor(['_', 'x'], 1)).accepted
    ensures !Accept(CopyConfigAsWritten(ExampleIdentifier()), Fresh, '_', Cursor(['_', 'x'], 1)).accepted
  {
  }

  /** The progress after a fresh condition has been fed `text[..n]`, each
    * character with the cursor just past it. */
  function Run(cfg: Config, text: seq<char>, n: nat): Progress
    requires n <= |text|
  {
    if n == 0 then Fresh
    else Accept(cfg, Run(cfg, text, n - 1), text[n - 1], Cursor(text, n)).progress
  }

  /** `Start` accepts at most one character: it is complete after the first
    * exactly when that character matches, and failed after any second. */
  lemma {:induction false} StartRun(cfg: Config, text: seq<char>, n: nat)
    requires cfg.kind == Start || cfg.kind == Literal
    requires n <= |text|
    ensures n == 1 ==> (IsComplete(Run(cfg, text, n)) <==> cfg.charMatcher(text[0]))
    ensures n == 1 && IsComplete(Run(cfg, text, n)) ==> Run(cfg, text, n).coords == Coords(0, 1)
    ensures n >= 1 ==> Run(cfg, text, n).anyComplete || Run(cfg, text, n).failed
    ensures n >= 2 ==> IsFailed(Run(cfg, text, n))
  {
    if n >= 1 {
      StartRun(cfg, text, n - 1);
    }
  }

  /** `End` on `text[..n]`: complete exactly when the last character is the
    * first one of the set, failed exactly when a character of the set came
    * before the last one; until then it has recorded everything. */
  lemma {:induction false} EndRun(cfg: Config, text: seq<char>, n: nat)
    requires cfg.kind == End && n <= |text|
    ensures Run(cfg, text, n).failed <==> exists k :: 0 <= k < n - 1 && cfg.charMatcher(text[k])
    ensures IsComplete(Run(cfg, text, n)) <==>
      0 < n && cfg.charMatcher(text[n - 1]) && forall k :: 0 <= k < n - 1 ==> !cfg.charMatcher(text[k])
    ensures !Run(cfg, text, n).failed ==> Run(cfg, text, n).dstBuf == text[..n] && Run(cfg, text, n).matchCount == n
    ensures !Run(cfg, text, n).failed && 0 < n ==> Run(cfg, text, n).coords.start == 0
    ensures IsComplete(Run(cfg, text, n)) ==> Run(cfg, text, n).coords == Coords(0, n)
  {
    if n > 0 {
      EndRun(cfg, text, n - 1);
      var p := Run(cfg, text, n - 1);
      if !p.failed {
        assert text[..n] == text[..n - 1] + [text[n - 1]];
        if p.anyComplete {
          assert cfg.charMatcher(text[n - 2]);
        }
      } else {
        var k :| 0 <= k < n - 2 && cfg.charMatcher(text[k]);
      }
    }
  }

  /** `Contains` fed a run of matching characters records all of them and is
    * complete exactly when the run cannot be extended by the next character. */
  lemma {:induction false} ContainsRun(cfg: Config, text: seq<char>, n: nat)
    requires cfg.kind == Contains || cfg.kind == ContainsFirstSpecial
    requires 1 <= n <= |text|
    requires cfg.firstCharMatcher(text[0])
    requires forall k :: 1 <= k < n ==> cfg.charMatcher(text[k])
    ensures Run(cfg, text, n).dstBuf == text[..n] && !Run(cfg, text, n).failed
    ensures Run(cfg, text, n).matchCount == n && Run(cfg, text, n).coords.start == 0
    ensures Run(cfg, text, n).anyComplete <==> !(n < |text| && cfg.charMatcher(text[n]))
  {
    if n > 1 {
      ContainsRun(cfg, text, n - 1);
      assert text[..n] == text[..n - 1] + [text[n - 1]];
    }
  }

  /** The mutable condition object. */
  class CharParser {
    const config: Config
    var anyComplete: bool
    var failed: bool
    var acceptedChar: char
    var acceptedCount: nat
    var matchCount: nat
    var lastCharNotMatch: bool
    var coords: Coords
    var dstBuf: seq<char>

    /** The fields as a value. */
    function State(): Progress
      reads this
    {
      Progress(anyComplete, failed, acceptedChar, acceptedCount, matchCount, lastCharNotMatch, coords, dstBuf)
    }

    constructor (config: Config)
      ensures this.config == config && State() == Fresh
    {
      this.config := config;
      anyComplete, failed, acceptedChar := false, false, 0 as char;
      acceptedCount, matchCount, lastCharNotMatch := 0, 0, false;
      coords, dstBuf := NoCoords, [];
    }

    /** Clears every field that `acceptNext` updates: a recycled condition is
      * indistinguishable from a new copy. */
    method Reset()
      modifies this
      ensures State() == Fresh
    {
      anyComplete, failed, acceptedChar := false, false, 0 as char;
      acceptedCount, matchCount, lastCharNotMatch := 0, 0, false;
      coords, dstBuf := NoCoords, [];
    }

    /** A new condition with the same configuration and fresh progress. */
    method Copy() returns (c: CharParser)
      ensures fresh(c) && c.config == config && c.State() == Fresh
    {
      c := new CharParser(config);
    }

    method AcceptedCompletedChar(ch: char, buf: TextParser)
      modifies this
      ensures State() == WithCompletedChar(old(State()), ch, buf.State())
    {
      if matchCount == 0 {
        coords := SetStart(coords, buf.State());
      }
      dstBuf := dstBuf + [ch];
      acceptedChar := ch;
      acceptedCount := acceptedCount + 1;
      matchCount := matchCount + 1;
    }

    method AcceptedMatchOrCompleteChar(ch: char, buf: TextParser)
      modifies this
      ensures State() == WithMatchOrCompleteChar(old(State()), ch, buf.State())
    {
      if matchCount == 0 {
        coords := SetStart(coords, buf.State());
      }
      if anyComplete {
        acceptedCount := acceptedCount + 1;
        acceptedChar := ch;
        coords := SetEnd(coords, buf.State());
      }
      dstBuf := dstBuf + [ch];
      matchCount := matchCount + 1;
    }

    /** Feeds one character; the cursor may be looked ahead of but is left
      * where it was. */
    method AcceptNext(ch: char, buf: TextParser) returns (accepted: bool)
      requires buf.Valid()
      modifies this, buf
      ensures buf.Valid() && buf.pos == old(buf.pos)
      ensures Step(State(), accepted) == Accept(config, old(State()), ch, old(buf.State()))
    {
      match config.kind
      case Start => accepted := AcceptStart(ch, buf);
      case Literal => accepted := AcceptStart(ch, buf);
      case ContainsFirstSpecial => accepted := AcceptContains(ch, buf);
      case Contains => accepted := AcceptContains(ch, buf);
      case End => accepted := AcceptEnd(ch, buf);
      case EndNotPrecededBy => accepted := AcceptEndNotPrecededBy(ch, buf);
    }

    method AcceptStart(ch: char, buf: TextParser) returns (accepted: bool)
      modifies this
      ensures Step(State(), accepted) == StartAccept(config, old(State()), ch, buf.State())
    {
      if anyComplete || failed {
        failed := true;
        return false;
      }
      var matched := config.charMatcher(ch);
      anyComplete := matched;
      if matched {
        AcceptedCompletedChar(ch, buf);
        coords := SetEnd(coords, buf.State());
        accepted := true;
      } else {
        failed := true;
        accepted := false;
      }
    }

    method AcceptContains(ch: char, buf: TextParser) returns (accepted: bool)
      requires buf.Valid()
      modifies this, buf
      ensures buf.Valid() && buf.pos == old(buf.pos)
      ensures Step(State(), accepted) == ContainsAccept(config, old(State()), ch, old(buf.State()))
    {
      if anyComplete {
        failed := true;
        return false;
      }
      var matches := if matchCount == 0 then config.firstCharMatcher(ch) else config.charMatcher(ch);
      if matches {
        AcceptedCompletedChar(ch, buf);
        var next := IsNext(buf, config.charMatcher);
        if !next {
          anyComplete := true;
          coords := SetEnd(coords, buf.State());
        }
        accepted := true;
      } else {
        accepted := false;
      }
    }

    method AcceptEnd(ch: char, buf: TextParser) returns (accepted: bool)
      modifies this
      ensures Step(State(), accepted) == EndAccept(config, old(State()), ch, buf.State())
    {
      if anyComplete || failed {
        failed := true;
        return false;
      }
      anyComplete := config.charMatcher(ch);
      AcceptedMatchOrCompleteChar(ch, buf);
      accepted := true;
    }

    method AcceptEndNotPrecededBy(ch: char, buf: TextParser) returns (accepted: bool)
      requires buf.Valid()
      modifies this
      ensures Step(State(), accepted) == EndNotPrecededByAccept(config, old(State()), ch, buf.State())
    {
      if anyComplete || failed {
        failed := true;
        return false;
      }
      if matchCount == 0 && 2 <= buf.pos {
        var prevCh := buf.text[buf.pos - 2];
        if prevCh in config.notPreceding {
          lastCharNotMatch := true;
        }
      }
      if ch in config.notPreceding {
        lastCharNotMatch := true;
        return true;
      }
      if lastCharNotMatch {
        Reset();
        return true;
      }
      anyComplete := config.charMatcher(ch);
      AcceptedMatchOrCompleteChar(ch, buf);
      accepted := true;
    }
  }
}

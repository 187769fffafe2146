/** Multi-string conditions: `Literal` matches one of several strings exactly,
  * `End` consumes text until it ends with one of several strings.
  *
  * Both keep a bag of the candidate strings still consistent with the
  * characters recorded so far; a character that a candidate does not continue
  * removes it by swap-removal. `End` also re-matches a shorter suffix of what
  * it has recorded when the current candidates all die
  * (`FindMoreRecentMatch`), which keeps the end marker non-greedy. */
module StringConditions {
  import opened Text

  datatype Kind = Literal | End

  /** What a copy of a condition carries over. */
  datatype Config = Config(kind: Kind, originalStrs: seq<string>)

  /** Every candidate has a first character. */
  predicate ValidStrs(strs: seq<string>) {
    forall i :: 0 <= i < |strs| ==> |strs[i]| > 0
  }

  /** The fields that `acceptNext` updates; `matching` is the live part of the
    * bag of candidates, in array order. */
  datatype Progress = Progress(
    matching: seq<string>,
    anyComplete: bool,
    failed: bool,
    acceptedCount: nat,
    dstBuf: seq<char>,
    coords: Coords)

  datatype Step = Step(progress: Progress, accepted: bool)

  predicate IsComplete(p: Progress) {
    p.anyComplete && !p.failed
  }

  /** The progress of a new condition, a copy, and one just reset. */
  function Init(cfg: Config): (p: Progress)
    ensures p.matching == cfg.originalStrs && p.dstBuf == [] && p.acceptedCount == 0
    ensures !p.anyComplete && !p.failed && p.coords == NoCoords
  {
    Progress(cfg.originalStrs, false, false, 0, [], NoCoords)
  }

  /** `reset` without clearing the recorded characters and their coordinates. */
  function PartialReset(cfg: Config, p: Progress): (q: Progress)
    ensures q.matching == cfg.originalStrs && q.acceptedCount == 0 && !q.anyComplete && !q.failed
    ensures q.dstBuf == p.dstBuf && q.coords == p.coords
  {
    Init(cfg).(dstBuf := p.dstBuf, coords := p.coords)
  }

  /** The first character of every candidate, in order. */
  function FirstChars(strs: seq<string>): (r: seq<char>)
    requires ValidStrs(strs)
    ensures |r| == |strs|
  {
    seq(|strs|, i requires 0 <= i < |strs| => strs[i][0])
  }

  /** The first-character matcher accepts exactly the first characters of the
    * candidates. */
  lemma FirstCharsIff(strs: seq<string>, ch: char)
    requires ValidStrs(strs)
    ensures ch in FirstChars(strs) <==> exists s :: s in strs && s[0] == ch
  {
    if ch in FirstChars(strs) {
      var i :| 0 <= i < |strs| && FirstChars(strs)[i] == ch;
      assert strs[i] in strs;
    }
    if exists s :: s in strs && s[0] == ch {
      var s :| s in strs && s[0] == ch;
      var i :| 0 <= i < |strs| && strs[i] == s;
      assert FirstChars(strs)[i] == ch;
    }
  }

  /** Candidate `s` continues with `ch` at offset `off`. */
  predicate Matches(s: string, ch: char, off: nat) {
    off < |s| && s[off] == ch
  }

  /** `t` is a prefix of candidate `s`. */
  predicate PrefixOf(t: seq<char>, s: string) {
    |t| <= |s| && s[..|t|] == t
  }

  /** The candidates of `bag` that continue with `ch` at `off`, in order. */
  function Keep(bag: seq<string>, ch: char, off: nat): (r: seq<string>)
    ensures |r| <= |bag|
    decreases |bag|
  {
    if bag == [] then []
    else Keep(bag[..|bag| - 1], ch, off) + (if Matches(bag[|bag| - 1], ch, off) then [bag[|bag| - 1]] else [])
  }

  lemma {:induction false} KeepMember(bag: seq<string>, ch: char, off: nat, s: string)
    ensures s in Keep(bag, ch, off) <==> s in bag && Matches(s, ch, off)
    decreases |bag|
  {
    if bag != [] {
      KeepMember(bag[..|bag| - 1], ch, off, s);
      assert bag == bag[..|bag| - 1] + [bag[|bag| - 1]];
    }
  }

  /** What `updateMatches` returns: the surviving bag, and 0 (none survive),
    * 1 (some survive) or 2 (a survivor is complete). */
  datatype Update = Update(bag: seq<string>, found: nat)

  /** Some candidate of `kept` is complete at offset `off`. */
  ghost predicate HasComplete(kept: seq<string>, off: nat) {
    exists s :: s in kept && |s| == off + 1
  }

  lemma HasCompleteSnoc(kept: seq<string>, s: string, off: nat)
    ensures HasComplete(kept + [s], off) <==> HasComplete(kept, off) || |s| == off + 1
  {
    if |s| == off + 1 {
      assert s in kept + [s];
    }
    if HasComplete(kept, off) {
      var t :| t in kept && |t| == off + 1;
      assert t in kept + [s];
    }
  }

  /** The found code the loop should end with, having started from `found`
    * and met the survivors `kept`. */
  ghost function Combine(found: nat, kept: seq<string>, off: nat): nat {
    if kept == [] then found
    else if found == 2 || HasComplete(kept, off) then 2
    else 1
  }

  /** The found code the loop as written ends with: a survivor overwrites the
    * code with 1 unless it is itself complete, so only the survivor visited
    * last, the first one in bag order, decides. */
  function CombineAsWritten(found: nat, kept: seq<string>, off: nat): nat {
    if kept == [] then found
    else if |kept[0]| == off + 1 then 2
    else 1
  }

  /** The found code after visiting one candidate that continues. */
  function NextFound(found: nat, s: string, off: nat, asWritten: bool): nat {
    if |s| == off + 1 then 2 else if asWritten then 1 else if found == 2 then 2 else 1
  }

  /** Visiting the candidates from the last to the first and combining their
    * codes one at a time gives `Combine` (or `CombineAsWritten`) over all. */
  lemma CombineSnoc(found: nat, kept: seq<string>, s: string, off: nat, asWritten: bool)
    ensures !asWritten ==> Combine(NextFound(found, s, off, asWritten), kept, off) == Combine(found, kept + [s], off)
    ensures asWritten ==> CombineAsWritten(NextFound(found, s, off, asWritten), kept, off) == CombineAsWritten(found, kept + [s], off)
  {
    HasCompleteSnoc(kept, s, off);
    assert (kept + [s])[0] == if kept == [] then s else kept[0];
  }

  /** The reverse loop of `updateMatches` from index `i - 1` down to 0:
    * a candidate that does not continue with `ch` at `off` is swap-removed.
    * `asWritten` selects the source's update of the found code, otherwise
    * the corrected one that never lowers a 2. */
  function UpdateFrom(bag: seq<string>, i: nat, ch: char, off: nat, found: nat, asWritten: bool): Update
    requires i <= |bag|
    decreases i
  {
    if i == 0 then Update(bag, found)
    else if Matches(bag[i - 1], ch, off) then
      UpdateFrom(bag, i - 1, ch, off, NextFound(found, bag[i - 1], off, asWritten), asWritten)
    else
      UpdateFrom(SwapRemove(bag, i - 1), i - 1, ch, off, found, asWritten)
  }

  lemma KeepSnoc(bag: seq<string>, i: nat, ch: char, off: nat)
    requires 0 < i <= |bag|
    ensures Keep(bag[..i], ch, off) == Keep(bag[..i - 1], ch, off) + (if Matches(bag[i - 1], ch, off) then [bag[i - 1]] else [])
  {
    assert bag[..i][..i - 1] == bag[..i - 1];
  }

  /** A visited candidate that continues moves from the unvisited part to the
    * survivors. */
  lemma KeepMultisetMatch(bag: seq<string>, i: nat, ch: char, off: nat)
    requires 0 < i <= |bag| && Matches(bag[i - 1], ch, off)
    ensures multiset(Keep(bag[..i - 1], ch, off)) + multiset(bag[i - 1..])
            == multiset(Keep(bag[..i], ch, off)) + multiset(bag[i..])
  {
    KeepSnoc(bag, i, ch, off);
    assert bag[i - 1..] == [bag[i - 1]] + bag[i..];
  }

  /** A visited candidate that does not continue is swap-removed: the last
    * element takes its place among the visited ones. */
  lemma KeepMultisetDrop(bag: seq<string>, i: nat, ch: char, off: nat)
    requires 0 < i <= |bag| && !Matches(bag[i - 1], ch, off)
    ensures multiset(Keep(SwapRemove(bag, i - 1)[..i - 1], ch, off)) + multiset(SwapRemove(bag, i - 1)[i - 1..])
            == multiset(Keep(bag[..i], ch, off)) + multiset(bag[i..])
  {
    var k := i - 1;
    KeepSnoc(bag, i, ch, off);
    SwapRemoveMultiset(bag, k);
    assert SwapRemove(bag, k)[..k] == bag[..k];
  }

  /** The loop keeps the survivors of the part not yet visited together with
    * the part already visited. */
  lemma {:induction false} UpdateFromBag(bag: seq<string>, i: nat, ch: char, off: nat, found: nat, asWritten: bool)
    requires i <= |bag|
    ensures multiset(UpdateFrom(bag, i, ch, off, found, asWritten).bag)
            == multiset(Keep(bag[..i], ch, off)) + multiset(bag[i..])
    decreases i
  {
    if i > 0 {
      var k := i - 1;
      if Matches(bag[k], ch, off) {
        UpdateFromBag(bag, k, ch, off, NextFound(found, bag[k], off, asWritten), asWritten);
        KeepMultisetMatch(bag, i, ch, off);
      } else {
        UpdateFromBag(SwapRemove(bag, k), k, ch, off, found, asWritten);
        KeepMultisetDrop(bag, i, ch, off);
      }
    }
  }

  /** The loop ends with the found code of `Combine` (corrected) or of
    * `CombineAsWritten` (as written). */
  lemma {:induction false} UpdateFromFound(bag: seq<string>, i: nat, ch: char, off: nat, found: nat, asWritten: bool)
    requires i <= |bag|
    ensures !asWritten ==> UpdateFrom(bag, i, ch, off, found, asWritten).found == Combine(found, Keep(bag[..i], ch, off), off)
    ensures asWritten ==> UpdateFrom(bag, i, ch, off, found, asWritten).found == CombineAsWritten(found, Keep(bag[..i], ch, off), off)
    decreases i
  {
    if i > 0 {
      var k := i - 1;
      var s := bag[k];
      KeepSnoc(bag, i, ch, off);
      if Matches(s, ch, off) {
        UpdateFromFound(bag, k, ch, off, NextFound(found, s, off, asWritten), asWritten);
        CombineSnoc(found, Keep(bag[..k], ch, off), s, off, asWritten);
      } else {
        var bag' := SwapRemove(bag, k);
        assert UpdateFrom(bag, i, ch, off, found, asWritten) == UpdateFrom(bag', k, ch, off, found, asWritten);
        UpdateFromFound(bag', k, ch, off, found, asWritten);
        assert bag'[..k] == bag[..k];
      }
    }
  }

  /** The survivors as a set: exactly the candidates that continue. */
  lemma UpdateMatchesMembers(bag: seq<string>, ch: char, off: nat, r: Update)
    requires multiset(r.bag) == multiset(Keep(bag, ch, off))
    ensures forall s :: s in r.bag <==> s in bag && Matches(s, ch, off)
    ensures r.bag == [] <==> Keep(bag, ch, off) == []
    ensures HasComplete(r.bag, off) <==> HasComplete(Keep(bag, ch, off), off)
  {
    forall s
      ensures s in r.bag <==> s in bag && Matches(s, ch, off)
    {
      assert s in r.bag <==> s in multiset(r.bag);
      assert s in Keep(bag, ch, off) <==> s in multiset(Keep(bag, ch, off));
      KeepMember(bag, ch, off, s);
    }
    if r.bag == [] {
      assert multiset(Keep(bag, ch, off)) == multiset{};
    }
    if HasComplete(r.bag, off) {
      var s :| s in r.bag && |s| == off + 1;
      KeepMember(bag, ch, off, s);
    }
    if HasComplete(Keep(bag, ch, off), off) {
      var s :| s in Keep(bag, ch, off) && |s| == off + 1;
      KeepMember(bag, ch, off, s);
    }
  }

  /** `updateMatches(ch, off)` with the found code corrected. */
  function UpdateMatches(bag: seq<string>, ch: char, off: nat): Update {
    UpdateFrom(bag, |bag|, ch, off, 0, false)
  }

  /** `updateMatches` keeps exactly the candidates that continue with `ch` at
    * `off`, each as often as before; it returns 0 exactly when none is left
    * and 2 exactly when a survivor is complete. */
  lemma UpdateMatchesSpec(bag: seq<string>, ch: char, off: nat)
    ensures multiset(UpdateMatches(bag, ch, off).bag) == multiset(Keep(bag, ch, off))
    ensures forall s :: s in UpdateMatches(bag, ch, off).bag <==> s in bag && Matches(s, ch, off)
    ensures UpdateMatches(bag, ch, off).found == 0 <==> UpdateMatches(bag, ch, off).bag == []
    ensures UpdateMatches(bag, ch, off).found == 2 <==> HasComplete(UpdateMatches(bag, ch, off).bag, off)
    ensures |UpdateMatches(bag, ch, off).bag| <= |bag| && UpdateMatches(bag, ch, off).found <= 2
  {
    UpdateFromBag(bag, |bag|, ch, off, 0, false);
    UpdateFromFound(bag, |bag|, ch, off, 0, false);
    assert bag[..|bag|] == bag;
    UpdateMatchesMembers(bag, ch, off, UpdateMatches(bag, ch, off));
  }

  /** `updateMatches(ch, off)` as written: the bag is right, but the code is
    * 2 only when the first survivor in bag order is complete. */
  function UpdateMatchesAsWritten(bag: seq<string>, ch: char, off: nat): (r: Update)
    ensures multiset(r.bag) == multiset(Keep(bag, ch, off))
    ensures r.found == CombineAsWritten(0, Keep(bag, ch, off), off)
  {
    UpdateFromBag(bag, |bag|, ch, off, 0, true);
    UpdateFromFound(bag, |bag|, ch, off, 0, true);
    assert bag[..|bag|] == bag;
    UpdateFrom(bag, |bag|, ch, off, 0, true)
  }

  /** As written, a complete candidate is missed when an incomplete one lies
    * before it in the bag: `"a"` is fully matched by `'a'`, but the code is 1. */
  lemma UpdateMatchesAsWrittenMissesCompletion()
    ensures UpdateMatchesAsWritten(["ab", "a"], 'a', 0).found == 1
    ensures UpdateMatches(["ab", "a"], 'a', 0).found == 2
  {
    var bag := ["ab", "a"];
    assert UpdateFrom(bag, 2, 'a', 0, 0, true) == UpdateFrom(bag, 1, 'a', 0, 2, true);
    assert UpdateFrom(bag, 1, 'a', 0, 2, true) == UpdateFrom(bag, 0, 'a', 0, 1, true);
    UpdateMatchesSpec(bag, 'a', 0);
    assert "a" in bag && Matches("a", 'a', 0);
    assert "a" in UpdateMatches(bag, 'a', 0).bag;
  }

  /** Records an accepted character: the start is set on the first one, the
    * end whenever the condition is complete. */
  function Appended(p: Progress, ch: char, cur: Cursor): (q: Progress)
    ensures q.dstBuf == p.dstBuf + [ch] && q.acceptedCount == p.acceptedCount + 1
    ensures q.matching == p.matching && q.anyComplete == p.anyComplete && q.failed == p.failed
    ensures q.coords.start == (if p.acceptedCount == 0 then cur.pos - 1 else p.coords.start)
    ensures q.coords.end == (if p.anyComplete then cur.pos else p.coords.end)
  {
    var coords := if p.acceptedCount == 0 then SetStart(p.coords, cur) else p.coords;
    var q := p.(acceptedCount := p.acceptedCount + 1, dstBuf := p.dstBuf + [ch], coords := coords);
    if q.anyComplete then q.(coords := SetEnd(coords, cur)) else q
  }

  /** `Literal.acceptNext`: the bag is narrowed to the candidates that continue
    * with `ch`; if none does the condition fails, otherwise `ch` is recorded
    * and a fully matched candidate completes it. */
  function LiteralAccept(p: Progress, ch: char, cur: Cursor): (r: Step)
    ensures p.acceptedCount <= |p.dstBuf| ==>
      (r.accepted <==> exists s :: s in p.matching && Matches(s, ch, |p.dstBuf|))
    ensures r.accepted ==> r.progress.dstBuf == p.dstBuf + [ch] && r.progress.acceptedCount == p.acceptedCount + 1
    ensures r.accepted ==> forall s :: s in r.progress.matching <==> s in p.matching && Matches(s, ch, |p.dstBuf|)
    ensures r.accepted ==> (r.progress.anyComplete <==>
      p.anyComplete || exists s :: s in p.matching && Matches(s, ch, |p.dstBuf|) && |s| == |p.dstBuf| + 1)
    ensures !r.accepted ==> r.progress.failed && !IsComplete(r.progress)
  {
    var off := |p.dstBuf|;
    if p.acceptedCount > off then
      Step(p.(failed := true), false)
    else
      var u := UpdateMatches(p.matching, ch, off);
      UpdateMatchesSpec(p.matching, ch, off);
      var p1 := p.(matching := u.bag, anyComplete := p.anyComplete || u.found == 2);
      if u.found > 0 then
        assert u.bag[0] in u.bag;
        Step(Appended(p1, ch, cur), true)
      else
        Step(p1.(failed := true, anyComplete := false), false)
  }

  /** The replay loop of `findMoreRecentMatch`: `updateMatches(buf[j], j - i)`
    * for every `j` from `j0` on, keeping the candidates that continue with
    * `buf[i..]`. */
  function Replay(q: Progress, buf: seq<char>, i: nat, j0: nat): (r: Progress)
    requires i <= j0 <= |buf|
    ensures r.dstBuf == q.dstBuf && r.coords == q.coords && r.acceptedCount == q.acceptedCount
    ensures r.failed == q.failed && (q.anyComplete ==> r.anyComplete)
    decreases |buf| - j0
  {
    if j0 == |buf| then q
    else
      var u := UpdateMatches(q.matching, buf[j0], j0 - i);
      Replay(q.(matching := u.bag, anyComplete := q.anyComplete || u.found == 2), buf, i, j0 + 1)
  }

  /** The replay keeps exactly the candidates that continue with every
    * replayed character at its offset. */
  lemma {:induction false} ReplayMembers(q: Progress, buf: seq<char>, i: nat, j0: nat)
    requires i <= j0 <= |buf|
    ensures forall s :: s in Replay(q, buf, i, j0).matching <==> s in q.matching && ContinuesFrom(s, buf, i, j0)
    decreases |buf| - j0
  {
    if j0 < |buf| {
      var u := UpdateMatches(q.matching, buf[j0], j0 - i);
      UpdateMatchesSpec(q.matching, buf[j0], j0 - i);
      ReplayMembers(q.(matching := u.bag, anyComplete := q.anyComplete || u.found == 2), buf, i, j0 + 1);
    }
  }

  /** Candidate `s` continues with `buf[j]` at offset `j - i` for every `j`
    * from `j0` on. */
  ghost predicate ContinuesFrom(s: string, buf: seq<char>, i: nat, j0: nat)
    requires i <= j0
  {
    forall j :: j0 <= j < |buf| ==> Matches(s, buf[j], j - i)
  }

  /** Matching every character of `t` at its offset is being prefixed by `t`. */
  lemma PrefixOfIff(t: seq<char>, s: string)
    ensures PrefixOf(t, s) <==> forall j :: 0 <= j < |t| ==> Matches(s, t[j], j)
  {
    if forall j :: 0 <= j < |t| ==> Matches(s, t[j], j) {
      if |t| > 0 {
        assert Matches(s, t[|t| - 1], |t| - 1);
      }
      assert s[..|t|] == t;
    }
  }

  /** What `findMoreRecentMatch` returns: whether a shorter match exists, and
    * the progress it leaves either way. */
  datatype Found = Found(ok: bool, progress: Progress)

  /** The outer loop of `findMoreRecentMatch` from `i` to `bound`: drop the
    * first `i` recorded characters and keep the candidates that continue
    * with what is left followed by `ch`. */
  function TryFrom(cfg: Config, p: Progress, ch: char, cur: Cursor, i: nat, bound: nat): (r: Found)
    requires 1 <= i && bound <= |p.dstBuf|
    decreases bound + 1 - i
  {
    if i > bound then Found(false, p)
    else
      var q2 := Iteration(cfg, p, ch, i);
      if |q2.matching| > 0 then
        var q3 := q2.(dstBuf := p.dstBuf[i..] + [ch], acceptedCount := |p.dstBuf| - i + 1,
                      coords := q2.coords.(start := q2.coords.start + i));
        Found(true, if q3.anyComplete then q3.(coords := SetEnd(q3.coords, cur)) else q3)
      else
        TryFrom(cfg, q2, ch, cur, i + 1, bound)
  }

  /** Some candidate begins with `t`. */
  ghost predicate Resumable(cfg: Config, t: seq<char>) {
    exists s :: s in cfg.originalStrs && PrefixOf(t, s)
  }

  /** `k` is the first offset from `i` on at which the recorded text `buf`,
    * with its first `k` characters dropped and `ch` appended, is resumable. */
  ghost predicate FirstResumable(cfg: Config, buf: seq<char>, ch: char, i: nat, k: nat)
    requires k <= |buf|
  {
    Resumable(cfg, buf[k..] + [ch]) &&
    forall k' :: i <= k' < k ==> !Resumable(cfg, buf[k'..] + [ch])
  }

  /** The state after a successful re-match: the bag holds exactly the
    * candidates that begin with the recorded text, all of it counted. */
  ghost predicate Rematched(cfg: Config, q: Progress) {
    q.acceptedCount == |q.dstBuf| && !q.failed &&
    forall s :: s in q.matching <==> s in cfg.originalStrs && PrefixOf(q.dstBuf, s)
  }

  /** One iteration of the outer loop at `i`: partial reset, replay of
    * `buf[i..]`, then `ch`. */
  function Iteration(cfg: Config, p: Progress, ch: char, i: nat): (q: Progress)
    requires 1 <= i <= |p.dstBuf|
    ensures q.dstBuf == p.dstBuf && q.coords == p.coords && q.acceptedCount == 0 && !q.failed
  {
    var q := Replay(PartialReset(cfg, p), p.dstBuf, i, i);
    var u := UpdateMatches(q.matching, ch, |p.dstBuf| - i);
    q.(matching := u.bag, anyComplete := q.anyComplete || u.found == 2)
  }

  /** One iteration is the replay followed by `ch`. */
  lemma IterationStep(cfg: Config, p: Progress, q: Progress, ch: char, i: nat)
    requires 1 <= i <= |p.dstBuf|
    requires q == Replay(PartialReset(cfg, p), p.dstBuf, i, i)
    ensures Iteration(cfg, p, ch, i)
            == q.(matching := UpdateMatches(q.matching, ch, |p.dstBuf| - i).bag,
                  anyComplete := q.anyComplete || UpdateMatches(q.matching, ch, |p.dstBuf| - i).found == 2)
  {
  }

  /** After one iteration at `i` the bag holds exactly the original
    * candidates that begin with the recorded text from `i` on followed by
    * `ch`. */
  lemma IterationMembers(cfg: Config, p: Progress, ch: char, i: nat)
    requires 1 <= i <= |p.dstBuf|
    ensures forall s :: s in Iteration(cfg, p, ch, i).matching <==> s in cfg.originalStrs && PrefixOf(p.dstBuf[i..] + [ch], s)
  {
    var q := Replay(PartialReset(cfg, p), p.dstBuf, i, i);
    var u := UpdateMatches(q.matching, ch, |p.dstBuf| - i);
    ReplayMembers(PartialReset(cfg, p), p.dstBuf, i, i);
    UpdateMatchesSpec(q.matching, ch, |p.dstBuf| - i);
    IterationBag(cfg, p.dstBuf, ch, i, q.matching, u.bag);
  }

  /** The candidates left after one iteration at `i` are exactly the original
    * ones that begin with `buf[i..] + [ch]`. */
  lemma IterationBag(cfg: Config, buf: seq<char>, ch: char, i: nat, replayed: seq<string>, bag: seq<string>)
    requires 1 <= i <= |buf|
    requires forall s :: s in replayed <==> s in cfg.originalStrs && ContinuesFrom(s, buf, i, i)
    requires forall s :: s in bag <==> s in replayed && Matches(s, ch, |buf| - i)
    ensures forall s :: s in bag <==> s in cfg.originalStrs && PrefixOf(buf[i..] + [ch], s)
  {
    var t := buf[i..] + [ch];
    forall s
      ensures (ContinuesFrom(s, buf, i, i) && Matches(s, ch, |buf| - i)) <==> PrefixOf(t, s)
    {
      PrefixOfIff(t, s);
      if ContinuesFrom(s, buf, i, i) && Matches(s, ch, |buf| - i) {
        forall j | 0 <= j < |t| ensures Matches(s, t[j], j) {
          if j < |buf| - i {
            assert t[j] == buf[j + i];
          } else {
            assert t[j] == ch;
          }
        }
      }
      if forall j :: 0 <= j < |t| ==> Matches(s, t[j], j) {
        forall j | i <= j < |buf| ensures Matches(s, buf[j], j - i) {
          assert t[j - i] == buf[j];
        }
        assert t[|buf| - i] == ch;
      }
    }
  }

  /** An iteration that leaves no candidate shows that dropping `i`
    * characters is not resumable. */
  lemma IterationEmpty(cfg: Config, p: Progress, ch: char, i: nat)
    requires 1 <= i <= |p.dstBuf|
    ensures |Iteration(cfg, p, ch, i).matching| > 0 <==> Resumable(cfg, p.dstBuf[i..] + [ch])
  {
    IterationMembers(cfg, p, ch, i);
    var q2 := Iteration(cfg, p, ch, i);
    if |q2.matching| > 0 {
      assert q2.matching[0] in q2.matching;
    }
    if Resumable(cfg, p.dstBuf[i..] + [ch]) {
      var s :| s in cfg.originalStrs && PrefixOf(p.dstBuf[i..] + [ch], s);
      assert s in q2.matching;
    }
  }

  /** The outer loop succeeds exactly when some offset from `i` to `bound`
    * is resumable, and otherwise leaves the recorded text alone. */
  lemma {:induction false} TryFromOk(cfg: Config, p: Progress, ch: char, cur: Cursor, i: nat, bound: nat)
    requires 1 <= i && bound <= |p.dstBuf|
    ensures TryFrom(cfg, p, ch, cur, i, bound).ok <==> exists k :: i <= k <= bound && Resumable(cfg, p.dstBuf[k..] + [ch])
    ensures !TryFrom(cfg, p, ch, cur, i, bound).ok ==>
      TryFrom(cfg, p, ch, cur, i, bound).progress.dstBuf == p.dstBuf && TryFrom(cfg, p, ch, cur, i, bound).progress.coords == p.coords
    decreases bound + 1 - i
  {
    if i <= bound {
      IterationEmpty(cfg, p, ch, i);
      var q2 := Iteration(cfg, p, ch, i);
      if |q2.matching| == 0 {
        TryFromOk(cfg, q2, ch, cur, i + 1, bound);
      }
    }
  }

  /** The outer loop stops at the first resumable offset, that is at the
    * longest suffix of the recorded text that some candidate begins with
    * followed by `ch`, and then records exactly that suffix and `ch`. */
  lemma {:induction false} TryFromFirst(cfg: Config, p: Progress, ch: char, cur: Cursor, i: nat, bound: nat)
    requires 1 <= i && bound <= |p.dstBuf|
    requires TryFrom(cfg, p, ch, cur, i, bound).ok
    ensures exists k :: i <= k <= bound && FirstResumable(cfg, p.dstBuf, ch, i, k) &&
                        TryFrom(cfg, p, ch, cur, i, bound).progress.dstBuf == p.dstBuf[k..] + [ch] &&
                        TryFrom(cfg, p, ch, cur, i, bound).progress.coords.start == p.coords.start + k
    ensures Rematched(cfg, TryFrom(cfg, p, ch, cur, i, bound).progress)
    decreases bound + 1 - i
  {
    var r := TryFrom(cfg, p, ch, cur, i, bound);
    var buf := p.dstBuf;
    IterationEmpty(cfg, p, ch, i);
    var q2 := Iteration(cfg, p, ch, i);
    if |q2.matching| > 0 {
      assert FirstResumable(cfg, buf, ch, i, i);
      assert r.progress.dstBuf == buf[i..] + [ch];
      IterationMembers(cfg, p, ch, i);
    } else {
      TryFromFirst(cfg, q2, ch, cur, i + 1, bound);
      var k :| i + 1 <= k <= bound && FirstResumable(cfg, buf, ch, i + 1, k) &&
               r.progress.dstBuf == buf[k..] + [ch] && r.progress.coords.start == p.coords.start + k;
      assert FirstResumable(cfg, buf, ch, i, k);
    }
  }

  /** Dropping between 1 and all of the recorded characters `buf` leaves a
    * text that, followed by `ch`, some candidate begins with. */
  ghost predicate CanRematch(cfg: Config, buf: seq<char>, ch: char) {
    exists k :: 1 <= k <= |buf| && Resumable(cfg, buf[k..] + [ch])
  }

  /** `findMoreRecentMatch` as written tries dropping 1 to `size - 1`
    * characters, and `size` only when a single character is recorded. */
  function AsWrittenBound(size: nat): nat {
    if size <= 1 then size else size - 1
  }

  /** `findMoreRecentMatch` with its loop also trying `ch` on its own: it
    * finds the longest proper suffix of the recorded text that, followed by
    * `ch`, some candidate begins with, and restarts the match there. */
  function FindMoreRecentMatch(cfg: Config, p: Progress, ch: char, cur: Cursor): (r: Found)
    ensures r.ok <==> CanRematch(cfg, p.dstBuf, ch)
    ensures r.ok ==> exists k :: 1 <= k <= |p.dstBuf| && FirstResumable(cfg, p.dstBuf, ch, 1, k) &&
                                 r.progress.dstBuf == p.dstBuf[k..] + [ch] && r.progress.coords.start == p.coords.start + k
    ensures r.ok ==> Rematched(cfg, r.progress)
    ensures !r.ok ==> r.progress.dstBuf == p.dstBuf && r.progress.coords == p.coords
  {
    TryFromOk(cfg, p, ch, cur, 1, |p.dstBuf|);
    if TryFrom(cfg, p, ch, cur, 1, |p.dstBuf|).ok then
      TryFromFirst(cfg, p, ch, cur, 1, |p.dstBuf|);
      TryFrom(cfg, p, ch, cur, 1, |p.dstBuf|)
    else
      TryFrom(cfg, p, ch, cur, 1, |p.dstBuf|)
  }

  /** `findMoreRecentMatch` as written. */
  function FindMoreRecentMatchAsWritten(cfg: Config, p: Progress, ch: char, cur: Cursor): (r: Found)
    ensures r.ok <==> exists k :: 1 <= k <= AsWrittenBound(|p.dstBuf|) && Resumable(cfg, p.dstBuf[k..] + [ch])
  {
    TryFromOk(cfg, p, ch, cur, 1, AsWrittenBound(|p.dstBuf|));
    TryFrom(cfg, p, ch, cur, 1, AsWrittenBound(|p.dstBuf|))
  }

  /** Once something is recorded, a character that begins a candidate is never
    * lost: the corrected re-match always succeeds on it. */
  lemma FindMoreRecentMatchKeepsStart(cfg: Config, p: Progress, ch: char, cur: Cursor)
    requires |p.dstBuf| >= 1
    requires exists s :: s in cfg.originalStrs && |s| > 0 && s[0] == ch
    ensures FindMoreRecentMatch(cfg, p, ch, cur).ok
  {
    var s :| s in cfg.originalStrs && |s| > 0 && s[0] == ch;
    var k := |p.dstBuf|;
    assert p.dstBuf[k..] + [ch] == [ch];
    assert PrefixOf([ch], s);
  }

  /** As written, `End(["abc"])` having recorded `"ab"` drops an `'a'` that
    * begins `"abc"` again. */
  lemma FindMoreRecentMatchAsWrittenDropsStart()
    ensures !FindMoreRecentMatchAsWritten(Config(End, ["abc"]), Init(Config(End, ["abc"])).(dstBuf := "ab", acceptedCount := 2),
                                          'a', Cursor("aba", 3)).ok
    ensures FindMoreRecentMatch(Config(End, ["abc"]), Init(Config(End, ["abc"])).(dstBuf := "ab", acceptedCount := 2),
                                'a', Cursor("aba", 3)).ok
  {
    var cfg := Config(End, ["abc"]);
    var p := Init(cfg).(dstBuf := "ab", acceptedCount := 2);
    assert AsWrittenBound(2) == 1;
    assert p.dstBuf[1..] + ['a'] == "ba";
    assert !Resumable(cfg, "ba") by {
      forall s | s in cfg.originalStrs ensures !PrefixOf("ba", s) {
        assert s == "abc";
        assert s[..2] == "ab";
      }
    }
    FindMoreRecentMatchKeepsStart(cfg, p, 'a', Cursor("aba", 3));
  }

  /** `End.acceptNext`. Before completion every character is accepted: it
    * extends the candidates, or else re-matches a shorter suffix, or else
    * resets the condition. After completion a character is accepted only if
    * a shorter suffix re-matches with it; otherwise the condition fails. */
  function EndAccept(cfg: Config, p: Progress, ch: char, cur: Cursor): (r: Step)
    ensures !IsComplete(p) ==> r.accepted
    ensures IsComplete(p) ==> (r.accepted <==> CanRematch(cfg, p.dstBuf, ch))
    ensures IsComplete(p) && !r.accepted ==> r.progress.failed
    ensures !IsComplete(p) && UpdateMatches(p.matching, ch, |p.dstBuf|).found > 0 ==>
      r.progress.dstBuf == p.dstBuf + [ch] && r.progress.acceptedCount == p.acceptedCount + 1
    ensures !IsComplete(p) && UpdateMatches(p.matching, ch, |p.dstBuf|).found == 0 && !CanRematch(cfg, p.dstBuf, ch) ==>
      r.progress == Init(cfg)
    ensures (IsComplete(p) || UpdateMatches(p.matching, ch, |p.dstBuf|).found == 0) && CanRematch(cfg, p.dstBuf, ch) ==>
      Rematched(cfg, r.progress)
  {
    if IsComplete(p) then
      var f := FindMoreRecentMatch(cfg, p, ch, cur);
      if f.ok then Step(f.progress, true) else Step(f.progress.(failed := true), false)
    else
      var u := UpdateMatches(p.matching, ch, |p.dstBuf|);
      var p1 := p.(matching := u.bag, anyComplete := p.anyComplete || u.found == 2);
      if u.found > 0 then
        Step(Appended(p1, ch, cur), true)
      else
        var f := FindMoreRecentMatch(cfg, p1, ch, cur);
        Step(if f.ok then f.progress else Init(cfg), true)
  }

  /** One `acceptNext(ch, buf)` call; `cur` is the cursor just after `ch`. */
  function Accept(cfg: Config, p: Progress, ch: char, cur: Cursor): Step {
    match cfg.kind
    case Literal => LiteralAccept(p, ch, cur)
    case End => EndAccept(cfg, p, ch, cur)
  }

  /** The recorded text is consistent with the bag: every live candidate is an
    * original one that begins with it, and every character is counted. */
  ghost predicate Consistent(cfg: Config, p: Progress) {
    p.acceptedCount == |p.dstBuf| &&
    forall s :: s in p.matching ==> s in cfg.originalStrs && PrefixOf(p.dstBuf, s)
  }

  /** Every accepting step keeps the recorded text consistent with the bag. */
  lemma AcceptKeepsConsistent(cfg: Config, p: Progress, ch: char, cur: Cursor)
    requires Consistent(cfg, p)
    ensures var r := Accept(cfg, p, ch, cur); r.accepted ==> Consistent(cfg, r.progress)
  {
    var r := Accept(cfg, p, ch, cur);
    if r.accepted {
      var u := UpdateMatches(p.matching, ch, |p.dstBuf|);
      UpdateMatchesSpec(p.matching, ch, |p.dstBuf|);
      if (cfg.kind == Literal || !IsComplete(p)) && u.found > 0 {
        forall s | s in r.progress.matching ensures s in cfg.originalStrs && PrefixOf(p.dstBuf + [ch], s) {
          assert s in p.matching && Matches(s, ch, |p.dstBuf|);
          assert s[..|p.dstBuf| + 1] == s[..|p.dstBuf|] + [s[|p.dstBuf|]];
        }
      }
    }
  }

  /** A new condition is consistent. */
  lemma InitConsistent(cfg: Config)
    ensures Consistent(cfg, Init(cfg))
  {
  }
}

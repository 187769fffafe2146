/** The mutable multi-string condition: the bag of candidates is an array
  * whose first `matchingStrsSize` entries are live, narrowed in place by
  * swap-removal. Every method is proved to follow the functions of
  * `StringConditions`. */
module StringParsers {
  import opened Text
  import opened StringConditions

  /** The mutable condition object: `matchingStrs[..matchingStrsSize]` is the
    * bag, `firstChars` the first characters of the candidates. */
  class StringParser {
    const config: Config
    const firstChars: array<char>
    const matchingStrs: array<string>
    var matchingStrsSize: nat
    var anyComplete: bool
    var failed: bool
    var acceptedCount: nat
    var dstBuf: seq<char>
    var coords: Coords

    ghost predicate Valid()
      reads this, firstChars, matchingStrs
    {
      ValidStrs(config.originalStrs) &&
      firstChars.Length == |config.originalStrs| && firstChars[..] == FirstChars(config.originalStrs) &&
      matchingStrs.Length == |config.originalStrs| && matchingStrsSize <= matchingStrs.Length
    }

    /** The fields as a value. */
    function State(): Progress
      reads this, matchingStrs
      requires matchingStrsSize <= matchingStrs.Length
    {
      Progress(matchingStrs[..matchingStrsSize], anyComplete, failed, acceptedCount, dstBuf, coords)
    }

    /** Fills `firstChars` from the candidates and the bag with all of them. */
    constructor (kind: Kind, strs: seq<string>)
      requires ValidStrs(strs)
      ensures Valid() && config == Config(kind, strs) && State() == Init(config)
      ensures fresh(firstChars) && fresh(matchingStrs)
    {
      var n := |strs|;
      config := Config(kind, strs);
      var fc := new char[n];
      matchingStrs := new string[n](i requires 0 <= i < n => strs[i]);
      firstChars := fc;
      matchingStrsSize := n;
      anyComplete, failed, acceptedCount := false, false, 0;
      dstBuf, coords := [], NoCoords;
      new;
      assert matchingStrs[..n] == strs;
      var i := 0;
      while i < n
        invariant 0 <= i <= n
        invariant forall k :: 0 <= k < i ==> fc[k] == strs[k][0]
        modifies fc
      {
        fc[i] := strs[i][0];
        i := i + 1;
      }
      assert fc[..] == FirstChars(strs);
    }

    /** The first-character matcher: `ch` is the first character of some
      * candidate. */
    method MatchesFirstChar(ch: char) returns (b: bool)
      requires Valid()
      ensures b <==> exists s :: s in config.originalStrs && s[0] == ch
    {
      FirstCharsIff(config.originalStrs, ch);
      var i := 0;
      while i < firstChars.Length
        invariant 0 <= i <= firstChars.Length
        invariant ch !in firstChars[..i]
      {
        if firstChars[i] == ch {
          assert firstChars[..][i] == ch;
          return true;
        }
        assert firstChars[..i + 1] == firstChars[..i] + [firstChars[i]];
        i := i + 1;
      }
      assert firstChars[..i] == firstChars[..];
      b := false;
    }

    /** Refills the bag with every candidate and clears the progress. */
    method Reset()
      requires Valid()
      modifies this, matchingStrs
      ensures Valid() && State() == Init(config)
    {
      var n := |config.originalStrs|;
      var i := 0;
      while i < n
        invariant 0 <= i <= n && matchingStrs.Length == n
        invariant matchingStrs[..i] == config.originalStrs[..i]
        modifies matchingStrs
      {
        matchingStrs[i] := config.originalStrs[i];
        assert matchingStrs[..i + 1] == matchingStrs[..i] + [matchingStrs[i]];
        i := i + 1;
      }
      assert matchingStrs[..n] == config.originalStrs;
      matchingStrsSize := n;
      anyComplete, failed := false, false;
      dstBuf := [];
      coords := NoCoords;
      acceptedCount := 0;
    }

    /** `reset` that keeps the recorded characters and their coordinates. */
    method PartialReset()
      requires Valid()
      modifies this, matchingStrs
      ensures Valid() && State() == StringConditions.PartialReset(config, old(State()))
    {
      var n := |config.originalStrs|;
      var i := 0;
      while i < n
        invariant 0 <= i <= n && matchingStrs.Length == n
        invariant matchingStrs[..i] == config.originalStrs[..i]
        modifies matchingStrs
      {
        matchingStrs[i] := config.originalStrs[i];
        assert matchingStrs[..i + 1] == matchingStrs[..i] + [matchingStrs[i]];
        i := i + 1;
      }
      assert matchingStrs[..n] == config.originalStrs;
      matchingStrsSize := n;
      anyComplete, failed := false, false;
      acceptedCount := 0;
    }

    /** A new condition with the same candidates. */
    method Copy() returns (c: StringParser)
      requires Valid()
      ensures fresh(c) && fresh(c.matchingStrs) && c.Valid() && c.config == config && c.State() == Init(config)
    {
      c := new StringParser(config.kind, config.originalStrs);
    }

    /** Narrows the bag to the candidates that continue with `ch` at `off`,
      * visiting it from the end and swap-removing the others; returns the
      * found code. */
    method UpdateMatches(ch: char, off: nat) returns (found: nat)
      requires Valid()
      modifies this, matchingStrs
      ensures Valid()
      ensures State() == old(State()).(matching := StringConditions.UpdateMatches(old(State()).matching, ch, off).bag)
      ensures found == StringConditions.UpdateMatches(old(State()).matching, ch, off).found
    {
      ghost var bag0 := matchingStrs[..matchingStrsSize];
      var size := matchingStrsSize;
      found := 0;
      var i := size;
      assert bag0[..|bag0|] == bag0;
      while i > 0
        invariant 0 <= i <= size <= matchingStrs.Length
        invariant UpdateFrom(matchingStrs[..size], i, ch, off, found, false) == UpdateFrom(bag0, |bag0|, ch, off, 0, false)
        modifies matchingStrs
        decreases i
      {
        ghost var before := matchingStrs[..size];
        ghost var found0 := found;
        i := i - 1;
        var str := matchingStrs[i];
        assert str == before[i];
        if |str| > off && str[off] == ch {
          if |str| == off + 1 {
            found := 2;
          } else if found != 2 {
            found := 1;
          }
          assert found == NextFound(found0, str, off, false);
          assert UpdateFrom(before, i + 1, ch, off, found0, false) == UpdateFrom(before, i, ch, off, found, false);
        } else {
          matchingStrs[i] := matchingStrs[size - 1];
          size := size - 1;
          assert matchingStrs[..size] == SwapRemove(before, i);
          assert UpdateFrom(before, i + 1, ch, off, found0, false) == UpdateFrom(SwapRemove(before, i), i, ch, off, found0, false);
        }
      }
      matchingStrsSize := size;
    }

    /** Records an accepted character and its coordinates. */
    method Append(ch: char, buf: TextParser)
      requires matchingStrsSize <= matchingStrs.Length
      modifies this
      ensures matchingStrsSize == old(matchingStrsSize)
      ensures State() == Appended(old(State()), ch, buf.State())
    {
      if acceptedCount == 0 {
        coords := SetStart(coords, buf.State());
      }
      acceptedCount := acceptedCount + 1;
      dstBuf := dstBuf + [ch];
      if anyComplete {
        coords := SetEnd(coords, buf.State());
      }
    }

    /** `Literal.acceptNext`. */
    method LiteralAcceptNext(ch: char, buf: TextParser) returns (accepted: bool)
      requires Valid()
      modifies this, matchingStrs
      ensures Valid() && Step(State(), accepted) == LiteralAccept(old(State()), ch, buf.State())
    {
      var off := |dstBuf|;
      if acceptedCount > off {
        failed := true;
        return false;
      }
      var found := UpdateMatches(ch, off);
      if found == 2 {
        anyComplete := true;
      }
      if found > 0 {
        Append(ch, buf);
        accepted := true;
      } else {
        failed := true;
        anyComplete := false;
        accepted := false;
      }
    }

    /** One pass of the outer loop of `findMoreRecentMatch`: partial reset,
      * then the recorded characters from `i` on and `ch` narrow the bag. */
    method Iterate(ch: char, i: nat)
      requires Valid() && 1 <= i <= |dstBuf|
      modifies this, matchingStrs
      ensures Valid() && State() == Iteration(config, old(State()), ch, i)
    {
      ghost var start := State();
      var size := |dstBuf|;
      PartialReset();
      var j := i;
      while j < size
        invariant i <= j <= size
        invariant Valid() && dstBuf == start.dstBuf
        invariant Replay(State(), dstBuf, i, j) == Replay(StringConditions.PartialReset(config, start), start.dstBuf, i, i)
        decreases size - j
      {
        ghost var st := State();
        var f := UpdateMatches(dstBuf[j], j - i);
        if f == 2 {
          anyComplete := true;
        }
        assert State() == st.(matching := StringConditions.UpdateMatches(st.matching, st.dstBuf[j], j - i).bag,
                              anyComplete := st.anyComplete || f == 2);
        assert Replay(st, start.dstBuf, i, j) == Replay(State(), start.dstBuf, i, j + 1);
        j := j + 1;
      }
      ghost var q := State();
      assert q == Replay(StringConditions.PartialReset(config, start), start.dstBuf, i, i);
      var f := UpdateMatches(ch, size - i);
      if f == 2 {
        anyComplete := true;
      }
      ghost var u := StringConditions.UpdateMatches(q.matching, ch, size - i);
      assert State() == q.(matching := u.bag, anyComplete := q.anyComplete || u.found == 2);
      IterationStep(config, start, q, ch, i);
    }

    /** `End.findMoreRecentMatch`, with the loop also trying `ch` on its own. */
    method FindMoreRecentMatch(ch: char, buf: TextParser) returns (ok: bool)
      requires Valid()
      modifies this, matchingStrs
      ensures Valid()
      ensures Found(ok, State()) == StringConditions.FindMoreRecentMatch(config, old(State()), ch, buf.State())
    {
      var size := |dstBuf|;
      var i := 1;
      while i <= size
        invariant 1 <= i <= size + 1
        invariant Valid() && |dstBuf| == size && dstBuf == old(dstBuf)
        invariant TryFrom(config, State(), ch, buf.State(), i, size) == TryFrom(config, old(State()), ch, buf.State(), 1, size)
        decreases size + 1 - i
      {
        Iterate(ch, i);
        if matchingStrsSize > 0 {
          dstBuf := dstBuf[i..] + [ch];
          acceptedCount := size - i + 1;
          coords := coords.(start := coords.start + i);
          if anyComplete {
            coords := SetEnd(coords, buf.State());
          }
          return true;
        }
        i := i + 1;
      }
      ok := false;
    }

    /** `End.acceptNext`. */
    method EndAcceptNext(ch: char, buf: TextParser) returns (accepted: bool)
      requires Valid()
      modifies this, matchingStrs
      ensures Valid() && Step(State(), accepted) == EndAccept(config, old(State()), ch, buf.State())
    {
      var off := |dstBuf|;
      if anyComplete && !failed {
        var more := FindMoreRecentMatch(ch, buf);
        if more {
          return true;
        } else {
          failed := true;
          return false;
        }
      }
      var found := UpdateMatches(ch, off);
      if found == 2 {
        anyComplete := true;
      }
      if found > 0 {
        Append(ch, buf);
      } else {
        var more := FindMoreRecentMatch(ch, buf);
        if !more {
          Reset();
        }
      }
      accepted := true;
    }

    /** `acceptNext(ch, buf)`. */
    method AcceptNext(ch: char, buf: TextParser) returns (accepted: bool)
      requires Valid()
      modifies this, matchingStrs
      ensures Valid() && Step(State(), accepted) == Accept(config, old(State()), ch, buf.State())
    {
      match config.kind
      case Literal => accepted := LiteralAcceptNext(ch, buf);
      case End => accepted := EndAcceptNext(ch, buf);
    }
  }
}

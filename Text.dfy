/** The character cursor that every condition is fed from, and the offsets a
  * condition records for the text it matched.
  *
  * The cursor library of the tokenizer is external; this module models only
  * what the conditions use of it: read the next character, look at the
  * character before the current one, unread, and the current offset. Line and
  * column numbers are not modelled. */
module Text {

  datatype Option<+T> = None | Some(value: T)

  /** A cursor over `text` as a value: `pos` characters have been read. The
    * character handed to a condition together with a cursor is the one at
    * `pos - 1`. */
  datatype Cursor = Cursor(text: seq<char>, pos: nat)
  {
    predicate HasNext() {
      pos < |text|
    }

    /** The cursor after reading one more character. */
    function Advance(): (r: Cursor)
      requires HasNext()
      ensures r.text == text && r.pos == pos + 1
    {
      Cursor(text, pos + 1)
    }

    /** The character that the next read returns. */
    function Peek(): char
      requires HasNext()
    {
      text[pos]
    }

    function Unread(n: nat): (r: Cursor)
      requires n <= pos
      ensures r.text == text && r.pos == pos - n
    {
      Cursor(text, pos - n)
    }

    /** There is a character before the one read last. */
    predicate HasPrevChar() {
      2 <= pos <= |text|
    }

    /** The character before the one read last. */
    function PrevChar(): char
      requires HasPrevChar()
    {
      text[pos - 2]
    }

    /** Offset of the character read last. */
    function Offset(): int {
      pos - 1
    }
  }

  /** The offsets of a matched fragment: `start` is the offset of its first
    * character, `end` the offset just past its last one. */
  datatype Coords = Coords(start: int, end: int)
  {
    function Length(): int {
      end - start
    }
  }

  /** The coordinates of a freshly created fragment. */
  const NoCoords := Coords(0, 0)

  /** The fragment starts at the character read last. */
  function SetStart(c: Coords, cur: Cursor): Coords {
    c.(start := cur.Offset())
  }

  /** The fragment ends with the character read last. */
  function SetEnd(c: Coords, cur: Cursor): Coords {
    c.(end := cur.pos)
  }

  /** The smallest fragment that covers both `a` and `b`. */
  function Span(a: Coords, b: Coords): (r: Coords)
    ensures r.start <= a.start && r.start <= b.start
    ensures r.end >= a.end && r.end >= b.end
    ensures r.start == a.start || r.start == b.start
    ensures r.end == a.end || r.end == b.end
  {
    Coords(if a.start <= b.start then a.start else b.start,
           if a.end >= b.end then a.end else b.end)
  }

  /** Removes the element at `k` by moving the last element into its place:
    * the unordered removal the bags of candidates use. */
  function SwapRemove<T>(s: seq<T>, k: nat): (r: seq<T>)
    requires k < |s|
    ensures |r| == |s| - 1 && r[..k] == s[..k]
    ensures k < |r| ==> r[k] == s[|s| - 1] && r[k + 1..] == s[k + 1..|s| - 1]
  {
    s[k := s[|s| - 1]][..|s| - 1]
  }

  /** Moving the last element into the place of `x` leaves the bag without
    * `x`. */
  lemma MovedLast<T>(pre: seq<T>, x: T, mid: seq<T>, last: T)
    ensures multiset(pre + [x] + mid + [last]) == multiset(pre + [last] + mid) + multiset{x}
    ensures multiset([last] + mid) == multiset(mid + [last])
  {
    assert multiset(pre + [last] + mid) == multiset(pre) + multiset{last} + multiset(mid);
  }

  /** Swap-removal takes exactly one occurrence of `s[k]` out of the bag. */
  lemma SwapRemoveMultiset<T>(s: seq<T>, k: nat)
    requires k < |s|
    ensures multiset(s) == multiset(SwapRemove(s, k)) + multiset{s[k]}
    ensures multiset(SwapRemove(s, k)[k..]) == multiset(s[k + 1..])
  {
    var r := SwapRemove(s, k);
    if k < |r| {
      var pre, mid, last := s[..k], s[k + 1..|s| - 1], s[|s| - 1];
      assert s == pre + [s[k]] + mid + [last];
      assert r == pre + [last] + mid;
      assert r[k..] == [last] + mid;
      assert s[k + 1..] == mid + [last];
      MovedLast(pre, s[k], mid, last);
    } else {
      assert s == r + [s[k]];
      MovedLast(r, s[k], [], s[k]);
    }
  }

  /** The one-character look-ahead: the next character exists and satisfies `m`. */
  predicate NextMatches(cur: Cursor, m: char -> bool) {
    cur.HasNext() && m(cur.Peek())
  }

  /** The imperative cursor that the driver reads from and unreads into. */
  class TextParser {
    const text: seq<char>
    var pos: nat

    ghost predicate Valid()
      reads this
    {
      pos <= |text|
    }

    /** The cursor as a value. */
    function State(): (c: Cursor)
      reads this
      ensures c.text == text && c.pos == pos
    {
      Cursor(text, pos)
    }

    constructor (text: seq<char>)
      ensures Valid() && this.text == text && pos == 0
    {
      this.text := text;
      pos := 0;
    }

    method HasNext() returns (r: bool)
      ensures r <==> pos < |text|
    {
      r := pos < |text|;
    }

    method NextChar() returns (ch: char)
      requires Valid() && pos < |text|
      modifies this
      ensures Valid() && pos == old(pos) + 1 && ch == text[old(pos)]
    {
      ch := text[pos];
      pos := pos + 1;
    }

    method Unread(n: nat)
      requires Valid() && n <= pos
      modifies this
      ensures Valid() && pos == old(pos) - n
    {
      pos := pos - n;
    }

    /** The offset of the character read last. */
    method GetPosition() returns (off: int)
      ensures off == pos - 1
    {
      off := pos - 1;
    }
  }

  /** Reads one character, tests it and unreads it again: the cursor is left
    * where it was. */
  method IsNext(buf: TextParser, m: char -> bool) returns (b: bool)
    requires buf.Valid()
    modifies buf
    ensures buf.Valid() && buf.pos == old(buf.pos)
    ensures b <==> NextMatches(old(buf.State()), m)
  {
    var has := buf.HasNext();
    if has {
      var ch := buf.NextChar();
      b := m(ch);
      buf.Unread(1);
    } else {
      b := false;
    }
  }
}

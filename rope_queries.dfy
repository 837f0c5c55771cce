/** The queries every rope inherits from AbstractRope: `hashCode`,
    `equals`, `indexOf` and `compareTo`, each driving an iterator from the
    rope's first character. */
module RopeQueries {
  import opened Ropes
  import opened ConcatenationRopes
  import opened RopeIterators
  import opened RopeUtilities

  /** `hashCode` reads all of a rope shorter than this, and otherwise its
      first five characters and its last one. */
  const HASH_SAMPLE: int := 6

  /** Java `int` arithmetic: the value modulo 2^32, read as a signed
      number. */
  function Wrap32(x: int): (w: int)
    ensures -0x8000_0000 <= w < 0x8000_0000
  {
    (x + 0x8000_0000) % 0x1_0000_0000 - 0x8000_0000
  }

  /** `h = 31 * h + c` over the characters in order, starting from 0, in
      `int` arithmetic. */
  function PolyHash(s: seq<char>): (h: int)
    ensures -0x8000_0000 <= h < 0x8000_0000
  {
    if s == [] then 0 else Wrap32(31 * PolyHash(s[..|s| - 1]) + s[|s| - 1] as int)
  }

  /** One more character extends the polynomial by one step. */
  lemma PolyHashStep(s: seq<char>, c: char)
    ensures PolyHash(s + [c]) == Wrap32(31 * PolyHash(s) + c as int)
  {
    assert (s + [c])[..|s|] == s;
  }

  /** The polynomial of a prefix one character longer. */
  lemma PolyHashPrefix(s: seq<char>, k: int, h: int, c: char)
    requires 0 <= k < |s| && h == PolyHash(s[..k]) && c == s[k]
    ensures PolyHash(s[..k + 1]) == Wrap32(31 * h + c as int)
  {
    assert s[..k + 1][..k] == s[..k];
  }

  /** A round of the hashing loop over the text an iterator delivers from
      index `start` of `w` adds the character at `start + k`. */
  lemma HashRound(w: seq<char>, start: int, k: int, h: int, pending: seq<char>)
    requires 0 <= start && 0 <= k && start + k < |w|
    requires pending == if start <= |w| then w[start..] else []
    requires h == PolyHash(pending[..k])
    ensures k < |pending| && PolyHash(pending[..k + 1]) == Wrap32(31 * h + w[start + k] as int)
  {
    assert pending[k] == w[start + k];
    PolyHashPrefix(pending, k, h, pending[k]);
  }

  /** The hash of a text as `hashCode` computes it for a rope whose
      iteration delivers exactly that text. */
  function ContentHash(s: seq<char>): (h: int)
    ensures -0x8000_0000 <= h < 0x8000_0000
  {
    if |s| == 0 then 0
    else if |s| < HASH_SAMPLE then PolyHash(s)
    else Wrap32(31 * PolyHash(s[..5]) + s[|s| - 1] as int)
  }

  /** A long text hashes as the polynomial of a six-character sample: its
      first five characters and its last. Texts that share that sample
      share their hash. */
  lemma ContentHashSample(s: seq<char>)
    requires |s| >= HASH_SAMPLE
    ensures ContentHash(s) == PolyHash(s[..5] + [s[|s| - 1]])
  {
    PolyHashStep(s[..5], s[|s| - 1]);
  }

  /** The last step of `hashCode` on a long rope completes the sample
      hash of its text. */
  lemma SampleHash(r: Rope, t: seq<char>, h: int, c: char)
    requires WellFormed(r) && Len(r) >= HASH_SAMPLE && Str(r) <= t
    requires h == PolyHash(t[..5]) && c == Str(r)[Len(r) - 1]
    ensures Wrap32(31 * h + c as int) == IterationHash(r)
  {
    assert t[..5] == Str(r)[..5];
  }

  /** Iteration from the first character delivers exactly the rope's text:
      it does not end in a substring rope's cursor. */
  ghost predicate ExactIteration(r: Rope)
    requires WellFormed(r)
  {
    Len(r) <= 0 || !IterUnit(r, 0).Sub?
  }

  /** The loop of `hashCode` for a short rope: the polynomial over
      everything the iterator delivers until `hasNext` says no more. */
  method HashPending(it: RopeIter) returns (res: Result<int>)
    requires IterValid(it)
    modifies IterObj(it)
    ensures res.Ok? ==> res.value == PolyHash(old(IterYield(it)))
    ensures IterExact(it) ==> res.Ok?
  {
    CursorInRange(it);
    ghost var pending, start := IterYield(it), Cursor(it);
    ghost var k := 0;
    var h := 0;
    while true
      invariant IterValid(it) && 0 <= k <= |pending| && Cursor(it) == start + k
      invariant h == PolyHash(pending[..k])
      decreases |pending| - k
    {
      var more := IterHasNext(it);
      if !more {
        break;
      }
      var next := HashStep(it, h);
      if next.Err? {
        return next;
      }
      HashRound(Walked(it), start, k, h, pending);
      h := next.value;
      k := k + 1;
    }
    assert pending[..k] == pending;
    return Ok(h);
  }

  /** One round of that loop: `h = 31 * h + next()`. */
  method HashStep(it: RopeIter, h: int) returns (res: Result<int>)
    requires IterValid(it)
    modifies IterObj(it)
    ensures IterValid(it)
    ensures old(Cursor(it)) < |Walked(it)| ==>
      Cursor(it) == old(Cursor(it)) + 1 && res == Ok(Wrap32(31 * h + Walked(it)[old(Cursor(it))] as int))
    ensures old(Cursor(it)) >= |Walked(it)| ==> res.Err?
  {
    var c := IterNext(it);
    if c.Err? {
      return Err(c.error);
    }
    return Ok(Wrap32(31 * h + c.value as int));
  }

  /** The loop of `hashCode` for a long rope: the polynomial over the first
      `n` pending characters. */
  method HashFirst(it: RopeIter, n: int) returns (h: int)
    requires IterValid(it) && 0 <= n <= |IterYield(it)|
    modifies IterObj(it)
    ensures h == PolyHash(old(IterYield(it))[..n])
  {
    ghost var pending, start := IterYield(it), Cursor(it);
    h := 0;
    for j := 0 to n
      invariant IterValid(it) && Cursor(it) == start + j
      invariant h == PolyHash(pending[..j])
    {
      var c := IterNext(it);
      PolyHashPrefix(pending, j, h, c.value);
      h := Wrap32(31 * h + c.value as int);
    }
  }

  /** The value `hashCode()` computes: the polynomial over everything the
      iterator delivers for a short rope, the six-character sample of the
      text otherwise. */
  ghost function IterationHash(r: Rope): int
    requires WellFormed(r)
  {
    if Len(r) <= 0 then 0
    else if Len(r) < HASH_SAMPLE then PolyHash(IterText(r, 0))
    else ContentHash(Str(r))
  }

  /** When iteration delivers exactly the text, the hash depends on the
      text alone: ropes with equal texts have equal hashes. */
  lemma IterationHashExact(r: Rope)
    requires WellFormed(r) && ExactIteration(r)
    ensures IterationHash(r) == ContentHash(Str(r))
  {
    if 0 < Len(r) {
      IterTextCovers(r, 0);
    }
  }

  /** `hashCode()` (the memo field aside): 0 for an empty rope, otherwise
      the iteration hash, which a short rope can fail to reach when its
      iterator stops early. */
  method HashCode(r: Rope) returns (res: Result<int>)
    requires WellFormed(r)
    ensures res.Ok? ==> res.value == IterationHash(r)
    ensures Len(r) == 0 || Len(r) >= HASH_SAMPLE || NonEmptyUnits(r) ==> res.Ok?
  {
    var n := Len(r);
    if n <= 0 {
      return Ok(0);
    }
    var started := IteratorFromStart(r);
    var it := started.value;
    ghost var pending := IterYield(it);
    assert pending == IterText(r, 0) && Str(r) <= pending;
    if n < HASH_SAMPLE {
      assert IterationHash(r) == PolyHash(pending);
      res := HashPending(it);
      assert res.Ok? ==> res.value == IterationHash(r);
      return;
    }
    var h := HashSampled(r, it);
    return Ok(h);
  }

  /** The branch of `hashCode` for a rope of six or more characters: the
      first five characters the iterator delivers, then the last one. */
  method HashSampled(r: Rope, it: RopeIter) returns (h: int)
    requires WellFormed(r) && Len(r) >= HASH_SAMPLE
    requires IterValid(it) && Str(r) <= IterYield(it)
    modifies IterObj(it)
    ensures h == IterationHash(r)
  {
    ghost var pending := IterYield(it);
    h := HashFirst(it, 5);
    var last := CharAt(r, Len(r) - 1);
    assert last == Ok(Str(r)[Len(r) - 1]);
    SampleHash(r, pending, h, last.value);
    h := Wrap32(31 * h + last.value as int);
  }

  /** Position of the first `ch` in `s`, or -1. */
  function FirstIndex(s: seq<char>, ch: char): (i: int)
    ensures -1 <= i < |s|
    ensures i == -1 <==> ch !in s
    ensures i >= 0 ==> s[i] == ch && ch !in s[..i]
  {
    if s == [] then -1
    else if s[0] == ch then 0
    else
      var k := FirstIndex(s[1..], ch);
      assert s[1..][..if k < 0 then 0 else k] == s[1..1 + if k < 0 then 0 else k];
      if k == -1 then -1 else k + 1
  }

  /** A character found in a prefix is found at the same place in the
      whole sequence. */
  lemma FirstIndexPrefix(s: seq<char>, t: seq<char>, ch: char)
    requires s <= t && ch in s
    ensures FirstIndex(t, ch) == FirstIndex(s, ch)
  {
    var i, j := FirstIndex(s, ch), FirstIndex(t, ch);
    assert t[i] == ch;
    assert j <= i;
    assert s[j] == t[j];
  }

  /** The next element past a prefix without `ch` is either the first `ch`
      or extends that prefix. */
  lemma FindStep(s: seq<char>, i: int, c: char, ch: char)
    requires 0 <= i < |s| && ch !in s[..i] && c == s[i]
    ensures c == ch ==> FirstIndex(s, ch) == i
    ensures c != ch ==> ch !in s[..i + 1]
  {
    assert s[..i + 1] == s[..i] + [c];
    assert forall k | 0 <= k < i :: s[k] != ch by {
      forall k | 0 <= k < i ensures s[k] != ch { assert s[..i][k] == s[k]; }
    }
    if c == ch {
      var j := FirstIndex(s, ch);
      assert forall k | 0 <= k < j :: s[k] != ch by {
        forall k | 0 <= k < j ensures s[k] != ch { assert s[..j][k] == s[k]; }
      }
      assert j <= i;
    }
  }

  /** The loop of `indexOf`: counts the characters the iterator delivers
      until one equals `ch`. */
  method FindPending(it: RopeIter, ch: char) returns (res: Result<int>)
    requires IterValid(it)
    modifies IterObj(it)
    ensures res.Ok? ==> res.value == FirstIndex(old(IterYield(it)), ch)
    ensures IterExact(it) || ch in old(IterYield(it)) ==> res.Ok?
  {
    CursorInRange(it);
    ghost var pending, start := IterYield(it), Cursor(it);
    var index := -1;
    while true
      invariant IterValid(it) && -1 <= index < |pending| && Cursor(it) == start + index + 1
      invariant ch !in pending[..index + 1]
      decreases |pending| - index
    {
      var more := IterHasNext(it);
      if !more {
        break;
      }
      var c := IterNext(it);
      if c.Err? {
        assert pending[..index + 1] == pending;
        return Err(c.error);
      }
      assert c.value == pending[index + 1];
      FindStep(pending, index + 1, c.value, ch);
      index := index + 1;
      if c.value == ch {
        return Ok(index);
      }
    }
    assert pending[..index + 1] == pending;
    return Ok(-1);
  }

  /** `indexOf(ch)`: the position of the first `ch` the iterator delivers,
      or -1. An empty rope has no iterator and fails. */
  method IndexOf(r: Rope, ch: char) returns (res: Result<int>)
    requires WellFormed(r)
    ensures Len(r) == 0 ==> res == Err(IndexOutOfBounds)
    ensures Len(r) > 0 && res.Ok? ==> res.value == FirstIndex(IterText(r, 0), ch)
    ensures Len(r) > 0 && NonEmptyUnits(r) ==> res.Ok?
    ensures Len(r) > 0 && ch in Str(r) ==> res == Ok(FirstIndex(Str(r), ch))
    ensures Len(r) > 0 && NonEmptyUnits(r) && ExactIteration(r) ==> res == Ok(FirstIndex(Str(r), ch))
  {
    var started := IteratorFromStart(r);
    if started.Err? {
      return Err(started.error);
    }
    assert Len(r) == |Str(r)|;
    IterTextCovers(r, 0);
    res := FindPending(started.value, ch);
    if ch in Str(r) {
      FirstIndexPrefix(Str(r), IterText(r, 0), ch);
    }
  }

  /** On a substring rope the search runs on past its end: a character
      that only occurs after the window is reported at an index beyond the
      length. */
  lemma SubstringIndexOfOverrun()
    ensures var r := Sub("abcdefghij", 0, 8);
      WellFormed(r) && 'j' !in Str(r) && FirstIndex(IterText(r, 0), 'j') == 9 > Len(r)
  {
    var r := Sub("abcdefghij", 0, 8);
    assert Str(r) == "abcdefgh";
    assert IterText(r, 0) == "abcdefghij";
    assert "abcdefghij"[..9] == "abcdefghi";
    FindStep("abcdefghij", 9, 'j', 'j');
  }

  /** `indexOf(ch)` over the bounded iterator: the first position of `ch`
      in the rope's text, or -1, and never an index at or past the
      length. */
  method IndexOfBounded(r: Rope, ch: char) returns (res: Result<int>)
    requires WellFormed(r)
    ensures Len(r) == 0 ==> res == Err(IndexOutOfBounds)
    ensures res.Ok? ==> res.value == FirstIndex(Str(r), ch) && res.value < Len(r)
    ensures Len(r) > 0 && (NonEmptyUnits(r) || ch in Str(r)) ==> res.Ok?
  {
    var started := IteratorBounded(r, 0);
    if started.Err? {
      return Err(started.error);
    }
    assert Str(r)[0..] == Str(r);
    res := FindPending(started.value, ch);
  }

  /** The loop of `equals`: reads both iterators in step until the first
      one has no more, answering false at the first difference. */
  method SamePending(i1: RopeIter, i2: RopeIter) returns (res: Result<bool>)
    requires IterValid(i1) && IterValid(i2) && IterObj(i1) != IterObj(i2)
    modifies IterObj(i1), IterObj(i2)
    ensures res == Ok(true) ==> IsPrefix(old(IterYield(i1)), old(IterYield(i2)))
    ensures IterExact(i1) && |old(IterYield(i1))| <= |old(IterYield(i2))| ==>
      res == Ok(IsPrefix(old(IterYield(i1)), old(IterYield(i2))))
  {
    CursorInRange(i1);
    CursorInRange(i2);
    ghost var t1, t2 := IterYield(i1), IterYield(i2);
    ghost var start1, start2 := Cursor(i1), Cursor(i2);
    ghost var w1, w2 := Walked(i1), Walked(i2);
    assert t1 == (if start1 <= |w1| then w1[start1..] else []);
    assert t2 == (if start2 <= |w2| then w2[start2..] else []);
    ghost var k := 0;
    while true
      invariant IterValid(i1) && IterValid(i2)
      invariant 0 <= k <= |t1| && k <= |t2| && t1[..k] == t2[..k]
      invariant Cursor(i1) == start1 + k && Cursor(i2) == start2 + k
      decreases |t1| - k
    {
      var stop, answer := CompareRound(i1, i2, w1, w2, start1, start2, t1, t2, k);
      if stop {
        if answer == Ok(true) {
          assert t1 == t2[..k];
          assert IsPrefix(t1, t2);
        }
        if IterExact(i1) && |t1| <= |t2| {
          assert answer.Ok?;
          assert answer.value == IsPrefix(t1, t2);
        }
        return answer;
      }
      k := k + 1;
    }
  }

  /** One round of the loop of `equals`: the `hasNext` test, then both
      `next` calls and their comparison. Either the round stops the loop
      with its answer, or the two texts agree on one more character. */
  method CompareRound(i1: RopeIter, i2: RopeIter, ghost w1: seq<char>, ghost w2: seq<char>,
                      ghost start1: int, ghost start2: int, ghost t1: seq<char>, ghost t2: seq<char>, ghost k: int)
    returns (stop: bool, answer: Result<bool>)
    requires IterValid(i1) && IterValid(i2) && IterObj(i1) != IterObj(i2)
    requires w1 == Walked(i1) && w2 == Walked(i2) && 0 <= start1 && 0 <= start2
    requires t1 == (if start1 <= |w1| then w1[start1..] else [])
    requires t2 == (if start2 <= |w2| then w2[start2..] else [])
    requires 0 <= k <= |t1| && k <= |t2| && t1[..k] == t2[..k]
    requires Cursor(i1) == start1 + k && Cursor(i2) == start2 + k
    modifies IterObj(i1), IterObj(i2)
    ensures IterValid(i1) && IterValid(i2)
    ensures !stop ==> k < |t1| && k < |t2| && t1[..k + 1] == t2[..k + 1]
    ensures !stop ==> Cursor(i1) == start1 + k + 1 && Cursor(i2) == start2 + k + 1
    ensures stop && answer == Ok(true) ==> k == |t1|
    ensures stop && answer == Ok(false) ==> !IsPrefix(t1, t2)
    ensures stop && IterExact(i1) && |t1| <= |t2| ==> answer.Ok?
  {
    var more := IterHasNext(i1);
    PendingIndex(w1, start1, k, t1);
    PendingIndex(w2, start2, k, t2);
    if !more {
      return true, Ok(true);
    }
    var pair := NextPair(i1, i2, start1 + k, start2 + k);
    if pair.Err? {
      return true, Err(pair.error);
    }
    PairStep(w1, w2, start1, start2, k, t1, t2, pair.value.0, pair.value.1);
    if pair.value.0 != pair.value.1 {
      return true, Ok(false);
    }
    return false, Ok(true);
  }

  /** One round of that loop, on the texts the two iterators walk from
      `start1` and `start2`. */
  lemma PairStep(w1: seq<char>, w2: seq<char>, start1: int, start2: int, k: int,
                 t1: seq<char>, t2: seq<char>, a: char, b: char)
    requires 0 <= start1 && 0 <= start2 && 0 <= k
    requires t1 == (if start1 <= |w1| then w1[start1..] else [])
    requires t2 == (if start2 <= |w2| then w2[start2..] else [])
    requires start1 + k < |w1| && start2 + k < |w2| && a == w1[start1 + k] && b == w2[start2 + k]
    requires t1[..k] == t2[..k]
    ensures k < |t1| && k < |t2|
    ensures a == b ==> t1[..k + 1] == t2[..k + 1]
    ensures a != b ==> !IsPrefix(t1, t2)
  {
    PendingIndex(w1, start1, k, t1);
    PendingIndex(w2, start2, k, t2);
    CommonPrefixStep(t1, t2, k, a, b);
  }

  /** `i1.next()` then `i2.next()`: one round of the loop of `equals`. */
  method NextPair(i1: RopeIter, i2: RopeIter, ghost p1: int, ghost p2: int) returns (res: Result<(char, char)>)
    requires IterValid(i1) && IterValid(i2) && IterObj(i1) != IterObj(i2)
    requires Cursor(i1) == p1 && Cursor(i2) == p2
    modifies IterObj(i1), IterObj(i2)
    ensures IterValid(i1) && IterValid(i2)
    ensures res.Ok? <==> p1 < |Walked(i1)| && p2 < |Walked(i2)|
    ensures res.Ok? ==> res.value.0 == Walked(i1)[p1] && res.value.1 == Walked(i2)[p2]
    ensures res.Ok? ==> Cursor(i1) == p1 + 1 && Cursor(i2) == p2 + 1
  {
    var a := IterNext(i1);
    if a.Err? {
      return Err(a.error);
    }
    var b := IterNext(i2);
    if b.Err? {
      return Err(b.error);
    }
    return Ok((a.value, b.value));
  }

  /** The `k`-th character an iterator still delivers is the one at
      `start + k` of the text it walks, when there is one. */
  lemma PendingIndex(w: seq<char>, start: int, k: int, pending: seq<char>)
    requires 0 <= start && 0 <= k
    requires pending == if start <= |w| then w[start..] else []
    ensures k < |pending| <==> start + k < |w|
    ensures k < |pending| ==> pending[k] == w[start + k]
  {
  }

  /** A common prefix grows by one while the next elements agree; a first
      disagreement rules out one sequence being a prefix of the other. */
  lemma CommonPrefixStep(t1: seq<char>, t2: seq<char>, k: int, a: char, b: char)
    requires 0 <= k < |t1| && k < |t2| && t1[..k] == t2[..k] && a == t1[k] && b == t2[k]
    ensures a == b ==> t1[..k + 1] == t2[..k + 1]
    ensures a != b ==> !IsPrefix(t1, t2)
  {
    assert t1[..k + 1] == t1[..k] + [a] && t2[..k + 1] == t2[..k] + [b];
  }

  /** `equals(other)` for a rope argument: different hashes or lengths
      answer false at once; otherwise the two iterators are compared
      character by character until the receiver's runs out. */
  method Equals(r: Rope, other: Rope) returns (res: Result<bool>)
    requires WellFormed(r) && WellFormed(other)
    ensures res == Ok(true) ==> Str(r) == Str(other)
    ensures Len(r) == 0 && Len(other) == 0 ==> res == Err(IndexOutOfBounds)
    ensures Len(r) > 0 && NonEmptyUnits(r) && ExactIteration(r) && NonEmptyUnits(other) && ExactIteration(other) ==>
      res == Ok(Str(r) == Str(other))
  {
    var otherHash := HashCode(other);
    if otherHash.Err? {
      return Err(otherHash.error);
    }
    var thisHash := HashCode(r);
    if thisHash.Err? {
      return Err(thisHash.error);
    }
    EqualTextsEqualHashes(r, other);
    if otherHash.value != thisHash.value || Len(other) != Len(r) {
      return Ok(false);
    }
    res := EqualsByIteration(r, other);
  }

  /** The second half of `equals`, for ropes of one length: the two
      iterators from the first character compared in step. */
  method EqualsByIteration(r: Rope, other: Rope) returns (res: Result<bool>)
    requires WellFormed(r) && WellFormed(other) && Len(r) == Len(other)
    ensures res == Ok(true) ==> Str(r) == Str(other)
    ensures Len(r) == 0 ==> res == Err(IndexOutOfBounds)
    ensures Len(r) > 0 && NonEmptyUnits(r) && ExactIteration(r) && ExactIteration(other) ==>
      res == Ok(Str(r) == Str(other))
  {
    var s1 := IteratorFromStart(r);
    if s1.Err? {
      return Err(s1.error);
    }
    var s2 := IteratorFromStart(other);
    SameLengthIteration(r, other);
    res := SamePending(s1.value, s2.value);
  }

  /** Ropes that iterate exactly over equal texts have equal hashes, and
      ropes of different lengths have different texts. */
  lemma EqualTextsEqualHashes(r: Rope, other: Rope)
    requires WellFormed(r) && WellFormed(other)
    ensures ExactIteration(r) && ExactIteration(other) && Str(r) == Str(other) ==>
      IterationHash(r) == IterationHash(other)
    ensures Len(r) != Len(other) ==> Str(r) != Str(other)
  {
    if ExactIteration(r) && ExactIteration(other) {
      IterationHashExact(r);
      IterationHashExact(other);
    }
  }

  /** For two non-empty ropes of one length, the first iteration being a
      prefix of the second means equal texts; with exact iteration both
      deliver their texts. */
  lemma SameLengthIteration(r: Rope, other: Rope)
    requires WellFormed(r) && WellFormed(other) && 0 < Len(r) == Len(other)
    ensures IsPrefix(IterText(r, 0), IterText(other, 0)) ==> Str(r) == Str(other)
    ensures ExactIteration(r) && ExactIteration(other) ==>
      IterText(r, 0) == Str(r) && IterText(other, 0) == Str(other)
  {
    IterTextCovers(r, 0);
    IterTextCovers(other, 0);
    ghost var t1, t2 := IterText(r, 0), IterText(other, 0);
    assert Str(r) == t1[..Len(r)] && Str(other) == t2[..Len(r)];
  }

  ghost predicate IsPrefix(a: seq<char>, b: seq<char>) {
    |a| <= |b| && a == b[..|a|]
  }

  /** A prefix one longer is the prefix and the next element. */
  lemma PrefixStep<T>(a: seq<T>, j: int)
    requires 0 <= j < |a|
    ensures a[..j + 1] == a[..j] + [a[j]]
  {
  }

  /** Java's `String.compareTo`: the difference of the first differing
      characters, or else the difference of the lengths. */
  function Compare(a: seq<char>, b: seq<char>): (c: int) {
    if a == [] || b == [] then |a| - |b|
    else if a[0] != b[0] then a[0] as int - b[0] as int
    else Compare(a[1..], b[1..])
  }

  /** Swapping the operands negates the comparison. */
  lemma {:induction false} CompareAntisymmetric(a: seq<char>, b: seq<char>)
    ensures Compare(a, b) == -Compare(b, a)
  {
    if a != [] && b != [] && a[0] == b[0] {
      CompareAntisymmetric(a[1..], b[1..]);
    }
  }

  /** The comparison is zero exactly for equal texts. */
  lemma {:induction false} CompareZero(a: seq<char>, b: seq<char>)
    ensures Compare(a, b) == 0 <==> a == b
  {
    if a != [] && b != [] && a[0] == b[0] {
      CompareZero(a[1..], b[1..]);
      assert a == [a[0]] + a[1..] && b == [b[0]] + b[1..];
    }
  }

  /** A common prefix does not change the comparison. */
  lemma {:induction false} CompareSkip(a: seq<char>, b: seq<char>, j: int)
    requires 0 <= j <= |a| && j <= |b| && a[..j] == b[..j]
    ensures Compare(a, b) == Compare(a[j..], b[j..])
    decreases j
  {
    if j > 0 {
      assert a[0] == a[..j][0] && b[0] == b[..j][0];
      assert a[1..][..j - 1] == a[1..j] && b[1..][..j - 1] == b[1..j];
      CompareSkip(a[1..], b[1..], j - 1);
      assert a[1..][j - 1..] == a[j..] && b[1..][j - 1..] == b[j..];
    }
  }

  /** Comparing past a common prefix of `n` characters is comparing by
      length; a difference within the first `n` decides alone. */
  lemma {:induction false} CompareWithin(a: seq<char>, b: seq<char>, n: int)
    requires 0 <= n <= |a| && n <= |b| && (n == |a| || n == |b|)
    ensures a[..n] == b[..n] ==> Compare(a, b) == |a| - |b|
    ensures a[..n] != b[..n] ==> Compare(a, b) == Compare(a[..n], b[..n])
    decreases n
  {
    if n > 0 && a[0] != b[0] {
      assert a[..n][0] == a[0] && b[..n][0] == b[0];
    } else if n > 0 {
      CompareWithin(a[1..], b[1..], n - 1);
      assert a[1..][..n - 1] == a[..n][1..] && b[1..][..n - 1] == b[..n][1..];
      assert a[..n] == [a[0]] + a[..n][1..] && b[..n] == [b[0]] + b[..n][1..];
    }
  }

  /** Past a common prefix of `j` characters, equal next characters extend
      it and different ones decide the comparison of the first `till`. */
  lemma CompareStep(a: seq<char>, b: seq<char>, till: int, j: int, x: char)
    requires 0 <= j < till <= |a| && till <= |b| && a[..j] == b[..j] && x == a[j]
    ensures x == b[j] ==> a[..j + 1] == b[..j + 1]
    ensures x != b[j] ==> a[..till] != b[..till] && Compare(a[..till], b[..till]) == x as int - b[j] as int
  {
    PrefixStep(a, j);
    PrefixStep(b, j);
    if x != b[j] {
      ghost var a', b' := a[..till], b[..till];
      assert a'[..j] == b'[..j] && a'[j] != b'[j];
      CompareSkip(a', b', j);
      assert a'[j..][0] == a'[j] && b'[j..][0] == b'[j];
    }
  }

  /** The loop of `compareTo`: the first difference among the first
      `till` pending characters and those of `s`, if any. */
  method ComparePending(it: RopeIter, s: seq<char>, till: int) returns (diff: Option<int>)
    requires IterValid(it) && 0 <= till <= |s| && till <= |IterYield(it)|
    modifies IterObj(it)
    ensures diff.None? <==> old(IterYield(it))[..till] == s[..till]
    ensures diff.Some? ==> diff.value == Compare(old(IterYield(it))[..till], s[..till])
  {
    ghost var pending, start := IterYield(it), Cursor(it);
    for j := 0 to till
      invariant IterValid(it) && Cursor(it) == start + j
      invariant pending[..j] == s[..j]
    {
      var x := IterNext(it);
      CompareStep(pending, s, till, j, x.value);
      if x.value != s[j] {
        return Some(x.value as int - s[j] as int);
      }
    }
    return None;
  }

  /** `compareTo(sequence)`: compares up to the shorter length, then by
      length. The iterator is created first, so an empty receiver fails
      even when there is nothing to compare. */
  method CompareTo(r: Rope, s: seq<char>) returns (res: Result<int>)
    requires WellFormed(r)
    ensures Len(r) == 0 ==> res == Err(IndexOutOfBounds)
    ensures Len(r) > 0 ==> res == Ok(Compare(Str(r), s))
  {
    var compareTill := if |s| < Len(r) then |s| else Len(r);
    var started := IteratorFromStart(r);
    if started.Err? {
      return Err(started.error);
    }
    assert Len(r) == |Str(r)|;
    IterTextCovers(r, 0);
    ghost var text, full := Str(r), IterText(r, 0);
    assert text[..compareTill] == full[..compareTill];
    var diff := ComparePending(started.value, s, compareTill);
    CompareWithin(text, s, compareTill);
    if diff.Some? {
      return Ok(diff.value);
    }
    return Ok(Len(r) - |s|);
  }
}

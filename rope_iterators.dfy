/** `iterator(start)` of the three node kinds, one interface over the two
    iterator classes, and the char-sequence adapter that regular-expression
    matching reads a concatenation through. */
module RopeIterators {
  import opened Ropes
  import opened FlatRopes
  import opened ConcatenationRopes
  import opened ConcatIterators
  import opened RebalanceProofs

  /** The iterator `iterator(start)` hands out: a flat rope's cursor (also
      used for substring ropes) or a concatenation's depth-first walk. */
  datatype RopeIter = FlatIt(flat: FlatIterator) | ConcatIt(concat: ConcatIterator)

  ghost function IterObj(i: RopeIter): object {
    if i.FlatIt? then i.flat else i.concat
  }

  ghost predicate IterValid(i: RopeIter)
    reads IterObj(i)
  {
    || (i.FlatIt? && i.flat.Valid())
    || (i.ConcatIt? && i.concat.Valid() && i.concat.skip == 0)
  }

  /** The text the iterator walks: the flat sequence under the cursor, or
      the text of the rope a concatenation iterator walks. */
  ghost function Walked(i: RopeIter): seq<char> {
    match i
    case FlatIt(f) => f.s
    case ConcatIt(c) => if WellFormed(c.root) then Str(c.root) else []
  }

  /** Index in `Walked(i)` of the character `next` delivers. */
  ghost function Cursor(i: RopeIter): int
    reads IterObj(i)
  {
    match i
    case FlatIt(f) => f.current
    case ConcatIt(c) => c.Position() + 1
  }

  /** The characters the iterator has still to deliver. */
  ghost function IterYield(i: RopeIter): seq<char>
    reads IterObj(i)
  {
    if 0 <= Cursor(i) <= |Walked(i)| then Walked(i)[Cursor(i)..] else []
  }

  /** The cursor of a valid iterator is never before the text. */
  lemma CursorInRange(i: RopeIter)
    requires IterValid(i)
    ensures 0 <= Cursor(i)
    ensures i.ConcatIt? ==> Cursor(i) <= |Walked(i)|
  {
    if i.ConcatIt? {
      var c := i.concat;
      assert Str(c.root) == c.done + Str(c.currentRope) + StackStr(c.toTraverse);
    }
  }

  /** `hasNext` answers exactly whether characters remain: always for a
      flat cursor, and for a walk over units that are all non-empty. */
  ghost predicate IterExact(i: RopeIter) {
    i.FlatIt? || NonEmptyUnits(i.concat.root)
  }

  /** The text `iterator(start)` delivers. A concatenation whose start lies
      in its right child delegates to that child; a substring rope hands
      out its base's cursor, which runs on to the end of the base. */
  ghost function IterText(r: Rope, start: int): seq<char>
    requires WellFormed(r) && 0 <= start < Len(r)
    decreases r
  {
    match r
    case Flat(s, _) => s[start..]
    case Sub(b, o, _) => b[o + start..]
    case Concat(left, right, _, _) =>
      if start >= Len(left) then IterText(right, start - Len(left)) else Str(r)[start..]
  }

  /** The rope whose own iterator `iterator(start)` ends up using. */
  function IterUnit(r: Rope, start: int): Rope
    requires WellFormed(r) && 0 <= start < Len(r)
    decreases r
  {
    if r.Concat? && start >= Len(r.left) then IterUnit(r.right, start - Len(r.left)) else r
  }

  /** Iteration delivers at least the rope's text from `start` on, and
      exactly that text unless it ends in a substring rope's cursor. */
  lemma {:induction false} IterTextCovers(r: Rope, start: int)
    requires WellFormed(r) && 0 <= start < Len(r)
    ensures Str(r)[start..] <= IterText(r, start)
    ensures !IterUnit(r, start).Sub? ==> IterText(r, start) == Str(r)[start..]
    decreases r
  {
    match r
    case Flat(_, _) =>
    case Sub(b, o, n) =>
      assert Str(r)[start..] == b[o + start..o + n];
    case Concat(left, right, _, _) =>
      if start >= Len(left) {
        IterTextCovers(right, start - Len(left));
        assert Str(r)[start..] == Str(right)[start - Len(left)..];
      }
  }

  /** A substring of the first eight characters of a ten-character flat
      rope iterates over all ten. */
  lemma SubstringIterationOverruns()
    ensures var r := Sub("abcdefghij", 0, 8);
      WellFormed(r) && Str(r) == "abcdefgh" && IterText(r, 0) == "abcdefghij"
  {
    var r := Sub("abcdefghij", 0, 8);
    assert Str(r) == "abcdefghij"[0..8];
  }

  /** `FlatRope.iterator(start)`: the range check, then the cursor. */
  method FlatIter(s: seq<char>, start: int) returns (res: Result<RopeIter>)
    ensures res.Ok? <==> 0 <= start < |s|
    ensures res.Err? ==> res.error == IndexOutOfBounds
    ensures res.Ok? ==> res.value.FlatIt? && fresh(IterObj(res.value))
    ensures res.Ok? ==> IterValid(res.value) && Walked(res.value) == s && Cursor(res.value) == start
  {
    if start < 0 || start >= |s| {
      return Err(IndexOutOfBounds);
    }
    var f := new FlatIterator(s, start);
    return Ok(FlatIt(f));
  }

  /** `iterator(start)` of any rope. */
  method Iterator(r: Rope, start: int) returns (res: Result<RopeIter>)
    requires WellFormed(r)
    ensures res.Ok? <==> 0 <= start < Len(r)
    ensures res.Err? ==> res.error == IndexOutOfBounds
    ensures res.Ok? ==> fresh(IterObj(res.value)) && IterValid(res.value)
    ensures res.Ok? ==> IterYield(res.value) == IterText(r, start)
    ensures res.Ok? && NonEmptyUnits(r) ==> IterExact(res.value)
    ensures res.Ok? && r.Concat? && start < Len(r.left) ==>
      res.value.ConcatIt? && res.value.concat.root == r && res.value.concat.Synced()
    decreases r
  {
    if start < 0 || start >= Len(r) {
      return Err(IndexOutOfBounds);
    }
    match r
    case Flat(s, _) =>
      res := FlatIter(s, start);
    case Sub(b, o, _) =>
      res := FlatIter(b, o + start);
    case Concat(left, right, _, _) =>
      if start >= Len(left) {
        res := Iterator(right, start - Len(left));
      } else {
        var it := NewConcatIterator(r, start);
        return Ok(ConcatIt(it.value));
      }
  }

  /** `iterator(start)` with a substring rope's cursor bounded by the end
      of its window: the cursor runs over the base sequence cut at
      `off + len`. Every iterator it hands out delivers exactly the rope's
      text from `start` on. */
  method IteratorBounded(r: Rope, start: int) returns (res: Result<RopeIter>)
    requires WellFormed(r)
    ensures res.Ok? <==> 0 <= start < Len(r)
    ensures res.Err? ==> res.error == IndexOutOfBounds
    ensures res.Ok? ==> fresh(IterObj(res.value)) && IterValid(res.value)
    ensures res.Ok? ==> IterYield(res.value) == Str(r)[start..]
    ensures res.Ok? && NonEmptyUnits(r) ==> IterExact(res.value)
    decreases r
  {
    if start < 0 || start >= Len(r) {
      return Err(IndexOutOfBounds);
    }
    match r
    case Flat(s, _) =>
      res := FlatIter(s, start);
      assert IterYield(res.value) == s[start..];
    case Sub(b, o, n) =>
      var window := b[..o + n];
      res := FlatIter(window, o + start);
      assert IterYield(res.value) == window[o + start..];
      assert window[o + start..] == b[o + start..o + n];
    case Concat(left, right, _, _) =>
      if start >= Len(left) {
        res := IteratorBounded(right, start - Len(left));
        assert Str(r)[start..] == Str(right)[start - Len(left)..];
      } else {
        var it := NewConcatIterator(r, start);
        res := Ok(ConcatIt(it.value));
        assert Cursor(res.value) == start;
      }
  }

  /** `iterator()`: the iterator from the first character, which an empty
      rope does not have. */
  method IteratorFromStart(r: Rope) returns (res: Result<RopeIter>)
    requires WellFormed(r)
    ensures res.Ok? <==> Len(r) > 0
    ensures res.Err? ==> res.error == IndexOutOfBounds
    ensures res.Ok? ==> fresh(IterObj(res.value)) && IterValid(res.value)
    ensures res.Ok? ==> IterYield(res.value) == IterText(r, 0) && Str(r) <= IterText(r, 0)
    ensures res.Ok? && NonEmptyUnits(r) ==> IterExact(res.value)
  {
    res := Iterator(r, 0);
    if res.Ok? {
      IterTextCovers(r, 0);
    }
  }

  /** `hasNext()`: true whenever characters remain, and exactly then when
      the iterator is exact. */
  method IterHasNext(i: RopeIter) returns (b: bool)
    requires IterValid(i)
    ensures Cursor(i) < |Walked(i)| ==> b
    ensures IterExact(i) ==> (b <==> Cursor(i) < |Walked(i)|)
  {
    match i
    case FlatIt(f) =>
      b := f.HasNext();
    case ConcatIt(c) =>
      b := c.HasNext();
  }

  /** `next()`: the first pending character, or an error when none is
      left. */
  method IterNext(i: RopeIter) returns (res: Result<char>)
    requires IterValid(i)
    modifies IterObj(i)
    ensures IterValid(i)
    ensures old(Cursor(i)) < |Walked(i)| ==> res == Ok(Walked(i)[old(Cursor(i))]) && Cursor(i) == old(Cursor(i)) + 1
    ensures old(Cursor(i)) >= |Walked(i)| ==> res.Err?
  {
    match i
    case FlatIt(f) =>
      res := f.Next();
    case ConcatIt(c) =>
      res := c.Next();
  }

  /** The anonymous `CharSequence` of `getRegexpCharSeq(rope)`: reads
      through a concatenation iterator, skipping forward or stepping back
      within the current unit, and falls back on `charAt` otherwise. */
  class RegexCharSeq {
    const rope: Rope
    const iter: ConcatIterator

    /** Between calls the iterator walks `rope`, and its absolute counter
        is never behind the position it has actually reached. */
    ghost predicate Valid()
      reads this, iter
    {
      && WellFormed(rope) && rope.Concat?
      && iter.Valid() && iter.root == rope
      && iter.currentAbsolutePos >= iter.Position()
    }

    /** The counter is exact and no skip is pending: the state after the
        constructor and after every successful `charAt`. */
    ghost predicate Clean()
      reads this, iter
    {
      iter.Synced() && iter.skip == 0
    }

    /** How far the counter has run ahead of the position reached; a failed
        move past the end leaves it positive. */
    ghost function Drift(): int
      reads this, iter
    {
      iter.currentAbsolutePos - iter.Position()
    }

    /** The source casts `rope.iterator(0)` to the concatenation iterator,
        which it is when the left child is not empty. */
    constructor (rope: Rope)
      requires WellFormed(rope) && rope.Concat? && Len(rope.left) > 0
      ensures this.rope == rope && Valid() && Clean() && fresh(iter)
      ensures iter.currentAbsolutePos == -1
    {
      this.rope := rope;
      assert Len(rope.right) == |Str(rope.right)|;
      var it := Iterator(rope, 0);
      iter := it.value.concat;
    }

    /** `charAt(index)` as written. An index beyond the counter skips
        forward and reads; an index at or behind it moves back within the
        current unit and reads, or else asks the rope. Every read lands
        `Drift()` characters early, and a backward read also passes over a
        skip left behind by a failed read. From a clean state this is the
        character at `index`; a read past the end fails with
        IllegalArgument and leaves the state unclean. */
    method CharAt(index: int) returns (res: Result<char>)
      requires Valid()
      modifies iter
      ensures Valid()
      ensures index > old(iter.currentAbsolutePos) ==>
        && iter.currentAbsolutePos == index
        && (index - old(Drift()) < Len(rope) ==>
              && res == Ok(Str(rope)[index - old(Drift())])
              && iter.Position() == index - old(Drift()) && 0 <= iter.currentRopePos && iter.skip == 0)
        && (index - old(Drift()) >= Len(rope) ==>
              res == Err(IllegalArgument) && iter.skip == index - old(iter.currentAbsolutePos) - 1)
      ensures index > old(iter.currentAbsolutePos) && index - old(Drift()) >= Len(rope) && old(iter.toTraverse) == [] ==>
        && iter.Position() == old(iter.Position()) && iter.currentRopePos == old(iter.currentRopePos)
        && iter.toTraverse == []
      ensures index > old(iter.currentAbsolutePos) && index - old(Drift()) >= Len(rope) && old(iter.toTraverse) != [] ==>
        && iter.currentRopePos == -1 && iter.toTraverse == []
        && iter.Position() == Len(rope) - Len(iter.currentRope) - 1
      ensures index <= old(iter.currentAbsolutePos) && old(iter.currentAbsolutePos) - index <= old(iter.currentRopePos) ==>
        && (index - old(Drift()) + old(iter.skip) < Len(rope) ==>
              && res == Ok(Str(rope)[index - old(Drift()) + old(iter.skip)])
              && iter.skip == 0 && Drift() == old(Drift()))
        && (index - old(Drift()) + old(iter.skip) >= Len(rope) ==> res == Err(IllegalArgument))
      ensures index <= old(iter.currentAbsolutePos) && old(iter.currentAbsolutePos) - index > old(iter.currentRopePos) ==>
        && res == ConcatenationRopes.CharAt(rope, index)
        && iter.currentAbsolutePos == old(iter.currentAbsolutePos) && iter.Position() == old(iter.Position())
        && iter.skip == old(iter.skip)
      ensures index < 0 ==> res == Err(IndexOutOfBounds)
      ensures old(Clean()) && 0 <= index < Len(rope) ==> res == Ok(Str(rope)[index]) && Clean()
      ensures old(Clean()) && index < 0 ==> Clean()
      ensures old(Clean()) && index >= Len(rope) ==> res == Err(IllegalArgument)
    {
      var pos := iter.GetPos();
      if index > pos {
        res := ReadAhead(index, pos);
      } else {
        var toMoveBack := pos - index + 1;
        var can := iter.CanMoveBackwards(toMoveBack);
        if can {
          res := ReadBack(index, pos);
        } else {
          res := ConcatenationRopes.CharAt(rope, index);
        }
      }
    }

    /** The forward branch of `charAt`: skip up to `index` and read. */
    method ReadAhead(index: int, pos: int) returns (res: Result<char>)
      requires Valid() && pos == iter.currentAbsolutePos && index > pos
      modifies iter
      ensures Valid() && iter.currentAbsolutePos == index
      ensures index - old(Drift()) < Len(rope) ==>
        && res == Ok(Str(rope)[index - old(Drift())])
        && iter.Position() == index - old(Drift()) && 0 <= iter.currentRopePos && iter.skip == 0
      ensures index - old(Drift()) >= Len(rope) ==> res == Err(IllegalArgument) && iter.skip == index - pos - 1
      ensures index - old(Drift()) >= Len(rope) && old(iter.toTraverse) == [] ==>
        && iter.Position() == old(iter.Position()) && iter.currentRopePos == old(iter.currentRopePos)
        && iter.toTraverse == []
      ensures index - old(Drift()) >= Len(rope) && old(iter.toTraverse) != [] ==>
        && iter.currentRopePos == -1 && iter.toTraverse == []
        && iter.Position() == Len(rope) - Len(iter.currentRope) - 1
    {
      iter.PositionBound();
      iter.Skip(index - pos - 1);
      res := iter.Next();
      iter.PositionBound();
    }

    /** The backward branch of `charAt`: move back within the current unit
        so that the next read lands on `index`, then read. */
    method ReadBack(index: int, pos: int) returns (res: Result<char>)
      requires Valid() && pos == iter.currentAbsolutePos && index <= pos
      requires pos - index <= iter.currentRopePos
      modifies iter
      ensures Valid()
      ensures index - old(Drift()) + old(iter.skip) < Len(rope) ==>
        && res == Ok(Str(rope)[index - old(Drift()) + old(iter.skip)])
        && iter.skip == 0 && Drift() == old(Drift())
      ensures index - old(Drift()) + old(iter.skip) >= Len(rope) ==> res == Err(IllegalArgument)
    {
      ghost var drift, skip := Drift(), iter.skip;
      var moved := iter.MoveBackwards(pos - index + 1);
      assert moved.Pass? && iter.skip == skip;
      assert iter.Position() == index - drift - 1 && Drift() == drift;
      res := iter.Next();
      iter.PositionBound();
    }

    /** The evidently intended `charAt`: an index outside the rope fails
        with IndexOutOfBounds before the iterator is touched, so the
        adapter stays clean and every call, in any order, reads the right
        character. */
    method CharAtChecked(index: int) returns (res: Result<char>)
      requires Valid() && Clean()
      modifies iter
      ensures Valid() && Clean()
      ensures 0 <= index < Len(rope) ==> res == Ok(Str(rope)[index])
      ensures !(0 <= index < Len(rope)) ==> res == Err(IndexOutOfBounds)
    {
      if index < 0 || index >= Len(rope) {
        return Err(IndexOutOfBounds);
      }
      res := CharAt(index);
    }

    method Length() returns (n: int)
      requires Valid()
      ensures n == Len(rope) == |Str(rope)|
    {
      n := Len(rope);
    }

    /** `subSequence(start, end)` is the rope's own; on a range inside a
        rope of non-empty units it is that slice of the text. */
    method SubSequence(start: int, end: int) returns (res: Result<Rope>)
      requires Valid()
      ensures res == ConcatenationRopes.SubSequence(rope, start, end)
      ensures Good(rope) && Len(rope) <= MAX_LENGTH && 0 <= start <= end <= Len(rope) ==>
        res.Ok? && WellFormed(res.value) && Str(res.value) == Str(rope)[start..end]
    {
      res := ConcatenationRopes.SubSequence(rope, start, end);
      if Good(rope) && Len(rope) <= MAX_LENGTH && 0 <= start <= end <= Len(rope) {
        SubSequenceGood(rope, start, end);
      }
    }
  }

  /** Once the last character of a rope without empty units has been
      read, a read at its length fails but leaves the counter one ahead, so
      the same read repeated returns the last character. */
  method ReadPastEndTwice(a: RegexCharSeq) returns (second: Result<char>, third: Result<char>)
    requires a.Valid() && a.Clean() && NonEmptyUnits(a.rope)
    requires a.iter.Position() == Len(a.rope) - 1 && 0 <= a.iter.currentRopePos
    modifies a.iter
    ensures second == Err(IllegalArgument) && third == Ok(Str(a.rope)[Len(a.rope) - 1])
  {
    a.iter.AtLastChar();
    second := a.CharAt(Len(a.rope));
    assert a.iter.Position() == Len(a.rope) - 1 && a.iter.currentAbsolutePos == Len(a.rope);
    assert a.iter.skip == 0 && 0 <= a.iter.currentRopePos;
    third := a.CharAt(Len(a.rope));
  }

  /** Over any concatenation without empty units: reading the last
      character, then reading at the length twice, gives that character,
      a failure, and that character again. */
  method StaleCounterReadsPastEnd(r: Rope) returns (first: Result<char>, second: Result<char>, third: Result<char>)
    requires WellFormed(r) && r.Concat? && NonEmptyUnits(r) && Len(r) > 0
    ensures first == Ok(Str(r)[Len(r) - 1]) && second == Err(IllegalArgument) && third == first
  {
    NonEmptyUnitsLength(r.left);
    var a := new RegexCharSeq(r);
    first := a.CharAt(Len(r) - 1);
    second, third := ReadPastEndTwice(a);
  }

  /** Over "ab" + "cd": `charAt(3)` reads 'd', `charAt(4)` fails, and
      `charAt(4)` again reads 'd'. */
  method StaleCounterExample() returns (first: Result<char>, second: Result<char>, third: Result<char>)
    ensures first == Ok('d') && second == Err(IllegalArgument) && third == Ok('d')
  {
    var r := MkConcat(Flat("ab", true), Flat("cd", true));
    assert Str(r) == "abcd";
    first, second, third := StaleCounterReadsPastEnd(r);
  }
}

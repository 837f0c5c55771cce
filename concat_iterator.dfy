/** ConcatenationRopeIteratorImpl: a depth-first walk over the atomic units
    of a rope, driven by an explicit stack of subtrees still to visit. */
module ConcatIterators {
  import opened Ropes
  import opened ConcatenationRopes

  /** The first atomic unit of a depth-first walk: the leftmost leaf. */
  function Leftmost(r: Rope): (u: Rope)
    ensures IsAtomic(u)
    ensures r.Concat? ==> u == Leftmost(r.left)
    ensures IsAtomic(r) ==> u == r
  {
    if r.Concat? then Leftmost(r.left) else r
  }

  /** A character of the middle part of `a + b + c`. */
  lemma CharOfPart(a: seq<char>, b: seq<char>, c: seq<char>, i: int)
    requires 0 <= i < |b|
    ensures (a + b + c)[|a| + i] == b[i]
  {
  }

  class ConcatIterator {
    /** Subtrees still to visit, top of the stack first. */
    var toTraverse: seq<Rope>
    /** The atomic unit being read. */
    var currentRope: Rope
    /** Index in `currentRope` of the last character delivered; -1 before
        the first. */
    var currentRopePos: int
    /** Characters that the next `Next` passes over first. */
    var skip: int
    /** Absolute index of the last character delivered, as the iterator
        counts it. */
    var currentAbsolutePos: int

    /** The rope being walked. */
    ghost const root: Rope
    /** Text of the units that lie wholly behind `currentRope`. */
    ghost var done: seq<char>

    /** The walk invariant: the text behind, the current unit and the
        pending stack make up the whole rope, in that order. */
    ghost predicate Valid()
      reads this
    {
      && WellFormed(root)
      && WellFormed(currentRope) && IsAtomic(currentRope)
      && AllWellFormed(toTraverse)
      && -1 <= currentRopePos < Len(currentRope)
      && 0 <= skip
      && Str(root) == done + Str(currentRope) + StackStr(toTraverse)
      && (NonEmptyUnits(root) ==> NonEmptyUnits(currentRope) && AllNonEmptyUnits(toTraverse))
    }

    /** Index in the rope's text of the last character delivered. */
    ghost function Position(): int
      reads this
    {
      |done| + currentRopePos
    }

    /** The absolute-position counter agrees with the actual position. */
    ghost predicate Synced()
      reads this
    {
      currentAbsolutePos == Position()
    }

    /** Pushes the rope and runs `initialize`: the walk starts before the
        first character of the leftmost unit. */
    constructor (rope: Rope)
      requires WellFormed(rope)
      ensures Valid() && Synced() && root == rope && done == []
      ensures currentRope == Leftmost(rope) && currentRopePos == -1 && skip == 0
      ensures Position() == -1
    {
      toTraverse := [rope];
      // the source starts from no current rope; the walk below replaces it
      currentRope := Flat([], true);
      currentRopePos := -1;
      skip := 0;
      currentAbsolutePos := -1;
      root := rope;
      done := [];
      new;
      Initialize();
    }

    /** `initialize`: descends to the first atomic unit and resets both
        positions to -1. */
    method Initialize()
      requires toTraverse == [root] && WellFormed(root) && done == [] && 0 <= skip
      modifies this
      ensures Valid() && Synced() && done == [] && skip == old(skip)
      ensures currentRope == Leftmost(root) && currentRopePos == -1
    {
      assert StackStr([root][1..]) == [];
      assert StackStr(toTraverse) == Str(root);
      assert NonEmptyUnits(root) ==> AllNonEmptyUnits(toTraverse);
      PopUnit();
      currentRopePos := -1;
      currentAbsolutePos := -1;
    }

    /** The pop loop shared by `initialize` and `moveForward`: pops
        subtrees, replacing each concatenation by its children, until an
        atomic unit comes off the stack. */
    method PopUnit()
      requires toTraverse != [] && AllWellFormed(toTraverse)
      modifies this
      ensures WellFormed(currentRope) && IsAtomic(currentRope) && AllWellFormed(toTraverse)
      ensures currentRope == Leftmost(old(toTraverse[0]))
      ensures old(StackStr(toTraverse)) == Str(currentRope) + StackStr(toTraverse)
      ensures StackSize(toTraverse) < old(StackSize(toTraverse))
      ensures old(AllNonEmptyUnits(toTraverse)) ==> NonEmptyUnits(currentRope) && AllNonEmptyUnits(toTraverse)
      ensures currentRopePos == old(currentRopePos) && skip == old(skip)
      ensures currentAbsolutePos == old(currentAbsolutePos)
      ensures done == old(done)
    {
      var found := false;
      while !found && toTraverse != []
        invariant AllWellFormed(toTraverse)
        invariant currentRopePos == old(currentRopePos) && skip == old(skip)
        invariant currentAbsolutePos == old(currentAbsolutePos)
        invariant done == old(done)
        invariant StackSize(toTraverse) <= old(StackSize(toTraverse))
        invariant !found ==> toTraverse != [] && Leftmost(toTraverse[0]) == Leftmost(old(toTraverse[0]))
        invariant !found ==> StackStr(toTraverse) == old(StackStr(toTraverse))
        invariant !found && old(AllNonEmptyUnits(toTraverse)) ==> AllNonEmptyUnits(toTraverse)
        invariant found ==> WellFormed(currentRope) && IsAtomic(currentRope)
        invariant found ==> currentRope == Leftmost(old(toTraverse[0]))
        invariant found ==> old(StackStr(toTraverse)) == Str(currentRope) + StackStr(toTraverse)
        invariant found ==> StackSize(toTraverse) < old(StackSize(toTraverse))
        invariant found && old(AllNonEmptyUnits(toTraverse)) ==> NonEmptyUnits(currentRope) && AllNonEmptyUnits(toTraverse)
        decreases StackSize(toTraverse), !found
      {
        var top := toTraverse[0];
        if top.Concat? {
          ExpandTop(toTraverse);
          toTraverse := [top.left, top.right] + toTraverse[1..];
        } else {
          PopTop(toTraverse);
          currentRope := top;
          toTraverse := toTraverse[1..];
          found := true;
        }
      }
    }

    /** No position lies past the last character of the rope. */
    lemma PositionBound()
      requires Valid()
      ensures Position() <= |Str(root)| - 1
    {
    }

    /** Once the last character is delivered, a rope without empty units
        has nothing left on the stack. */
    lemma AtLastChar()
      requires Valid() && NonEmptyUnits(root) && Position() == |Str(root)| - 1
      ensures toTraverse == []
    {
      if toTraverse != [] {
        StackStrNonEmpty(toTraverse);
      }
    }

    /** `hasNext`: characters remain in the current unit or subtrees remain
        on the stack. */
    method HasNext() returns (b: bool)
      requires Valid()
      ensures Position() + 1 < |Str(root)| ==> b
      ensures NonEmptyUnits(root) ==> (b <==> Position() + 1 < |Str(root)|)
    {
      b := currentRopePos < Len(currentRope) - 1 || toTraverse != [];
      if NonEmptyUnits(root) && toTraverse != [] {
        StackStrNonEmpty(toTraverse);
      }
    }

    /** `moveForward(amount)`: advances the absolute counter at once, then
        walks units until the target character lies in the current one.
        Running off the end fails with IllegalArgument, leaving the stack
        empty and the counter already advanced; a walk that had to pop
        units stops on the last one, before its first character. */
    method MoveForward(amount: int) returns (res: Outcome)
      requires Valid() && amount >= 0
      modifies this
      ensures Valid() && skip == old(skip)
      ensures currentAbsolutePos == old(currentAbsolutePos) + amount
      ensures res.Pass? <==> amount == 0 || old(Position()) + amount < |Str(root)|
      ensures res.Pass? ==> Position() == old(Position()) + amount
      ensures res.Pass? && amount > 0 ==> 0 <= currentRopePos
      ensures res.Fail? ==> res.error == IllegalArgument && toTraverse == []
      ensures res.Fail? && old(toTraverse) == [] ==>
        currentRope == old(currentRope) && currentRopePos == old(currentRopePos) && done == old(done)
      ensures res.Fail? && old(toTraverse) != [] ==>
        currentRopePos == -1 && Position() == |Str(root)| - Len(currentRope) - 1
    {
      currentAbsolutePos := currentAbsolutePos + amount;
      var remaining := amount;
      while remaining != 0
        invariant Valid() && skip == old(skip)
        invariant currentAbsolutePos == old(currentAbsolutePos) + amount
        invariant old(toTraverse) == [] ==>
          toTraverse == [] && currentRope == old(currentRope) && currentRopePos == old(currentRopePos) && done == old(done)
        invariant old(toTraverse) != [] && toTraverse == [] ==> currentRopePos == -1
        invariant 0 <= remaining && (amount == 0 || remaining > 0)
        invariant Position() + remaining == old(Position()) + amount
        decreases StackSize(toTraverse)
      {
        if remaining + currentRopePos < Len(currentRope) {
          currentRopePos := currentRopePos + remaining;
          return Pass;
        }
        remaining := remaining - (Len(currentRope) - (currentRopePos + 1));
        if remaining > 0 && toTraverse == [] {
          assert Str(root) == done + Str(currentRope);
          return Fail(IllegalArgument);
        }
        ghost var before := done;
        ghost var passed := Str(currentRope);
        ghost var pending := StackStr(toTraverse);
        PopUnit();
        currentRopePos := -1;
        done := done + passed;
        AppendAssoc(before + passed, Str(currentRope), StackStr(toTraverse));
        AppendAssoc(before, passed, pending);
      }
      return Pass;
    }

    /** `next`: moves forward by one plus any pending skip, clears the skip
        and reads the character reached. A failed move leaves the skip in
        place and the counter advanced; from the last unit it leaves the
        position where it was, from an earlier one it stops before the
        last unit's first character. */
    method Next() returns (res: Result<char>)
      requires Valid()
      modifies this
      ensures Valid()
      ensures currentAbsolutePos == old(currentAbsolutePos) + 1 + old(skip)
      ensures res.Ok? <==> old(Position()) + 1 + old(skip) < |Str(root)|
      ensures res.Ok? ==> skip == 0 && Position() == old(Position()) + 1 + old(skip)
      ensures res.Ok? ==> res.value == Str(root)[Position()]
      ensures res.Ok? ==> 0 <= currentRopePos
      ensures res.Err? ==> res.error == IllegalArgument && skip == old(skip) && toTraverse == []
      ensures res.Err? && old(toTraverse) == [] ==>
        currentRope == old(currentRope) && currentRopePos == old(currentRopePos) && done == old(done)
      ensures res.Err? && old(toTraverse) != [] ==>
        currentRopePos == -1 && Position() == |Str(root)| - Len(currentRope) - 1
    {
      ghost var text := Str(root);
      var moved := MoveForward(1 + skip);
      if moved.Fail? {
        return Err(moved.error);
      }
      skip := 0;
      res := CharAt(currentRope, currentRopePos);
      CharOfPart(done, Str(currentRope), StackStr(toTraverse), currentRopePos);
      assert res.value == text[Position()];
    }

    /** `canMoveBackwards(amount)`: the move stays within the current unit
        (or at the position just before it). */
    method CanMoveBackwards(amount: int) returns (b: bool)
      requires Valid()
      ensures b <==> amount <= currentRopePos + 1
    {
      b := -1 <= currentRopePos - amount;
    }

    /** `moveBackwards(amount)`: lowers both positions within the current
        unit, or fails with IllegalArgument and changes nothing. */
    method MoveBackwards(amount: int) returns (res: Outcome)
      requires Valid() && amount >= 0
      modifies this
      ensures Valid() && skip == old(skip)
      ensures res.Pass? <==> amount <= old(currentRopePos) + 1
      ensures res.Pass? ==> Position() == old(Position()) - amount
      ensures res.Pass? ==> currentAbsolutePos == old(currentAbsolutePos) - amount
      ensures res.Fail? ==> res.error == IllegalArgument && Position() == old(Position())
      ensures res.Fail? ==> currentAbsolutePos == old(currentAbsolutePos)
      ensures toTraverse == old(toTraverse) && currentRope == old(currentRope) && done == old(done)
      ensures res.Pass? ==> currentRopePos == old(currentRopePos) - amount
      ensures res.Fail? ==> currentRopePos == old(currentRopePos)
    {
      var can := CanMoveBackwards(amount);
      if !can {
        return Fail(IllegalArgument);
      }
      currentRopePos := currentRopePos - amount;
      currentAbsolutePos := currentAbsolutePos - amount;
      return Pass;
    }

    /** `skip(n)`: the next `Next` passes over `n` characters first. */
    method Skip(n: int)
      requires Valid() && n >= 0
      modifies this
      ensures Valid() && skip == n
      ensures Position() == old(Position()) && currentAbsolutePos == old(currentAbsolutePos)
      ensures toTraverse == old(toTraverse) && currentRope == old(currentRope)
      ensures currentRopePos == old(currentRopePos) && done == old(done)
    {
      skip := n;
    }

    /** `getPos`: the absolute counter, which is the index of the last
        character delivered as long as no move has failed. */
    method GetPos() returns (p: int)
      ensures p == currentAbsolutePos
      ensures Synced() ==> p == Position()
    {
      p := currentAbsolutePos;
    }

    method Remove() returns (res: Outcome)
      ensures res == Fail(UnsupportedOperation)
    {
      res := Fail(UnsupportedOperation);
    }
  }

  /** The constructor taking a start index: the walk is set up, the index
      is checked against the rope's length and the iterator moved so that
      its first `Next` delivers the character at `start`. */
  method NewConcatIterator(rope: Rope, start: int) returns (res: Result<ConcatIterator>)
    requires WellFormed(rope)
    ensures res.Ok? <==> 0 <= start < Len(rope)
    ensures res.Err? ==> res.error == IllegalArgument
    ensures res.Ok? ==> fresh(res.value) && res.value.Valid() && res.value.Synced()
    ensures res.Ok? ==> res.value.root == rope && res.value.skip == 0
    ensures res.Ok? ==> res.value.Position() == start - 1
  {
    var it := new ConcatIterator(rope);
    if start < 0 || start > Len(rope) - 1 {
      return Err(IllegalArgument);
    }
    var moved := it.MoveForward(start);
    return Ok(it);
  }
}

/** RopeUtilities: concatenation with the short-leaf merge optimisations,
    automatic rebalancing, and the Fibonacci-slot rebalancing algorithm. */
module RopeUtilities {
  import opened Ropes

  datatype Option<T> = None | Some(value: T)

  /** Entry `i` of the table FIBONACCI of `long`s, F(0) .. F(92), that
      bounds the rebalancing buckets: slot `i` holds ropes whose length lies
      in [F(i), F(i + 1)). */
  function Fibonacci(i: nat): nat {
    if i < 2 then i else Fibonacci(i - 1) + Fibonacci(i - 2)
  }

  /** Number of rebalancing slots (the length of the Fibonacci table). */
  const SLOTS: int := 93

  /** A concatenation deeper than this is rebalanced automatically. */
  const MAX_ROPE_DEPTH: int := 96

  /** Two flat leaves shorter than this in total are merged into one. */
  const MERGE_THRESHOLD: int := 16

  /** How deeply a rebalance may be entered again from the concatenations it
      performs itself. */
  const REBALANCE_NESTING: nat := 3

  /** `concatenate(left, right)`: two short flat ropes are merged outright;
      a short flat rope next to a concatenation whose adjacent child is a
      short flat rope is merged into that child; anything else becomes a new
      concatenation. The last two cases go through `AutoRebalance`.
      `nest` bounds how many nested rebalances may still start. */
  function Concatenate(left: Rope, right: Rope, nest: nat): (res: Result<Rope>)
    ensures left.Flat? && right.Flat? && |left.s| + |right.s| < MERGE_THRESHOLD ==>
      res.Ok? && res.value.Flat? && Depth(res.value) == 0 && Str(res.value) == left.s + right.s
    decreases nest, 1, 0, 0
  {
    if left.Flat? && right.Flat? && |left.s| + |right.s| < MERGE_THRESHOLD then
      Ok(Flat(left.s + right.s, true))
    else if left.Concat? && right.Flat? && left.right.Flat?
      && |left.right.s| + |right.s| < MERGE_THRESHOLD then
      AutoRebalance(MkConcat(left.left, Flat(left.right.s + right.s, true)), nest)
    else if left.Flat? && right.Concat? && right.left.Flat?
      && |left.s| + |right.left.s| < MERGE_THRESHOLD then
      AutoRebalance(MkConcat(Flat(left.s + right.left.s, true), right.right), nest)
    else
      AutoRebalance(MkConcat(left, right), nest)
  }

  /** `autoRebalance(r)`: rebalance only when the depth exceeds
      MAX_ROPE_DEPTH. With no nesting budget left the rope is returned as
      it is. */
  function AutoRebalance(r: Rope, nest: nat): (res: Result<Rope>)
    ensures Depth(r) <= MAX_ROPE_DEPTH ==> res == Ok(r)
    decreases nest, 0, 0, 0
  {
    if Depth(r) > MAX_ROPE_DEPTH then
      if nest == 0 then Ok(r) else Rebalance(r, nest - 1)
    else Ok(r)
  }

  function EmptySlots(): (slots: seq<Option<Rope>>)
    ensures |slots| == SLOTS && forall i | 0 <= i < SLOTS :: slots[i] == None
  {
    seq(SLOTS, _ => None)
  }

  /** `l` lies in the Fibonacci bucket [F(pos), F(pos + 1)). */
  predicate InBucket(l: int, pos: nat) {
    Fibonacci(pos) <= l < Fibonacci(pos + 1)
  }

  /** Every slot that `after` fills anew holds a rope of that slot's
      bucket. */
  ghost predicate StoredInBucket(before: seq<Option<Rope>>, after: seq<Option<Rope>>)
    requires |before| == SLOTS && |after| == SLOTS
  {
    forall i | 0 <= i < SLOTS && after[i] != before[i] && after[i].Some? :: InBucket(Len(after[i].value), i)
  }

  lemma {:induction false} FibonacciMonotone(i: nat, j: nat)
    requires 1 <= i <= j
    ensures Fibonacci(i) <= Fibonacci(j)
    decreases j
  {
    if i < j {
      FibonacciMonotone(i, j - 1);
    }
  }

  lemma FibonacciGrows(n: nat)
    requires n >= 1
    ensures Fibonacci(n + 10) >= 32 * Fibonacci(n)
  {
    FibonacciMonotone(n, n + 1);
    FibonacciMonotone(n + 2, n + 3);
    FibonacciMonotone(n + 4, n + 5);
    FibonacciMonotone(n + 6, n + 7);
    FibonacciMonotone(n + 8, n + 9);
  }

  /** Bucket 2 starts at length 1 and no bucket from slot 2 on starts at
      length 0. */
  lemma FibonacciPositive()
    ensures Fibonacci(2) == 1
    ensures forall i: nat | 2 <= i :: Fibonacci(i) >= 1
  {
    forall i: nat | 2 <= i
      ensures Fibonacci(i) >= 1
    {
      FibonacciMonotone(2, i);
    }
  }

  function Pow(b: nat, k: nat): nat {
    if k == 0 then 1 else b * Pow(b, k - 1)
  }

  /** Ten steps of the table multiply an entry by at least 32. */
  lemma {:induction false} FibonacciExponential(n: nat, k: nat)
    requires n >= 10 * k + 2
    ensures Fibonacci(n) >= Pow(32, k)
    decreases k
  {
    if k == 0 {
      FibonacciPositive();
    } else {
      FibonacciExponential(n - 10, k - 1);
      FibonacciGrows(n - 10);
    }
  }

  /** From slot 72 on, and so at the last slot, the table exceeds every
      Java `int` length: every length from 1 to MAX_LENGTH has a bucket
      below the last slot. */
  lemma FibonacciExceedsIntLengths(n: nat)
    requires n >= 72
    ensures Fibonacci(n) > MAX_LENGTH
  {
    FibonacciExponential(n, 7);
  }

  /** The slot search of `rebalance`: from slot `pos` upward, find the
      bucket of a unit of length `l`, noting on the way whether any slot
      visited was occupied. The search stops at the last slot without
      looking at it. */
  function FindSlot(slots: seq<Option<Rope>>, l: int, pos: int, lowerEmpty: bool): (r: (int, bool))
    requires |slots| == SLOTS && 2 <= pos <= SLOTS - 1
    ensures pos <= r.0 <= SLOTS - 1
    ensures r.0 < SLOTS - 1 ==> InBucket(l, r.0)
    ensures r.1 <==> lowerEmpty && forall i | pos <= i <= r.0 && i < SLOTS - 1 :: slots[i].None?
    decreases SLOTS - pos
  {
    if pos == SLOTS - 1 then (pos, lowerEmpty)
    else
      var empty := lowerEmpty && slots[pos].None?;
      if InBucket(l, pos) then (pos, empty)
      else FindSlot(slots, l, pos + 1, empty)
  }

  /** `slot.append(acc)` when the slot is occupied, `acc` itself when it
      is empty: the step every folding loop of `rebalance` takes. */
  function Prepend(slot: Option<Rope>, acc: Rope, nest: nat): (r: Result<Rope>)
    ensures slot.None? ==> r == Ok(acc)
    decreases nest, 1, 1, 0
  {
    if slot.None? then Ok(acc) else Concatenate(slot.value, acc, nest)
  }

  /** The same step with an accumulator that may still be null: the first
      occupied slot becomes the accumulator. */
  function Absorb(slot: Option<Rope>, acc: Option<Rope>, nest: nat): (r: Result<Option<Rope>>)
    ensures acc.None? ==> r == Ok(slot)
    ensures slot.None? ==> r == Ok(acc)
    ensures r.Ok? && (slot.Some? || acc.Some?) ==> r.value.Some?
    decreases nest, 1, 2, 0
  {
    if acc.None? then Ok(slot)
    else
      var joined :- Prepend(slot, acc.value, nest);
      Ok(Some(joined))
  }

  /** The first folding loop of `rebalance`: slots `j` .. `pos`, lowest
      first, are emptied and each is prepended to the accumulated rope. */
  function FoldLow(slots: seq<Option<Rope>>, j: int, pos: int, acc: Option<Rope>, nest: nat)
    : (res: Result<(seq<Option<Rope>>, Option<Rope>)>)
    requires |slots| == SLOTS && 2 <= j <= pos + 1 && pos <= SLOTS - 1
    ensures res.Ok? ==> |res.value.0| == SLOTS
    ensures res.Ok? ==> forall i | j <= i <= pos :: res.value.0[i].None?
    ensures res.Ok? ==> forall i | 0 <= i < SLOTS && !(j <= i <= pos) :: res.value.0[i] == slots[i]
    ensures res.Ok? && (acc.Some? || exists i | j <= i <= pos :: slots[i].Some?) ==> res.value.1.Some?
    decreases nest, 2, 0, SLOTS - j
  {
    if j > pos then Ok((slots, acc))
    else if slots[j].Some? then
      var joined :- Absorb(slots[j], acc, nest);
      FoldLow(slots[j := None], j + 1, pos, joined, nest)
    else FoldLow(slots, j + 1, pos, acc, nest)
  }

  /** The second folding loop of `rebalance`: from slot `j` upward, absorb
      each occupied slot in front of the accumulated rope until that rope's
      length falls in the current slot's bucket, and store it there. The
      loop stops before the last slot; a rope not stored by then is
      dropped. */
  function FoldUp(slots: seq<Option<Rope>>, j: int, acc: Rope, nest: nat): (res: Result<seq<Option<Rope>>>)
    requires |slots| == SLOTS && 2 <= j <= SLOTS - 1
    ensures res.Ok? ==> |res.value| == SLOTS
    ensures res.Ok? ==> forall i | 0 <= i < j :: res.value[i] == slots[i]
    ensures res.Ok? ==> StoredInBucket(slots, res.value)
    decreases nest, 2, 0, SLOTS - j
  {
    if j == SLOTS - 1 then Ok(slots)
    else
      var absorbed :- Prepend(slots[j], acc, nest);
      var slots' := slots[j := None];
      if InBucket(Len(absorbed), j) then Ok(slots'[j := Some(absorbed)])
      else FoldUp(slots', j + 1, absorbed, nest)
  }

  /** One atomic unit `x` of the traversal of `rebalance`: placed directly
      in its slot when no slot up to it is occupied, otherwise merged with
      the lower slots and carried upward. */
  function Place(x: Rope, slots: seq<Option<Rope>>, nest: nat): (res: Result<seq<Option<Rope>>>)
    requires |slots| == SLOTS
    ensures res.Ok? ==> |res.value| == SLOTS
    decreases nest, 2, 1, 0
  {
    var found := FindSlot(slots, Len(x), 2, true);
    var pos, lowerEmpty := found.0, found.1;
    if lowerEmpty then Ok(slots[pos := Some(x)])
    else
      var folded :- FoldLow(slots, 2, pos, None, nest);
      var low, acc := folded.0, folded.1;
      if acc.None? then
        assert false;
        Err(NullRope)
      else
        var joined :- Concatenate(acc.value, x, nest);
        FoldUp(low, pos, joined, nest)
  }

  /** The depth-first traversal of `rebalance`, with the explicit stack
      `stack` (top first): concatenations are split, atomic units placed. */
  function Drain(stack: seq<Rope>, slots: seq<Option<Rope>>, nest: nat): (res: Result<seq<Option<Rope>>>)
    requires |slots| == SLOTS
    ensures res.Ok? ==> |res.value| == SLOTS
    decreases nest, 2, 2, StackSize(stack)
  {
    if stack == [] then Ok(slots)
    else
      var x := stack[0];
      if x.Concat? then
        StackSizeExpand(stack);
        Drain([x.left, x.right] + stack[1..], slots, nest)
      else
        var placed :- Place(x, slots, nest);
        Drain(stack[1..], placed, nest)
  }

  /** The final loop of `rebalance`: the occupied slots, lowest first, each
      prepended to the accumulated rope. */
  function Combine(slots: seq<Option<Rope>>, j: int, acc: Option<Rope>, nest: nat): (res: Result<Option<Rope>>)
    requires |slots| == SLOTS && 2 <= j <= SLOTS
    decreases nest, 2, 0, SLOTS - j
  {
    if j == SLOTS then Ok(acc)
    else
      var joined :- Absorb(slots[j], acc, nest);
      Combine(slots, j + 1, joined, nest)
  }

  /** `rebalance(r)`, specified functionally; a null result is a failure. */
  function Rebalance(r: Rope, nest: nat): (res: Result<Rope>)
    decreases nest, 2, 3, 0
  {
    var slots :- Drain([r], EmptySlots(), nest);
    var result :- Combine(slots, 2, None, nest);
    if result.None? then Err(NullRope) else Ok(result.value)
  }

  /** `isBalanced(r)`: a rope of (byte) depth d is balanced when its length
      reaches F(d + 2). Depths from SLOTS - 2 on are never balanced; a
      negative byte depth below -2 indexes the table out of bounds. */
  function IsBalanced(r: Rope): (res: Result<bool>)
    ensures Depth(r) >= SLOTS - 2 ==> res == Ok(false)
    ensures Depth(r) < -2 ==> res == Err(IndexOutOfBounds)
    ensures -2 <= Depth(r) < SLOTS - 2 ==> res == Ok(Fibonacci(Depth(r) + 2) <= Len(r))
  {
    if Depth(r) >= SLOTS - 2 then Ok(false)
    else if Depth(r) + 2 < 0 then Err(IndexOutOfBounds)
    else Ok(Fibonacci(Depth(r) + 2) <= Len(r))
  }

  /** As long as no byte cast wrapped, `isBalanced` compares the length
      with the Fibonacci number of the true height: a rope of height h is
      balanced iff it holds at least F(h + 2) characters, so an atomic
      unit is balanced iff it is non-empty (flat) or holds two characters
      (substring). */
  lemma IsBalancedHeight(r: Rope)
    requires WellFormed(r) && Height(r) <= 127
    ensures Height(r) >= SLOTS - 2 ==> IsBalanced(r) == Ok(false)
    ensures Height(r) < SLOTS - 2 ==> IsBalanced(r) == Ok(Fibonacci(Height(r) + 2) <= Len(r))
    ensures r.Flat? ==> IsBalanced(r) == Ok(|r.s| >= 1)
    ensures r.Sub? ==> IsBalanced(r) == Ok(r.len >= 2)
  {
    DepthIsHeight(r);
    assert Fibonacci(2) == 1 && Fibonacci(3) == 2;
  }

  /** `rebalance(r)` as the Java code runs it: an explicit stack for the
      depth-first walk and an array of slots indexed by Fibonacci bucket.
      It computes exactly the functional `Rebalance`. */
  method RebalanceImpl(r: Rope, nest: nat) returns (res: Result<Rope>)
    ensures res == Rebalance(r, nest)
  {
    var ropes := new Option<Rope>[SLOTS](_ => None);
    assert ropes[..] == EmptySlots();
    ghost var drained := Drain([r], EmptySlots(), nest);
    var toExamine := [r];
    while |toExamine| > 0
      invariant ropes.Length == SLOTS
      invariant Drain(toExamine, ropes[..], nest) == drained
      decreases StackSize(toExamine)
    {
      var x := toExamine[0];
      if x.Concat? {
        StackSizeExpand(toExamine);
        toExamine := [x.left, x.right] + toExamine[1..];
        continue;
      }
      toExamine := toExamine[1..];
      var placed := PlaceImpl(x, ropes, nest);
      if placed.Fail? {
        return Err(placed.error);
      }
    }
    var result: Option<Rope> := None;
    var j := 2;
    while j < SLOTS
      invariant 2 <= j <= SLOTS
      invariant Combine(ropes[..], j, result, nest) == Combine(drained.value, 2, None, nest)
    {
      if ropes[j].Some? {
        var joined := Absorb(ropes[j], result, nest);
        if joined.Err? {
          return Err(joined.error);
        }
        result := joined.value;
      }
      j := j + 1;
    }
    if result.None? {
      return Err(NullRope);
    }
    return Ok(result.value);
  }

  /** The handling of one atomic unit `x` inside `rebalance`'s walk, on the
      slot array itself: the slot search, then either a direct store or the
      two folding loops. */
  method PlaceImpl(x: Rope, ropes: array<Option<Rope>>, nest: nat) returns (res: Outcome)
    requires ropes.Length == SLOTS
    modifies ropes
    ensures Place(x, old(ropes[..]), nest) == if res.Pass? then Ok(ropes[..]) else Err(res.error)
  {
    var pos, lowerSlotsEmpty := FindSlotImpl(ropes, Len(x));
    if lowerSlotsEmpty {
      ropes[pos] := Some(x);
      return Pass;
    }
    var folded, rebalanced := FoldLowImpl(ropes, pos, nest);
    if folded.Fail? {
      return folded;
    }
    var appended := Concatenate(rebalanced.value, x, nest);
    if appended.Err? {
      return Fail(appended.error);
    }
    res := FoldUpImpl(ropes, pos, appended.value, nest);
  }

  /** The slot search loop of `rebalance`. */
  method FindSlotImpl(ropes: array<Option<Rope>>, l: int) returns (pos: int, lowerSlotsEmpty: bool)
    requires ropes.Length == SLOTS
    ensures (pos, lowerSlotsEmpty) == FindSlot(ropes[..], l, 2, true)
  {
    pos := 2;
    lowerSlotsEmpty := true;
    while pos < SLOTS - 1
      invariant 2 <= pos <= SLOTS - 1
      invariant FindSlot(ropes[..], l, pos, lowerSlotsEmpty) == FindSlot(ropes[..], l, 2, true)
    {
      if ropes[pos].Some? {
        lowerSlotsEmpty := false;
      }
      if Fibonacci(pos) <= l && l < Fibonacci(pos + 1) {
        return;
      }
      pos := pos + 1;
    }
  }

  /** The first folding loop of `rebalance`, over slots 2 .. `pos`. */
  method FoldLowImpl(ropes: array<Option<Rope>>, pos: int, nest: nat) returns (res: Outcome, rebalanced: Option<Rope>)
    requires ropes.Length == SLOTS && 2 <= pos <= SLOTS - 1
    modifies ropes
    ensures FoldLow(old(ropes[..]), 2, pos, None, nest)
      == if res.Pass? then Ok((ropes[..], rebalanced)) else Err(res.error)
  {
    rebalanced := None;
    var j := 2;
    while j <= pos
      invariant 2 <= j <= pos + 1
      invariant FoldLow(ropes[..], j, pos, rebalanced, nest) == FoldLow(old(ropes[..]), 2, pos, None, nest)
    {
      ghost var visited := ropes[..];
      if ropes[j].Some? {
        var joined := Absorb(ropes[j], rebalanced, nest);
        if joined.Err? {
          return Fail(joined.error), rebalanced;
        }
        rebalanced := joined.value;
        ropes[j] := None;
      }
      assert ropes[..] == visited[j := None];
      j := j + 1;
    }
    return Pass, rebalanced;
  }

  /** The second folding loop of `rebalance`, from slot `pos` upward. */
  method FoldUpImpl(ropes: array<Option<Rope>>, pos: int, acc: Rope, nest: nat) returns (res: Outcome)
    requires ropes.Length == SLOTS && 2 <= pos <= SLOTS - 1
    modifies ropes
    ensures FoldUp(old(ropes[..]), pos, acc, nest) == if res.Pass? then Ok(ropes[..]) else Err(res.error)
  {
    var rebalanced := acc;
    var j := pos;
    while j < SLOTS - 1
      invariant pos <= j <= SLOTS - 1
      invariant FoldUp(ropes[..], j, rebalanced, nest) == FoldUp(old(ropes[..]), pos, acc, nest)
    {
      ghost var visited := ropes[..];
      if ropes[j].Some? {
        var joined := Prepend(ropes[j], rebalanced, nest);
        if joined.Err? {
          return Fail(joined.error);
        }
        rebalanced := joined.value;
        ropes[j] := None;
      }
      assert ropes[..] == visited[j := None];
      if Fibonacci(j) <= Len(rebalanced) && Len(rebalanced) < Fibonacci(j + 1) {
        ropes[j] := Some(rebalanced);
        return Pass;
      }
      j := j + 1;
    }
    return Pass;
  }

  lemma StackSizeExpand(stack: seq<Rope>)
    requires stack != [] && stack[0].Concat?
    ensures StackSize([stack[0].left, stack[0].right] + stack[1..]) < StackSize(stack)
  {
    var x, rest := stack[0], stack[1..];
    var st := [x.left, x.right] + rest;
    assert st[1..] == [x.right] + rest;
    assert st[1..][1..] == rest;
  }
}

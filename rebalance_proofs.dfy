/** Concatenation and rebalancing preserve the represented text. Every
    atomic unit must hold at least one character and the total length must
    fit a Java `int`; `ZeroLengthUnitLost` shows what happens without the
    first condition. Ropes too shallow ever to be rebalanced need neither
    (`ConcatenateShallow`). */
module RebalanceProofs {
  import opened Ropes
  import opened RopeUtilities

  /** A rope that concatenation and rebalancing handle faithfully. */
  ghost predicate Good(r: Rope) {
    WellFormed(r) && NonEmptyUnits(r)
  }

  /** The invariant of the slot array during rebalancing: every occupied
      slot holds a good rope, and the last slot stays empty. */
  ghost predicate SlotsGood(slots: seq<Option<Rope>>) {
    && |slots| == SLOTS
    && slots[SLOTS - 1].None?
    && forall i | 2 <= i < SLOTS :: GoodOpt(slots[i])
  }

  ghost predicate GoodOpt(o: Option<Rope>) {
    o.Some? ==> Good(o.value)
  }

  ghost function StrOpt(o: Option<Rope>): seq<char>
    requires o.Some? ==> WellFormed(o.value)
  {
    if o.None? then [] else Str(o.value)
  }

  /** The text held by slots `lo` .. `hi - 1`, highest slot first: the
      order in which the final loop of `rebalance` joins them. */
  ghost function SlotText(slots: seq<Option<Rope>>, lo: int, hi: int): seq<char>
    requires SlotsGood(slots) && 2 <= lo <= hi <= SLOTS
    decreases hi - lo
  {
    if lo == hi then [] else SlotText(slots, lo + 1, hi) + StrOpt(slots[lo])
  }

  lemma {:induction false} SlotTextSplit(slots: seq<Option<Rope>>, lo: int, mid: int, hi: int)
    requires SlotsGood(slots) && 2 <= lo <= mid <= hi <= SLOTS
    ensures SlotText(slots, lo, hi) == SlotText(slots, mid, hi) + SlotText(slots, lo, mid)
    decreases mid - lo
  {
    if lo == mid {
      var upper := SlotText(slots, mid, hi);
      assert SlotText(slots, lo, mid) == [];
      assert upper + [] == upper;
    } else {
      SlotTextSplit(slots, lo + 1, mid, hi);
      var a, b, c := SlotText(slots, mid, hi), SlotText(slots, lo + 1, mid), StrOpt(slots[lo]);
      assert SlotText(slots, lo, hi) == SlotText(slots, lo + 1, hi) + c;
      assert SlotText(slots, lo, mid) == b + c;
      AppendAssoc(a, b, c);
    }
  }

  lemma {:induction false} SlotTextEmpty(slots: seq<Option<Rope>>, lo: int, hi: int)
    requires SlotsGood(slots) && 2 <= lo <= hi <= SLOTS
    requires forall i | lo <= i < hi :: slots[i].None?
    ensures SlotText(slots, lo, hi) == []
    decreases hi - lo
  {
    if lo < hi {
      SlotTextEmpty(slots, lo + 1, hi);
      assert StrOpt(slots[lo]) == [];
      assert SlotText(slots, lo, hi) == [] + [];
    }
  }

  /** Slots that agree on a range hold the same text there. */
  lemma {:induction false} SlotTextAgree(s1: seq<Option<Rope>>, s2: seq<Option<Rope>>, lo: int, hi: int)
    requires SlotsGood(s1) && SlotsGood(s2) && 2 <= lo <= hi <= SLOTS
    requires forall i | lo <= i < hi :: s1[i] == s2[i]
    ensures SlotText(s1, lo, hi) == SlotText(s2, lo, hi)
    decreases hi - lo
  {
    if lo < hi {
      SlotTextAgree(s1, s2, lo + 1, hi);
    }
  }

  /** A unit of length 1 .. MAX_LENGTH always finds its bucket below the
      last slot. */
  lemma {:induction false} FindSlotBucket(slots: seq<Option<Rope>>, l: int, pos: int, lowerEmpty: bool)
    requires |slots| == SLOTS && 2 <= pos <= SLOTS - 2
    requires Fibonacci(pos) <= l <= MAX_LENGTH
    ensures FindSlot(slots, l, pos, lowerEmpty).0 < SLOTS - 1
    decreases SLOTS - pos
  {
    if !InBucket(l, pos) {
      if pos + 1 == SLOTS - 1 {
        FibonacciExceedsIntLengths(pos + 1);
        assert false;
      }
      FindSlotBucket(slots, l, pos + 1, lowerEmpty && slots[pos].None?);
    }
  }

  /** Concatenation of good ropes succeeds and represents the two texts one
      after the other. */
  lemma {:induction false} ConcatenateGood(left: Rope, right: Rope, nest: nat)
    requires Good(left) && Good(right) && Len(left) + Len(right) <= MAX_LENGTH
    ensures Concatenate(left, right, nest).Ok?
    ensures Good(Concatenate(left, right, nest).value)
    ensures Str(Concatenate(left, right, nest).value) == Str(left) + Str(right)
    decreases nest, 1, 0, 0
  {
    if left.Flat? && right.Flat? && |left.s| + |right.s| < MERGE_THRESHOLD {
    } else if left.Concat? && right.Flat? && left.right.Flat?
      && |left.right.s| + |right.s| < MERGE_THRESHOLD {
      var c := MkConcat(left.left, Flat(left.right.s + right.s, true));
      AppendAssoc(Str(left.left), left.right.s, right.s);
      assert Str(c) == Str(left) + Str(right);
      AutoRebalanceGood(c, nest);
    } else if left.Flat? && right.Concat? && right.left.Flat?
      && |left.s| + |right.left.s| < MERGE_THRESHOLD {
      var c := MkConcat(Flat(left.s + right.left.s, true), right.right);
      AppendAssoc(left.s, right.left.s, Str(right.right));
      assert Str(c) == Str(left) + Str(right);
      AutoRebalanceGood(c, nest);
    } else {
      AutoRebalanceGood(MkConcat(left, right), nest);
    }
  }

  /** Ropes less than MAX_ROPE_DEPTH levels high concatenate without any
      rebalancing, so the result keeps both texts in order whatever the
      lengths of their units, empty ones included, and is at most one
      level higher than the higher of the two. */
  lemma ConcatenateShallow(left: Rope, right: Rope, nest: nat)
    requires WellFormed(left) && WellFormed(right)
    requires Height(left) < MAX_ROPE_DEPTH && Height(right) < MAX_ROPE_DEPTH
    ensures Concatenate(left, right, nest).Ok?
    ensures WellFormed(Concatenate(left, right, nest).value)
    ensures Str(Concatenate(left, right, nest).value) == Str(left) + Str(right)
    ensures Height(Concatenate(left, right, nest).value) <= Max(Height(left), Height(right)) + 1
  {
    if left.Flat? && right.Flat? && |left.s| + |right.s| < MERGE_THRESHOLD {
    } else if left.Concat? && right.Flat? && left.right.Flat?
      && |left.right.s| + |right.s| < MERGE_THRESHOLD {
      var c := MkConcat(left.left, Flat(left.right.s + right.s, true));
      AppendAssoc(Str(left.left), left.right.s, right.s);
      NoRebalance(c, nest);
    } else if left.Flat? && right.Concat? && right.left.Flat?
      && |left.s| + |right.left.s| < MERGE_THRESHOLD {
      var c := MkConcat(Flat(left.s + right.left.s, true), right.right);
      AppendAssoc(left.s, right.left.s, Str(right.right));
      NoRebalance(c, nest);
    } else {
      NoRebalance(MkConcat(left, right), nest);
    }
  }

  /** A rope no higher than MAX_ROPE_DEPTH is left as it is by
      `autoRebalance`: its byte depth is its height. */
  lemma NoRebalance(r: Rope, nest: nat)
    requires WellFormed(r) && Height(r) <= MAX_ROPE_DEPTH
    ensures AutoRebalance(r, nest) == Ok(r)
  {
    DepthIsHeight(r);
  }

  lemma {:induction false} AutoRebalanceGood(r: Rope, nest: nat)
    requires Good(r) && Len(r) <= MAX_LENGTH
    ensures AutoRebalance(r, nest).Ok?
    ensures Good(AutoRebalance(r, nest).value) && Str(AutoRebalance(r, nest).value) == Str(r)
    decreases nest, 0, 0, 0
  {
    if Depth(r) > MAX_ROPE_DEPTH && nest > 0 {
      RebalanceGood(r, nest - 1);
    }
  }

  /** Rebalancing a good rope succeeds and keeps its text. */
  lemma {:induction false} RebalanceGood(r: Rope, nest: nat)
    requires Good(r) && Len(r) <= MAX_LENGTH
    ensures Rebalance(r, nest).Ok?
    ensures Good(Rebalance(r, nest).value) && Str(Rebalance(r, nest).value) == Str(r)
    decreases nest, 2, 3, 0
  {
    var empty := EmptySlots();
    assert SlotsGood(empty);
    SlotTextEmpty(empty, 2, SLOTS);
    assert StackStr([r]) == Str(r);
    assert Len(r) == |Str(r)|;
    DrainGood([r], empty, nest);
    var slots := Drain([r], empty, nest).value;
    assert SlotText(slots, 2, SLOTS) == Str(r) by {
      assert [] + Str(r) == Str(r);
    }
    CombineGood(slots, 2, None, nest);
    var combined := Combine(slots, 2, None, nest).value;
    assert StrOpt(combined) == Str(r) by {
      assert Str(r) + [] == Str(r);
    }
    NonEmptyUnitsLength(r);
    assert combined.Some?;
    assert Rebalance(r, nest) == Ok(combined.value);
  }

  lemma {:induction false} DrainGood(stack: seq<Rope>, slots: seq<Option<Rope>>, nest: nat)
    requires SlotsGood(slots) && AllWellFormed(stack) && AllNonEmptyUnits(stack)
    requires |SlotText(slots, 2, SLOTS)| + |StackStr(stack)| <= MAX_LENGTH
    ensures Drain(stack, slots, nest).Ok?
    ensures SlotsGood(Drain(stack, slots, nest).value)
    ensures SlotText(Drain(stack, slots, nest).value, 2, SLOTS) == SlotText(slots, 2, SLOTS) + StackStr(stack)
    decreases nest, 2, 2, StackSize(stack)
  {
    if stack != [] {
      var x := stack[0];
      if x.Concat? {
        ExpandTop(stack);
        DrainGood([x.left, x.right] + stack[1..], slots, nest);
      } else {
        var rest := stack[1..];
        PopTop(stack);
        PlaceGood(x, slots, nest);
        var placed := Place(x, slots, nest).value;
        AppendAssoc(SlotText(slots, 2, SLOTS), Str(x), StackStr(rest));
        DrainGood(rest, placed, nest);
      }
    }
  }

  lemma PlaceGood(x: Rope, slots: seq<Option<Rope>>, nest: nat)
    requires SlotsGood(slots) && Good(x) && !x.Concat?
    requires |SlotText(slots, 2, SLOTS)| + Len(x) <= MAX_LENGTH
    ensures Place(x, slots, nest).Ok?
    ensures SlotsGood(Place(x, slots, nest).value)
    ensures SlotText(Place(x, slots, nest).value, 2, SLOTS) == SlotText(slots, 2, SLOTS) + Str(x)
    decreases nest, 2, 1, 0
  {
    NonEmptyUnitsLength(x);
    FibonacciPositive();
    FindSlotBucket(slots, Len(x), 2, true);
    var found := FindSlot(slots, Len(x), 2, true);
    if found.1 {
      PlaceDirectGood(x, slots, found.0);
    } else {
      PlaceFoldGood(x, slots, found.0, nest);
    }
  }

  /** A unit whose slot and every slot below it are empty is stored in
      its slot. */
  lemma PlaceDirectGood(x: Rope, slots: seq<Option<Rope>>, pos: int)
    requires SlotsGood(slots) && Good(x) && 2 <= pos <= SLOTS - 2
    requires forall i | 2 <= i <= pos :: slots[i].None?
    ensures SlotsGood(slots[pos := Some(x)])
    ensures SlotText(slots[pos := Some(x)], 2, SLOTS) == SlotText(slots, 2, SLOTS) + Str(x)
  {
    var placed := slots[pos := Some(x)];
    forall i | 2 <= i < SLOTS
      ensures GoodOpt(placed[i])
    {
      if i != pos {
        assert placed[i] == slots[i];
      }
    }
    SlotTextAbove(slots, pos + 1);
    PlaceDirectText(x, slots, placed, pos);
  }

  /** Slots that are empty up to `lo - 1` hold only the text above them. */
  lemma SlotTextAbove(slots: seq<Option<Rope>>, lo: int)
    requires SlotsGood(slots) && 2 <= lo <= SLOTS
    requires forall i | 2 <= i < lo :: slots[i].None?
    ensures SlotText(slots, 2, SLOTS) == SlotText(slots, lo, SLOTS)
  {
    var above := SlotText(slots, lo, SLOTS);
    SlotTextSplit(slots, 2, lo, SLOTS);
    SlotTextEmpty(slots, 2, lo);
    assert above + [] == above;
  }

  /** The text after storing `x` in the empty slot `pos`. */
  lemma PlaceDirectText(x: Rope, slots: seq<Option<Rope>>, placed: seq<Option<Rope>>, pos: int)
    requires SlotsGood(slots) && SlotsGood(placed) && Good(x) && 2 <= pos <= SLOTS - 2
    requires placed == slots[pos := Some(x)]
    requires forall i | 2 <= i < pos :: slots[i].None?
    ensures SlotText(placed, 2, SLOTS) == SlotText(slots, pos + 1, SLOTS) + Str(x)
  {
    SlotTextAgree(placed, slots, pos + 1, SLOTS);
    assert SlotText(placed, pos, SLOTS) == SlotText(placed, pos + 1, SLOTS) + StrOpt(placed[pos]);
    assert forall i | 2 <= i < pos :: placed[i].None?;
    SlotTextAbove(placed, pos);
  }

  /** `rebalance` stores a unit of positive length, or a rope folded with
      it, only in the slot whose Fibonacci bucket holds its length. */
  lemma PlaceBuckets(x: Rope, slots: seq<Option<Rope>>, nest: nat)
    requires |slots| == SLOTS && !x.Concat? && 0 < Len(x) <= MAX_LENGTH
    ensures Place(x, slots, nest).Ok? ==> StoredInBucket(slots, Place(x, slots, nest).value)
  {
    FibonacciPositive();
    FindSlotBucket(slots, Len(x), 2, true);
    var found := FindSlot(slots, Len(x), 2, true);
    if !found.1 {
      var folded := FoldLow(slots, 2, found.0, None, nest);
      if folded.Ok? && folded.value.1.Some? {
        var low := folded.value.0;
        var joined := Concatenate(folded.value.1.value, x, nest);
        if joined.Ok? {
          var up := FoldUp(low, found.0, joined.value, nest);
          if up.Ok? {
            assert StoredInBucket(low, up.value);
          }
        }
      }
    }
  }

  /** Otherwise the lower slots are folded into one rope, the unit is
      appended to it, and the result is carried upward. */
  lemma PlaceFoldGood(x: Rope, slots: seq<Option<Rope>>, pos: int, nest: nat)
    requires SlotsGood(slots) && Good(x) && 2 <= pos <= SLOTS - 2 && InBucket(Len(x), pos)
    requires exists i | 2 <= i <= pos :: slots[i].Some?
    requires |SlotText(slots, 2, SLOTS)| + Len(x) <= MAX_LENGTH
    ensures FoldLow(slots, 2, pos, None, nest).Ok?
    ensures var (low, acc) := FoldLow(slots, 2, pos, None, nest).value;
      && acc.Some?
      && Concatenate(acc.value, x, nest).Ok?
      && |low| == SLOTS
      && var up := FoldUp(low, pos, Concatenate(acc.value, x, nest).value, nest);
      && up.Ok?
      && SlotsGood(up.value)
      && SlotText(up.value, 2, SLOTS) == SlotText(slots, 2, SLOTS) + Str(x)
    decreases nest, 2, 0, SLOTS
  {
    SlotTextSplit(slots, 2, pos + 1, SLOTS);
    FoldLowGood(slots, 2, pos, None, nest);
    var folded := FoldLow(slots, 2, pos, None, nest).value;
    var low, acc := folded.0, folded.1;
    ghost var above, below := SlotText(slots, pos + 1, SLOTS), SlotText(slots, 2, pos + 1);
    assert Str(acc.value) == below by {
      assert StrOpt(acc) == below + [];
    }
    ConcatenateGood(acc.value, x, nest);
    var joined := Concatenate(acc.value, x, nest).value;
    assert Str(joined) == below + Str(x);
    SlotTextAgree(low, slots, pos + 1, SLOTS);
    assert SlotText(low, pos, SLOTS) == above;
    FoldUpGood(low, pos, joined, nest);
    var up := FoldUp(low, pos, joined, nest).value;
    assert SlotText(up, 2, SLOTS) == above + (below + Str(x));
    AppendAssoc(above, below, Str(x));
  }

  /** One folding step on good ropes: the slot's rope, if any, goes in
      front of the accumulated rope. */
  lemma PrependGood(slot: Option<Rope>, acc: Rope, nest: nat)
    requires GoodOpt(slot) && Good(acc)
    requires |StrOpt(slot)| + Len(acc) <= MAX_LENGTH
    ensures Prepend(slot, acc, nest).Ok?
    ensures Good(Prepend(slot, acc, nest).value)
    ensures Str(Prepend(slot, acc, nest).value) == StrOpt(slot) + Str(acc)
    decreases nest, 1, 1, 0
  {
    if slot.Some? {
      ConcatenateGood(slot.value, acc, nest);
    }
  }

  lemma AbsorbGood(slot: Option<Rope>, acc: Option<Rope>, nest: nat)
    requires GoodOpt(slot) && GoodOpt(acc)
    requires |StrOpt(slot)| + |StrOpt(acc)| <= MAX_LENGTH
    ensures Absorb(slot, acc, nest).Ok?
    ensures GoodOpt(Absorb(slot, acc, nest).value)
    ensures StrOpt(Absorb(slot, acc, nest).value) == StrOpt(slot) + StrOpt(acc)
    decreases nest, 1, 2, 0
  {
    if acc.Some? {
      PrependGood(slot, acc.value, nest);
    }
  }

  /** What `FoldLowGood` states of one fold. */
  ghost predicate FoldedLow(slots: seq<Option<Rope>>, j: int, pos: int, acc: Option<Rope>, nest: nat)
    requires SlotsGood(slots) && 2 <= j <= pos + 1 && pos <= SLOTS - 2 && GoodOpt(acc)
  {
    var res := FoldLow(slots, j, pos, acc, nest);
    && res.Ok?
    && SlotsGood(res.value.0)
    && GoodOpt(res.value.1)
    && StrOpt(res.value.1) == SlotText(slots, j, pos + 1) + StrOpt(acc)
  }

  lemma {:induction false} FoldLowGood(slots: seq<Option<Rope>>, j: int, pos: int, acc: Option<Rope>, nest: nat)
    requires SlotsGood(slots) && 2 <= j <= pos + 1 && pos <= SLOTS - 2
    requires GoodOpt(acc)
    requires |SlotText(slots, j, pos + 1)| + |StrOpt(acc)| <= MAX_LENGTH
    ensures FoldedLow(slots, j, pos, acc, nest)
    decreases nest, 2, 0, SLOTS - j
  {
    if j <= pos {
      if slots[j].Some? {
        AbsorbGood(slots[j], acc, nest);
        var cleared := slots[j := None];
        var joined := Absorb(slots[j], acc, nest).value;
        FoldLowTakenReady(slots, j, pos, acc, nest, cleared, joined);
        FoldLowGood(cleared, j + 1, pos, joined, nest);
        FoldLowTaken(slots, j, pos, acc, nest, cleared, joined);
      } else {
        SlotTextEmpty(slots, j, j + 1);
        SlotTextSplit(slots, j, j + 1, pos + 1);
        FoldLowGood(slots, j + 1, pos, acc, nest);
        FoldLowSkipped(slots, j, pos, acc, nest);
      }
    } else {
      FoldLowDone(slots, j, pos, acc, nest);
    }
  }

  /** Past the last slot to fold, the fold hands back what it has. */
  lemma FoldLowDone(slots: seq<Option<Rope>>, j: int, pos: int, acc: Option<Rope>, nest: nat)
    requires SlotsGood(slots) && j == pos + 1 && 2 <= j && pos <= SLOTS - 2 && GoodOpt(acc)
    ensures FoldedLow(slots, j, pos, acc, nest)
  {
    assert FoldLow(slots, j, pos, acc, nest) == Ok((slots, acc));
    assert SlotText(slots, j, pos + 1) + StrOpt(acc) == StrOpt(acc) by { assert [] + StrOpt(acc) == StrOpt(acc); }
  }

  /** Before the fold goes on past an occupied slot: the cleared slots and
      the grown accumulator meet the fold's requirements. */
  lemma FoldLowTakenReady(slots: seq<Option<Rope>>, j: int, pos: int, acc: Option<Rope>, nest: nat,
                          cleared: seq<Option<Rope>>, joined: Option<Rope>)
    requires SlotsGood(slots) && 2 <= j <= pos && pos <= SLOTS - 2 && slots[j].Some?
    requires GoodOpt(acc) && |SlotText(slots, j, pos + 1)| + |StrOpt(acc)| <= MAX_LENGTH
    requires cleared == slots[j := None]
    requires GoodOpt(joined) && StrOpt(joined) == StrOpt(slots[j]) + StrOpt(acc)
    ensures SlotsGood(cleared)
    ensures SlotText(cleared, j + 1, pos + 1) == SlotText(slots, j + 1, pos + 1)
    ensures |SlotText(cleared, j + 1, pos + 1)| + |StrOpt(joined)| <= MAX_LENGTH
  {
    ClearedSlotsGood(slots, j);
    FoldLowTakenLength(slots, j, pos, acc, cleared, joined);
  }

  /** Emptying a slot keeps the slot invariant. */
  lemma ClearedSlotsGood(slots: seq<Option<Rope>>, j: int)
    requires SlotsGood(slots) && 2 <= j < SLOTS
    ensures SlotsGood(slots[j := None])
  {
    var cleared := slots[j := None];
    forall i | 2 <= i < SLOTS
      ensures GoodOpt(cleared[i])
    {
      if i != j {
        assert cleared[i] == slots[i];
      }
    }
  }

  lemma FoldLowTakenLength(slots: seq<Option<Rope>>, j: int, pos: int, acc: Option<Rope>,
                           cleared: seq<Option<Rope>>, joined: Option<Rope>)
    requires SlotsGood(slots) && 2 <= j <= pos && pos <= SLOTS - 2
    requires GoodOpt(acc) && |SlotText(slots, j, pos + 1)| + |StrOpt(acc)| <= MAX_LENGTH
    requires cleared == slots[j := None] && SlotsGood(cleared)
    requires GoodOpt(joined) && StrOpt(joined) == StrOpt(slots[j]) + StrOpt(acc)
    ensures SlotText(cleared, j + 1, pos + 1) == SlotText(slots, j + 1, pos + 1)
    ensures |SlotText(slots, j + 1, pos + 1)| + |StrOpt(joined)| <= MAX_LENGTH
  {
    SlotTextAgree(cleared, slots, j + 1, pos + 1);
    var rest, own := SlotText(slots, j + 1, pos + 1), StrOpt(slots[j]);
    assert SlotText(slots, j, pos + 1) == rest + own;
  }

  /** An occupied slot is absorbed into the accumulator and cleared. */
  lemma FoldLowTaken(slots: seq<Option<Rope>>, j: int, pos: int, acc: Option<Rope>, nest: nat,
                     cleared: seq<Option<Rope>>, joined: Option<Rope>)
    requires SlotsGood(slots) && 2 <= j <= pos && pos <= SLOTS - 2 && slots[j].Some?
    requires cleared == slots[j := None] && SlotsGood(cleared)
    requires SlotText(cleared, j + 1, pos + 1) == SlotText(slots, j + 1, pos + 1)
    requires GoodOpt(acc) && Absorb(slots[j], acc, nest) == Ok(joined) && GoodOpt(joined)
    requires StrOpt(joined) == StrOpt(slots[j]) + StrOpt(acc)
    requires FoldedLow(cleared, j + 1, pos, joined, nest)
    ensures FoldedLow(slots, j, pos, acc, nest)
  {
    var rest := SlotText(slots, j + 1, pos + 1);
    assert SlotText(slots, j, pos + 1) == rest + StrOpt(slots[j]);
    AppendAssoc(rest, StrOpt(slots[j]), StrOpt(acc));
    assert FoldLow(slots, j, pos, acc, nest) == FoldLow(cleared, j + 1, pos, joined, nest);
  }

  /** An empty slot is passed over. */
  lemma FoldLowSkipped(slots: seq<Option<Rope>>, j: int, pos: int, acc: Option<Rope>, nest: nat)
    requires SlotsGood(slots) && 2 <= j <= pos && pos <= SLOTS - 2 && slots[j].None? && GoodOpt(acc)
    requires FoldedLow(slots, j + 1, pos, acc, nest)
    ensures FoldedLow(slots, j, pos, acc, nest)
  {
    var rest := SlotText(slots, j + 1, pos + 1);
    assert SlotText(slots, j, pos + 1) == rest by { assert rest + [] == rest; }
    assert FoldLow(slots, j, pos, acc, nest) == FoldLow(slots, j + 1, pos, acc, nest);
  }

  /** What `FoldUpGood` states of one upward fold. */
  ghost predicate FoldedUp(slots: seq<Option<Rope>>, j: int, acc: Rope, nest: nat)
    requires SlotsGood(slots) && 2 <= j <= SLOTS - 1 && WellFormed(acc)
  {
    var res := FoldUp(slots, j, acc, nest);
    && res.Ok?
    && SlotsGood(res.value)
    && SlotText(res.value, 2, SLOTS) == SlotText(slots, j, SLOTS) + Str(acc)
  }

  lemma {:induction false} FoldUpGood(slots: seq<Option<Rope>>, j: int, acc: Rope, nest: nat)
    requires SlotsGood(slots) && 2 <= j <= SLOTS - 2
    requires Good(acc) && Fibonacci(j) <= Len(acc)
    requires forall i | 2 <= i < j :: slots[i].None?
    requires |SlotText(slots, j, SLOTS)| + Len(acc) <= MAX_LENGTH
    ensures FoldUp(slots, j, acc, nest).Ok?
    ensures SlotsGood(FoldUp(slots, j, acc, nest).value)
    ensures SlotText(FoldUp(slots, j, acc, nest).value, 2, SLOTS) == SlotText(slots, j, SLOTS) + Str(acc)
    decreases nest, 2, 0, SLOTS - j
  {
    PrependGood(slots[j], acc, nest);
    var absorbed := Prepend(slots[j], acc, nest).value;
    var cleared := slots[j := None];
    assert SlotsGood(cleared);
    SlotTextAgree(cleared, slots, j + 1, SLOTS);
    if InBucket(Len(absorbed), j) {
      FoldUpStored(slots, j, acc, nest, absorbed, cleared);
    } else {
      if j + 1 == SLOTS - 1 {
        FibonacciExceedsIntLengths(j + 1);
        assert false;
      }
      assert Len(absorbed) == |StrOpt(slots[j])| + Len(acc);
      FoldUpGood(cleared, j + 1, absorbed, nest);
      FoldUpCarried(slots, j, acc, nest, absorbed, cleared);
    }
  }

  /** The absorbed rope fits slot `j`: it is stored there. */
  lemma FoldUpStored(slots: seq<Option<Rope>>, j: int, acc: Rope, nest: nat, absorbed: Rope, cleared: seq<Option<Rope>>)
    requires SlotsGood(slots) && 2 <= j <= SLOTS - 2 && Good(acc)
    requires forall i | 2 <= i < j :: slots[i].None?
    requires Prepend(slots[j], acc, nest) == Ok(absorbed) && InBucket(Len(absorbed), j)
    requires Good(absorbed) && Str(absorbed) == StrOpt(slots[j]) + Str(acc)
    requires cleared == slots[j := None]
    ensures FoldedUp(slots, j, acc, nest)
  {
    var stored := cleared[j := Some(absorbed)];
    assert SlotsGood(stored);
    assert FoldUp(slots, j, acc, nest) == Ok(stored);
    var rest := SlotText(slots, j + 1, SLOTS);
    SlotTextAgree(stored, slots, j + 1, SLOTS);
    assert SlotText(stored, j, SLOTS) == rest + Str(absorbed);
    SlotTextEmpty(stored, 2, j);
    SlotTextSplit(stored, 2, j, SLOTS);
    assert SlotText(stored, 2, SLOTS) == rest + Str(absorbed) by {
      assert (rest + Str(absorbed)) + [] == rest + Str(absorbed);
    }
    AppendAssoc(rest, StrOpt(slots[j]), Str(acc));
    assert SlotText(slots, j, SLOTS) == rest + StrOpt(slots[j]);
  }

  /** The absorbed rope is too long for slot `j`: it is carried upward. */
  lemma FoldUpCarried(slots: seq<Option<Rope>>, j: int, acc: Rope, nest: nat, absorbed: Rope, cleared: seq<Option<Rope>>)
    requires SlotsGood(slots) && 2 <= j < SLOTS - 2 && Good(acc)
    requires Prepend(slots[j], acc, nest) == Ok(absorbed) && !InBucket(Len(absorbed), j)
    requires Good(absorbed) && Str(absorbed) == StrOpt(slots[j]) + Str(acc)
    requires cleared == slots[j := None] && SlotsGood(cleared)
    requires SlotText(cleared, j + 1, SLOTS) == SlotText(slots, j + 1, SLOTS)
    requires FoldedUp(cleared, j + 1, absorbed, nest)
    ensures FoldedUp(slots, j, acc, nest)
  {
    var rest := SlotText(slots, j + 1, SLOTS);
    assert FoldUp(slots, j, acc, nest) == FoldUp(cleared, j + 1, absorbed, nest);
    AppendAssoc(rest, StrOpt(slots[j]), Str(acc));
    assert SlotText(slots, j, SLOTS) == rest + StrOpt(slots[j]);
  }

  lemma {:induction false} CombineGood(slots: seq<Option<Rope>>, j: int, acc: Option<Rope>, nest: nat)
    requires SlotsGood(slots) && 2 <= j <= SLOTS
    requires GoodOpt(acc)
    requires |SlotText(slots, j, SLOTS)| + |StrOpt(acc)| <= MAX_LENGTH
    ensures Combine(slots, j, acc, nest).Ok?
    ensures GoodOpt(Combine(slots, j, acc, nest).value)
    ensures StrOpt(Combine(slots, j, acc, nest).value) == SlotText(slots, j, SLOTS) + StrOpt(acc)
    decreases nest, 2, 0, SLOTS - j
  {
    if j < SLOTS {
      AbsorbGood(slots[j], acc, nest);
      AppendAssoc(SlotText(slots, j + 1, SLOTS), StrOpt(slots[j]), StrOpt(acc));
      CombineGood(slots, j + 1, Absorb(slots[j], acc, nest).value, nest);
    }
  }

  /** The traversal of a stack `s1 + s2` is the traversal of `s1`
      followed by that of `s2`. */
  lemma {:induction false} DrainAppend(s1: seq<Rope>, s2: seq<Rope>, slots: seq<Option<Rope>>, nest: nat)
    requires |slots| == SLOTS
    ensures Drain(s1 + s2, slots, nest) ==
      match Drain(s1, slots, nest)
      case Ok(mid) => Drain(s2, mid, nest)
      case Err(e) => Err(e)
    decreases StackSize(s1)
  {
    if s1 == [] {
      assert s1 + s2 == s2;
    } else {
      var x := s1[0];
      assert (s1 + s2)[0] == x && (s1 + s2)[1..] == s1[1..] + s2;
      if x.Concat? {
        StackSizeExpand(s1);
        assert [x.left, x.right] + (s1 + s2)[1..] == ([x.left, x.right] + s1[1..]) + s2;
        DrainAppend([x.left, x.right] + s1[1..], s2, slots, nest);
      } else {
        var placed := Place(x, slots, nest);
        if placed.Ok? {
          DrainAppend(s1[1..], s2, placed.value, nest);
        }
      }
    }
  }

  /** A unit of length 0 lies in no bucket: its slot search runs to the
      last slot. */
  lemma {:induction false} FindSlotEmptyUnit(slots: seq<Option<Rope>>, pos: int, lowerEmpty: bool)
    requires |slots| == SLOTS && 2 <= pos <= SLOTS - 1
    ensures FindSlot(slots, 0, pos, lowerEmpty).0 == SLOTS - 1
    decreases SLOTS - pos
  {
    if pos < SLOTS - 1 {
      FibonacciPositive();
      FindSlotEmptyUnit(slots, pos + 1, lowerEmpty && slots[pos].None?);
    }
  }

  /** The final loop over empty slots yields its accumulator. */
  lemma {:induction false} CombineEmpty(slots: seq<Option<Rope>>, j: int, acc: Option<Rope>, nest: nat)
    requires |slots| == SLOTS && 2 <= j <= SLOTS
    requires forall i | j <= i < SLOTS :: slots[i].None?
    ensures Combine(slots, j, acc, nest) == Ok(acc)
    decreases SLOTS - j
  {
    if j < SLOTS {
      CombineEmpty(slots, j + 1, acc, nest);
    }
  }

  /** Placing a unit of length 0 while some slot is occupied empties every
      slot from 2 on: the folded rope, with the unit appended, is carried to
      the last slot and dropped there. */
  lemma PlaceEmptyUnit(x: Rope, slots: seq<Option<Rope>>, nest: nat)
    requires |slots| == SLOTS && !x.Concat? && Len(x) == 0
    requires exists i | 2 <= i < SLOTS - 1 :: slots[i].Some?
    ensures Place(x, slots, nest).Ok? ==> forall i | 2 <= i < SLOTS :: Place(x, slots, nest).value[i].None?
  {
    FindSlotEmptyUnit(slots, 2, true);
    var found := FindSlot(slots, Len(x), 2, true);
    var w :| 2 <= w < SLOTS - 1 && slots[w].Some?;
    assert found.0 == SLOTS - 1 && 2 <= w <= found.0;
    assert !found.1;
    PlaceTopFold(x, slots, nest);
  }

  /** A unit that `FindSlot` sends to the last slot with an occupied slot
      below it: what `Place` returns is the lower slots' fold alone, since
      the upward fold starts at the last slot and stores nothing. */
  lemma PlaceTopFold(x: Rope, slots: seq<Option<Rope>>, nest: nat)
    requires |slots| == SLOTS && FindSlot(slots, Len(x), 2, true) == (SLOTS - 1, false)
    ensures Place(x, slots, nest).Ok? ==>
      FoldLow(slots, 2, SLOTS - 1, None, nest).Ok?
      && Place(x, slots, nest).value == FoldLow(slots, 2, SLOTS - 1, None, nest).value.0
  {
    var folded := FoldLow(slots, 2, SLOTS - 1, None, nest);
    if folded.Ok? && folded.value.1.Some? {
      var joined := Concatenate(folded.value.1.value, x, nest);
      if joined.Ok? {
        assert FoldUp(folded.value.0, SLOTS - 1, joined.value, nest) == Ok(folded.value.0);
      }
    }
  }

  /** Draining a good rope into empty slots leaves some slot below the
      last one occupied. */
  lemma DrainOccupies(x: Rope, nest: nat)
    requires Good(x) && Len(x) <= MAX_LENGTH
    ensures Drain([x], EmptySlots(), nest).Ok?
    ensures exists i | 2 <= i < SLOTS - 1 :: Drain([x], EmptySlots(), nest).value[i].Some?
  {
    var empty := EmptySlots();
    SlotTextEmpty(empty, 2, SLOTS);
    assert StackStr([x]) == Str(x);
    DrainGood([x], empty, nest);
    var mid := Drain([x], empty, nest).value;
    NonEmptyUnitsLength(x);
    assert SlotText(mid, 2, SLOTS) == Str(x) != [];
    if forall i | 2 <= i < SLOTS :: mid[i].None? {
      SlotTextEmpty(mid, 2, SLOTS);
      assert false;
    }
    var i :| 2 <= i < SLOTS && mid[i].Some?;
    assert i < SLOTS - 1;
  }

  /** Content loss through a zero-length unit: whatever good rope `x` is,
      rebalancing `x` followed by an empty flat rope does not yield a rope
      at all (the Java method returns null). */
  lemma ZeroLengthUnitLost(x: Rope, isString: bool, nest: nat)
    requires Good(x) && Len(x) <= MAX_LENGTH
    ensures Rebalance(MkConcat(x, Flat([], isString)), nest).Err?
  {
    var e := Flat([], isString);
    var empty := EmptySlots();
    DrainOccupies(x, nest);
    var mid := Drain([x], empty, nest).value;
    var d := Drain([MkConcat(x, e)], empty, nest);
    assert d == Drain([x, e], empty, nest) by {
      assert [x, e] + [MkConcat(x, e)][1..] == [x, e];
    }
    DrainAppend([x], [e], empty, nest);
    assert [x] + [e] == [x, e];
    assert d == Drain([e], mid, nest);
    PlaceEmptyUnit(e, mid, nest);
    var placed := Place(e, mid, nest);
    if placed.Ok? {
      assert d == Ok(placed.value);
      CombineEmpty(placed.value, 2, None, nest);
    }
  }
}

/** ConcatenationRope, and the `charAt`, `subSequence`, `write`, `toString`
    and `rebalance` operations that dispatch over the three node kinds. */
module ConcatenationRopes {
  import opened Ropes
  import opened RopeUtilities
  import opened FlatRopes
  import opened SubstringRopes
  import opened RebalanceProofs

  /** `charAt(index)`. A flat rope defers to its sequence; a substring rope
      reads its base at `offset + index`, checking only the base's bounds;
      a concatenation checks its own bounds and descends into one child. */
  function CharAt(r: Rope, index: int): (res: Result<char>)
    requires WellFormed(r)
    ensures r.Flat? ==> (res.Ok? <==> 0 <= index < Len(r))
    ensures r.Sub? ==> (res.Ok? <==> 0 <= r.off + index < |r.base|)
    ensures r.Concat? ==> (res.Ok? <==> 0 <= index < Len(r))
    ensures !res.Ok? ==> res.error == IndexOutOfBounds
    ensures 0 <= index < Len(r) ==> res == Ok(Str(r)[index])
  {
    match r
    case Flat(s, _) =>
      if 0 <= index < |s| then Ok(s[index]) else Err(IndexOutOfBounds)
    case Sub(b, o, _) =>
      if 0 <= o + index < |b| then Ok(b[o + index]) else Err(IndexOutOfBounds)
    case Concat(left, right, _, n) =>
      if index < 0 || index >= n then Err(IndexOutOfBounds)
      else if index < Len(left) then CharAt(left, index)
      else CharAt(right, index - Len(left))
  }

  /** `subSequence(start, end)` of any rope. A concatenation rejects
      `start < 0` and `end > length()` itself, hands a range lying within
      one child to that child, and joins the two parts of a straddling
      range with `concatenate`. */
  function SubSequence(r: Rope, start: int, end: int): (res: Result<Rope>)
    requires WellFormed(r)
    ensures !r.Sub? && !(0 <= start <= end <= Len(r)) ==> res.Err?
    ensures r.Concat? && (start < 0 || end > Len(r)) ==> res == Err(IllegalArgument)
    ensures start > end ==> res.Err?
    decreases r
  {
    match r
    case Flat(s, isString) => FlatSubSequence(s, isString, start, end)
    case Sub(_, _, _) => SubSubSequence(r, start, end)
    case Concat(left, right, _, n) =>
      if start < 0 || end > n then Err(IllegalArgument)
      else if end <= Len(left) then SubSequence(left, start, end)
      else if start >= Len(left) then SubSequence(right, start - Len(left), end - Len(left))
      else
        var head :- SubSequence(left, start, Len(left));
        var tail :- SubSequence(right, 0, end - Len(left));
        Concatenate(head, tail, REBALANCE_NESTING)
  }

  /** A range inside a rope less than MAX_ROPE_DEPTH levels high yields
      the matching slice of its text, whatever the lengths of its units; no
      rebalancing happens, and the result is at most one level higher than
      the rope (a flat rope's slice may be a substring rope). */
  lemma {:induction false} SubSequenceShallow(r: Rope, start: int, end: int)
    requires WellFormed(r) && Height(r) < MAX_ROPE_DEPTH && 0 <= start <= end <= Len(r)
    ensures SubSequence(r, start, end).Ok?
    ensures WellFormed(SubSequence(r, start, end).value)
    ensures Str(SubSequence(r, start, end).value) == Str(r)[start..end]
    ensures Height(SubSequence(r, start, end).value) <= Height(r) + 1
    decreases r, 2
  {
    if r.Concat? {
      if start < Len(r.left) < end {
        SubSequenceStraddleShallow(r, start, end);
        SliceOfAppend(Str(r.left), Str(r.right), start, end);
      } else {
        SubSequenceChildShallow(r, start, end);
      }
    }
  }

  /** A range of such a rope lying within one child is that child's
      range. */
  lemma {:induction false} SubSequenceChildShallow(r: Rope, start: int, end: int)
    requires r.Concat? && WellFormed(r) && Height(r) < MAX_ROPE_DEPTH
    requires 0 <= start <= end <= Len(r) && !(start < Len(r.left) < end)
    ensures SubSequence(r, start, end).Ok?
    ensures WellFormed(SubSequence(r, start, end).value)
    ensures Str(SubSequence(r, start, end).value) == Str(r)[start..end]
    ensures Height(SubSequence(r, start, end).value) <= Height(r) + 1
    decreases r, 1
  {
    var left, right := r.left, r.right;
    var l := Len(left);
    assert Str(r) == Str(left) + Str(right);
    assert Height(left) < Height(r) && Height(right) < Height(r);
    SliceOfAppend(Str(left), Str(right), start, end);
    SubSequenceInChild(r, start, end);
    if end <= l {
      SubSequenceShallow(left, start, end);
    } else {
      SubSequenceShallow(right, start - l, end - l);
    }
  }

  /** A range of a concatenation lying within one child is that child's
      range. */
  lemma SubSequenceInChild(r: Rope, start: int, end: int)
    requires r.Concat? && WellFormed(r) && 0 <= start <= end <= Len(r)
    ensures end <= Len(r.left) ==> SubSequence(r, start, end) == SubSequence(r.left, start, end)
    ensures start >= Len(r.left) && end > Len(r.left) ==>
      SubSequence(r, start, end) == SubSequence(r.right, start - Len(r.left), end - Len(r.left))
  {
  }

  /** A straddling range of such a rope: the two cut parts are joined
      without rebalancing. */
  lemma {:induction false} SubSequenceStraddleShallow(r: Rope, start: int, end: int)
    requires r.Concat? && WellFormed(r) && Height(r) < MAX_ROPE_DEPTH
    requires 0 <= start < Len(r.left) < end <= Len(r)
    ensures SubSequence(r, start, end).Ok?
    ensures WellFormed(SubSequence(r, start, end).value)
    ensures Str(SubSequence(r, start, end).value) == Str(r.left)[start..] + Str(r.right)[..end - Len(r.left)]
    ensures Height(SubSequence(r, start, end).value) <= Height(r) + 1
    decreases r, 0
  {
    var left, right := r.left, r.right;
    var l := Len(left);
    SubSequenceShallow(left, start, l);
    SubSequenceShallow(right, 0, end - l);
    var head := SubSequence(left, start, l).value;
    var tail := SubSequence(right, 0, end - l).value;
    assert Str(left)[start..l] == Str(left)[start..];
    ConcatenateShallow(head, tail, REBALANCE_NESTING);
    assert SubSequence(r, start, end) == Concatenate(head, tail, REBALANCE_NESTING);
  }

  /** A range inside a rope made of non-empty units yields the matching
      slice of its text, again as a rope made of non-empty units when the
      range is not empty. */
  lemma {:induction false} SubSequenceGood(r: Rope, start: int, end: int)
    requires Good(r) && Len(r) <= MAX_LENGTH && 0 <= start <= end <= Len(r)
    ensures SubSequence(r, start, end).Ok?
    ensures WellFormed(SubSequence(r, start, end).value)
    ensures Str(SubSequence(r, start, end).value) == Str(r)[start..end]
    ensures start < end ==> Good(SubSequence(r, start, end).value)
    decreases r, 2
  {
    if r.Concat? {
      SubSequenceConcatGood(r, start, end);
    }
  }

  lemma {:induction false} SubSequenceConcatGood(r: Rope, start: int, end: int)
    requires r.Concat? && Good(r) && Len(r) <= MAX_LENGTH && 0 <= start <= end <= Len(r)
    ensures SubSequence(r, start, end).Ok?
    ensures WellFormed(SubSequence(r, start, end).value)
    ensures Str(SubSequence(r, start, end).value) == Str(r)[start..end]
    ensures start < end ==> Good(SubSequence(r, start, end).value)
    decreases r, 1
  {
    var left, right := r.left, r.right;
    var l := Len(left);
    assert Str(r) == Str(left) + Str(right);
    SliceOfAppend(Str(left), Str(right), start, end);
    if end <= l {
      SubSequenceGood(left, start, end);
    } else if start >= l {
      SubSequenceGood(right, start - l, end - l);
    } else {
      SubSequenceStraddleGood(r, start, end);
    }
  }

  /** A range straddling the two children: both parts are cut and joined. */
  lemma {:induction false} SubSequenceStraddleGood(r: Rope, start: int, end: int)
    requires r.Concat? && Good(r) && Len(r) <= MAX_LENGTH
    requires 0 <= start < Len(r.left) < end <= Len(r)
    ensures SubSequence(r, start, end).Ok?
    ensures WellFormed(SubSequence(r, start, end).value)
    ensures Str(SubSequence(r, start, end).value) == Str(r)[start..end]
    ensures Good(SubSequence(r, start, end).value)
    decreases r, 0
  {
    var left, right := r.left, r.right;
    var l := Len(left);
    SubSequenceGood(left, start, l);
    SubSequenceGood(right, 0, end - l);
    var head := SubSequence(left, start, l).value;
    var tail := SubSequence(right, 0, end - l).value;
    assert Str(left)[start..l] == Str(left)[start..];
    StraddleJoin(r, start, end, head, tail);
  }

  /** The two cut parts of a straddling range, joined, give the range. */
  lemma StraddleJoin(r: Rope, start: int, end: int, head: Rope, tail: Rope)
    requires r.Concat? && WellFormed(r) && end - start <= MAX_LENGTH
    requires 0 <= start < Len(r.left) < end <= Len(r)
    requires SubSequence(r.left, start, Len(r.left)) == Ok(head)
    requires SubSequence(r.right, 0, end - Len(r.left)) == Ok(tail)
    requires Good(head) && Str(head) == Str(r.left)[start..]
    requires Good(tail) && Str(tail) == Str(r.right)[..end - Len(r.left)]
    ensures SubSequence(r, start, end).Ok?
    ensures Good(SubSequence(r, start, end).value)
    ensures Str(SubSequence(r, start, end).value) == Str(r)[start..end]
  {
    var a, b := Str(r.left), Str(r.right);
    assert Str(r) == a + b;
    SliceOfAppend(a, b, start, end);
    assert Len(head) + Len(tail) == end - start;
    ConcatenateGood(head, tail, REBALANCE_NESTING);
    StraddleCut(r, start, end, head, tail);
  }

  /** A straddling range is cut from both children and joined. */
  lemma StraddleCut(r: Rope, start: int, end: int, head: Rope, tail: Rope)
    requires r.Concat? && WellFormed(r)
    requires 0 <= start < Len(r.left) < end <= Len(r)
    requires SubSequence(r.left, start, Len(r.left)) == Ok(head)
    requires SubSequence(r.right, 0, end - Len(r.left)) == Ok(tail)
    ensures SubSequence(r, start, end) == Concatenate(head, tail, REBALANCE_NESTING)
  {
  }

  /** `rebalance()`: flat and substring ropes return themselves, a
      concatenation goes through the Fibonacci-bucket rebalance. */
  function RebalanceRope(r: Rope): (res: Result<Rope>)
    ensures IsAtomic(r) ==> res == Ok(r)
  {
    if IsAtomic(r) then Ok(r) else Rebalance(r, REBALANCE_NESTING)
  }

  /** Rebalancing any rope made of non-empty units keeps its text. */
  lemma RebalanceRopeGood(r: Rope)
    requires Good(r) && Len(r) <= MAX_LENGTH
    ensures RebalanceRope(r).Ok?
    ensures Good(RebalanceRope(r).value) && Str(RebalanceRope(r).value) == Str(r)
  {
    if r.Concat? {
      RebalanceGood(r, REBALANCE_NESTING);
    }
  }

  /** `write(out)`: a flat rope writes its whole sequence, a substring rope
      writes its range of the base, a concatenation writes its left child
      and then its right child. */
  method Write(r: Rope, out: Writer)
    requires WellFormed(r)
    modifies out
    ensures out.written == old(out.written) + Str(r)
    decreases r
  {
    match r
    case Flat(s, isString) =>
      FlatWriteAll(s, isString, out);
    case Sub(b, o, n) =>
      var res := FlatWrite(b, false, out, o, n);
    case Concat(left, right, _, _) =>
      Write(left, out);
      Write(right, out);
      AppendAssoc(old(out.written), Str(left), Str(right));
  }

  /** `toString()`: the sequence itself for a flat rope, the range of the
      base for a substring rope, and everything `write` emits into a fresh
      writer for a concatenation. */
  method ToString(r: Rope) returns (s: seq<char>)
    requires WellFormed(r)
    ensures s == Str(r)
  {
    match r
    case Flat(t, _) =>
      s := t;
    case Sub(b, o, n) =>
      s := b[o..o + n];
    case Concat(_, _, _, _) =>
      var out := new Writer();
      Write(r, out);
      s := out.written;
  }

  /** What FlatRope's `write(out, offset, length)` emits and how it ends. */
  function FlatRangeWritten(s: seq<char>, isString: bool, offset: int, length: int): (w: (seq<char>, Outcome))
    ensures w.1.Pass? <==> 0 <= offset && offset + length <= |s| && (0 <= length || !isString)
    ensures w.1.Pass? && length > 0 ==> w.0 == s[offset..offset + length]
    ensures w.1.Fail? || length <= 0 ==> w.0 == []
  {
    if offset < 0 || offset + length > |s| || (isString && length < 0) then ([], Fail(IndexOutOfBounds))
    else if length > 0 then (s[offset..offset + length], Pass)
    else ([], Pass)
  }

  /** What `write(out, offset, length)` emits, and how it ends, as the
      three overrides are written: a flat rope checks the range against its
      sequence; a substring rope asks its base for `len + length`
      characters from `off + offset`; a concatenation splits a straddling
      range and asks the right child for `right.length() - writeLeft`
      characters. */
  ghost function RangeWritten(r: Rope, offset: int, length: int): (seq<char>, Outcome)
    requires WellFormed(r)
    decreases r
  {
    match r
    case Flat(s, isString) => FlatRangeWritten(s, isString, offset, length)
    case Sub(b, o, n) => FlatRangeWritten(b, false, o + offset, n + length)
    case Concat(left, right, _, _) =>
      if offset + length < Len(left) then RangeWritten(left, offset, length)
      else if offset >= Len(left) then RangeWritten(right, offset - Len(left), length)
      else
        var writeLeft := Len(left) - offset;
        var (a, ra) := RangeWritten(left, offset, writeLeft);
        if ra.Fail? then (a, ra)
        else
          var (b, rb) := RangeWritten(right, 0, Len(right) - writeLeft);
          (a + b, rb)
  }

  /** `write(out, offset, length)` of any rope, as written. */
  method WriteRange(r: Rope, out: Writer, offset: int, length: int) returns (res: Outcome)
    requires WellFormed(r)
    modifies out
    ensures out.written == old(out.written) + RangeWritten(r, offset, length).0
    ensures res == RangeWritten(r, offset, length).1
    decreases r
  {
    match r
    case Flat(s, isString) =>
      res := FlatWrite(s, isString, out, offset, length);
    case Sub(b, o, n) =>
      res := FlatWrite(b, false, out, o + offset, n + length);
    case Concat(left, right, _, _) =>
      if offset + length < Len(left) {
        res := WriteRange(left, out, offset, length);
      } else if offset >= Len(left) {
        res := WriteRange(right, out, offset - Len(left), length);
      } else {
        ghost var before := out.written;
        var writeLeft := Len(left) - offset;
        res := WriteRange(left, out, offset, writeLeft);
        if res.Fail? {
          return;
        }
        ghost var a := RangeWritten(left, offset, writeLeft).0;
        res := WriteRange(right, out, 0, Len(right) - writeLeft);
        AppendAssoc(before, a, RangeWritten(right, 0, Len(right) - writeLeft).0);
      }
  }

  /** Asked for the first two characters of an eight-character window, a
      substring rope writes ten: its length is added to the one asked
      for. */
  lemma SubstringRangeWriteOverrun()
    ensures var r := Sub("abcdefghij", 0, 8);
      WellFormed(r) && Str(r)[0..2] == "ab" && RangeWritten(r, 0, 2) == ("abcdefghij", Pass)
  {
    var r := Sub("abcdefghij", 0, 8);
    assert Str(r) == "abcdefgh";
    assert FlatRangeWritten("abcdefghij", false, 0, 10) == ("abcdefghij"[0..10], Pass);
    assert "abcdefghij"[0..10] == "abcdefghij";
  }

  /** Asked for "ab" of "a" + "bcd", a concatenation writes "abc": the
      right child is asked for its own length less the left part, not for
      the rest of the requested length. */
  lemma ConcatRangeWriteOverrun()
    ensures var r := MkConcat(Flat("a", true), Flat("bcd", true));
      WellFormed(r) && Str(r)[0..2] == "ab" && RangeWritten(r, 0, 2) == ("abc", Pass)
  {
    var left, right := Flat("a", true), Flat("bcd", true);
    var r := MkConcat(left, right);
    assert Len(left) == 1 && Len(right) == 3;
    var a, b := "a"[0..1], "bcd"[0..2];
    assert a == "a" && b == "bc";
    assert RangeWritten(left, 0, 1) == (a, Pass);
    assert RangeWritten(right, 0, 2) == (b, Pass);
    assert RangeWritten(r, 0, 2) == (a + b, Pass);
    assert a + b == "abc";
    assert Str(r) == "abcd";
    assert Str(r)[0..2] == "ab";
  }

  /** The range write with the lengths the overrides evidently intend: a
      substring rope checks the range against its own length and asks its
      base for `length` characters; a concatenation asks the right child
      for `length - writeLeft`. */
  ghost function RangeWrittenFixed(r: Rope, offset: int, length: int): (seq<char>, Outcome)
    requires WellFormed(r)
    decreases r
  {
    match r
    case Flat(s, isString) => FlatRangeWritten(s, isString, offset, length)
    case Sub(b, o, n) =>
      if offset < 0 || length < 0 || offset + length > n then ([], Fail(IndexOutOfBounds))
      else FlatRangeWritten(b, false, o + offset, length)
    case Concat(left, right, _, _) =>
      if offset + length < Len(left) then RangeWrittenFixed(left, offset, length)
      else if offset >= Len(left) then RangeWrittenFixed(right, offset - Len(left), length)
      else
        var writeLeft := Len(left) - offset;
        var (a, ra) := RangeWrittenFixed(left, offset, writeLeft);
        if ra.Fail? then (a, ra)
        else
          var (b, rb) := RangeWrittenFixed(right, 0, length - writeLeft);
          (a + b, rb)
  }

  /** The corrected range write emits exactly the requested range of the
      text. */
  lemma {:induction false} RangeWrittenFixedExact(r: Rope, offset: int, length: int)
    requires WellFormed(r) && 0 <= offset && 0 <= length && offset + length <= Len(r)
    ensures RangeWrittenFixed(r, offset, length) == (Str(r)[offset..offset + length], Pass)
    decreases r
  {
    match r
    case Flat(s, isString) =>
      FlatRangeExact(s, isString, offset, length);
    case Sub(b, o, n) =>
      SliceOfSlice(b, o, o + n, offset, offset + length);
      FlatRangeExact(b, false, o + offset, length);
    case Concat(left, right, _, _) =>
      var l := Len(left);
      if offset + length < l {
        RangeWrittenFixedExact(left, offset, length);
        FixedOneSide(r, offset, length);
      } else if offset >= l {
        RangeWrittenFixedExact(right, offset - l, length);
        FixedOneSide(r, offset, length);
      } else {
        RangeWrittenFixedExact(left, offset, l - offset);
        RangeWrittenFixedExact(right, 0, length - (l - offset));
        FixedStraddle(r, offset, length);
      }
  }

  /** A flat rope asked for a range inside it writes exactly that range. */
  lemma FlatRangeExact(s: seq<char>, isString: bool, offset: int, length: int)
    requires 0 <= offset && 0 <= length && offset + length <= |s|
    ensures FlatRangeWritten(s, isString, offset, length) == (s[offset..offset + length], Pass)
  {
    if length == 0 {
      assert s[offset..offset + length] == [];
    }
  }

  /** The cases of `RangeWrittenFixedExact` where the range lies in one
      child: that child's write is the concatenation's. */
  lemma FixedOneSide(r: Rope, offset: int, length: int)
    requires WellFormed(r) && r.Concat? && 0 <= offset && 0 <= length && offset + length <= Len(r)
    requires offset + length < Len(r.left) || offset >= Len(r.left)
    requires offset + length < Len(r.left) ==>
      RangeWrittenFixed(r.left, offset, length) == (Str(r.left)[offset..offset + length], Pass)
    requires offset >= Len(r.left) ==>
      RangeWrittenFixed(r.right, offset - Len(r.left), length)
        == (Str(r.right)[offset - Len(r.left)..offset + length - Len(r.left)], Pass)
    ensures RangeWrittenFixed(r, offset, length) == (Str(r)[offset..offset + length], Pass)
  {
    SliceOfAppend(Str(r.left), Str(r.right), offset, offset + length);
  }

  /** The straddling case of `RangeWrittenFixedExact`: the two parts the
      children write join into the requested range. */
  lemma FixedStraddle(r: Rope, offset: int, length: int)
    requires WellFormed(r) && r.Concat? && 0 <= offset < Len(r.left) <= offset + length <= Len(r)
    requires RangeWrittenFixed(r.left, offset, Len(r.left) - offset)
      == (Str(r.left)[offset..Len(r.left)], Pass)
    requires RangeWrittenFixed(r.right, 0, offset + length - Len(r.left))
      == (Str(r.right)[0..offset + length - Len(r.left)], Pass)
    ensures RangeWrittenFixed(r, offset, length) == (Str(r)[offset..offset + length], Pass)
  {
    var l := Len(r.left);
    var a, b := Str(r.left)[offset..l], Str(r.right)[0..offset + length - l];
    SliceOfAppend(Str(r.left), Str(r.right), offset, offset + length);
    assert Str(r.left)[offset..] == a;
    assert Str(r.right)[..offset + length - l] == b;
    assert RangeWrittenFixed(r, offset, length) == (a + b, Pass);
  }
}

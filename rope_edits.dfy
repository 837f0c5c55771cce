/** The editing operations every rope inherits from AbstractRope: the three
    `append` overloads, `delete` and `insert`, all built from `subSequence`
    and `concatenate`. */
module RopeEdits {
  import opened Ropes
  import opened RopeUtilities
  import opened ConcatenationRopes
  import opened RebalanceProofs

  /** A `CharSequence` argument: plain characters (a `String` when
      `isString`) or a rope. */
  datatype CharSeq = Chars(chars: seq<char>, isString: bool) | RopeArg(rope: Rope)

  ghost predicate ArgWellFormed(c: CharSeq) {
    c.RopeArg? ==> WellFormed(c.rope)
  }

  ghost function ArgStr(c: CharSeq): seq<char>
    requires ArgWellFormed(c)
  {
    if c.Chars? then c.chars else Str(c.rope)
  }

  /** `Rope.BUILDER.build(csq)`: a rope is used as it is, any other
      sequence becomes a flat rope over it. */
  function Build(c: CharSeq): (r: Rope)
    ensures ArgWellFormed(c) ==> WellFormed(r) && Str(r) == ArgStr(c)
  {
    if c.Chars? then Flat(c.chars, c.isString) else c.rope
  }

  /** `append(c)`: the character as a one-character `String` rope. */
  function AppendChar(r: Rope, c: char): (res: Result<Rope>)
    ensures r.Flat? && |r.s| + 1 < MERGE_THRESHOLD ==> res == Ok(Flat(r.s + [c], true))
  {
    Concatenate(r, Flat([c], true), REBALANCE_NESTING)
  }

  /** `append(suffix)`. */
  function Append(r: Rope, suffix: CharSeq): (res: Result<Rope>)
    ensures r.Flat? && suffix.Chars? && |r.s| + |suffix.chars| < MERGE_THRESHOLD ==>
      res == Ok(Flat(r.s + suffix.chars, true))
  {
    Concatenate(r, Build(suffix), REBALANCE_NESTING)
  }

  /** `append(csq, start, end)`: the range of the argument, cut by its own
      `subSequence`, then appended. */
  function AppendRange(r: Rope, csq: CharSeq, start: int, end: int): (res: Result<Rope>)
    requires ArgWellFormed(csq)
    ensures !Build(csq).Sub? && !(0 <= start <= end <= |ArgStr(csq)|) ==> res.Err?
  {
    var piece :- SubSequence(Build(csq), start, end);
    Concatenate(r, piece, REBALANCE_NESTING)
  }

  /** `delete(start, end)` as written: the same rope when `start == end`,
      otherwise the part before `start` joined to the part from `end` on.
      Neither `start <= end` nor `end <= length()` is checked here. */
  function Delete(r: Rope, start: int, end: int): (res: Result<Rope>)
    requires WellFormed(r)
    ensures start == end ==> res == Ok(r)
    ensures !r.Sub? && start != end && !(0 <= start <= Len(r)) ==> res.Err?
    ensures !r.Sub? && start != end && end > Len(r) ==> res.Err?
  {
    if start == end then Ok(r)
    else
      var head :- SubSequence(r, 0, start);
      var tail :- SubSequence(r, end, Len(r));
      Concatenate(head, tail, REBALANCE_NESTING)
  }

  /** `delete` with the checks its interface documents: a negative
      `start`, a `start` beyond the length or beyond `end` fails, an `end`
      beyond the length stands for the length, and a piece that would be
      empty is not joined. */
  function DeleteChecked(r: Rope, start: int, end: int): (res: Result<Rope>)
    requires WellFormed(r)
    ensures start < 0 || start > Len(r) || start > end ==> res == Err(IndexOutOfBounds)
    ensures 0 <= start <= Len(r) && start <= end && (start == end || start == Len(r)) ==> res == Ok(r)
  {
    if start < 0 || start > Len(r) || start > end then Err(IndexOutOfBounds)
    else
      var e := if end > Len(r) then Len(r) else end;
      if start == e then Ok(r)
      else if start == 0 && e == Len(r) then Ok(Flat([], true))
      else if start == 0 then SubSequence(r, e, Len(r))
      else if e == Len(r) then SubSequence(r, 0, start)
      else
        var head :- SubSequence(r, 0, start);
        var tail :- SubSequence(r, e, Len(r));
        Concatenate(head, tail, REBALANCE_NESTING)
  }

  /** The text `insert` adds: "null" for a null argument. */
  function Inserted(s: Option<CharSeq>): (piece: Rope) {
    if s.None? then Flat("null", true) else Build(s.value)
  }

  /** `insert(dstOffset, s)`: prepends at 0, appends at the length, fails
      outside that range and splices in between. */
  function Insert(r: Rope, dstOffset: int, s: Option<CharSeq>): (res: Result<Rope>)
    requires WellFormed(r) && (s.Some? ==> ArgWellFormed(s.value))
    ensures dstOffset < 0 || dstOffset > Len(r) ==> res == Err(IndexOutOfBounds)
  {
    var piece := Inserted(s);
    assert Len(r) == |Str(r)|;
    if dstOffset == 0 then Concatenate(piece, r, REBALANCE_NESTING)
    else if dstOffset == Len(r) then Concatenate(r, piece, REBALANCE_NESTING)
    else if dstOffset < 0 || dstOffset > Len(r) then Err(IndexOutOfBounds)
    else Splice(r, dstOffset, piece)
  }

  /** Appending a character extends the text by that character. */
  lemma AppendCharContent(r: Rope, c: char)
    requires Good(r) && Len(r) < MAX_LENGTH
    ensures AppendChar(r, c).Ok? && Good(AppendChar(r, c).value)
    ensures Str(AppendChar(r, c).value) == Str(r) + [c]
  {
    ConcatenateGood(r, Flat([c], true), REBALANCE_NESTING);
  }

  /** Appending a non-empty sequence extends the text by it. */
  lemma AppendContent(r: Rope, suffix: CharSeq)
    requires Good(r) && ArgWellFormed(suffix) && Good(Build(suffix))
    requires Len(r) + Len(Build(suffix)) <= MAX_LENGTH
    ensures Append(r, suffix).Ok? && Good(Append(r, suffix).value)
    ensures Str(Append(r, suffix).value) == Str(r) + ArgStr(suffix)
  {
    ConcatenateGood(r, Build(suffix), REBALANCE_NESTING);
  }

  /** Appending a non-empty range of an argument extends the text by
      exactly that range. */
  lemma AppendRangeContent(r: Rope, csq: CharSeq, start: int, end: int)
    requires Good(r) && ArgWellFormed(csq) && Good(Build(csq)) && Len(Build(csq)) <= MAX_LENGTH
    requires 0 <= start < end <= |ArgStr(csq)| && Len(r) + (end - start) <= MAX_LENGTH
    ensures AppendRange(r, csq, start, end).Ok? && Good(AppendRange(r, csq, start, end).value)
    ensures Str(AppendRange(r, csq, start, end).value) == Str(r) + ArgStr(csq)[start..end]
  {
    SubSequenceGood(Build(csq), start, end);
    var piece := SubSequence(Build(csq), start, end).value;
    ConcatenateGood(r, piece, REBALANCE_NESTING);
  }

  /** Appending to a rope too shallow ever to be rebalanced extends its
      text by the argument's, an empty one included. */
  lemma AppendShallowContent(r: Rope, suffix: CharSeq)
    requires WellFormed(r) && Height(r) < MAX_ROPE_DEPTH
    requires ArgWellFormed(suffix) && Height(Build(suffix)) < MAX_ROPE_DEPTH
    ensures Append(r, suffix).Ok? && WellFormed(Append(r, suffix).value)
    ensures Str(Append(r, suffix).value) == Str(r) + ArgStr(suffix)
  {
    ConcatenateShallow(r, Build(suffix), REBALANCE_NESTING);
  }

  /** Appending any range of an argument, an empty one included, to a
      rope too shallow ever to be rebalanced extends its text by exactly
      that range. */
  lemma AppendRangeShallowContent(r: Rope, csq: CharSeq, start: int, end: int)
    requires WellFormed(r) && Height(r) < MAX_ROPE_DEPTH
    requires ArgWellFormed(csq) && Height(Build(csq)) < MAX_ROPE_DEPTH - 1
    requires 0 <= start <= end <= |ArgStr(csq)|
    ensures AppendRange(r, csq, start, end).Ok? && WellFormed(AppendRange(r, csq, start, end).value)
    ensures Str(AppendRange(r, csq, start, end).value) == Str(r) + ArgStr(csq)[start..end]
  {
    SubSequenceShallow(Build(csq), start, end);
    var piece := SubSequence(Build(csq), start, end).value;
    ConcatenateShallow(r, piece, REBALANCE_NESTING);
  }

  /** `delete(start, end)` of a rope made of non-empty units, with both
      pieces non-empty, yields the text before `start` followed by the text
      from `end` on. With `start > end` nothing fails: the text between the
      two indices comes out twice and the rope grows. */
  lemma DeleteContent(r: Rope, start: int, end: int)
    requires Good(r) && Len(r) <= MAX_LENGTH
    requires 0 < start <= Len(r) && 0 <= end < Len(r) && start != end
    requires start + (Len(r) - end) <= MAX_LENGTH
    ensures Delete(r, start, end).Ok? && Good(Delete(r, start, end).value)
    ensures Str(Delete(r, start, end).value) == Str(r)[..start] + Str(r)[end..]
    ensures start > end ==> Len(Delete(r, start, end).value) == Len(r) + (start - end)
  {
    SubSequenceGood(r, 0, start);
    SubSequenceGood(r, end, Len(r));
    var head := SubSequence(r, 0, start).value;
    var tail := SubSequence(r, end, Len(r)).value;
    ConcatenateGood(head, tail, REBALANCE_NESTING);
    assert Delete(r, start, end) == Concatenate(head, tail, REBALANCE_NESTING);
    var d := Delete(r, start, end).value;
    assert Len(d) == |Str(d)|;
  }

  /** `delete(start, end)` of a rope too shallow ever to be rebalanced,
      for any two indices within it: `delete(0, k)`, `delete(k, length())`
      and ranges over empty units included. The result is the text before
      `start` followed by the text from `end` on. */
  lemma DeleteShallowContent(r: Rope, start: int, end: int)
    requires WellFormed(r) && Height(r) < MAX_ROPE_DEPTH - 1
    requires 0 <= start <= Len(r) && 0 <= end <= Len(r)
    ensures Delete(r, start, end).Ok? && WellFormed(Delete(r, start, end).value)
    ensures Str(Delete(r, start, end).value) == Str(r)[..start] + Str(r)[end..]
  {
    var text := Str(r);
    if start == end {
      assert text[..start] + text[end..] == text;
    } else {
      SubSequenceShallow(r, 0, start);
      SubSequenceShallow(r, end, Len(r));
      var head := SubSequence(r, 0, start).value;
      var tail := SubSequence(r, end, Len(r)).value;
      assert text[0..start] == text[..start] && text[end..Len(r)] == text[end..];
      DeleteJoinShallow(r, start, end, head, tail);
    }
  }

  /** The two pieces of such a delete, joined without rebalancing. */
  lemma DeleteJoinShallow(r: Rope, start: int, end: int, head: Rope, tail: Rope)
    requires WellFormed(r) && start != end
    requires SubSequence(r, 0, start) == Ok(head) && SubSequence(r, end, Len(r)) == Ok(tail)
    requires WellFormed(head) && Height(head) < MAX_ROPE_DEPTH
    requires WellFormed(tail) && Height(tail) < MAX_ROPE_DEPTH
    ensures Delete(r, start, end).Ok? && WellFormed(Delete(r, start, end).value)
    ensures Str(Delete(r, start, end).value) == Str(head) + Str(tail)
  {
    assert Delete(r, start, end) == Concatenate(head, tail, REBALANCE_NESTING);
    ConcatenateShallow(head, tail, REBALANCE_NESTING);
  }

  /** Deleting the tail of a long string rope leaves an empty flat rope as
      the right child, and `rebalance` of that rope yields no rope at
      all. */
  lemma DeleteToEndLosesText(s: seq<char>, start: int)
    requires MERGE_THRESHOLD <= start < |s| <= MAX_LENGTH
    ensures Delete(Flat(s, true), start, |s|) == Ok(MkConcat(Flat(s[..start], true), Flat([], true)))
    ensures !NonEmptyUnits(Delete(Flat(s, true), start, |s|).value)
    ensures RebalanceRope(Delete(Flat(s, true), start, |s|).value).Err?
  {
    var head, tail := Flat(s[..start], true), Flat([], true);
    assert SubSequence(Flat(s, true), 0, start) == Ok(head);
    assert SubSequence(Flat(s, true), |s|, |s|) == Ok(tail);
    assert Concatenate(head, tail, REBALANCE_NESTING) == AutoRebalance(MkConcat(head, tail), REBALANCE_NESTING);
    ZeroLengthUnitLost(head, true, REBALANCE_NESTING);
  }

  /** The checked delete removes exactly the documented range, and its
      result, when not empty, is again made of non-empty units. */
  lemma DeleteCheckedContent(r: Rope, start: int, end: int)
    requires Good(r) && Len(r) <= MAX_LENGTH && 0 <= start <= Len(r) && start <= end
    ensures DeleteChecked(r, start, end).Ok?
    ensures WellFormed(DeleteChecked(r, start, end).value)
    ensures var e := if end > Len(r) then Len(r) else end;
      Str(DeleteChecked(r, start, end).value) == Str(r)[..start] + Str(r)[e..]
    ensures var e := if end > Len(r) then Len(r) else end;
      start > 0 || e < Len(r) ==> Good(DeleteChecked(r, start, end).value)
  {
    var e := if end > Len(r) then Len(r) else end;
    var d := DeleteChecked(r, start, end);
    var text := Str(r);
    if start == e {
      assert d == Ok(r);
      assert text[..start] + text[e..] == text;
    } else if start == 0 && e == Len(r) {
      assert d == Ok(Flat([], true));
      assert text[..start] + text[e..] == [];
    } else if start == 0 || e == Len(r) {
      DeleteCheckedEdge(r, start, e);
    } else {
      assert d == Delete(r, start, e);
      DeleteCheckedInner(r, start, e);
    }
  }

  /** One of the pieces of the checked delete is empty: the other one is
      the result. */
  lemma DeleteCheckedEdge(r: Rope, start: int, e: int)
    requires Good(r) && Len(r) <= MAX_LENGTH && 0 <= start < e <= Len(r)
    requires (start == 0) != (e == Len(r))
    ensures var d := if start == 0 then SubSequence(r, e, Len(r)) else SubSequence(r, 0, start);
      d.Ok? && Good(d.value) && Str(d.value) == Str(r)[..start] + Str(r)[e..]
  {
    var text := Str(r);
    if start == 0 {
      SubSequenceGood(r, e, Len(r));
      assert text[..start] + text[e..] == text[e..Len(r)];
    } else {
      SubSequenceGood(r, 0, start);
      assert text[..start] + text[e..] == text[0..start];
    }
  }

  /** Both pieces of the checked delete are non-empty: it joins them as
      `delete` does. */
  lemma DeleteCheckedInner(r: Rope, start: int, e: int)
    requires Good(r) && Len(r) <= MAX_LENGTH && 0 < start < e < Len(r)
    ensures Delete(r, start, e).Ok? && Good(Delete(r, start, e).value)
    ensures Str(Delete(r, start, e).value) == Str(r)[..start] + Str(r)[e..]
  {
    DeleteContent(r, start, e);
  }

  /** What the checked delete returns survives a later `rebalance`. */
  lemma DeleteCheckedRebalance(r: Rope, start: int, end: int)
    requires Good(r) && Len(r) <= MAX_LENGTH && 0 <= start <= Len(r) && start <= end
    requires start > 0 || end < Len(r)
    ensures DeleteChecked(r, start, end).Ok?
    ensures WellFormed(DeleteChecked(r, start, end).value)
    ensures RebalanceRope(DeleteChecked(r, start, end).value).Ok?
    ensures WellFormed(RebalanceRope(DeleteChecked(r, start, end).value).value)
    ensures Str(RebalanceRope(DeleteChecked(r, start, end).value).value) == Str(DeleteChecked(r, start, end).value)
  {
    DeleteCheckedContent(r, start, end);
    var d := DeleteChecked(r, start, end).value;
    assert Len(d) == |Str(d)|;
    RebalanceRopeGood(d);
  }

  /** Inserting a non-empty piece anywhere in `[0, length()]` splices its
      text in at that offset. */
  lemma InsertContent(r: Rope, k: int, s: Option<CharSeq>)
    requires Good(r) && (s.Some? ==> ArgWellFormed(s.value))
    requires Good(Inserted(s)) && Len(r) + Len(Inserted(s)) <= MAX_LENGTH
    requires 0 <= k <= Len(r)
    ensures Insert(r, k, s).Ok? && Good(Insert(r, k, s).value)
    ensures Str(Insert(r, k, s).value) == Str(r)[..k] + Str(Inserted(s)) + Str(r)[k..]
  {
    var piece := Inserted(s);
    if k == 0 {
      InsertAtEnd(piece, r, true);
      assert Insert(r, k, s) == Concatenate(piece, r, REBALANCE_NESTING);
    } else if k == Len(r) {
      InsertAtEnd(r, piece, false);
      assert Insert(r, k, s) == Concatenate(r, piece, REBALANCE_NESTING);
    } else {
      InsertMiddle(r, k, piece);
      assert Insert(r, k, s) == Splice(r, k, piece);
    }
  }

  /** Inserting into a rope too shallow ever to be rebalanced splices the
      piece's text in at the offset, whatever the lengths of the units of
      either, an empty piece included. */
  lemma InsertShallowContent(r: Rope, k: int, s: Option<CharSeq>)
    requires WellFormed(r) && Height(r) < MAX_ROPE_DEPTH - 2
    requires (s.Some? ==> ArgWellFormed(s.value)) && Height(Inserted(s)) < MAX_ROPE_DEPTH - 1
    requires 0 <= k <= Len(r)
    ensures Insert(r, k, s).Ok? && WellFormed(Insert(r, k, s).value)
    ensures Str(Insert(r, k, s).value) == Str(r)[..k] + Str(Inserted(s)) + Str(r)[k..]
  {
    var piece := Inserted(s);
    if k == 0 || k == Len(r) {
      InsertEdgeShallow(r, k, piece);
      assert Insert(r, k, s) == if k == 0 then Concatenate(piece, r, REBALANCE_NESTING)
        else Concatenate(r, piece, REBALANCE_NESTING);
    } else {
      SpliceShallow(r, k, piece);
      assert Insert(r, k, s) == Splice(r, k, piece);
    }
  }

  /** The two ends of `insert` into such a rope: the piece joined before
      or after it without rebalancing. */
  lemma InsertEdgeShallow(r: Rope, k: int, piece: Rope)
    requires WellFormed(r) && Height(r) < MAX_ROPE_DEPTH
    requires WellFormed(piece) && Height(piece) < MAX_ROPE_DEPTH
    requires k == 0 || k == Len(r)
    ensures var c := if k == 0 then Concatenate(piece, r, REBALANCE_NESTING)
      else Concatenate(r, piece, REBALANCE_NESTING);
      c.Ok? && WellFormed(c.value) && Str(c.value) == Str(r)[..k] + Str(piece) + Str(r)[k..]
  {
    var text := Str(r);
    if k == 0 {
      ConcatenateShallow(piece, r, REBALANCE_NESTING);
      assert text[..k] == [] && text[k..] == text;
      assert text[..k] + Str(piece) + text[k..] == Str(piece) + text;
    } else {
      ConcatenateShallow(r, piece, REBALANCE_NESTING);
      assert text[..k] == text && text[k..] == [];
      assert text[..k] + Str(piece) + text[k..] == text + Str(piece);
    }
  }

  /** The splice of `insert` into such a rope: head, piece and tail
      joined without rebalancing. */
  lemma SpliceShallow(r: Rope, k: int, piece: Rope)
    requires WellFormed(r) && Height(r) < MAX_ROPE_DEPTH - 2
    requires WellFormed(piece) && Height(piece) < MAX_ROPE_DEPTH - 1
    requires 0 <= k <= Len(r)
    ensures Splice(r, k, piece).Ok? && WellFormed(Splice(r, k, piece).value)
    ensures Str(Splice(r, k, piece).value) == Str(r)[..k] + Str(piece) + Str(r)[k..]
  {
    var text := Str(r);
    SubSequenceShallow(r, 0, k);
    SubSequenceShallow(r, k, Len(r));
    var head := SubSequence(r, 0, k).value;
    var tail := SubSequence(r, k, Len(r)).value;
    assert Str(head) == text[..k] && Str(tail) == text[k..];
    ConcatenateShallow(head, piece, REBALANCE_NESTING);
    var front := Concatenate(head, piece, REBALANCE_NESTING).value;
    ConcatenateShallow(front, tail, REBALANCE_NESTING);
    assert Splice(r, k, piece) == Concatenate(front, tail, REBALANCE_NESTING);
  }

  /** The two ends of `insert`: the piece concatenated before (`front`,
      with `a` the piece) or after (with `b` the piece) the rope. */
  lemma InsertAtEnd(a: Rope, b: Rope, front: bool)
    requires Good(a) && Good(b) && Len(a) + Len(b) <= MAX_LENGTH
    ensures Concatenate(a, b, REBALANCE_NESTING).Ok?
    ensures Good(Concatenate(a, b, REBALANCE_NESTING).value)
    ensures var t := Str(Concatenate(a, b, REBALANCE_NESTING).value);
      && (front ==> t == Str(b)[..0] + Str(a) + Str(b)[0..])
      && (!front ==> t == Str(a)[..Len(a)] + Str(b) + Str(a)[Len(a)..])
  {
    ConcatenateGood(a, b, REBALANCE_NESTING);
    if front {
      assert Str(b)[..0] == [] && Str(b)[0..] == Str(b);
      assert Str(b)[..0] + Str(a) == Str(a);
    } else {
      assert Str(a)[..Len(a)] == Str(a) && Str(a)[Len(a)..] == [];
      assert Str(a) + Str(b) + [] == Str(a) + Str(b);
    }
  }

  /** The splice `insert` performs strictly inside the rope. */
  function Splice(r: Rope, k: int, piece: Rope): (res: Result<Rope>)
    requires WellFormed(r)
  {
    var head :- SubSequence(r, 0, k);
    var front :- Concatenate(head, piece, REBALANCE_NESTING);
    var tail :- SubSequence(r, k, Len(r));
    Concatenate(front, tail, REBALANCE_NESTING)
  }

  lemma InsertMiddle(r: Rope, k: int, piece: Rope)
    requires Good(r) && Good(piece) && Len(r) + Len(piece) <= MAX_LENGTH
    requires 0 < k < Len(r)
    ensures Splice(r, k, piece).Ok? && Good(Splice(r, k, piece).value)
    ensures Str(Splice(r, k, piece).value) == Str(r)[..k] + Str(piece) + Str(r)[k..]
  {
    var text := Str(r);
    assert Len(r) == |text| && Len(piece) == |Str(piece)|;
    SubSequenceGood(r, 0, k);
    SubSequenceGood(r, k, Len(r));
    var head := SubSequence(r, 0, k).value;
    var tail := SubSequence(r, k, Len(r)).value;
    assert Str(head) == text[..k] && Str(tail) == text[k..];
    SpliceParts(r, k, piece, head, tail);
  }

  /** The three parts of a splice, joined left to right. */
  lemma SpliceParts(r: Rope, k: int, piece: Rope, head: Rope, tail: Rope)
    requires WellFormed(r) && Good(piece) && Good(head) && Good(tail)
    requires SubSequence(r, 0, k) == Ok(head) && SubSequence(r, k, Len(r)) == Ok(tail)
    requires Len(head) + Len(piece) + Len(tail) <= MAX_LENGTH
    ensures Splice(r, k, piece).Ok? && Good(Splice(r, k, piece).value)
    ensures Str(Splice(r, k, piece).value) == Str(head) + Str(piece) + Str(tail)
  {
    assert Len(tail) == |Str(tail)|;
    ConcatenateGood(head, piece, REBALANCE_NESTING);
    var front := Concatenate(head, piece, REBALANCE_NESTING).value;
    ConcatenateGood(front, tail, REBALANCE_NESTING);
    assert Splice(r, k, piece) == Concatenate(front, tail, REBALANCE_NESTING);
  }

  /** A null argument inserts the four characters "null". */
  lemma InsertNull(r: Rope, k: int)
    requires Good(r) && Len(r) + 4 <= MAX_LENGTH && 0 <= k <= Len(r)
    ensures Insert(r, k, None).Ok? && WellFormed(Insert(r, k, None).value)
    ensures Str(Insert(r, k, None).value) == Str(r)[..k] + "null" + Str(r)[k..]
  {
    InsertContent(r, k, None);
  }
}

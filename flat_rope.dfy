/** FlatRope: a rope over one character sequence. */
module FlatRopes {
  import opened Ropes

  /** Below this many characters a sub-sequence is copied rather than
      wrapped in a substring rope. */
  const COPY_THRESHOLD: int := 8

  /** `subSequence(start, end)` of a flat rope: short ranges, and any range
      of a `String`, become a new flat rope over a copy; longer ranges of
      other sequences become a substring rope sharing the sequence. */
  function FlatSubSequence(s: seq<char>, isString: bool, start: int, end: int): (res: Result<Rope>)
    ensures res.Ok? <==> 0 <= start <= end <= |s|
    ensures !res.Ok? ==> res.error == IndexOutOfBounds
    ensures res.Ok? ==> WellFormed(res.value) && Str(res.value) == s[start..end]
    ensures res.Ok? ==> NonEmptyUnits(res.value) == (start < end)
    ensures res.Ok? && (end - start < COPY_THRESHOLD || isString) ==> res.value == Flat(s[start..end], isString)
    ensures res.Ok? && end - start >= COPY_THRESHOLD && !isString ==> res.value.Sub? && res.value.base == s
  {
    if !(0 <= start <= end <= |s|) then Err(IndexOutOfBounds)
    else if end - start < COPY_THRESHOLD || isString then Ok(Flat(s[start..end], isString))
    else Ok(Sub(s, start, end - start))
  }

  /** `write(out, offset, length)`: the range check, then either the whole
      `String` slice at once or one character at a time. */
  method FlatWrite(s: seq<char>, isString: bool, out: Writer, offset: int, length: int) returns (res: Outcome)
    modifies out
    ensures res.Pass? <==> 0 <= offset && offset + length <= |s| && (0 <= length || !isString)
    ensures res.Fail? ==> res.error == IndexOutOfBounds && out.written == old(out.written)
    ensures res.Pass? && length > 0 ==> out.written == old(out.written) + s[offset..offset + length]
    ensures res.Pass? && length <= 0 ==> out.written == old(out.written)
  {
    if offset < 0 || offset + length > |s| {
      return Fail(IndexOutOfBounds);
    }
    if isString {
      if length < 0 {
        // String.substring rejects a begin index beyond the end index
        return Fail(IndexOutOfBounds);
      }
      out.written := out.written + s[offset..offset + length];
      return Pass;
    }
    if length <= 0 {
      return Pass;
    }
    var j := offset;
    while j < offset + length
      invariant offset <= j <= offset + length
      invariant out.written == old(out.written) + s[offset..j]
    {
      out.written := out.written + [s[j]];
      j := j + 1;
    }
    return Pass;
  }

  /** `write(out)`: the whole sequence. */
  method FlatWriteAll(s: seq<char>, isString: bool, out: Writer)
    modifies out
    ensures out.written == old(out.written) + s
  {
    var res := FlatWrite(s, isString, out, 0, |s|);
    assert s[0..|s|] == s;
  }

  /** The anonymous iterator of `FlatRope.iterator(start)`: a cursor into
      the sequence. */
  class FlatIterator {
    const s: seq<char>
    var current: int

    ghost predicate Valid()
      reads this
    {
      0 <= current
    }

    constructor (s: seq<char>, start: int)
      requires 0 <= start < |s|
      ensures this.s == s && current == start
      ensures Valid()
    {
      this.s := s;
      current := start;
    }

    method HasNext() returns (b: bool)
      requires Valid()
      ensures b <==> current < |s|
    {
      b := current < |s|;
    }

    /** Reads the character under the cursor and advances, even when the
        read fails. */
    method Next() returns (res: Result<char>)
      requires Valid()
      modifies this
      ensures Valid() && current == old(current) + 1
      ensures old(current) < |s| ==> res == Ok(s[old(current)])
      ensures old(current) >= |s| ==> res == Err(IndexOutOfBounds)
    {
      var i := current;
      current := current + 1;
      if i < |s| {
        res := Ok(s[i]);
      } else {
        res := Err(IndexOutOfBounds);
      }
    }

    method Remove() returns (res: Outcome)
      ensures res == Fail(UnsupportedOperation)
    {
      res := Fail(UnsupportedOperation);
    }
  }
}

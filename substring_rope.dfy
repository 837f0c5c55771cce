/** SubstringRope: a window of `len` characters, starting at `off`, over the
    sequence of a flat rope. */
module SubstringRopes {
  import opened Ropes

  /** The SubstringRope constructor, with its range check. */
  function NewSubstring(base: seq<char>, off: int, len: int): (res: Result<Rope>)
    ensures res.Ok? <==> 0 <= len && 0 <= off && off + len <= |base|
    ensures !res.Ok? ==> res.error == IndexOutOfBounds
    ensures res.Ok? ==> WellFormed(res.value) && Str(res.value) == base[off..off + len]
    ensures res.Ok? ==> Depth(res.value) == 1 && Len(res.value) == len
  {
    if len < 0 || off < 0 || off + len > |base| then Err(IndexOutOfBounds)
    else Ok(Sub(base, off, len))
  }

  /** `subSequence(start, end)` of a substring rope: a new window over the
      same base sequence, never a substring of a substring. The range is
      checked against the base sequence, not against this window, so a
      range reaching past the window's end but within the base succeeds. */
  function SubSubSequence(r: Rope, start: int, end: int): (res: Result<Rope>)
    requires r.Sub? && WellFormed(r)
    ensures res.Ok? <==> start <= end && 0 <= r.off + start && r.off + end <= |r.base|
    ensures res.Ok? ==> res.value.Sub? && res.value.base == r.base && WellFormed(res.value)
    ensures res.Ok? ==> Str(res.value) == r.base[r.off + start..r.off + end]
    ensures 0 <= start <= end <= Len(r) ==> res.Ok? && Str(res.value) == Str(r)[start..end]
  {
    if 0 <= start <= end <= Len(r) then
      SliceOfSlice(r.base, r.off, r.off + r.len, start, end);
      NewSubstring(r.base, r.off + start, end - start)
    else
    NewSubstring(r.base, r.off + start, end - start)
  }
}

/** The rope value: the three node kinds of the library, the character
    sequence each node stands for, and the invariant its Java constructors
    establish. Java exceptions become `Result` failures. */
module Ropes {

  /** The kinds of failure the library reports. */
  datatype Failure =
    | IndexOutOfBounds      // IndexOutOfBoundsException (and its String variant)
    | IllegalArgument       // IllegalArgumentException
    | UnsupportedOperation  // UnsupportedOperationException
    | NullRope              // `rebalance` produced null instead of a rope

  datatype Result<+T> = Ok(value: T) | Err(error: Failure) {
    predicate IsFailure() { Err? }
    function PropagateFailure<U>(): Result<U> requires Err? { Err(error) }
    function Extract(): T requires Ok? { value }
  }

  /** Outcome of an operation that returns nothing (Java `void`). */
  datatype Outcome = Pass | Fail(error: Failure)

  /** A rope node.
      - `Flat` is a FlatRope over a character sequence; `isString` records
        whether that sequence is a `java.lang.String`, which FlatRope's
        `subSequence` and `write` branch on.
      - `Sub` is a SubstringRope: `len` characters of a flat rope's
        sequence `base`, starting at `off`.
      - `Concat` is a ConcatenationRope with its cached (byte) depth and
        length. */
  datatype Rope =
    | Flat(s: seq<char>, isString: bool)
    | Sub(base: seq<char>, off: int, len: int)
    | Concat(left: Rope, right: Rope, depth: int, len: int)

  /** The largest Java `int`, which bounds every length in the source. */
  const MAX_LENGTH: int := 0x7fff_ffff

  /** `length()` of each node kind. */
  function Len(r: Rope): (n: int) {
    match r
    case Flat(s, _) => |s|
    case Sub(_, _, n) => n
    case Concat(_, _, _, n) => n
  }

  /** Java's narrowing cast `(byte) x`. */
  function ToByte(x: int): (b: int)
    ensures -128 <= b <= 127
    ensures -128 <= x <= 127 ==> b == x
  {
    (x + 128) % 256 - 128
  }

  function Max(a: int, b: int): int { if a < b then b else a }

  /** `depth()` of each node kind: a flat rope is 0, a substring of a flat
      rope is `(byte)(0 + 1)`, a concatenation returns its cached field. */
  function Depth(r: Rope): (d: int) {
    match r
    case Flat(_, _) => 0
    case Sub(_, _, _) => 1
    case Concat(_, _, d, _) => d
  }

  /** The true height of the tree, with no byte truncation. */
  function Height(r: Rope): nat {
    match r
    case Flat(_, _) => 0
    case Sub(_, _, _) => 1
    case Concat(l, rt, _, _) => Max(Height(l), Height(rt)) + 1
  }

  /** What the constructors guarantee of every node that exists: a substring
      lies within its base, and a concatenation caches its children's total
      length and its byte depth. */
  ghost predicate WellFormed(r: Rope) {
    || r.Flat?
    || (r.Sub? && 0 <= r.off && 0 <= r.len && r.off + r.len <= |r.base|)
    || (r.Concat? && WellFormed(r.left) && WellFormed(r.right)
        && r.len == Len(r.left) + Len(r.right)
        && r.depth == ToByte(Max(Depth(r.left), Depth(r.right)) + 1))
  }

  /** The character sequence a rope represents. */
  ghost function Str(r: Rope): (t: seq<char>)
    requires WellFormed(r)
    ensures |t| == Len(r)
  {
    match r
    case Flat(s, _) => s
    case Sub(b, o, n) => b[o..o + n]
    case Concat(l, rt, _, _) => Str(l) + Str(rt)
  }

  /** Flat and substring ropes are the atomic units of traversal and of
      rebalancing. */
  predicate IsAtomic(r: Rope) { !r.Concat? }

  /** Every atomic unit of the tree holds at least one character. */
  ghost predicate NonEmptyUnits(r: Rope) {
    match r
    case Flat(s, _) => |s| > 0
    case Sub(_, _, n) => n > 0
    case Concat(l, rt, _, _) => NonEmptyUnits(l) && NonEmptyUnits(rt)
  }

  /** The ConcatenationRope constructor. */
  function MkConcat(l: Rope, r: Rope): (c: Rope)
    ensures c.Concat? && c.left == l && c.right == r
    ensures WellFormed(l) && WellFormed(r) ==> WellFormed(c) && Str(c) == Str(l) + Str(r)
    ensures NonEmptyUnits(c) <==> NonEmptyUnits(l) && NonEmptyUnits(r)
    ensures -128 <= Depth(c) <= 127
  {
    Concat(l, r, ToByte(Max(Depth(l), Depth(r)) + 1), Len(l) + Len(r))
  }

  /** The cached depth is the tree height as long as no byte cast wrapped. */
  lemma {:induction false} DepthIsHeight(r: Rope)
    requires WellFormed(r) && Height(r) <= 127
    ensures Depth(r) == Height(r)
  {
    match r
    case Flat(_, _) =>
    case Sub(_, _, _) =>
    case Concat(l, rt, _, _) =>
      DepthIsHeight(l);
      DepthIsHeight(rt);
  }

  /** A non-empty atomic unit has positive length; a rope made of them
      represents at least one character. */
  lemma {:induction false} NonEmptyUnitsLength(r: Rope)
    requires WellFormed(r) && NonEmptyUnits(r)
    ensures Len(r) > 0
  {
    match r
    case Flat(_, _) =>
    case Sub(_, _, _) =>
    case Concat(l, rt, _, _) =>
      NonEmptyUnitsLength(l);
      NonEmptyUnitsLength(rt);
  }

  /** Number of nodes; the measure that traversals with an explicit stack
      decrease. */
  function Size(r: Rope): nat {
    match r
    case Concat(l, rt, _, _) => 1 + Size(l) + Size(rt)
    case _ => 1
  }

  function StackSize(stack: seq<Rope>): nat {
    if stack == [] then 0 else Size(stack[0]) + StackSize(stack[1..])
  }

  ghost predicate AllWellFormed(stack: seq<Rope>) {
    forall i | 0 <= i < |stack| :: WellFormed(stack[i])
  }

  ghost predicate AllNonEmptyUnits(stack: seq<Rope>) {
    forall i | 0 <= i < |stack| :: NonEmptyUnits(stack[i])
  }

  /** The text still to be visited by a depth-first traversal whose explicit
      stack holds `stack` (top of the stack first). */
  ghost function StackStr(stack: seq<Rope>): (t: seq<char>)
    requires AllWellFormed(stack)
  {
    if stack == [] then [] else Str(stack[0]) + StackStr(stack[1..])
  }

  /** Replacing a concatenation on top of the stack by its left and right
      children (left on top) leaves the pending text unchanged and shrinks
      the stack measure. */
  lemma ExpandTop(stack: seq<Rope>)
    requires stack != [] && stack[0].Concat? && AllWellFormed(stack)
    ensures AllWellFormed([stack[0].left, stack[0].right] + stack[1..])
    ensures StackStr([stack[0].left, stack[0].right] + stack[1..]) == StackStr(stack)
    ensures StackSize([stack[0].left, stack[0].right] + stack[1..]) < StackSize(stack)
    ensures AllNonEmptyUnits(stack) ==> AllNonEmptyUnits([stack[0].left, stack[0].right] + stack[1..])
  {
    var x, rest := stack[0], stack[1..];
    var st := [x.left, x.right] + rest;
    assert st[1..] == [x.right] + rest;
    assert st[1..][1..] == rest;
    forall i | 0 <= i < |st| ensures WellFormed(st[i]) {
      if i >= 2 {
        assert st[i] == stack[i - 1];
      }
    }
    ExpandTopText(x, rest, st);
    assert StackSize(st) == Size(x.left) + (Size(x.right) + StackSize(rest));
    if AllNonEmptyUnits(stack) {
      forall i | 0 <= i < |st| ensures NonEmptyUnits(st[i]) {
        if i >= 2 {
          assert st[i] == stack[i - 1];
        }
      }
    }
  }

  /** The text of a stack whose top concatenation was split in two. */
  lemma ExpandTopText(x: Rope, rest: seq<Rope>, st: seq<Rope>)
    requires x.Concat? && WellFormed(x) && AllWellFormed(rest) && AllWellFormed(st)
    requires st == [x.left, x.right] + rest && st[1..] == [x.right] + rest && st[1..][1..] == rest
    ensures AllWellFormed([x] + rest) && StackStr(st) == StackStr([x] + rest)
  {
    var stack := [x] + rest;
    assert stack[1..] == rest;
    assert AllWellFormed([x.right] + rest) by {
      assert forall i | 0 <= i < |st[1..]| :: st[1..][i] == st[i + 1];
    }
    var t := StackStr(rest);
    assert StackStr(st[1..]) == Str(x.right) + t;
    assert StackStr(st) == Str(x.left) + (Str(x.right) + t);
    assert StackStr(stack) == (Str(x.left) + Str(x.right)) + t;
    AppendAssoc(Str(x.left), Str(x.right), t);
  }

  /** Popping an atomic unit off the stack: the rest of the stack keeps the
      invariants, and the unit's text comes first. */
  lemma PopTop(stack: seq<Rope>)
    requires stack != [] && AllWellFormed(stack)
    ensures AllWellFormed(stack[1..])
    ensures AllNonEmptyUnits(stack) ==> AllNonEmptyUnits(stack[1..])
    ensures StackStr(stack) == Str(stack[0]) + StackStr(stack[1..])
  {
    var rest := stack[1..];
    forall i | 0 <= i < |rest| ensures rest[i] == stack[i + 1] {
    }
  }

  /** With every unit non-empty, a non-empty stack has text left. */
  lemma {:induction false} StackStrNonEmpty(stack: seq<Rope>)
    requires AllWellFormed(stack) && AllNonEmptyUnits(stack)
    ensures StackStr(stack) == [] <==> stack == []
  {
    if stack != [] {
      NonEmptyUnitsLength(stack[0]);
    }
  }

  /** A slice of a slice is a slice of the original sequence. */
  lemma SliceOfSlice<T>(s: seq<T>, a: int, b: int, i: int, j: int)
    requires 0 <= a <= b <= |s| && 0 <= i <= j <= b - a
    ensures s[a..b][i..j] == s[a + i..a + j]
  {
    forall k | 0 <= k < j - i
      ensures s[a..b][i..j][k] == s[a + i..a + j][k]
    {
      assert s[a..b][i..j][k] == s[a..b][i + k] == s[a + i + k];
    }
  }

  lemma AppendAssoc<T>(a: seq<T>, b: seq<T>, c: seq<T>)
    ensures a + (b + c) == (a + b) + c
  {
  }

  /** A slice of `a + b` lies in `a`, in `b`, or straddles the two. */
  lemma SliceOfAppend<T>(a: seq<T>, b: seq<T>, i: int, j: int)
    requires 0 <= i <= j <= |a| + |b|
    ensures j <= |a| ==> (a + b)[i..j] == a[i..j]
    ensures |a| <= i ==> (a + b)[i..j] == b[i - |a|..j - |a|]
    ensures i <= |a| <= j ==> (a + b)[i..j] == a[i..] + b[..j - |a|]
  {
  }

  /** An output sink (java.io.Writer), seen as the characters written to it. */
  class Writer {
    var written: seq<char>

    constructor ()
      ensures written == []
    {
      written := [];
    }
  }
}

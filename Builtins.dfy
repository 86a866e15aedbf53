/**
 * The few pieces of Python's runtime the cipher relies on, stated over
 * Dafny values: the exceptions it can raise, `str.lower` and `str.isspace`
 * on characters, `str.rstrip()`, slicing, `''.join` and `list.index`.
 */
module Builtins {

  /** A computation that either returns a value or raises a Python exception. */
  datatype Result<+T> = Success(value: T) | Failure(error: PyError) {
    predicate IsFailure() { Failure? }

    function PropagateFailure<U>(): Result<U>
      requires Failure?
    {
      Failure(error)
    }

    function Extract(): T
      requires Success?
    {
      value
    }
  }

  /** The exceptions the cipher's operations can raise. */
  datatype PyError =
    | RangeStepZero          // ValueError: range() arg 3 must not be zero
    | EmptyRowList           // IndexError: list index out of range (rows[-1] on [])
    | NotInKey(value: int)   // ValueError: <value> is not in list (key.index(value))
    | DivisionByZero         // ZeroDivisionError: integer division by zero

  function Min(a: int, b: int): int { if a <= b then a else b }

  predicate IsUpper(c: char) { 'A' <= c <= 'Z' }

  predicate IsLower(c: char) { 'a' <= c <= 'z' }

  /**
   * `c.lower()` restricted to ASCII: upper-case ASCII letters become their
   * lower-case counterparts, every other character is left as it is.
   */
  function Lower(c: char): (d: char)
    ensures !IsUpper(d)
    ensures IsUpper(c) <==> IsLower(d) && d != c
    ensures !IsUpper(c) ==> d == c
    ensures IsUpper(c) ==> d as int - 'a' as int == c as int - 'A' as int
  {
    if IsUpper(c) then (c as int - 'A' as int + 'a' as int) as char else c
  }

  /** `s.lower()` on ASCII text: one character for one character. */
  function LowerStr(s: seq<char>): (r: seq<char>)
    ensures |r| == |s|
    ensures forall p :: 0 <= p < |s| ==> r[p] == Lower(s[p])
  {
    seq(|s|, p requires 0 <= p < |s| => Lower(s[p]))
  }

  /**
   * `c.isspace()`: the characters Python counts as whitespace, which are
   * the ones `str.rstrip()` with no argument removes.
   */
  predicate IsWhitespace(c: char)
    ensures IsWhitespace(c) ==> !IsUpper(c) && !IsLower(c)
    ensures c == ' ' || c == '\t' || c == '\n' || c == '\r' ==> IsWhitespace(c)
  {
    var v := c as int;
    (9 <= v <= 13) || (28 <= v <= 32) || v == 0x85 || v == 0xA0 || v == 0x1680
    || (0x2000 <= v <= 0x200A) || v == 0x2028 || v == 0x2029 || v == 0x202F
    || v == 0x205F || v == 0x3000
  }

  /**
   * `s.rstrip()`: the longest prefix of `s` that does not end in whitespace
   * and is followed only by whitespace.
   */
  function RStrip(s: seq<char>): (r: seq<char>)
    ensures |r| <= |s| && r == s[..|r|]
    ensures forall p :: |r| <= p < |s| ==> IsWhitespace(s[p])
    ensures r == [] || !IsWhitespace(r[|r| - 1])
    decreases |s|
  {
    if s != [] && IsWhitespace(s[|s| - 1]) then RStrip(s[..|s| - 1]) else s
  }

  /** The three properties of RStrip's contract determine its result. */
  lemma RStripUnique(s: seq<char>, t: seq<char>)
    requires |t| <= |s| && t == s[..|t|]
    requires forall p :: |t| <= p < |s| ==> IsWhitespace(s[p])
    requires t == [] || !IsWhitespace(t[|t| - 1])
    ensures RStrip(s) == t
  {
  }

  /** Trailing whitespace added to a string is removed again by rstrip. */
  lemma RStripAppendWhitespace(s: seq<char>, w: seq<char>)
    requires forall p :: 0 <= p < |w| ==> IsWhitespace(w[p])
    ensures RStrip(s + w) == RStrip(s)
  {
    var t := RStrip(s);
    assert (s + w)[..|t|] == t;
    forall p | |t| <= p < |s + w|
      ensures IsWhitespace((s + w)[p])
    {
      if p >= |s| {
        assert (s + w)[p] == w[p - |s|];
      }
    }
    RStripUnique(s + w, t);
  }

  /**
   * Two strings of equal length that have whitespace at the same positions
   * lose the same number of characters to rstrip.
   */
  lemma {:induction false} RStripSameShape(a: seq<char>, b: seq<char>)
    requires |a| == |b|
    requires forall p :: 0 <= p < |a| ==> (IsWhitespace(a[p]) <==> IsWhitespace(b[p]))
    ensures |RStrip(a)| == |RStrip(b)|
    decreases |a|
  {
    if a != [] && IsWhitespace(a[|a| - 1]) {
      RStripSameShape(a[..|a| - 1], b[..|b| - 1]);
    }
  }

  /** `' ' * n` */
  function Spaces(n: nat): (r: seq<char>)
    ensures |r| == n
    ensures forall p :: 0 <= p < n ==> r[p] == ' '
  {
    seq(n, _ => ' ')
  }

  /**
   * `s[lo:hi]` for non-negative bounds: both bounds are clamped to the
   * length of `s`, and an empty range gives the empty string.
   */
  function Slice<T>(s: seq<T>, lo: nat, hi: nat): (r: seq<T>)
    ensures hi <= |s| && lo <= hi ==> r == s[lo..hi]
    ensures lo < |s| && |s| <= hi ==> r == s[lo..]
    ensures |s| <= lo || hi <= lo ==> r == []
  {
    var l := Min(lo, |s|);
    var h := Min(hi, |s|);
    if l >= h then [] else s[l..h]
  }

  /** `''.join(parts)`: the parts one after another. */
  function Concat<T>(parts: seq<seq<T>>): (r: seq<T>)
    ensures forall b :: 0 <= b < |parts| ==> |parts[b]| <= |r|
  {
    if parts == [] then [] else parts[0] + Concat(parts[1..])
  }

  /** Joining `n` parts of width `w` gives `n * w` elements. */
  lemma {:induction false} ConcatLength<T>(parts: seq<seq<T>>, w: nat)
    requires forall b :: 0 <= b < |parts| ==> |parts[b]| == w
    ensures |Concat(parts)| == |parts| * w
  {
    if parts != [] {
      ConcatLength(parts[1..], w);
      assert |parts| * w == w + (|parts| - 1) * w;
    }
  }

  /** Element `r` of part `i` of a join of `w`-wide parts is at position `i * w + r`. */
  lemma {:induction false} ConcatAt<T>(parts: seq<seq<T>>, w: nat, i: nat, r: nat)
    requires forall b :: 0 <= b < |parts| ==> |parts[b]| == w
    requires i < |parts| && r < w
    ensures i * w + r < |Concat(parts)|
    ensures Concat(parts)[i * w + r] == parts[i][r]
  {
    ConcatLength(parts, w);
    if i > 0 {
      var tail := parts[1..];
      ConcatAt(tail, w, i - 1, r);
      assert i * w + r == w + ((i - 1) * w + r);
      assert tail[i - 1] == parts[i];
    }
  }

  /** `xs.index(v)`: the position of the first occurrence of `v` in `xs`. */
  function IndexOf<T(==)>(xs: seq<T>, v: T): (i: nat)
    requires v in xs
    ensures i < |xs| && xs[i] == v
    ensures forall j :: 0 <= j < i ==> xs[j] != v
  {
    if xs[0] == v then 0 else 1 + IndexOf(xs[1..], v)
  }

  /**
   * The first of `from, from + 1, ..., |xs| - 1` that `xs` does not
   * contain, or `|xs|` when it contains all of them: the value for which
   * calling `xs.index` on `range(from, len(xs))` in order first raises.
   */
  function FirstMissing(xs: seq<int>, from: nat): (v: nat)
    requires from <= |xs|
    ensures from <= v <= |xs|
    ensures v < |xs| ==> v !in xs
    ensures forall w :: from <= w < v ==> w in xs
    decreases |xs| - from
  {
    if from == |xs| then from
    else if from !in xs then from
    else FirstMissing(xs, from + 1)
  }
}

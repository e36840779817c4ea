/**
 * The handful of Python `str` operations the core relies on: `strip()`,
 * `upper()`, the `in` substring test, `split(sep)`, `sep.join(parts)`
 * and the prefix slices `s[:n]`.  Strings are sequences of code points,
 * as Python's are.
 */
module Text {

  /** `c.isspace()` for a Python `str`: the code points `strip()` removes. */
  predicate IsSpace(c: char) {
    var n := c as int;
    (0x09 <= n <= 0x0D) || (0x1C <= n <= 0x20) || n == 0x85 || n == 0xA0
    || n == 0x1680 || (0x2000 <= n <= 0x200A) || n == 0x2028 || n == 0x2029
    || n == 0x202F || n == 0x205F || n == 0x3000
  }

  /**
   * The ASCII whitespace `str.isspace()` knows (space, tab, line feed,
   * vertical tab, form feed, carriage return and the four separators
   * 0x1C-0x1F) is whitespace, and no visible ASCII character is.
   */
  lemma WhitespaceCharacters(c: char)
    ensures c == ' ' || '\t' <= c <= '\r' || '\U{1C}' <= c <= '\U{1F}' ==> IsSpace(c)
    ensures '!' <= c <= '~' ==> !IsSpace(c)
  {
  }

  /** Every character of `s` from index `lo` up to `hi` is whitespace. */
  predicate SpaceBetween(s: string, lo: int, hi: int)
    requires 0 <= lo <= hi <= |s|
  {
    forall i :: lo <= i < hi ==> IsSpace(s[i])
  }

  /** Neither end of `s` is whitespace. */
  predicate IsTrimmed(s: string) {
    s == [] || (!IsSpace(s[0]) && !IsSpace(s[|s| - 1]))
  }

  /** The first index at or after `i` that is not whitespace, or `|s|`. */
  function SkipSpace(s: string, i: int): (r: int)
    requires 0 <= i <= |s|
    ensures i <= r <= |s|
    decreases |s| - i
  {
    if i < |s| && IsSpace(s[i]) then SkipSpace(s, i + 1) else i
  }

  lemma {:induction false} SkipSpaceSpec(s: string, i: int)
    requires 0 <= i <= |s|
    ensures var r := SkipSpace(s, i); SpaceBetween(s, i, r) && (r == |s| || !IsSpace(s[r]))
    decreases |s| - i
  {
    if i < |s| && IsSpace(s[i]) {
      SkipSpaceSpec(s, i + 1);
    }
  }

  /** The end of `s[lo..j]` once its trailing whitespace is dropped. */
  function SkipSpaceBack(s: string, lo: int, j: int): (r: int)
    requires 0 <= lo <= j <= |s|
    ensures lo <= r <= j
    decreases j
  {
    if lo < j && IsSpace(s[j - 1]) then SkipSpaceBack(s, lo, j - 1) else j
  }

  lemma {:induction false} SkipSpaceBackSpec(s: string, lo: int, j: int)
    requires 0 <= lo <= j <= |s|
    ensures var r := SkipSpaceBack(s, lo, j); SpaceBetween(s, r, j) && (r == lo || !IsSpace(s[r - 1]))
    decreases j
  {
    if lo < j && IsSpace(s[j - 1]) {
      SkipSpaceBackSpec(s, lo, j - 1);
    }
  }

  /** Where `s.strip()` starts in `s`. */
  function StripStart(s: string): (r: int)
    ensures 0 <= r <= |s|
  {
    SkipSpace(s, 0)
  }

  /** Where `s.strip()` ends in `s`. */
  function StripEnd(s: string): (r: int)
    ensures StripStart(s) <= r <= |s|
  {
    SkipSpaceBack(s, StripStart(s), |s|)
  }

  /**
   * `s.strip()`: the slice of `s` between `StripStart(s)` and `StripEnd(s)`,
   * trimmed, with nothing but whitespace cut off on either side.
   */
  function Strip(s: string): (r: string)
    ensures IsTrimmed(r)
    ensures r == s[StripStart(s)..StripEnd(s)]
    ensures SpaceBetween(s, 0, StripStart(s)) && SpaceBetween(s, StripEnd(s), |s|)
  {
    SkipSpaceSpec(s, 0);
    SkipSpaceBackSpec(s, StripStart(s), |s|);
    s[StripStart(s)..StripEnd(s)]
  }

  lemma StripOfTrimmed(s: string)
    requires IsTrimmed(s)
    ensures Strip(s) == s
  {
  }

  /** `c.upper()` for ASCII letters. */
  function UpperChar(c: char): char {
    if 'a' <= c <= 'z' then (c as int - 32) as char else c
  }

  predicate NoLower(s: string) {
    forall i :: 0 <= i < |s| ==> !('a' <= s[i] <= 'z')
  }

  /** `s.upper()`, position by position. */
  function Upper(s: string): (r: string)
    ensures |r| == |s| && NoLower(r)
    ensures forall i :: 0 <= i < |s| ==> r[i] == UpperChar(s[i])
    ensures NoLower(s) ==> r == s
    ensures IsTrimmed(s) ==> IsTrimmed(r)
  {
    seq(|s|, i requires 0 <= i < |s| => UpperChar(s[i]))
  }

  /** The three pieces of `a + b + c` sit where one expects them. */
  lemma ConcatPieces(a: string, b: string, c: string)
    ensures (a + b + c)[..|a|] == a
    ensures (a + b + c)[|a|..|a| + |b|] == b
    ensures (a + b + c)[|a| + |b|..] == c
  {
  }

  /** `m` occurs in `s` starting at index `i`. */
  predicate OccursAt(s: string, m: string, i: int) {
    0 <= i && i + |m| <= |s| && forall k :: 0 <= k < |m| ==> s[i + k] == m[k]
  }

  /** `m` occurs at `j` and nowhere after. */
  predicate LastOccurrence(s: string, m: string, j: int) {
    OccursAt(s, m, j) && forall k | j < k <= |s| - |m| :: !OccursAt(s, m, k)
  }

  /** Python's `m in s`. */
  predicate Contains(s: string, m: string) {
    exists i | 0 <= i <= |s| - |m| :: OccursAt(s, m, i)
  }

  /** Occurrences in a slice `s[a..b]` are the occurrences in `s` that fit between `a` and `b`. */
  lemma OccursInSlice(s: string, a: int, b: int, m: string, i: int)
    requires 0 <= a <= b <= |s|
    ensures OccursAt(s[a..b], m, i) <==> 0 <= i && i + |m| <= b - a && OccursAt(s, m, a + i)
  {
    if 0 <= i && i + |m| <= b - a {
      assert forall j :: i <= j < i + |m| ==> s[a..b][j] == s[a + j];
    }
  }

  /** An occurrence inside a slice is an occurrence in the whole string. */
  lemma ContainsSlice(s: string, a: int, b: int, m: string)
    requires 0 <= a <= b <= |s| && Contains(s[a..b], m)
    ensures Contains(s, m)
  {
    var i :| 0 <= i <= b - a - |m| && OccursAt(s[a..b], m, i);
    OccursInSlice(s, a, b, m, i);
  }

  /** What occurs in the middle piece of `a + b + c` occurs in the whole, shifted by `|a|`. */
  lemma FramedPart(a: string, b: string, c: string, m: string, i: int)
    requires OccursAt(b, m, i)
    ensures OccursAt(a + b + c, m, |a| + i)
    ensures (a + b + c)[..|a|] == a && (a + b + c)[|a| + |b|..] == c
  {
    ConcatPieces(a, b, c);
    OccursAfterPrefix(a, b, m, i);
    OccursBeforeSuffix(a + b, c, m, |a| + i);
  }

  /** An occurrence in `y` moves right by `|x|` in `x + y`. */
  lemma OccursAfterPrefix(x: string, y: string, m: string, i: int)
    requires OccursAt(y, m, i)
    ensures OccursAt(x + y, m, |x| + i)
  {
    forall k | 0 <= k < |m|
      ensures (x + y)[|x| + i + k] == m[k]
    {
      assert (x + y)[|x| + i + k] == y[i + k];
    }
  }

  /** An occurrence in `x` stays where it is in `x + y`. */
  lemma OccursBeforeSuffix(x: string, y: string, m: string, i: int)
    requires OccursAt(x, m, i)
    ensures OccursAt(x + y, m, i)
  {
    forall k | 0 <= k < |m|
      ensures (x + y)[i + k] == m[k]
    {
      assert (x + y)[i + k] == x[i + k];
    }
  }

  /** In `a + b + c`, `b` sits right after `a`. */
  lemma MiddlePiece(a: string, b: string, c: string)
    ensures OccursAt(a + b + c, b, |a|)
  {
  }

  /** Every string occurs in itself at 0. */
  lemma OccursInItself(m: string)
    ensures OccursAt(m, m, 0)
  {
  }

  /**
   * In `a + b + (m + d + e)`, `b` sits right after `a`, `d` right after `m`,
   * and the text ends with `e`.
   */
  lemma NestedFrame(a: string, b: string, m: string, d: string, e: string)
    ensures OccursAt(a + b + (m + d + e), b, |a|)
    ensures OccursAt(a + b + (m + d + e), d, |a| + |b| + |m|)
    ensures (a + b + (m + d + e))[|a + b + (m + d + e)| - |e|..] == e
  {
  }

  /** `sep.join(parts)`. */
  function Join(sep: string, parts: seq<string>): (r: string)
    ensures parts == [] ==> r == ""
    ensures |parts| == 1 ==> r == parts[0]
    decreases |parts|
  {
    if |parts| == 0 then ""
    else if |parts| == 1 then parts[0]
    else parts[0] + sep + Join(sep, parts[1..])
  }

  /**
   * The first index at or after `from` where `m` occurs in `s`, or -1:
   * the left-to-right scan `str.split` performs.
   */
  function NextOccurrence(s: string, m: string, from: int): (r: int)
    requires 0 <= from <= |s|
    ensures r == -1 || (from <= r && r + |m| <= |s|)
    decreases |s| - from
  {
    if from + |m| > |s| then -1
    else if OccursAt(s, m, from) then from
    else NextOccurrence(s, m, from + 1)
  }

  /** `NextOccurrence` finds an occurrence, and no earlier one from `from` on. */
  lemma {:induction false} NextOccurrenceSpec(s: string, m: string, from: int)
    requires 0 <= from <= |s|
    ensures var r := NextOccurrence(s, m, from);
      && (r >= 0 ==> OccursAt(s, m, r))
      && forall j :: from <= j && (r < 0 || j < r) ==> !OccursAt(s, m, j)
    decreases |s| - from
  {
    if from + |m| <= |s| && !OccursAt(s, m, from) {
      NextOccurrenceSpec(s, m, from + 1);
    }
  }

  /** A stretch `s[lo..hi]` where no occurrence of `m` starts holds no `m`. */
  lemma PieceHasNoSep(s: string, m: string, lo: int, hi: int)
    requires m != [] && 0 <= lo <= hi <= |s|
    requires forall j :: lo <= j < hi ==> !OccursAt(s, m, j)
    ensures !Contains(s[lo..hi], m)
  {
    forall k | 0 <= k <= hi - lo - |m|
      ensures !OccursAt(s[lo..hi], m, k)
    {
      OccursInSlice(s, lo, hi, m, k);
    }
  }

  /** Where `parts[i]` starts in `Join(sep, parts)`. */
  function JoinOffset(sep: string, parts: seq<string>, i: nat): nat
    requires i < |parts|
    decreases i
  {
    if i == 0 then 0 else |parts[0]| + |sep| + JoinOffset(sep, parts[1..], i - 1)
  }

  /**
   * `Join(sep, parts)` lays the parts out in order: `parts[i]` sits at
   * `JoinOffset(sep, parts, i)`, is followed by `sep` unless it is the last
   * part, and the last part ends the string.
   */
  lemma {:induction false} JoinLayout(sep: string, parts: seq<string>, i: nat)
    requires i < |parts|
    ensures OccursAt(Join(sep, parts), parts[i], JoinOffset(sep, parts, i))
    ensures i + 1 < |parts| ==> OccursAt(Join(sep, parts), sep, JoinOffset(sep, parts, i) + |parts[i]|)
    ensures i + 1 == |parts| ==> JoinOffset(sep, parts, i) + |parts[i]| == |Join(sep, parts)|
    decreases i
  {
    if |parts| == 1 {
      OccursInItself(parts[0]);
    } else {
      var rest := Join(sep, parts[1..]);
      assert Join(sep, parts) == parts[0] + (sep + rest) == (parts[0] + sep) + rest;
      if i == 0 {
        OccursInItself(parts[0]);
        OccursBeforeSuffix(parts[0], sep + rest, parts[0], 0);
        OccursInItself(sep);
        OccursBeforeSuffix(sep, rest, sep, 0);
        OccursAfterPrefix(parts[0], sep + rest, sep, 0);
      } else {
        JoinLayout(sep, parts[1..], i - 1);
        var o := JoinOffset(sep, parts[1..], i - 1);
        OccursAfterPrefix(parts[0] + sep, rest, parts[i], o);
        if i + 1 < |parts| {
          OccursAfterPrefix(parts[0] + sep, rest, sep, o + |parts[i]|);
        }
      }
    }
  }

  /**
   * `Join` framed by a head `a` and a tail `c`: the head and the tail stay
   * at the ends and `parts[i]` sits at its offset past the head, followed by
   * `sep` unless it is the last part.
   */
  lemma FramedJoinLayout(a: string, sep: string, parts: seq<string>, c: string, i: nat)
    requires i < |parts|
    ensures (a + Join(sep, parts) + c)[..|a|] == a
    ensures OccursAt(a + Join(sep, parts) + c, parts[i], |a| + JoinOffset(sep, parts, i))
    ensures i + 1 < |parts| ==>
      OccursAt(a + Join(sep, parts) + c, sep, |a| + JoinOffset(sep, parts, i) + |parts[i]|)
    ensures (a + Join(sep, parts) + c)[|a + Join(sep, parts) + c| - |c|..] == c
  {
    JoinLayout(sep, parts, i);
    var o := JoinOffset(sep, parts, i);
    FramedPair(a, Join(sep, parts), c, parts[i], o, sep, o + |parts[i]|, i + 1 < |parts|);
  }

  /** Two occurrences in the middle piece `b` of `a + b + c`, the second optional, carried over to the whole. */
  lemma FramedPair(a: string, b: string, c: string, x: string, ox: int, y: string, oy: int, both: bool)
    requires OccursAt(b, x, ox) && (both ==> OccursAt(b, y, oy))
    ensures (a + b + c)[..|a|] == a
    ensures OccursAt(a + b + c, x, |a| + ox)
    ensures both ==> OccursAt(a + b + c, y, |a| + oy)
    ensures (a + b + c)[|a + b + c| - |c|..] == c
  {
    FramedPart(a, b, c, x, ox);
    if both {
      FramedPart(a, b, c, y, oy);
    }
  }

  /** `s[from:].split(sep)`: cut at every occurrence of `sep`, scanning left to right. */
  function SplitFrom(s: string, sep: string, from: int): seq<string>
    requires sep != [] && 0 <= from <= |s|
    decreases |s| - from
  {
    var i := NextOccurrence(s, sep, from);
    if i < 0 then [s[from..]] else [s[from..i]] + SplitFrom(s, sep, i + |sep|)
  }

  /** No piece of `SplitFrom` holds `sep`, and there is at least one. */
  lemma {:induction false} SplitFromPieces(s: string, sep: string, from: int)
    requires sep != [] && 0 <= from <= |s|
    ensures var parts := SplitFrom(s, sep, from);
      |parts| >= 1 && forall k :: 0 <= k < |parts| ==> !Contains(parts[k], sep)
    decreases |s| - from
  {
    var i := NextOccurrence(s, sep, from);
    NextOccurrenceSpec(s, sep, from);
    if i < 0 {
      assert s[from..] == s[from..|s|];
      PieceHasNoSep(s, sep, from, |s|);
    } else {
      SplitFromPieces(s, sep, i + |sep|);
      PieceHasNoSep(s, sep, from, i);
    }
  }

  /** Joining the pieces of `SplitFrom` with `sep` gives back `s[from..]`. */
  lemma {:induction false} SplitFromJoin(s: string, sep: string, from: int)
    requires sep != [] && 0 <= from <= |s|
    ensures Join(sep, SplitFrom(s, sep, from)) == s[from..]
    decreases |s| - from
  {
    var i := NextOccurrence(s, sep, from);
    if i >= 0 {
      NextOccurrenceFound(s, sep, from);
      var rest := SplitFrom(s, sep, i + |sep|);
      assert SplitFrom(s, sep, from) == [s[from..i]] + rest;
      SplitFromJoin(s, sep, i + |sep|);
      SplitFromNonEmpty(s, sep, i + |sep|);
      JoinCons(sep, s[from..i], rest);
      SliceAroundOccurrence(s, sep, from, i);
    }
  }

  /** An occurrence `NextOccurrence` reports is one. */
  lemma NextOccurrenceFound(s: string, m: string, from: int)
    requires 0 <= from <= |s| && NextOccurrence(s, m, from) >= 0
    ensures OccursAt(s, m, NextOccurrence(s, m, from))
  {
    NextOccurrenceSpec(s, m, from);
  }

  /** Joining a part in front of at least one more part puts `sep` between them. */
  lemma JoinCons(sep: string, x: string, rest: seq<string>)
    requires |rest| >= 1
    ensures Join(sep, [x] + rest) == x + sep + Join(sep, rest)
  {
    assert ([x] + rest)[1..] == rest;
  }

  /** Cutting `s[from..]` around an occurrence of `m` at `i`. */
  lemma SliceAroundOccurrence(s: string, m: string, from: int, i: int)
    requires 0 <= from <= i && OccursAt(s, m, i)
    ensures s[from..] == s[from..i] + m + s[i + |m|..]
  {
    assert s[i..i + |m|] == m;
    assert s[from..] == s[from..i] + s[i..i + |m|] + s[i + |m|..];
  }

  /**
   * `s.split(sep)`: the pieces between the occurrences of `sep`, none of
   * them holding `sep`, which joined by `sep` give back `s`.
   */
  function Split(s: string, sep: string): (parts: seq<string>)
    requires sep != []
    ensures |parts| >= 1
    ensures forall i :: 0 <= i < |parts| ==> !Contains(parts[i], sep)
    ensures Join(sep, parts) == s
  {
    SplitFromPieces(s, sep, 0);
    SplitFromJoin(s, sep, 0);
    assert s[0..] == s;
    SplitFrom(s, sep, 0)
  }

  /**
   * Where the text after the last occurrence of `sep` at or after `from`
   * starts: just past that occurrence, or `from` when there is none.
   */
  function LastPieceStart(s: string, sep: string, from: int): (r: int)
    requires sep != [] && 0 <= from <= |s|
    ensures from <= r <= |s|
    decreases |s| - from
  {
    var i := NextOccurrence(s, sep, from);
    if i < 0 then from else LastPieceStart(s, sep, i + |sep|)
  }

  /**
   * `LastPieceStart` is `from` exactly when nothing occurs from `from` on;
   * otherwise an occurrence ends there and none starts at or after it.
   */
  lemma {:induction false} LastPieceStartSpec(s: string, sep: string, from: int)
    requires sep != [] && 0 <= from <= |s|
    ensures var r := LastPieceStart(s, sep, from);
      && (r == from ==> forall j :: from <= j ==> !OccursAt(s, sep, j))
      && (r > from ==> from <= r - |sep| && OccursAt(s, sep, r - |sep|))
      && forall j :: r <= j ==> !OccursAt(s, sep, j)
    decreases |s| - from
  {
    var i := NextOccurrence(s, sep, from);
    NextOccurrenceSpec(s, sep, from);
    if i >= 0 {
      LastPieceStartSpec(s, sep, i + |sep|);
    }
  }

  /** A split that found `sep` has at least two pieces; one that did not has one. */
  lemma {:induction false} SplitFromShape(s: string, sep: string, from: int)
    requires sep != [] && 0 <= from <= |s|
    ensures var parts := SplitFrom(s, sep, from); var i := NextOccurrence(s, sep, from);
      && |parts| >= 1
      && (i < 0 ==> parts == [s[from..]])
      && (i >= 0 ==> var rest := SplitFrom(s, sep, i + |sep|);
            |rest| >= 1 && parts[|parts| - 1] == rest[|rest| - 1])
  {
    var i := NextOccurrence(s, sep, from);
    if i >= 0 {
      SplitFromNonEmpty(s, sep, i + |sep|);
    }
  }

  lemma SplitFromNonEmpty(s: string, sep: string, from: int)
    requires sep != [] && 0 <= from <= |s|
    ensures |SplitFrom(s, sep, from)| >= 1
  {
  }

  /** The last piece of `s[from:].split(sep)` starts at `LastPieceStart(s, sep, from)`. */
  lemma {:induction false} LastPieceFrom(s: string, sep: string, from: int)
    requires sep != [] && 0 <= from <= |s|
    ensures var parts := SplitFrom(s, sep, from);
      parts[|parts| - 1] == s[LastPieceStart(s, sep, from)..]
    decreases |s| - from
  {
    SplitFromShape(s, sep, from);
    var i := NextOccurrence(s, sep, from);
    if i >= 0 {
      LastPieceFrom(s, sep, i + |sep|);
    }
  }

  /** `s.split(sep)[-1]` is the text from `LastPieceStart(s, sep, 0)` on. */
  lemma LastPieceOfSplit(s: string, sep: string)
    requires sep != []
    ensures var parts := Split(s, sep); parts[|parts| - 1] == s[LastPieceStart(s, sep, 0)..]
  {
    LastPieceFrom(s, sep, 0);
    assert Split(s, sep) == SplitFrom(s, sep, 0);
  }

  /**
   * The last piece starts past the beginning exactly when `s` holds `sep`,
   * and then right after an occurrence of `sep`, the last one.
   */
  lemma LastPieceAfterLastSep(s: string, sep: string)
    requires sep != []
    ensures var r := LastPieceStart(s, sep, 0);
      && (Contains(s, sep) <==> r > 0)
      && (r > 0 ==> OccursAt(s, sep, r - |sep|))
      && forall j :: r <= j ==> !OccursAt(s, sep, j)
  {
    LastPieceStartSpec(s, sep, 0);
    var r := LastPieceStart(s, sep, 0);
    if r > 0 {
      assert OccursAt(s, sep, r - |sep|);
    }
  }

  /** Python's `s[:n]` for a non-negative `n`: the first `n` characters, or all of them. */
  function Truncate(s: string, n: nat): (r: string)
    ensures |r| == if |s| <= n then |s| else n
    ensures r == s[..|r|]
  {
    if |s| <= n then s else s[..n]
  }

  lemma TruncateIdempotent(s: string, n: nat)
    ensures Truncate(Truncate(s, n), n) == Truncate(s, n)
    ensures |s| <= n ==> Truncate(s, n) == s
  {
  }
}

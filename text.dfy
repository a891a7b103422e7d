/**
 * String and sequence operations the server takes from Foundation and the
 * Swift standard library: `range(of:)`, `components(separatedBy:)`,
 * `split(separator:maxSplits:)`, `replacingOccurrences(of:with:)`,
 * `trimmingCharacters(in: .whitespaces)`, `hasSuffix`, `starts(with:)` and
 * `lowercased()`.  Strings are sequences of Unicode scalar values; no
 * normalisation or grapheme clustering is modelled.
 */
module Text {
  import opened Wrappers

  type byte = x: int | 0 <= x < 256

  /** `t` occurs in `s` starting at index `i`. */
  predicate OccursAt<T(==)>(s: seq<T>, t: seq<T>, i: nat) {
    i + |t| <= |s| && s[i..i + |t|] == t
  }

  ghost predicate Contains<T>(s: seq<T>, t: seq<T>) {
    exists i: nat :: OccursAt(s, t, i)
  }

  predicate StartsWith<T(==)>(s: seq<T>, prefix: seq<T>) {
    |prefix| <= |s| && s[..|prefix|] == prefix
  }

  /** `hasSuffix`. */
  predicate EndsWith<T(==)>(s: seq<T>, suffix: seq<T>) {
    |suffix| <= |s| && s[|s| - |suffix|..] == suffix
  }

  lemma OccursAtTail<T>(s: seq<T>, t: seq<T>)
    requires |s| > 0
    ensures forall j: nat :: j >= 1 ==> (OccursAt(s, t, j) <==> OccursAt(s[1..], t, j - 1))
    ensures OccursAt(s, t, 0) <==> |t| <= |s| && s[..|t|] == t
  {
    forall j: nat | j >= 1
      ensures OccursAt(s, t, j) <==> OccursAt(s[1..], t, j - 1)
    {
      if j + |t| <= |s| {
        var u := s[1..];
        var x, y := s[j..j + |t|], u[j - 1..j - 1 + |t|];
        assert forall k :: 0 <= k < |t| ==> x[k] == y[k];
        assert x == y;
      }
    }
  }

  /** The index of the first occurrence of `t` in `s` (`range(of:)`). */
  function FindFirst<T(==)>(s: seq<T>, t: seq<T>): (r: Option<nat>)
    requires t != []
    ensures r.Some? ==> OccursAt(s, t, r.value)
    ensures r.Some? ==> forall j: nat :: j < r.value ==> !OccursAt(s, t, j)
    ensures r.None? ==> forall j: nat :: !OccursAt(s, t, j)
    decreases |s|
  {
    if |s| < |t| then None
    else if s[..|t|] == t then Some(0)
    else
      OccursAtTail(s, t);
      match FindFirst(s[1..], t)
      case None => None
      case Some(k) => Some(k + 1)
  }

  lemma OccursInPrefix<T>(s: seq<T>, t: seq<T>, n: nat, j: nat)
    requires n <= |s|
    requires OccursAt(s[..n], t, j)
    ensures OccursAt(s, t, j)
  {
    assert s[..n][j..j + |t|] == s[j..j + |t|];
  }

  /** An occurrence with none before it is the one `FindFirst` reports. */
  lemma FindFirstIs<T>(s: seq<T>, t: seq<T>, i: nat)
    requires t != [] && OccursAt(s, t, i)
    requires forall j: nat :: j < i ==> !OccursAt(s, t, j)
    ensures FindFirst(s, t) == Some(i)
  {
  }

  /** An occurrence that ends inside `s` is unaffected by appending to `s`. */
  lemma OccursAtAppend<T>(s: seq<T>, x: seq<T>, t: seq<T>, j: nat)
    requires j + |t| <= |s|
    ensures OccursAt(s + x, t, j) <==> OccursAt(s, t, j)
  {
    assert (s + x)[j..j + |t|] == s[j..j + |t|];
  }

  /** A sequence is its prefix, middle and suffix put back together. */
  lemma SliceThree<T>(s: seq<T>, i: nat, j: nat)
    requires i <= j <= |s|
    ensures s == s[..i] + s[i..j] + s[j..]
  {
    assert s[..j] == s[..i] + s[i..j];
    assert s == s[..j] + s[j..];
  }

  lemma AppendAssoc<T>(a: seq<T>, b: seq<T>, c: seq<T>)
    ensures (a + b) + c == a + (b + c)
  {
  }

  /** Appending to a sequence that already contains `t` does not move its
      first occurrence. */
  lemma FindFirstExtend<T>(s: seq<T>, t: seq<T>, x: seq<T>)
    requires t != [] && FindFirst(s, t).Some?
    ensures FindFirst(s + x, t) == FindFirst(s, t)
  {
    var i := FindFirst(s, t).value;
    OccursAtAppend(s, x, t, i);
    forall j: nat | j < i
      ensures !OccursAt(s + x, t, j)
    {
      OccursAtAppend(s, x, t, j);
    }
    FindFirstIs(s + x, t, i);
  }

  /** A prefix of `s` that ends before the first occurrence of `t` does not contain `t`. */
  lemma NoOccurrenceBeforeFirst<T>(s: seq<T>, t: seq<T>, i: nat)
    requires t != [] && i <= |s|
    requires forall j: nat :: j < i ==> !OccursAt(s, t, j)
    ensures !Contains(s[..i], t)
  {
    forall j: nat | OccursAt(s[..i], t, j) ensures false {
      OccursInPrefix(s, t, i, j);
    }
  }

  /** Foundation's `components(separatedBy:)`: cut at every non-overlapping
      occurrence of `sep`, from the left, keeping empty pieces. */
  function Split<T(==)>(s: seq<T>, sep: seq<T>): (parts: seq<seq<T>>)
    requires sep != []
    ensures |parts| >= 1
    decreases |s|
  {
    match FindFirst(s, sep)
    case None => [s]
    case Some(i) => [s[..i]] + Split(s[i + |sep|..], sep)
  }

  /** No piece contains the separator. */
  lemma {:induction false} SplitPiecesFree<T>(s: seq<T>, sep: seq<T>)
    requires sep != []
    ensures forall k :: 0 <= k < |Split(s, sep)| ==> !Contains(Split(s, sep)[k], sep)
    decreases |s|
  {
    match FindFirst(s, sep)
    case None =>
      assert s[..|s|] == s;
      NoOccurrenceBeforeFirst(s, sep, |s|);
    case Some(i) =>
      NoOccurrenceBeforeFirst(s, sep, i);
      SplitPiecesFree(s[i + |sep|..], sep);
      var tail := Split(s[i + |sep|..], sep);
      assert Split(s, sep) == [s[..i]] + tail;
  }

  function Join<T>(parts: seq<seq<T>>, sep: seq<T>): seq<T>
  {
    if |parts| == 0 then []
    else if |parts| == 1 then parts[0]
    else parts[0] + sep + Join(parts[1..], sep)
  }

  /** Joining the pieces back with the separator gives the original. */
  lemma {:induction false} JoinSplit<T>(s: seq<T>, sep: seq<T>)
    requires sep != []
    ensures Join(Split(s, sep), sep) == s
    decreases |s|
  {
    match FindFirst(s, sep)
    case None =>
    case Some(i) =>
      var rest := s[i + |sep|..];
      var tail := Split(rest, sep);
      JoinSplit(rest, sep);
      var parts := [s[..i]] + tail;
      assert Split(s, sep) == parts;
      assert parts[1..] == tail;
      assert Join(parts, sep) == s[..i] + sep + rest;
      SliceThree(s, i, i + |sep|);
  }

  /** Without an occurrence of the separator there is exactly one piece. */
  lemma SplitAbsent<T>(s: seq<T>, sep: seq<T>)
    requires sep != [] && !Contains(s, sep)
    ensures Split(s, sep) == [s]
  {
  }

  /** A one-element separator that does not occur gives one piece. */
  lemma SplitWithoutChar<T>(a: seq<T>, c: T)
    requires c !in a
    ensures Split(a, [c]) == [a]
  {
    forall j: nat
      ensures !OccursAt(a, [c], j)
    {
      if j < |a| {
        assert a[j..j + 1][0] == a[j];
      }
    }
    SplitAbsent(a, [c]);
  }

  /** The first piece ends at the first occurrence of a one-element
      separator. */
  lemma SplitAtChar<T>(a: seq<T>, c: T, rest: seq<T>)
    requires c !in a
    ensures Split(a + [c] + rest, [c]) == [a] + Split(rest, [c])
  {
    var s := a + [c] + rest;
    assert s[|a|..|a| + 1] == [c];
    assert OccursAt(s, [c], |a|);
    forall j: nat | j < |a|
      ensures !OccursAt(s, [c], j)
    {
      assert s[j..j + 1][0] == a[j];
    }
    assert FindFirst(s, [c]) == Some(|a|);
    assert s[..|a|] == a;
    assert s[|a| + 1..] == rest;
  }

  /** Splitting pieces joined with a one-element separator they do not
      contain gives the pieces back. */
  lemma {:induction false} SplitJoinChar<T>(parts: seq<seq<T>>, c: T)
    requires |parts| >= 1
    requires forall k :: 0 <= k < |parts| ==> c !in parts[k]
    ensures Split(Join(parts, [c]), [c]) == parts
    decreases |parts|
  {
    if |parts| == 1 {
      SplitWithoutChar(parts[0], c);
    } else {
      assert forall k :: 0 <= k < |parts| - 1 ==> parts[1..][k] == parts[k + 1];
      SplitJoinChar(parts[1..], c);
      SplitAtChar(parts[0], c, Join(parts[1..], [c]));
      assert [parts[0]] + parts[1..] == parts;
    }
  }

  /** `replacingOccurrences(of:with:)`: every non-overlapping occurrence, from
      the left; an empty target leaves the string as it is. */
  function ReplaceAll<T(==)>(s: seq<T>, target: seq<T>, replacement: seq<T>): seq<T>
    decreases |s|
  {
    if target == [] then s
    else
      match FindFirst(s, target)
      case None => s
      case Some(i) => s[..i] + replacement + ReplaceAll(s[i + |target|..], target, replacement)
  }

  /** Replacing is splitting at the target and joining with the replacement. */
  lemma {:induction false} ReplaceAllIsJoinOfSplit<T>(s: seq<T>, target: seq<T>, replacement: seq<T>)
    requires target != []
    ensures ReplaceAll(s, target, replacement) == Join(Split(s, target), replacement)
    decreases |s|
  {
    match FindFirst(s, target)
    case None =>
    case Some(i) =>
      ReplaceAllIsJoinOfSplit(s[i + |target|..], target, replacement);
  }

  /** A string without the target is returned unchanged. */
  lemma ReplaceAllAbsent<T>(s: seq<T>, target: seq<T>, replacement: seq<T>)
    requires !Contains(s, target)
    ensures ReplaceAll(s, target, replacement) == s
  {
  }

  /** Replacing a target by itself changes nothing. */
  lemma {:induction false} ReplaceAllBySelf<T>(s: seq<T>, target: seq<T>)
    ensures ReplaceAll(s, target, target) == s
    decreases |s|
  {
    if target != [] {
      match FindFirst(s, target)
      case None =>
      case Some(i) =>
        ReplaceAllBySelf(s[i + |target|..], target);
        SliceThree(s, i, i + |target|);
    }
  }

  // ---------------------------------------------------------------------------
  // Trimming (`.whitespaces` approximated by space and horizontal tab)

  predicate IsSpace(c: char) {
    c == ' ' || c == '\t'
  }

  function LeadingSpaces(s: string): (n: nat)
    ensures n <= |s|
    ensures forall k :: 0 <= k < n ==> IsSpace(s[k])
    ensures n < |s| ==> !IsSpace(s[n])
  {
    if s == [] || !IsSpace(s[0]) then 0 else 1 + LeadingSpaces(s[1..])
  }

  function TrailingSpaces(s: string): (n: nat)
    ensures n <= |s|
    ensures forall k :: |s| - n <= k < |s| ==> IsSpace(s[k])
    ensures n < |s| ==> !IsSpace(s[|s| - 1 - n])
  {
    if s == [] || !IsSpace(s[|s| - 1]) then 0 else 1 + TrailingSpaces(s[..|s| - 1])
  }

  /** `trimmingCharacters(in: .whitespaces)`. */
  function Trim(s: string): string
  {
    var a := LeadingSpaces(s);
    if a == |s| then []
    else
      var b := TrailingSpaces(s);
      s[a..|s| - b]
  }

  /** Trimming removes exactly the leading and the trailing spaces: what is
      left neither starts nor ends with one, and sits between them. */
  lemma {:induction false} TrimSpaces(s: string)
    ensures var r := Trim(s);
            && LeadingSpaces(s) + |r| <= |s|
            && (r != [] ==> !IsSpace(r[0]) && !IsSpace(r[|r| - 1]))
            && (r == [] ==> forall k :: 0 <= k < |s| ==> IsSpace(s[k]))
            && (r != [] ==> s == s[..LeadingSpaces(s)] + r + s[LeadingSpaces(s) + |r|..])
            && (forall k :: LeadingSpaces(s) + |r| <= k < |s| ==> IsSpace(s[k]))
  {
    var a := LeadingSpaces(s);
    if a < |s| {
      var b := TrailingSpaces(s);
      assert !IsSpace(s[a]);
      assert b < |s| - a;
      var r := s[a..|s| - b];
      assert Trim(s) == r;
      assert r[0] == s[a] && r[|r| - 1] == s[|s| - 1 - b];
      SliceThree(s, a, |s| - b);
    }
  }

  /** `lowercased()`, restricted to ASCII letters. */
  function AsciiLowerChar(c: char): char {
    if 'A' <= c <= 'Z' then (c as int + 32) as char else c
  }

  function AsciiLower(s: string): (r: string)
    ensures |r| == |s|
    ensures forall k :: 0 <= k < |s| ==> r[k] == AsciiLowerChar(s[k])
  {
    if s == [] then [] else [AsciiLowerChar(s[0])] + AsciiLower(s[1..])
  }

  // ---------------------------------------------------------------------------
  // Swift's `split(separator:)`, which omits empty pieces

  /** The number of leading characters other than `sep`. */
  function RunLength(s: string, sep: char): (n: nat)
    ensures n <= |s|
    ensures forall k :: 0 <= k < n ==> s[k] != sep
    ensures n < |s| ==> s[n] == sep
  {
    if s == [] || s[0] == sep then 0 else 1 + RunLength(s[1..], sep)
  }

  /** `split(separator: sep)`: the maximal runs of characters other than `sep`. */
  function SplitOmitting(s: string, sep: char): (parts: seq<string>)
    ensures forall k :: 0 <= k < |parts| ==> parts[k] != [] && sep !in parts[k]
    decreases |s|
  {
    if s == [] then []
    else if s[0] == sep then SplitOmitting(s[1..], sep)
    else
      var n := RunLength(s, sep);
      [s[..n]] + SplitOmitting(s[n..], sep)
  }

  /** There are no pieces exactly when every character is the separator. */
  lemma {:induction false} SplitOmittingEmpty(s: string, sep: char)
    ensures SplitOmitting(s, sep) == [] <==> forall k :: 0 <= k < |s| ==> s[k] == sep
    decreases |s|
  {
    if s != [] && s[0] == sep {
      SplitOmittingEmpty(s[1..], sep);
      assert forall k :: 1 <= k < |s| ==> s[k] == s[1..][k - 1];
    }
  }

  /** The number of leading separators. */
  function LeadingCount(s: string, sep: char): (n: nat)
    ensures n <= |s|
    ensures forall k :: 0 <= k < n ==> s[k] == sep
    ensures n < |s| ==> s[n] != sep
  {
    if s == [] || s[0] != sep then 0 else 1 + LeadingCount(s[1..], sep)
  }

  /** The first piece is the first maximal run of non-separator characters,
      which only separators precede. */
  lemma {:induction false} SplitOmittingFirst(s: string, sep: char)
    requires SplitOmitting(s, sep) != []
    ensures var a := LeadingCount(s, sep);
            a < |s| && SplitOmitting(s, sep)[0] == s[a..a + RunLength(s[a..], sep)]
    decreases |s|
  {
    if s[0] == sep {
      SplitOmittingFirst(s[1..], sep);
      assert s[1..][LeadingCount(s[1..], sep)..] == s[LeadingCount(s, sep)..];
    }
  }

  /** A run ends at the first separator. */
  lemma {:induction false} RunLengthConcat(a: string, sep: char, b: string)
    requires sep !in a
    ensures RunLength(a + [sep] + b, sep) == |a|
    decreases |a|
  {
    if a != [] {
      assert (a + [sep] + b)[1..] == a[1..] + [sep] + b;
      RunLengthConcat(a[1..], sep, b);
    }
  }

  /** `split(separator: sep, maxSplits: 1)`: leading separators are skipped,
      the first piece runs to the next separator and the rest, if not empty,
      is the second piece. */
  function SplitOnceOmitting(s: string, sep: char): (parts: seq<string>)
    ensures |parts| <= 2
    ensures |parts| >= 1 ==> parts[0] != [] && sep !in parts[0]
    ensures |parts| == 2 ==> parts[1] != []
    decreases |s|
  {
    if s == [] then []
    else if s[0] == sep then SplitOnceOmitting(s[1..], sep)
    else
      var n := RunLength(s, sep);
      if n == |s| then [s]
      else if n + 1 == |s| then [s[..n]]
      else [s[..n], s[n + 1..]]
  }
}

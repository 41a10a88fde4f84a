/** The Python string operations the job parser and the form filler rely on:
    `p in s`, `s.split(c)`, `s.strip()`, `s.strip(chars)` and
    `s.replace(p, "")`, each with the property that characterises it. The
    code calls neither `find` nor `join`; `Find` and `Join` here are
    reference readings in which those properties are stated. */
module Text {
  import opened Wrappers

  /** The characters Python's `str.isspace` accepts, which `str.strip()`
      removes when called without arguments. */
  predicate IsSpace(c: char) {
    var n := c as int;
    (0x09 <= n <= 0x0D) || (0x1C <= n <= 0x20) || n == 0x85 || n == 0xA0 || n == 0x1680
    || (0x2000 <= n <= 0x200A) || n == 0x2028 || n == 0x2029 || n == 0x202F
    || n == 0x205F || n == 0x3000
  }

  /** `p` occurs in `s` starting at index `i`. */
  predicate At(s: string, p: string, i: int) {
    0 <= i && i + |p| <= |s| && s[i..i + |p|] == p
  }

  /** Python's `p in s` for two strings. */
  predicate Contains(s: string, p: string) {
    exists i | 0 <= i <= |s| - |p| :: At(s, p, i)
  }

  /** Taking one more element of a sequence appends that element. */
  lemma PrefixSnoc<T>(s: seq<T>, i: nat)
    requires i < |s|
    ensures s[..i + 1] == s[..i] + [s[i]]
  {
  }

  /** An occurrence of `p` inside `s[i..j]` is an occurrence in `s`. */
  lemma AtInfix(s: string, p: string, i: int, j: int, k: int)
    requires 0 <= i <= j <= |s| && At(s[i..j], p, k)
    ensures At(s, p, i + k)
  {
    forall m | 0 <= m < |p| ensures s[i + k + m] == p[m] {
      assert s[i..j][k..k + |p|][m] == p[m];
    }
    assert s[i + k..i + k + |p|] == p;
  }

  /** A part of a string that does not contain `p` does not contain it either. */
  lemma {:induction false} NotContainsInfix(s: string, p: string, i: int, j: int)
    requires 0 <= i <= j <= |s| && !Contains(s, p)
    ensures !Contains(s[i..j], p)
  {
    if Contains(s[i..j], p) {
      var k :| 0 <= k <= |s[i..j]| - |p| && At(s[i..j], p, k);
      AtInfix(s, p, i, j, k);
    }
  }

  /** The tail of a string that does not contain `p` does not contain it. */
  lemma NotContainsTail(s: string, p: string)
    requires s != [] && !Contains(s, p)
    ensures !Contains(s[1..], p)
  {
    NotContainsInfix(s, p, 1, |s|);
    assert s[1..|s|] == s[1..];
  }

  /** A string that lacks one of the characters of `p` does not contain `p`. */
  lemma NotContainsChar(s: string, p: string, k: nat)
    requires k < |p| && p[k] !in s
    ensures !Contains(s, p)
  {
    forall i | 0 <= i <= |s| - |p| ensures !At(s, p, i) {
      assert s[i..i + |p|][k] == s[i + k];
    }
  }

  /** Python's `s.find(c, start)` for a single character, `None` for -1. */
  function FindChar(s: string, c: char, start: nat): (r: Option<nat>)
    decreases |s| - start
    ensures r.Some? ==> start <= r.value < |s| && s[r.value] == c
    ensures r.Some? ==> forall m | start <= m < r.value :: s[m] != c
    ensures r.None? ==> forall m | start <= m < |s| :: s[m] != c
  {
    if start >= |s| then None
    else if s[start] == c then Some(start)
    else FindChar(s, c, start + 1)
  }

  /** Python's `s.find(p, start)`, `None` for -1: the first occurrence of `p`
      at or after `start`. */
  function Find(s: string, p: string, start: nat): (r: Option<nat>)
    decreases |s| + 1 - start
    ensures r.Some? ==> start <= r.value && At(s, p, r.value)
    ensures r.Some? ==> forall m | start <= m < r.value :: !At(s, p, m)
    ensures r.None? ==> forall m | start <= m :: !At(s, p, m)
  {
    if start + |p| > |s| then None
    else if s[start..start + |p|] == p then Some(start)
    else Find(s, p, start + 1)
  }

  /** Number of occurrences of the character `c` in `s`. */
  function CountChar(s: string, c: char): nat {
    if s == [] then 0 else (if s[0] == c then 1 else 0) + CountChar(s[1..], c)
  }

  /** Python's `sep.join(parts)` for a one-character separator. */
  function Join(parts: seq<string>, sep: char): string {
    if parts == [] then ""
    else if |parts| == 1 then parts[0]
    else parts[0] + [sep] + Join(parts[1..], sep)
  }

  /** Python's `s.split(sep)` for a one-character separator: the pieces
      between consecutive separators, so there is always at least one piece
      (`"".split("|") == [""]`), none of them holds the separator, and joining
      them with the separator gives `s` back. */
  function Split(s: string, sep: char): (parts: seq<string>)
    ensures |parts| >= 1
    ensures forall k | 0 <= k < |parts| :: sep !in parts[k]
    ensures Join(parts, sep) == s
  {
    if s == [] then [""]
    else
      var rest := Split(s[1..], sep);
      if s[0] == sep then
        assert Join([""] + rest, sep) == "" + [sep] + Join(rest, sep);
        [""] + rest
      else
        var parts := [[s[0]] + rest[0]] + rest[1..];
        assert parts[1..] == rest[1..];
        assert s == [s[0]] + s[1..];
        parts
  }

  /** The other half of the round trip: splitting what was joined gives the
      pieces back, provided no piece holds the separator. */
  lemma {:induction false} SplitJoin(parts: seq<string>, sep: char)
    requires |parts| >= 1
    requires forall k | 0 <= k < |parts| :: sep !in parts[k]
    ensures Split(Join(parts, sep), sep) == parts
  {
    if |parts| == 1 {
      SplitPiece(parts[0], sep);
    } else {
      var tail := Join(parts[1..], sep);
      SplitJoin(parts[1..], sep);
      SplitAfterPiece(parts[0], tail, sep);
      assert parts == [parts[0]] + parts[1..];
    }
  }

  /** A string without the separator splits into itself alone. */
  lemma {:induction false} SplitPiece(s: string, sep: char)
    requires sep !in s
    ensures Split(s, sep) == [s]
  {
    if s != [] {
      SplitPiece(s[1..], sep);
      assert [s[0]] + s[1..] == s;
    }
  }

  /** Splitting `piece + sep + t` puts `piece` in front of the pieces of `t`. */
  lemma {:induction false} SplitAfterPiece(piece: string, t: string, sep: char)
    requires sep !in piece
    ensures Split(piece + [sep] + t, sep) == [piece] + Split(t, sep)
  {
    var s := piece + [sep] + t;
    if piece == [] {
      assert s[1..] == t;
    } else {
      assert s[1..] == piece[1..] + [sep] + t;
      SplitAfterPiece(piece[1..], t, sep);
      assert [piece[0]] + piece[1..] == piece;
    }
  }

  /** Joining two non-empty lists of pieces puts one separator between them. */
  lemma {:induction false} JoinAppend(a: seq<string>, b: seq<string>, sep: char)
    requires |a| >= 1 && |b| >= 1
    ensures Join(a + b, sep) == Join(a, sep) + [sep] + Join(b, sep)
  {
    if |a| == 1 {
      assert (a + b)[1..] == b;
    } else {
      assert (a + b)[1..] == a[1..] + b;
      JoinAppend(a[1..], b, sep);
    }
  }

  /** `split` distributes over a separator: the pieces of `a + sep + b` are
      the pieces of `a` followed by the pieces of `b`. */
  lemma SplitAppend(a: string, b: string, sep: char)
    ensures Split(a + [sep] + b, sep) == Split(a, sep) + Split(b, sep)
  {
    var pa, pb := Split(a, sep), Split(b, sep);
    JoinAppend(pa, pb, sep);
    assert forall k | 0 <= k < |pa + pb| :: sep !in (pa + pb)[k];
    SplitJoin(pa + pb, sep);
  }

  /** `s.split(sep)` has one more piece than `s` has separators. */
  lemma {:induction false} SplitCount(s: string, sep: char)
    ensures |Split(s, sep)| == CountChar(s, sep) + 1
  {
    if s != [] {
      SplitCount(s[1..], sep);
    }
  }

  /** The characters of `s` from index `lo` up to `hi` all satisfy `drop`. */
  predicate DropsBetween(s: string, lo: nat, hi: nat, drop: char -> bool) {
    hi <= |s| && forall k | lo <= k < hi :: drop(s[k])
  }

  /** `r` neither starts nor ends with a character satisfying `drop`. */
  predicate Trimmed(r: string, drop: char -> bool) {
    r == [] || (!drop(r[0]) && !drop(r[|r| - 1]))
  }

  /** Length of the longest prefix of `s` whose characters satisfy `drop`. */
  function LeadLength(s: string, drop: char -> bool): (n: nat)
    ensures n <= |s| && DropsBetween(s, 0, n, drop)
    ensures n < |s| ==> !drop(s[n])
  {
    if s == [] || !drop(s[0]) then 0
    else
      var n := 1 + LeadLength(s[1..], drop);
      assert forall k | 1 <= k < n :: s[k] == s[1..][k - 1];
      n
  }

  /** Length of the longest suffix of `s` whose characters satisfy `drop`. */
  function TrailLength(s: string, drop: char -> bool): (n: nat)
    ensures n <= |s| && DropsBetween(s, |s| - n, |s|, drop)
    ensures n < |s| ==> !drop(s[|s| - 1 - n])
  {
    if s == [] || !drop(s[|s| - 1]) then 0
    else
      var init := s[..|s| - 1];
      var n := 1 + TrailLength(init, drop);
      assert forall k | |s| - n <= k < |s| - 1 :: s[k] == init[k];
      n
  }

  /** `r` sits in `s` at index `i` with only `drop` characters around it. */
  predicate Encloses(s: string, r: string, i: nat, drop: char -> bool) {
    i + |r| <= |s| && s[i..i + |r|] == r && DropsBetween(s, 0, i, drop) && DropsBetween(s, i + |r|, |s|, drop)
  }

  /** Where the slice that `Trim` returns ends: at the start of the trailing
      run of dropped characters, or right at `i` when everything from `i`
      on is dropped. */
  function TrimEnd(s: string, drop: char -> bool, i: nat): (j: nat)
    requires i == LeadLength(s, drop)
    ensures i <= j <= |s| && DropsBetween(s, j, |s|, drop)
    ensures i < j ==> !drop(s[i]) && !drop(s[j - 1])
  {
    var n := TrailLength(s, drop);
    if |s| - n < i then i else |s| - n
  }

  /** A slice with only dropped characters before and after it is enclosed. */
  lemma SliceEncloses(s: string, drop: char -> bool, i: nat, j: nat)
    requires i <= j <= |s| && DropsBetween(s, 0, i, drop) && DropsBetween(s, j, |s|, drop)
    ensures Encloses(s, s[i..j], i, drop)
  {
    assert i + |s[i..j]| == j;
  }

  /** A slice whose end characters are kept is trimmed. */
  lemma SliceTrimmed(s: string, drop: char -> bool, i: nat, j: nat)
    requires i <= j <= |s| && (i < j ==> !drop(s[i]) && !drop(s[j - 1]))
    ensures Trimmed(s[i..j], drop)
  {
    if i < j {
      assert s[i..j][0] == s[i] && s[i..j][j - i - 1] == s[j - 1];
    }
  }

  /** Python's `s.strip(chars)` with the characters to strip given as the
      predicate `drop` (`s.strip()` is `Trim(s, IsSpace)`): the result starts
      and ends with a kept character and sits inside `s` with nothing but
      dropped characters around it. */
  function Trim(s: string, drop: char -> bool): (r: string)
    ensures Trimmed(r, drop)
    ensures Encloses(s, r, LeadLength(s, drop), drop)
  {
    var i := LeadLength(s, drop);
    var j := TrimEnd(s, drop, i);
    SliceEncloses(s, drop, i, j);
    SliceTrimmed(s, drop, i, j);
    s[i..j]
  }

  /** `LeadLength` is the only length with its ensures. */
  lemma {:induction false} LeadLengthIs(s: string, drop: char -> bool, n: nat)
    requires n <= |s| && DropsBetween(s, 0, n, drop) && (n < |s| ==> !drop(s[n]))
    ensures LeadLength(s, drop) == n
  {
    if n > 0 {
      assert forall k | 0 <= k < n - 1 :: s[1..][k] == s[k + 1];
      LeadLengthIs(s[1..], drop, n - 1);
    }
  }

  /** `TrailLength` is the only length with its ensures. */
  lemma {:induction false} TrailLengthIs(s: string, drop: char -> bool, n: nat)
    requires n <= |s| && DropsBetween(s, |s| - n, |s|, drop)
    requires n < |s| ==> !drop(s[|s| - 1 - n])
    ensures TrailLength(s, drop) == n
  {
    if n > 0 {
      var init := s[..|s| - 1];
      assert forall k | |init| - (n - 1) <= k < |init| :: init[k] == s[k];
      TrailLengthIs(init, drop, n - 1);
    }
  }

  /** The ensures of `Trim` determine it: a trimmed string that sits inside
      `s` with only dropped characters around it is `Trim(s, drop)`. */
  lemma TrimUnique(s: string, r: string, i: nat, drop: char -> bool)
    requires Encloses(s, r, i, drop) && Trimmed(r, drop)
    ensures Trim(s, drop) == r
  {
    var j := i + |r|;
    if r == [] {
      LeadLengthIs(s, drop, |s|);
    } else {
      assert s[i] == r[0] && s[j - 1] == r[|r| - 1];
      LeadLengthIs(s, drop, i);
      TrailLengthIs(s, drop, |s| - j);
    }
  }

  /** A string that is already trimmed is left as it is. */
  lemma TrimTrimmed(r: string, drop: char -> bool)
    requires Trimmed(r, drop)
    ensures Trim(r, drop) == r
  {
    assert r[0..|r|] == r;
    TrimUnique(r, r, 0, drop);
  }

  /** Stripping twice strips nothing more. */
  lemma TrimIdempotent(s: string, drop: char -> bool)
    ensures Trim(Trim(s, drop), drop) == Trim(s, drop)
  {
    TrimTrimmed(Trim(s, drop), drop);
  }

  /** A character absent from `s` is absent from every slice of it. */
  lemma NotInSlice(s: string, c: char, i: nat, j: nat)
    requires i <= j <= |s| && c !in s
    ensures c !in s[i..j]
  {
    assert forall m | 0 <= m < j - i :: s[i..j][m] == s[i + m];
  }

  /** Stripping adds no character. */
  lemma TrimKeepsOut(s: string, drop: char -> bool, c: char)
    requires c !in s
    ensures c !in Trim(s, drop)
  {
    var r, i := Trim(s, drop), LeadLength(s, drop);
    NotInSlice(s, c, i, i + |r|);
  }

  /** Python's `s.replace(p, "")`: the occurrences of `p` found scanning from
      the left, without overlap, are removed. An empty `p` leaves `s` as it is. */
  function RemoveAll(s: string, p: string): (r: string)
    ensures |r| <= |s|
  {
    if p == [] || |s| < |p| then s
    else if s[..|p|] == p then RemoveAll(s[|p|..], p)
    else [s[0]] + RemoveAll(s[1..], p)
  }

  /** `replace` with nothing to replace changes nothing. */
  lemma {:induction false} RemoveAllAbsent(s: string, p: string)
    requires !Contains(s, p)
    ensures RemoveAll(s, p) == s
  {
    if p != [] && |s| >= |p| {
      assert !At(s, p, 0);
      NotContainsInfix(s, p, 1, |s|);
      assert s[1..|s|] == s[1..];
      RemoveAllAbsent(s[1..], p);
      assert [s[0]] + s[1..] == s;
    }
  }

  /** The part before the first occurrence of `p` is kept as it is. */
  lemma {:induction false} RemoveAllSkip(s: string, p: string, k: nat)
    requires p != [] && k <= |s| && forall m | 0 <= m < k :: !At(s, p, m)
    ensures RemoveAll(s, p) == s[..k] + RemoveAll(s[k..], p)
  {
    if k == 0 {
      assert s[k..] == s;
    } else {
      RemoveAllSkip(s, p, k - 1);
      NotAtSuffix(s, p, k - 1);
      RemoveAllStep(s[k - 1..], p);
      SliceAround(s, k);
      Regroup(RemoveAll(s, p), s[..k - 1], RemoveAll(s[k - 1..], p), s[k - 1], RemoveAll(s[k..], p), s[..k]);
    }
  }

  /** Moving one element from the front of the right part to the end of
      the left part. */
  lemma Regroup<T>(whole: seq<T>, left: seq<T>, right: seq<T>, x: T, rest: seq<T>, longer: seq<T>)
    requires whole == left + right && right == [x] + rest && longer == left + [x]
    ensures whole == longer + rest
  {
  }

  /** No occurrence at `i` means none at the start of `s[i..]`. */
  lemma NotAtSuffix(s: string, p: string, i: nat)
    requires i < |s| && !At(s, p, i)
    ensures !At(s[i..], p, 0)
  {
    assert |p| <= |s[i..]| ==> s[i..][..|p|] == s[i..i + |p|];
  }

  /** The slices of `s` on both sides of index `k - 1`. */
  lemma SliceAround<T>(s: seq<T>, k: nat)
    requires 0 < k <= |s|
    ensures s[k - 1..][0] == s[k - 1] && s[k - 1..][1..] == s[k..]
    ensures s[..k - 1] + [s[k - 1]] == s[..k]
  {
  }

  /** `s.replace(p, "")` by `find`: without an occurrence of `p` the
      string is kept whole ... */
  lemma RemoveAllNotFound(s: string, p: string)
    requires p != [] && Find(s, p, 0).None?
    ensures RemoveAll(s, p) == s
  {
    RemoveAllAbsent(s, p);
  }

  /** ... and otherwise the text up to the first occurrence is kept, that
      occurrence is dropped, and the rest is handled the same way. */
  lemma RemoveAllFound(s: string, p: string, i: nat)
    requires p != [] && Find(s, p, 0) == Some(i)
    ensures RemoveAll(s, p) == s[..i] + RemoveAll(s[i + |p|..], p)
  {
    RemoveAllSkip(s, p, i);
    RemoveAllAtStart(s, p, i);
  }

  /** An occurrence at `i` is dropped from `s[i..]`. */
  lemma RemoveAllAtStart(s: string, p: string, i: nat)
    requires p != [] && At(s, p, i)
    ensures RemoveAll(s[i..], p) == RemoveAll(s[i + |p|..], p)
  {
    assert s[i..][..|p|] == p && s[i..][|p|..] == s[i + |p|..];
  }

  /** Without an occurrence at the start, the first character is kept. */
  lemma RemoveAllStep(s: string, p: string)
    requires p != [] && s != [] && !At(s, p, 0)
    ensures RemoveAll(s, p) == [s[0]] + RemoveAll(s[1..], p)
  {
    if |s| < |p| {
      assert [s[0]] + s[1..] == s;
    }
  }

  /** A string that does not start with `p[0]` keeps its first character. */
  lemma RemoveAllKeepsHead(s: string, p: string)
    requires |s| > 0 && p != [] && s[0] != p[0]
    ensures |RemoveAll(s, p)| > 0 && RemoveAll(s, p)[0] == s[0]
  {
    if |s| >= |p| { assert s[..|p|][0] != p[0]; }
  }
}

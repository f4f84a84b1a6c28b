/**
 * Text primitives shared by the reply sanitiser, the marker-framed reader and
 * the exiftool argument builder. Each one is the Python string operation the
 * script calls: `pat in s`, `str.split(sep)` on one character,
 * `str.replace(c, "")` (as a filter), `str.strip()` and `str.startswith`.
 * Strings are sequences of Unicode scalar values, as Python `str` is.
 */
module Strings {

  datatype Option<T> = None | Some(value: T)

  // ---------------------------------------------------------------------
  // Occurrences of a pattern
  // ---------------------------------------------------------------------

  /** `pat` occurs in `s` starting at index `i`. */
  predicate OccursAt(s: string, pat: string, i: int)
  {
    0 <= i && i + |pat| <= |s| && s[i..i + |pat|] == pat
  }

  /** Python's `pat in s`. */
  predicate Contains(s: string, pat: string)
  {
    exists i :: 0 <= i <= |s| - |pat| && OccursAt(s, pat, i)
  }

  /** The first index at or after `from` where `pat` occurs (`s.find(pat, from)`). */
  function FindFrom(s: string, pat: string, from: nat): (k: Option<nat>)
    requires from <= |s|
    ensures k.Some? ==> from <= k.value && OccursAt(s, pat, k.value)
    ensures k.Some? ==> forall j :: from <= j < k.value ==> !OccursAt(s, pat, j)
    ensures k.None? ==> forall j :: from <= j ==> !OccursAt(s, pat, j)
    decreases |s| - from
  {
    if OccursAt(s, pat, from) then Some(from)
    else if from == |s| then None
    else FindFrom(s, pat, from + 1)
  }

  /** The first occurrence of `pat` in `s` (`s.find(pat)`, with None for -1). */
  function Find(s: string, pat: string): (k: Option<nat>)
    ensures k.Some? ==> OccursAt(s, pat, k.value) && forall j :: 0 <= j < k.value ==> !OccursAt(s, pat, j)
    ensures k.None? <==> !Contains(s, pat)
  {
    FindFrom(s, pat, 0)
  }

  /** A string without `pat` has no slice holding `pat`. */
  lemma SliceAvoids(s: string, i: nat, j: nat, pat: string)
    requires i <= j <= |s|
    requires !Contains(s, pat)
    ensures !Contains(s[i..j], pat)
  {
    forall p | 0 <= p <= |s[i..j]| - |pat|
      ensures OccursAt(s[i..j], pat, p) == OccursAt(s, pat, i + p)
    {
      var inner, outer := s[i..j][p..p + |pat|], s[i + p..i + p + |pat|];
      forall k | 0 <= k < |pat| ensures inner[k] == outer[k] {
        assert s[i..j][p + k] == s[i + p + k];
      }
      assert inner == outer;
    }
  }

  /** The text before the first occurrence of `pat` holds no occurrence of it. */
  lemma BeforeFirstOccurrence(s: string, k: nat, pat: string)
    requires k <= |s| && pat != []
    requires forall j :: 0 <= j < k ==> !OccursAt(s, pat, j)
    ensures !Contains(s[..k], pat)
  {
    forall j | 0 <= j <= k - |pat|
      ensures OccursAt(s[..k], pat, j) == OccursAt(s, pat, j)
    {
      assert s[..k][j..j + |pat|] == s[j..j + |pat|];
    }
  }

  // ---------------------------------------------------------------------
  // Counting one character
  // ---------------------------------------------------------------------

  /** Number of occurrences of `c` in `s` (`s.count(c)`). */
  function Count(s: string, c: char): nat
  {
    if s == [] then 0 else (if s[0] == c then 1 else 0) + Count(s[1..], c)
  }

  lemma {:induction false} CountAppend(a: string, b: string, c: char)
    ensures Count(a + b, c) == Count(a, c) + Count(b, c)
    decreases |a|
  {
    if a == [] {
      assert a + b == b;
    } else {
      assert (a + b)[1..] == a[1..] + b;
      CountAppend(a[1..], b, c);
    }
  }

  /** Counting a slice in two parts. */
  lemma CountSlices(s: string, i: nat, j: nat, k: nat, c: char)
    requires i <= j <= k <= |s|
    ensures Count(s[i..k], c) == Count(s[i..j], c) + Count(s[j..k], c)
  {
    assert s[i..k] == s[i..j] + s[j..k];
    CountAppend(s[i..j], s[j..k], c);
  }

  /** Counting a suffix in two parts. */
  lemma CountSuffix(s: string, i: nat, j: nat, c: char)
    requires i <= j <= |s|
    ensures Count(s[i..], c) == Count(s[i..j], c) + Count(s[j..], c)
  {
    assert s[i..] == s[i..j] + s[j..];
    CountAppend(s[i..j], s[j..], c);
  }

  lemma {:induction false} CountZero(s: string, c: char)
    ensures Count(s, c) == 0 <==> c !in s
    decreases |s|
  {
    if s != [] {
      CountZero(s[1..], c);
      assert s == [s[0]] + s[1..];
    }
  }

  // ---------------------------------------------------------------------
  // Subsequences
  // ---------------------------------------------------------------------

  /** `a` is obtained from `b` by deleting characters, the rest keeping their order. */
  predicate IsSubsequence(a: string, b: string)
    decreases |b|
  {
    if a == [] then true
    else if b == [] then false
    else if a[0] == b[0] then IsSubsequence(a[1..], b[1..])
    else IsSubsequence(a, b[1..])
  }

  lemma {:induction false} SubsequenceDropHead(a: string, b: string)
    requires a != [] && IsSubsequence(a, b)
    ensures IsSubsequence(a[1..], b)
    decreases |b|
  {
    if a[0] != b[0] {
      if a[1..] != [] {
        SubsequenceDropHead(a, b[1..]);
        SubsequenceExtend(a[1..], b);
      }
    } else if a[1..] != [] {
      SubsequenceExtend(a[1..], b);
    }
  }

  /** Putting one more character in front of `b` keeps `a` a subsequence. */
  lemma {:induction false} SubsequenceExtend(a: string, b: string)
    requires b != [] && IsSubsequence(a, b[1..])
    ensures IsSubsequence(a, b)
    decreases |b|, 0
  {
    if a != [] && a[0] == b[0] {
      SubsequenceDropHead(a, b[1..]);
    }
  }

  lemma {:induction false} SubsequenceRefl(s: string)
    ensures IsSubsequence(s, s)
    decreases |s|
  {
    if s != [] {
      SubsequenceRefl(s[1..]);
    }
  }

  lemma {:induction false} SubsequenceTrans(a: string, b: string, c: string)
    requires IsSubsequence(a, b) && IsSubsequence(b, c)
    ensures IsSubsequence(a, c)
    decreases |c|
  {
    if a == [] {
    } else if b[0] == c[0] {
      if a[0] == b[0] {
        SubsequenceTrans(a[1..], b[1..], c[1..]);
      } else {
        SubsequenceTrans(a, b[1..], c[1..]);
        SubsequenceExtend(a, c);
      }
    } else {
      SubsequenceTrans(a, b, c[1..]);
      SubsequenceExtend(a, c);
    }
  }

  lemma {:induction false} SubsequenceOfSuffix(s: string, i: nat)
    requires i <= |s|
    ensures IsSubsequence(s[i..], s)
    decreases i
  {
    if i == 0 {
      SubsequenceRefl(s);
    } else {
      SubsequenceOfSuffix(s[1..], i - 1);
      assert s[1..][i - 1..] == s[i..];
      SubsequenceExtend(s[i..], s);
    }
  }

  lemma {:induction false} SubsequenceOfPrefix(s: string, j: nat)
    requires j <= |s|
    ensures IsSubsequence(s[..j], s)
    decreases |s|
  {
    if j == 0 {
    } else {
      SubsequenceOfPrefix(s[1..], j - 1);
      assert s[1..][..j - 1] == s[..j][1..];
    }
  }

  /** Every contiguous slice is a subsequence. */
  lemma SubsequenceOfSlice(s: string, i: nat, j: nat)
    requires i <= j <= |s|
    ensures IsSubsequence(s[i..j], s)
  {
    SubsequenceOfPrefix(s, j);
    SubsequenceOfSuffix(s[..j], i);
    assert s[..j][i..] == s[i..j];
    SubsequenceTrans(s[i..j], s[..j], s);
  }

  /** A subsequence uses no character that its source does not have. */
  lemma {:induction false} SubsequenceMembers(a: string, b: string, c: char)
    requires IsSubsequence(a, b) && c in a
    ensures c in b
    decreases |b|
  {
    if a[0] == b[0] {
      if c != a[0] {
        assert c in a[1..];
        SubsequenceMembers(a[1..], b[1..], c);
      }
    } else {
      SubsequenceMembers(a, b[1..], c);
    }
  }

  lemma SubsequenceAvoids(a: string, b: string, c: char)
    requires IsSubsequence(a, b) && c !in b
    ensures c !in a
  {
    if c in a {
      SubsequenceMembers(a, b, c);
    }
  }

  lemma {:induction false} SubsequenceLength(a: string, b: string)
    requires IsSubsequence(a, b)
    ensures |a| <= |b|
    decreases |b|
  {
    if a != [] {
      if a[0] == b[0] {
        SubsequenceLength(a[1..], b[1..]);
      } else {
        SubsequenceLength(a, b[1..]);
      }
    }
  }

  // ---------------------------------------------------------------------
  // Deleting characters: str.replace(c, "") and re.sub('[class]+', '', s)
  // ---------------------------------------------------------------------

  /** The characters of `s` that satisfy `keep`, in their original order. */
  function Filter(s: string, keep: char -> bool): (r: string)
    ensures forall c :: c in r <==> c in s && keep(c)
    ensures forall c :: keep(c) ==> Count(r, c) == Count(s, c)
    ensures IsSubsequence(r, s)
    decreases |s|
  {
    if s == [] then []
    else
      var rest := Filter(s[1..], keep);
      if keep(s[0]) then
        assert ([s[0]] + rest)[1..] == rest;
        [s[0]] + rest
      else
        SubsequenceExtend(rest, s);
        rest
  }

  /** Filtering a string whose characters are all kept changes nothing. */
  lemma {:induction false} FilterKeepsAll(s: string, keep: char -> bool)
    requires forall c :: c in s ==> keep(c)
    ensures Filter(s, keep) == s
    decreases |s|
  {
    if s != [] {
      assert s[0] in s;
      forall c | c in s[1..] ensures keep(c) {
        assert c in s;
      }
      FilterKeepsAll(s[1..], keep);
      assert s == [s[0]] + s[1..];
    }
  }

  /** Deleting characters from two strings joined is deleting them from each. */
  lemma {:induction false} FilterAppend(a: string, b: string, keep: char -> bool)
    ensures Filter(a + b, keep) == Filter(a, keep) + Filter(b, keep)
    decreases |a|
  {
    if a == [] {
      assert a + b == b;
    } else {
      assert (a + b)[0] == a[0] && (a + b)[1..] == a[1..] + b;
      FilterAppend(a[1..], b, keep);
    }
  }

  /** Deleting every occurrence of one character shortens the string by exactly their number. */
  lemma {:induction false} FilterLength(s: string, keep: char -> bool, c: char)
    requires forall x :: !keep(x) <==> x == c
    ensures |Filter(s, keep)| + Count(s, c) == |s|
    decreases |s|
  {
    if s != [] {
      FilterLength(s[1..], keep, c);
      assert keep(s[0]) <==> s[0] != c;
    }
  }

  lemma FilterIdempotent(s: string, keep: char -> bool)
    ensures Filter(Filter(s, keep), keep) == Filter(s, keep)
  {
    FilterKeepsAll(Filter(s, keep), keep);
  }

  // ---------------------------------------------------------------------
  // Python's str.strip() with no argument
  // ---------------------------------------------------------------------

  /** Python's `c.isspace()`: the Unicode whitespace characters, 0x1C-0x1F included. */
  predicate IsSpace(c: char)
  {
    ('\t' <= c <= '\r') || ('\U{1C}' <= c <= '\U{1F}') || c == ' ' ||
    c == '\U{85}' || c == '\U{A0}' || c == '\U{1680}' || ('\U{2000}' <= c <= '\U{200A}') ||
    c == '\U{2028}' || c == '\U{2029}' || c == '\U{202F}' || c == '\U{205F}' || c == '\U{3000}'
  }

  /** The index of the first non-whitespace character of `s`, or |s|. */
  function LeadingSpace(s: string): (n: nat)
    ensures n <= |s|
    ensures forall i :: 0 <= i < n ==> IsSpace(s[i])
    ensures n < |s| ==> !IsSpace(s[n])
    decreases |s|
  {
    if s != [] && IsSpace(s[0]) then 1 + LeadingSpace(s[1..]) else 0
  }

  /** The length of `s` without its trailing whitespace. */
  function WithoutTrailingSpace(s: string): (n: nat)
    ensures n <= |s|
    ensures forall i :: n <= i < |s| ==> IsSpace(s[i])
    ensures 0 < n ==> !IsSpace(s[n - 1])
    decreases |s|
  {
    if s != [] && IsSpace(s[|s| - 1]) then WithoutTrailingSpace(s[..|s| - 1]) else |s|
  }

  /** No whitespace at either end, as `str.strip()` leaves a string. */
  predicate Trimmed(t: string)
  {
    t == [] || (!IsSpace(t[0]) && !IsSpace(t[|t| - 1]))
  }

  /**
   * Python's `s.strip()`: the longest slice of `s` that neither begins nor
   * ends with whitespace, everything cut from both sides being whitespace.
   */
  function Strip(s: string): (r: string)
    ensures LeadingSpace(s) + |r| <= |s| && r == s[LeadingSpace(s)..LeadingSpace(s) + |r|]
    ensures forall i :: LeadingSpace(s) + |r| <= i < |s| ==> IsSpace(s[i])
    ensures Trimmed(r)
  {
    var t := s[LeadingSpace(s)..];
    t[..WithoutTrailingSpace(t)]
  }

  /** A stripped string starts and ends with no whitespace, so stripping again changes nothing. */
  lemma StripIdempotent(s: string)
    ensures Strip(Strip(s)) == Strip(s)
  {
    var r := Strip(s);
    assert LeadingSpace(r) == 0;
    assert r[LeadingSpace(r)..] == r;
    assert WithoutTrailingSpace(r) == |r|;
  }

  /** A string that neither begins nor ends with whitespace is its own strip. */
  lemma StripUnchanged(s: string)
    requires Trimmed(s)
    ensures Strip(s) == s
  {
    assert LeadingSpace(s) == 0;
    assert s[0..] == s;
  }

  /** Leading whitespace makes no difference to the strip. */
  lemma StripAfterSpace(c: char, s: string)
    requires IsSpace(c)
    ensures Strip([c] + s) == Strip(s)
  {
    var t := [c] + s;
    assert t[1..] == s;
    assert LeadingSpace(t) == 1 + LeadingSpace(s);
    assert t[LeadingSpace(t)..] == s[LeadingSpace(s)..];
  }

  /** Stripping removes whitespace only: every other character keeps its number of occurrences. */
  lemma StripKeepsCounts(s: string)
    ensures forall c :: !IsSpace(c) ==> Count(Strip(s), c) == Count(s, c)
  {
    var a := LeadingSpace(s);
    var r := Strip(s);
    var e := a + |r|;
    forall c | !IsSpace(c) ensures Count(r, c) == Count(s, c) {
      assert c !in s[0..a];
      assert c !in s[e..|s|];
      CountZero(s[0..a], c);
      CountZero(s[e..|s|], c);
      CountSlices(s, 0, a, |s|, c);
      CountSlices(s, a, e, |s|, c);
      assert s[0..|s|] == s;
    }
  }

  /** Every character of `t` is whitespace. */
  predicate AllSpace(t: string)
  {
    forall i :: 0 <= i < |t| ==> IsSpace(t[i])
  }

  /** `strip()` cuts whitespace only: the text is what was cut in front, the strip, and what was cut behind. */
  lemma StripSplits(s: string)
    ensures AllSpace(s[..LeadingSpace(s)])
    ensures AllSpace(s[LeadingSpace(s) + |Strip(s)|..])
    ensures s == s[..LeadingSpace(s)] + Strip(s) + s[LeadingSpace(s) + |Strip(s)|..]
  {
    var n := LeadingSpace(s);
    var e := n + |Strip(s)|;
    assert forall i :: 0 <= i < |s[e..]| ==> s[e..][i] == s[e + i];
    assert s == s[..n] + s[n..e] + s[e..];
  }

  /** A whitespace character appended to `s` extends its leading whitespace only when `s` is all whitespace. */
  lemma LeadingSpaceOfAppend(s: string, c: char)
    requires IsSpace(c)
    ensures LeadingSpace(s + [c]) == if LeadingSpace(s) == |s| then |s| + 1 else LeadingSpace(s)
  {
    var t, n := s + [c], LeadingSpace(s);
    assert forall i :: 0 <= i < |s| ==> t[i] == s[i];
    if n < |s| {
      assert t[n] == s[n];
    }
  }

  /** Trailing whitespace makes no difference to the strip. */
  lemma StripBeforeSpace(s: string, c: char)
    requires IsSpace(c)
    ensures Strip(s + [c]) == Strip(s)
  {
    var t, n := s + [c], LeadingSpace(s);
    LeadingSpaceOfAppend(s, c);
    if n < |s| {
      var u := t[n..];
      assert u == s[n..] + [c];
      assert u[..|u| - 1] == s[n..];
    }
  }

  /** Whitespace in front makes no difference to the strip. */
  lemma {:induction false} StripLeadingPadding(a: string, m: string)
    requires AllSpace(a)
    ensures Strip(a + m) == Strip(m)
    decreases |a|
  {
    if a != [] {
      var c, a' := a[0], a[1..];
      assert a == [c] + a';
      assert a + m == [c] + (a' + m);
      assert AllSpace(a') by {
        forall i | 0 <= i < |a'| ensures IsSpace(a'[i]) {
          assert a'[i] == a[i + 1];
        }
      }
      StripLeadingPadding(a', m);
      StripAfterSpace(c, a' + m);
    } else {
      assert a + m == m;
    }
  }

  /** Whitespace behind makes no difference to the strip. */
  lemma {:induction false} StripTrailingPadding(m: string, b: string)
    requires AllSpace(b)
    ensures Strip(m + b) == Strip(m)
    decreases |b|
  {
    if b != [] {
      var b', c := b[..|b| - 1], b[|b| - 1];
      assert b == b' + [c];
      assert m + b == (m + b') + [c];
      assert AllSpace(b') by {
        forall i | 0 <= i < |b'| ensures IsSpace(b'[i]) {
          assert b'[i] == b[i];
        }
      }
      StripTrailingPadding(m, b');
      StripBeforeSpace(m + b', c);
    } else {
      assert m + b == m;
    }
  }

  /** Whitespace added at either end makes no difference to `strip()`. */
  lemma StripPadding(a: string, m: string, b: string)
    requires AllSpace(a) && AllSpace(b)
    ensures Strip(a + m + b) == Strip(m)
  {
    assert a + m + b == a + (m + b);
    StripLeadingPadding(a, m + b);
    StripTrailingPadding(m, b);
  }

  lemma StripIsSubsequence(s: string)
    ensures IsSubsequence(Strip(s), s)
  {
    var a := LeadingSpace(s);
    SubsequenceOfSlice(s, a, a + |Strip(s)|);
  }

  /**
   * Stripping keeps every occurrence of a pattern that begins and ends with
   * non-whitespace characters (the reader relies on this for its marker).
   */
  lemma StripKeepsOccurrence(s: string, pat: string)
    requires pat != [] && !IsSpace(pat[0]) && !IsSpace(pat[|pat| - 1])
    requires Contains(s, pat)
    ensures Contains(Strip(s), pat)
  {
    var p :| 0 <= p <= |s| - |pat| && OccursAt(s, pat, p);
    var a := LeadingSpace(s);
    var r := Strip(s);
    assert s[p] == pat[0];
    assert s[p + |pat| - 1] == pat[|pat| - 1];
    assert a <= p;
    assert p + |pat| <= a + |r|;
    OccursInSlice(s, pat, a, a + |r|, p);
  }

  /** An occurrence that lies inside a slice is an occurrence in that slice. */
  lemma OccursInSlice(s: string, pat: string, a: nat, e: nat, p: nat)
    requires a <= p && p + |pat| <= e <= |s| && OccursAt(s, pat, p)
    ensures OccursAt(s[a..e], pat, p - a)
  {
    var inner, outer := s[a..e][p - a..p - a + |pat|], s[p..p + |pat|];
    forall k | 0 <= k < |pat| ensures inner[k] == outer[k] {
      assert s[a..e][p - a + k] == s[p + k];
    }
    assert inner == outer;
  }

  // ---------------------------------------------------------------------
  // Python's str.split(sep) on one character, and its inverse sep.join
  // ---------------------------------------------------------------------

  /** `s.split(sep)`: the pieces between separators, empty pieces included. */
  function Split(s: string, sep: char): (parts: seq<string>)
    ensures |parts| >= 1
    decreases |s|
  {
    if s == [] then [[]]
    else
      var rest := Split(s[1..], sep);
      if s[0] == sep then [[]] + rest else [[s[0]] + rest[0]] + rest[1..]
  }

  /** `sep.join(parts)`. */
  function Join(parts: seq<string>, sep: char): string
  {
    if parts == [] then []
    else if |parts| == 1 then parts[0]
    else parts[0] + [sep] + Join(parts[1..], sep)
  }

  /** There is one piece more than there are separators, and no piece holds one. */
  lemma {:induction false} SplitShape(s: string, sep: char)
    ensures |Split(s, sep)| == Count(s, sep) + 1
    ensures forall i :: 0 <= i < |Split(s, sep)| ==> sep !in Split(s, sep)[i]
    decreases |s|
  {
    if s != [] {
      SplitShape(s[1..], sep);
      var rest := Split(s[1..], sep);
      if s[0] != sep {
        var parts := Split(s, sep);
        forall i | 0 <= i < |parts| ensures sep !in parts[i] {
          if i > 0 {
            assert parts[i] == rest[i];
          }
        }
      }
    }
  }

  /** Joining the pieces with the separator gives the string back. */
  lemma {:induction false} JoinSplit(s: string, sep: char)
    ensures Join(Split(s, sep), sep) == s
    decreases |s|
  {
    if s != [] {
      JoinSplit(s[1..], sep);
      var rest := Split(s[1..], sep);
      if s[0] == sep {
        assert Split(s, sep) == [[]] + rest;
        assert ([[]] + rest)[1..] == rest;
      } else {
        var parts := Split(s, sep);
        assert parts[1..] == rest[1..];
        if |rest| == 1 {
          assert Join(rest, sep) == rest[0];
        } else {
          assert Join(rest, sep) == rest[0] + [sep] + Join(rest[1..], sep);
        }
      }
    }
  }

  /** Splitting separator-free pieces joined by the separator gives the pieces back. */
  lemma {:induction false} SplitJoin(parts: seq<string>, sep: char)
    requires |parts| >= 1
    requires forall i :: 0 <= i < |parts| ==> sep !in parts[i]
    ensures Split(Join(parts, sep), sep) == parts
    decreases |parts|
  {
    if |parts| == 1 {
      SplitWithoutSeparator(parts[0], sep);
    } else {
      SplitJoin(parts[1..], sep);
      SplitPrefix(parts[0], Join(parts[1..], sep), sep);
      assert Join(parts, sep) == parts[0] + ([sep] + Join(parts[1..], sep));
      assert ([sep] + Join(parts[1..], sep))[1..] == Join(parts[1..], sep);
      assert [parts[0]] + parts[1..] == parts;
    }
  }

  lemma {:induction false} SplitWithoutSeparator(s: string, sep: char)
    requires sep !in s
    ensures Split(s, sep) == [s]
    decreases |s|
  {
    if s != [] {
      assert sep !in s[1..];
      SplitWithoutSeparator(s[1..], sep);
      assert [s[0]] + s[1..] == s;
    }
  }

  /** A separator-free prefix joins the first piece of what follows a separator. */
  lemma {:induction false} SplitPrefix(a: string, b: string, sep: char)
    requires sep !in a
    ensures Split(a + [sep] + b, sep) == [a] + Split(b, sep)
    decreases |a|
  {
    if a == [] {
      assert a + [sep] + b == [sep] + b;
      assert ([sep] + b)[1..] == b;
    } else {
      assert sep !in a[1..];
      SplitPrefix(a[1..], b, sep);
      assert (a + [sep] + b)[1..] == a[1..] + [sep] + b;
      assert [a[0]] + a[1..] == a;
    }
  }

  // ---------------------------------------------------------------------
  // ASCII case folding, as str.lower() acts on ASCII text
  // ---------------------------------------------------------------------

  /** `c.lower()` on the ASCII letters; every other character is left as it is. */
  function AsciiLower(c: char): char
  {
    if 'A' <= c <= 'Z' then (c as int + 32) as char else c
  }
}

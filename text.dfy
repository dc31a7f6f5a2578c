/**
  The few Python string operations the bot relies on, on strings as sequences
  of characters: str.strip(), str.split(sep) with a one-character separator,
  str.lower(), `pat in s`, and the decimal rendering of a non-negative int.
 */
module Text {

  // ---------------------------------------------------------------- strip

  /** The characters for which Python's str.isspace() holds; str.strip() removes them. */
  predicate IsSpace(c: char) {
    var n := c as int;
    (9 <= n <= 13) || (28 <= n <= 32) || n == 0x85 || n == 0xA0 || n == 0x1680
    || (0x2000 <= n <= 0x200A) || n == 0x2028 || n == 0x2029 || n == 0x202F
    || n == 0x205F || n == 0x3000
  }

  /** Number of whitespace characters at the start of `s`. */
  function LeadingSpaces(s: string): (n: nat)
    ensures n <= |s|
    ensures forall k :: 0 <= k < n ==> IsSpace(s[k])
    ensures n < |s| ==> !IsSpace(s[n])
    decreases |s|
  {
    if s == [] || !IsSpace(s[0]) then 0 else 1 + LeadingSpaces(s[1..])
  }

  /** Python's str.strip() with no argument: whitespace removed from both ends. */
  function Strip(s: string): (r: string)
    ensures r == "" || (!IsSpace(r[0]) && !IsSpace(r[|r| - 1]))
    ensures LeadingSpaces(s) + |r| <= |s|
    ensures r == s[LeadingSpaces(s)..LeadingSpaces(s) + |r|]
    decreases |s|
  {
    if s != [] && IsSpace(s[0]) then
      var r := Strip(s[1..]);
      var a := LeadingSpaces(s[1..]);
      SliceOfSlice(s, 1, a, a + |r|);
      r
    else if s != [] && IsSpace(s[|s| - 1]) then
      var front := s[..|s| - 1];
      assert front[0] == s[0];
      var r := Strip(front);
      assert front[0..|r|] == s[0..|r|];
      r
    else s
  }

  lemma SliceOfSlice(s: string, lo: nat, i: nat, j: nat)
    requires lo <= |s| && i <= j <= |s| - lo
    ensures s[lo..][i..j] == s[lo + i..lo + j]
  {
    forall k | 0 <= k < j - i ensures s[lo..][i..j][k] == s[lo + i..lo + j][k] {
      assert s[lo..][i..j][k] == s[lo..][i + k] == s[lo + i + k];
    }
  }

  /** Only whitespace is removed: every character outside the kept range is a space. */
  lemma {:induction false} StripRemovesOnlySpaces(s: string)
    ensures forall k :: 0 <= k < |s| && !(LeadingSpaces(s) <= k < LeadingSpaces(s) + |Strip(s)|) ==> IsSpace(s[k])
    decreases |s|
  {
    if s != [] && IsSpace(s[0]) {
      var tail := s[1..];
      StripRemovesOnlySpaces(tail);
      forall k | 1 <= k < |s| ensures s[k] == tail[k - 1] { }
    } else if s != [] && IsSpace(s[|s| - 1]) {
      var front := s[..|s| - 1];
      StripRemovesOnlySpaces(front);
      assert front[0] == s[0];
      forall k | 0 <= k < |front| ensures s[k] == front[k] { }
    }
  }

  /** Stripping twice removes nothing more. */
  lemma StripIdempotent(s: string)
    ensures Strip(Strip(s)) == Strip(s)
  {
  }

  /** Stripping adds no character: one absent from the original is absent from the result. */
  lemma StripKeepsOut(s: string, c: char)
    requires c !in s
    ensures c !in Strip(s)
  {
    var r := Strip(s);
    var a := LeadingSpaces(s);
    forall k | 0 <= k < |r| ensures r[k] != c {
      assert r[k] == s[a + k];
    }
  }

  /** The stripped string occurs in the original, after the leading whitespace. */
  lemma StripOccurs(s: string)
    ensures OccursAt(s, Strip(s), LeadingSpaces(s))
  {
  }

  /** The stripped tail of a string, from `lo` on, occurs in it after `lo` and the whitespace there. */
  lemma StripOccursAfter(s: string, lo: nat)
    requires lo <= |s|
    ensures OccursAt(s, Strip(s[lo..]), lo + LeadingSpaces(s[lo..]))
  {
    var rest := s[lo..];
    StripOccurs(rest);
    assert s[lo..|s|] == rest;
    OccursInSlice(s, lo, |s|, Strip(rest), LeadingSpaces(rest));
  }

  /** The stripped prefix of a string, up to `hi`, occurs in it after the leading whitespace. */
  lemma StripOccursBefore(s: string, hi: nat)
    requires hi <= |s|
    ensures OccursAt(s, Strip(s[..hi]), LeadingSpaces(s[..hi]))
    ensures LeadingSpaces(s[..hi]) + |Strip(s[..hi])| <= hi
  {
    var front := s[..hi];
    StripOccurs(front);
    assert s[0..hi] == front;
    OccursInSlice(s, 0, hi, Strip(front), LeadingSpaces(front));
  }

  /** An occurrence inside a slice is an occurrence in the whole string, shifted by the slice's start. */
  lemma OccursInSlice(s: string, lo: int, hi: int, pat: string, i: int)
    requires 0 <= lo <= hi <= |s| && OccursAt(s[lo..hi], pat, i)
    ensures OccursAt(s, pat, lo + i)
  {
    var sub := s[lo..hi];
    assert sub[i..i + |pat|] == pat;
    forall k | 0 <= k < |pat| ensures s[lo + i + k] == pat[k] {
      assert pat[k] == sub[i + k] == s[lo + i + k];
    }
    assert s[lo + i..lo + i + |pat|] == pat;
  }

  // ---------------------------------------------------------------- split / join

  /** Index of the first `c` in `s`, or |s| when there is none. */
  function IndexOf(s: string, c: char): (i: nat)
    ensures i <= |s|
    ensures forall k :: 0 <= k < i ==> s[k] != c
    ensures i < |s| ==> s[i] == c
    decreases |s|
  {
    if s == [] then 0 else if s[0] == c then 0 else 1 + IndexOf(s[1..], c)
  }

  /** Python's s.split(sep) for a one-character separator: never empty, "" splits to [""]. */
  function Split(s: string, sep: char): (parts: seq<string>)
    ensures |parts| >= 1
    decreases |s|
  {
    var i := IndexOf(s, sep);
    if i == |s| then [s] else [s[..i]] + Split(s[i + 1..], sep)
  }

  /** No piece of a split holds the separator. */
  lemma {:induction false} SplitPiecesFree(s: string, sep: char)
    ensures forall k :: 0 <= k < |Split(s, sep)| ==> sep !in Split(s, sep)[k]
    decreases |s|
  {
    var i := IndexOf(s, sep);
    if i < |s| {
      var head, rest := s[..i], s[i + 1..];
      SplitPiecesFree(rest, sep);
      assert sep !in head by {
        forall k | 0 <= k < |head| ensures head[k] != sep { assert head[k] == s[k]; }
      }
      var parts := Split(s, sep);
      assert parts == [head] + Split(rest, sep);
      forall k | 0 <= k < |parts| ensures sep !in parts[k] {
        if k > 0 { assert parts[k] == Split(rest, sep)[k - 1]; }
      }
    }
  }

  /** Python's sep.join(parts). */
  function Join(parts: seq<string>, sep: char): string
    requires |parts| >= 1
    decreases |parts|
  {
    if |parts| == 1 then parts[0] else parts[0] + [sep] + Join(parts[1..], sep)
  }

  /** Joining the pieces of a split gives back the original text. */
  lemma {:induction false} JoinSplit(s: string, sep: char)
    ensures Join(Split(s, sep), sep) == s
    decreases |s|
  {
    var i := IndexOf(s, sep);
    if i == |s| {
      assert Split(s, sep) == [s];
    } else {
      var head, rest := s[..i], s[i + 1..];
      var parts, tail := Split(s, sep), Split(rest, sep);
      assert parts == [head] + tail;
      assert |parts| != 1 && parts[0] == head && parts[1..] == tail;
      JoinSplit(rest, sep);
      assert s == head + [s[i]] + rest;
      calc {
        Join(parts, sep);
        head + [sep] + Join(tail, sep);
        head + [sep] + rest;
      }
    }
  }

  /** Splitting a join of separator-free pieces gives back the pieces. */
  lemma {:induction false} SplitJoin(parts: seq<string>, sep: char)
    requires |parts| >= 1
    requires forall k :: 0 <= k < |parts| ==> sep !in parts[k]
    ensures Split(Join(parts, sep), sep) == parts
    decreases |parts|
  {
    var head := parts[0];
    assert sep !in head;
    if |parts| == 1 {
      assert IndexOf(head, sep) == |head|;
    } else {
      var tail := parts[1..];
      assert forall k :: 0 <= k < |tail| ==> sep !in tail[k] by {
        forall k | 0 <= k < |tail| ensures sep !in tail[k] { assert tail[k] == parts[k + 1]; }
      }
      SplitJoin(tail, sep);
      SplitAtFirst(head, sep, Join(tail, sep));
      assert parts == [head] + tail;
    }
  }

  /** A separator-free head followed by the separator splits off as the first piece. */
  lemma SplitAtFirst(head: string, sep: char, rest: string)
    requires sep !in head
    ensures Split(head + [sep] + rest, sep) == [head] + Split(rest, sep)
  {
    var s := head + [sep] + rest;
    IndexAfterSeparatorFree(head, sep, rest);
    assert s[..|head|] == head;
    assert s[|head| + 1..] == rest;
  }

  lemma IndexAfterSeparatorFree(a: string, sep: char, b: string)
    requires sep !in a
    ensures IndexOf(a + [sep] + b, sep) == |a|
  {
    var s := a + [sep] + b;
    assert s[|a|] == sep;
    forall k | 0 <= k < |a| ensures s[k] != sep {
      assert s[k] == a[k] && a[k] in a;
    }
  }

  // ---------------------------------------------------------------- substring

  /** `pat` occurs in `s` starting at position `i`. */
  predicate OccursAt(s: string, pat: string, i: int) {
    0 <= i && i + |pat| <= |s| && s[i..i + |pat|] == pat
  }

  /** Python's `pat in s`: the pattern occurs at some position. */
  predicate Contains(s: string, pat: string): (b: bool)
    ensures b <==> exists i :: OccursAt(s, pat, i)
    decreases |s|
  {
    if |s| < |pat| then false
    else if s[..|pat|] == pat then
      assert OccursAt(s, pat, 0) by { assert s[0..0 + |pat|] == s[..|pat|]; }
      true
    else
      OccursAfterFirst(s, pat);
      Contains(s[1..], pat)
  }

  /** When the pattern is not at the front, its occurrences are those in the tail, shifted by one. */
  lemma OccursAfterFirst(s: string, pat: string)
    requires |pat| <= |s| && s[..|pat|] != pat
    ensures s != []
    ensures (exists i :: OccursAt(s, pat, i)) <==> exists i :: OccursAt(s[1..], pat, i)
  {
    if exists i :: OccursAt(s[1..], pat, i) {
      var i :| OccursAt(s[1..], pat, i);
      assert s[i + 1..i + 1 + |pat|] == s[1..][i..i + |pat|];
      assert OccursAt(s, pat, i + 1);
    }
    if exists i :: OccursAt(s, pat, i) {
      assert !OccursAt(s, pat, 0) by { assert s[0..0 + |pat|] == s[..|pat|]; }
      var i :| OccursAt(s, pat, i);
      assert s[1..][i - 1..i - 1 + |pat|] == s[i..i + |pat|];
      assert OccursAt(s[1..], pat, i - 1);
    }
  }

  // ---------------------------------------------------------------- lower

  predicate IsAsciiUpper(c: char) { 'A' <= c <= 'Z' }
  predicate IsAsciiLetter(c: char) { 'A' <= c <= 'Z' || 'a' <= c <= 'z' }

  function LowerChar(c: char): char {
    if IsAsciiUpper(c) then (c as int + 32) as char else c
  }

  /** Two characters are the same letter up to ASCII case. */
  predicate SameIgnoringCase(c: char, d: char) {
    c == d || (IsAsciiLetter(c) && IsAsciiLetter(d) && (c as int - d as int == 32 || d as int - c as int == 32))
  }

  /** Case-insensitive equality, stated position by position. */
  predicate EqualIgnoringCase(a: string, b: string) {
    |a| == |b| && forall k :: 0 <= k < |a| ==> SameIgnoringCase(a[k], b[k])
  }

  /**
    Python's str.lower() on the ASCII letters: the result equals the original
    up to case and holds no upper-case letter (other characters are kept).
   */
  function Lower(s: string): (r: string)
    ensures EqualIgnoringCase(r, s)
    ensures forall k :: 0 <= k < |r| ==> !IsAsciiUpper(r[k])
  {
    seq(|s|, k requires 0 <= k < |s| => LowerChar(s[k]))
  }

  /** Comparing lowered strings is exactly case-insensitive equality. */
  lemma LowerEqualIff(a: string, b: string)
    ensures Lower(a) == Lower(b) <==> EqualIgnoringCase(a, b)
  {
    if Lower(a) == Lower(b) {
      forall k | 0 <= k < |a| ensures SameIgnoringCase(a[k], b[k]) {
        assert Lower(a)[k] == Lower(b)[k];
      }
    }
    if EqualIgnoringCase(a, b) {
      forall k | 0 <= k < |a| ensures Lower(a)[k] == Lower(b)[k] {
        assert SameIgnoringCase(a[k], b[k]);
      }
    }
  }

  // ---------------------------------------------------------------- decimal

  predicate IsDigit(c: char) { '0' <= c <= '9' }

  predicate AllDigits(s: string) {
    forall k :: 0 <= k < |s| ==> IsDigit(s[k])
  }

  function DigitChar(d: nat): (c: char)
    requires d < 10
    ensures IsDigit(c) && c as int - '0' as int == d
  {
    ('0' as int + d) as char
  }

  /** Python's str(n) for a non-negative int: digits, no leading zero. */
  function Decimal(n: nat): (s: string)
    ensures |s| >= 1 && AllDigits(s)
    ensures s[0] == '0' ==> n == 0
    decreases n
  {
    if n < 10 then [DigitChar(n)] else Decimal(n / 10) + [DigitChar(n % 10)]
  }

  /** The value of a string of decimal digits. */
  function ParseDecimal(s: string): nat
    requires AllDigits(s)
    decreases |s|
  {
    if s == [] then 0
    else ParseDecimal(s[..|s| - 1]) * 10 + (s[|s| - 1] as int - '0' as int)
  }

  /** Reading back the rendering of a number gives the number. */
  lemma {:induction false} ParseDecimalOfDecimal(n: nat)
    ensures ParseDecimal(Decimal(n)) == n
    decreases n
  {
    var s := Decimal(n);
    if n >= 10 {
      ParseDecimalOfDecimal(n / 10);
      assert s[..|s| - 1] == Decimal(n / 10);
    }
  }
}

/** String helpers shared by several components: joining and splitting on a
    separator, decimal rendering of naturals, ASCII case mapping, suffixes. */
module Strings {
  import opened Wrappers

  /** The parts with `sep` between consecutive parts (JavaScript `Array.prototype.join`,
      Python `str.join`). */
  function Join(parts: seq<string>, sep: string): string
    decreases |parts|
  {
    if |parts| == 0 then ""
    else if |parts| == 1 then parts[0]
    else parts[0] + sep + Join(parts[1..], sep)
  }

  /** `sep` occurs in `s` starting at index `i`. */
  predicate OccursAt(s: string, sep: string, i: nat) {
    i + |sep| <= |s| && s[i..i + |sep|] == sep
  }

  predicate Contains(s: string, sep: string) {
    exists i: nat | i <= |s| :: OccursAt(s, sep, i)
  }

  /** The first index at or after `from` where `sep` occurs in `s`. */
  function FindFrom(s: string, sep: string, from: nat): (r: Option<nat>)
    requires |sep| > 0
    ensures r.Some? ==> from <= r.value && OccursAt(s, sep, r.value)
    ensures r.Some? ==> forall j: nat | from <= j < r.value :: !OccursAt(s, sep, j)
    ensures r.None? ==> forall j: nat | from <= j :: !OccursAt(s, sep, j)
    decreases |s| - from
  {
    if from + |sep| > |s| then None
    else if OccursAt(s, sep, from) then Some(from)
    else FindFrom(s, sep, from + 1)
  }

  /** `s.split(sep)` for a non-empty string separator: the pieces between the
      non-overlapping occurrences of `sep`, scanning from the left. */
  function Split(s: string, sep: string): (parts: seq<string>)
    requires |sep| > 0
    ensures |parts| >= 1
    decreases |s|
  {
    match FindFrom(s, sep, 0)
    case None => [s]
    case Some(i) => [s[..i]] + Split(s[i + |sep|..], sep)
  }

  /** Joining the pieces of a split with the same separator gives back the string. */
  lemma {:induction false} JoinSplit(s: string, sep: string)
    requires |sep| > 0
    ensures Join(Split(s, sep), sep) == s
    decreases |s|
  {
    match FindFrom(s, sep, 0)
    case None =>
    case Some(i) =>
      var rest := s[i + |sep|..];
      var parts := Split(rest, sep);
      JoinSplit(rest, sep);
      assert Split(s, sep) == [s[..i]] + parts;
      assert ([s[..i]] + parts)[1..] == parts;
      assert Join([s[..i]] + parts, sep) == s[..i] + sep + Join(parts, sep);
      assert s == s[..i] + s[i..i + |sep|] + rest;
  }

  /** A match found in `a` is still the first match once more text follows. */
  lemma {:induction false} FindFromAppend(a: string, b: string, sep: string, from: nat)
    requires |sep| > 0 && FindFrom(a, sep, from).Some?
    ensures FindFrom(a + b, sep, from) == FindFrom(a, sep, from)
    decreases |a| - from
  {
    var ab := a + b;
    assert from + |sep| <= |a|;
    assert ab[from..from + |sep|] == a[from..from + |sep|];
    if !OccursAt(a, sep, from) {
      FindFromAppend(a, b, sep, from + 1);
    }
  }

  /** `p` followed by `sep` has its first occurrence of `sep` right after `p`:
      no occurrence starts inside `p`, not even one that runs into `sep`. */
  predicate CleanlySeparated(p: string, sep: string) {
    forall j: nat | j < |p| :: !OccursAt(p + sep, sep, j)
  }

  /** Splitting a join gives back the parts when no occurrence of the separator
      starts inside a part. */
  lemma {:induction false} SplitJoin(parts: seq<string>, sep: string)
    requires |sep| > 0 && |parts| >= 1
    requires forall i | 0 <= i < |parts| - 1 :: CleanlySeparated(parts[i], sep)
    requires !Contains(parts[|parts| - 1], sep)
    ensures Split(Join(parts, sep), sep) == parts
    decreases |parts|
  {
    var p := parts[0];
    if |parts| == 1 {
      assert FindFrom(p, sep, 0).None?;
    } else {
      var rest := parts[1..];
      var tail := Join(rest, sep);
      var s := p + sep + tail;
      assert Join(parts, sep) == s;
      assert OccursAt(p + sep, sep, |p|) by { assert (p + sep)[|p|..|p| + |sep|] == sep; }
      assert FindFrom(p + sep, sep, 0) == Some(|p|) by {
        assert CleanlySeparated(p, sep);
      }
      FindFromAppend(p + sep, tail, sep, 0);
      assert s[|p| + |sep|..] == tail;
      assert s[..|p|] == p;
      assert FindFrom(s, sep, 0) == Some(|p|);
      SplitJoin(rest, sep);
      assert Split(s, sep) == [p] + Split(tail, sep);
    }
  }

  /** No piece of a split contains the separator. */
  lemma {:induction false} SplitPiecesAvoidSeparator(s: string, sep: string)
    requires |sep| > 0
    ensures forall p | p in Split(s, sep) :: !Contains(p, sep)
    decreases |s|
  {
    match FindFrom(s, sep, 0)
    case None =>
    case Some(i) =>
      var head := s[..i];
      var rest := s[i + |sep|..];
      SplitPiecesAvoidSeparator(rest, sep);
      forall j: nat | j <= |head|
        ensures !OccursAt(head, sep, j)
      {
        if j + |sep| <= |head| {
          assert head[j..j + |sep|] == s[j..j + |sep|];
          assert !OccursAt(s, sep, j);
        }
      }
      assert Split(s, sep) == [head] + Split(rest, sep);
  }

  /** A character absent from `u` is first found right after `u`. */
  lemma FirstOccurrenceAfter(u: string, rest: string, c: char)
    requires c !in u && |rest| > 0 && rest[0] == c
    ensures FindFrom(u + rest, [c], 0) == Some(|u|)
  {
    var s := u + rest;
    assert OccursAt(s, [c], |u|) by { assert s[|u|..|u| + 1] == [c]; }
    forall j: nat | j < |u|
      ensures !OccursAt(s, [c], j)
    {
      assert s[j] == u[j];
      assert u[j] in u;
      assert s[j..j + 1] == [s[j]];
    }
  }

  /** Appending a part adds the separator and the part. */
  lemma JoinSnoc(parts: seq<string>, last: string, sep: string)
    requires |parts| > 0
    ensures Join(parts + [last], sep) == Join(parts, sep) + sep + last
    decreases |parts|
  {
    if |parts| > 1 {
      assert (parts + [last])[1..] == parts[1..] + [last];
      JoinSnoc(parts[1..], last, sep);
    }
  }

  /** The decimal digit for `d`. */
  function Digit(d: nat): char
    requires d < 10
  {
    "0123456789"[d]
  }

  /** Decimal rendering of a natural number, as Python's `str` and JavaScript's
      template literals print one. */
  function NatToString(n: nat): (s: string)
    ensures |s| >= 1
    ensures forall c | c in s :: '0' <= c <= '9'
  {
    if n < 10 then [Digit(n)] else NatToString(n / 10) + [Digit(n % 10)]
  }

  lemma DigitInjective(a: nat, b: nat)
    requires a < 10 && b < 10 && Digit(a) == Digit(b)
    ensures a == b
  {
  }

  /** Different numbers print differently. */
  lemma {:induction false} NatToStringInjective(m: nat, n: nat)
    requires NatToString(m) == NatToString(n)
    ensures m == n
    decreases m
  {
    var sm, sn := NatToString(m), NatToString(n);
    if m < 10 && n < 10 {
      DigitInjective(m, n);
    } else if m < 10 || n < 10 {
      // one rendering has a single digit, the other at least two
      assert false;
    } else {
      assert sm[|sm| - 1] == Digit(m % 10);
      assert sn[|sn| - 1] == Digit(n % 10);
      DigitInjective(m % 10, n % 10);
      assert sm[..|sm| - 1] == NatToString(m / 10);
      assert sn[..|sn| - 1] == NatToString(n / 10);
      NatToStringInjective(m / 10, n / 10);
    }
  }

  /** `toLowerCase` restricted to ASCII: `A`..`Z` become `a`..`z`, everything else is kept. */
  function AsciiLower(c: char): (l: char)
    ensures 'A' <= c <= 'Z' ==> 'a' <= l <= 'z'
    ensures !('A' <= c <= 'Z') ==> l == c
  {
    if 'A' <= c <= 'Z' then (c as int - 'A' as int + 'a' as int) as char else c
  }

  function AsciiLowerString(s: string): (r: string)
    ensures |r| == |s|
    ensures forall i | 0 <= i < |s| :: r[i] == AsciiLower(s[i])
  {
    seq(|s|, i requires 0 <= i < |s| => AsciiLower(s[i]))
  }

  /** `s.endsWith(suffix)`. */
  predicate EndsWith(s: string, suffix: string) {
    |suffix| <= |s| && s[|s| - |suffix|..] == suffix
  }
}

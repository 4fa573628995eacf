/**
 * The parts of java.lang.String and java.lang.Integer that the converter relies on,
 * written out on `seq<char>`: `trim`, `contains`, `endsWith`, `equalsIgnoreCase`,
 * `split` on a literal separator, `replace` of a literal, `Integer.parseInt` on a run
 * of ASCII digits and `Integer.toString` of a non-negative number.
 */
module Strings {
  import opened Wrappers

  // ---------------------------------------------------------------------------
  // Character classes
  // ---------------------------------------------------------------------------

  /** `\d` of java.util.regex without UNICODE_CHARACTER_CLASS. */
  predicate IsDigit(c: char) {
    '0' <= c <= '9'
  }

  /** `\s` of java.util.regex without UNICODE_CHARACTER_CLASS: [ \t\n\x0B\f\r]. */
  predicate IsSpace(c: char) {
    c == ' ' || c == '\t' || c == '\n' || c as int == 11 || c as int == 12 || c == '\r'
  }

  /** The characters String.trim removes: every code point up to U+0020. */
  predicate IsTrimmable(c: char) {
    c as int <= 32
  }

  /** Where the greedy `\s+` (or `\s*`) starting at `j` stops. */
  function SpaceRunEnd(s: string, j: nat): (e: nat)
    requires j <= |s|
    ensures j <= e <= |s|
    ensures forall k :: j <= k < e ==> IsSpace(s[k])
    ensures e < |s| ==> !IsSpace(s[e])
    decreases |s| - j
  {
    if j == |s| || !IsSpace(s[j]) then j else SpaceRunEnd(s, j + 1)
  }

  /** ASCII lower-casing, the folding equalsIgnoreCase applies to the tag names used here. */
  function ToLower(c: char): char {
    if 'A' <= c <= 'Z' then (c as int + 32) as char else c
  }

  /** String.equalsIgnoreCase, with ASCII case folding. */
  predicate EqualsIgnoreCase(a: string, b: string) {
    |a| == |b| && forall k :: 0 <= k < |a| ==> ToLower(a[k]) == ToLower(b[k])
  }

  // ---------------------------------------------------------------------------
  // Occurrences, contains, endsWith
  // ---------------------------------------------------------------------------

  /** `pat` occurs in `s` starting at index `i`. */
  predicate OccursAt(s: string, i: nat, pat: string) {
    i + |pat| <= |s| && s[i..i + |pat|] == pat
  }

  /** String.contains. */
  predicate Contains(s: string, pat: string) {
    exists i: nat :: i <= |s| && OccursAt(s, i, pat)
  }

  /** String.endsWith. */
  predicate EndsWith(s: string, suffix: string) {
    |suffix| <= |s| && s[|s| - |suffix|..] == suffix
  }

  /** String.indexOf: the first occurrence of a non-empty pattern. */
  function IndexOf(s: string, pat: string): (r: Option<nat>)
    requires |pat| > 0
    ensures r.Some? ==> OccursAt(s, r.value, pat)
    ensures r.Some? ==> forall k: nat :: k < r.value ==> !OccursAt(s, k, pat)
    ensures r.None? <==> !Contains(s, pat)
    decreases |s|
  {
    if |s| < |pat| then
      None
    else if s[..|pat|] == pat then
      Some(0)
    else
      match IndexOf(s[1..], pat)
      case None =>
        assert forall k: nat :: k <= |s| && OccursAt(s, k, pat) ==> k > 0 && OccursAt(s[1..], k - 1, pat);
        None
      case Some(i) =>
        assert forall k: nat :: 0 < k <= i ==> (OccursAt(s, k, pat) <==> OccursAt(s[1..], k - 1, pat));
        OccursInSuffix(s, 1, i, pat);
        Some(i + 1)
  }

  /** An occurrence inside a prefix is an occurrence in the whole string. */
  lemma OccursInPrefix(s: string, n: nat, k: nat, pat: string)
    requires n <= |s| && OccursAt(s[..n], k, pat)
    ensures OccursAt(s, k, pat)
  {
    assert s[..n][k..k + |pat|] == s[k..k + |pat|];
  }

  /** An occurrence inside a suffix is an occurrence in the whole string, shifted. */
  lemma OccursInSuffix(s: string, n: nat, k: nat, pat: string)
    requires n <= |s| && OccursAt(s[n..], k, pat)
    ensures OccursAt(s, n + k, pat)
  {
    assert s[n..][k..k + |pat|] == s[n + k..n + k + |pat|];
  }

  /** An occurrence of `pat` inside an occurrence of `r` is an occurrence in `s`. */
  lemma InfixOccurrence(s: string, i: nat, r: string, k: nat, pat: string)
    requires OccursAt(s, i, r) && OccursAt(r, k, pat)
    ensures OccursAt(s, i + k, pat)
  {
    assert r == s[i..i + |r|];
    forall m | 0 <= m < |pat| ensures s[i + k + m] == pat[m] {
      assert pat[m] == r[k + m] == s[i + k + m];
    }
    assert s[i + k..i + k + |pat|] == pat;
  }

  /** Concatenation regroups. */
  lemma Assoc3<T>(a: seq<T>, b: seq<T>, c: seq<T>)
    ensures a + b + c == a + (b + c)
  {
  }

  lemma Assoc4<T>(a: seq<T>, b: seq<T>, c: seq<T>, d: seq<T>)
    ensures a + b + c + d == a + (b + c + d)
  {
  }

  // ---------------------------------------------------------------------------
  // trim
  // ---------------------------------------------------------------------------

  /** The string without its leading trimmable characters. */
  function TrimLeft(s: string): string
    decreases |s|
  {
    if |s| > 0 && IsTrimmable(s[0]) then TrimLeft(s[1..]) else s
  }

  /** The string without its trailing trimmable characters. */
  function TrimRight(s: string): string
    decreases |s|
  {
    if |s| > 0 && IsTrimmable(s[|s| - 1]) then TrimRight(s[..|s| - 1]) else s
  }

  lemma {:induction false} TrimLeftShape(s: string)
    ensures var r := TrimLeft(s);
      |r| <= |s| && r == s[|s| - |r|..] && (r == [] || !IsTrimmable(r[0]))
      && forall k :: 0 <= k < |s| - |r| ==> IsTrimmable(s[k])
    decreases |s|
  {
    if |s| > 0 && IsTrimmable(s[0]) {
      TrimLeftShape(s[1..]);
    }
  }

  lemma {:induction false} TrimRightShape(s: string)
    ensures var r := TrimRight(s);
      |r| <= |s| && r == s[..|r|] && (r == [] || !IsTrimmable(r[|r| - 1]))
      && forall k :: |r| <= k < |s| ==> IsTrimmable(s[k])
    decreases |s|
  {
    if |s| > 0 && IsTrimmable(s[|s| - 1]) {
      TrimRightShape(s[..|s| - 1]);
    }
  }

  /** String.trim: drop the code points up to U+0020 at both ends. */
  function Trim(s: string): string {
    TrimRight(TrimLeft(s))
  }

  /**
   * What trim leaves: a piece of the string that neither starts nor ends with a
   * trimmable character, empty exactly when every character is trimmable.
   */
  lemma TrimShape(s: string)
    ensures var r := Trim(s);
      (r == [] || (!IsTrimmable(r[0]) && !IsTrimmable(r[|r| - 1])))
      && (r == [] <==> forall k :: 0 <= k < |s| ==> IsTrimmable(s[k]))
      && |TrimLeft(s)| <= |s| && OccursAt(s, |s| - |TrimLeft(s)|, r)
  {
    var l := TrimLeft(s);
    var r := TrimRight(l);
    TrimLeftShape(s);
    TrimRightShape(l);
    if l != [] {
      assert !IsTrimmable(l[0]);
      assert |r| > 0;
      assert r[0] == l[0];
    } else {
      assert forall k :: 0 <= k < |s| ==> IsTrimmable(s[k]);
    }
    var i := |s| - |l|;
    assert s[i..i + |r|] == l[..|r|];
  }

  /** A string without a given pattern keeps that property when trimmed. */
  lemma TrimKeepsAbsence(s: string, pat: string)
    requires !Contains(s, pat)
    ensures !Contains(Trim(s), pat)
  {
    var r := Trim(s);
    TrimShape(s);
    var i := |s| - |TrimLeft(s)|;
    if Contains(r, pat) {
      var k: nat :| k <= |r| && OccursAt(r, k, pat);
      InfixOccurrence(s, i, r, k, pat);
    }
  }

  // ---------------------------------------------------------------------------
  // split and replace on a literal pattern
  // ---------------------------------------------------------------------------

  /** The strings joined with `sep` between consecutive ones. */
  function Join(parts: seq<string>, sep: string): string {
    if |parts| == 0 then ""
    else if |parts| == 1 then parts[0]
    else parts[0] + sep + Join(parts[1..], sep)
  }

  /**
   * The pieces between the non-overlapping occurrences of `sep`, found left to right,
   * before String.split discards trailing empty pieces.
   */
  function Pieces(s: string, sep: string): (r: seq<string>)
    requires |sep| > 0
    ensures |r| >= 1
    ensures Join(r, sep) == s
    ensures forall k :: 0 <= k < |r| ==> !Contains(r[k], sep)
    decreases |s|
  {
    match IndexOf(s, sep)
    case None => [s]
    case Some(i) =>
      var head := s[..i];
      var rest := Pieces(s[i + |sep|..], sep);
      assert s == head + sep + s[i + |sep|..];
      assert !Contains(head, sep) by {
        if Contains(head, sep) {
          var k: nat :| k <= |head| && OccursAt(head, k, sep);
          OccursInPrefix(s, i, k, sep);
        }
      }
      [head] + rest
  }

  /** Drop the empty strings at the end of a list. */
  function DropTrailingEmpty(ps: seq<string>): seq<string> {
    if |ps| == 0 || ps[|ps| - 1] != "" then ps else DropTrailingEmpty(ps[..|ps| - 1])
  }

  /** What is kept is a prefix ending in a non-empty string; what is dropped is all empty. */
  lemma {:induction false} DropTrailingEmptyShape(ps: seq<string>)
    ensures var r := DropTrailingEmpty(ps);
      |r| <= |ps| && r == ps[..|r|] && (r == [] || r[|r| - 1] != "")
      && forall k :: |r| <= k < |ps| ==> ps[k] == ""
  {
    if |ps| > 0 && ps[|ps| - 1] == "" {
      DropTrailingEmptyShape(ps[..|ps| - 1]);
    }
  }

  /**
   * String.split with a separator that has no regular-expression meaning: the input
   * itself when the separator does not occur, the pieces without the trailing empty
   * ones otherwise.
   */
  function Split(s: string, sep: string): (r: seq<string>)
    requires |sep| > 0
    ensures !Contains(s, sep) ==> r == [s]
    ensures forall k :: 0 <= k < |r| ==> !Contains(r[k], sep)
  {
    if IndexOf(s, sep).None? then [s]
    else
      var ps := Pieces(s, sep);
      DropTrailingEmptyShape(ps);
      DropTrailingEmpty(ps)
  }

  /**
   * String.replace of a literal by the empty string: scanning left to right, every
   * occurrence is removed and the scan resumes after it.
   */
  function RemoveAll(s: string, pat: string): string
    requires |pat| > 0
    decreases |s|
  {
    if |s| < |pat| then s
    else if OccursAt(s, 0, pat) then RemoveAll(s[|pat|..], pat)
    else [s[0]] + RemoveAll(s[1..], pat)
  }

  /** Removing never lengthens the string, and leaves it alone when the pattern does not occur. */
  lemma {:induction false} RemoveAllShape(s: string, pat: string)
    requires |pat| > 0
    ensures |RemoveAll(s, pat)| <= |s|
    ensures !Contains(s, pat) ==> RemoveAll(s, pat) == s
    decreases |s|
  {
    if |s| >= |pat| {
      if OccursAt(s, 0, pat) {
        RemoveAllShape(s[|pat|..], pat);
      } else {
        RemoveAllShape(s[1..], pat);
        if Contains(s[1..], pat) {
          var k: nat :| k <= |s[1..]| && OccursAt(s[1..], k, pat);
          OccursInSuffix(s, 1, k, pat);
        }
        assert s == [s[0]] + s[1..];
      }
    }
  }

  /** Removing a pattern from a string that starts with it drops that leading occurrence. */
  lemma RemoveAllLeading(pat: string, t: string)
    requires |pat| > 0
    ensures RemoveAll(pat + t, pat) == RemoveAll(t, pat)
  {
    assert OccursAt(pat + t, 0, pat);
    assert (pat + t)[|pat|..] == t;
  }

  // ---------------------------------------------------------------------------
  // Text up to white space
  // ---------------------------------------------------------------------------

  /** The string with every character String.trim would treat as white space dropped. */
  function Unspaced(s: string): (r: string)
    ensures |r| <= |s|
  {
    if |s| == 0 then "" else (if IsTrimmable(s[0]) then "" else [s[0]]) + Unspaced(s[1..])
  }

  /** The strings of a list, each unspaced, run together. */
  function UnspacedAll(ps: seq<string>): string {
    if |ps| == 0 then "" else Unspaced(ps[0]) + UnspacedAll(ps[1..])
  }

  lemma {:induction false} UnspacedAppend(a: string, b: string)
    ensures Unspaced(a + b) == Unspaced(a) + Unspaced(b)
    decreases |a|
  {
    if |a| > 0 {
      UnspacedAppend(a[1..], b);
      assert (a + b)[1..] == a[1..] + b;
    } else {
      assert a + b == b;
    }
  }

  lemma {:induction false} UnspacedAllAppend(xs: seq<string>, ys: seq<string>)
    ensures UnspacedAll(xs + ys) == UnspacedAll(xs) + UnspacedAll(ys)
    decreases |xs|
  {
    if |xs| > 0 {
      UnspacedAllAppend(xs[1..], ys);
      assert (xs + ys)[1..] == xs[1..] + ys;
    } else {
      assert xs + ys == ys;
    }
  }

  /** Trimming removes white space only. */
  lemma {:induction false} UnspacedTrim(s: string)
    ensures Unspaced(Trim(s)) == Unspaced(s)
  {
    UnspacedTrimLeft(s);
    UnspacedTrimRight(TrimLeft(s));
  }

  lemma {:induction false} UnspacedTrimLeft(s: string)
    ensures Unspaced(TrimLeft(s)) == Unspaced(s)
    decreases |s|
  {
    if |s| > 0 && IsTrimmable(s[0]) {
      UnspacedTrimLeft(s[1..]);
    }
  }

  lemma {:induction false} UnspacedTrimRight(s: string)
    ensures Unspaced(TrimRight(s)) == Unspaced(s)
    decreases |s|
  {
    if |s| > 0 && IsTrimmable(s[|s| - 1]) {
      var init := s[..|s| - 1];
      UnspacedTrimRight(init);
      assert s == init + [s[|s| - 1]];
      UnspacedAppend(init, [s[|s| - 1]]);
    }
  }

  /** Joining with a white-space separator adds only white space. */
  lemma {:induction false} UnspacedJoin(parts: seq<string>, sep: string)
    requires Unspaced(sep) == ""
    ensures Unspaced(Join(parts, sep)) == UnspacedAll(parts)
    decreases |parts|
  {
    if |parts| == 1 {
      assert UnspacedAll(parts) == Unspaced(parts[0]) + UnspacedAll(parts[1..]);
    } else if |parts| > 1 {
      UnspacedJoin(parts[1..], sep);
      UnspacedAppend(parts[0] + sep, Join(parts[1..], sep));
      UnspacedAppend(parts[0], sep);
    }
  }

  /** Dropping empty strings from the end changes nothing up to white space. */
  lemma {:induction false} UnspacedDropTrailingEmpty(ps: seq<string>)
    ensures UnspacedAll(DropTrailingEmpty(ps)) == UnspacedAll(ps)
    decreases |ps|
  {
    if |ps| > 0 && ps[|ps| - 1] == "" {
      var init := ps[..|ps| - 1];
      UnspacedDropTrailingEmpty(init);
      assert ps == init + [""];
      UnspacedAllAppend(init, [""]);
    }
  }

  /** Splitting at a white-space separator loses only white space. */
  lemma UnspacedSplit(s: string, sep: string)
    requires |sep| > 0 && Unspaced(sep) == ""
    ensures UnspacedAll(Split(s, sep)) == Unspaced(s)
  {
    if IndexOf(s, sep).Some? {
      UnspacedDropTrailingEmpty(Pieces(s, sep));
      UnspacedJoin(Pieces(s, sep), sep);
    } else {
      assert UnspacedAll([s]) == Unspaced(s) + UnspacedAll([]);
    }
  }

  // ---------------------------------------------------------------------------
  // Integer.parseInt and Integer.toString on non-negative numbers
  // ---------------------------------------------------------------------------

  predicate AllDigits(s: string) {
    forall k :: 0 <= k < |s| ==> IsDigit(s[k])
  }

  /** The number a run of decimal digits denotes (0 for the empty run). */
  function DigitsValue(s: string): nat
    requires AllDigits(s)
  {
    if |s| == 0 then 0 else 10 * DigitsValue(s[..|s| - 1]) + (s[|s| - 1] as int - '0' as int)
  }

  function DigitChar(d: nat): (c: char)
    requires d < 10
    ensures IsDigit(c) && c as int - '0' as int == d
  {
    ('0' as int + d) as char
  }

  /** Integer.toString of a non-negative number: its decimal digits, no leading zero. */
  function NatToString(n: nat): (s: string)
    ensures |s| > 0 && AllDigits(s)
    ensures |s| > 1 ==> s[0] != '0'
  {
    if n < 10 then [DigitChar(n)] else NatToString(n / 10) + [DigitChar(n % 10)]
  }

  /** Reading back the digits Integer.toString writes gives the number. */
  lemma {:induction false} ParseToString(n: nat)
    ensures DigitsValue(NatToString(n)) == n
  {
    var s := NatToString(n);
    if n >= 10 {
      ParseToString(n / 10);
      assert s[..|s| - 1] == NatToString(n / 10);
    }
  }
}

/**
 * Strings as sequences of characters, and the handful of string operations
 * the modelled code relies on: whitespace trimming (JavaScript `trim`, Python
 * `strip`), lower-casing, substring search, splitting on a separator and joining,
 * and decimal rendering of integers.
 */
module Text {

  /** ASCII whitespace as recognised by `trim`/`strip` (other Unicode spaces are not modelled). */
  predicate IsSpace(c: char) {
    c == ' ' || c == '\t' || c == '\n' || c == '\r' || c == '\U{000B}' || c == '\U{000C}'
  }

  predicate AllSpace(s: string) {
    forall i :: 0 <= i < |s| ==> IsSpace(s[i])
  }

  predicate IsDigit(c: char) {
    '0' <= c <= '9'
  }

  /** Removes leading whitespace. */
  function TrimStart(s: string): string {
    if s != [] && IsSpace(s[0]) then TrimStart(s[1..]) else s
  }

  /** Removes trailing whitespace. */
  function TrimEnd(s: string): string {
    if s != [] && IsSpace(s[|s| - 1]) then TrimEnd(s[..|s| - 1]) else s
  }

  /** What `TrimStart` removes is a whitespace prefix, and what it keeps does not start with whitespace. */
  lemma {:induction false} TrimStartRemovesPrefix(s: string)
    ensures var r := TrimStart(s);
      && |r| <= |s| && r == s[|s| - |r|..]
      && (r == [] || !IsSpace(r[0]))
      && forall i :: 0 <= i < |s| - |r| ==> IsSpace(s[i])
  {
    if s != [] && IsSpace(s[0]) {
      var t := s[1..];
      TrimStartRemovesPrefix(t);
      var r := TrimStart(t);
      assert TrimStart(s) == r;
      assert t[|t| - |r|..] == s[|s| - |r|..];
      forall i | 0 <= i < |s| - |r|
        ensures IsSpace(s[i])
      {
        if i > 0 {
          assert s[i] == t[i - 1];
        }
      }
    }
  }

  /** What `TrimEnd` removes is a whitespace suffix, and what it keeps does not end with whitespace. */
  lemma {:induction false} TrimEndRemovesSuffix(s: string)
    ensures var r := TrimEnd(s);
      && |r| <= |s| && r == s[..|r|]
      && (r == [] || !IsSpace(r[|r| - 1]))
      && forall i :: |r| <= i < |s| ==> IsSpace(s[i])
  {
    if s != [] && IsSpace(s[|s| - 1]) {
      var t := s[..|s| - 1];
      TrimEndRemovesSuffix(t);
      var r := TrimEnd(t);
      assert TrimEnd(s) == r;
      assert t[..|r|] == s[..|r|];
      forall i | |r| <= i < |s|
        ensures IsSpace(s[i])
      {
        if i < |s| - 1 {
          assert s[i] == t[i];
        }
      }
    }
  }

  /** `r` sits in `s` at index `k`, and everything around it is whitespace. */
  predicate TrimmedAt(s: string, r: string, k: int) {
    && 0 <= k && k + |r| <= |s| && s[k..k + |r|] == r
    && (forall i :: 0 <= i < k ==> IsSpace(s[i]))
    && (forall i :: k + |r| <= i < |s| ==> IsSpace(s[i]))
  }

  /** `s.trim()` in JavaScript, `s.strip()` in Python. */
  function Trim(s: string): string {
    TrimEnd(TrimStart(s))
  }

  /**
   * The trimmed text is the part of `s` left once the surrounding whitespace
   * is removed, and it neither starts nor ends with whitespace.
   */
  lemma TrimIsInfix(s: string)
    ensures exists k :: TrimmedAt(s, Trim(s), k)
    ensures var r := Trim(s); r == [] || (!IsSpace(r[0]) && !IsSpace(r[|r| - 1]))
  {
    var t := TrimStart(s);
    var r := TrimEnd(t);
    TrimStartRemovesPrefix(s);
    TrimEndRemovesSuffix(t);
    var k := |s| - |t|;
    assert r == s[k..k + |r|];
    forall i | k + |r| <= i < |s| ensures IsSpace(s[i]) {
      assert s[i] == t[i - k];
    }
    if r != [] {
      assert r[0] == t[0];
    }
    assert r == Trim(s);
    assert TrimmedAt(s, Trim(s), k);
  }

  /** Trimming gives the empty string exactly when `s` is whitespace alone. */
  lemma TrimEmptyIff(s: string)
    ensures Trim(s) == [] <==> AllSpace(s)
  {
    TrimIsInfix(s);
    var r := Trim(s);
    var k :| TrimmedAt(s, r, k);
    if r != [] {
      assert s[k] == r[0];
      assert !IsSpace(s[k]);
    } else {
      forall i | 0 <= i < |s| ensures IsSpace(s[i]) {
        if i >= k {
          assert k + |r| <= i;
        }
      }
    }
  }

  function LowerChar(c: char): char {
    if 'A' <= c <= 'Z' then (c as int + 32) as char else c
  }

  /** `s.lower()` on ASCII letters (full Unicode case mapping is not modelled). */
  function ToLower(s: string): (r: string)
    ensures |r| == |s|
    ensures forall i :: 0 <= i < |s| ==> r[i] == LowerChar(s[i])
  {
    if s == [] then [] else [LowerChar(s[0])] + ToLower(s[1..])
  }

  /** `w` occurs in `s` starting at index `i`. */
  predicate OccursAt(s: string, w: string, i: int) {
    0 <= i && i + |w| <= |s| && s[i..i + |w|] == w
  }

  /** The first index at or after `k` where `w` occurs in `s`, or -1 (`indexOf` / `find`). */
  function FindFrom(s: string, w: string, k: nat): (r: int)
    ensures r == -1 || (k <= r && OccursAt(s, w, r))
    ensures forall i :: k <= i && (r == -1 || i < r) ==> !OccursAt(s, w, i)
    decreases |s| - k
  {
    if k + |w| > |s| then -1
    else if s[k..k + |w|] == w then k
    else FindFrom(s, w, k + 1)
  }

  function Find(s: string, w: string): (r: int)
    ensures r == -1 || OccursAt(s, w, r)
    ensures forall i :: 0 <= i && (r == -1 || i < r) ==> !OccursAt(s, w, i)
  {
    FindFrom(s, w, 0)
  }

  /** `w in s` (Python), `s.includes(w)` (JavaScript). */
  predicate Contains(s: string, w: string) {
    Find(s, w) != -1
  }

  lemma ContainsIff(s: string, w: string)
    ensures Contains(s, w) <==> exists i :: OccursAt(s, w, i)
  {
    if Contains(s, w) {
      assert OccursAt(s, w, Find(s, w));
    }
  }

  predicate StartsWith(s: string, p: string) {
    |p| <= |s| && s[..|p|] == p
  }

  /** `parts.join(sep)`. */
  function Join(parts: seq<string>, sep: string): string {
    if parts == [] then ""
    else if |parts| == 1 then parts[0]
    else parts[0] + sep + Join(parts[1..], sep)
  }

  /** `s.split(sep)` for a non-empty separator, in JavaScript and in Python alike. */
  function SplitOn(s: string, sep: string): (r: seq<string>)
    requires sep != []
    ensures |r| >= 1
    ensures Join(r, sep) == s
    ensures forall i :: 0 <= i < |r| ==> !Contains(r[i], sep)
    decreases |s|
  {
    var p := Find(s, sep);
    if p == -1 then [s]
    else
      var rest := SplitOn(s[p + |sep|..], sep);
      var head := s[..p];
      assert !Contains(head, sep) by {
        forall i | OccursAt(head, sep, i) ensures OccursAt(s, sep, i) {
          assert s[i..i + |sep|] == head[i..i + |sep|];
        }
        ContainsIff(head, sep);
      }
      assert s == head + sep + s[p + |sep|..] by {
        assert s[p..p + |sep|] == sep;
        assert s == s[..p] + s[p..p + |sep|] + s[p + |sep|..];
      }
      [head] + rest
  }

  /** Splitting on a one-character separator undoes a join of pieces that do not contain it. */
  lemma {:induction false} SplitJoinRoundTrip(parts: seq<string>, c: char)
    requires |parts| >= 1
    requires forall i :: 0 <= i < |parts| ==> c !in parts[i]
    ensures SplitOn(Join(parts, [c]), [c]) == parts
  {
    var s := Join(parts, [c]);
    var p0 := parts[0];
    var r := Find(s, [c]);
    if |parts| > 1 {
      var rest := Join(parts[1..], [c]);
      assert s == p0 + [c] + rest;
      assert OccursAt(s, [c], |p0|);
      assert r == |p0|;
      assert s[r + 1..] == rest;
      SplitJoinRoundTrip(parts[1..], c);
    }
  }

  function DigitChar(d: nat): char
    requires d < 10
  {
    ('0' as int + d) as char
  }

  /** Decimal rendering of a natural number, without leading zeros. */
  function NatToString(n: nat): (r: string)
    ensures |r| >= 1
    ensures forall i :: 0 <= i < |r| ==> IsDigit(r[i])
    ensures |r| > 1 ==> r[0] != '0'
    decreases n
  {
    if n < 10 then [DigitChar(n)] else NatToString(n / 10) + [DigitChar(n % 10)]
  }

  /** The value of a string of decimal digits. */
  function DigitsValue(s: string): nat
    requires forall i :: 0 <= i < |s| ==> IsDigit(s[i])
  {
    if s == [] then 0
    else
      assert IsDigit(s[|s| - 1]);
      10 * DigitsValue(s[..|s| - 1]) + (s[|s| - 1] as int - '0' as int)
  }

  /** Reading back a rendered number gives the number: the rendering is injective. */
  lemma {:induction false} NatToStringRoundTrip(n: nat)
    ensures DigitsValue(NatToString(n)) == n
    decreases n
  {
    if n >= 10 {
      NatToStringRoundTrip(n / 10);
      var s := NatToString(n);
      assert s[..|s| - 1] == NatToString(n / 10);
    }
  }

  lemma NatToStringInjective(m: nat, n: nat)
    ensures NatToString(m) == NatToString(n) ==> m == n
  {
    NatToStringRoundTrip(m);
    NatToStringRoundTrip(n);
  }

  /** Decimal rendering of an integer, as `${i}` does in a JavaScript template. */
  function IntToString(i: int): (r: string)
    ensures |r| >= 1
    ensures (r[0] == '-') <==> i < 0
  {
    if i < 0 then "-" + NatToString(-i) else NatToString(i)
  }

  /** After the sign, the rendering is the digits of the magnitude: they read back as |i|, so the rendering is injective. */
  lemma IntToStringReadsBack(i: int)
    ensures var digits := IntToString(i)[if i < 0 then 1 else 0..];
      (forall k :: 0 <= k < |digits| ==> IsDigit(digits[k])) && DigitsValue(digits) == if i < 0 then -i else i
  {
    var m: nat := if i < 0 then -i else i;
    var r := IntToString(i);
    var digits := r[if i < 0 then 1 else 0..];
    assert digits == NatToString(m) by {
      if i < 0 {
        assert r == "-" + NatToString(m);
      }
    }
    NatToStringRoundTrip(m);
  }

  lemma IntToStringInjective(a: int, b: int)
    ensures IntToString(a) == IntToString(b) ==> a == b
  {
    IntToStringReadsBack(a);
    IntToStringReadsBack(b);
  }
}

/** String operations that the header normalisation and the year-column search
    rely on: Python's `str.strip()`, an ASCII `str.lower()`, the substring test
    `sub in s`, and Python's ordering of strings (code point by code point). */
module Text {

  /** The characters Python's `str.isspace()` accepts, which `str.strip()` removes. */
  predicate IsSpace(c: char) {
    var n := c as int;
    || (9 <= n <= 13)
    || (28 <= n <= 32)
    || n == 0x85 || n == 0xA0 || n == 0x1680
    || (0x2000 <= n <= 0x200A)
    || n == 0x2028 || n == 0x2029 || n == 0x202F || n == 0x205F || n == 0x3000
  }

  /** No whitespace at either end. */
  predicate IsStripped(s: string) {
    |s| == 0 || (!IsSpace(s[0]) && !IsSpace(s[|s| - 1]))
  }

  /** Drops leading whitespace: the longest all-whitespace prefix goes. */
  function TrimStart(s: string): (r: string)
    ensures |r| <= |s| && r == s[|s| - |r|..]
    ensures forall k :: 0 <= k < |s| - |r| ==> IsSpace(s[k])
    ensures r == [] || !IsSpace(r[0])
    decreases |s|
  {
    if |s| > 0 && IsSpace(s[0]) then TrimStart(s[1..]) else s
  }

  /** Drops trailing whitespace: the longest all-whitespace suffix goes. */
  function TrimEnd(s: string): (r: string)
    ensures |r| <= |s| && r == s[..|r|]
    ensures forall k :: |r| <= k < |s| ==> IsSpace(s[k])
    ensures r == [] || !IsSpace(r[|r| - 1])
    decreases |s|
  {
    if |s| > 0 && IsSpace(s[|s| - 1]) then TrimEnd(s[..|s| - 1]) else s
  }

  /** Python's `s.strip()`: the middle slice of `s` left once the whitespace
      at both ends is cut off. */
  function Strip(s: string): (r: string)
    ensures IsStripped(r)
    ensures exists i, j :: 0 <= i <= j <= |s| && r == s[i..j]
                        && (forall k :: 0 <= k < i ==> IsSpace(s[k]))
                        && (forall k :: j <= k < |s| ==> IsSpace(s[k]))
  {
    var front := TrimStart(s);
    var r := TrimEnd(front);
    assert r == [] || r[0] == front[0];
    var i := |s| - |front|;
    assert r == s[i..i + |r|];
    r
  }

  /** A string without whitespace at its ends is its own strip. */
  lemma StripKeepsStripped(s: string)
    requires IsStripped(s)
    ensures Strip(s) == s
  {
  }

  /** `strip()` applied twice is `strip()` applied once. */
  lemma StripIdempotent(s: string)
    ensures Strip(Strip(s)) == Strip(s)
  {
    StripKeepsStripped(Strip(s));
  }

  predicate IsUpper(c: char) {
    'A' <= c <= 'Z'
  }

  /** Lower-cases one character (ASCII letters only). */
  function LowerChar(c: char): (r: char)
    ensures !IsUpper(r)
    ensures IsUpper(c) ==> r as int == c as int + 32
    ensures !IsUpper(c) ==> r == c
  {
    if IsUpper(c) then (c as int + 32) as char else c
  }

  predicate IsLowerCase(s: string) {
    forall i :: 0 <= i < |s| ==> !IsUpper(s[i])
  }

  /** `s.lower()` restricted to ASCII: every capital becomes its small letter,
      everything else is kept. */
  function Lower(s: string): (r: string)
    ensures |r| == |s| && IsLowerCase(r)
    ensures forall i :: 0 <= i < |s| && IsUpper(s[i]) ==> r[i] as int == s[i] as int + 32
    ensures forall i :: 0 <= i < |s| && !IsUpper(s[i]) ==> r[i] == s[i]
  {
    seq(|s|, i requires 0 <= i < |s| => LowerChar(s[i]))
  }

  /** A string with no capital letter is its own lower-case form. */
  lemma LowerKeepsLowerCase(s: string)
    requires IsLowerCase(s)
    ensures Lower(s) == s
  {
  }

  /** Lower-casing touches no whitespace, so it keeps a stripped string stripped. */
  lemma LowerKeepsStripped(s: string)
    requires IsStripped(s)
    ensures IsStripped(Lower(s))
  {
  }

  predicate StartsWith(s: string, prefix: string) {
    |prefix| <= |s| && s[..|prefix|] == prefix
  }

  /** Python's `sub in s`: `sub` occurs somewhere in `s` as a contiguous piece. */
  predicate Contains(s: string, sub: string)
    decreases |s|
  {
    StartsWith(s, sub) || (|s| > 0 && Contains(s[1..], sub))
  }

  /** `sub in s` is exactly the existence of an offset where `sub` starts. */
  lemma {:induction false} ContainsAt(s: string, sub: string)
    ensures Contains(s, sub) <==> exists i :: 0 <= i <= |s| && StartsWith(s[i..], sub)
    decreases |s|
  {
    assert s[0..] == s;
    if |s| > 0 {
      ContainsAt(s[1..], sub);
      if Contains(s[1..], sub) {
        var i :| 0 <= i <= |s| - 1 && StartsWith(s[1..][i..], sub);
        assert s[1..][i..] == s[i + 1..];
      }
      if i :| 0 <= i <= |s| && StartsWith(s[i..], sub) {
        if i > 0 {
          assert s[1..][i - 1..] == s[i..];
        }
      }
    }
  }

  /** Every string contains itself. */
  lemma ContainsItself(s: string)
    ensures Contains(s, s)
  {
    assert StartsWith(s, s);
  }

  /** Python's `s < t` on strings: code point by code point, a proper prefix first. */
  predicate StrLess(s: string, t: string)
    decreases |s|
  {
    if |t| == 0 then false
    else if |s| == 0 then true
    else if s[0] != t[0] then s[0] < t[0]
    else StrLess(s[1..], t[1..])
  }

  lemma {:induction false} StrLessIrreflexive(s: string)
    ensures !StrLess(s, s)
    decreases |s|
  {
    if |s| > 0 {
      StrLessIrreflexive(s[1..]);
    }
  }

  lemma {:induction false} StrLessTransitive(a: string, b: string, c: string)
    requires StrLess(a, b) && StrLess(b, c)
    ensures StrLess(a, c)
    decreases |a|
  {
    if |a| > 0 && a[0] == b[0] && b[0] == c[0] {
      StrLessTransitive(a[1..], b[1..], c[1..]);
    }
  }

  lemma {:induction false} StrLessTotal(a: string, b: string)
    ensures a == b || StrLess(a, b) || StrLess(b, a)
    decreases |a|
  {
    if |a| > 0 && |b| > 0 && a[0] == b[0] {
      StrLessTotal(a[1..], b[1..]);
      if a[1..] == b[1..] {
        assert a == [a[0]] + a[1..] && b == [b[0]] + b[1..];
      }
    }
  }
}

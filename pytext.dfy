/** The Python string built-ins the move server depends on: `str.strip()`,
    `str.split('|', 1)`, `str(i)` for a non-negative integer and `int(s)` on a
    string, with a failed conversion as `None` instead of a `ValueError`. */
module PyText {

  import opened Optional

  /** The characters `str.isspace()` accepts, which `strip()` and `int()` remove. */
  predicate IsSpace(c: char)
  {
    var n := c as int;
    (9 <= n <= 13) || (28 <= n <= 32) || n == 0x85 || n == 0xA0 || n == 0x1680
    || (0x2000 <= n <= 0x200A) || n == 0x2028 || n == 0x2029 || n == 0x202F
    || n == 0x205F || n == 0x3000
  }

  predicate IsDigit(c: char)
  {
    '0' <= c <= '9'
  }

  function DigitValue(c: char): (d: nat)
    requires IsDigit(c)
    ensures d < 10
  {
    c as int - '0' as int
  }

  function DigitChar(d: nat): (c: char)
    requires d < 10
    ensures IsDigit(c) && DigitValue(c) == d
  {
    ('0' as int + d) as char
  }

  /** Every character of `s` is white space. */
  predicate AllSpace(s: string)
  {
    forall k :: 0 <= k < |s| ==> IsSpace(s[k])
  }

  /** `s.lstrip()`: what is left after the leading white space. */
  function StripLeading(s: string): (r: string)
    ensures |r| <= |s| && r == s[|s| - |r|..]
    ensures forall k :: 0 <= k < |s| - |r| ==> IsSpace(s[k])
    ensures r == [] || !IsSpace(r[0])
  {
    if s != [] && IsSpace(s[0]) then
      var r := StripLeading(s[1..]);
      assert forall k :: 1 <= k < |s| - |r| ==> s[k] == s[1..][k - 1];
      r
    else s
  }

  /** `s.rstrip()`: what is left before the trailing white space. */
  function StripTrailing(s: string): (r: string)
    ensures |r| <= |s| && r == s[..|r|]
    ensures forall k :: |r| <= k < |s| ==> IsSpace(s[k])
    ensures r == [] || !IsSpace(r[|r| - 1])
  {
    if s != [] && IsSpace(s[|s| - 1]) then StripTrailing(s[..|s| - 1]) else s
  }

  /** `s.strip()`: `s` without its leading and trailing white space. */
  function Strip(s: string): (r: string)
    ensures |r| <= |s|
    ensures r == [] || (!IsSpace(r[0]) && !IsSpace(r[|r| - 1]))
  {
    StripTrailing(StripLeading(s))
  }

  /** A string is its first `i` characters followed by the rest. */
  lemma SplitAt(s: string, i: nat)
    requires i <= |s|
    ensures s == s[..i] + s[i..]
  {
  }

  /** Concatenation regroups, and the outer pieces of `a + b + c` are `a` and `c`. */
  lemma ThreePieces(a: string, b: string, c: string)
    ensures a + (b + c) == a + b + c
    ensures (a + b + c)[..|a|] == a && (a + b + c)[|a| + |b|..] == c
  {
  }

  /** `lstrip()` splits `s` into white space and what it returns. */
  lemma LeadingSplit(s: string)
    ensures var i := |s| - |StripLeading(s)|;
            s == s[..i] + StripLeading(s) && AllSpace(s[..i])
  {
    var l := StripLeading(s);
    var i := |s| - |l|;
    SplitAt(s, i);
    forall k | 0 <= k < i ensures IsSpace(s[..i][k]) {
      assert s[..i][k] == s[k];
    }
  }

  /** `rstrip()` splits `s` into what it returns and white space. */
  lemma TrailingSplit(s: string)
    ensures var r := StripTrailing(s);
            s == r + s[|r|..] && AllSpace(s[|r|..])
  {
    var r := StripTrailing(s);
    SplitAt(s, |r|);
    forall k | 0 <= k < |s| - |r| ensures IsSpace(s[|r|..][k]) {
      assert s[|r|..][k] == s[|r| + k];
    }
  }

  /** What `strip()` removes is white space, from the two ends only. */
  lemma StripRemovesOnlyEnds(s: string)
    ensures exists i :: 0 <= i <= |s| - |Strip(s)|
                        && Strip(s) == s[i..i + |Strip(s)|]
                        && s == s[..i] + Strip(s) + s[i + |Strip(s)|..]
                        && AllSpace(s[..i]) && AllSpace(s[i + |Strip(s)|..])
  {
    var l := StripLeading(s);
    var r := StripTrailing(l);
    assert Strip(s) == r;
    var i := |s| - |l|;
    var front, back := s[..i], l[|r|..];
    LeadingSplit(s);
    TrailingSplit(l);
    ThreePieces(front, r, back);
    assert s == front + r + back;
    assert s[..i] == front && s[i + |r|..] == back;
    assert r == s[i..i + |r|];
  }

  /** White space in front of a string that starts with something else is what `lstrip()` removes. */
  lemma {:induction false} LeadingRemoved(lead: string, rest: string)
    requires AllSpace(lead)
    requires rest == [] || !IsSpace(rest[0])
    ensures StripLeading(lead + rest) == rest
  {
    if lead != [] {
      assert IsSpace(lead[0]);
      assert (lead + rest)[0] == lead[0];
      assert (lead + rest)[1..] == lead[1..] + rest;
      assert AllSpace(lead[1..]) by {
        forall k | 0 <= k < |lead| - 1 ensures IsSpace(lead[1..][k]) {
          assert lead[1..][k] == lead[k + 1];
        }
      }
      LeadingRemoved(lead[1..], rest);
    }
  }

  /** White space after a string that ends in something else is what `rstrip()` removes. */
  lemma {:induction false} TrailingRemoved(core: string, trail: string)
    requires AllSpace(trail)
    requires core == [] || !IsSpace(core[|core| - 1])
    ensures StripTrailing(core + trail) == core
  {
    if trail != [] {
      var t := trail[..|trail| - 1];
      assert IsSpace(trail[|trail| - 1]);
      assert (core + trail)[|core + trail| - 1] == trail[|trail| - 1];
      assert (core + trail)[..|core + trail| - 1] == core + t;
      assert AllSpace(t) by {
        forall k | 0 <= k < |t| ensures IsSpace(t[k]) {
          assert t[k] == trail[k];
        }
      }
      TrailingRemoved(core, t);
    }
  }

  /** `strip()` removes exactly the white space around a core with no white space at its ends. */
  lemma StripAround(lead: string, core: string, trail: string)
    requires AllSpace(lead) && AllSpace(trail)
    requires core != [] && !IsSpace(core[0]) && !IsSpace(core[|core| - 1])
    ensures Strip(lead + core + trail) == core
  {
    LeadingRemoved(lead, core + trail);
    assert lead + core + trail == lead + (core + trail);
    TrailingRemoved(core, trail);
  }

  /** A string with white space at neither end is its own `strip()`. */
  lemma StripUnchanged(s: string)
    requires s == [] || (!IsSpace(s[0]) && !IsSpace(s[|s| - 1]))
    ensures Strip(s) == s
  {
    assert StripLeading(s) == s;
  }

  /** The index of the first occurrence of `c`, where `split(c, 1)` cuts. */
  function IndexOf(s: string, c: char): (k: nat)
    requires c in s
    ensures k < |s| && s[k] == c && c !in s[..k]
  {
    if s[0] == c then 0
    else
      var k := IndexOf(s[1..], c);
      assert s[..k + 1] == [s[0]] + s[1..][..k];
      k + 1
  }

  /** The first `c` after a prefix without `c` is the one right after that prefix. */
  lemma {:induction false} IndexAfterPrefix(prefix: string, c: char, rest: string)
    requires c !in prefix
    ensures c in prefix + [c] + rest && IndexOf(prefix + [c] + rest, c) == |prefix|
  {
    var s := prefix + [c] + rest;
    assert s[|prefix|] == c;
    if prefix != [] {
      assert s[0] == prefix[0];
      assert s[1..] == prefix[1..] + [c] + rest;
      IndexAfterPrefix(prefix[1..], c, rest);
    }
  }

  /** `s.split(c, 1)` on a string that contains `c`: the text before its first
      occurrence and the text after it. */
  function SplitOnce(s: string, c: char): (parts: (string, string))
    requires c in s
    ensures parts.0 + [c] + parts.1 == s
    ensures c !in parts.0
  {
    var k := IndexOf(s, c);
    assert s[..k] + [c] + s[k + 1..] == s;
    (s[..k], s[k + 1..])
  }

  /** `str(n)`: the decimal digits of `n`, without leading zeros. */
  function Str(n: nat): (s: string)
    ensures |s| > 0 && forall k :: 0 <= k < |s| ==> IsDigit(s[k])
    ensures n < 10 ==> s == [DigitChar(n)]
  {
    if n < 10 then [DigitChar(n)] else Str(n / 10) + [DigitChar(n % 10)]
  }

  /** The digit strings `int()` accepts: digits, with single underscores
      between two digits. */
  predicate DigitGroups(s: string)
    decreases |s|
  {
    && |s| > 0
    && IsDigit(s[|s| - 1])
    && (|s| == 1 || DigitGroups(s[..|s| - 1])
        || (|s| >= 3 && s[|s| - 2] == '_' && DigitGroups(s[..|s| - 2])))
  }

  /** The number the digits of `s` spell in base ten; underscores carry no value. */
  function DigitsValue(s: string): nat
    decreases |s|
  {
    if s == [] then 0
    else if IsDigit(s[|s| - 1]) then 10 * DigitsValue(s[..|s| - 1]) + DigitValue(s[|s| - 1])
    else DigitsValue(s[..|s| - 1])
  }

  /** `int(t)` once `t` is stripped: an optional sign, then digit groups. */
  function IntOfStripped(t: string): Option<int>
  {
    if t != [] && (t[0] == '+' || t[0] == '-') then
      if DigitGroups(t[1..]) then
        Some(if t[0] == '-' then -(DigitsValue(t[1..]) as int) else DigitsValue(t[1..]))
      else None
    else if DigitGroups(t) then
      Some(DigitsValue(t))
    else None
  }

  /** `int(s)` in base ten for an `s` that is already stripped or is a `str(n)`:
      `strip()` first, then a sign and digit groups; `None` where Python raises
      `ValueError`. The white space removed is the set `str.strip()` removes,
      which is wider than the set `int()` itself skips. */
  function PyInt(s: string): Option<int>
  {
    IntOfStripped(Strip(s))
  }

  /** `str` and `int` are inverse: `int(str(n)) == n`. */
  lemma {:induction false} StrDigits(n: nat)
    ensures DigitGroups(Str(n)) && DigitsValue(Str(n)) == n
  {
    if n >= 10 {
      StrDigits(n / 10);
      var s := Str(n);
      assert s[..|s| - 1] == Str(n / 10);
    }
  }

  /** A digit is neither white space nor a sign. */
  lemma DigitIsPlain(c: char)
    requires IsDigit(c)
    ensures !IsSpace(c) && c != '+' && c != '-'
  {
    assert 48 <= c as int <= 57;
  }

  /** `int()` reads a string of digit groups, without surrounding space or
      sign, as the number its digits spell. */
  lemma PyIntOfDigits(s: string)
    requires DigitGroups(s) && IsDigit(s[0])
    ensures PyInt(s) == Some(DigitsValue(s))
  {
    DigitIsPlain(s[0]);
    DigitIsPlain(s[|s| - 1]);
    StripUnchanged(s);
    assert IntOfStripped(s) == Some(DigitsValue(s));
  }

  /** `int(str(n)) == n`. */
  lemma PyIntOfStr(n: nat)
    ensures PyInt(Str(n)) == Some(n)
  {
    StrDigits(n);
    PyIntOfDigits(Str(n));
  }
}

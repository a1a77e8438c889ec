/**
 * The handful of Python string built-ins the configuration parsers rely on:
 * `str.strip()`, `str.lower()`, `str.split(",")`, `str.startswith`, `int(str)`
 * and `str(int)`. Each is given by a definition plus the lemmas that pin that
 * definition down independently of how it is computed.
 */
module PyText {
  import opened Wrappers

  /** Python's `str.isspace()` for one character (Unicode White_Space as Python reads it). */
  predicate IsSpace(c: char) {
    var n := c as int;
    (0x09 <= n <= 0x0D) || (0x1C <= n <= 0x20) || n == 0x85 || n == 0xA0 || n == 0x1680
    || (0x2000 <= n <= 0x200A) || n == 0x2028 || n == 0x2029 || n == 0x202F || n == 0x205F
    || n == 0x3000
  }

  predicate AllSpace(s: string) {
    forall i :: 0 <= i < |s| ==> IsSpace(s[i])
  }

  lemma AllSpaceConcat(a: string, b: string)
    requires AllSpace(a) && AllSpace(b)
    ensures AllSpace(a + b)
  {
    forall m | 0 <= m < |a + b| ensures IsSpace((a + b)[m]) {
      if m < |a| { assert (a + b)[m] == a[m]; } else { assert (a + b)[m] == b[m - |a|]; }
    }
  }

  /** Drops leading whitespace. */
  function TrimStart(s: string): string {
    if |s| > 0 && IsSpace(s[0]) then TrimStart(s[1..]) else s
  }

  /** Drops trailing whitespace. */
  function TrimEnd(s: string): string {
    if |s| > 0 && IsSpace(s[|s| - 1]) then TrimEnd(s[..|s| - 1]) else s
  }

  /** Python's `s.strip()` with no argument. */
  function Strip(s: string): string {
    TrimEnd(TrimStart(s))
  }

  /** No whitespace at either end: what Strip leaves. */
  predicate Unpadded(s: string) {
    s == [] || (!IsSpace(s[0]) && !IsSpace(s[|s| - 1]))
  }

  /** TrimStart keeps a suffix, drops only whitespace, and stops at a non-space. */
  lemma {:induction false} TrimStartShape(s: string)
    ensures |TrimStart(s)| <= |s| && TrimStart(s) == s[|s| - |TrimStart(s)|..]
    ensures AllSpace(s[..|s| - |TrimStart(s)|])
    ensures TrimStart(s) == [] || !IsSpace(TrimStart(s)[0])
  {
    if |s| > 0 && IsSpace(s[0]) {
      TrimStartShape(s[1..]);
      var k := |s| - |TrimStart(s)|;
      assert s[..k] == [s[0]] + s[1..][..k - 1];
    }
  }

  /** TrimEnd keeps a prefix, drops only whitespace, and stops at a non-space. */
  lemma {:induction false} TrimEndShape(s: string)
    ensures |TrimEnd(s)| <= |s| && TrimEnd(s) == s[..|TrimEnd(s)|]
    ensures AllSpace(s[|TrimEnd(s)|..])
    ensures TrimEnd(s) == [] || !IsSpace(TrimEnd(s)[|TrimEnd(s)| - 1])
  {
    if |s| > 0 && IsSpace(s[|s| - 1]) {
      var p := s[..|s| - 1];
      TrimEndShape(p);
      var k := |TrimEnd(s)|;
      assert s[k..] == p[k..] + [s[|s| - 1]];
    }
  }

  lemma {:induction false} TrimStartAt(s: string, i: nat)
    requires i <= |s| && AllSpace(s[..i])
    requires i == |s| || !IsSpace(s[i])
    ensures TrimStart(s) == s[i..]
  {
    if i > 0 {
      assert s[..i][0] == s[0];
      assert s[1..][..i - 1] == s[..i][1..];
      TrimStartAt(s[1..], i - 1);
      assert s[1..][i - 1..] == s[i..];
    }
  }

  lemma {:induction false} TrimEndAt(s: string, j: nat)
    requires j <= |s| && AllSpace(s[j..])
    requires j == 0 || !IsSpace(s[j - 1])
    ensures TrimEnd(s) == s[..j]
    decreases |s| - j
  {
    if j < |s| {
      var p := s[..|s| - 1];
      assert s[j..][|s| - 1 - j] == s[|s| - 1];
      assert p[j..] == s[j..][..|s| - 1 - j];
      TrimEndAt(p, j);
      assert p[..j] == s[..j];
    }
  }

  /**
   * Strip is determined by its shape: whatever infix of `s` has only
   * whitespace around it and no whitespace at either of its own ends is
   * what Strip returns.
   */
  lemma StripIsUniqueTrim(s: string, i: nat, j: nat)
    requires i <= j <= |s|
    requires AllSpace(s[..i]) && AllSpace(s[j..])
    requires i == j || (!IsSpace(s[i]) && !IsSpace(s[j - 1]))
    ensures Strip(s) == s[i..j]
  {
    if i == j {
      assert s == s[..i] + s[j..];
      AllSpaceConcat(s[..i], s[j..]);
      StripAllSpace(s);
    } else {
      var t := s[i..];
      assert TrimStart(s) == t by {
        TrimStartAt(s, i);
      }
      assert TrimEnd(t) == s[i..j] by {
        assert t[j - i..] == s[j..];
        TrimEndAt(t, j - i);
        assert t[..j - i] == s[i..j];
      }
    }
  }

  lemma StripAllSpace(s: string)
    requires AllSpace(s)
    ensures Strip(s) == []
  {
    assert s[..|s|] == s;
    TrimStartAt(s, |s|);
  }

  /** Where Strip cuts: the bounds `i`, `j` of the kept infix, as StripIsUniqueTrim expects them. */
  lemma StripBounds(s: string) returns (i: nat, j: nat)
    ensures i <= j <= |s| && Strip(s) == s[i..j]
    ensures AllSpace(s[..i]) && AllSpace(s[j..])
    ensures i == j || (!IsSpace(s[i]) && !IsSpace(s[j - 1]))
  {
    var ts := TrimStart(s);
    var t := TrimEnd(ts);
    TrimStartShape(s);
    TrimEndShape(ts);
    i := |s| - |ts|;
    j := i + |t|;
    assert s[j..] == ts[|t|..];
    if t != [] {
      assert s[i] == t[0] && s[j - 1] == t[|t| - 1];
    }
  }

  /** The stripped string has no whitespace at either end, and stripping twice changes nothing. */
  lemma StripShape(s: string)
    ensures |Strip(s)| <= |s|
    ensures Strip(s) == [] <==> AllSpace(s)
    ensures Unpadded(Strip(s))
    ensures Strip(Strip(s)) == Strip(s)
  {
    var i, j := StripBounds(s);
    var t := Strip(s);
    if i == j {
      assert s == s[..i] + s[j..];
      AllSpaceConcat(s[..i], s[j..]);
    }
    if AllSpace(s) {
      assert s[..0] == [] && s[0..] == s;
      StripIsUniqueTrim(s, 0, 0);
    }
    assert t[..0] == [] && t[|t|..] == [] && t[0..|t|] == t;
    StripIsUniqueTrim(t, 0, |t|);
  }

  lemma PaddedInfix(pre: string, s: string, post: string, i: nat, j: nat)
    requires i <= j <= |s|
    requires AllSpace(pre) && AllSpace(post) && AllSpace(s[..i]) && AllSpace(s[j..])
    ensures AllSpace((pre + s + post)[..|pre| + i])
    ensures AllSpace((pre + s + post)[|pre| + j..])
    ensures (pre + s + post)[|pre| + i..|pre| + j] == s[i..j]
  {
    var x := pre + s + post;
    assert x[..|pre| + i] == pre + s[..i];
    AllSpaceConcat(pre, s[..i]);
    assert x[|pre| + j..] == s[j..] + post;
    AllSpaceConcat(s[j..], post);
  }

  /** Whitespace around a string never changes what Strip keeps of it. */
  lemma StripIgnoresPadding(pre: string, s: string, post: string)
    requires AllSpace(pre) && AllSpace(post)
    ensures Strip(pre + s + post) == Strip(s)
  {
    var i, j := StripBounds(s);
    PaddedInfix(pre, s, post, i, j);
    var x := pre + s + post;
    assert i < j ==> x[|pre| + i] == s[i] && x[|pre| + j - 1] == s[j - 1];
    StripIsUniqueTrim(x, |pre| + i, |pre| + j);
  }

  predicate IsUpper(c: char) { 'A' <= c <= 'Z' }

  /** Python's `str.lower()` on the ASCII letters. */
  function LowerChar(c: char): char {
    if IsUpper(c) then (c as int - 'A' as int + 'a' as int) as char else c
  }

  function Lower(s: string): (r: string)
    ensures |r| == |s|
    ensures forall i :: 0 <= i < |s| ==> r[i] == LowerChar(s[i])
  {
    if s == [] then [] else [LowerChar(s[0])] + Lower(s[1..])
  }

  /** Lower-casing leaves no upper-case letter behind. */
  lemma LowerHasNoUpper(s: string)
    ensures forall i :: 0 <= i < |s| ==> !IsUpper(Lower(s)[i])
  {
  }

  /** Lower-casing touches only letters: whitespace stays whitespace and nothing else becomes it. */
  lemma LowerKeepsSpace(s: string)
    ensures forall i :: 0 <= i < |s| ==> (IsSpace(Lower(s)[i]) <==> IsSpace(s[i]))
  {
  }

  /** Python's `s.startswith(prefix)`. */
  predicate StartsWith(s: string, prefix: string) {
    |prefix| <= |s| && s[..|prefix|] == prefix
  }

  /** Python's `s.split(sep)` for a one-character separator: never empty; empty fragments kept. */
  function Split(s: string, sep: char): (parts: seq<string>)
    ensures |parts| >= 1
    decreases |s|
  {
    if s == [] then [""]
    else
      var rest := Split(s[1..], sep);
      if s[0] == sep then [""] + rest else [[s[0]] + rest[0]] + rest[1..]
  }

  /**
   * The inverse of Split: the parts with the separator between them. Unlike
   * Python's `sep.join`, it is defined only for at least one part, since
   * Split never yields none.
   */
  function Join(parts: seq<string>, sep: char): string
    requires |parts| >= 1
    decreases |parts|
  {
    if |parts| == 1 then parts[0] else parts[0] + [sep] + Join(parts[1..], sep)
  }

  predicate NoSep(parts: seq<string>, sep: char) {
    forall i :: 0 <= i < |parts| ==> sep !in parts[i]
  }

  /** Splitting loses nothing: the fragments, re-joined with the separator, are the input. */
  lemma {:induction false} JoinSplit(s: string, sep: char)
    ensures NoSep(Split(s, sep), sep)
    ensures Join(Split(s, sep), sep) == s
    decreases |s|
  {
    if s != [] {
      var rest := Split(s[1..], sep);
      JoinSplit(s[1..], sep);
      if s[0] == sep {
        assert Split(s, sep)[1..] == rest;
      } else {
        var parts := Split(s, sep);
        assert parts[0] == [s[0]] + rest[0];
        if |rest| == 1 {
          assert Join(parts, sep) == [s[0]] + rest[0];
        } else {
          assert parts[1..] == rest[1..];
        }
      }
    }
  }

  /** And conversely: fragments without the separator come back from splitting their join. */
  lemma {:induction false} SplitJoin(parts: seq<string>, sep: char)
    requires |parts| >= 1 && NoSep(parts, sep)
    ensures Split(Join(parts, sep), sep) == parts
    decreases |parts|, |parts[0]|
  {
    var p := parts[0];
    if p == [] {
      if |parts| > 1 {
        SplitJoin(parts[1..], sep);
        assert Join(parts, sep) == [sep] + Join(parts[1..], sep);
        assert [""] + parts[1..] == parts;
      }
    } else {
      var tail := [p[1..]] + parts[1..];
      assert NoSep(tail, sep) by {
        forall i | 0 <= i < |tail| ensures sep !in tail[i] {
          if i == 0 { assert p == [p[0]] + p[1..]; } else { assert tail[i] == parts[i]; }
        }
      }
      SplitJoin(tail, sep);
      var j := Join(parts, sep);
      if |parts| == 1 {
        assert j == [p[0]] + Join(tail, sep);
      } else {
        assert tail[1..] == parts[1..];
        assert j == [p[0]] + Join(tail, sep);
      }
      assert j[1..] == Join(tail, sep);
      assert j[0] == p[0] && p[0] != sep;
      assert [p[0]] + p[1..] == p;
      assert [p] + parts[1..] == parts;
    }
  }

  predicate IsDigit(c: char) { '0' <= c <= '9' }

  predicate AllDigits(s: string) {
    forall i :: 0 <= i < |s| ==> IsDigit(s[i])
  }

  /** The value of a run of ASCII decimal digits, most significant first. */
  function DigitsValue(s: string): nat
    requires AllDigits(s)
  {
    if s == [] then 0 else DigitsValue(s[..|s| - 1]) * 10 + (s[|s| - 1] as int - '0' as int)
  }

  function DigitChar(d: nat): (c: char)
    requires d < 10
    ensures IsDigit(c) && c as int - '0' as int == d
  {
    ('0' as int + d) as char
  }

  /** Python's `str(n)` for n >= 0: decimal digits, no leading zero. */
  function NatToString(n: nat): (s: string)
    ensures |s| >= 1 && AllDigits(s)
    ensures |s| > 1 ==> s[0] != '0'
  {
    if n < 10 then [DigitChar(n)] else NatToString(n / 10) + [DigitChar(n % 10)]
  }

  /**
   * Python's `str(n)` for any integer. CPython raises ValueError when the
   * result would have more than MaxStrDigits digits; this rendering is total,
   * and the model only applies it to integers that `int()` produced, which
   * stay within the limit (ParseIntFits).
   */
  function IntToString(n: int): string {
    if n < 0 then "-" + NatToString(-n) else NatToString(n)
  }

  /**
   * CPython's default limit on the digits of an int/str conversion
   * (`sys.int_info.default_max_str_digits`, since 3.11 and the 3.7-3.10
   * security releases).
   */
  const MaxStrDigits := 4300

  function Abs(n: int): nat { if n < 0 then -n else n }

  /** `str(n)` is within the digit limit. */
  predicate FitsStrDigits(n: int) {
    |NatToString(Abs(n))| <= MaxStrDigits
  }

  /**
   * Python's `int(s)` on a string, restricted to surrounding whitespace, an
   * optional sign and ASCII digits, at most MaxStrDigits of them; None where
   * Python raises ValueError.
   */
  function ParseInt(s: string): (r: Option<int>)
    ensures r.Some? ==> Strip(s) != []
  {
    var t := Strip(s);
    if t == [] then None
    else if t[0] == '-' || t[0] == '+' then
      var d := t[1..];
      if d != [] && AllDigits(d) && |d| <= MaxStrDigits then
        Some(if t[0] == '-' then 0 - DigitsValue(d) else DigitsValue(d))
      else None
    else if AllDigits(t) && |t| <= MaxStrDigits then Some(DigitsValue(t))
    else None
  }

  function Pow10(k: nat): nat {
    if k == 0 then 1 else 10 * Pow10(k - 1)
  }

  lemma {:induction false} DigitsValueBound(d: string)
    requires AllDigits(d)
    ensures DigitsValue(d) < Pow10(|d|)
  {
    if d != [] {
      var init := d[..|d| - 1];
      DigitsValueBound(init);
      assert DigitsValue(init) + 1 <= Pow10(|init|);
      assert DigitsValue(d) <= DigitsValue(init) * 10 + 9;
      assert (DigitsValue(init) + 1) * 10 <= Pow10(|init|) * 10;
    }
  }

  lemma {:induction false} NatToStringLength(n: nat, k: nat)
    requires 1 <= k && n < Pow10(k)
    ensures |NatToString(n)| <= k
  {
    if n >= 10 {
      assert n / 10 < Pow10(k - 1) by {
        assert n < 10 * Pow10(k - 1);
      }
      NatToStringLength(n / 10, k - 1);
    }
  }

  /** Whatever `int()` returns renders back within the digit limit. */
  lemma ParseIntFits(s: string)
    ensures ParseInt(s).Some? ==> FitsStrDigits(ParseInt(s).value)
  {
    var t := Strip(s);
    if ParseInt(s).Some? {
      var d := if t[0] == '-' || t[0] == '+' then t[1..] else t;
      DigitsValueBound(d);
      NatToStringLength(DigitsValue(d), |d|);
    }
  }

  lemma {:induction false} NatToStringValue(n: nat)
    ensures DigitsValue(NatToString(n)) == n
  {
    if n >= 10 {
      NatToStringValue(n / 10);
      var s := NatToString(n);
      assert s[..|s| - 1] == NatToString(n / 10);
    }
  }

  lemma StripUnpadded(s: string)
    requires Unpadded(s)
    ensures Strip(s) == s
  {
    assert s[..0] == [] && s[|s|..] == [] && s[0..|s|] == s;
    StripIsUniqueTrim(s, 0, |s|);
  }

  lemma ParseIntDigits(d: string)
    requires d != [] && AllDigits(d) && |d| <= MaxStrDigits
    ensures ParseInt(d) == Some(DigitsValue(d))
  {
    assert IsDigit(d[0]) && IsDigit(d[|d| - 1]);
    StripUnpadded(d);
  }

  lemma ParseIntNegativeDigits(d: string, s: string)
    requires d != [] && AllDigits(d) && |d| <= MaxStrDigits && s == "-" + d
    ensures ParseInt(s) == Some(0 - DigitsValue(d))
  {
    assert s[0] == '-' && s[|s| - 1] == d[|d| - 1] && s[1..] == d;
    StripUnpadded(s);
  }

  /** More than MaxStrDigits digits is a ValueError, signed or not. */
  lemma ParseIntTooManyDigits(d: string)
    requires AllDigits(d) && |d| > MaxStrDigits
    ensures ParseInt(d) == None && ParseInt("-" + d) == None && ParseInt("+" + d) == None
  {
    assert IsDigit(d[0]) && IsDigit(d[|d| - 1]);
    StripUnpadded(d);
    var m, p := "-" + d, "+" + d;
    assert m[|m| - 1] == d[|d| - 1] && m[1..] == d;
    assert p[|p| - 1] == d[|d| - 1] && p[1..] == d;
    StripUnpadded(m);
    StripUnpadded(p);
  }

  /** `int(str(n)) == n` for every integer whose rendering is within the digit limit. */
  lemma ParseIntToString(n: int)
    requires FitsStrDigits(n)
    ensures ParseInt(IntToString(n)) == Some(n)
  {
    var m := Abs(n);
    NatToStringValue(m);
    if n < 0 {
      ParseIntNegativeDigits(NatToString(m), IntToString(n));
    } else {
      ParseIntDigits(NatToString(m));
    }
  }

  /** Surrounding whitespace never changes what `int()` reads. */
  lemma ParseIntIgnoresPadding(pre: string, s: string, post: string)
    requires AllSpace(pre) && AllSpace(post)
    ensures ParseInt(pre + s + post) == ParseInt(s)
  {
    StripIgnoresPadding(pre, s, post);
  }
}

// String helpers with the JavaScript behaviour the components rely on:
// `trim`, an ASCII `toLowerCase`, `includes`, `startsWith`, the decimal
// rendering of integers (`toString`) and a code-point order standing in
// for `localeCompare`.
module Text {

  /** The characters JavaScript's `String.prototype.trim` removes:
      WhiteSpace (TAB, VT, FF, SP, NBSP, ZWNBSP and the Zs category) and
      LineTerminator (LF, CR, LS, PS). */
  predicate IsJsWhitespace(c: char) {
    var n := c as int;
    n == 0x09 || n == 0x0A || n == 0x0B || n == 0x0C || n == 0x0D || n == 0x20
    || n == 0xA0 || n == 0x1680 || (0x2000 <= n <= 0x200A)
    || n == 0x2028 || n == 0x2029 || n == 0x202F || n == 0x205F
    || n == 0x3000 || n == 0xFEFF
  }

  /** `s` is whitespace only (or empty). */
  predicate Blank(s: string) {
    forall i | 0 <= i < |s| :: IsJsWhitespace(s[i])
  }

  /** Drops leading whitespace. */
  function TrimStart(s: string): (r: string)
    ensures |r| <= |s|
    decreases |s|
  {
    if s != [] && IsJsWhitespace(s[0]) then TrimStart(s[1..]) else s
  }

  /** What `TrimStart` leaves is a suffix of `s` that does not start with
      whitespace, and what it drops is blank. */
  lemma {:induction false} TrimStartShape(s: string)
    ensures var r := TrimStart(s);
      r == s[|s| - |r|..] && Blank(s[..|s| - |r|]) && (r != [] ==> !IsJsWhitespace(r[0]))
    decreases |s|
  {
    if s != [] && IsJsWhitespace(s[0]) {
      TrimStartShape(s[1..]);
      var r := TrimStart(s);
      var n := |s| - |r|;
      assert s[1..][..n - 1] == s[1..n];
      assert forall i | 1 <= i < n :: s[..n][i] == s[1..][..n - 1][i - 1];
    }
  }

  /** Drops trailing whitespace. */
  function TrimEnd(s: string): (r: string)
    ensures |r| <= |s|
    decreases |s|
  {
    if s != [] && IsJsWhitespace(s[|s| - 1]) then TrimEnd(s[..|s| - 1]) else s
  }

  /** What `TrimEnd` leaves is a prefix of `s` that does not end with
      whitespace, and what it drops is blank. */
  lemma {:induction false} TrimEndShape(s: string)
    ensures var r := TrimEnd(s);
      r == s[..|r|] && Blank(s[|r|..]) && (r != [] ==> !IsJsWhitespace(r[|r| - 1]))
    decreases |s|
  {
    if s != [] && IsJsWhitespace(s[|s| - 1]) {
      var m := |s| - 1;
      TrimEndShape(s[..m]);
      var r := TrimEnd(s);
      assert s[..m][..|r|] == s[..|r|];
      assert forall i | 0 <= i < m - |r| :: s[|r|..][i] == s[..m][|r|..][i];
    }
  }

  /** `s.trim()`. */
  function Trim(s: string): (r: string)
    ensures |r| <= |s|
  {
    TrimEnd(TrimStart(s))
  }

  /** The trimmed text is a slice of `s` with no whitespace at either end,
      and everything cut off on either side is whitespace. */
  lemma TrimShape(s: string)
    ensures var r := Trim(s);
      exists k | 0 <= k <= |s| - |r| ::
        r == s[k..k + |r|] && Blank(s[..k]) && Blank(s[k + |r|..])
    ensures var r := Trim(s);
      r != [] ==> !IsJsWhitespace(r[0]) && !IsJsWhitespace(r[|r| - 1])
  {
    var t := TrimStart(s);
    TrimStartShape(s);
    TrimEndShape(t);
    var r := Trim(s);
    var k := |s| - |t|;
    assert r == s[k..k + |r|];
    assert forall i | 0 <= i < |s| - (k + |r|) :: s[k + |r|..][i] == t[|r|..][i];
  }

  /** A string trims to `''` exactly when it is blank. */
  lemma TrimEmptyIffBlank(s: string)
    ensures Trim(s) == [] <==> Blank(s)
  {
    var t := TrimStart(s);
    TrimStartShape(s);
    TrimEndShape(t);
    var k := |s| - |t|;
    assert Trim(s) == [] ==> t[0..] == t;
    assert t != [] ==> t[0] == s[k];
    assert Trim(s) == [] ==> t == [];
    assert Blank(s) ==> t == [];
    assert t == [] ==> s[..k] == s;
  }

  /** A blank string trims away entirely from the start. */
  lemma {:induction false} TrimStartBlank(s: string)
    requires Blank(s)
    ensures TrimStart(s) == []
    decreases |s|
  {
    if s != [] {
      assert Blank(s[1..]) by {
        assert forall i | 0 <= i < |s| - 1 :: s[1..][i] == s[i + 1];
      }
      TrimStartBlank(s[1..]);
    }
  }

  /** Once the start of `x` holds a non-space character, text appended to
      `x` is kept by `TrimStart`. */
  lemma {:induction false} TrimStartAppend(x: string, w: string)
    requires TrimStart(x) != []
    ensures TrimStart(x + w) == TrimStart(x) + w
    decreases |x|
  {
    if IsJsWhitespace(x[0]) {
      assert (x + w)[1..] == x[1..] + w;
      TrimStartAppend(x[1..], w);
    }
  }

  /** Trailing whitespace appended to `y` is dropped by `TrimEnd`. */
  lemma {:induction false} TrimEndDropsBlank(y: string, w: string)
    requires Blank(w)
    ensures TrimEnd(y + w) == TrimEnd(y)
    decreases |w|
  {
    if w == [] {
      assert y + w == y;
    } else {
      var n := |w| - 1;
      assert (y + w)[..|y + w| - 1] == y + w[..n];
      assert (y + w)[|y + w| - 1] == w[n];
      assert Blank(w[..n]) by {
        assert forall i | 0 <= i < n :: w[..n][i] == w[i];
      }
      TrimEndDropsBlank(y, w[..n]);
    }
  }

  /** Whitespace appended to a string does not change its trim. */
  lemma TrimDropsBlank(x: string, w: string)
    requires Blank(w)
    ensures Trim(x + w) == Trim(x)
  {
    if TrimStart(x) != [] {
      TrimStartAppend(x, w);
      TrimEndDropsBlank(TrimStart(x), w);
    } else {
      TrimStartShape(x);
      assert x[..|x|] == x;
      assert Blank(x + w) by {
        assert forall i | 0 <= i < |x + w| :: (x + w)[i] == if i < |x| then x[i] else w[i - |x|];
      }
      TrimStartBlank(x + w);
    }
  }

  /** ASCII `toLowerCase` of one character. */
  function LowerChar(c: char): (r: char)
    ensures 'A' <= c <= 'Z' ==> r as int == c as int + 32
    ensures !('A' <= c <= 'Z') ==> r == c
  {
    if 'A' <= c <= 'Z' then (c as int + 32) as char else c
  }

  /** ASCII `toLowerCase`: same length, each character lowered. */
  function ToLower(s: string): (r: string)
    ensures |r| == |s|
    ensures forall i | 0 <= i < |s| :: r[i] == LowerChar(s[i])
  {
    seq(|s|, i requires 0 <= i < |s| => LowerChar(s[i]))
  }

  /** `s.startsWith(p)`. */
  predicate IsPrefix(p: string, s: string) {
    |p| <= |s| && s[..|p|] == p
  }

  /** `s.includes(sub)`: `sub` occurs at some position of `s`. */
  predicate Contains(s: string, sub: string)
    decreases |s|
  {
    IsPrefix(sub, s) || (s != [] && Contains(s[1..], sub))
  }

  /** A longer string never occurs in a shorter one. */
  lemma {:induction false} ContainsImpliesShorter(s: string, sub: string)
    requires Contains(s, sub)
    ensures |sub| <= |s|
    decreases |s|
  {
    if !IsPrefix(sub, s) {
      ContainsImpliesShorter(s[1..], sub);
    }
  }

  /** The empty string contains only the empty string; every string contains it. */
  lemma ContainsEmpty(t: string)
    ensures Contains("", t) <==> t == ""
    ensures Contains(t, "")
  {
  }

  predicate IsDigit(c: char) {
    '0' <= c <= '9'
  }

  predicate AllDigits(s: string) {
    forall i | 0 <= i < |s| :: IsDigit(s[i])
  }

  function DigitChar(d: nat): (c: char)
    requires d < 10
    ensures IsDigit(c) && c as int - '0' as int == d
  {
    ('0' as int + d) as char
  }

  function DigitValue(c: char): (d: nat)
    requires IsDigit(c)
    ensures d < 10 && DigitChar(d) == c
  {
    c as int - '0' as int
  }

  /** The value of a run of decimal digits (the empty run is 0). */
  function DigitsValue(s: string): nat
    requires AllDigits(s)
    decreases |s|
  {
    if s == [] then 0 else DigitsValue(s[..|s| - 1]) * 10 + DigitValue(s[|s| - 1])
  }

  /** The end of the longest digit run starting at `i` (greedy `\d+`). */
  function DigitRunEnd(q: string, i: nat): (j: nat)
    requires i <= |q|
    ensures i <= j <= |q| && AllDigits(q[i..j])
    ensures j < |q| ==> !IsDigit(q[j])
    decreases |q| - i
  {
    if i < |q| && IsDigit(q[i]) then
      var j := DigitRunEnd(q, i + 1);
      assert q[i..j] == [q[i]] + q[i + 1..j];
      j
    else i
  }

  /** A digit run that ends at a non-digit (or at the end) is the one
      `DigitRunEnd` finds. */
  lemma {:induction false} DigitRunEndUnique(q: string, i: nat, k: nat)
    requires i <= k <= |q| && AllDigits(q[i..k]) && (k == |q| || !IsDigit(q[k]))
    ensures DigitRunEnd(q, i) == k
    decreases k - i
  {
    if i < k {
      assert IsDigit(q[i..k][0]);
      assert q[i + 1..k] == q[i..k][1..];
      DigitRunEndUnique(q, i + 1, k);
    }
  }

  /** `n.toString()` for a non-negative integer. */
  function NatToString(n: nat): (r: string)
    decreases n
  {
    if n < 10 then [DigitChar(n)] else NatToString(n / 10) + [DigitChar(n % 10)]
  }

  /** `NatToString` is a non-empty digit string that reads back as `n`,
      with no leading zero. */
  lemma {:induction false} NatToStringRoundTrip(n: nat)
    ensures NatToString(n) != [] && AllDigits(NatToString(n))
    ensures DigitsValue(NatToString(n)) == n
    ensures |NatToString(n)| > 1 ==> NatToString(n)[0] != '0'
    decreases n
  {
    if n >= 10 {
      NatToStringRoundTrip(n / 10);
      var s := NatToString(n);
      assert s[..|s| - 1] == NatToString(n / 10);
    }
  }

  /** A number of four digits prints as four characters. */
  lemma NatToStringFourDigits(n: nat)
    requires 1000 <= n <= 9999
    ensures |NatToString(n)| == 4
  {
    assert n / 10 / 10 / 10 == n / 1000 && 1 <= n / 1000 < 10;
    assert |NatToString(n / 10 / 10)| == 2;
    assert |NatToString(n / 10)| == 3;
  }

  /** `i.toString()` for an integer. */
  function IntToString(i: int): (r: string)
  {
    if i < 0 then "-" + NatToString(-i) else NatToString(i)
  }

  /** Strict code-point lexicographic order (a `char` is a Unicode scalar value). */
  predicate LexLess(a: string, b: string)
    decreases |a|
  {
    if a == [] then b != []
    else if b == [] then false
    else if a[0] != b[0] then a[0] < b[0]
    else LexLess(a[1..], b[1..])
  }

  lemma {:induction false} LexLessIrreflexive(a: string)
    ensures !LexLess(a, a)
    decreases |a|
  {
    if a != [] {
      LexLessIrreflexive(a[1..]);
    }
  }

  lemma {:induction false} LexLessTransitive(a: string, b: string, c: string)
    requires LexLess(a, b) && LexLess(b, c)
    ensures LexLess(a, c)
    decreases |a|
  {
    if a != [] && b != [] && c != [] && a[0] == b[0] && b[0] == c[0] {
      LexLessTransitive(a[1..], b[1..], c[1..]);
    }
  }

  lemma {:induction false} LexLessTotal(a: string, b: string)
    requires a != b
    ensures LexLess(a, b) || LexLess(b, a)
    decreases |a|
  {
    if a != [] && b != [] && a[0] == b[0] {
      assert a == [a[0]] + a[1..] && b == [b[0]] + b[1..];
      LexLessTotal(a[1..], b[1..]);
    }
  }

  lemma {:induction false} LexLessAsymmetric(a: string, b: string)
    requires LexLess(a, b)
    ensures !LexLess(b, a)
  {
    if LexLess(b, a) {
      LexLessTransitive(a, b, a);
      LexLessIrreflexive(a);
    }
  }
}

/** A small numeric parser from the user library: `chtol` maps one
    character to a digit value and `strtol` reads a signed number in a base
    between 2 and 36. A C string is modelled as the characters before its
    terminator; reading at or past the end yields NUL. */
module YuvalLib {

  const NUL: char := '\0'

  /** The character at position i of a C string, NUL at and beyond its end. */
  function At(s: seq<char>, i: nat): char
  {
    if i < |s| then s[i] else NUL
  }

  function Code(c: char): int { c as int }

  // ---------------------------------------------------------------- chtol

  /** chtol as written: a decimal digit is worth its value, an upper-case
      letter its distance from 'A', a lower-case letter its (non-positive)
      distance from 'z', anything else -1. No character is worth more than 25. */
  function ChToL(c: char): (r: int)
    ensures -25 <= r <= 25
    ensures '0' <= c <= '9' ==> r == Code(c) - Code('0')
    ensures 'A' <= c <= 'Z' ==> r == Code(c) - Code('A')
    ensures 'a' <= c <= 'z' ==> r == Code(c) - Code('z') && r <= 0
    ensures r >= 0 <==> '0' <= c <= '9' || 'A' <= c <= 'Z' || c == 'z'
  {
    if '0' <= c <= '9' then Code(c) - Code('0')
    else if 'A' <= c <= 'Z' then Code(c) - Code('A')
    else if 'a' <= c <= 'z' then Code(c) - Code('z')
    else -1
  }

  /** As written, 'A' reads as 0, 'z' as 0, and 'a' .. 'y' are no digits at
      all, so a hexadecimal "ff" or "A" is not read as 255 or 10. */
  lemma ChToLLetters()
    ensures ChToL('A') == 0 && ChToL('F') == 5 && ChToL('a') == -25 && ChToL('f') == -20 && ChToL('z') == 0
  {
  }

  /** chtol as evidently intended: letters of either case are worth 10 .. 35. */
  function ChToLFixed(c: char): (r: int)
    ensures -1 <= r < 36
    ensures r >= 0 <==> '0' <= c <= '9' || 'A' <= c <= 'Z' || 'a' <= c <= 'z'
  {
    if '0' <= c <= '9' then Code(c) - Code('0')
    else if 'A' <= c <= 'Z' then Code(c) - Code('A') + 10
    else if 'a' <= c <= 'z' then Code(c) - Code('a') + 10
    else -1
  }

  /** The lower-case numeral of a digit value. */
  function DigitChar(d: nat): (c: char)
    requires d < 36
    ensures c != NUL && c != '-' && c != '+'
  {
    if d < 10 then (Code('0') + d) as char else (Code('a') + d - 10) as char
  }

  /** The corrected chtol inverts DigitChar. */
  lemma DigitCharRoundTrip(d: nat)
    requires d < 36
    ensures ChToLFixed(DigitChar(d)) == d
  {
  }

  /** Both versions agree on decimal digits and on every non-alphanumeric character. */
  lemma ChToLAgreesOnDecimal(c: char)
    requires !('A' <= c <= 'Z' || 'a' <= c <= 'z')
    ensures ChToL(c) == ChToLFixed(c)
  {
  }

  // ---------------------------------------------------------------- strtol

  /** c is a digit of the base under the digit map f. */
  predicate IsDigit(c: char, base: int, f: char -> int)
  {
    c != NUL && 0 <= f(c) < base
  }

  /** The number of sign characters read: an optional '-', then an optional '+'. */
  function SignLen(s: seq<char>): (n: nat)
    ensures n <= 2 && n <= |s|
  {
    var m := if At(s, 0) == '-' then 1 else 0;
    if At(s, m) == '+' then m + 1 else m
  }

  function Sign(s: seq<char>): int
  {
    if At(s, 0) == '-' then -1 else 1
  }

  /** The end of the run of digits starting at i. */
  function DigitRun(s: seq<char>, i: nat, base: int, f: char -> int): (e: nat)
    requires i <= |s|
    ensures i <= e <= |s|
    ensures forall k :: i <= k < e ==> IsDigit(s[k], base, f)
    ensures !IsDigit(At(s, e), base, f)
    decreases |s| - i
  {
    if IsDigit(At(s, i), base, f) then DigitRun(s, i + 1, base, f) else i
  }

  /** A run of digits ending at the first non-digit is the digit run. */
  lemma {:induction false} DigitRunUnique(s: seq<char>, i: nat, e: nat, base: int, f: char -> int)
    requires i <= e <= |s|
    requires forall k :: i <= k < e ==> IsDigit(s[k], base, f)
    requires !IsDigit(At(s, e), base, f)
    ensures DigitRun(s, i, base, f) == e
    decreases e - i
  {
    if i < e {
      assert At(s, i) == s[i];
      DigitRunUnique(s, i + 1, e, base, f);
    }
  }

  /** The value of a numeral, most significant digit first. */
  function Value(ds: seq<char>, base: int, f: char -> int): int
  {
    if |ds| == 0 then 0 else Value(ds[..|ds| - 1], base, f) * base + f(ds[|ds| - 1])
  }

  /** What strtol returns and where it leaves *end_ptr, as written: -1 and
      no progress for a base outside 2 .. 36; otherwise the digits after the
      sign characters, negated for a leading '-' only when the digits run up
      to the terminator. */
  function StrToLSpec(s: seq<char>, base: int): (int, nat)
  {
    if base < 2 || base > 36 then (-1, 0)
    else
      var e := DigitRun(s, SignLen(s), base, ChToL);
      var v := Value(s[SignLen(s)..e], base, ChToL);
      (if At(s, e) == NUL then Sign(s) * v else v, e)
  }

  /** strtol as written, reading from *end_ptr = offset 0 of s; returns the
      result and the final offset of *end_ptr. */
  method StrToL(s: seq<char>, base: int) returns (r: int, end: nat)
    ensures base < 2 || base > 36 ==> r == -1 && end == 0
    ensures 2 <= base <= 36 ==> SignLen(s) <= end <= |s| && !IsDigit(At(s, end), base, ChToL)
    ensures 2 <= base <= 36 ==> forall k :: SignLen(s) <= k < end ==> IsDigit(s[k], base, ChToL)
    ensures (r, end) == StrToLSpec(s, base)
  {
    if base < 2 || base > 36 {
      return -1, 0;
    }
    var ans := 0;
    var sign := 1;
    var p := 0;
    if At(s, p) == '-' {
      sign := -1;
      p := p + 1;
    }
    if At(s, p) == '+' {
      p := p + 1;
    }
    var start := p;
    assert start == SignLen(s) && sign == Sign(s);
    while At(s, p) != NUL
      invariant start <= p <= |s|
      invariant forall k :: start <= k < p ==> IsDigit(s[k], base, ChToL)
      invariant ans == Value(s[start..p], base, ChToL)
      decreases |s| - p
    {
      var d := ChToL(At(s, p));
      if d >= base || d < 0 {
        DigitRunUnique(s, start, p, base, ChToL);
        return ans, p;
      }
      ValueStep(s, start, p, base, ChToL);
      ans := ans * base + d;
      p := p + 1;
    }
    DigitRunUnique(s, start, p, base, ChToL);
    return ans * sign, p;
  }

  /** One more digit multiplies the value so far by the base and adds the digit. */
  lemma ValueStep(s: seq<char>, i: nat, p: nat, base: int, f: char -> int)
    requires i <= p < |s|
    ensures Value(s[i..p + 1], base, f) == Value(s[i..p], base, f) * base + f(s[p])
  {
    assert s[i..p + 1][..p - i] == s[i..p];
  }

  /** As written, a negative number followed by anything but the terminator
      comes back positive. */
  lemma StrToLDropsSign()
    ensures StrToLSpec("-12x", 10) == (12, 3)
    ensures StrToLSpec("-12", 10) == (-12, 3)
  {
    assert SignLen("-12x") == 1 && SignLen("-12") == 1;
    assert ChToL('1') == 1 && ChToL('2') == 2 && ChToL('x') < 0;
    DigitRunUnique("-12x", 1, 3, 10, ChToL);
    DigitRunUnique("-12", 1, 3, 10, ChToL);
    assert "-12x"[1..3] == "12" && "-12"[1..3] == "12";
    assert "12"[..1] == "1" && "1"[..0] == "";
    assert Value("12", 10, ChToL) == 12;
  }

  /** strtol as evidently intended: the corrected digit map, and the sign
      applied however the digits end. */
  function StrToLFixed(s: seq<char>, base: int): (int, nat)
  {
    if base < 2 || base > 36 then (-1, 0)
    else
      var e := DigitRun(s, SignLen(s), base, ChToLFixed);
      (Sign(s) * Value(s[SignLen(s)..e], base, ChToLFixed), e)
  }

  /** The numeral of m in the base, without leading zeros. */
  function Digits(m: nat, base: nat): (ds: seq<char>)
    requires 2 <= base <= 36
    ensures |ds| > 0 && forall k :: 0 <= k < |ds| ==> IsDigit(ds[k], base, ChToLFixed)
    decreases m
  {
    if m < base then [DigitChar(m)]
    else
      DivMod(m, base);
      Digits(m / base, base) + [DigitChar(m % base)]
  }

  lemma DivMod(m: nat, base: nat)
    requires 2 <= base <= m
    ensures 0 < m / base < m && m % base < base && (m / base) * base + m % base == m
  {
    var q, d := m / base, m % base;
    assert q * base + d == m && d < base;
    assert q * base > 0;
    assert q >= 1;
    assert q * base >= q * 2;
  }

  lemma {:induction false} DigitsValue(m: nat, base: nat)
    requires 2 <= base <= 36
    ensures Value(Digits(m, base), base, ChToLFixed) == m
    decreases m
  {
    if m < base {
      DigitCharRoundTrip(m);
    } else {
      DivMod(m, base);
      var q := m / base;
      var d := m % base;
      DigitCharRoundTrip(d);
      DigitsValue(q, base);
      var ds := Digits(m, base);
      assert ds == Digits(q, base) + [DigitChar(d)];
      assert ds[..|ds| - 1] == Digits(q, base);
      assert Value(ds, base, ChToLFixed) == q * base + d;
    }
  }

  /** n written in the base, with a leading '-' when negative. */
  function Render(n: int, base: nat): seq<char>
    requires 2 <= base <= 36
  {
    if n < 0 then ['-'] + Digits(-n, base) else Digits(n, base)
  }

  /** The corrected strtol reads back every rendered number, to the end. */
  lemma RenderRoundTrip(n: int, base: nat)
    requires 2 <= base <= 36
    ensures StrToLFixed(Render(n, base), base) == (n, |Render(n, base)|)
  {
    var s := Render(n, base);
    var m: nat := if n < 0 then -n else n;
    var ds := Digits(m, base);
    var start := if n < 0 then 1 else 0;
    assert s[start..] == ds;
    assert At(s, start) == ds[0];
    assert SignLen(s) == start;
    DigitRunUnique(s, start, |s|, base, ChToLFixed);
    assert s[start..|s|] == ds;
    DigitsValue(m, base);
  }

  /** The corrected strtol keeps the sign when the number is followed by a
      character that is not a digit of the base: it reads the number and
      stops in front of that character. */
  lemma RenderThenStop(n: int, base: nat, c: char)
    requires 2 <= base <= 36 && !IsDigit(c, base, ChToLFixed)
    ensures StrToLFixed(Render(n, base) + [c], base) == (n, |Render(n, base)|)
  {
    var r := Render(n, base);
    var s := r + [c];
    var m: nat := if n < 0 then -n else n;
    var ds := Digits(m, base);
    var start := if n < 0 then 1 else 0;
    assert r[start..] == ds;
    assert s[start] == ds[0];
    assert At(s, start) == ds[0];
    assert SignLen(s) == start;
    assert At(s, |r|) == c;
    forall k | start <= k < |r|
      ensures IsDigit(s[k], base, ChToLFixed)
    {
      assert s[k] == ds[k - start];
    }
    DigitRunUnique(s, start, |r|, base, ChToLFixed);
    assert s[start..|r|] == ds;
    DigitsValue(m, base);
  }

  /** Where the as-written parser consumes the whole string, it agrees with
      the corrected one on strings of decimal digits. */
  lemma DecimalAgrees(s: seq<char>)
    requires forall k :: 0 <= k < |s| ==> '0' <= s[k] <= '9'
    ensures StrToLSpec(s, 10) == StrToLFixed(s, 10)
  {
    assert SignLen(s) == 0 && Sign(s) == 1 && At(s, |s|) == NUL;
    assert s[0..|s|] == s;
    forall c: char | '0' <= c <= '9'
      ensures ChToL(c) == ChToLFixed(c)
    {
      ChToLAgreesOnDecimal(c);
    }
    DigitRunUnique(s, 0, |s|, 10, ChToL);
    DigitRunUnique(s, 0, |s|, 10, ChToLFixed);
    ValueAgrees(s);
  }

  lemma {:induction false} ValueAgrees(ds: seq<char>)
    requires forall k :: 0 <= k < |ds| ==> '0' <= ds[k] <= '9'
    ensures Value(ds, 10, ChToL) == Value(ds, 10, ChToLFixed)
  {
    if |ds| > 0 {
      ValueAgrees(ds[..|ds| - 1]);
    }
  }
}

/** Numbers as text and back: printnum of lab2/libs/printfmt.c and strtol of lab2/libs/string.c. */
module Numbers {
  // ---------- Printing ----------

  function Digit(d: nat): char
    requires d < 16
  {
    "0123456789abcdef"[d]
  }

  /** do_div: the quotient left in place, and the remainder. */
  function Quot(num: nat, base: nat): (q: nat)
    requires base >= 2
    ensures num >= base ==> 1 <= q < num
  {
    num / base
  }

  function Rem(num: nat, base: nat): (r: nat)
    requires base >= 2
    ensures r < base && (num < base ==> r == num)
  {
    num % base
  }

  lemma QuotRem(num: nat, base: nat)
    requires base >= 2
    ensures num == base * Quot(num, base) + Rem(num, base)
  {
  }

  /** The digits printnum prints, the least significant one last. */
  function Digits(num: nat, base: nat): string
    requires 2 <= base <= 16
  {
    (if num >= base then Digits(Quot(num, base), base) else "") + [Digit(Rem(num, base))]
  }

  function Repeat(c: char, n: int): string {
    if n <= 0 then "" else seq(n, _ => c)
  }

  /** The field printnum prints: the digits, padded on the left. */
  function Field(num: nat, base: nat, width: int, padc: char): string
    requires 2 <= base <= 16
  {
    Repeat(padc, width - |Digits(num, base)|) + Digits(num, base)
  }

  function Power(base: nat, k: nat): nat {
    if k == 0 then 1 else base * Power(base, k - 1)
  }

  lemma Between(b: nat, q: nat, r: nat, low: nat, high: nat)
    requires r < b && low <= q < high
    ensures b * low <= b * q + r < b * high
  {
    assert b * (q + 1) <= b * high;
    assert b * (q + 1) == b * q + b;
    assert b * low <= b * q;
  }

  /** There are as many digits as the number needs, and at least one. */
  lemma {:induction false} DigitCount(num: nat, base: nat)
    requires 2 <= base <= 16
    ensures var n := |Digits(num, base)|;
            n >= 1 && num < Power(base, n) && (n > 1 ==> Power(base, n - 1) <= num)
  {
    hide Power, Quot, Rem;
    PowerStep(base, 0);
    if num >= base {
      QuotRem(num, base);
      var q, m := Quot(num, base), |Digits(Quot(num, base), base)|;
      DigitCount(q, base);
      PowerStep(base, m - 1);
      PowerStep(base, m);
      Between(base, q, Rem(num, base), Power(base, m - 1), Power(base, m));
    }
  }

  lemma PowerStep(base: nat, k: nat)
    ensures Power(base, k + 1) == base * Power(base, k) && Power(base, 0) == 1
  {
  }

  /** The field is as wide as asked for, or as the digits need. */
  lemma FieldLength(num: nat, base: nat, width: int, padc: char)
    requires 2 <= base <= 16
    ensures |Field(num, base, width, padc)| == if width > |Digits(num, base)| then width else |Digits(num, base)|
  {
  }

  // ---------- Parsing ----------

  /** The value of a character as a digit; 36 if it is none. */
  function DigitOf(c: char): (d: nat)
    ensures d <= 36
  {
    if '0' <= c <= '9' then c as int - '0' as int
    else if 'a' <= c <= 'z' then c as int - 'a' as int + 10
    else if 'A' <= c <= 'Z' then c as int - 'A' as int + 10
    else 36
  }

  predicate IsDigit(c: char, base: nat) {
    DigitOf(c) < base
  }

  /** The number the digits stand for. */
  function Value(ds: string, base: nat): nat {
    if ds == "" then 0 else Value(ds[..|ds| - 1], base) * base + DigitOf(ds[|ds| - 1])
  }

  /** The end of the longest stretch from i on of characters in the set. */
  function Span(s: string, i: nat, good: char -> bool): (j: nat)
    requires i <= |s|
    ensures i <= j <= |s|
    ensures forall k | i <= k < j :: good(s[k])
    ensures j < |s| ==> !good(s[j])
    decreases |s| - i
  {
    if i < |s| && good(s[i]) then Span(s, i + 1, good) else i
  }

  predicate Blank(c: char) {
    c == ' ' || c == '\t'
  }

  /** A string in memory: the characters up to the first NUL and the NUL. */
  predicate Terminated(s: string) {
    |s| > 0 && s[|s| - 1] == '\0' && forall i | 0 <= i < |s| - 1 :: s[i] != '\0'
  }

  /** The end of the digits from k on. */
  function DigitsEnd(s: string, k: nat, base: nat): (e: nat)
    requires k <= |s|
    ensures k <= e <= |s|
    ensures forall i | k <= i < e :: IsDigit(s[i], base)
    ensures e < |s| ==> !IsDigit(s[e], base)
  {
    Span(s, k, c => IsDigit(c, base))
  }

  datatype Parsed = Parsed(val: int, end: nat)

  /** Where the sign and the base prefix end, and what they say. */
  function AfterSign(s: string, i: nat): nat
    requires i < |s|
  {
    if s[i] == '+' || s[i] == '-' then i + 1 else i
  }

  predicate HexPrefix(s: string, i: nat, base: nat) {
    (base == 0 || base == 16) && i + 1 < |s| && s[i] == '0' && s[i + 1] == 'x'
  }

  function AfterPrefix(s: string, i: nat, base: nat): nat
    requires i < |s|
  {
    if HexPrefix(s, i, base) then i + 2 else if base == 0 && s[i] == '0' then i + 1 else i
  }

  function BaseOf(s: string, i: nat, base: nat): nat
    requires i < |s|
  {
    if HexPrefix(s, i, base) then 16 else if base != 0 then base else if s[i] == '0' then 8 else 10
  }

  lemma NotAtNul(s: string, i: nat)
    requires Terminated(s) && i < |s| && s[i] != '\0'
    ensures i + 1 < |s|
  {
  }

  /** What strtol reads: blanks, a sign, a prefix, and the longest stretch of digits. */
  function Parse(s: string, base: nat): Parsed
    requires Terminated(s) && (base == 0 || 2 <= base <= 36)
  {
    var i := Span(s, 0, Blank);
    var j := AfterSign(s, i);
    var k := AfterPrefix(s, j, base);
    var b := BaseOf(s, j, base);
    var e := DigitsEnd(s, k, b);
    var v: int := Value(s[k..e], b);
    Parsed(if s[i] == '-' then -v else v, e)
  }

  /** strtol */
  method Strtol(s: string, base: nat) returns (val: int, end: nat)
    requires Terminated(s) && (base == 0 || 2 <= base <= 36)
    ensures Parsed(val, end) == Parse(s, base)
  {
    hide Value, IsDigit, DigitsEnd, Terminated, HexPrefix;
    var i := SkipBlanks(s);
    SignWithin(s, i);
    var neg := false;
    if s[i] == '+' {
      i := i + 1;
    } else if s[i] == '-' {
      i, neg := i + 1, true;
    }
    PrefixWithin(s, i, base);
    var k, b := SkipPrefix(s, i, base);
    val, end := ReadDigits(s, k, b);
    val := if neg then -val else val;
  }

  /** The first loop of strtol */
  method SkipBlanks(s: string) returns (i: nat)
    requires Terminated(s)
    ensures i < |s| && i == Span(s, 0, Blank)
  {
    i := 0;
    while s[i] == ' ' || s[i] == '\t'
      invariant i < |s| && forall k | 0 <= k < i :: Blank(s[k])
      decreases |s| - i
    {
      NotAtNul(s, i);
      i := i + 1;
    }
    SpanIs(s, 0, Blank, i);
  }

  /** The prefix, which may settle the base */
  method SkipPrefix(s: string, j: nat, base: nat) returns (k: nat, b: nat)
    requires Terminated(s) && j < |s| && (base == 0 || 2 <= base <= 36)
    ensures k == AfterPrefix(s, j, base) && b == BaseOf(s, j, base)
  {
    k, b := j, base;
    if (b == 0 || b == 16) && s[k] == '0' && s[k + 1] == 'x' {
      k, b := k + 2, 16;
    } else if b == 0 && s[k] == '0' {
      k, b := k + 1, 8;
    } else if b == 0 {
      b := 10;
    }
  }

  lemma SignWithin(s: string, i: nat)
    requires Terminated(s) && i < |s|
    ensures AfterSign(s, i) < |s|
  {
  }

  lemma PrefixWithin(s: string, j: nat, base: nat)
    requires Terminated(s) && j < |s|
    ensures AfterPrefix(s, j, base) < |s|
  {
  }

  /** The last loop of strtol */
  method ReadDigits(s: string, k: nat, base: nat) returns (val: nat, end: nat)
    requires Terminated(s) && k < |s| && base <= 36
    ensures end == DigitsEnd(s, k, base) && val == Value(s[k..end], base)
  {
    hide Value, IsDigit;
    var i := k;
    val := 0;
    ValueNone(base);
    while true
      invariant k <= i < |s| && val == Value(s[k..i], base) && forall m | k <= m < i :: IsDigit(s[m], base)
      decreases |s| - i
    {
      var dig: nat;
      if '0' <= s[i] <= '9' {
        dig := s[i] as int - '0' as int;
      } else if 'a' <= s[i] <= 'z' {
        dig := s[i] as int - 'a' as int + 10;
      } else if 'A' <= s[i] <= 'Z' {
        dig := s[i] as int - 'A' as int + 10;
      } else {
        NoDigit(s[i], base);
        break;
      }
      DigitIs(s[i], base);
      if dig >= base {
        break;
      }
      ValueMore(s, k, i, base);
      NulNoDigit(s, i, base);
      i, val := i + 1, val * base + dig;
    }
    end := i;
  }

  lemma NulNoDigit(s: string, i: nat, base: nat)
    requires Terminated(s) && i < |s| && IsDigit(s[i], base) && base <= 36
    ensures i + 1 < |s|
  {
  }

  lemma ValueNone(base: nat)
    ensures forall s: string, k: nat | k <= |s| :: Value(s[k..k], base) == 0
  {
  }

  lemma NoDigit(c: char, base: nat)
    requires !('0' <= c <= '9' || 'a' <= c <= 'z' || 'A' <= c <= 'Z') && base <= 36
    ensures !IsDigit(c, base)
  {
  }

  lemma DigitIs(c: char, base: nat)
    ensures IsDigit(c, base) <==> DigitOf(c) < base
  {
  }

  lemma ValueMore(s: string, k: nat, i: nat, base: nat)
    requires k <= i < |s|
    ensures Value(s[k..i + 1], base) == Value(s[k..i], base) * base + DigitOf(s[i])
  {
    assert s[k..i + 1][..i - k] == s[k..i];
  }

  lemma SpanIs(s: string, i: nat, good: char -> bool, j: nat)
    requires i <= j <= |s| && (forall k | i <= k < j :: good(s[k])) && (j < |s| ==> !good(s[j]))
    ensures Span(s, i, good) == j
  {
  }

  lemma DigitsEndIs(s: string, k: nat, base: nat, e: nat)
    requires k <= e < |s| && (forall i | k <= i < e :: IsDigit(s[i], base)) && s[e] == '\0' && base <= 36
    ensures DigitsEnd(s, k, base) == e
  {
    assert !IsDigit(s[e], base);
    var e' := DigitsEnd(s, k, base);
    hide IsDigit, DigitsEnd;
  }

  // ---------- There and back ----------

  lemma {:induction false} DigitsAreDigits(num: nat, base: nat)
    requires 2 <= base <= 16
    ensures |Digits(num, base)| >= 1
    ensures forall i | 0 <= i < |Digits(num, base)| ::
              IsDigit(Digits(num, base)[i], base) && Digits(num, base)[i] != 'x' && Digits(num, base)[i] != '\0'
  {
    if num >= base {
      DigitsAreDigits(Quot(num, base), base);
    }
  }

  lemma ValueSnoc(ds: string, c: char, base: nat)
    ensures Value(ds + [c], base) == Value(ds, base) * base + DigitOf(c) && Value("", base) == 0
  {
    assert (ds + [c])[..|ds|] == ds;
  }

  lemma DigitOfDigit(d: nat)
    requires d < 16
    ensures DigitOf(Digit(d)) == d
  {
  }

  /** Reading the digits gives the number. */
  lemma {:induction false} ValueOfDigits(num: nat, base: nat)
    requires 2 <= base <= 16
    ensures Value(Digits(num, base), base) == num
  {
    hide Quot, Rem, Value, Digit, DigitOf;
    var d := Digit(Rem(num, base));
    DigitOfDigit(Rem(num, base));
    if num >= base {
      ValueOfDigits(Quot(num, base), base);
      QuotRem(num, base);
      ValueSnoc(Digits(Quot(num, base), base), d, base);
    } else {
      ValueSnoc("", d, base);
      assert Digits(num, base) == [] + [d];
    }
  }

  lemma {:induction false} ValueOfPadded(k: nat, ds: string, base: nat)
    ensures Value(Repeat('0', k) + ds, base) == Value(ds, base)
    decreases k + |ds|
  {
    var z := Repeat('0', k);
    if ds != "" {
      ValueOfPadded(k, ds[..|ds| - 1], base);
      assert (z + ds)[..|z + ds| - 1] == z + ds[..|ds| - 1];
    } else if k > 0 {
      ValueOfPadded(k - 1, "", base);
      assert z + "" == z && Repeat('0', k - 1) + "" == Repeat('0', k - 1);
      assert z[..k - 1] == Repeat('0', k - 1);
    }
  }

  predicate AllDigits(ds: string, b: nat) {
    forall i | 0 <= i < |ds| :: IsDigit(ds[i], b)
  }

  /** How a prefix and digits go with the base asked for: what base b the digits are in. With the base open, 0x is for
      hexadecimal, another leading 0 for octal, and anything else is decimal. */
  predicate Announced(base: nat, prefix: string, ds: string, b: nat) {
    || (prefix == "" && base == b >= 2 && ds != "")
    || (prefix == "0x" && base in {0, 16} && b == 16)
    || (prefix == "0" && base == 0 && b == 8)
    || (prefix == "" && base == 0 && b == 10 && ds != "" && ds[0] != '0')
  }

  /** A number in a text: blanks, a sign, a prefix, digits, and something that is no digit. */
  predicate Spelled(blanks: string, sign: string, prefix: string, ds: string, tail: string, base: nat, b: nat) {
    && (forall i | 0 <= i < |blanks| :: Blank(blanks[i])) && sign in {"", "+", "-"}
    && Announced(base, prefix, ds, b) && b <= 36 && AllDigits(ds, b)
    && Terminated(tail) && !IsDigit(tail[0], b) && tail[0] != 'x'
  }

  function Spelling(blanks: string, sign: string, prefix: string, ds: string, tail: string): string {
    blanks + (sign + (prefix + (ds + tail)))
  }

  /** The text goes on with t at i. */
  predicate GoesOn(s: string, i: nat, t: string) {
    i <= |s| && s[i..] == t
  }

  /** The character at i + k of a text that goes on with t at i. */
  lemma At(s: string, i: nat, t: string, k: nat)
    requires GoesOn(s, i, t) && k < |t|
    ensures i + k < |s| && s[i + k] == t[k]
  {
    assert s[i + k] == s[i..][k];
  }

  lemma Behind(s: string, i: nat, x: string, t: string)
    requires GoesOn(s, i, x + t)
    ensures GoesOn(s, i + |x|, t) && i + |x| <= |s| && s[i..i + |x|] == x
  {
    assert s[i + |x|..] == s[i..][|x|..] && s[i..i + |x|] == s[i..][..|x|];
  }

  lemma DigitChars(c: char, b: nat)
    requires IsDigit(c, b) && b <= 36
    ensures !Blank(c) && c != '+' && c != '-' && c != '\0'
  {
  }

  /** The first character of prefix and digits is neither blank nor sign. */
  lemma DigitsBegin(base: nat, prefix: string, ds: string, tail: string, b: nat)
    requires Announced(base, prefix, ds, b) && b <= 36 && AllDigits(ds, b)
    ensures var t := prefix + (ds + tail); t != "" && !Blank(t[0]) && t[0] != '+' && t[0] != '-'
  {
    if prefix == "" {
      DigitChars(ds[0], b);
    }
  }

  lemma PrefixRead(s: string, j: nat, base: nat, prefix: string, ds: string, tail: string, b: nat)
    requires Announced(base, prefix, ds, b) && b <= 36 && AllDigits(ds, b) && tail != "" && tail[0] != 'x'
    requires GoesOn(s, j, prefix + (ds + tail))
    ensures j < |s| && AfterPrefix(s, j, base) == j + |prefix| && BaseOf(s, j, base) == b
  {
    var t := prefix + (ds + tail);
    At(s, j, t, 0);
    if |t| > 1 {
      At(s, j, t, 1);
    }
    assert |ds| > 1 && prefix == "" ==> t[1] == ds[1] && IsDigit(ds[1], b);
    assert |ds| > 0 && prefix == "0" ==> t[1] == ds[0] && IsDigit(ds[0], b);
  }

  lemma DigitsEndAt(s: string, k: nat, b: nat, ds: string, tail: string)
    requires GoesOn(s, k, ds + tail) && tail != "" && AllDigits(ds, b) && !IsDigit(tail[0], b)
    ensures k + |ds| <= |s| && DigitsEnd(s, k, b) == k + |ds| && s[k..k + |ds|] == ds
  {
    forall i | k <= i < k + |ds| ensures IsDigit(s[i], b) {
      assert s[i] == s[k..][i - k] == ds[i - k];
    }
    assert s[k + |ds|] == s[k..][|ds|] == tail[0];
    assert s[k..k + |ds|] == s[k..][..|ds|];
    hide IsDigit;
    SpanIs(s, k, c => IsDigit(c, b), k + |ds|);
  }

  /** strtol reads such a number, whatever goes before and behind it, and says where it ends. */
  lemma SpelledIsRead(blanks: string, sign: string, prefix: string, ds: string, tail: string, base: nat, b: nat)
    requires Spelled(blanks, sign, prefix, ds, tail, base, b)
    ensures var s := Spelling(blanks, sign, prefix, ds, tail);
            && Terminated(s) && (base == 0 || 2 <= base <= 36)
            && Parse(s, base) == Parsed(if sign == "-" then -(Value(ds, b) as int) else Value(ds, b), |s| - |tail|)
  {
    hide *;
    var s, i, t := Spelling(blanks, sign, prefix, ds, tail), |blanks|, prefix + (ds + tail);
    var j := i + |sign|;
    var k := j + |prefix|;
    SpelledParts(blanks, sign, prefix, ds, tail, base, b);
    SpellingSlices(blanks, sign, prefix, ds, tail);
    DigitsBegin(base, prefix, ds, tail, b);
    SignRead(s, blanks, sign, t);
    PrefixRead(s, j, base, prefix, ds, tail, b);
    DigitsEndAt(s, k, b, ds, tail);
    ParseIs(s, base, i, j, k, b, sign == "-", ds);
  }

  lemma SpellingSlices(blanks: string, sign: string, prefix: string, ds: string, tail: string)
    ensures var s, j := Spelling(blanks, sign, prefix, ds, tail), |blanks| + |sign|;
            && |s| - |tail| == j + |prefix| + |ds| && |blanks| <= |s| && s[..|blanks|] == blanks
            && GoesOn(s, |blanks|, sign + (prefix + (ds + tail)))
            && GoesOn(s, j, prefix + (ds + tail)) && GoesOn(s, j + |prefix|, ds + tail)
  {
    var s := Spelling(blanks, sign, prefix, ds, tail);
    assert s[|blanks|..] == sign + (prefix + (ds + tail));
    Behind(s, |blanks|, sign, prefix + (ds + tail));
    Behind(s, |blanks| + |sign|, prefix, ds + tail);
  }

  lemma SpellingIs(blanks: string, sign: string, prefix: string, ds: string, tail: string)
    ensures var s := Spelling(blanks, sign, prefix, ds, tail);
            && |s| == |blanks| + |sign| + |prefix| + |ds| + |tail|
            && s == blanks + (sign + (prefix + (ds + tail))) && s[|blanks|..] == sign + (prefix + (ds + tail))
  {
  }

  lemma SpelledParts(blanks: string, sign: string, prefix: string, ds: string, tail: string, base: nat, b: nat)
    requires Spelled(blanks, sign, prefix, ds, tail, base, b)
    ensures (forall i | 0 <= i < |blanks| :: Blank(blanks[i])) && sign in {"", "+", "-"}
    ensures Announced(base, prefix, ds, b) && b <= 36 && AllDigits(ds, b)
    ensures tail != "" && !IsDigit(tail[0], b) && tail[0] != 'x' && (base == 0 || 2 <= base <= 36)
    ensures Terminated(Spelling(blanks, sign, prefix, ds, tail))
  {
    SpellingTerminated(blanks, sign, prefix, ds, tail, base, b);
    hide IsDigit, Blank, Spelling;
  }

  lemma SignRead(s: string, blanks: string, sign: string, t: string)
    requires |blanks| <= |s| && s[..|blanks|] == blanks && GoesOn(s, |blanks|, sign + t)
    requires (forall i | 0 <= i < |blanks| :: Blank(blanks[i])) && sign in {"", "+", "-"}
    requires t != "" && !Blank(t[0]) && t[0] != '+' && t[0] != '-'
    ensures Span(s, 0, Blank) == |blanks| < |s| && AfterSign(s, |blanks|) == |blanks| + |sign|
    ensures s[|blanks|] == '-' <==> sign == "-"
  {
    var i := |blanks|;
    At(s, i, sign + t, 0);
    SignNotBlank();
    assert forall k | 0 <= k < i :: s[k] == s[..i][k];
    hide Blank;
    SpanIs(s, 0, Blank, i);
  }

  lemma ParseIs(s: string, base: nat, i: nat, j: nat, k: nat, b: nat, negative: bool, ds: string)
    requires Terminated(s) && (base == 0 || 2 <= base <= 36) && i < |s| && j < |s| && k + |ds| <= |s|
    requires i == Span(s, 0, Blank) && j == AfterSign(s, i) && k == AfterPrefix(s, j, base) && b == BaseOf(s, j, base)
    requires k + |ds| == DigitsEnd(s, k, b) && s[k..k + |ds|] == ds && (s[i] == '-' <==> negative)
    ensures Parse(s, base) == Parsed(if negative then -(Value(ds, b) as int) else Value(ds, b), k + |ds|)
  {
    hide Value, Span, AfterSign, AfterPrefix, BaseOf, DigitsEnd, Terminated;
  }

  /** The same for a number that a text ends with. */
  lemma EndIsRead(blanks: string, sign: string, prefix: string, ds: string, base: nat, b: nat)
    requires (forall i | 0 <= i < |blanks| :: Blank(blanks[i])) && sign in {"", "+", "-"}
    requires Announced(base, prefix, ds, b) && b <= 36 && AllDigits(ds, b)
    ensures var s := blanks + sign + prefix + ds + ['\0'];
            && Terminated(s) && (base == 0 || 2 <= base <= 36)
            && Parse(s, base) == Parsed(if sign == "-" then -(Value(ds, b) as int) else Value(ds, b), |s| - 1)
  {
    hide *;
    NulTail(b);
    SpelledWhole(blanks, sign, prefix, ds, ['\0'], base, b);
    SpelledIsRead(blanks, sign, prefix, ds, ['\0'], base, b);
    SpellingIs(blanks, sign, prefix, ds, ['\0']);
    assert blanks + (sign + (prefix + (ds + ['\0']))) == blanks + sign + prefix + ds + ['\0'];
  }

  lemma SpelledWhole(blanks: string, sign: string, prefix: string, ds: string, tail: string, base: nat, b: nat)
    requires (forall i | 0 <= i < |blanks| :: Blank(blanks[i])) && sign in {"", "+", "-"}
    requires Announced(base, prefix, ds, b) && b <= 36 && AllDigits(ds, b)
    requires Terminated(tail) && |tail| > 0 && !IsDigit(tail[0], b) && tail[0] != 'x'
    ensures Spelled(blanks, sign, prefix, ds, tail, base, b)
  {
    hide Blank, Announced, AllDigits, IsDigit, Terminated;
  }

  lemma SignNotBlank()
    ensures !Blank('+') && !Blank('-')
  {
  }

  lemma SpellingTerminated(blanks: string, sign: string, prefix: string, ds: string, tail: string, base: nat, b: nat)
    requires Spelled(blanks, sign, prefix, ds, tail, base, b)
    ensures Terminated(Spelling(blanks, sign, prefix, ds, tail)) && (base == 0 || 2 <= base <= 36)
  {
    forall i | 0 <= i < |ds| ensures ds[i] != '\0' {
      DigitChars(ds[i], b);
    }
    forall i | 0 <= i < |blanks| ensures blanks[i] != '\0' {
      assert Blank(blanks[i]);
    }
    hide IsDigit, Blank;
  }

  // ---------- What is printed reads back ----------

  lemma DigitsSpelled(num: nat, base: nat)
    requires 2 <= base <= 16
    ensures Digits(num, base) != "" && AllDigits(Digits(num, base), base) && Value(Digits(num, base), base) == num
    ensures num > 0 ==> Digits(num, base)[0] != '0'
  {
    DigitsAreDigits(num, base);
    ValueOfDigits(num, base);
    if num > 0 {
      NoLeadingZero(num, base);
    }
  }

  lemma {:induction false} NoLeadingZero(num: nat, base: nat)
    requires 2 <= base <= 16 && num > 0
    ensures |Digits(num, base)| >= 1 && Digits(num, base)[0] != '0'
  {
    hide Quot, Rem;
    if num >= base {
      NoLeadingZero(Quot(num, base), base);
    }
  }

  lemma NulTail(b: nat)
    requires b <= 36
    ensures Terminated(['\0']) && !IsDigit(['\0'][0], b)
  {
  }

  /** Whatever the width and whether padded with blanks or zeros, what is printed reads back as the number, and all
      of it is consumed. */
  lemma RoundTrip(num: nat, base: nat, width: int, padc: char)
    requires base in {8, 10, 16} && padc in {' ', '0'}
    ensures var s := Field(num, base, width, padc) + ['\0'];
            Terminated(s) && Parse(s, base) == Parsed(num, |s| - 1)
  {
    hide *;
    var ds := Digits(num, base);
    var pad := Repeat(padc, width - |ds|);
    DigitsSpelled(num, base);
    FieldIs(num, base, width, padc);
    if padc == ' ' {
      PlainAnnounced(base, ds);
      AllBlank(width - |ds|);
      EndIsRead(pad, "", "", ds, base, base);
      assert pad + "" + "" + ds + ['\0'] == pad + ds + ['\0'];
    } else {
      ZerosSpelled(width - |ds|, ds, base);
      PlainAnnounced(base, pad + ds);
      EndIsRead("", "", "", pad + ds, base, base);
      assert "" + "" + "" + (pad + ds) + ['\0'] == pad + ds + ['\0'];
    }
  }

  lemma FieldIs(num: nat, base: nat, width: int, padc: char)
    requires 2 <= base <= 16
    ensures Field(num, base, width, padc) == Repeat(padc, width - |Digits(num, base)|) + Digits(num, base)
    ensures var pad := Repeat(padc, width - |Digits(num, base)|);
            && |pad| == (if width > |Digits(num, base)| then width - |Digits(num, base)| else 0)
            && forall i | 0 <= i < |pad| :: pad[i] == padc
  {
    hide Digits;
  }

  lemma PlainAnnounced(base: nat, ds: string)
    requires base >= 2 && ds != ""
    ensures Announced(base, "", ds, base)
  {
  }

  lemma HexAnnounced(base: nat, ds: string)
    requires base in {0, 16}
    ensures Announced(base, "0x", ds, 16)
  {
  }

  lemma AllBlank(k: int)
    ensures forall i | 0 <= i < |Repeat(' ', k)| :: Blank(Repeat(' ', k)[i])
  {
  }

  /** Leading zeros are digits that add nothing. */
  lemma ZerosSpelled(k: int, ds: string, base: nat)
    requires 2 <= base <= 36 && AllDigits(ds, base)
    ensures AllDigits(Repeat('0', k) + ds, base) && Value(Repeat('0', k) + ds, base) == Value(ds, base)
  {
    var n: nat := if k < 0 then 0 else k;
    assert Repeat('0', k) == Repeat('0', n);
    ValueOfPadded(n, ds, base);
  }

  /** A negative decimal reads back if and only if there are no blanks behind its sign. */
  lemma NegativeRoundTrip(num: nat, width: int, padc: char)
    requires padc in {' ', '0'} && num > 0
    ensures var s := "-" + Field(num, 10, width, padc) + ['\0'];
            && Terminated(s)
            && (Parse(s, 10) == Parsed(-(num as int), |s| - 1) <==> padc == '0' || width <= |Digits(num, 10)|)
  {
    hide *;
    var ds := Digits(num, 10);
    var s, pad := "-" + Field(num, 10, width, padc) + ['\0'], Repeat(padc, width - |ds|);
    DigitsSpelled(num, 10);
    FieldIs(num, 10, width, padc);
    if padc == '0' || pad == "" {
      ZerosSpelled(width - |ds|, ds, 10);
      assert pad == "" ==> pad + ds == ds;
      PlainAnnounced(10, pad + ds);
      EndIsRead("", "-", "", pad + ds, 10, 10);
      assert "" + "-" + "" + (pad + ds) + ['\0'] == s;
    } else {
      FieldTerminated("-", pad, ds, 10);
      BlankBehind(s, "-", 10);
    }
  }

  lemma FieldTerminated(lead: string, pad: string, ds: string, b: nat)
    requires AllDigits(ds, b) && b <= 36 && '\0' !in lead && '\0' !in pad
    ensures Terminated(lead + (pad + ds) + ['\0'])
  {
    forall i | 0 <= i < |ds| ensures ds[i] != '\0' {
      DigitChars(ds[i], b);
    }
    hide IsDigit;
  }

  /** Nothing is read behind a sign or prefix that a blank follows. */
  lemma BlankBehind(s: string, lead: string, base: nat)
    requires Terminated(s) && ((lead == "-" && base == 10) || (lead == "0x" && base in {0, 16}))
    requires |s| > |lead| && s[..|lead|] == lead && s[|lead|] == ' '
    ensures Parse(s, base) == Parsed(0, |lead|)
  {
    assert s[0] == lead[0] && (|lead| > 1 ==> s[1] == lead[1]);
    SpanIs(s, 0, Blank, 0);
    var b := if lead == "-" then 10 else 16;
    assert !IsDigit(' ', b);
    assert DigitsEnd(s, |lead|, b) == |lead|;
    assert s[|lead|..|lead|] == "";
  }

  /** On the way to the result the value never exceeds it, so a result within range was computed within range. */
  lemma {:induction false} NoOverflow(ds: string, base: nat, i: nat)
    requires i <= |ds| && base >= 1
    ensures Value(ds[..i], base) <= Value(ds, base)
    decreases |ds| - i
  {
    if i < |ds| {
      NoOverflow(ds, base, i + 1);
      assert ds[..i + 1][..i] == ds[..i];
      AtLeast(Value(ds[..i], base), base);
    } else {
      assert ds[..i] == ds;
    }
  }

  lemma AtLeast(v: nat, base: nat)
    requires base >= 1
    ensures v * base >= v
  {
  }

  /** What is printed for a pointer, 0x and hexadecimal digits, reads back in base 16 and when the base is left open,
      unless blanks stand between the two. */
  lemma PointerRoundTrip(num: nat, base: nat, width: int, padc: char)
    requires base in {0, 16} && padc in {' ', '0'}
    ensures var s := "0x" + Field(num, 16, width, padc) + ['\0'];
            && Terminated(s)
            && (Parse(s, base) == Parsed(num, |s| - 1) <==> padc == '0' || width <= |Digits(num, 16)|)
  {
    hide *;
    var ds := Digits(num, 16);
    var s, pad := "0x" + Field(num, 16, width, padc) + ['\0'], Repeat(padc, width - |ds|);
    DigitsSpelled(num, 16);
    FieldIs(num, 16, width, padc);
    if padc == '0' || pad == "" {
      ZerosSpelled(width - |ds|, ds, 16);
      assert pad == "" ==> pad + ds == ds;
      HexAnnounced(base, pad + ds);
      EndIsRead("", "", "0x", pad + ds, base, 16);
      assert "" + "" + "0x" + (pad + ds) + ['\0'] == s;
    } else {
      FieldTerminated("0x", pad, ds, 16);
      BlankBehind(s, "0x", base);
    }
  }

  /** With the base left open, decimals are read as such. */
  lemma OpenDecimal(num: nat)
    ensures var s := Digits(num, 10) + ['\0']; Terminated(s) && Parse(s, 0) == Parsed(num, |s| - 1)
  {
    hide *;
    DigitsSpelled(num, 10);
    var ds := Digits(num, 10);
    if num > 0 {
      OpenAnnounced(ds);
      NoneBlank();
      EndIsRead("", "", "", ds, 0, 10);
      assert "" + "" + "" + ds + ['\0'] == ds + ['\0'];
    } else {
      ZeroDigits();
      EndIsRead("", "", "0", "", 0, 8);
      assert "" + "" + "0" + "" + ['\0'] == ds + ['\0'];
    }
  }

  lemma OpenAnnounced(ds: string)
    ensures ds != "" && ds[0] != '0' ==> Announced(0, "", ds, 10)
  {
  }

  lemma OctalAnnounced(ds: string)
    ensures Announced(0, "0", ds, 8)
  {
  }

  lemma NoneBlank()
    ensures forall i | 0 <= i < |""| :: Blank(""[i])
  {
  }

  lemma ZeroDigits()
    ensures Digits(0, 10) == "0" && Announced(0, "0", "", 8) && AllDigits("", 8) && Value("", 8) == 0
  {
  }

  /** A further leading 0 makes a number octal. */
  lemma OpenOctal(num: nat)
    ensures var s := "0" + Digits(num, 8) + ['\0']; Terminated(s) && Parse(s, 0) == Parsed(num, |s| - 1)
  {
    hide *;
    DigitsSpelled(num, 8);
    var ds := Digits(num, 8);
    OctalAnnounced(ds);
    NoneBlank();
    EndIsRead("", "", "0", ds, 0, 8);
    assert "" + "" + "0" + ds + ['\0'] == "0" + ds + ['\0'];
  }

  /** The digits up to base 36, in either case, are worth their places. */
  lemma DigitWorth(d: nat)
    ensures d < 10 ==> DigitOf("0123456789"[d]) == d
    ensures d < 26 ==> DigitOf("abcdefghijklmnopqrstuvwxyz"[d]) == d + 10
    ensures d < 26 ==> DigitOf("ABCDEFGHIJKLMNOPQRSTUVWXYZ"[d]) == d + 10
  {
    SmallLetter(d);
    CapitalLetter(d);
    hide DigitOf;
    if d < 10 {
      DecimalDigit(d);
    }
  }

  lemma DecimalDigit(d: nat)
    requires d < 10
    ensures DigitOf("0123456789"[d]) == d
  {
  }

  lemma SmallLetter(d: nat)
    ensures d < 26 ==> DigitOf("abcdefghijklmnopqrstuvwxyz"[d]) == d + 10
  {
  }

  lemma CapitalLetter(d: nat)
    ensures d < 26 ==> DigitOf("ABCDEFGHIJKLMNOPQRSTUVWXYZ"[d]) == d + 10
  {
  }
}

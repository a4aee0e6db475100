/** What the conversions of lab2/libs/printfmt.c print, by the characters themselves: which digits, which padding and on
    which side, and what strtol reads of it. */
module PrintMeaning {
  import opened Numbers
  import opened PrintFmt
  import opened Wrappers

  /** A number that is not negative, padded with blanks or zeros to any width, reads back in the base of its
      conversion, all of it. */
  lemma NumberReadsBack(c: char, f: Flags, a: Arg)
    requires c in "duox" && Fits(c, f, a) && a.v >= 0 && f.padc in {' ', '0'}
    ensures var s := Meaning(c, f, a) + ['\0'];
            && Terminated(s)
            && (c == 'd' || c == 'u' ==> Parse(s, 10) == Parsed(a.v, |s| - 1))
            && (c == 'o' ==> Parse(s, 8) == Parsed(a.v, |s| - 1))
            && (c == 'x' ==> Parse(s, 16) == Parsed(a.v, |s| - 1))
  {
    hide Field, Terminated, Parse;
    RoundTrip(a.v, if c == 'o' then 8 else if c == 'x' then 16 else 10, f.width, f.padc);
  }

  /** A negative number reads back if and only if no blanks follow its sign. */
  lemma NegativeReadsBack(f: Flags, a: Arg)
    requires Fits('d', f, a) && a.v < 0 && f.padc in {' ', '0'}
    ensures var s := Meaning('d', f, a) + ['\0'];
            && Terminated(s)
            && (Parse(s, 10) == Parsed(a.v, |s| - 1) <==> f.padc == '0' || f.width <= |Digits(-a.v, 10)|)
  {
    hide Field, Terminated, Parse, Digits;
    NegativeRoundTrip(-a.v, f.width, f.padc);
  }

  /** So does a pointer, in base 16 or with the base left open, if no blanks follow its prefix. */
  lemma PointerReadsBack(f: Flags, a: Arg, base: nat)
    requires Fits('p', f, a) && f.padc in {' ', '0'} && base in {0, 16}
    ensures var s := Meaning('p', f, a) + ['\0'];
            && Terminated(s)
            && (Parse(s, base) == Parsed(a.p, |s| - 1) <==> f.padc == '0' || f.width <= |Digits(a.p, 16)|)
  {
    hide Field, Terminated, Parse, Digits;
    PointerRoundTrip(a.p, base, f.width, f.padc);
  }

  predicate HexDigits(ds: string) {
    forall i | 0 <= i < |ds| :: ds[i] in "0123456789abcdef"
  }

  lemma {:induction false} DigitsAreHex(num: nat, base: nat)
    requires 2 <= base <= 16
    ensures HexDigits(Digits(num, base))
  {
    if num >= base {
      DigitsAreHex(Quot(num, base), base);
    }
  }

  /** The sign or prefix, the number behind it and its base. */
  predicate Spoken(c: char, a: Arg, lead: string, num: nat, base: nat) {
    if c == 'p' then a.Ptr? && lead == "0x" && num == a.p && base == 16
    else
      && a.Int? && lead == (if a.v < 0 then "-" else "") && num == (if a.v < 0 then -a.v else a.v)
      && base == (if c == 'o' then 8 else if c == 'x' then 16 else 10)
  }

  /** A number is printed as its sign or prefix, the padding, whatever character that is, and the fewest digits that
      stand for it in the base of its conversion, in lower case. */
  lemma NumberShape(c: char, f: Flags, a: Arg) returns (lead: string, num: nat, base: nat, pad: string, ds: string)
    requires c in "duoxp" && Fits(c, f, a)
    ensures Meaning(c, f, a) == lead + pad + ds && Spoken(c, a, lead, num, base)
    ensures |pad| == (if f.width > |ds| then f.width - |ds| else 0) && forall i | 0 <= i < |pad| :: pad[i] == f.padc
    ensures ds != "" && HexDigits(ds) && (|ds| > 1 ==> ds[0] != '0')
    ensures 2 <= base <= 16 && AllDigits(ds, base) && Value(ds, base) == num
  {
    lead, num, base := NumberMeans(c, f, a);
    hide *;
    pad, ds := FieldShape(num, base, f.width, f.padc);
    Joined(lead, pad, ds);
  }

  lemma Joined(s: string, t: string, u: string)
    ensures s + (t + u) == s + t + u
  {
  }

  lemma NumberMeans(c: char, f: Flags, a: Arg) returns (lead: string, num: nat, base: nat)
    requires c in "duoxp" && Fits(c, f, a)
    ensures Spoken(c, a, lead, num, base) && 2 <= base <= 16
    ensures Meaning(c, f, a) == lead + Field(num, base, f.width, f.padc)
  {
    hide Field;
    lead := if c == 'p' then "0x" else if a.v < 0 then "-" else "";
    num := if c == 'p' then a.p else if a.v < 0 then -a.v else a.v;
    base := if c == 'o' then 8 else if c == 'x' || c == 'p' then 16 else 10;
  }

  lemma FieldShape(num: nat, base: nat, width: int, padc: char) returns (pad: string, ds: string)
    requires 2 <= base <= 16
    ensures Field(num, base, width, padc) == pad + ds
    ensures |pad| == (if width > |ds| then width - |ds| else 0) && forall i | 0 <= i < |pad| :: pad[i] == padc
    ensures ds != "" && HexDigits(ds) && (|ds| > 1 ==> ds[0] != '0')
    ensures AllDigits(ds, base) && Value(ds, base) == num
  {
    hide *;
    ds := Digits(num, base);
    pad := Repeat(padc, width - |ds|);
    ZeroIsOneDigit(base);
    DigitsSpelled(num, base);
    DigitsAreHex(num, base);
    FieldIs(num, base, width, padc);
  }

  lemma ZeroIsOneDigit(base: nat)
    requires 2 <= base <= 16
    ensures |Digits(0, base)| == 1
  {
  }

  /** A string is printed as the characters within the precision, with those that are not printable replaced if the
      flag asks for it. What is missing to the width goes to the left, or as blanks to the right of a '-'. */
  lemma StringShape(f: Flags, a: Arg) returns (left: string, text: string, right: string)
    requires Fits('s', f, a)
    ensures Meaning('s', f, a) == left + text + right
    ensures var s := if a.s.Some? then a.s.value else "(null)";
            && |text| == (if f.precision < 0 || f.precision > |s| then |s| else f.precision)
            && forall i | 0 <= i < |text| ::
                 text[i] == if f.altflag && (s[i] < ' ' || s[i] > '~') then '?' else s[i]
    ensures (forall i | 0 <= i < |left| :: left[i] == f.padc) && forall i | 0 <= i < |right| :: right[i] == ' '
    ensures (if f.padc == '-' then left else right) == ""
    ensures |left + text + right| == if f.width > |text| then f.width else |text|
  {
    var s := if a.s.Some? then a.s.value else "(null)";
    var cut := Cut(s, f.precision);
    text := ShownAll(cut, f.altflag);
    left := if f.padc != '-' then Repeat(f.padc, f.width - |cut|) else "";
    right := if f.padc == '-' then Repeat(' ', f.width - |cut|) else "";
    assert Meaning('s', f, a) == StringField(s, f) == left + text + right;
  }

  /** The known errors, whatever their sign. */
  lemma ErrorNames(f: Flags, e: int)
    requires Fits('e', f, Int(e))
    ensures e in {1, -1} ==> Meaning('e', f, Int(e)) == "unspecified error"
    ensures e in {2, -2} ==> Meaning('e', f, Int(e)) == "bad process"
    ensures e in {3, -3} ==> Meaning('e', f, Int(e)) == "invalid parameter"
    ensures e in {4, -4} ==> Meaning('e', f, Int(e)) == "out of memory"
    ensures e in {5, -5} ==> Meaning('e', f, Int(e)) == "out of processes"
    ensures e in {6, -6} ==> Meaning('e', f, Int(e)) == "segmentation fault"
  {
    hide Digits;
  }

  /** Any other error is printed as its number without a sign. */
  lemma OtherError(f: Flags, e: int) returns (ds: string)
    requires Fits('e', f, Int(e)) && (e == 0 || e > 6 || e < -6)
    ensures Meaning('e', f, Int(e)) == "error " + ds
    ensures ds != "" && AllDigits(ds, 10) && (|ds| > 1 ==> ds[0] != '0')
    ensures Value(ds, 10) == if e < 0 then -e else e
  {
    var n: nat := if e < 0 then -e else e;
    ErrorNumber(f, e, n);
    hide *;
    ds := Digits(n, 10);
    ZeroIsOneDigit(10);
    DigitsSpelled(n, 10);
  }

  lemma ErrorNumber(f: Flags, e: int, n: nat)
    requires Fits('e', f, Int(e)) && n == (if e < 0 then -e else e) && (n == 0 || n > 6)
    ensures Meaning('e', f, Int(e)) == "error " + Digits(n, 10)
  {
    hide Digits;
  }

  /** A character is printed as itself, whatever the flags. */
  lemma CharShape(f: Flags, a: Arg)
    requires Fits('c', f, a)
    ensures |Meaning('c', f, a)| == 1 && Meaning('c', f, a)[0] as int == a.v
  {
  }
}

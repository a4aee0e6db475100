/** The format engine (vprintfmt, vsnprintf and printnum of lab2/libs/printfmt.c). */
module PrintFmt {
  import opened Numbers
  import opened Wrappers

  const MAXERROR: nat := 6
  const E_INVAL: int := 3

  /** An argument as va_arg delivers it. */
  datatype Arg = Int(v: int) | Str(s: Option<string>) | Ptr(p: nat)

  function ErrorString(e: nat): Option<string> {
    if e == 1 then Some("unspecified error")
    else if e == 2 then Some("bad process")
    else if e == 3 then Some("invalid parameter")
    else if e == 4 then Some("out of memory")
    else if e == 5 then Some("out of processes")
    else if e == 6 then Some("segmentation fault")
    else None
  }

  // ---------- What a directive means ----------

  /** The flags of a directive; negative width and precision stand for none. */
  datatype Flags = Flags(padc: char, width: int, precision: int, lflag: nat, altflag: bool)

  const PLAIN: Flags := Flags(' ', -1, -1, 0, false)

  /** A number among the flags is the width, or the precision once there is a width. */
  function Processed(f: Flags, p: int): Flags {
    if f.width < 0 then f.(width := p, precision := -1) else f.(precision := p)
  }

  function Shown(c: char, alt: bool): char {
    if alt && (c < ' ' || c > '~') then '?' else c
  }

  function ShownAll(s: string, alt: bool): string {
    seq(|s|, i requires 0 <= i < |s| => Shown(s[i], alt))
  }

  /** The part of a string within the precision. */
  function Cut(s: string, precision: int): string {
    if 0 <= precision < |s| then s[..precision] else s
  }

  function StringField(s: string, f: Flags): string {
    var text := Cut(s, f.precision);
    (if f.padc != '-' then Repeat(f.padc, f.width - |text|) else "")
    + ShownAll(text, f.altflag)
    + (if f.padc == '-' then Repeat(' ', f.width - |text|) else "")
  }

  function Signed(v: int, f: Flags): string {
    if v < 0 then "-" + Field(-v, 10, f.width, f.padc) else Field(v, 10, f.width, f.padc)
  }

  function ErrorText(v: int): string {
    var e: nat := if v < 0 then -v else v;
    match ErrorString(e)
    case Some(s) => s
    case None => "error " + Digits(e, 10)
  }

  predicate InSigned(v: int, f: Flags) {
    if f.lflag == 0 then -0x8000_0000 <= v < 0x8000_0000 else -0x8000_0000_0000_0000 <= v < 0x8000_0000_0000_0000
  }

  predicate InUnsigned(v: int, f: Flags) {
    if f.lflag == 0 then 0 <= v < 0x1_0000_0000 else 0 <= v < 0x1_0000_0000_0000_0000
  }

  predicate IsConversion(c: char) {
    c in "cesduopx%"
  }

  /** The conversions that take an argument of the given kind. */
  predicate Fits(c: char, f: Flags, a: Arg) {
    match c
    case 'c' => a.Int? && 0 <= a.v < 256
    case 'e' => a.Int? && -0x8000_0000 < a.v < 0x8000_0000
    case 's' => a.Str? && (a.s.Some? ==> '\0' !in a.s.value)
    case 'd' => a.Int? && InSigned(a.v, f)
    case 'u' => a.Int? && InUnsigned(a.v, f)
    case 'o' => a.Int? && InUnsigned(a.v, f)
    case 'x' => a.Int? && InUnsigned(a.v, f)
    case 'p' => a.Ptr?
    case _ => false
  }

  /** What a directive prints for its argument. */
  function Meaning(c: char, f: Flags, a: Arg): string
    requires Fits(c, f, a)
  {
    match c
    case 'c' => [a.v as char]
    case 'e' => ErrorText(a.v)
    case 's' => StringField(if a.s.Some? then a.s.value else "(null)", f)
    case 'd' => Signed(a.v, f)
    case 'u' => Field(a.v, 10, f.width, f.padc)
    case 'o' => Field(a.v, 8, f.width, f.padc)
    case 'x' => Field(a.v, 16, f.width, f.padc)
    case 'p' => "0x" + Field(a.p, 16, f.width, f.padc)
  }

  // ---------- Reading a format ----------

  /** Where the flags end, what they say, and how many arguments have been used by then. */
  datatype Scan = Scan(end: nat, flags: Flags, used: nat)

  function ScanFlags(fmt: string, i: nat, f: Flags, args: seq<Arg>, n: nat): (r: Option<Scan>)
    requires Terminated(fmt) && i < |fmt|
    ensures r.Some? ==> i <= r.value.end < |fmt|
    decreases |fmt| - i
  {
    var c := fmt[i];
    if c == '-' then ScanFlags(fmt, i + 1, f.(padc := '-'), args, n)
    else if c == '0' then ScanFlags(fmt, i + 1, f.(padc := '0'), args, n)
    else if '1' <= c <= '9' then
      var j := DigitsEnd(fmt, i, 10);
      ScanFlags(fmt, j, Processed(f, Value(fmt[i..j], 10)), args, n)
    else if c == '*' then
      if n < |args| && args[n].Int? then ScanFlags(fmt, i + 1, Processed(f, args[n].v), args, n + 1) else None
    else if c == '.' then ScanFlags(fmt, i + 1, if f.width < 0 then f.(width := 0) else f, args, n)
    else if c == '#' then ScanFlags(fmt, i + 1, f.(altflag := true), args, n)
    else if c == 'l' then ScanFlags(fmt, i + 1, f.(lflag := f.lflag + 1), args, n)
    else Some(Scan(i, f, n))
  }

  /** The text a format produces, if the arguments match it. A directive that is none is printed as it stands. */
  function Render(fmt: string, i: nat, args: seq<Arg>, n: nat): Option<string>
    requires Terminated(fmt) && i < |fmt|
    decreases |fmt| - i
  {
    if fmt[i] == '\0' then Some("")
    else if fmt[i] != '%' then Before([fmt[i]], Render(fmt, i + 1, args, n))
    else
      var s := ScanFlags(fmt, i + 1, PLAIN, args, n);
      if s.None? then None
      else
        var c, f, m := fmt[s.value.end], s.value.flags, s.value.used;
        if c == '%' then Before("%", Render(fmt, s.value.end + 1, args, m))
        else if IsConversion(c) then
          if m < |args| && Fits(c, f, args[m])
          then Before(Meaning(c, f, args[m]), Render(fmt, s.value.end + 1, args, m + 1))
          else None
        else Before("%", Render(fmt, i + 1, args, m))
  }

  function Before(s: string, t: Option<string>): Option<string> {
    if t.Some? then Some(s + t.value) else None
  }

  // ---------- Printing into a buffer ----------

  /** struct sprintbuf: the first ebuf places of data are for text, one more for the NUL. */
  class SprintBuf {
    const data: array<char>
    const ebuf: nat
    var buf: nat              // the first unused place
    var cnt: nat              // characters printed so far
    ghost var out: string     // those characters

    ghost predicate Valid()
      reads this, data
    {
      && ebuf < data.Length && cnt == |out| && buf == (if |out| < ebuf then |out| else ebuf)
      && data[..buf] == out[..buf]
    }

    /** What lies behind the text. */
    ghost function Rest(): string
      reads this, data
      requires Valid()
    {
      data[ebuf..]
    }

    constructor (data: array<char>, ebuf: nat)
      requires ebuf < data.Length
      ensures this.data == data && this.ebuf == ebuf && Valid() && out == "" && Rest() == data[ebuf..]
    {
      this.data, this.ebuf := data, ebuf;
      buf, cnt, out := 0, 0, "";
    }

    /** sprintputch: every character is counted, those that fit are stored. */
    method PutCh(ch: char)
      requires Valid()
      modifies this, data
      ensures Valid() && out == old(out) + [ch] && Rest() == old(Rest())
    {
      cnt := cnt + 1;
      out := out + [ch];
      if buf < ebuf {
        data[buf] := ch;
        buf := buf + 1;
      }
    }

    method PutAll(s: string)
      requires Valid()
      modifies this, data
      ensures Valid() && out == old(out) + s && Rest() == old(Rest())
    {
      hide Valid, Rest;
      var i := 0;
      while i < |s|
        invariant i <= |s| && Valid() && out == old(out) + s[..i] && Rest() == old(Rest())
      {
        PutCh(s[i]);
        i := i + 1;
      }
    }

    /** A loop that prints one character while a count lasts. */
    method Pad(c: char, n: int)
      requires Valid()
      modifies this, data
      ensures Valid() && out == old(out) + Repeat(c, n) && Rest() == old(Rest())
    {
      hide Valid, Rest;
      var w := n;
      while w > 0
        invariant w <= n && (n >= 0 ==> w >= 0) && Valid() && out == old(out) + Repeat(c, n - (if w > 0 then w else 0))
        invariant n < 0 ==> w == n
        invariant Rest() == old(Rest())
      {
        PutCh(c);
        w := w - 1;
      }
    }

    /** printnum */
    method PrintNum(num: nat, base: nat, width: int, padc: char)
      requires Valid() && 2 <= base <= 16
      modifies this, data
      ensures Valid() && out == old(out) + Field(num, base, width, padc) && Rest() == old(Rest())
      decreases num
    {
      hide Quot, Rem, Valid, Rest, Digit;
      var result, mod := Quot(num, base), Rem(num, base);
      if num >= base {
        PrintNum(result, base, width - 1, padc);
      } else {
        Pad(padc, width - 1);
      }
      PutCh(Digit(mod));
    }

    /** strnlen, for a precision that may be none */
    static method Strnlen(s: string, precision: int) returns (n: nat)
      ensures n == |Cut(s, precision)|
    {
      n := 0;
      while n < |s| && (precision < 0 || n < precision)
        invariant n <= |s| && (precision >= 0 ==> n <= precision)
      {
        n := n + 1;
      }
    }

    /** %s */
    method PutString(s: string, f: Flags)
      requires Valid()
      modifies this, data
      ensures Valid() && out == old(out) + StringField(s, f) && Rest() == old(Rest())
    {
      hide Valid, Rest, ShownAll, Shown, Repeat;
      NoPadding();
      ghost var text := Cut(s, f.precision);
      ghost var left := if f.padc != '-' then Repeat(f.padc, f.width - |text|) else "";
      var width := f.width;
      if width > 0 && f.padc != '-' {
        var n := Strnlen(s, f.precision);
        width := width - n;
        Pad(f.padc, width);
        if width > 0 {
          width := 0;
        }
      }
      assert out == old(out) + left;
      width := PutText(s, f, width);
      Pad(' ', width);
    }

    /** The characters of a string within the precision; the width counts down with them. */
    method PutText(s: string, f: Flags, width0: int) returns (width: int)
      requires Valid()
      modifies this, data
      ensures Valid() && out == old(out) + ShownAll(Cut(s, f.precision), f.altflag) && Rest() == old(Rest())
      ensures width == width0 - |Cut(s, f.precision)|
    {
      hide Valid, Rest, Shown;
      ghost var text := Cut(s, f.precision);
      ghost var shown := ShownAll(text, f.altflag);
      var precision := f.precision;
      width := width0;
      var i := 0;
      while i < |s| && (precision < 0 || precision > 0)
        invariant i <= |text| && width == width0 - i
        invariant if f.precision < 0 then precision < 0 else precision == f.precision - i
        invariant Valid() && out == old(out) + shown[..i] && Rest() == old(Rest())
      {
        if precision > 0 {
          precision := precision - 1;
        }
        PutCh(Shown(s[i], f.altflag));
        assert shown[..i + 1] == shown[..i] + [Shown(s[i], f.altflag)];
        width := width - 1;
        i := i + 1;
      }
      assert i == |text| && shown[..i] == shown;
    }

    lemma NoPadding()
      ensures forall c, n | n <= 0 :: Repeat(c, n) == ""
    {
    }

    lemma PlainField(num: nat, base: nat)
      requires 2 <= base <= 16
      ensures Field(num, base, -1, ' ') == Digits(num, base)
    {
      hide Digits;
    }

    /** %e */
    method PutError(v: int)
      requires Valid()
      modifies this, data
      ensures Valid() && out == old(out) + ErrorText(v) && Rest() == old(Rest())
    {
      hide Valid, Rest, Field, Digits;
      var err: nat := if v < 0 then -v else v;
      PlainField(err, 10);
      if err > MAXERROR || ErrorString(err).None? {
        PutAll("error ");
        PrintNum(err, 10, -1, ' ');
      } else {
        PutAll(ErrorString(err).value);
      }
    }

    /** The conversions that take an argument */
    method Convert(c: char, f: Flags, a: Arg)
      requires Valid() && Fits(c, f, a)
      modifies this, data
      ensures Valid() && out == old(out) + Meaning(c, f, a) && Rest() == old(Rest())
    {
      hide Valid, Rest, Field, StringField, ErrorText;
      match c {
        case 'c' =>
          PutCh(a.v as char);
        case 'e' =>
          PutError(a.v);
        case 's' =>
          PutString(if a.s.Some? then a.s.value else "(null)", f);
        case 'd' =>
          if a.v < 0 {
            PutCh('-');
          }
          PrintNum(if a.v < 0 then -a.v else a.v, 10, f.width, f.padc);
        case 'u' =>
          PrintNum(a.v, 10, f.width, f.padc);
        case 'o' =>
          PrintNum(a.v, 8, f.width, f.padc);
        case 'x' =>
          PrintNum(a.v, 16, f.width, f.padc);
        case 'p' =>
          PutAll("0x");
          PrintNum(a.p, 16, f.width, f.padc);
      }
    }
  }

  /** The reswitch loop: it stops at the first character that is no flag, at the latest at the NUL. */
  method ReadFlags(fmt: string, start: nat, args: seq<Arg>, first: nat) returns (i: nat, f: Flags, n: nat)
    requires Terminated(fmt) && start < |fmt| && ScanFlags(fmt, start, PLAIN, args, first).Some?
    ensures ScanFlags(fmt, start, PLAIN, args, first) == Some(Scan(i, f, n)) && start <= i < |fmt|
    ensures forall k | start <= k < i :: fmt[k] != '%'
  {
    hide Value;
    i, f, n := start, PLAIN, first;
    while true
      invariant start <= i < |fmt| && ScanFlags(fmt, i, f, args, n).Some?
      invariant ScanFlags(fmt, i, f, args, n) == ScanFlags(fmt, start, PLAIN, args, first)
      invariant forall k | start <= k < i :: fmt[k] != '%'
      decreases |fmt| - i
    {
      var ch := fmt[i];
      if ch == '-' || ch == '0' {
        f, i := f.(padc := ch), i + 1;
      } else if '1' <= ch <= '9' {
        NumberChars(fmt, i);
        var precision, end := ReadDigits(fmt, i, 10);
        f, i := Processed(f, precision), end;
      } else if ch == '*' {
        f, i, n := Processed(f, args[n].v), i + 1, n + 1;
      } else if ch == '.' {
        f, i := if f.width < 0 then f.(width := 0) else f, i + 1;
      } else if ch == '#' {
        f, i := f.(altflag := true), i + 1;
      } else if ch == 'l' {
        f, i := f.(lflag := f.lflag + 1), i + 1;
      } else {
        break;
      }
    }
  }

  lemma NumberChars(fmt: string, i: nat)
    requires Terminated(fmt) && i < |fmt| && '1' <= fmt[i] <= '9'
    ensures i < DigitsEnd(fmt, i, 10) < |fmt| && forall k | i <= k < DigitsEnd(fmt, i, 10) :: fmt[k] != '%'
  {
  }

  /** Back to the character after the percent sign. */
  method Rewind(fmt: string, start: nat, end: nat) returns (i: nat)
    requires 1 <= start <= end < |fmt| && fmt[start - 1] == '%' && forall k | start <= k < end :: fmt[k] != '%'
    ensures i == start
  {
    i := end;
    while fmt[i - 1] != '%'
      invariant start <= i <= end
      decreases i
    {
      i := i - 1;
    }
  }

  /** vprintfmt: for every terminated format and matching arguments it ends and reads nothing behind the NUL. */
  method VPrintFmt(b: SprintBuf, fmt: string, args: seq<Arg>)
    requires b.Valid() && Terminated(fmt) && Render(fmt, 0, args, 0).Some?
    modifies b, b.data
    ensures b.Valid() && b.out == old(b.out) + Render(fmt, 0, args, 0).value && b.Rest() == old(b.Rest())
  {
    hide *;
    var i: nat, n: nat := 0, 0;
    AtNul(fmt, args);
    while true
      invariant i < |fmt| && b.Valid() && Render(fmt, i, args, n).Some?
      invariant b.out + Render(fmt, i, args, n).value == old(b.out) + Render(fmt, 0, args, 0).value
      invariant b.Rest() == old(b.Rest())
      decreases |fmt| - i
    {
      if fmt[i] != '%' {
        LiteralStep(fmt, i, args, n);
        if fmt[i] == '\0' {
          return;
        }
        ghost var rest := Render(fmt, i + 1, args, n).value;
        assert b.out + ([fmt[i]] + rest) == b.out + [fmt[i]] + rest;
        b.PutCh(fmt[i]);
        i := i + 1;
      } else {
        PercentStep(fmt, i, args, n);
        var j, f, m := ReadFlags(fmt, i + 1, args, n);
        ghost var out0 := b.out;
        if fmt[j] == '%' {
          ghost var rest := Render(fmt, j + 1, args, m).value;
          assert out0 + ("%" + rest) == out0 + ['%'] + rest;
          b.PutCh('%');
          i, n := j + 1, m;
        } else if IsConversion(fmt[j]) {
          ghost var rest := Render(fmt, j + 1, args, m + 1).value;
          ghost var text := Meaning(fmt[j], f, args[m]);
          assert out0 + (text + rest) == out0 + text + rest;
          b.Convert(fmt[j], f, args[m]);
          i, n := j + 1, m + 1;
        } else {
          ghost var rest := Render(fmt, i + 1, args, m).value;
          assert out0 + ("%" + rest) == out0 + ['%'] + rest;
          b.PutCh('%');
          i := Rewind(fmt, i + 1, j);
          n := m;
        }
      }
    }
  }

  lemma AtNul(fmt: string, args: seq<Arg>)
    requires Terminated(fmt)
    ensures |fmt| > 0
  {
  }

  /** A character other than the percent sign stands for itself. */
  lemma LiteralStep(fmt: string, i: nat, args: seq<Arg>, n: nat)
    requires Terminated(fmt) && i < |fmt| && fmt[i] != '%' && Render(fmt, i, args, n).Some?
    ensures fmt[i] == '\0' ==> Render(fmt, i, args, n).value == ""
    ensures fmt[i] != '\0' ==>
              && i + 1 < |fmt| && Render(fmt, i + 1, args, n).Some?
              && Render(fmt, i, args, n).value == [fmt[i]] + Render(fmt, i + 1, args, n).value
  {
  }

  /** What follows a percent sign. */
  lemma PercentStep(fmt: string, i: nat, args: seq<Arg>, n: nat)
    requires Terminated(fmt) && i < |fmt| && fmt[i] == '%' && Render(fmt, i, args, n).Some?
    ensures i + 1 < |fmt| && ScanFlags(fmt, i + 1, PLAIN, args, n).Some?
    ensures var s := ScanFlags(fmt, i + 1, PLAIN, args, n).value;
            var c := fmt[s.end];
            if c == '%' then
              && s.end + 1 < |fmt| && Render(fmt, s.end + 1, args, s.used).Some?
              && Render(fmt, i, args, n).value == "%" + Render(fmt, s.end + 1, args, s.used).value
            else if IsConversion(c) then
              && s.used < |args| && Fits(c, s.flags, args[s.used])
              && s.end + 1 < |fmt| && Render(fmt, s.end + 1, args, s.used + 1).Some?
              && Render(fmt, i, args, n).value
                 == Meaning(c, s.flags, args[s.used]) + Render(fmt, s.end + 1, args, s.used + 1).value
            else
              && Render(fmt, i + 1, args, s.used).Some?
              && Render(fmt, i, args, n).value == "%" + Render(fmt, i + 1, args, s.used).value
  {
    hide Meaning, Fits, ScanFlags;
    PercentIsNotLast(fmt, i);
    var s := ScanFlags(fmt, i + 1, PLAIN, args, n).value;
    if fmt[s.end] == '%' || IsConversion(fmt[s.end]) {
      NotLast(fmt, s.end);
    }
  }

  lemma PercentIsNotLast(fmt: string, i: nat)
    requires Terminated(fmt) && i < |fmt| && fmt[i] == '%'
    ensures i + 1 < |fmt|
  {
  }

  lemma NotLast(fmt: string, j: nat)
    requires Terminated(fmt) && j < |fmt| && IsConversion(fmt[j])
    ensures j + 1 < |fmt|
  {
  }

  /** A buffer of the given size after printing: as much of the text as leaves room for the NUL, the NUL, and behind
      the size what was there before. */
  ghost predicate Holds(places: string, ended: string, size: nat, text: string) {
    && 0 < size <= |places| && |ended| == |places| && ended[size..] == places[size..]
    && var k := if |text| < size - 1 then |text| else size - 1;
       ended[..k] == text[..k] && ended[k] == '\0'
  }

  lemma Ended(places: string, printed: string, size: nat, buf: nat, text: string)
    requires |places| == |printed| && 0 < size <= |places| && printed[size - 1..] == places[size - 1..]
    requires buf == (if |text| < size - 1 then |text| else size - 1) && printed[..buf] == text[..buf]
    ensures Holds(places, printed[buf := '\0'], size, text)
  {
    assert printed[size..] == printed[size - 1..][1..] && places[size..] == places[size - 1..][1..];
  }

  method FormatInto(str: array<char>, size: nat, fmt: string, args: seq<Arg>) returns (r: nat)
    requires 0 < size <= str.Length && Terminated(fmt) && Render(fmt, 0, args, 0).Some?
    modifies str
    ensures r == |Render(fmt, 0, args, 0).value| && Holds(old(str[..]), str[..], size, Render(fmt, 0, args, 0).value)
  {
    hide Render, Holds, Repeat, Meaning;
    ghost var text, places := Render(fmt, 0, args, 0).value, str[..];
    var b := new SprintBuf(str, size - 1);
    assert b.Rest() == places[size - 1..];
    VPrintFmt(b, fmt, args);
    ghost var printed := str[..];
    assert b.Rest() == printed[size - 1..] && printed[..b.buf] == str[..b.buf];
    assert b.out == "" + text == text;
    Ended(places, printed, size, b.buf, text);
    str[b.buf] := '\0';
    assert str[..] == printed[b.buf := '\0'];
    return b.cnt;
  }

  /** vsnprintf: it stores as much of the text as fits and returns the length of all of it. */
  method VsnPrintf(str: array?<char>, size: nat, fmt: string, args: seq<Arg>) returns (r: int)
    requires str != null ==> size <= str.Length
    requires Terminated(fmt) && Render(fmt, 0, args, 0).Some?
    modifies str
    ensures str == null || size == 0 ==> r == -E_INVAL && (str != null ==> str[..] == old(str[..]))
    ensures str != null && size > 0 ==>
              && r == |Render(fmt, 0, args, 0).value|
              && Holds(old(str[..]), str[..], size, Render(fmt, 0, args, 0).value)
  {
    hide Render, Holds;
    if str == null || size == 0 {
      return -E_INVAL;
    }
    r := FormatInto(str, size, fmt, args);
  }
}

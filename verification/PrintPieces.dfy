/** Formats written piece by piece, and the text they stand for: the format engine of lab2/libs/printfmt.c reads a
    format back into its pieces. */
module PrintPieces {
  import opened Numbers
  import opened PrintFmt
  import opened Wrappers

  datatype Pad = Blanks | Minus | Zeros

  datatype Size = Absent | Literal(n: nat) | Star(v: int)

  datatype Piece =
    | Text(c: char)
    | Percent
    | Directive(pad: Pad, alt: bool, width: Size, precision: Size, longs: nat, conv: char, arg: Arg)

  // ---------- Writing a format ----------

  function SizeText(s: Size): string {
    match s
    case Absent => ""
    case Literal(n) => Digits(n, 10)
    case Star(_) => "*"
  }

  function SizeArgs(s: Size): seq<Arg> {
    if s.Star? then [Int(s.v)] else []
  }

  function AltText(alt: bool): string {
    if alt then "#" else ""
  }

  function PadText(pad: Pad): string {
    match pad
    case Blanks => ""
    case Minus => "-"
    case Zeros => "0"
  }

  function PrecisionText(s: Size): string {
    if s.Absent? then "" else "." + SizeText(s)
  }

  /** The flags of a directive, from the alternative form to the long flags. */
  function FlagText(p: Piece): string
    requires p.Directive?
  {
    AltText(p.alt) + (PadText(p.pad) + (SizeText(p.width) + (PrecisionText(p.precision) + Repeat('l', p.longs))))
  }

  function Encode(p: Piece): string {
    match p
    case Text(c) => [c]
    case Percent => "%%"
    case Directive(_, _, _, _, _, conv, _) => "%" + (FlagText(p) + [conv])
  }

  function ArgsOf(p: Piece): seq<Arg> {
    if p.Directive? then SizeArgs(p.width) + SizeArgs(p.precision) + [p.arg] else []
  }

  function EncodeAll(ps: seq<Piece>): string {
    if ps == [] then "" else Encode(ps[0]) + EncodeAll(ps[1..])
  }

  function ArgsAll(ps: seq<Piece>): seq<Arg> {
    if ps == [] then [] else ArgsOf(ps[0]) + ArgsAll(ps[1..])
  }

  // ---------- What the pieces stand for ----------

  function SizeValue(s: Size, none: int): int {
    match s
    case Absent => none
    case Literal(n) => n
    case Star(v) => v
  }

  function PadChar(pad: Pad): char {
    match pad
    case Blanks => ' '
    case Minus => '-'
    case Zeros => '0'
  }

  /** A precision makes a missing or negative width zero; a negative width is none. */
  function FlagsOf(p: Piece): Flags
    requires p.Directive?
  {
    var width := SizeValue(p.width, -1);
    Flags(PadChar(p.pad), if p.precision.Absent? || width >= 0 then width else 0,
          SizeValue(p.precision, -1), p.longs, p.alt)
  }

  /** A literal size cannot start with 0, which is a flag. */
  predicate SizeOk(s: Size) {
    s.Literal? ==> s.n >= 1
  }

  /** A directive whose width is written without a leading 0; its precision may be anything. */
  predicate Scannable(p: Piece) {
    p.Directive? && SizeOk(p.width) && IsConversion(p.conv)
  }

  /** The flags as the engine reads them: a literal precision of 0 is taken for the padding flag. */
  function FlagsRead(p: Piece): Flags
    requires p.Directive?
  {
    if p.precision == Literal(0) then FlagsOf(p).(padc := '0', precision := -1) else FlagsOf(p)
  }

  predicate WellFormed(p: Piece) {
    match p
    case Text(c) => c != '%' && c != '\0'
    case Percent => true
    case Directive(_, _, _, precision, _, conv, arg) =>
      Scannable(p) && SizeOk(precision) && conv != '%' && Fits(conv, FlagsOf(p), arg)
  }

  function Denote(p: Piece): string
    requires WellFormed(p)
  {
    match p
    case Text(c) => [c]
    case Percent => "%"
    case Directive(_, _, _, _, _, conv, arg) => Meaning(conv, FlagsOf(p), arg)
  }

  function DenoteAll(ps: seq<Piece>): string
    requires forall p | p in ps :: WellFormed(p)
  {
    if ps == [] then "" else Denote(ps[0]) + DenoteAll(ps[1..])
  }

  // ---------- Reading it back ----------

  predicate HasAt<T(==)>(s: seq<T>, i: nat, x: seq<T>) {
    i + |x| <= |s| && s[i..i + |x|] == x
  }

  lemma HasConcat<T>(s: seq<T>, i: nat, a: seq<T>, b: seq<T>)
    requires HasAt(s, i, a + b)
    ensures HasAt(s, i, a) && HasAt(s, i + |a|, b)
  {
    assert s[i..i + |a + b|][..|a|] == a && s[i..i + |a + b|][|a|..] == b;
  }

  /** A size literal is read as a number. */
  lemma ScanLiteral(fmt: string, i: nat, f: Flags, args: seq<Arg>, n: nat, k: nat)
    requires Terminated(fmt) && k >= 1 && HasAt(fmt, i, Digits(k, 10)) && i + |Digits(k, 10)| < |fmt|
    requires !IsDigit(fmt[i + |Digits(k, 10)|], 10)
    ensures ScanFlags(fmt, i, f, args, n) == ScanFlags(fmt, i + |Digits(k, 10)|, Processed(f, k), args, n)
  {
    hide *;
    var d := Digits(k, 10);
    DigitsAreDigits(k, 10);
    ValueOfDigits(k, 10);
    FirstDigit(k);
    Indexed(fmt, i, d);
    EndIs(fmt, i, i + |d|);
    ScanNumber(fmt, i, f, args, n);
  }

  lemma Indexed(s: string, i: nat, x: string)
    requires HasAt(s, i, x)
    ensures i + |x| <= |s| && s[i..i + |x|] == x && forall m | i <= m < i + |x| :: s[m] == x[m - i]
  {
    assert forall m | i <= m < i + |x| :: s[m] == s[i..i + |x|][m - i];
  }

  lemma ScanNumber(fmt: string, i: nat, f: Flags, args: seq<Arg>, n: nat)
    requires Terminated(fmt) && i < |fmt| && '1' <= fmt[i] <= '9' && DigitsEnd(fmt, i, 10) < |fmt|
    ensures ScanFlags(fmt, i, f, args, n)
         == ScanFlags(fmt, DigitsEnd(fmt, i, 10), Processed(f, Value(fmt[i..DigitsEnd(fmt, i, 10)], 10)), args, n)
  {
    hide Value, Processed;
  }

  lemma EndIs(fmt: string, i: nat, j: nat)
    requires i <= j < |fmt| && (forall m | i <= m < j :: IsDigit(fmt[m], 10)) && !IsDigit(fmt[j], 10)
    ensures DigitsEnd(fmt, i, 10) == j
  {
    var e := DigitsEnd(fmt, i, 10);
    hide IsDigit, DigitsEnd;
  }

  lemma {:induction false} FirstDigit(k: nat)
    requires k >= 1
    ensures |Digits(k, 10)| >= 1 && '1' <= Digits(k, 10)[0] <= '9'
  {
    if k >= 10 {
      FirstDigit(Quot(k, 10));
    }
  }

  lemma ScanSize(fmt: string, i: nat, f: Flags, args: seq<Arg>, n: nat, s: Size)
    requires Terminated(fmt) && SizeOk(s) && HasAt(fmt, i, SizeText(s)) && HasAt(args, n, SizeArgs(s))
    requires i + |SizeText(s)| < |fmt| && !IsDigit(fmt[i + |SizeText(s)|], 10)
    ensures ScanFlags(fmt, i, f, args, n)
         == ScanFlags(fmt, i + |SizeText(s)|, if s.Absent? then f else Processed(f, SizeValue(s, 0)),
                      args, n + |SizeArgs(s)|)
  {
    match s
    case Absent =>
    case Literal(k) =>
      ScanLiteral(fmt, i, f, args, n, k);
    case Star(v) =>
      assert fmt[i] == fmt[i..i + 1][0];
      assert args[n] == args[n..n + 1][0];
  }

  lemma ScanLong(fmt: string, i: nat, f: Flags, args: seq<Arg>, n: nat)
    requires Terminated(fmt) && i + 1 < |fmt| && fmt[i] == 'l'
    ensures ScanFlags(fmt, i, f, args, n) == ScanFlags(fmt, i + 1, f.(lflag := f.lflag + 1), args, n)
  {
  }

  lemma {:induction false} ScanLongs(fmt: string, i: nat, f: Flags, args: seq<Arg>, n: nat, k: nat)
    requires Terminated(fmt) && HasAt(fmt, i, Repeat('l', k)) && i + k < |fmt|
    ensures ScanFlags(fmt, i, f, args, n) == ScanFlags(fmt, i + k, f.(lflag := f.lflag + k), args, n)
    decreases k
  {
    hide ScanFlags, Terminated;
    if k > 0 {
      assert fmt[i] == fmt[i..i + k][0];
      ScanLong(fmt, i, f, args, n);
      assert fmt[i + 1..i + 1 + (k - 1)] == fmt[i..i + k][1..] == Repeat('l', k - 1);
      ScanLongs(fmt, i + 1, f.(lflag := f.lflag + 1), args, n, k - 1);
    }
  }

  /** What is left of a directive after its width. */
  function AfterWidth(p: Piece): string
    requires p.Directive?
  {
    PrecisionText(p.precision) + Repeat('l', p.longs) + [p.conv]
  }

  function AfterPrecision(p: Piece): string
    requires p.Directive?
  {
    Repeat('l', p.longs) + [p.conv]
  }

  lemma NoDigitNext(p: Piece)
    requires Scannable(p)
    ensures !IsDigit(AfterWidth(p)[0], 10) && !IsDigit(AfterPrecision(p)[0], 10)
  {
  }

  lemma ScanEnd(fmt: string, i: nat, f: Flags, args: seq<Arg>, n: nat, c: char)
    requires Terminated(fmt) && HasAt(fmt, i, [c]) && IsConversion(c)
    ensures ScanFlags(fmt, i, f, args, n) == Some(Scan(i, f, n))
  {
    assert fmt[i] == fmt[i..i + 1][0];
  }

  lemma LastText(p: Piece)
    requires p.Directive?
    ensures AfterPrecision(p) == Repeat('l', p.longs) + [p.conv] && |Repeat('l', p.longs)| == p.longs
  {
  }

  /** The long flags and the conversion. */
  lemma ScanLast(fmt: string, i: nat, f: Flags, args: seq<Arg>, n: nat, p: Piece)
    requires Terminated(fmt) && p.Directive? && Scannable(p) && HasAt(fmt, i, AfterPrecision(p))
    ensures ScanFlags(fmt, i, f, args, n) == Some(Scan(i + p.longs, WithLongs(f, p.longs), n))
  {
    hide *;
    ScannableIs(p);
    LastText(p);
    LongsIs(f, p.longs);
    HasConcat(fmt, i, Repeat('l', p.longs), [p.conv]);
    NextIs(fmt, i + p.longs, [p.conv]);
    ScanLongs(fmt, i, f, args, n, p.longs);
    ScanEnd(fmt, i + p.longs, f.(lflag := f.lflag + p.longs), args, n, p.conv);
  }

  lemma ScanDot(fmt: string, i: nat, f: Flags, args: seq<Arg>, n: nat)
    requires Terminated(fmt) && HasAt(fmt, i, ".") && i + 1 < |fmt|
    ensures ScanFlags(fmt, i, f, args, n) == ScanFlags(fmt, i + 1, if f.width < 0 then f.(width := 0) else f, args, n)
  {
    assert fmt[i] == fmt[i..i + 1][0];
  }

  lemma NextIs(fmt: string, i: nat, x: string)
    requires HasAt(fmt, i, x) && x != ""
    ensures i < |fmt| && fmt[i] == x[0]
  {
    assert fmt[i] == fmt[i..i + |x|][0];
  }

  /** The width a point leaves: a missing or negative one becomes 0. */
  function AtPoint(f: Flags): Flags {
    if f.width < 0 then f.(width := 0) else f
  }

  lemma PointIs(f: Flags)
    ensures AtPoint(f) == if f.width < 0 then f.(width := 0) else f
  {
  }

  /** The flags with what the precision is read as. */
  function WithPrecision(f: Flags, s: Size): Flags {
    if s.Absent? then f
    else if s == Literal(0) then AtPoint(f).(padc := '0')
    else Processed(AtPoint(f), SizeValue(s, 0))
  }

  lemma AbsentPrecision(p: Piece)
    requires p.Directive? && p.precision.Absent?
    ensures AfterWidth(p) == AfterPrecision(p) && PrecisionText(p.precision) == "" && SizeArgs(p.precision) == []
  {
  }

  lemma PresentPrecision(p: Piece)
    requires p.Directive? && !p.precision.Absent?
    ensures AfterWidth(p) == "." + (SizeText(p.precision) + AfterPrecision(p))
    ensures |PrecisionText(p.precision)| == 1 + |SizeText(p.precision)| && AfterPrecision(p) != ""
  {
  }

  lemma ScanPrecision(fmt: string, i: nat, f: Flags, args: seq<Arg>, n: nat, p: Piece)
    requires Terminated(fmt) && p.Directive? && Scannable(p) && HasAt(fmt, i, AfterWidth(p))
    requires HasAt(args, n, SizeArgs(p.precision))
    ensures ScanFlags(fmt, i, f, args, n)
         == Some(Scan(i + |PrecisionText(p.precision)| + p.longs,
                      WithLongs(WithPrecision(f, p.precision), p.longs), n + |SizeArgs(p.precision)|))
  {
    hide *;
    var r := p.precision;
    LongsIs(WithPrecision(f, r), p.longs);
    if r.Absent? {
      PrecisionIs(f, r);
      AbsentPrecision(p);
      ScanLast(fmt, i, f, args, n, p);
    } else {
      PresentPrecision(p);
      HasConcat(fmt, i, ".", SizeText(r) + AfterPrecision(p));
      HasConcat(fmt, i + 1, SizeText(r), AfterPrecision(p));
      NoDigitNext(p);
      NextIs(fmt, i + 1 + |SizeText(r)|, AfterPrecision(p));
      ScanDot(fmt, i, f, args, n);
      PointIs(f);
      ScanPrecisionSize(fmt, i + 1, f, args, n, r);
      ScanLast(fmt, i + 1 + |SizeText(r)|, WithPrecision(f, r), args, n + |SizeArgs(r)|, p);
    }
  }

  /** The size behind a point, where a literal 0 is a flag. */
  lemma ScanPrecisionSize(fmt: string, i: nat, f: Flags, args: seq<Arg>, n: nat, s: Size)
    requires Terminated(fmt) && !s.Absent? && HasAt(fmt, i, SizeText(s)) && HasAt(args, n, SizeArgs(s))
    requires i + |SizeText(s)| < |fmt| && !IsDigit(fmt[i + |SizeText(s)|], 10)
    ensures ScanFlags(fmt, i, AtPoint(f), args, n)
         == ScanFlags(fmt, i + |SizeText(s)|, WithPrecision(f, s), args, n + |SizeArgs(s)|)
  {
    hide *;
    PrecisionIs(f, s);
    if s == Literal(0) {
      ZeroText();
      NextIs(fmt, i, "0");
      ScanZero(fmt, i, AtPoint(f), args, n);
    } else {
      NotZero(s);
      ScanSize(fmt, i, AtPoint(f), args, n, s);
    }
  }

  lemma ZeroText()
    ensures SizeText(Literal(0)) == "0" && SizeArgs(Literal(0)) == []
  {
  }

  lemma NotZero(s: Size)
    requires s != Literal(0)
    ensures SizeOk(s)
  {
  }

  lemma ScanZero(fmt: string, i: nat, f: Flags, args: seq<Arg>, n: nat)
    requires Terminated(fmt) && i + 1 < |fmt| && fmt[i] == '0'
    ensures ScanFlags(fmt, i, f, args, n) == ScanFlags(fmt, i + 1, f.(padc := '0'), args, n)
  {
  }

  function WithLongs(f: Flags, k: nat): Flags {
    f.(lflag := f.lflag + k)
  }

  lemma LongsIs(f: Flags, k: nat)
    ensures WithLongs(f, k) == f.(lflag := f.lflag + k)
  {
  }

  lemma PrecisionIs(f: Flags, s: Size)
    ensures s.Absent? ==> WithPrecision(f, s) == f
    ensures s == Literal(0) ==> WithPrecision(f, s) == AtPoint(f).(padc := '0')
    ensures !s.Absent? && s != Literal(0) ==> WithPrecision(f, s) == Processed(AtPoint(f), SizeValue(s, 0))
  {
  }

  lemma ScannableIs(p: Piece)
    requires Scannable(p)
    ensures SizeOk(p.width) && IsConversion(p.conv)
  {
  }

  lemma WellFormedIs(p: Piece)
    requires p.Directive? && WellFormed(p)
    ensures Scannable(p) && FlagsRead(p) == FlagsOf(p) && p.conv != '%' && Fits(p.conv, FlagsOf(p), p.arg)
  {
  }

  lemma ScanPad(fmt: string, i: nat, f: Flags, args: seq<Arg>, n: nat, alt: bool, pad: Pad)
    requires Terminated(fmt) && HasAt(fmt, i, AltText(alt) + PadText(pad)) && i + |AltText(alt) + PadText(pad)| < |fmt|
    requires f.padc == ' ' && !f.altflag
    ensures ScanFlags(fmt, i, f, args, n)
         == ScanFlags(fmt, i + |AltText(alt) + PadText(pad)|, f.(altflag := alt, padc := PadChar(pad)), args, n)
  {
    HasConcat(fmt, i, AltText(alt), PadText(pad));
    if alt {
      NextIs(fmt, i, "#");
    }
    if !pad.Blanks? {
      NextIs(fmt, i + |AltText(alt)|, PadText(pad));
    }
  }

  lemma DirectiveText(p: Piece)
    requires p.Directive?
    ensures FlagText(p) + [p.conv] == (AltText(p.alt) + PadText(p.pad)) + (SizeText(p.width) + AfterWidth(p))
    ensures |FlagText(p)|
         == |AltText(p.alt) + PadText(p.pad)| + |SizeText(p.width)| + |PrecisionText(p.precision)| + p.longs
    ensures AfterWidth(p) != ""
  {
  }

  lemma FlagsAre(p: Piece)
    requires Scannable(p)
    ensures var f1 := Flags(PadChar(p.pad), -1, -1, 0, p.alt);
            var f2 := if p.width.Absent? then f1 else Processed(f1, SizeValue(p.width, 0));
            FlagsRead(p) == WithLongs(WithPrecision(f2, p.precision), p.longs)
  {
  }

  /** What every directive is read back as. */
  lemma ScanDirective(fmt: string, i: nat, args: seq<Arg>, n: nat, p: Piece)
    requires Terminated(fmt) && p.Directive? && Scannable(p) && HasAt(fmt, i, FlagText(p) + [p.conv])
    requires HasAt(args, n, SizeArgs(p.width) + SizeArgs(p.precision))
    ensures ScanFlags(fmt, i, PLAIN, args, n)
         == Some(Scan(i + |FlagText(p)|, FlagsRead(p), n + |SizeArgs(p.width)| + |SizeArgs(p.precision)|))
  {
    hide *;
    var head := AltText(p.alt) + PadText(p.pad);
    DirectiveText(p);
    HasConcat(fmt, i, head, SizeText(p.width) + AfterWidth(p));
    var i1, f1 := i + |head|, Flags(PadChar(p.pad), -1, -1, 0, p.alt);
    HasConcat(fmt, i1, SizeText(p.width), AfterWidth(p));
    HasConcat(args, n, SizeArgs(p.width), SizeArgs(p.precision));
    NoDigitNext(p);
    NextIs(fmt, i1 + |SizeText(p.width)|, AfterWidth(p));
    PlainIs();
    ScannableIs(p);
    FlagsAre(p);
    ScanPad(fmt, i, PLAIN, args, n, p.alt, p.pad);
    ScanSize(fmt, i1, f1, args, n, p.width);
    var f2 := if p.width.Absent? then f1 else Processed(f1, SizeValue(p.width, 0));
    ScanPrecision(fmt, i1 + |SizeText(p.width)|, f2, args, n + |SizeArgs(p.width)|, p);
  }

  /** A directive is read back as what it was written for, unless its precision is written as 0. */
  lemma ReadBackExactly(fmt: string, i: nat, args: seq<Arg>, n: nat, p: Piece)
    requires Terminated(fmt) && p.Directive? && Scannable(p) && HasAt(fmt, i, FlagText(p) + [p.conv])
    requires HasAt(args, n, SizeArgs(p.width) + SizeArgs(p.precision))
    ensures ScanFlags(fmt, i, PLAIN, args, n)
         == Some(Scan(i + |FlagText(p)|, FlagsOf(p), n + |SizeArgs(p.width)| + |SizeArgs(p.precision)|))
         <==> p.precision != Literal(0)
  {
    ScanDirective(fmt, i, args, n, p);
    hide *;
    ReadIs(p);
  }

  lemma ReadIs(p: Piece)
    requires p.Directive?
    ensures FlagsRead(p) == FlagsOf(p) <==> p.precision != Literal(0)
  {
  }

  lemma PlainIs()
    ensures PLAIN == Flags(' ', -1, -1, 0, false)
  {
  }

  /** The engine reads a format back into its pieces: what it prints is what they stand for, one after the other. */
  lemma {:induction false} RenderPieces(fmt: string, i: nat, args: seq<Arg>, n: nat, ps: seq<Piece>)
    requires Terminated(fmt) && (forall p | p in ps :: WellFormed(p))
    requires HasAt(fmt, i, EncodeAll(ps)) && i + |EncodeAll(ps)| + 1 == |fmt| && HasAt(args, n, ArgsAll(ps))
    ensures Render(fmt, i, args, n) == Some(DenoteAll(ps))
    decreases |ps|
  {
    hide *;
    if ps == [] {
      RenderEnd(fmt, i, args, n);
    } else {
      var p, rest := ps[0], ps[1..];
      AllIs(ps);
      HasConcat(fmt, i, Encode(p), EncodeAll(rest));
      HasConcat(args, n, ArgsOf(p), ArgsAll(rest));
      RenderPieces(fmt, i + |Encode(p)|, args, n + |ArgsOf(p)|, rest);
      RenderPiece(fmt, i, args, n, p, DenoteAll(rest));
    }
  }

  lemma AllIs(ps: seq<Piece>)
    requires ps != [] && forall p | p in ps :: WellFormed(p)
    ensures EncodeAll(ps) == Encode(ps[0]) + EncodeAll(ps[1..]) && ArgsAll(ps) == ArgsOf(ps[0]) + ArgsAll(ps[1..])
    ensures DenoteAll(ps) == Denote(ps[0]) + DenoteAll(ps[1..])
  {
    hide WellFormed;
  }

  lemma RenderEnd(fmt: string, i: nat, args: seq<Arg>, n: nat)
    requires Terminated(fmt) && i + |EncodeAll([])| + 1 == |fmt|
    ensures Render(fmt, i, args, n) == Some("") && DenoteAll([]) == ""
  {
    hide Meaning, Fits;
  }

  lemma RenderPiece(fmt: string, i: nat, args: seq<Arg>, n: nat, p: Piece, rest: string)
    requires Terminated(fmt) && WellFormed(p) && HasAt(fmt, i, Encode(p)) && HasAt(args, n, ArgsOf(p))
    requires i + |Encode(p)| < |fmt| && Render(fmt, i + |Encode(p)|, args, n + |ArgsOf(p)|) == Some(rest)
    ensures Render(fmt, i, args, n) == Some(Denote(p) + rest)
  {
    hide Meaning, Fits, FlagText, FlagsOf, SizeArgs, ScanFlags, Render;
    match p
    case Text(c) =>
      NextIs(fmt, i, [c]);
      RenderText(fmt, i, args, n);
    case Percent =>
      HasConcat(fmt, i, "%", "%");
      RenderPercent(fmt, i, args, n);
    case Directive(_, _, _, _, _, _, _) =>
      RenderWritten(fmt, i, args, n, p, rest);
  }

  /** A directive in a format, up to the text of its argument. */
  lemma RenderWritten(fmt: string, i: nat, args: seq<Arg>, n: nat, p: Piece, rest: string)
    requires Terminated(fmt) && p.Directive? && WellFormed(p)
    requires HasAt(fmt, i, Encode(p)) && HasAt(args, n, ArgsOf(p)) && i + |Encode(p)| < |fmt|
    requires Render(fmt, i + |Encode(p)|, args, n + |ArgsOf(p)|) == Some(rest)
    ensures Render(fmt, i, args, n) == Some(Denote(p) + rest)
  {
    hide *;
    DirectiveIs(p);
    var sizes := SizeArgs(p.width) + SizeArgs(p.precision);
    HasConcat(fmt, i, "%", FlagText(p) + [p.conv]);
    HasConcat(fmt, i + 1, FlagText(p), [p.conv]);
    NextIs(fmt, i, "%");
    NextIs(fmt, i + 1 + |FlagText(p)|, [p.conv]);
    HasConcat(args, n, sizes, [p.arg]);
    NextArg(args, n + |sizes|, p.arg);
    WellFormedIs(p);
    ScanDirective(fmt, i + 1, args, n, p);
    RenderDirective(fmt, i, args, n, p, |sizes|, rest);
  }

  lemma DirectiveIs(p: Piece)
    requires p.Directive? && WellFormed(p)
    ensures Encode(p) == "%" + (FlagText(p) + [p.conv])
    ensures ArgsOf(p) == SizeArgs(p.width) + SizeArgs(p.precision) + [p.arg]
    ensures Denote(p) == Meaning(p.conv, FlagsOf(p), p.arg)
  {
    hide Meaning, Fits, FlagText;
  }

  lemma RenderText(fmt: string, i: nat, args: seq<Arg>, n: nat)
    requires Terminated(fmt) && i + 1 < |fmt| && fmt[i] != '%' && fmt[i] != '\0'
    ensures Render(fmt, i, args, n) == Before([fmt[i]], Render(fmt, i + 1, args, n))
  {
    hide Meaning, Fits, ScanFlags;
  }

  lemma RenderPercent(fmt: string, i: nat, args: seq<Arg>, n: nat)
    requires Terminated(fmt) && HasAt(fmt, i, "%") && HasAt(fmt, i + 1, "%") && i + 2 < |fmt|
    ensures Render(fmt, i, args, n) == Before("%", Render(fmt, i + 2, args, n))
  {
    NextIs(fmt, i, "%");
    NextIs(fmt, i + 1, "%");
    ScanEnd(fmt, i + 1, PLAIN, args, n, '%');
    hide Meaning, Fits, ScanFlags;
  }

  lemma RenderDirective(fmt: string, i: nat, args: seq<Arg>, n: nat, p: Piece, k: nat, rest: string)
    requires Terminated(fmt) && p.Directive? && WellFormed(p) && i + 2 + |FlagText(p)| < |fmt| && fmt[i] == '%'
    requires ScanFlags(fmt, i + 1, PLAIN, args, n) == Some(Scan(i + 1 + |FlagText(p)|, FlagsOf(p), n + k))
    requires fmt[i + 1 + |FlagText(p)|] == p.conv && n + k < |args| && args[n + k] == p.arg
    requires Render(fmt, i + 2 + |FlagText(p)|, args, n + k + 1) == Some(rest)
    ensures Render(fmt, i, args, n) == Some(Meaning(p.conv, FlagsOf(p), p.arg) + rest)
  {
    hide Meaning, Fits, ScanFlags, FlagText, FlagsOf;
  }

  lemma NextArg(args: seq<Arg>, k: nat, arg: Arg)
    requires HasAt(args, k, [arg])
    ensures k < |args| && args[k] == arg
  {
    assert args[k] == args[k..k + 1][0];
  }

  lemma SizeNoNul(s: Size)
    ensures Clean(SizeText(s))
  {
    if s.Literal? {
      DigitsAreDigits(s.n, 10);
    }
  }

  predicate Clean(s: string) {
    '\0' !in s
  }

  lemma CleanConcat(a: string, b: string)
    requires Clean(a) && Clean(b)
    ensures Clean(a + b)
  {
  }

  lemma FlagsClean(p: Piece)
    requires p.Directive?
    ensures Clean(FlagText(p))
  {
    SizeNoNul(p.width);
    SizeNoNul(p.precision);
    assert Clean(AltText(p.alt)) && Clean(PadText(p.pad)) && Clean(Repeat('l', p.longs)) && Clean(".") && Clean("");
    hide Digits, Clean, AltText, PadText, SizeText, Repeat;
    CleanConcat(".", SizeText(p.precision));
    CleanConcat(PrecisionText(p.precision), Repeat('l', p.longs));
    CleanConcat(SizeText(p.width), PrecisionText(p.precision) + Repeat('l', p.longs));
    CleanConcat(PadText(p.pad), SizeText(p.width) + (PrecisionText(p.precision) + Repeat('l', p.longs)));
    CleanConcat(AltText(p.alt),
                PadText(p.pad) + (SizeText(p.width) + (PrecisionText(p.precision) + Repeat('l', p.longs))));
  }

  lemma PieceNoNul(p: Piece)
    requires WellFormed(p)
    ensures '\0' !in Encode(p)
  {
    hide Meaning, Fits, FlagText;
    if p.Directive? {
      FlagsClean(p);
    }
  }

  lemma {:induction false} NoNul(ps: seq<Piece>)
    requires forall p | p in ps :: WellFormed(p)
    ensures '\0' !in EncodeAll(ps)
  {
    hide WellFormed, Encode;
    if ps != [] {
      NoNul(ps[1..]);
      PieceNoNul(ps[0]);
    }
  }

  /** Every format written from pieces prints what the pieces stand for. */
  lemma FormatsMean(ps: seq<Piece>)
    requires forall p | p in ps :: WellFormed(p)
    ensures var fmt := EncodeAll(ps) + ['\0'];
            Terminated(fmt) && Render(fmt, 0, ArgsAll(ps), 0) == Some(DenoteAll(ps))
  {
    var fmt := EncodeAll(ps) + ['\0'];
    NoNul(ps);
    assert fmt[0..0 + |EncodeAll(ps)|] == EncodeAll(ps);
    RenderPieces(fmt, 0, ArgsAll(ps), 0, ps);
  }

  /** The literal precision of 0 is taken for the padding flag: all of the string is printed. */
  lemma ZeroPrecisionIgnored(text: string)
    requires '\0' !in text
    ensures Terminated("%.0s\0") && Render("%.0s\0", 0, [Str(Some(text))], 0) == Some(text)
  {
    var fmt, args, f := "%.0s\0", [Str(Some(text))], Flags('0', 0, -1, 0, false);
    assert ScanFlags(fmt, 3, f, args, 0) == Some(Scan(3, f, 0));
    assert ScanFlags(fmt, 2, Flags(' ', 0, -1, 0, false), args, 0) == Some(Scan(3, f, 0));
    assert ScanFlags(fmt, 1, PLAIN, args, 0) == Some(Scan(3, f, 0));
    assert ShownAll(text, false) == text;
    assert Meaning('s', f, args[0]) == text;
    assert Render(fmt, 4, args, 1) == Some("");
    assert fmt[3] == 's' && IsConversion('s') && Fits('s', f, args[0]) && text + "" == text;
    hide ScanFlags, Meaning;
  }

  /** A precision of 0 from the arguments is honoured: nothing of the string is printed. */
  lemma ZeroPrecisionAsked(text: string)
    requires '\0' !in text
    ensures Terminated("%.*s\0") && Render("%.*s\0", 0, [Int(0), Str(Some(text))], 0) == Some("")
  {
    hide *;
    var p := Directive(Blanks, false, Absent, Star(0), 0, 's', Str(Some(text)));
    NothingMeant(p, text);
    StarText(p);
    AllIs([p]);
    NoPieces();
    FormatsMean([p]);
    assert [p][1..] == [];
    assert "%.*s" + "" + ['\0'] == "%.*s\0" && [Int(0), p.arg] + [] == [Int(0), Str(Some(text))] && "" + "" == "";
  }

  lemma NothingMeant(p: Piece, text: string)
    requires p == Directive(Blanks, false, Absent, Star(0), 0, 's', Str(Some(text))) && '\0' !in text
    ensures WellFormed(p) && Denote(p) == ""
  {
    var f := FlagsOf(p);
    assert f == Flags(' ', 0, 0, 0, false);
    assert Meaning('s', f, p.arg) == "";
  }

  lemma StarText(p: Piece)
    requires p.Directive? && p == Directive(Blanks, false, Absent, Star(0), 0, 's', p.arg)
    ensures Encode(p) == "%.*s" && ArgsOf(p) == [Int(0), p.arg]
  {
    hide Meaning, Fits;
  }

  lemma NoPieces()
    ensures EncodeAll([]) == "" && ArgsAll([]) == [] && DenoteAll([]) == ""
  {
    hide Meaning, Fits;
  }
}

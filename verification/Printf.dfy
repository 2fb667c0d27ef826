/** Format strings: parsing one conversion, and what a whole format comes to. Characters are bytes. */
module Printf {
  import opened Common
  import opened Stdio

  const PERCENT: byte := 37
  const HASH: byte := 35
  const QUOTE: byte := 39
  const STAR: byte := 42
  const DOT: byte := 46

  const HH: seq<byte> := [104, 104]
  const LL: seq<byte> := [108, 108]

  /** The argument types, by length modifier. */
  datatype Type = Char | Short | Int | IntMax | Long | LongLong | PtrDiff | SizeT

  /** An argument; a string may be the null pointer. */
  datatype Arg = Number(v: int) | Text(s: seq<byte>) | NoText

  // ---------------------------------------------------------------- parsing a conversion

  predicate IsFlag(ch: byte) {
    ch == MINUS_SIGN || ch == PLUS_SIGN || ch == SPACE || ch == HASH || ch == ZERO || ch == QUOTE
  }

  function WithFlag(c: Conversion, ch: byte): Conversion {
    if ch == MINUS_SIGN then c.(minus := true)
    else if ch == PLUS_SIGN then c.(plus := true)
    else if ch == SPACE then c.(space := true)
    else if ch == HASH then c.(pound := true)
    else if ch == ZERO then c.(zero := true)
    else c.(group := true)
  }

  const NO_FLAGS := Conversion(false, false, false, false, false, false, 0, -1)

  function LeadingFlags(f: seq<byte>): (r: seq<byte>)
    ensures r <= f
  {
    if f != [] && IsFlag(f[0]) then [f[0]] + LeadingFlags(f[1..]) else []
  }

  function Flagged(c: Conversion, fs: seq<byte>): Conversion
    decreases |fs|
  {
    if fs == [] then c else Flagged(WithFlag(c, fs[0]), fs[1..])
  }

  /** A minus overrides a zero, and a plus a space. */
  function Settled(c: Conversion): Conversion {
    c.(zero := c.zero && !c.minus, space := c.space && !c.plus)
  }

  /** A negative width, which only an argument can give, asks for its opposite, left-justified. */
  function Widened(c: Conversion, w: int): Conversion {
    if w < 0 then c.(width := -w, minus := true) else c.(width := w)
  }

  /** A precision overrides a zero; a negative one counts as none. */
  function Precise(c: Conversion, p: int): Conversion {
    if p < 0 then c.(precision := -1) else c.(precision := p, zero := false)
  }

  /** va_arg; what C leaves undefined, a missing argument or one of another kind, reads as 0. */
  function NextNumber(args: seq<Arg>): int {
    if args != [] && args[0].Number? then args[0].v else 0
  }

  function Rest<T>(s: seq<T>): seq<T> {
    if s == [] then [] else s[1..]
  }

  predicate StartsWith(f: seq<byte>, ch: byte) {
    f != [] && f[0] == ch
  }

  /** A number in the format, or a star that takes it from the arguments: its value and what is left of both. */
  function ParseCount(f: seq<byte>, args: seq<Arg>): (int, seq<byte>, seq<Arg>) {
    if StartsWith(f, STAR) then (NextNumber(args), f[1..], Rest(args))
    else (NumberOf(LeadingDigits(f), 10), f[DigitCount(f)..], args)
  }

  function DigitCount(f: seq<byte>): (n: nat)
    ensures n == |LeadingDigits(f)| <= |f|
  {
    if f != [] && IsDigit(f[0]) then DigitCount(f[1..]) + 1 else 0
  }

  function ParsePrecision(f: seq<byte>, args: seq<Arg>): (int, seq<byte>, seq<Arg>) {
    if StartsWith(f, DOT) then ParseCount(f[1..], args) else (-1, f, args)
  }

  /** The type and the length of its modifier. */
  function ParseType(f: seq<byte>): (r: (Type, nat))
    ensures r.1 <= |f|
  {
    if |f| > 1 && f[0] == 104 && f[1] == 104 then (Char, 2)
    else if |f| > 1 && f[0] == 108 && f[1] == 108 then (LongLong, 2)
    else if StartsWith(f, 104) then (Short, 1)
    else if StartsWith(f, 106) then (IntMax, 1)
    else if StartsWith(f, 108) then (Long, 1)
    else if StartsWith(f, 116) then (PtrDiff, 1)
    else if StartsWith(f, 122) then (SizeT, 1)
    else (Int, 0)
  }

  /** A parsed conversion; `rest` starts with the letter that says what to convert. */
  datatype Parsed = Parsed(c: Conversion, t: Type, rest: seq<byte>, args: seq<Arg>)

  function Parse(f: seq<byte>, args: seq<Arg>): Parsed {
    var fs := LeadingFlags(f);
    var w := ParseCount(f[|fs|..], args);
    var p := ParsePrecision(w.1, w.2);
    var t := ParseType(p.1);
    Parsed(Precise(Widened(Settled(Flagged(NO_FLAGS, fs)), w.0), p.0), t.0, p.1[t.1..], p.2)
  }

  /** What parsing comes to, part by part. */
  lemma ParseIs(f: seq<byte>, args: seq<Arg>, fs: seq<byte>, w: int, f1: seq<byte>, args1: seq<Arg>,
                p: int, f2: seq<byte>, args2: seq<Arg>, t: Type, f3: seq<byte>)
    requires fs == LeadingFlags(f) && ParseCount(f[|fs|..], args) == (w, f1, args1)
    requires ParsePrecision(f1, args1) == (p, f2, args2)
    requires ParseType(f2).0 == t && f2[ParseType(f2).1..] == f3
    ensures Parse(f, args) == Parsed(Precise(Widened(Settled(Flagged(NO_FLAGS, fs)), w), p), t, f3, args2)
  {
  }

  lemma ParseShortens(f: seq<byte>, args: seq<Arg>)
    ensures |Parse(f, args).rest| <= |f|
  {
  }

  // ---------------------------------------------------------------- conversions as written

  /** A field width or precision as written: absent, in digits, or a star with its argument. */
  datatype Count = Absent | Digits(digits: seq<byte>) | Starred(v: int)

  /** A conversion as written, with the letter that ends it. */
  datatype Spec = Spec(flags: seq<byte>, width: Count, precision: Count, t: Type, letter: byte)

  function CountText(n: Count): seq<byte> {
    match n
    case Absent => []
    case Digits(digits) => digits
    case Starred(_) => [STAR]
  }

  function CountArgs(n: Count): seq<Arg> {
    if n.Starred? then [Number(n.v)] else []
  }

  function CountValue(n: Count): int {
    match n
    case Absent => 0
    case Digits(digits) => NumberOf(digits, 10)
    case Starred(v) => v
  }

  function PrecisionText(n: Count): seq<byte> {
    if n.Absent? then [] else [DOT] + CountText(n)
  }

  function TypeText(t: Type): seq<byte> {
    match t
    case Char => HH
    case Short => [104]
    case Int => []
    case IntMax => [106]
    case Long => [108]
    case LongLong => LL
    case PtrDiff => [116]
    case SizeT => [122]
  }

  function SpecText(s: Spec): seq<byte> {
    s.flags + (CountText(s.width) + (PrecisionText(s.precision) + (TypeText(s.t) + [s.letter])))
  }

  function SpecArgs(s: Spec): seq<Arg> {
    CountArgs(s.width) + CountArgs(s.precision)
  }

  predicate IsTypeLetter(ch: byte) {
    ch == 104 || ch == 106 || ch == 108 || ch == 116 || ch == 122
  }

  /** A character that can stand right after any of the parts before it, and ends them. */
  predicate IsLetter(ch: byte) {
    !IsFlag(ch) && !IsDigit(ch) && ch != STAR && ch != DOT && !IsTypeLetter(ch)
  }

  predicate AllFlags(fs: seq<byte>) {
    forall k :: 0 <= k < |fs| ==> IsFlag(fs[k])
  }

  /** The parts are what they say: a width in digits does not start with the zero flag. */
  predicate WellWritten(s: Spec) {
    && AllFlags(s.flags) && IsLetter(s.letter)
    && (s.width.Digits? ==> s.width.digits != [] && AllDigits(s.width.digits) && s.width.digits[0] != ZERO)
    && (s.precision.Digits? ==> AllDigits(s.precision.digits))
  }

  function PrecisionValue(n: Count): int {
    if n.Absent? || CountValue(n) < 0 then -1 else CountValue(n)
  }

  /** What a conversion as written means. */
  function Meaning(s: Spec): Conversion {
    var w, p := CountValue(s.width), PrecisionValue(s.precision);
    Conversion(
      minus := MINUS_SIGN in s.flags || w < 0,
      plus := PLUS_SIGN in s.flags,
      space := SPACE in s.flags && PLUS_SIGN !in s.flags,
      pound := HASH in s.flags,
      zero := ZERO in s.flags && MINUS_SIGN !in s.flags && p < 0,
      group := QUOTE in s.flags,
      width := if w < 0 then -w else w,
      precision := p)
  }

  // ---------------------------------------------------------------- parsing reads what is written

  lemma {:induction false} FlagsLead(fs: seq<byte>, rest: seq<byte>)
    requires AllFlags(fs) && (rest == [] || !IsFlag(rest[0]))
    ensures LeadingFlags(fs + rest) == fs
  {
    if fs == [] {
      assert fs + rest == rest;
    } else {
      assert (fs + rest)[1..] == fs[1..] + rest;
      FlagsLead(fs[1..], rest);
    }
  }

  predicate HasFlag(c: Conversion, ch: byte) {
    if ch == MINUS_SIGN then c.minus else if ch == PLUS_SIGN then c.plus else if ch == SPACE then c.space
    else if ch == HASH then c.pound else if ch == ZERO then c.zero else c.group
  }

  lemma {:induction false} FlaggedHas(c: Conversion, fs: seq<byte>, ch: byte)
    requires AllFlags(fs) && IsFlag(ch)
    ensures HasFlag(Flagged(c, fs), ch) <==> HasFlag(c, ch) || ch in fs
    decreases |fs|
  {
    if fs != [] {
      var first, rest := fs[0], fs[1..];
      assert IsFlag(first);
      FlaggedHas(WithFlag(c, first), rest, ch);
      InCons(ch, fs);
    }
  }

  lemma {:induction false} FlaggedKeepsCounts(c: Conversion, fs: seq<byte>)
    ensures Flagged(c, fs).width == c.width && Flagged(c, fs).precision == c.precision
    decreases |fs|
  {
    if fs != [] {
      FlaggedKeepsCounts(WithFlag(c, fs[0]), fs[1..]);
    }
  }

  lemma InCons(ch: byte, fs: seq<byte>)
    requires fs != []
    ensures ch in fs <==> ch == fs[0] || ch in fs[1..]
  {
    assert fs == [fs[0]] + fs[1..];
  }

  /** Flags may come in any order and more than once. */
  lemma FlaggedIs(c: Conversion, fs: seq<byte>)
    requires AllFlags(fs)
    ensures Flagged(c, fs) == Conversion(
      c.minus || MINUS_SIGN in fs, c.plus || PLUS_SIGN in fs, c.space || SPACE in fs, c.pound || HASH in fs,
      c.zero || ZERO in fs, c.group || QUOTE in fs, c.width, c.precision)
  {
    FlaggedHas(c, fs, MINUS_SIGN);
    FlaggedHas(c, fs, PLUS_SIGN);
    FlaggedHas(c, fs, SPACE);
    FlaggedHas(c, fs, HASH);
    FlaggedHas(c, fs, ZERO);
    FlaggedHas(c, fs, QUOTE);
    FlaggedKeepsCounts(c, fs);
  }

  lemma CountReads(n: Count, rest: seq<byte>, more: seq<Arg>)
    requires n.Digits? ==> AllDigits(n.digits)
    requires rest == [] || (!IsDigit(rest[0]) && rest[0] != STAR)
    ensures ParseCount(CountText(n) + rest, CountArgs(n) + more) == (CountValue(n), rest, more)
  {
    match n {
      case Absent =>
        assert [] + rest == rest && [] + more == more;
        DigitsLead([], rest);
        assert rest[0..] == rest;
      case Digits(digits) =>
        assert [] + more == more;
        DigitsLead(digits, rest);
        assert StartsWith(digits + rest, STAR) ==> !IsDigit((digits + rest)[0]);
        assert (digits + rest)[|digits|..] == rest;
      case Starred(v) =>
        assert ([STAR] + rest)[1..] == rest && ([Number(v)] + more)[1..] == more;
    }
  }

  lemma PrecisionReads(n: Count, rest: seq<byte>, more: seq<Arg>)
    requires n.Digits? ==> AllDigits(n.digits)
    requires rest == [] || (!IsDigit(rest[0]) && rest[0] != STAR && rest[0] != DOT)
    ensures ParsePrecision(PrecisionText(n) + rest, CountArgs(n) + more)
      == (if n.Absent? then -1 else CountValue(n), rest, more)
  {
    if n.Absent? {
      assert [] + rest == rest && [] + more == more;
    } else {
      assert ([DOT] + CountText(n)) + rest == [DOT] + (CountText(n) + rest);
      assert ([DOT] + (CountText(n) + rest))[1..] == CountText(n) + rest;
      CountReads(n, rest, more);
    }
  }

  lemma TypeReads(t: Type, letter: byte, rest: seq<byte>)
    requires IsLetter(letter)
    ensures var f := TypeText(t) + ([letter] + rest);
      ParseType(f).0 == t && f[ParseType(f).1..] == [letter] + rest
  {
    var f := TypeText(t) + ([letter] + rest);
    assert |TypeText(t)| == 1 ==> f[1] == letter;
    assert f[|TypeText(t)|..] == [letter] + rest;
  }

  /** The first character of each part that follows the flags is none of the parts before it. */
  lemma PartsAreApart(s: Spec, rest: seq<byte>)
    requires WellWritten(s)
    ensures var tail := TypeText(s.t) + ([s.letter] + rest);
      var middle := PrecisionText(s.precision) + tail;
      && !IsFlag(tail[0]) && !IsDigit(tail[0]) && tail[0] != STAR && tail[0] != DOT
      && !IsFlag(middle[0]) && !IsDigit(middle[0]) && middle[0] != STAR
      && !IsFlag((CountText(s.width) + middle)[0])
  {
  }

  lemma Reassociate(a: seq<byte>, b: seq<byte>, c: seq<byte>, d: seq<byte>, e: seq<byte>)
    ensures (a + (b + (c + d))) + e == a + (b + (c + (d + e)))
  {
  }

  lemma TextIs(s: Spec, rest: seq<byte>)
    ensures SpecText(s) + rest ==
      s.flags + (CountText(s.width) + (PrecisionText(s.precision) + (TypeText(s.t) + ([s.letter] + rest))))
  {
    Reassociate(s.flags, CountText(s.width), PrecisionText(s.precision), TypeText(s.t) + [s.letter], rest);
    assert (TypeText(s.t) + [s.letter]) + rest == TypeText(s.t) + ([s.letter] + rest);
  }

  /** The flags, settled in the order the parser settles them. */
  lemma MeaningIs(s: Spec, p: int)
    requires AllFlags(s.flags) && p == if s.precision.Absent? then -1 else CountValue(s.precision)
    ensures Precise(Widened(Settled(Flagged(NO_FLAGS, s.flags)), CountValue(s.width)), p) == Meaning(s)
  {
    FlaggedIs(NO_FLAGS, s.flags);
  }

  /** Parsing a conversion gives what it means, whatever its flags, width, precision and type, and stops at its letter
      with its arguments used up. */
  lemma SpecReadsBack(s: Spec, rest: seq<byte>, more: seq<Arg>)
    requires WellWritten(s)
    ensures Parse(SpecText(s) + rest, SpecArgs(s) + more) == Parsed(Meaning(s), s.t, [s.letter] + rest, more)
  {
    var tail := TypeText(s.t) + ([s.letter] + rest);
    var middle := PrecisionText(s.precision) + tail;
    var f := CountText(s.width) + middle;
    PartsAreApart(s, rest);
    TextIs(s, rest);
    assert LeadingFlags(s.flags + f) == s.flags && (s.flags + f)[|s.flags|..] == f by {
      FlagsLead(s.flags, f);
    }
    var args := CountArgs(s.precision) + more;
    var p := if s.precision.Absent? then -1 else CountValue(s.precision);
    assert SpecArgs(s) + more == CountArgs(s.width) + args;
    CountReads(s.width, middle, args);
    PrecisionReads(s.precision, tail, more);
    TypeReads(s.t, s.letter, rest);
    ParseIs(s.flags + f, CountArgs(s.width) + args, s.flags, CountValue(s.width), middle, args, p, tail, more,
            s.t, [s.letter] + rest);
    MeaningIs(s, p);
  }

  /** The two flags that pad are both left set just when a star takes a negative width for a conversion with a zero
      flag, no minus and no precision: the minus it stands for comes too late to clear the zero. */
  lemma BothPadsIff(s: Spec)
    ensures Meaning(s).minus && Meaning(s).zero <==>
      s.width.Starred? && s.width.v < 0 && ZERO in s.flags && MINUS_SIGN !in s.flags && PrecisionValue(s.precision) < 0
  {
    if s.width.Digits? {
      assert NumberOf(s.width.digits, 10) >= 0;
    }
  }

  /** An integer's field is as wide as asked for or as what it must show, except with both pads: then it is padded twice. */
  lemma FieldWidth(value: nat, isSigned: bool, negative: bool, b: IntegerBase, c: Conversion)
    requires IsBase(b) && c.width >= 0
    ensures var bare := |Sign(isSigned, negative, c)| + |AltPrefix(value, b, c)| + |Buffer(value, b, c)|;
      |Formatted(value, isSigned, negative, b, c)| ==
        if c.width <= bare then bare else if c.minus && c.zero then 2 * c.width - bare else c.width
  {
  }

  // ---------------------------------------------------------------- conversions carried out

  /** How many values the type has. */
  function Span(t: Type): (n: nat)
    ensures n <= UINT64
  {
    match t
    case Char => 0x100
    case Short => 0x1_0000
    case IntMax => UINT64
    case LongLong => UINT64
    case _ => 0x1_0000_0000
  }

  /** An argument as the unsigned and the signed type of the given size see it. */
  function AsUnsigned(v: int, t: Type): (r: nat)
    ensures r < UINT64
  {
    v % Span(t)
  }

  function AsSigned(v: int, t: Type): (r: int)
    ensures -(UINT64 / 2) <= r < UINT64 / 2
    ensures -(Span(t) / 2) <= v < Span(t) / 2 ==> r == v
  {
    if v % Span(t) < Span(t) / 2 then v % Span(t) else v % Span(t) - Span(t)
  }

  function BaseOf(letter: byte): (b: IntegerBase)
    ensures IsBase(b)
  {
    if letter == 111 then BASE_O else if letter == 120 then BASE_x else if letter == 88 then BASE_X else BASE_D
  }

  function Justified(s: seq<byte>, c: Conversion): seq<byte> {
    (if c.minus then [] else Spaces(c.width - |s|)) + s + (if c.minus then Spaces(c.width - |s|) else [])
  }

  const NULL_TEXT: seq<byte> := [40, 110, 117, 108, 108, 41]                                    // (null)
  const NO: seq<byte> := [60, 60, 110, 111, 32, 37]                                             // <<no %
  const IN_KERNEL: seq<byte> := [32, 105, 110, 32, 107, 101, 114, 110, 101, 108, 62, 62]        //  in kernel>>
  const CONVERSION: seq<byte> := [32, 99, 111, 110, 118, 101, 114, 115, 105, 111, 110, 62, 62]  //  conversion>>

  /** The string of an argument, no longer than a precision. */
  function Limited(args: seq<Arg>, precision: int): seq<byte> {
    var s := if args != [] && args[0].Text? then args[0].s else NULL_TEXT;
    if 0 <= precision < |s| then s[..precision] else s
  }

  predicate IsSignedLetter(ch: byte) { ch == 100 || ch == 105 }
  predicate IsUnsignedLetter(ch: byte) { ch == 111 || ch == 117 || ch == 120 || ch == 88 }
  predicate IsRefused(ch: byte) { ch == 102 || ch == 101 || ch == 69 || ch == 103 || ch == 71 || ch == 110 }

  /** Whether the conversion takes an argument of its own. */
  predicate TakesArg(letter: byte) {
    IsSignedLetter(letter) || IsUnsignedLetter(letter) || letter == 99 || letter == 115 || letter == 112
  }

  function SignedText(v: int, c: Conversion): seq<byte> {
    Formatted(if v < 0 then -v else v, true, v < 0, BASE_D, c)
  }

  /** %p is %#x, without the other flags. */
  function Pointer(c: Conversion): Conversion {
    NO_FLAGS.(pound := true, width := c.width, precision := c.precision)
  }

  /** What the conversion with the given letter puts out for the next argument. */
  function Converted(letter: byte, c: Conversion, t: Type, args: seq<Arg>): seq<byte> {
    if IsSignedLetter(letter) then SignedText(AsSigned(NextNumber(args), t), c)
    else if IsUnsignedLetter(letter) then Formatted(AsUnsigned(NextNumber(args), t), false, false, BaseOf(letter), c)
    else if letter == 99 then Justified([AsUnsigned(NextNumber(args), Char) % 256], c)
    else if letter == 115 then Justified(Limited(args, c.precision), c)
    else if letter == 112 then Formatted(AsUnsigned(NextNumber(args), Long), false, false, BASE_x, Pointer(c))
    else NO + [letter] + if IsRefused(letter) then IN_KERNEL else CONVERSION
  }

  function ArgsAfter(letter: byte, args: seq<Arg>): seq<Arg> {
    if TakesArg(letter) then Rest(args) else args
  }

  /** What a format comes to. A conversion cut off by the end of the format, which C leaves undefined, ends it. */
  function Printed(f: seq<byte>, args: seq<Arg>): seq<byte>
    decreases |f|
  {
    if f == [] then []
    else if f[0] != PERCENT then [f[0]] + Printed(f[1..], args)
    else if StartsWith(f[1..], PERCENT) then [PERCENT] + Printed(f[2..], args)
    else
      var p := Parse(f[1..], args);
      ParseShortens(f[1..], args);
      if p.rest == [] then []
      else Converted(p.rest[0], p.c, p.t, p.args) + Printed(p.rest[1..], ArgsAfter(p.rest[0], p.args))
  }

  // ---------------------------------------------------------------- formats in pieces

  /** A piece of a format: plain text, a doubled percent sign, or a conversion with its argument if it takes one. */
  datatype Piece = Plain(text: seq<byte>) | Percent | Convert(spec: Spec, arg: Arg)

  predicate GoodPiece(p: Piece) {
    match p
    case Plain(text) => PERCENT !in text
    case Percent => true
    case Convert(spec, _) => WellWritten(spec) && SpecText(spec)[0] != PERCENT
  }

  function PieceText(p: Piece): seq<byte> {
    match p
    case Plain(text) => text
    case Percent => [PERCENT, PERCENT]
    case Convert(spec, _) => [PERCENT] + SpecText(spec)
  }

  function PieceArgs(p: Piece): seq<Arg> {
    if p.Convert? then SpecArgs(p.spec) + (if TakesArg(p.spec.letter) then [p.arg] else []) else []
  }

  function PieceOutput(p: Piece): seq<byte> {
    match p
    case Plain(text) => text
    case Percent => [PERCENT]
    case Convert(spec, arg) =>
      Converted(spec.letter, Meaning(spec), spec.t, if TakesArg(spec.letter) then [arg] else [])
  }

  function FormatOf(ps: seq<Piece>): seq<byte> {
    if ps == [] then [] else PieceText(ps[0]) + FormatOf(ps[1..])
  }

  function ArgsOf(ps: seq<Piece>): seq<Arg> {
    if ps == [] then [] else PieceArgs(ps[0]) + ArgsOf(ps[1..])
  }

  function OutputOf(ps: seq<Piece>): seq<byte> {
    if ps == [] then [] else PieceOutput(ps[0]) + OutputOf(ps[1..])
  }

  lemma OnePlain(ch: byte, rest: seq<byte>, args: seq<Arg>)
    requires ch != PERCENT
    ensures Printed([ch] + rest, args) == [ch] + Printed(rest, args)
  {
    assert ([ch] + rest)[1..] == rest;
  }

  lemma OneConversion(f: seq<byte>, args: seq<Arg>, p: Parsed)
    requires f != [] && f[0] == PERCENT && !StartsWith(f[1..], PERCENT) && p == Parse(f[1..], args) && p.rest != []
    ensures |p.rest| < |f|
    ensures Printed(f, args) == Converted(p.rest[0], p.c, p.t, p.args) + Printed(p.rest[1..], ArgsAfter(p.rest[0], p.args))
  {
    ParseShortens(f[1..], args);
  }

  lemma {:induction false} PlainFirst(text: seq<byte>, rest: seq<byte>, args: seq<Arg>)
    requires PERCENT !in text
    ensures Printed(text + rest, args) == text + Printed(rest, args)
  {
    if text == [] {
      assert text + rest == rest;
    } else {
      assert text + rest == [text[0]] + (text[1..] + rest);
      OnePlain(text[0], text[1..] + rest, args);
      PlainFirst(text[1..], rest, args);
    }
  }

  lemma ParsedConversion(f: seq<byte>, args: seq<Arg>, letter: byte, c: Conversion, t: Type, own: seq<Arg>,
                         rest: seq<byte>, more: seq<Arg>)
    requires f != [] && f[0] == PERCENT && !StartsWith(f[1..], PERCENT)
    requires Parse(f[1..], args) == Parsed(c, t, [letter] + rest, own + more)
    requires |own| == if TakesArg(letter) then 1 else 0
    ensures Printed(f, args) == Converted(letter, c, t, own) + Printed(rest, more)
  {
    var p := Parsed(c, t, [letter] + rest, own + more);
    assert p.rest[0] == letter && p.rest[1..] == rest;
    OneConversion(f, args, p);
    OwnArgument(letter, c, t, own, more);
  }

  lemma ConversionFirst(s: Spec, arg: Arg, rest: seq<byte>, more: seq<Arg>)
    requires WellWritten(s) && SpecText(s)[0] != PERCENT
    ensures var p := Convert(s, arg);
      Printed(PieceText(p) + rest, PieceArgs(p) + more) == PieceOutput(p) + Printed(rest, more)
  {
    var f, text := PieceText(Convert(s, arg)) + rest, SpecText(s);
    var own: seq<Arg> := if TakesArg(s.letter) then [arg] else [];
    assert f[0] == PERCENT && f[1..] == text + rest && f[1] == text[0];
    assert PieceArgs(Convert(s, arg)) + more == SpecArgs(s) + (own + more);
    SpecReadsBack(s, rest, own + more);
    ParsedConversion(f, SpecArgs(s) + (own + more), s.letter, Meaning(s), s.t, own, rest, more);
  }

  lemma OwnArgument(letter: byte, c: Conversion, t: Type, own: seq<Arg>, more: seq<Arg>)
    requires |own| == if TakesArg(letter) then 1 else 0
    ensures Converted(letter, c, t, own + more) == Converted(letter, c, t, own)
    ensures ArgsAfter(letter, own + more) == more
  {
    if own == [] {
      assert own + more == more;
    } else {
      assert NextNumber(own + more) == NextNumber(own) && (own + more)[0] == own[0];
    }
  }

  /** A format made of any pieces comes to what its pieces come to, each with its own arguments. */
  lemma {:induction false} FormatPrints(ps: seq<Piece>)
    requires forall i :: 0 <= i < |ps| ==> GoodPiece(ps[i])
    ensures Printed(FormatOf(ps), ArgsOf(ps)) == OutputOf(ps)
  {
    if ps != [] {
      var rest, more := FormatOf(ps[1..]), ArgsOf(ps[1..]);
      FormatPrints(ps[1..]);
      match ps[0] {
        case Plain(text) =>
          assert [] + more == more;
          PlainFirst(text, rest, more);
        case Percent =>
          assert [] + more == more;
          assert ([PERCENT, PERCENT] + rest)[2..] == rest;
        case Convert(spec, arg) => ConversionFirst(spec, arg, rest, more);
      }
    }
  }

  /** A format that is one conversion. */
  lemma ConversionAlone(format: seq<byte>, args: seq<Arg>, s: Spec, arg: Arg)
    requires WellWritten(s) && TakesArg(s.letter)
    requires format == [PERCENT] + SpecText(s) && args == SpecArgs(s) + [arg]
    ensures Printed(format, args) == Converted(s.letter, Meaning(s), s.t, [arg])
  {
    var p := Convert(s, arg);
    assert PieceText(p) + [] == format && PieceArgs(p) + [] == args;
    FirstOfSpec(s);
    ConversionFirst(s, arg, [], []);
    assert PieceOutput(p) + [] == PieceOutput(p);
  }

  // ---------------------------------------------------------------- what a conversion shows

  /** `r` is what an argument `v` comes to in a type of that size. */
  predicate Wraps(t: Type, isSigned: bool, v: int, r: int) {
    var n := if t.Char? then 0x100 else if t.Short? then 0x1_0000
             else if t.IntMax? || t.LongLong? then 0x1_0000_0000_0000_0000 else 0x1_0000_0000;
    v % n == r % n && if isSigned then -n <= 2 * r < n else 0 <= r < n
  }

  /** What a width or a precision as written asks for. */
  predicate AsksFor(n: Count, v: int, none: int) {
    match n
    case Absent => v == none
    case Digits(digits) => v == NumberOf(digits, 10)
    case Starred(x) => v == x
  }

  /** The character `at` places from the right of a number printed by the conversion with the given letter. */
  predicate ShownAt(letter: byte, grouped: bool, ch: byte, at: nat) {
    var hex := letter == 120 || letter == 88;
    if grouped && at % (if hex then 5 else 4) == (if hex then 4 else 3) then ch == 44
    else 48 <= ch < (if letter == 111 then 56 else 58) || (letter == 120 && 97 <= ch < 103) || (letter == 88 && 65 <= ch < 71)
  }

  /** `sig` is the number `n` in the base and the case of the letter, without superfluous zeros. */
  ghost predicate ShowsNumber(letter: byte, grouped: bool, n: nat, sig: seq<byte>) {
    && NumberOf(sig, if letter == 111 then 8 else if letter == 120 || letter == 88 then 16 else 10) == n
    && (sig == [] || sig[0] != 48)
    && forall k :: 0 <= k < |sig| ==> ShownAt(letter, grouped, sig[k], |sig| - 1 - k)
  }

  /** What stands before the digits of the number `r`: a sign for the signed letters, 0x or 0X for the hexadecimal ones. */
  predicate Introduces(s: Spec, r: int, lead: seq<byte>) {
    lead == if s.letter == 100 || s.letter == 105 then
              if r < 0 then [45] else if 43 in s.flags then [43] else if 32 in s.flags then [32] else []
            else if r == 0 || 35 !in s.flags then []
            else if s.letter == 120 then [48, 120] else if s.letter == 88 then [48, 88] else []
  }

  /** The whole of it for the number `r`: with `w` and `p` asked for as width and precision, `p` negative for none. */
  ghost predicate ShowsInteger(s: Spec, r: int, w: int, p: int, lead: seq<byte>, sig: seq<byte>, out: seq<byte>) {
    && Introduces(s, r, lead) && ShowsNumber(s.letter, 39 in s.flags, Abs(r), sig)
    && var zeros := Max(Min(if p < 0 then 1 else p, 63) - |sig|, if s.letter == 111 && 35 in s.flags then 1 else 0);
    IsField(out, lead, Zeros(zeros) + sig, Abs(w), 45 in s.flags || w < 0, 48 in s.flags && 45 !in s.flags && p < 0)
  }

  ghost predicate ShowsAsInteger(s: Spec, r: int, w: int, p: int, out: seq<byte>) {
    exists lead, sig :: ShowsInteger(s, r, w, p, lead, sig, out)
  }

  lemma BaseShows(letter: byte, b: IntegerBase, group: bool, n: nat, sig: seq<byte>)
    requires IsNumeral(sig, n, if IsSignedLetter(letter) then BASE_D else BaseOf(letter), group)
    requires IsSignedLetter(letter) || IsUnsignedLetter(letter)
    ensures ShowsNumber(letter, group, n, sig)
  {
    var base := if IsSignedLetter(letter) then BASE_D else BaseOf(letter);
    forall k | 0 <= k < |sig| ensures ShownAt(letter, group, sig[k], |sig| - 1 - k) {
      assert LooksAt(sig[k], base, group, |sig| - 1 - k);
    }
  }

  lemma MeaningAsks(s: Spec, w: int, p: int)
    requires AsksFor(s.width, w, 0) && AsksFor(s.precision, p, -1)
    ensures var c := Meaning(s);
      && c.width == Abs(w) && c.precision == (if p < 0 then -1 else p) && c.group == (39 in s.flags)
      && c.minus == (45 in s.flags || w < 0) && c.zero == (48 in s.flags && 45 !in s.flags && p < 0)
  {
  }

  lemma WrapsIs(t: Type, isSigned: bool, v: int, r: int)
    requires Wraps(t, isSigned, v, r)
    ensures r == if isSigned then AsSigned(v, t) else AsUnsigned(v, t)
  {
    if isSigned {
      SignedIn(Span(t), v, r);
    }
  }

  lemma SignedIn(n: int, v: int, r: int)
    requires n == 0x100 || n == 0x1_0000 || n == 0x1_0000_0000 || n == 0x1_0000_0000_0000_0000
    requires v % n == r % n && -n <= 2 * r < n
    ensures r == if v % n < n / 2 then v % n else v % n - n
  {
    if n == 0x100 {
    } else if n == 0x1_0000 {
    } else if n == 0x1_0000_0000 {
    } else {
    }
  }

  lemma LeadIs(s: Spec, r: int, w: int, p: int)
    requires AsksFor(s.width, w, 0) && AsksFor(s.precision, p, -1)
    requires IsSignedLetter(s.letter) || (IsUnsignedLetter(s.letter) && r >= 0)
    ensures var signed := IsSignedLetter(s.letter);
      Introduces(s, r, Sign(signed, signed && r < 0, Meaning(s)) +
        AltPrefix(Abs(r), if signed then BASE_D else BaseOf(s.letter), Meaning(s)))
  {
  }

  /** The integer conversion carried out for a value. */
  lemma IntegerShows(s: Spec, r: int, w: int, p: int, b: IntegerBase)
    requires AsksFor(s.width, w, 0) && AsksFor(s.precision, p, -1)
    requires IsSignedLetter(s.letter) || (IsUnsignedLetter(s.letter) && r >= 0)
    requires b == if IsSignedLetter(s.letter) then BASE_D else BaseOf(s.letter)
    ensures var signed := IsSignedLetter(s.letter);
      ShowsAsInteger(s, r, w, p, Formatted(Abs(r), signed, signed && r < 0, b, Meaning(s)))
  {
    var signed, c := IsSignedLetter(s.letter), Meaning(s);
    var lead := Sign(signed, signed && r < 0, c) + AltPrefix(Abs(r), b, c);
    var number := Reverse(Buffer(Abs(r), b, c));
    LeadIs(s, r, w, p);
    NumberPutOut(Abs(r), b, c);
    FormattedIsField(Abs(r), signed, signed && r < 0, b, c);
    FieldShows(s, r, w, p, b, lead, number, Formatted(Abs(r), signed, signed && r < 0, b, c));
  }

  lemma FieldShows(s: Spec, r: int, w: int, p: int, b: IntegerBase, lead: seq<byte>, number: seq<byte>, out: seq<byte>)
    requires AsksFor(s.width, w, 0) && AsksFor(s.precision, p, -1)
    requires IsSignedLetter(s.letter) || IsUnsignedLetter(s.letter)
    requires b == if IsSignedLetter(s.letter) then BASE_D else BaseOf(s.letter)
    requires Introduces(s, r, lead) && IsPutOut(number, Abs(r), b, Meaning(s))
    requires IsField(out, lead, number, Meaning(s).width, Meaning(s).minus, Meaning(s).zero)
    ensures ShowsAsInteger(s, r, w, p, out)
  {
    var sig :| IsNumeral(sig, Abs(r), b, Meaning(s).group) && number == Zeros(LeadingZeros(|sig|, b, Meaning(s))) + sig;
    BaseShows(s.letter, b, Meaning(s).group, Abs(r), sig);
    MeaningAsks(s, w, p);
    ZerosAsked(s, p, b, |sig|);
    ShowsFrom(s, r, w, p, lead, sig, LeadingZeros(|sig|, b, Meaning(s)), out, Meaning(s));
  }

  lemma ShowsFrom(s: Spec, r: int, w: int, p: int, lead: seq<byte>, sig: seq<byte>, zeros: nat, out: seq<byte>, c: Conversion)
    requires Introduces(s, r, lead) && ShowsNumber(s.letter, 39 in s.flags, Abs(r), sig)
    requires zeros == Max(Min(if p < 0 then 1 else p, 63) - |sig|, if s.letter == 111 && 35 in s.flags then 1 else 0)
    requires c.width == Abs(w) && c.minus == (45 in s.flags || w < 0)
    requires c.zero == (48 in s.flags && 45 !in s.flags && p < 0)
    requires IsField(out, lead, Zeros(zeros) + sig, c.width, c.minus, c.zero)
    ensures ShowsAsInteger(s, r, w, p, out)
  {
    assert ShowsInteger(s, r, w, p, lead, sig, out);
  }

  lemma ZerosAsked(s: Spec, p: int, b: IntegerBase, n: nat)
    requires AsksFor(s.precision, p, -1) && (IsSignedLetter(s.letter) || IsUnsignedLetter(s.letter))
    requires b == if IsSignedLetter(s.letter) then BASE_D else BaseOf(s.letter)
    ensures LeadingZeros(n, b, Meaning(s)) == Max(Min(if p < 0 then 1 else p, 63) - n, if s.letter == 111 && 35 in s.flags then 1 else 0)
  {
  }

  /** A format that is one integer conversion shows its argument as the type sees it: in base 10, 8 or 16 by its letter,
      whatever the flags, the width and the precision, which decide on sign, prefix, zeros, commas and padding. */
  lemma IntegerPrints(format: seq<byte>, args: seq<Arg>, s: Spec, v: int, r: int, w: int, p: int)
    requires WellWritten(s) && s.letter in [100, 105, 117, 111, 120, 88]
    requires format == [37] + SpecText(s) && args == SpecArgs(s) + [Number(v)]
    requires Wraps(s.t, s.letter == 100 || s.letter == 105, v, r)
    requires AsksFor(s.width, w, 0) && AsksFor(s.precision, p, -1)
    ensures ShowsAsInteger(s, r, w, p, Printed(format, args))
  {
    ConversionAlone(format, args, s, Number(v));
    WrapsIs(s.t, IsSignedLetter(s.letter), v, r);
    IntegerShows(s, r, w, p, if IsSignedLetter(s.letter) then BASE_D else BaseOf(s.letter));
    IntegerConverts(s, v, r);
  }

  lemma IntegerConverts(s: Spec, v: int, r: int)
    requires IsSignedLetter(s.letter) || IsUnsignedLetter(s.letter)
    requires r == if IsSignedLetter(s.letter) then AsSigned(v, s.t) else AsUnsigned(v, s.t)
    ensures Converted(s.letter, Meaning(s), s.t, [Number(v)]) ==
      if IsSignedLetter(s.letter) then Formatted(Abs(r), true, r < 0, BASE_D, Meaning(s))
      else Formatted(Abs(r), false, false, BaseOf(s.letter), Meaning(s))
  {
  }

  /** Any %d, with any flags but grouping and any width and precision, is read back by atoi as the value that the
      argument has in the type: the smallest one too. */
  lemma DecimalReadsBack(format: seq<byte>, args: seq<Arg>, s: Spec, v: int, r: int)
    requires WellWritten(s) && (s.letter == 100 || s.letter == 105) && 39 !in s.flags
    requires format == [37] + SpecText(s) && args == SpecArgs(s) + [Number(v)] && Wraps(s.t, true, v, r)
    ensures AtoiValue(Printed(format, args)) == r
  {
    ConversionAlone(format, args, s, Number(v));
    WrapsIs(s.t, true, v, r);
    IntegerConverts(s, v, r);
    DecimalReads(r, Meaning(s), Printed(format, args));
  }

  lemma DecimalReads(r: int, c: Conversion, out: seq<byte>)
    requires !c.group && out == Formatted(Abs(r), true, r < 0, BASE_D, c)
    ensures AtoiValue(out) == r
  {
    FormattedReadsBack(r, c);
  }

  /** %p shows an address as %#lx does, on the right of its field. */
  lemma PointerPrints(format: seq<byte>, args: seq<Arg>, s: Spec, v: int, w: int, p: int)
    requires WellWritten(s) && s.letter == 112
    requires format == [37] + SpecText(s) && args == SpecArgs(s) + [Number(v)]
    requires AsksFor(s.width, w, 0) && AsksFor(s.precision, p, -1)
    ensures ShowsAsInteger(Spec([35], Starred(Abs(w)), s.precision, Long, 120), v % 0x1_0000_0000, Abs(w), p, Printed(format, args))
  {
    var x := Spec([35], Starred(Abs(w)), s.precision, Long, 120);
    ConversionAlone(format, args, s, Number(v));
    PointerConverts(s, v, x, w, p);
    IntegerShows(x, v % 0x1_0000_0000, Abs(w), p, BASE_x);
  }

  lemma PointerConverts(s: Spec, v: int, x: Spec, w: int, p: int)
    requires s.letter == 112 && x == Spec([35], Starred(Abs(w)), s.precision, Long, 120)
    requires AsksFor(s.width, w, 0) && AsksFor(s.precision, p, -1)
    ensures Converted(s.letter, Meaning(s), s.t, [Number(v)]) ==
      Formatted(Abs(v % 0x1_0000_0000), false, false, BASE_x, Meaning(x))
  {
    assert Pointer(Meaning(s)) == Meaning(x);
  }

  /** %s shows a string, (null) for the null pointer, up to the precision if one is given, and %c a character, padded
      with blanks. */
  lemma StringPrints(format: seq<byte>, args: seq<Arg>, s: Spec, arg: Arg, text: seq<byte>, w: int, p: int)
    requires WellWritten(s) && (s.letter == 115 || s.letter == 99)
    requires format == [37] + SpecText(s) && args == SpecArgs(s) + [arg]
    requires AsksFor(s.width, w, 0) && AsksFor(s.precision, p, -1)
    requires s.letter == 115 ==> (arg.Text? && text == arg.s) || (arg.NoText? && text == [40, 110, 117, 108, 108, 41])
    requires s.letter == 99 ==> arg.Number? && text == [arg.v % 0x100]
    ensures var shown := if s.letter == 115 && 0 <= p < |text| then text[..p] else text;
      IsField(Printed(format, args), [], shown, Abs(w), 45 in s.flags || w < 0, false)
  {
    var shown := if s.letter == 115 && 0 <= p < |text| then text[..p] else text;
    ConversionAlone(format, args, s, arg);
    MeaningAsks(s, w, p);
    TextConverts(s, arg, text, p, shown);
    TextShows(s, shown, w, p, Printed(format, args));
  }

  lemma TextShows(s: Spec, shown: seq<byte>, w: int, p: int, out: seq<byte>)
    requires AsksFor(s.width, w, 0) && AsksFor(s.precision, p, -1) && out == Justified(shown, Meaning(s))
    ensures IsField(out, [], shown, Abs(w), 45 in s.flags || w < 0, false)
  {
    MeaningAsks(s, w, p);
    JustifiedIsField(shown, Meaning(s));
  }

  lemma TextConverts(s: Spec, arg: Arg, text: seq<byte>, p: int, shown: seq<byte>)
    requires s.letter == 115 || s.letter == 99
    requires s.letter == 115 ==> (arg.Text? && text == arg.s) || (arg.NoText? && text == [40, 110, 117, 108, 108, 41])
    requires s.letter == 99 ==> arg.Number? && text == [arg.v % 0x100]
    requires Meaning(s).precision == if p < 0 then -1 else p
    requires shown == if s.letter == 115 && 0 <= p < |text| then text[..p] else text
    ensures Converted(s.letter, Meaning(s), s.t, [arg]) == Justified(shown, Meaning(s))
  {
  }

  lemma JustifiedIsField(s: seq<byte>, c: Conversion)
    ensures IsField(Justified(s, c), [], s, c.width, c.minus, false)
  {
    assert [] + s == s && [] + (s + Spaces(c.width - |s|)) == s + Spaces(c.width - |s|);
  }

  /** So %0*d with the width -5 comes to nine characters for a number of one digit. */
  lemma PadsTwice(format: seq<byte>, args: seq<Arg>)
    requires format == [PERCENT, ZERO, STAR, 100] && args == [Number(-5), Number(7)]
    ensures |Printed(format, args)| == 9
  {
    var s := Spec([ZERO], Starred(-5), Absent, Int, 100);
    StarredText(s);
    ConversionAlone(format, args, s, Number(7));
    SevenInWidth(s);
  }

  lemma StarredText(s: Spec)
    requires s == Spec([ZERO], Starred(-5), Absent, Int, 100)
    ensures SpecText(s) == [ZERO, STAR, 100] && SpecArgs(s) == [Number(-5)]
  {
    assert TypeText(Int) + [100] == [100];
  }

  lemma SevenInWidth(s: Spec)
    requires s == Spec([ZERO], Starred(-5), Absent, Int, 100)
    ensures |Converted(s.letter, Meaning(s), s.t, [Number(7)])| == 9
  {
    SignedConverts(s, 7);
    FieldWidth(7, true, false, BASE_D, Meaning(s));
    OneDigit(Meaning(s));
  }

  lemma OneDigit(c: Conversion)
    requires c.precision < 0 && !c.pound && !c.group
    ensures |Buffer(7, BASE_D, c)| == 1
  {
  }

  lemma SignedConverts(s: Spec, v: int)
    requires IsSignedLetter(s.letter) && -(Span(s.t) / 2) <= v < Span(s.t) / 2
    ensures Converted(s.letter, Meaning(s), s.t, [Number(v)]) ==
      Formatted(if v < 0 then 0 - v else v, true, v < 0, BASE_D, Meaning(s))
  {
  }

  lemma UnsignedConverts(letter: byte, c: Conversion, t: Type, args: seq<Arg>, v: nat, b: IntegerBase)
    requires IsUnsignedLetter(letter) && v == AsUnsigned(NextNumber(args), t) && b == BaseOf(letter)
    ensures Converted(letter, c, t, args) == Formatted(v, false, false, b, c)
  {
  }

  lemma FirstOfSpec(s: Spec)
    requires WellWritten(s) && s.letter != PERCENT
    ensures SpecText(s)[0] != PERCENT
  {
    PartsAreApart(s, []);
  }

  /** Any other letter takes no argument and shows up in a notice. */
  lemma OthersAreRefused(format: seq<byte>, s: Spec)
    requires WellWritten(s) && s.letter != 37 && s.letter !in [100, 105, 117, 111, 120, 88, 112, 115, 99]
    requires format == [37] + SpecText(s)
    ensures Printed(format, SpecArgs(s)) == [60, 60, 110, 111, 32, 37] + [s.letter] +
      if s.letter in [102, 101, 69, 103, 71, 110] then [32, 105, 110, 32, 107, 101, 114, 110, 101, 108, 62, 62]
      else [32, 99, 111, 110, 118, 101, 114, 115, 105, 111, 110, 62, 62]
  {
    var p := Convert(s, NoText);
    assert PieceText(p) + [] == format && PieceArgs(p) + [] == SpecArgs(s);
    FirstOfSpec(s);
    ConversionFirst(s, NoText, [], []);
    assert PieceOutput(p) + [] == PieceOutput(p);
  }

  // ---------------------------------------------------------------- the code

  method ParseFlags(f: seq<byte>) returns (c: Conversion, rest: seq<byte>)
    ensures c == Settled(Flagged(NO_FLAGS, LeadingFlags(f))) && rest == f[|LeadingFlags(f)|..]
  {
    c, rest := NO_FLAGS, f;
    ghost var n := 0;
    while rest != [] && IsFlag(rest[0])
      invariant n <= |f| && rest == f[n..] && n + |LeadingFlags(rest)| == |LeadingFlags(f)|
      invariant Flagged(c, LeadingFlags(rest)) == Flagged(NO_FLAGS, LeadingFlags(f))
      decreases |rest|
    {
      assert LeadingFlags(rest)[1..] == LeadingFlags(rest[1..]);
      c := WithFlag(c, rest[0]);
      rest, n := rest[1..], n + 1;
    }
    if c.minus {
      c := c.(zero := false);
    }
    if c.plus {
      c := c.(space := false);
    }
  }

  /** isdigit and the accumulation of a decimal number. */
  method ParseDigits(f: seq<byte>) returns (n: int, rest: seq<byte>)
    ensures n == NumberOf(LeadingDigits(f), 10) && rest == f[DigitCount(f)..]
  {
    n, rest := 0, f;
    ghost var done: seq<byte> := [];
    assert done + LeadingDigits(f) == LeadingDigits(f);
    while rest != [] && IsDigit(rest[0])
      invariant |done| <= |f| && rest == f[|done|..] && n == NumberOf(done, 10)
      invariant done + LeadingDigits(rest) == LeadingDigits(f)
      decreases |rest|
    {
      NumberAppend(done, rest[0], 10);
      Shifted(done, rest[0], LeadingDigits(rest[1..]));
      n := n * 10 + (rest[0] - ZERO);
      done := done + [rest[0]];
      rest := rest[1..];
    }
    assert done + [] == done;
  }

  method ParseCountOrStar(f: seq<byte>, args: seq<Arg>) returns (n: int, rest: seq<byte>, args': seq<Arg>)
    ensures (n, rest, args') == ParseCount(f, args)
  {
    args' := args;
    if f != [] && f[0] == STAR {
      n, rest, args' := NextNumber(args), f[1..], Rest(args);
    } else {
      n, rest := ParseDigits(f);
    }
  }

  method ParseModifier(f: seq<byte>) returns (t: Type, rest: seq<byte>)
    ensures t == ParseType(f).0 && rest == f[ParseType(f).1..]
  {
    t, rest := Int, f;
    if f != [] {
      if f[0] == 104 {
        rest := rest[1..];
        t := Short;
        if rest != [] && rest[0] == 104 {
          rest := rest[1..];
          t := Char;
        }
      } else if f[0] == 108 {
        rest := rest[1..];
        t := Long;
        if rest != [] && rest[0] == 108 {
          rest := rest[1..];
          t := LongLong;
        }
      } else if f[0] == 106 || f[0] == 116 || f[0] == 122 {
        rest := rest[1..];
        t := if f[0] == 106 then IntMax else if f[0] == 116 then PtrDiff else SizeT;
      }
    }
  }

  method ParsePoint(f: seq<byte>, args: seq<Arg>) returns (precision: int, rest: seq<byte>, args': seq<Arg>)
    ensures (precision, rest, args') == ParsePrecision(f, args)
  {
    precision, rest, args' := -1, f, args;
    if f != [] && f[0] == DOT {
      precision, rest, args' := ParseCountOrStar(f[1..], args);
    }
  }

  method ParseConversion(f: seq<byte>, args: seq<Arg>) returns (p: Parsed)
    ensures p == Parse(f, args)
  {
    var c, f0 := ParseFlags(f);
    var width, f1, args1 := ParseCountOrStar(f0, args);
    c := c.(width := width);
    if c.width < 0 {
      c := c.(width := -c.width, minus := true);
    }
    var precision, f2, args2 := ParsePoint(f1, args1);
    c := c.(precision := if precision < 0 then -1 else precision);
    if c.precision >= 0 {
      c := c.(zero := false);
    }
    var t, f3 := ParseModifier(f2);
    ParseIs(f, args, LeadingFlags(f), width, f1, args1, precision, f2, args2, t, f3);
    p := Parsed(c, t, f3, args2);
  }

  method FormatString(s: seq<byte>, c: Conversion) returns (out: seq<byte>)
    ensures out == Justified(s, c)
  {
    out := [];
    if c.width > |s| && !c.minus {
      out := OutputDup(out, SPACE, c.width - |s|);
    }
    for i := 0 to |s|
      invariant out == (if c.minus then [] else Spaces(c.width - |s|)) + s[..i]
    {
      out := out + [s[i]];
    }
    assert s[..|s|] == s;
    if c.width > |s| && c.minus {
      out := OutputDup(out, SPACE, c.width - |s|);
    }
  }

  method OutputConversion(letter: byte, c: Conversion, t: Type, args: seq<Arg>) returns (out: seq<byte>)
    ensures out == Converted(letter, c, t, args)
  {
    if IsSignedLetter(letter) {
      var value := AsSigned(NextNumber(args), t);
      out := FormatInteger(if value < 0 then -value else value, true, value < 0, BASE_D, c);
    } else if IsUnsignedLetter(letter) {
      out := FormatInteger(AsUnsigned(NextNumber(args), t), false, false, BaseOf(letter), c);
    } else if letter == 99 {
      out := FormatString([AsUnsigned(NextNumber(args), Char) % 256], c);
    } else if letter == 115 {
      out := FormatString(Limited(args, c.precision), c);
    } else if letter == 112 {
      out := FormatInteger(AsUnsigned(NextNumber(args), Long), false, false, BASE_x, Pointer(c));
    } else {
      out := NO + [letter] + if IsRefused(letter) then IN_KERNEL else CONVERSION;
    }
  }

  /** __vprintf, with the output collected. */
  method Vprintf(format: seq<byte>, args: seq<Arg>) returns (out: seq<byte>)
    ensures out == Printed(format, args)
  {
    out := [];
    var f, rest := format, args;
    while f != []
      invariant out + Printed(f, rest) == Printed(format, args)
      decreases |f|
    {
      ghost var was := out;
      if f[0] != PERCENT {
        out := out + [f[0]];
        Shifted(was, f[0], Printed(f[1..], rest));
        f := f[1..];
      } else if |f| > 1 && f[1] == PERCENT {
        out := out + [PERCENT];
        Shifted(was, PERCENT, Printed(f[2..], rest));
        f := f[2..];
      } else {
        ParseShortens(f[1..], rest);
        var p := ParseConversion(f[1..], rest);
        if p.rest == [] {
          assert out + [] == out;
          return;
        }
        var text := OutputConversion(p.rest[0], p.c, p.t, p.args);
        out := out + text;
        assert was + (text + Printed(p.rest[1..], ArgsAfter(p.rest[0], p.args)))
            == (was + text) + Printed(p.rest[1..], ArgsAfter(p.rest[0], p.args));
        f, rest := p.rest[1..], ArgsAfter(p.rest[0], p.args);
      }
    }
    assert out + [] == out;
  }

  /** snprintf: the first characters that fit of what the format comes to, a null byte, and the length it would have. */
  method Snprintf(memory: array<byte>, start: nat, bufSize: nat, format: seq<byte>, args: seq<Arg>) returns (length: int)
    requires start + bufSize <= memory.Length && bufSize <= INT_MAX && |Printed(format, args)| <= INT_MAX
    modifies memory
    ensures length == |Printed(format, args)|
    ensures memory[..] == Stored(old(memory[..]), start, bufSize, Printed(format, args))
  {
    var text := Vprintf(format, args);
    length := Vsnprintf(memory, start, bufSize, text);
  }
}

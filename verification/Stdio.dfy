/** Formatting integers, storing formatted output in a buffer, and reading decimal numbers back. Characters are bytes. */
module Stdio {
  import opened Common

  const TAB: byte := 9
  const SPACE: byte := 32
  const PLUS_SIGN: byte := 43
  const COMMA: byte := 44
  const MINUS_SIGN: byte := 45
  const ZERO: byte := 48
  const BUF_SIZE := 64
  const UINT64 := 0x1_0000_0000_0000_0000

  /** Base, letter for the alternate form (0 if none), and digits to a group. */
  datatype IntegerBase = IntegerBase(base: nat, x: byte, letters: byte, group: nat)

  const BASE_D := IntegerBase(10, 0, 97, 3)
  const BASE_O := IntegerBase(8, 0, 97, 3)
  const BASE_x := IntegerBase(16, 120, 97, 4)
  const BASE_X := IntegerBase(16, 88, 65, 4)

  predicate IsBase(b: IntegerBase) {
    b == BASE_D || b == BASE_O || b == BASE_x || b == BASE_X
  }

  /** A parsed conversion; `precision` is -1 if none was given. */
  datatype Conversion = Conversion(
    minus: bool, plus: bool, space: bool, pound: bool, zero: bool, group: bool, width: int, precision: int)

  // ---------------------------------------------------------------- digits

  function Digit(d: nat, b: IntegerBase): byte
    requires d < b.base && IsBase(b)
  {
    if d < 10 then ZERO + d else b.letters + (d - 10)
  }

  predicate IsDigit(c: byte) {
    ZERO <= c < ZERO + 10
  }

  function DigitValue(c: byte): nat {
    if IsDigit(c) then c - ZERO else if 97 <= c < 103 then c - 87 else if 65 <= c < 71 then c - 55 else 0
  }

  lemma DigitReadsBack(d: nat, b: IntegerBase)
    requires d < b.base && IsBase(b)
    ensures DigitValue(Digit(d, b)) == d && Digit(d, b) != COMMA && (b.base <= 10 ==> IsDigit(Digit(d, b)))
  {
  }

  /** The digits of `value`, least significant first, as they go into the buffer after `cnt` earlier ones. */
  function Digits(value: nat, b: IntegerBase, group: bool, cnt: nat): seq<byte>
    requires IsBase(b)
    decreases value
  {
    if value == 0 then []
    else
      (if group && cnt > 0 && cnt % b.group == 0 then [COMMA] else []) + [Digit(value % b.base, b)]
        + Digits(value / b.base, b, group, cnt + 1)
  }

  function Zeros(n: int): seq<byte> { if n <= 0 then [] else seq(n, _ => ZERO) }

  function Spaces(n: int): seq<byte> { if n <= 0 then [] else seq(n, _ => SPACE) }

  /** The buffer once filled, least significant digit first. */
  function Buffer(value: nat, b: IntegerBase, c: Conversion): (r: seq<byte>)
    requires IsBase(b)
  {
    var d := Digits(value, b, c.group, 0);
    var precision := if c.precision < 0 then 1 else c.precision;
    var p := d + Zeros(Min(precision, BUF_SIZE - 1) - |d|);
    if c.pound && b.base == 8 && (p == [] || p[|p| - 1] != ZERO) then p + [ZERO] else p
  }

  function Reverse(s: seq<byte>): (r: seq<byte>)
    ensures |r| == |s|
  {
    if s == [] then [] else Reverse(s[1..]) + [s[0]]
  }

  function Sign(isSigned: bool, negative: bool, c: Conversion): seq<byte> {
    if !isSigned then []
    else if c.plus then [if negative then MINUS_SIGN else PLUS_SIGN]
    else if c.space then [if negative then MINUS_SIGN else SPACE]
    else if negative then [MINUS_SIGN] else []
  }

  function AltPrefix(value: nat, b: IntegerBase, c: Conversion): seq<byte> {
    if c.pound && value != 0 && b.x != 0 then [ZERO, b.x] else []
  }

  /** What comes before the digits. */
  function Front(pad: int, sign: seq<byte>, x: seq<byte>, c: Conversion): seq<byte> {
    (if !c.minus && !c.zero then Spaces(pad) else []) + sign + x + (if c.zero then Zeros(pad) else [])
  }

  /** What format_integer puts out. */
  function Formatted(value: nat, isSigned: bool, negative: bool, b: IntegerBase, c: Conversion): seq<byte>
    requires IsBase(b)
  {
    var buf, sign, x := Buffer(value, b, c), Sign(isSigned, negative, c), AltPrefix(value, b, c);
    var pad := c.width - |buf| - |x| - |sign|;
    Front(pad, sign, x, c) + Reverse(buf) + (if c.minus then Spaces(pad) else [])
  }

  // ---------------------------------------------------------------- the buffer is large enough

  function Pow8(k: nat): nat {
    if k == 0 then 1 else 8 * Pow8(k - 1)
  }

  lemma {:induction false} DigitsFit(value: nat, b: IntegerBase, group: bool, cnt: nat, k: nat)
    requires IsBase(b) && value < Pow8(k)
    ensures |Digits(value, b, group, cnt)| <= 2 * k
    decreases k
  {
    if value > 0 {
      assert k > 0 && value / b.base < Pow8(k - 1);
      DigitsFit(value / b.base, b, group, cnt + 1, k - 1);
    }
  }

  lemma Pow8Of22()
    ensures Pow8(22) >= UINT64
  {
    assert Pow8(6) == 0x4_0000;
    assert Pow8(12) == 0x10_0000_0000;
    assert Pow8(18) == 0x40_0000_0000_0000;
  }

  /** Whatever the value, base, flags and precision, the digits fit the buffer. */
  lemma BufferFits(value: nat, b: IntegerBase, c: Conversion)
    requires IsBase(b) && value < UINT64
    ensures |Digits(value, b, c.group, 0)| < BUF_SIZE && |Buffer(value, b, c)| <= BUF_SIZE
  {
    Pow8Of22();
    DigitsFit(value, b, c.group, 0, 22);
  }

  // ---------------------------------------------------------------- the digits read back

  /** The number written by `s`, most significant digit first; commas are passed over. */
  function NumberOf(s: seq<byte>, base: nat): nat {
    if s == [] then 0
    else if s[|s| - 1] == COMMA then NumberOf(s[..|s| - 1], base)
    else NumberOf(s[..|s| - 1], base) * base + DigitValue(s[|s| - 1])
  }

  /** The same read from the other end. */
  function NumberLow(s: seq<byte>, base: nat): nat {
    if s == [] then 0
    else if s[0] == COMMA then NumberLow(s[1..], base)
    else NumberLow(s[1..], base) * base + DigitValue(s[0])
  }

  lemma NumberAppend(s: seq<byte>, c: byte, base: nat)
    ensures NumberOf(s + [c], base) == if c == COMMA then NumberOf(s, base) else NumberOf(s, base) * base + DigitValue(c)
  {
    assert (s + [c])[..|s|] == s;
  }

  lemma {:induction false} ReverseReads(s: seq<byte>, base: nat)
    ensures NumberOf(Reverse(s), base) == NumberLow(s, base)
  {
    if s != [] {
      ReverseReads(s[1..], base);
      NumberAppend(Reverse(s[1..]), s[0], base);
    }
  }

  lemma {:induction false} DigitsRead(value: nat, b: IntegerBase, group: bool, cnt: nat)
    requires IsBase(b)
    ensures NumberLow(Digits(value, b, group, cnt), b.base) == value
    decreases value
  {
    if value > 0 {
      var rest := Digits(value / b.base, b, group, cnt + 1);
      var digit := Digit(value % b.base, b);
      assert NumberLow([digit] + rest, b.base) == value by {
        DigitsRead(value / b.base, b, group, cnt + 1);
        DigitReadsBack(value % b.base, b);
        DivMod(value, b);
        NumberLowCons(digit, rest, b.base);
      }
      NumberLowCons(COMMA, [digit] + rest, b.base);
      DigitsUnfold(value, b, group, cnt, digit, rest);
    }
  }

  lemma DigitsUnfold(value: nat, b: IntegerBase, group: bool, cnt: nat, digit: byte, rest: seq<byte>)
    requires IsBase(b) && value > 0 && digit == Digit(value % b.base, b)
    requires rest == Digits(value / b.base, b, group, cnt + 1)
    ensures Digits(value, b, group, cnt) ==
      if group && cnt > 0 && cnt % b.group == 0 then [COMMA] + ([digit] + rest) else [digit] + rest
  {
  }

  lemma NumberLowCons(c: byte, s: seq<byte>, base: nat)
    ensures NumberLow([c] + s, base) == if c == COMMA then NumberLow(s, base) else NumberLow(s, base) * base + DigitValue(c)
  {
    assert ([c] + s)[1..] == s;
  }

  lemma DivMod(value: nat, b: IntegerBase)
    requires IsBase(b)
    ensures value / b.base * b.base + value % b.base == value
  {
  }

  lemma {:induction false} HighZeros(s: seq<byte>, n: int, base: nat)
    ensures NumberLow(s + Zeros(n), base) == NumberLow(s, base)
    decreases |s| + if n > 0 then n else 0
  {
    if s != [] {
      assert (s + Zeros(n))[1..] == s[1..] + Zeros(n);
      HighZeros(s[1..], n, base);
    } else if n > 0 {
      assert ([] + Zeros(n))[1..] == [] + Zeros(n - 1);
      HighZeros([], n - 1, base);
    } else {
      assert s + Zeros(n) == s;
    }
  }

  /** In any base, with or without grouping, whatever the precision, the digits put out read back as the value. */
  lemma BufferReadsBack(value: nat, b: IntegerBase, c: Conversion)
    requires IsBase(b)
    ensures NumberOf(Reverse(Buffer(value, b, c)), b.base) == value
  {
    var d := Digits(value, b, c.group, 0);
    var precision := if c.precision < 0 then 1 else c.precision;
    var n := Min(precision, BUF_SIZE - 1) - |d|;
    DigitsRead(value, b, c.group, 0);
    HighZeros(d, n, b.base);
    HighZeros(d + Zeros(n), 1, b.base);
    assert Zeros(1) == [ZERO];
    ReverseReads(Buffer(value, b, c), b.base);
  }

  // ---------------------------------------------------------------- what the digits look like

  /** The character at position `at` from the right of a grouped or plain number in base `b`. */
  predicate LooksAt(ch: byte, b: IntegerBase, group: bool, at: nat)
    requires b.group > 0
  {
    if group && at % (b.group + 1) == b.group then ch == COMMA
    else ZERO <= ch < ZERO + Min(b.base, 10) || (b.base > 10 && b.letters <= ch < b.letters + (b.base - 10))
  }

  /** `s`, least significant digit first, from position `at` on. */
  predicate Looks(s: seq<byte>, b: IntegerBase, group: bool, at: nat)
    requires b.group > 0
  {
    forall k :: 0 <= k < |s| ==> LooksAt(s[k], b, group, at + k)
  }

  /** How many characters `cnt` digits take with the commas between them. */
  function Chars(cnt: nat, group: nat): nat
    requires group > 0
  {
    if cnt == 0 then 0 else cnt + (cnt - 1) / group
  }

  lemma CharsNext(cnt: nat, group: nat)
    requires group == 3 || group == 4
    ensures var comma := cnt > 0 && cnt % group == 0;
      && (comma <==> Chars(cnt, group) % (group + 1) == group)
      && Chars(cnt + 1, group) == Chars(cnt, group) + if comma then 2 else 1
  {
    if group == 3 {
      CharsNextOf3(cnt);
    } else {
      CharsNextOf4(cnt);
    }
  }

  lemma CharsNextOf3(cnt: nat)
    ensures cnt > 0 && cnt % 3 == 0 <==> Chars(cnt, 3) % 4 == 3
    ensures Chars(cnt + 1, 3) == Chars(cnt, 3) + if cnt > 0 && cnt % 3 == 0 then 2 else 1
  {
  }

  lemma CharsNextOf4(cnt: nat)
    ensures cnt > 0 && cnt % 4 == 0 <==> Chars(cnt, 4) % 5 == 4
    ensures Chars(cnt + 1, 4) == Chars(cnt, 4) + if cnt > 0 && cnt % 4 == 0 then 2 else 1
  {
  }

  lemma LooksCons(ch: byte, s: seq<byte>, b: IntegerBase, group: bool, at: nat)
    requires b.group > 0 && LooksAt(ch, b, group, at) && Looks(s, b, group, at + 1)
    ensures Looks([ch] + s, b, group, at)
  {
    forall k | 0 <= k < |s| + 1 ensures LooksAt(([ch] + s)[k], b, group, at + k) {
      if k > 0 {
        assert LooksAt(s[k - 1], b, group, at + 1 + (k - 1));
      }
    }
  }

  /** Every digit is one of its base, in the case of its letter, and a grouped number has commas between the groups and
      nowhere else. */
  lemma {:induction false} DigitsLook(value: nat, b: IntegerBase, group: bool, cnt: nat, at: nat)
    requires IsBase(b) && (group ==> at == Chars(cnt, b.group))
    ensures Looks(Digits(value, b, group, cnt), b, group, at)
    decreases value
  {
    if value > 0 {
      var comma := group && cnt > 0 && cnt % b.group == 0;
      var rest := Digits(value / b.base, b, group, cnt + 1);
      CharsNext(cnt, b.group);
      DigitsLook(value / b.base, b, group, cnt + 1, at + if comma then 2 else 1);
      NextLooks(value % b.base, b, group, comma, at, rest);
      DigitsUnfold(value, b, group, cnt, Digit(value % b.base, b), rest);
    }
  }

  lemma NextLooks(d: nat, b: IntegerBase, group: bool, comma: bool, at: nat, rest: seq<byte>)
    requires IsBase(b) && d < b.base && (comma <==> group && at % (b.group + 1) == b.group)
    requires Looks(rest, b, group, at + if comma then 2 else 1)
    ensures Looks(if comma then [COMMA] + ([Digit(d, b)] + rest) else [Digit(d, b)] + rest, b, group, at)
  {
    if comma {
      CommaThenDigit(d, b, at, rest);
    } else {
      LooksCons(Digit(d, b), rest, b, group, at);
    }
  }

  lemma CommaThenDigit(d: nat, b: IntegerBase, at: nat, rest: seq<byte>)
    requires IsBase(b) && d < b.base && at % (b.group + 1) == b.group && Looks(rest, b, true, at + 2)
    ensures Looks([COMMA] + ([Digit(d, b)] + rest), b, true, at)
  {
    NotComma(at, b.group);
    LooksCons(Digit(d, b), rest, b, true, at + 1);
    LooksCons(COMMA, [Digit(d, b)] + rest, b, true, at);
  }

  lemma NotComma(at: nat, group: nat)
    requires (group == 3 || group == 4) && at % (group + 1) == group
    ensures (at + 1) % (group + 1) != group
  {
    if group == 3 {
    } else {
    }
  }

  /** The most significant one is not a zero. */
  lemma {:induction false} NoLeadingZero(value: nat, b: IntegerBase, group: bool, cnt: nat)
    requires IsBase(b)
    ensures var d := Digits(value, b, group, cnt); (d == [] <==> value == 0) && (d != [] ==> d[|d| - 1] != ZERO)
    decreases value
  {
    if value > 0 {
      var rest := Digits(value / b.base, b, group, cnt + 1);
      var digit := Digit(value % b.base, b);
      NoLeadingZero(value / b.base, b, group, cnt + 1);
      DigitsUnfold(value, b, group, cnt, digit, rest);
      if rest == [] {
        assert value % b.base == value;
      }
    }
  }

  lemma {:induction false} ReverseAppend(a: seq<byte>, b: seq<byte>)
    ensures Reverse(a + b) == Reverse(b) + Reverse(a)
  {
    if a == [] {
      assert a + b == b;
    } else {
      assert (a + b)[1..] == a[1..] + b;
      ReverseAppend(a[1..], b);
    }
  }

  lemma {:induction false} ReverseZeros(n: int)
    ensures Reverse(Zeros(n)) == Zeros(n)
    decreases if n > 0 then n else 0
  {
    if n > 0 {
      assert Zeros(n)[1..] == Zeros(n - 1) && Zeros(n - 1) + [ZERO] == Zeros(n);
      ReverseZeros(n - 1);
    }
  }

  lemma {:induction false} ReverseAt(s: seq<byte>, k: nat)
    requires k < |s|
    ensures Reverse(s)[k] == s[|s| - 1 - k]
  {
    if k < |s| - 1 {
      ReverseAt(s[1..], k);
    }
  }

  /** The digits of a number without superfluous zeros, most significant first: they read back as it, and are grouped
      from the right just if asked. */
  ghost predicate IsNumeral(sig: seq<byte>, value: nat, b: IntegerBase, group: bool)
    requires b.group > 0
  {
    && NumberOf(sig, b.base) == value && (sig == [] || sig[0] != ZERO)
    && forall k :: 0 <= k < |sig| ==> LooksAt(sig[k], b, group, |sig| - 1 - k)
  }

  /** How many zeros come before `n` such digits: as many as the precision is short of, which is 1 if none is given and
      at most 63, and one in any case for the alternate form in base 8. */
  function LeadingZeros(n: nat, b: IntegerBase, c: Conversion): nat {
    Max(Min(if c.precision < 0 then 1 else c.precision, 63) - n, if c.pound && b.base == 8 then 1 else 0)
  }

  lemma DigitsAreNumeral(value: nat, b: IntegerBase, group: bool, d: seq<byte>)
    requires IsBase(b) && d == Digits(value, b, group, 0)
    ensures IsNumeral(Reverse(d), value, b, group)
  {
    DigitsRead(value, b, group, 0);
    ReverseReads(d, b.base);
    NoLeadingZero(value, b, group, 0);
    DigitsLook(value, b, group, 0, 0);
    forall k | 0 <= k < |d| ensures Reverse(d)[k] == d[|d| - 1 - k] && LooksAt(Reverse(d)[k], b, group, |d| - 1 - k) {
      ReverseAt(d, k);
      assert LooksAt(d[|d| - 1 - k], b, group, 0 + (|d| - 1 - k));
    }
  }

  /** Such digits after that many zeros. */
  ghost predicate IsPutOut(number: seq<byte>, value: nat, b: IntegerBase, c: Conversion)
    requires b.group > 0
  {
    exists sig :: IsNumeral(sig, value, b, c.group) && number == Zeros(LeadingZeros(|sig|, b, c)) + sig
  }

  /** The number put out, without a sign, a prefix or padding. */
  lemma NumberPutOut(value: nat, b: IntegerBase, c: Conversion)
    requires IsBase(b)
    ensures IsPutOut(Reverse(Buffer(value, b, c)), value, b, c)
  {
    var d := Digits(value, b, c.group, 0);
    var z := LeadingZeros(|d|, b, c);
    NoLeadingZero(value, b, c.group, 0);
    DigitsAreNumeral(value, b, c.group, d);
    BufferIs(d, z, Buffer(value, b, c), b, c);
    ReverseAppend(d, Zeros(z));
    ReverseZeros(z);
  }

  lemma BufferIs(d: seq<byte>, z: nat, buf: seq<byte>, b: IntegerBase, c: Conversion)
    requires z == LeadingZeros(|d|, b, c) && (d != [] ==> d[|d| - 1] != ZERO)
    requires var p := d + Zeros(Min(if c.precision < 0 then 1 else c.precision, BUF_SIZE - 1) - |d|);
      buf == if c.pound && b.base == 8 && (p == [] || p[|p| - 1] != ZERO) then p + [ZERO] else p
    ensures buf == d + Zeros(z)
  {
    var n := Min(if c.precision < 0 then 1 else c.precision, BUF_SIZE - 1) - |d|;
    if n > 0 {
      assert (d + Zeros(n))[|d + Zeros(n)| - 1] == ZERO;
    } else {
      assert d + Zeros(n) == d && Zeros(1) == [ZERO];
    }
  }

  /** `number` after `lead` in a field: as it is if it fills the width, else with blanks before or after it or zeros
      between the two, or both of the latter when both pads are asked for. */
  ghost predicate IsField(out: seq<byte>, lead: seq<byte>, number: seq<byte>, width: int, left: bool, zero: bool) {
    var n := width - |lead| - |number|;
    out == if n <= 0 then lead + number
           else if !left && !zero then Spaces(n) + (lead + number)
           else if !left then lead + (Zeros(n) + number)
           else if !zero then lead + (number + Spaces(n))
           else lead + (Zeros(n) + (number + Spaces(n)))
  }

  lemma FormattedIsField(value: nat, isSigned: bool, negative: bool, b: IntegerBase, c: Conversion)
    requires IsBase(b)
    ensures IsField(Formatted(value, isSigned, negative, b, c), Sign(isSigned, negative, c) + AltPrefix(value, b, c),
                    Reverse(Buffer(value, b, c)), c.width, c.minus, c.zero)
  {
    var sign, x := Sign(isSigned, negative, c), AltPrefix(value, b, c);
    FieldFrom(sign, x, Reverse(Buffer(value, b, c)), c.width - |Buffer(value, b, c)| - |x| - |sign|, c,
              Formatted(value, isSigned, negative, b, c));
  }

  lemma FieldFrom(sign: seq<byte>, x: seq<byte>, number: seq<byte>, pad: int, c: Conversion, out: seq<byte>)
    requires pad == c.width - |number| - |x| - |sign|
    requires out == Front(pad, sign, x, c) + number + (if c.minus then Spaces(pad) else [])
    ensures IsField(out, sign + x, number, c.width, c.minus, c.zero)
  {
  }

  // ---------------------------------------------------------------- atoi

  predicate IsSpace(c: byte) {
    c == SPACE || TAB <= c <= 13
  }

  function SkipSpaces(s: seq<byte>): seq<byte> {
    if s != [] && IsSpace(s[0]) then SkipSpaces(s[1..]) else s
  }

  function LeadingDigits(s: seq<byte>): seq<byte> {
    if s != [] && IsDigit(s[0]) then [s[0]] + LeadingDigits(s[1..]) else []
  }

  function AfterSign(s: seq<byte>): seq<byte> {
    if s != [] && (s[0] == PLUS_SIGN || s[0] == MINUS_SIGN) then s[1..] else s
  }

  /** The number atoi makes of a string. */
  function AtoiValue(s: seq<byte>): int {
    var t := SkipSpaces(s);
    var n := NumberOf(LeadingDigits(AfterSign(t)), 10);
    if t != [] && t[0] == MINUS_SIGN then 0 - n else n
  }

  lemma {:induction false} SpacesSkipped(n: int, s: seq<byte>)
    ensures SkipSpaces(Spaces(n) + s) == SkipSpaces(s)
  {
    if n > 0 {
      assert (Spaces(n) + s)[1..] == Spaces(n - 1) + s;
      SpacesSkipped(n - 1, s);
    } else {
      assert Spaces(n) + s == s;
    }
  }

  predicate AllDigits(s: seq<byte>) {
    forall k :: 0 <= k < |s| ==> IsDigit(s[k])
  }

  lemma {:induction false} DigitsLead(d: seq<byte>, rest: seq<byte>)
    requires AllDigits(d) && (rest == [] || !IsDigit(rest[0]))
    ensures LeadingDigits(d + rest) == d
  {
    if d == [] {
      assert d + rest == rest;
    } else {
      assert (d + rest)[1..] == d[1..] + rest;
      DigitsLead(d[1..], rest);
    }
  }

  lemma {:induction false} DigitsAreDigits(value: nat, cnt: nat)
    ensures AllDigits(Digits(value, BASE_D, false, cnt))
    decreases value
  {
    if value > 0 {
      DigitsAreDigits(value / 10, cnt + 1);
      DigitReadsBack(value % 10, BASE_D);
    }
  }

  lemma {:induction false} ReverseKeepsDigits(s: seq<byte>)
    requires AllDigits(s)
    ensures AllDigits(Reverse(s))
  {
    if s != [] {
      ReverseKeepsDigits(s[1..]);
    }
  }

  lemma {:induction false} LowZeros(n: int, s: seq<byte>, base: nat)
    ensures NumberOf(Zeros(n) + s, base) == NumberOf(s, base)
    decreases |s| + if n > 0 then n else 0
  {
    if s != [] {
      assert (Zeros(n) + s)[..|Zeros(n) + s| - 1] == Zeros(n) + s[..|s| - 1];
      LowZeros(n, s[..|s| - 1], base);
    } else if n > 0 {
      assert (Zeros(n) + [])[..n - 1] == Zeros(n - 1) + [];
      LowZeros(n - 1, [], base);
    } else {
      assert Zeros(n) + s == s;
    }
  }

  /** A string of blanks, a sign, digits and blanks reads as the signed number. */
  lemma SignedNumberReads(blanks: int, sign: seq<byte>, digits: seq<byte>, after: int)
    requires AllDigits(digits)
    requires sign == [] || sign == [PLUS_SIGN] || sign == [MINUS_SIGN] || sign == [SPACE]
    ensures AtoiValue(Spaces(blanks) + (sign + (digits + Spaces(after)))) ==
      if sign == [MINUS_SIGN] then 0 - NumberOf(digits, 10) else NumberOf(digits, 10)
  {
    var rest := digits + Spaces(after);
    SpacesSkipped(blanks, sign + rest);
    DigitsLead(digits, Spaces(after));
    if sign == [] {
      assert sign + rest == rest;
      UnsignedReads(digits, after);
    } else if sign == [SPACE] {
      assert (sign + rest)[1..] == rest;
      UnsignedReads(digits, after);
    } else {
      assert (sign + rest)[1..] == rest;
    }
  }

  /** In general it passes over any white space, takes one sign, and reads the digits up to the first character that is
      none. */
  lemma AtoiReads(white: seq<byte>, sign: seq<byte>, digits: seq<byte>, rest: seq<byte>)
    requires forall k :: 0 <= k < |white| ==> white[k] == 32 || 9 <= white[k] <= 13
    requires sign == [] || sign == [43] || sign == [45]
    requires digits != [] && (forall k :: 0 <= k < |digits| ==> 48 <= digits[k] <= 57)
    requires rest == [] || !(48 <= rest[0] <= 57)
    ensures AtoiValue(white + (sign + (digits + rest))) == if sign == [45] then 0 - NumberOf(digits, 10) else NumberOf(digits, 10)
  {
    var tail := digits + rest;
    assert tail[0] == digits[0];
    WhiteIsSkipped(white, sign + tail);
    SignIsTaken(sign, tail);
    DigitsLead(digits, rest);
  }

  lemma SignIsTaken(sign: seq<byte>, tail: seq<byte>)
    requires sign == [] || sign == [43] || sign == [45]
    requires tail != [] && 48 <= tail[0] <= 57
    ensures var t := sign + tail;
      SkipSpaces(t) == t && AfterSign(t) == tail && t != [] && (t[0] == MINUS_SIGN <==> sign == [45])
  {
    if sign == [] {
      assert sign + tail == tail;
    } else {
      assert (sign + tail)[0] == sign[0] && (sign + tail)[1..] == tail;
    }
  }

  lemma {:induction false} WhiteIsSkipped(white: seq<byte>, t: seq<byte>)
    requires forall k :: 0 <= k < |white| ==> white[k] == 32 || 9 <= white[k] <= 13
    ensures SkipSpaces(white + t) == SkipSpaces(t)
  {
    if white == [] {
      assert white + t == t;
    } else {
      assert (white + t)[1..] == white[1..] + t;
      WhiteIsSkipped(white[1..], t);
    }
  }

  lemma UnsignedReads(digits: seq<byte>, after: int)
    requires AllDigits(digits)
    ensures var t := SkipSpaces(digits + Spaces(after));
      LeadingDigits(AfterSign(t)) == digits && (t != [] ==> t[0] != MINUS_SIGN)
  {
    DigitsLead(digits, Spaces(after));
    if digits == [] {
      assert digits + Spaces(after) == Spaces(after) + [];
      SpacesSkipped(after, []);
    }
  }

  lemma Regroup(a: seq<byte>, sign: seq<byte>, x: seq<byte>, z: seq<byte>, r: seq<byte>, after: seq<byte>)
    requires x == []
    ensures a + sign + x + z + r + after == a + (sign + ((z + r) + after))
  {
  }

  /** What %d puts out: perhaps blanks, perhaps a sign, digits that read as the value, and perhaps blanks. */
  lemma DecimalParts(value: nat, negative: bool, c: Conversion) returns (blanks: int, digits: seq<byte>, after: int)
    requires !c.group
    ensures AllDigits(digits) && NumberOf(digits, 10) == value
    ensures Formatted(value, true, negative, BASE_D, c) ==
      Spaces(blanks) + (Sign(true, negative, c) + (digits + Spaces(after)))
  {
    var buf, sign, x := Buffer(value, BASE_D, c), Sign(true, negative, c), AltPrefix(value, BASE_D, c);
    var pad := c.width - |buf| - |x| - |sign|;
    var zeros := if c.zero then Zeros(pad) else [];
    blanks, after := if !c.minus && !c.zero then pad else 0, if c.minus then pad else 0;
    digits := zeros + Reverse(buf);
    BufferIsDigits(value, c);
    BufferReadsBack(value, BASE_D, c);
    if c.zero {
      LowZeros(pad, Reverse(buf), 10);
    } else {
      assert digits == Reverse(buf);
    }
    FormattedIs(value, negative, c, pad, blanks, after, zeros);
  }

  lemma FormattedIs(value: nat, negative: bool, c: Conversion, pad: int, blanks: int, after: int, zeros: seq<byte>)
    requires pad == c.width - |Buffer(value, BASE_D, c)| - |AltPrefix(value, BASE_D, c)| - |Sign(true, negative, c)|
    requires blanks == (if !c.minus && !c.zero then pad else 0) && after == if c.minus then pad else 0
    requires zeros == if c.zero then Zeros(pad) else []
    ensures Formatted(value, true, negative, BASE_D, c) ==
      Spaces(blanks) + (Sign(true, negative, c) + ((zeros + Reverse(Buffer(value, BASE_D, c))) + Spaces(after)))
  {
    var buf, sign, x := Buffer(value, BASE_D, c), Sign(true, negative, c), AltPrefix(value, BASE_D, c);
    Regroup(Spaces(blanks), sign, x, zeros, Reverse(buf), Spaces(after));
  }

  lemma BufferIsDigits(value: nat, c: Conversion)
    requires !c.group
    ensures AllDigits(Reverse(Buffer(value, BASE_D, c)))
  {
    DigitsAreDigits(value, 0);
    ReverseKeepsDigits(Buffer(value, BASE_D, c));
  }

  /** %d of any number reads back with atoi, for every width, precision and set of flags but grouping. */
  lemma FormattedReadsBack(v: int, c: Conversion)
    requires !c.group
    ensures AtoiValue(Formatted(if v < 0 then 0 - v else v, true, v < 0, BASE_D, c)) == v
  {
    var value := if v < 0 then 0 - v else v;
    var blanks, digits, after := DecimalParts(value, v < 0, c);
    SignedNumberReads(blanks, Sign(true, v < 0, c), digits, after);
  }

  // ---------------------------------------------------------------- the code

  method OutputDup(out: seq<byte>, ch: byte, cnt: int) returns (out': seq<byte>)
    ensures out' == out + if cnt <= 0 then [] else seq(cnt, _ => ch)
  {
    out' := out;
    var i := 0;
    while i < cnt
      invariant 0 <= i && (cnt > 0 ==> i <= cnt) && (cnt <= 0 ==> i == 0)
      invariant out' == out + seq(i, _ => ch)
    {
      out' := out' + [ch];
      i := i + 1;
      assert seq(i, _ => ch) == seq(i - 1, _ => ch) + [ch];
    }
  }

  /** *cp++ = ch */
  method Put(buf: array<byte>, cp: nat, ch: byte) returns (cp': nat)
    requires cp < buf.Length
    modifies buf
    ensures cp' == cp + 1 && buf[..cp'] == old(buf[..cp]) + [ch]
  {
    buf[cp] := ch;
    cp' := cp + 1;
  }

  /** Accumulates the digits, least significant first, and returns how many characters that took. */
  method FillDigits(buf: array<byte>, value: nat, b: IntegerBase, c: Conversion) returns (cp: nat)
    requires IsBase(b) && value < UINT64 && buf.Length == BUF_SIZE
    modifies buf
    ensures cp < BUF_SIZE && buf[..cp] == Digits(value, b, c.group, 0)
  {
    BufferFits(value, b, c);
    ghost var all := Digits(value, b, c.group, 0);
    ghost var done, rest := [], all;
    cp := 0;
    var v, digitCnt := value, 0;
    while v > 0
      invariant 0 <= v && 0 <= digitCnt && cp == |done| < BUF_SIZE && buf[..cp] == done
      invariant all == done + rest && rest == Digits(v, b, c.group, digitCnt)
      decreases v
    {
      var digit := Digit(v % b.base, b);
      ghost var more := Digits(v / b.base, b, c.group, digitCnt + 1);
      DigitsUnfold(v, b, c.group, digitCnt, digit, more);
      if c.group && digitCnt > 0 && digitCnt % b.group == 0 {
        cp := Put(buf, cp, COMMA);
        Shifted(done, COMMA, [digit] + more);
        done := done + [COMMA];
      }
      cp := Put(buf, cp, digit);
      Shifted(done, digit, more);
      done, rest := done + [digit], more;
      v := v / b.base;
      digitCnt := digitCnt + 1;
    }
    assert done + [] == done;
  }

  lemma Shifted(a: seq<byte>, x: byte, b: seq<byte>)
    ensures a + ([x] + b) == (a + [x]) + b
  {
  }

  lemma OneMoreZero(d: seq<byte>, n: nat)
    ensures d + Zeros(n) + [ZERO] == d + Zeros(n + 1)
  {
    assert Zeros(n + 1) == Zeros(n) + [ZERO];
  }

  method FillPrecision(buf: array<byte>, start: nat, precision: int, ghost d: seq<byte>) returns (cp: nat)
    requires buf.Length == BUF_SIZE && start == |d| < BUF_SIZE && buf[..start] == d
    modifies buf
    ensures cp < BUF_SIZE && buf[..cp] == d + Zeros(Min(precision, BUF_SIZE - 1) - |d|)
  {
    cp := start;
    assert d + Zeros(0) == d;
    while cp < precision && cp < BUF_SIZE - 1
      invariant start <= cp < BUF_SIZE && (cp > start ==> cp <= precision) && buf[..cp] == d + Zeros(cp - start)
    {
      OneMoreZero(d, cp - start);
      cp := Put(buf, cp, ZERO);
    }
  }

  /** Adds the zeros that the precision and the alternate octal form ask for. Never more than the buffer holds. */
  method FillBuffer(buf: array<byte>, value: nat, b: IntegerBase, c: Conversion) returns (cp: nat)
    requires IsBase(b) && value < UINT64 && buf.Length == BUF_SIZE
    modifies buf
    ensures cp <= BUF_SIZE && buf[..cp] == Buffer(value, b, c)
  {
    cp := FillDigits(buf, value, b, c);
    var precision := if c.precision < 0 then 1 else c.precision;
    cp := FillPrecision(buf, cp, precision, Digits(value, b, c.group, 0));
    if c.pound && b.base == 8 && (cp == 0 || buf[cp - 1] != ZERO) {
      cp := Put(buf, cp, ZERO);
    }
  }

  /** Puts the buffer out backwards. */
  method OutputReversed(out: seq<byte>, buf: array<byte>, cp: nat) returns (out': seq<byte>)
    requires cp <= buf.Length
    ensures out' == out + Reverse(buf[..cp])
  {
    out' := out;
    var k := cp;
    while k > 0
      invariant 0 <= k <= cp && out' == out + Reverse(buf[k..cp])
    {
      k := k - 1;
      out' := out' + [buf[k]];
      ReverseUnfold(buf[k..cp]);
      assert buf[k..cp][1..] == buf[k + 1..cp];
    }
    assert buf[0..cp] == buf[..cp];
  }

  lemma ReverseUnfold(s: seq<byte>)
    requires s != []
    ensures Reverse(s) == Reverse(s[1..]) + [s[0]]
  {
  }

  method SignChar(isSigned: bool, negative: bool, c: Conversion) returns (sign: byte)
    ensures Sign(isSigned, negative, c) == if sign != 0 then [sign] else []
  {
    sign := 0;
    if isSigned {
      if c.plus {
        sign := if negative then MINUS_SIGN else PLUS_SIGN;
      } else if c.space {
        sign := if negative then MINUS_SIGN else SPACE;
      } else if negative {
        sign := MINUS_SIGN;
      }
    }
  }

  /** Everything before the digits. */
  method OutputFront(sign: byte, x: byte, padCnt: nat, c: Conversion) returns (out: seq<byte>)
    ensures out == Front(padCnt, if sign != 0 then [sign] else [], if x != 0 then [ZERO, x] else [], c)
  {
    out := [];
    if !c.minus && !c.zero {
      out := OutputDup(out, SPACE, padCnt);
    }
    if sign != 0 {
      out := out + [sign];
    }
    if x != 0 {
      out := out + [ZERO];
      out := out + [x];
    }
    if c.zero {
      out := OutputDup(out, ZERO, padCnt);
    }
  }

  /** format_integer, with the output collected. */
  method FormatInteger(value: nat, isSigned: bool, negative: bool, b: IntegerBase, c: Conversion) returns (out: seq<byte>)
    requires IsBase(b) && value < UINT64
    ensures out == Formatted(value, isSigned, negative, b, c)
  {
    var sign := SignChar(isSigned, negative, c);
    var x: byte := if c.pound && value != 0 then b.x else 0;
    assert AltPrefix(value, b, c) == if x != 0 then [ZERO, x] else [];
    var buf := new byte[BUF_SIZE];
    var cp := FillBuffer(buf, value, b, c);
    var padCnt := c.width - cp - (if x != 0 then 2 else 0) - (if sign != 0 then 1 else 0);
    if padCnt < 0 {
      padCnt := 0;
    }
    var front := OutputFront(sign, x, padCnt, c);
    out := OutputReversed(front, buf, cp);
    ghost var tail: seq<byte> := if c.minus then Spaces(padCnt) else [];
    if c.minus {
      out := OutputDup(out, SPACE, padCnt);
    } else {
      assert out + tail == out;
    }
    AssembledIsFormatted(value, isSigned, negative, b, c, sign, x, padCnt, front, tail);
  }

  lemma AssembledIsFormatted(value: nat, isSigned: bool, negative: bool, b: IntegerBase, c: Conversion,
                             sign: byte, x: byte, padCnt: nat, front: seq<byte>, tail: seq<byte>)
    requires IsBase(b)
    requires Sign(isSigned, negative, c) == if sign != 0 then [sign] else []
    requires AltPrefix(value, b, c) == if x != 0 then [ZERO, x] else []
    requires var pad := c.width - |Buffer(value, b, c)| - (if x != 0 then 2 else 0) - (if sign != 0 then 1 else 0);
      padCnt == if pad < 0 then 0 else pad
    requires front == Front(padCnt, Sign(isSigned, negative, c), AltPrefix(value, b, c), c)
    requires tail == if c.minus then Spaces(padCnt) else []
    ensures front + Reverse(Buffer(value, b, c)) + tail == Formatted(value, isSigned, negative, b, c)
  {
    AssembledFrom(Reverse(Buffer(value, b, c)), Sign(isSigned, negative, c), AltPrefix(value, b, c), c, padCnt, front, tail,
                  Formatted(value, isSigned, negative, b, c));
  }

  lemma AssembledFrom(number: seq<byte>, sign: seq<byte>, x: seq<byte>, c: Conversion, padCnt: nat, front: seq<byte>,
                      tail: seq<byte>, out: seq<byte>)
    requires var pad := c.width - |number| - |x| - |sign|;
      && padCnt == (if pad < 0 then 0 else pad)
      && out == Front(pad, sign, x, c) + number + (if c.minus then Spaces(pad) else [])
    requires front == Front(padCnt, sign, x, c) && tail == if c.minus then Spaces(padCnt) else []
    ensures front + number + tail == out
  {
    NoNegativePad(c.width - |number| - |x| - |sign|, padCnt);
  }

  lemma NoNegativePad(pad: int, padCnt: nat)
    requires padCnt == if pad < 0 then 0 else pad
    ensures Spaces(padCnt) == Spaces(pad) && Zeros(padCnt) == Zeros(pad)
  {
  }

  /** The auxiliary data of vsnprintf_helper, with the memory it points into. */
  class SnprintfAux {
    const memory: array<byte>
    const start: nat
    var p: nat
    var length: int
    const maxLength: int

    ghost predicate Stores(text: seq<byte>)
      reads this, memory
    {
      && length == |text| && 0 <= maxLength && p == start + Min(|text|, maxLength)
      && start + maxLength <= memory.Length && memory[start..p] == text[..p - start]
    }

    constructor (memory: array<byte>, start: nat, maxLength: int)
      requires 0 <= maxLength && start + maxLength <= memory.Length
      ensures this.memory == memory && this.start == start && this.maxLength == maxLength && Stores([])
    {
      this.memory, this.start, p, length, this.maxLength := memory, start, start, 0, maxLength;
    }

    /** The memory before the text and from the end of what is stored on is as it was. */
    ghost predicate Spares(was: seq<byte>)
      reads this, memory
    {
      && |was| == memory.Length && start <= p <= memory.Length
      && memory[..start] == was[..start] && memory[p..] == was[p..]
    }

    method Helper(ch: byte, ghost text: seq<byte>, ghost was: seq<byte>)
      requires Stores(text) && |text| < INT_MAX && Spares(was)
      modifies this`p, this`length, memory
      ensures Stores(text + [ch]) && Spares(was)
    {
      assert p < memory.Length ==> was[p..][1..] == was[p + 1..] && memory[p..][1..] == memory[p + 1..];
      var before := length;
      length := length + 1;
      if before < maxLength {
        memory[p] := ch;
        p := p + 1;
      }
    }
  }

  /** Stores formatted text in the `bufSize` bytes at `start`: exactly its first characters that fit before a null byte,
      which is always there unless there is no room at all. Returns the length of the whole text. */
  method Vsnprintf(memory: array<byte>, start: nat, bufSize: nat, text: seq<byte>) returns (length: int)
    requires start + bufSize <= memory.Length && bufSize <= INT_MAX && |text| <= INT_MAX
    modifies memory
    ensures length == |text|
    ensures memory[..] == Stored(old(memory[..]), start, bufSize, text)
  {
    ghost var was := memory[..];
    var max := if bufSize > 0 then bufSize - 1 else 0;
    var aux := new SnprintfAux(memory, start, max);
    for i := 0 to |text|
      invariant aux.memory == memory && aux.start == start && aux.maxLength == max
      invariant aux.Stores(text[..i]) && aux.Spares(was)
    {
      assert text[..i + 1] == text[..i] + [text[i]];
      aux.Helper(text[i], text[..i], was);
    }
    assert text[..|text|] == text;
    length := aux.length;
    if bufSize > 0 {
      Terminate(memory, start, aux.p, was, text[..Min(|text|, max)]);
    }
  }

  /** Adds the null byte. */
  method Terminate(memory: array<byte>, start: nat, p: nat, ghost was: seq<byte>, ghost kept: seq<byte>)
    requires start <= p < memory.Length == |was| && p == start + |kept|
    requires memory[..start] == was[..start] && memory[start..p] == kept && memory[p..] == was[p..]
    modifies memory
    ensures memory[..] == was[..start] + (kept + [0]) + was[start + |kept| + 1..]
  {
    memory[p] := 0;
    assert was[p..][1..] == was[p + 1..];
    assert memory[p + 1..] == was[p + 1..];
    assert memory[..] == memory[..start] + memory[start..p] + [0] + memory[p + 1..];
  }

  /** Memory after the text has been stored. */
  function Stored(mem: seq<byte>, start: nat, bufSize: nat, text: seq<byte>): seq<byte>
    requires start + bufSize <= |mem|
  {
    if bufSize == 0 then mem
    else
      var n := Min(|text|, bufSize - 1);
      mem[..start] + (text[..n] + [0]) + mem[start + n + 1..]
  }

  /** With room for n characters, the first n - 1 of the text at most, a null byte right after them, and nothing else. */
  lemma StoredIs(mem: seq<byte>, start: nat, bufSize: nat, text: seq<byte>, k: nat)
    requires start + bufSize <= |mem| && k < |mem|
    ensures |Stored(mem, start, bufSize, text)| == |mem|
    ensures Stored(mem, start, bufSize, text)[k] ==
      if start <= k < start + bufSize - 1 && k < start + |text| then text[k - start]
      else if bufSize > 0 && (k == start + |text| < start + bufSize || (k == start + bufSize - 1 && |text| >= bufSize)) then 0
      else mem[k]
  {
    if bufSize > 0 {
      var n := Min(|text|, bufSize - 1);
      assert Stored(mem, start, bufSize, text)[k] ==
        if k < start then mem[k] else if k < start + n then text[k - start] else if k == start + n then 0 else mem[k];
    }
  }

  type int32 = x: int | -INT_MAX - 1 <= x <= INT_MAX

  /** atoi, on a string without its null byte, for a number that fits. The digits are gathered as a negative number, so
      the smallest int is read too, and nothing overflows on the way. */
  method Atoi(s: seq<byte>) returns (r: int32)
    requires -INT_MAX - 1 <= AtoiValue(s) <= INT_MAX
    ensures r == AtoiValue(s)
  {
    var i := 0;
    while i < |s| && IsSpace(s[i])
      invariant i <= |s| && SkipSpaces(s[i..]) == SkipSpaces(s)
    {
      assert s[i..][1..] == s[i + 1..];
      i := i + 1;
    }
    ghost var t := s[i..];
    var negative := false;
    if i < |s| && s[i] == PLUS_SIGN {
      i := i + 1;
    } else if i < |s| && s[i] == MINUS_SIGN {
      negative := true;
      i := i + 1;
    }
    assert AfterSign(t) == s[i..];
    r := AtoiDigits(s, i);
    if !negative {
      r := 0 - r;
    }
  }

  method AtoiDigits(s: seq<byte>, start: nat) returns (value: int32)
    requires start <= |s| && NumberOf(LeadingDigits(s[start..]), 10) <= INT_MAX + 1
    ensures value == 0 - NumberOf(LeadingDigits(s[start..]), 10)
  {
    var i := start;
    ghost var all := LeadingDigits(s[start..]);
    ghost var done, rest := [], all;
    value := 0;
    while i < |s| && IsDigit(s[i])
      invariant start <= i <= |s| && all == done + rest && rest == LeadingDigits(s[i..])
      invariant value == 0 - NumberOf(done, 10)
    {
      ghost var next := i + 1;
      ghost var more := LeadingDigits(s[next..]);
      assert s[i..][1..] == s[next..];
      AtoiStep(done, s[i], more, all);
      done, rest := done + [s[i]], more;
      value := value * 10 - (s[i] - ZERO);
      i := i + 1;
      assert i == next;
    }
    assert done + [] == done;
  }

  /** One more digit, and still no overflow. */
  lemma AtoiStep(done: seq<byte>, c: byte, more: seq<byte>, all: seq<byte>)
    requires all == done + ([c] + more) && IsDigit(c) && NumberOf(all, 10) <= INT_MAX + 1
    ensures all == (done + [c]) + more
    ensures NumberOf(done + [c], 10) == NumberOf(done, 10) * 10 + (c - ZERO) <= INT_MAX + 1
  {
    Shifted(done, c, more);
    NumberAppend(done, c, 10);
    PrefixIsSmaller(done + [c], more);
  }

  lemma {:induction false} PrefixIsSmaller(a: seq<byte>, b: seq<byte>)
    ensures NumberOf(a, 10) <= NumberOf(a + b, 10)
    decreases |b|
  {
    if b == [] {
      assert a + b == a;
    } else {
      PrefixIsSmaller(a, b[..|b| - 1]);
      assert (a + b)[..|a + b| - 1] == a + b[..|b| - 1];
    }
  }
}

/** Headers of tar archives in ustar format: making them, parsing them, and what survives the round trip. */
module Ustar {
  import opened Common
  import opened Stdio
  import Printf

  const HEADER_SIZE := 512
  const REGULAR: byte := 48          // '0'
  const DIRECTORY: byte := 53        // '5'
  const SLASH: byte := 47
  const DOT: byte := 46
  const ULONG_MAX := 0xFFFF_FFFF

  /** Where the fields start. */
  const NAME := 0
  const MODE := 100
  const UID := 108
  const GID := 116
  const SIZE := 124
  const MTIME := 136
  const CHKSUM := 148
  const TYPEFLAG := 156
  const MAGIC := 257
  const VERSION := 263
  const UNAME := 265
  const GNAME := 297
  const PREFIX := 345

  const USTAR: seq<byte> := [117, 115, 116, 97, 114]
  const ROOT: seq<byte> := [114, 111, 111, 116]
  const ZEROS7: seq<byte> := [48, 48, 48, 48, 48, 48, 48]

  type Header = h: seq<byte> | |h| == HEADER_SIZE witness seq(HEADER_SIZE, _ => 0)

  // ---------------------------------------------------------------- names

  /** Where the next component starts, if the name begins with one that is dropped. */
  function Dropped(name: seq<byte>): (n: nat)
    ensures n <= |name|
  {
    if |name| >= 1 && name[0] == SLASH then 1
    else if |name| >= 2 && name[0] == DOT && name[1] == SLASH then 2
    else if |name| >= 3 && name[0] == DOT && name[1] == DOT && name[2] == SLASH then 3
    else 0
  }

  function DropPrefixes(name: seq<byte>): (r: seq<byte>)
    ensures Dropped(r) == 0
    decreases |name|
  {
    if Dropped(name) == 0 then name else DropPrefixes(name[Dropped(name)..])
  }

  function Strip(name: seq<byte>): (r: seq<byte>) {
    var rest := DropPrefixes(name);
    if rest == [] || rest == [DOT, DOT] then [DOT] else rest
  }

  /** A stripped name is never empty, starts with no slash and climbs nowhere, and stripping it again changes nothing. */
  lemma StripIsIdempotent(name: seq<byte>)
    ensures Strip(Strip(name)) == Strip(name)
    ensures Strip(name) != [] && Strip(name)[0] != SLASH && Strip(name) != [DOT, DOT] && Dropped(Strip(name)) == 0
  {
  }

  /** It begins with "/", "./" or "../". */
  predicate BeginsBadly(s: seq<byte>) {
    (|s| >= 1 && s[0] == 47) || (|s| >= 2 && s[..2] == [46, 47]) || (|s| >= 3 && s[..3] == [46, 46, 47])
  }

  /** It is made of those only. */
  predicate IsClimb(s: seq<byte>)
    decreases |s|
  {
    || s == [] || (|s| >= 1 && s[0] == 47 && IsClimb(s[1..]))
    || (|s| >= 2 && s[..2] == [46, 47] && IsClimb(s[2..])) || (|s| >= 3 && s[..3] == [46, 46, 47] && IsClimb(s[3..]))
  }

  lemma DroppedIff(s: seq<byte>)
    ensures Dropped(s) > 0 <==> BeginsBadly(s)
    ensures Dropped(s) > 0 && IsClimb(s[Dropped(s)..]) ==> IsClimb(s)
  {
  }

  lemma {:induction false} DropPrefixesIs(name: seq<byte>) returns (k: nat)
    ensures k <= |name| && IsClimb(name[..k]) && DropPrefixes(name) == name[k..]
    decreases |name|
  {
    k := 0;
    var d := Dropped(name);
    if d > 0 {
      var rest := name[d..];
      var m := DropPrefixesIs(rest);
      k := d + m;
      SameDropped(name, k);
      assert name[..k][d..] == rest[..m];
      DroppedIff(name[..k]);
      assert rest[m..] == name[k..];
    }
  }

  lemma SameDropped(s: seq<byte>, k: nat)
    requires Dropped(s) <= k <= |s|
    ensures Dropped(s) > 0 ==> Dropped(s[..k]) == Dropped(s)
  {
  }

  /** What a stripped name is: it does not begin badly; it is what is left of the name after a stretch made of the
      prefixes that are dropped, or "." if that is nothing or "..". */
  lemma StripIs(name: seq<byte>) returns (k: nat)
    ensures !BeginsBadly(Strip(name)) && k <= |name| && IsClimb(name[..k])
    ensures Strip(name) == if name[k..] == [] || name[k..] == [46, 46] then [46] else name[k..]
  {
    k := DropPrefixesIs(name);
    DroppedIff(Strip(name));
  }

  /** So a name that does not begin badly comes back unchanged, unless it is empty or "..". */
  lemma DecentNameStays(name: seq<byte>)
    requires !BeginsBadly(name)
    ensures Strip(name) == if name == [] || name == [46, 46] then [46] else name
  {
    DroppedIff(name);
  }

  predicate NoNul(s: seq<byte>) {
    forall k :: 0 <= k < |s| ==> s[k] != 0
  }

  lemma {:induction false} DropKeepsNoNul(name: seq<byte>)
    requires NoNul(name)
    ensures NoNul(DropPrefixes(name))
    decreases |name|
  {
    if Dropped(name) > 0 {
      DropKeepsNoNul(name[Dropped(name)..]);
    }
  }

  lemma StripKeepsNoNul(name: seq<byte>)
    requires NoNul(name)
    ensures NoNul(Strip(name))
  {
    DropKeepsNoNul(name);
  }

  /** The string at the start of a field. */
  function CString(s: seq<byte>): seq<byte> {
    if s == [] || s[0] == 0 then [] else [s[0]] + CString(s[1..])
  }

  /** What it is: everything before the first null byte, if there is one. */
  lemma {:induction false} CStringIs(s: seq<byte>)
    ensures NoNul(CString(s)) && |CString(s)| <= |s| && s[..|CString(s)|] == CString(s)
    ensures |CString(s)| < |s| ==> s[|CString(s)|] == 0
  {
    if s != [] && s[0] != 0 {
      CStringIs(s[1..]);
      assert s[..|CString(s)|] == [s[0]] + s[1..][..|CString(s[1..])|];
    }
  }

  lemma {:induction false} CStringOf(s: seq<byte>, rest: seq<byte>)
    requires NoNul(s)
    ensures CString(s + ([0] + rest)) == s
  {
    if s != [] {
      assert (s + ([0] + rest))[1..] == s[1..] + ([0] + rest);
      CStringOf(s[1..], rest);
    }
  }

  // ---------------------------------------------------------------- octal fields

  function Padded(n: nat): Conversion { Conversion(false, false, false, false, true, false, n, -1) }

  /** %0<n>o */
  function Octal(v: nat, n: nat): seq<byte> {
    Formatted(v, false, false, BASE_O, Padded(n))
  }

  predicate AllOctal(s: seq<byte>) {
    forall k :: 0 <= k < |s| ==> 48 <= s[k] < 56
  }

  /** parse_octal_field from offset `ofs` on, with the value so far. */
  function ParseFrom(field: seq<byte>, ofs: nat, value: nat): Option<nat>
    requires ofs <= |field|
    decreases |field| - ofs
  {
    if ofs == |field| then None
    else
      var c := field[ofs];
      if 48 <= c < 56 then
        if value > ULONG_MAX / 8 then None else ParseFrom(field, ofs + 1, c - 48 + value * 8)
      else if c == SPACE || c == 0 then (if ofs > 0 then Some(value) else None)
      else None
  }

  method ParseOctalField(field: seq<byte>) returns (ok: bool, value: nat)
    ensures ok <==> ParseFrom(field, 0, 0).Some?
    ensures ok ==> value == ParseFrom(field, 0, 0).value
    ensures value <= ULONG_MAX
  {
    value := 0;
    var ofs := 0;
    while ofs < |field|
      invariant ofs <= |field| && value <= ULONG_MAX
      invariant ParseFrom(field, ofs, value) == ParseFrom(field, 0, 0)
    {
      var c := field[ofs];
      if c >= 48 && c <= 55 {
        if value > ULONG_MAX / 8 {
          return false, value;
        }
        value := c - 48 + value * 8;
      } else if c == SPACE || c == 0 {
        return ofs > 0, value;
      } else {
        return false, value;
      }
      ofs := ofs + 1;
    }
    return false, value;
  }

  /** The field has octal digits up to `k`, which say `v`, and there a space or a null byte. */
  predicate EndsAt(field: seq<byte>, k: nat, v: nat) {
    && 0 < k < |field| && (forall j :: 0 <= j < k ==> 48 <= field[j] <= 55) && (field[k] == 32 || field[k] == 0)
    && NumberOf(field[..k], 8) == v <= 0xFFFF_FFFF
  }

  ghost predicate ReadsOctal(field: seq<byte>, v: nat) { exists k :: EndsAt(field, k, v) }

  /** A field is read exactly when it is made like that. */
  lemma OctalFieldIff(field: seq<byte>, v: nat)
    ensures ParseFrom(field, 0, 0) == Some(v) <==> ReadsOctal(field, v)
  {
    OctalRestIff(field, 0, 0, v);
  }

  lemma {:induction false} OctalRestIff(field: seq<byte>, ofs: nat, value: nat, v: nat)
    requires ofs <= |field| && AllOctal(field[..ofs]) && value == NumberOf(field[..ofs], 8) <= ULONG_MAX
    ensures ParseFrom(field, ofs, value) == Some(v) <==> exists k :: ofs <= k && EndsAt(field, k, v)
    decreases |field| - ofs
  {
    if ofs < |field| {
      var c, next := field[ofs], ofs + 1;
      assert forall j :: 0 <= j < ofs ==> field[j] == field[..ofs][j];
      if 48 <= c < 56 {
        assert field[..next] == field[..ofs] + [c];
        NumberAppend(field[..ofs], c, 8);
        assert forall k :: ofs <= k && EndsAt(field, k, v) ==> next <= k;
        if value <= ULONG_MAX / 8 {
          OctalRestIff(field, next, c - 48 + value * 8, v);
        } else {
          forall k | next <= k ensures !EndsAt(field, k, v) {
            NoEndAfter(field, next, k, v);
          }
        }
      } else {
        assert forall k :: ofs <= k && EndsAt(field, k, v) ==> k == ofs;
        assert ParseFrom(field, ofs, value) == Some(v) ==> EndsAt(field, ofs, v);
      }
    }
  }

  lemma NoEndAfter(field: seq<byte>, n: nat, k: nat, v: nat)
    requires n <= k && n <= |field| && NumberOf(field[..n], 8) > ULONG_MAX
    ensures !EndsAt(field, k, v)
  {
    if k < |field| {
      LongerIsMore(field, n, k);
      assert EndsAt(field, k, v) ==> AllOctal(field[..k]);
    }
  }

  lemma LongerIsMore(field: seq<byte>, n: nat, k: nat)
    requires n <= k <= |field|
    ensures AllOctal(field[..k]) ==> NumberOf(field[..n], 8) <= NumberOf(field[..k], 8)
  {
    if AllOctal(field[..k]) {
      PrefixNumber(field[..k], n);
      assert field[..k][..n] == field[..n];
    }
  }

  lemma {:induction false} OctalParses(d: seq<byte>, rest: seq<byte>, ofs: nat)
    requires AllOctal(d) && d != [] && ofs <= |d| && NumberOf(d, 8) <= ULONG_MAX
    ensures ParseFrom(d + ([0] + rest), ofs, NumberOf(d[..ofs], 8)) == Some(NumberOf(d, 8))
    decreases |d| - ofs
  {
    var field := d + ([0] + rest);
    if ofs == |d| {
      assert d[..ofs] == d;
    } else {
      var next := ofs + 1;
      assert d[..next] == d[..ofs] + [d[ofs]];
      NumberAppend(d[..ofs], d[ofs], 8);
      PrefixNumber(d, next);
      assert field[ofs] == d[ofs];
      OctalParses(d, rest, next);
    }
  }

  lemma {:induction false} PrefixNumber(d: seq<byte>, n: nat)
    requires n <= |d| && AllOctal(d)
    ensures NumberOf(d[..n], 8) <= NumberOf(d, 8)
    decreases |d| - n
  {
    if n < |d| {
      PrefixNumber(d, n + 1);
      assert d[..n + 1] == d[..n] + [d[n]];
      NumberAppend(d[..n], d[n], 8);
    } else {
      assert d[..n] == d;
    }
  }

  lemma {:induction false} OctalDigits(v: nat, cnt: nat, k: nat)
    requires v < Pow8(k)
    ensures |Digits(v, BASE_O, false, cnt)| <= k && AllOctal(Digits(v, BASE_O, false, cnt))
    decreases k
  {
    if v > 0 {
      OctalDigits(v / 8, cnt + 1, k - 1);
    }
  }

  lemma {:induction false} ReverseKeepsOctal(s: seq<byte>)
    requires AllOctal(s)
    ensures AllOctal(Reverse(s))
  {
    if s != [] {
      ReverseKeepsOctal(s[1..]);
    }
  }

  lemma OctalShape(v: nat, n: nat) returns (buf: seq<byte>)
    requires 0 < n < 64 && v < Pow8(n)
    ensures buf == Buffer(v, BASE_O, Padded(n)) && 1 <= |buf| <= n && AllOctal(buf)
    ensures Octal(v, n) == Zeros(n - |buf|) + Reverse(buf)
  {
    buf := Buffer(v, BASE_O, Padded(n));
    OctalDigits(v, 0, n);
  }

  /** A number below 8^n is printed as exactly n octal digits that read as the number. */
  lemma OctalIs(v: nat, n: nat)
    requires 0 < n < 64 && v < Pow8(n)
    ensures |Octal(v, n)| == n && AllOctal(Octal(v, n)) && NumberOf(Octal(v, n), 8) == v
  {
    var buf := OctalShape(v, n);
    var d := Reverse(buf);
    assert AllOctal(d) by {
      ReverseKeepsOctal(buf);
    }
    assert NumberOf(Zeros(n - |buf|) + d, 8) == v by {
      BufferReadsBack(v, BASE_O, Padded(n));
      LowZeros(n - |buf|, d, 8);
    }
  }

  /** Printing and parsing an octal field is the identity, while the number fits the field and 32 bits. */
  lemma OctalRoundTrip(v: nat, n: nat, rest: seq<byte>)
    requires 0 < n < 64 && v < Pow8(n) && v <= ULONG_MAX
    ensures ParseFrom(Octal(v, n) + ([0] + rest), 0, 0) == Some(v)
  {
    OctalIs(v, n);
    OctalParses(Octal(v, n), rest, 0);
  }

  // ---------------------------------------------------------------- the checksum

  /** The sum of the header's first `n` bytes, with spaces for the checksum field. */
  function SumTo(h: Header, n: nat): (r: nat)
    requires n <= HEADER_SIZE
    ensures r <= 255 * n
  {
    if n == 0 then 0
    else SumTo(h, n - 1) + if CHKSUM <= n - 1 < CHKSUM + 8 then SPACE else h[n - 1]
  }

  function Checksum(h: Header): nat { SumTo(h, |h|) }

  method CalculateChksum(h: Header) returns (chksum: nat)
    ensures chksum == Checksum(h)
  {
    chksum := 0;
    for i := 0 to |h|
      invariant chksum == SumTo(h, i)
    {
      var inChksumField := i >= CHKSUM && i < CHKSUM + 8;
      chksum := chksum + if inChksumField then SPACE else h[i];
    }
  }

  lemma {:induction false} SumIgnoresField(h: Header, h': Header, n: nat)
    requires n <= HEADER_SIZE && forall k :: 0 <= k < n && !(CHKSUM <= k < CHKSUM + 8) ==> h[k] == h'[k]
    ensures SumTo(h, n) == SumTo(h', n)
  {
    if n > 0 {
      SumIgnoresField(h, h', n - 1);
    }
  }

  function Total(s: seq<byte>): nat {
    if s == [] then 0 else Total(s[..|s| - 1]) + s[|s| - 1]
  }

  /** The sum of the bytes before and after the checksum field, and of eight spaces. */
  lemma ChecksumIs(h: Header)
    ensures Checksum(h) == Total(h[..148]) + 8 * 32 + Total(h[156..])
  {
    SumBefore(h, 148);
    assert SumTo(h, 156) == SumTo(h, 148) + 8 * 32 by {
      assert SumTo(h, 150) == SumTo(h, 148) + 2 * 32;
      assert SumTo(h, 152) == SumTo(h, 150) + 2 * 32;
      assert SumTo(h, 154) == SumTo(h, 152) + 2 * 32;
    }
    SumAfter(h, 512);
    assert h[156..512] == h[156..];
  }

  lemma {:induction false} SumBefore(h: Header, n: nat)
    requires n <= 148
    ensures SumTo(h, n) == Total(h[..n])
  {
    if n > 0 {
      SumBefore(h, n - 1);
      assert h[..n][..n - 1] == h[..n - 1];
    }
  }

  lemma {:induction false} SumAfter(h: Header, n: nat)
    requires 156 <= n <= 512
    ensures SumTo(h, n) == SumTo(h, 156) + Total(h[156..n])
  {
    if n > 156 {
      SumAfter(h, n - 1);
      assert h[156..n][..n - 157] == h[156..n - 1];
    }
  }

  // ---------------------------------------------------------------- the header

  /** The header with `data` stored at `ofs`. */
  function WithField(h: Header, ofs: nat, data: seq<byte>): Header
    requires ofs + |data| <= HEADER_SIZE
  {
    h[..ofs] + data + h[ofs + |data|..]
  }

  predicate HasField(h: Header, ofs: nat, data: seq<byte>) {
    ofs + |data| <= HEADER_SIZE && forall k :: 0 <= k < |data| ==> h[ofs + k] == data[k]
  }

  lemma FieldStored(h: Header, ofs: nat, data: seq<byte>)
    requires ofs + |data| <= HEADER_SIZE
    ensures HasField(WithField(h, ofs, data), ofs, data)
  {
  }

  lemma FieldKept(h: Header, ofs: nat, data: seq<byte>, at: nat, other: seq<byte>)
    requires at + |other| <= HEADER_SIZE && HasField(h, ofs, data)
    requires ofs + |data| <= at || at + |other| <= ofs
    ensures HasField(WithField(h, at, other), ofs, data)
  {
  }

  function SizeWord(size: int): nat
    requires -INT_MAX - 1 <= size <= INT_MAX
  {
    if size >= 0 then size else size + WORD
  }

  function Empty(): Header { seq(HEADER_SIZE, _ => 0) }

  predicate IsType(t: byte) { t == REGULAR || t == DIRECTORY }

  lemma FieldsFit(t: byte, size: int)
    requires IsType(t) && -INT_MAX - 1 <= size <= INT_MAX
    ensures |Octal(if t == REGULAR then 420 else 493, 7)| == 7 && |Octal(SizeWord(size), 11)| == 11
  {
    Powers();
    OctalIs(if t == REGULAR then 420 else 493, 7);
    OctalIs(SizeWord(size), 11);
  }

  lemma Powers()
    ensures Pow8(7) == 0x20_0000 && Pow8(11) == 0x2_0000_0000
  {
    assert Pow8(4) == 4096;
    assert Pow8(8) == 0x100_0000;
  }

  /** The header's first half: name, permissions, owner and size. Permissions are octal 644 or 755. */
  function FrontHalf(name: seq<byte>, t: byte, size: int): Header
    requires |name| <= 99 && IsType(t) && -INT_MAX - 1 <= size <= INT_MAX
  {
    FieldsFit(t, size);
    var h1 := WithField(Empty(), NAME, name + [0]);
    var h2 := WithField(h1, MODE, Octal(if t == REGULAR then 420 else 493, 7) + [0]);
    var h3 := WithField(h2, UID, ZEROS7 + [0]);
    var h4 := WithField(h3, GID, ZEROS7 + [0]);
    WithField(h4, SIZE, Octal(SizeWord(size), 11) + [0])
  }

  /** The rest but for the checksum, laid over the first half. */
  function BackOver(f: Header, t: byte): Header {
    MtimeFits();
    var h6 := WithField(f, MTIME, Octal(1136102400, 11) + [0]);
    var h7 := WithField(h6, TYPEFLAG, [t]);
    var h8 := WithField(h7, MAGIC, USTAR + [0]);
    var h9 := WithField(h8, VERSION, [48, 48]);
    var h10 := WithField(h9, GNAME, ROOT + [0]);
    WithField(h10, UNAME, ROOT + [0])
  }

  lemma MtimeFits()
    ensures |Octal(1136102400, 11)| == 11
  {
    Powers();
    OctalIs(1136102400, 11);
  }

  lemma ChecksumFits(h: Header)
    ensures |Octal(Checksum(h), 7)| == 7
  {
    Powers();
    OctalIs(Checksum(h), 7);
  }

  function Summed(u: Header): Header {
    ChecksumFits(u);
    WithField(u, CHKSUM, Octal(Checksum(u), 7) + [0])
  }

  /** The finished header for a stripped name. */
  function HeaderFor(name: seq<byte>, t: byte, size: int): Header
    requires |name| <= 99 && IsType(t) && -INT_MAX - 1 <= size <= INT_MAX
  {
    Summed(BackOver(FrontHalf(name, t, size), t))
  }

  // ---------------------------------------------------------------- what the fields end up holding

  predicate HasName(h: Header, name: seq<byte>) {
    HasField(h, NAME, name + [0]) && HasField(h, 99, [0]) && HasField(h, PREFIX, [0])
  }

  predicate HasBack(h: Header, t: byte) {
    HasField(h, TYPEFLAG, [t]) && HasField(h, MAGIC, USTAR + [0]) && HasField(h, VERSION, [48, 48])
  }

  lemma KeepName(h: Header, name: seq<byte>, at: nat, other: seq<byte>)
    requires |name| <= 99 && HasName(h, name) && MODE <= at && at + |other| <= PREFIX
    ensures HasName(WithField(h, at, other), name)
  {
    FieldKept(h, NAME, name + [0], at, other);
    FieldKept(h, 99, [0], at, other);
    FieldKept(h, PREFIX, [0], at, other);
  }

  lemma KeepBack(h: Header, t: byte, at: nat, other: seq<byte>)
    requires HasBack(h, t) && at + |other| <= HEADER_SIZE && (at + |other| <= TYPEFLAG || UNAME <= at)
    ensures HasBack(WithField(h, at, other), t)
  {
    FieldKept(h, TYPEFLAG, [t], at, other);
    FieldKept(h, MAGIC, USTAR + [0], at, other);
    FieldKept(h, VERSION, [48, 48], at, other);
  }

  lemma NameStored(name: seq<byte>)
    requires |name| <= 99
    ensures HasName(WithField(Empty(), NAME, name + [0]), name)
  {
  }

  lemma FrontFields(name: seq<byte>, t: byte, size: int)
    requires |name| <= 99 && IsType(t) && -INT_MAX - 1 <= size <= INT_MAX
    ensures HasName(FrontHalf(name, t, size), name)
    ensures |Octal(SizeWord(size), 11)| == 11 && HasField(FrontHalf(name, t, size), SIZE, Octal(SizeWord(size), 11) + [0])
  {
    FieldsFit(t, size);
    var mode, sz := Octal(if t == REGULAR then 420 else 493, 7) + [0], Octal(SizeWord(size), 11) + [0];
    var h1 := WithField(Empty(), NAME, name + [0]);
    NameStored(name);
    var h2 := WithField(h1, MODE, mode);
    KeepName(h1, name, MODE, mode);
    var h3 := WithField(h2, UID, ZEROS7 + [0]);
    KeepName(h2, name, UID, ZEROS7 + [0]);
    var h4 := WithField(h3, GID, ZEROS7 + [0]);
    KeepName(h3, name, GID, ZEROS7 + [0]);
    FieldStored(h4, SIZE, sz);
    KeepName(h4, name, SIZE, sz);
  }

  /** The second half keeps what the first holds. */
  lemma BackKeepsFront(f: Header, t: byte, name: seq<byte>, sz: seq<byte>)
    requires |name| <= 99 && HasName(f, name) && |sz| == 12 && HasField(f, SIZE, sz)
    ensures HasName(BackOver(f, t), name) && HasField(BackOver(f, t), SIZE, sz)
  {
    MtimeFits();
    KeepBoth(f, name, sz, MTIME, Octal(1136102400, 11) + [0]);
    var h6 := WithField(f, MTIME, Octal(1136102400, 11) + [0]);
    KeepBoth(h6, name, sz, TYPEFLAG, [t]);
    var h7 := WithField(h6, TYPEFLAG, [t]);
    KeepBoth(h7, name, sz, MAGIC, USTAR + [0]);
    var h8 := WithField(h7, MAGIC, USTAR + [0]);
    KeepBoth(h8, name, sz, VERSION, [48, 48]);
    var h9 := WithField(h8, VERSION, [48, 48]);
    KeepBoth(h9, name, sz, GNAME, ROOT + [0]);
    KeepBoth(WithField(h9, GNAME, ROOT + [0]), name, sz, UNAME, ROOT + [0]);
  }

  lemma KeepBoth(h: Header, name: seq<byte>, sz: seq<byte>, at: nat, other: seq<byte>)
    requires |name| <= 99 && HasName(h, name) && |sz| == 12 && HasField(h, SIZE, sz)
    requires MTIME <= at && at + |other| <= PREFIX
    ensures HasName(WithField(h, at, other), name) && HasField(WithField(h, at, other), SIZE, sz)
  {
    KeepName(h, name, at, other);
    FieldKept(h, SIZE, sz, at, other);
  }

  lemma BackFields(f: Header, t: byte)
    ensures HasBack(BackOver(f, t), t)
  {
    MtimeFits();
    var h6 := WithField(f, MTIME, Octal(1136102400, 11) + [0]);
    var h7 := WithField(h6, TYPEFLAG, [t]);
    FieldStored(h6, TYPEFLAG, [t]);
    var h8 := WithField(h7, MAGIC, USTAR + [0]);
    FieldStored(h7, MAGIC, USTAR + [0]);
    FieldKept(h7, TYPEFLAG, [t], MAGIC, USTAR + [0]);
    var h9 := WithField(h8, VERSION, [48, 48]);
    FieldStored(h8, VERSION, [48, 48]);
    FieldKept(h8, TYPEFLAG, [t], VERSION, [48, 48]);
    FieldKept(h8, MAGIC, USTAR + [0], VERSION, [48, 48]);
    KeepBack(h9, t, GNAME, ROOT + [0]);
    KeepBack(WithField(h9, GNAME, ROOT + [0]), t, UNAME, ROOT + [0]);
  }

  lemma SummedFields(u: Header, t: byte, name: seq<byte>, sz: seq<byte>)
    requires |name| <= 99 && HasName(u, name) && |sz| == 12 && HasField(u, SIZE, sz) && HasBack(u, t)
    ensures HasName(Summed(u), name) && HasField(Summed(u), SIZE, sz) && HasBack(Summed(u), t)
    ensures HasField(Summed(u), CHKSUM, Octal(Checksum(Summed(u)), 7) + [0])
  {
    ChecksumFits(u);
    var sum := Octal(Checksum(u), 7) + [0];
    KeepBoth(u, name, sz, CHKSUM, sum);
    KeepBack(u, t, CHKSUM, sum);
    FieldStored(u, CHKSUM, sum);
    SumIgnoresField(u, Summed(u), |u|);
  }

  /** Everything the parser looks at, in the finished header. */
  lemma HeaderFields(name: seq<byte>, t: byte, size: int)
    requires |name| <= 99 && IsType(t) && -INT_MAX - 1 <= size <= INT_MAX
    ensures var h := HeaderFor(name, t, size);
      && HasName(h, name) && HasField(h, SIZE, Octal(SizeWord(size), 11) + [0]) && HasBack(h, t)
      && HasField(h, CHKSUM, Octal(Checksum(h), 7) + [0])
  {
    FrontFields(name, t, size);
    var sz := Octal(SizeWord(size), 11) + [0];
    var f := FrontHalf(name, t, size);
    BackKeepsFront(f, t, name, sz);
    BackFields(f, t);
    SummedFields(BackOver(f, t), t, name, sz);
  }

  lemma WithByte(h: Header, ofs: nat, data: seq<byte>, k: nat)
    requires ofs + |data| <= HEADER_SIZE && k < HEADER_SIZE
    ensures WithField(h, ofs, data)[k] == if ofs <= k < ofs + |data| then data[k - ofs] else h[k]
  {
  }

  /** Every byte of the first half, with the octal fields as given. */
  function FrontByte(name: seq<byte>, mode: seq<byte>, sz: seq<byte>, k: nat): byte
    requires |mode| == 7 && |sz| == 11
  {
    if k < |name| then name[k]
    else if 100 <= k < 107 then mode[k - 100]
    else if 108 <= k < 115 || 116 <= k < 123 then 48
    else if 124 <= k < 135 then sz[k - 124]
    else 0
  }

  lemma FrontByteIs(name: seq<byte>, mode: seq<byte>, sz: seq<byte>, k: nat)
    requires |name| <= 99 && |mode| == 7 && |sz| == 11 && k < 512
    ensures var h2 := WithField(WithField(Empty(), NAME, name + [0]), MODE, mode + [0]);
      WithField(WithField(WithField(h2, UID, ZEROS7 + [0]), GID, ZEROS7 + [0]), SIZE, sz + [0])[k]
        == FrontByte(name, mode, sz, k)
  {
    var h1 := WithField(Empty(), NAME, name + [0]);
    var h2 := WithField(h1, MODE, mode + [0]);
    var h3 := WithField(h2, UID, ZEROS7 + [0]);
    var h4 := WithField(h3, GID, ZEROS7 + [0]);
    WithByte(Empty(), NAME, name + [0], k);
    WithByte(h1, MODE, mode + [0], k);
    WithByte(h2, UID, ZEROS7 + [0], k);
    WithByte(h3, GID, ZEROS7 + [0], k);
    WithByte(h4, SIZE, sz + [0], k);
  }

  /** Every byte of the rest, laid over `f`. */
  function BackByte(f: byte, t: byte, mtime: seq<byte>, k: nat): byte
    requires |mtime| == 11
  {
    if 136 <= k < 147 then mtime[k - 136]
    else if k == 156 then t
    else if 257 <= k < 262 then [117, 115, 116, 97, 114][k - 257]
    else if k == 263 || k == 264 then 48
    else if 265 <= k < 269 then [114, 111, 111, 116][k - 265]
    else if 297 <= k < 301 then [114, 111, 111, 116][k - 297]
    else if k == 147 || k == 262 || k == 269 || k == 301 then 0
    else f
  }

  lemma BackByteIs(f: Header, t: byte, mtime: seq<byte>, k: nat)
    requires k < 512 && |mtime| == 11
    ensures var h8 := WithField(WithField(WithField(f, MTIME, mtime + [0]), TYPEFLAG, [t]), MAGIC, USTAR + [0]);
      WithField(WithField(WithField(h8, VERSION, [48, 48]), GNAME, ROOT + [0]), UNAME, ROOT + [0])[k]
        == BackByte(f[k], t, mtime, k)
  {
    var h6 := WithField(f, MTIME, mtime + [0]);
    var h7 := WithField(h6, TYPEFLAG, [t]);
    var h8 := WithField(h7, MAGIC, USTAR + [0]);
    var h9 := WithField(h8, VERSION, [48, 48]);
    var h10 := WithField(h9, GNAME, ROOT + [0]);
    WithByte(f, MTIME, mtime + [0], k);
    WithByte(h6, TYPEFLAG, [t], k);
    WithByte(h7, MAGIC, USTAR + [0], k);
    WithByte(h8, VERSION, [48, 48], k);
    WithByte(h9, GNAME, ROOT + [0], k);
    WithByte(h10, UNAME, ROOT + [0], k);
  }

  /** Every byte of the header, with its octal fields as given. */
  function HeaderByte(name: seq<byte>, t: byte, mode: seq<byte>, sz: seq<byte>, mtime: seq<byte>, sum: seq<byte>, k: nat): byte
    requires |mode| == |sum| == 7 && |sz| == |mtime| == 11
  {
    if 148 <= k < 155 then sum[k - 148] else if k == 155 then 0
    else BackByte(FrontByte(name, mode, sz, k), t, mtime, k)
  }

  lemma FrontIs(name: seq<byte>, t: byte, size: int, mode: seq<byte>, sz: seq<byte>, k: nat)
    requires |name| <= 99 && IsType(t) && -INT_MAX - 1 <= size <= INT_MAX && k < 512
    requires mode == Octal(if t == REGULAR then 420 else 493, 7) && sz == Octal(SizeWord(size), 11)
    ensures |mode| == 7 && |sz| == 11 && FrontHalf(name, t, size)[k] == FrontByte(name, mode, sz, k)
  {
    FieldsFit(t, size);
    FrontByteIs(name, mode, sz, k);
  }

  lemma BackIs(f: Header, t: byte, mtime: seq<byte>, k: nat)
    requires mtime == Octal(1136102400, 11) && k < 512
    ensures |mtime| == 11 && BackOver(f, t)[k] == BackByte(f[k], t, mtime, k)
  {
    MtimeFits();
    BackByteIs(f, t, mtime, k);
  }

  lemma SummedIs(u: Header, sum: seq<byte>, k: nat)
    requires sum == Octal(Checksum(u), 7) && k < 512
    ensures |sum| == 7 && Summed(u)[k] == if 148 <= k < 155 then sum[k - 148] else if k == 155 then 0 else u[k]
  {
    ChecksumFits(u);
    WithByte(u, CHKSUM, sum + [0], k);
  }

  /** `s` is made of octal digits that say `v`. */
  predicate SaysOctal(s: seq<byte>, v: nat) {
    (forall k :: 0 <= k < |s| ==> 48 <= s[k] <= 55) && NumberOf(s, 8) == v
  }

  /** The finished header, byte for byte: the name, mode 644 or 755, owner and group 0, the size, the time, the checksum,
      the type, the magic number and version, the names of owner and group, and zeros in between. */
  lemma HeaderIs(name: seq<byte>, t: byte, size: int)
      returns (mode: seq<byte>, sz: seq<byte>, mtime: seq<byte>, sum: seq<byte>)
    requires |name| <= 99 && IsType(t) && -INT_MAX - 1 <= size <= INT_MAX
    ensures |mode| == |sum| == 7 && |sz| == |mtime| == 11
    ensures SaysOctal(mode, if t == 48 then 6 * 64 + 4 * 8 + 4 else 7 * 64 + 5 * 8 + 5) && SaysOctal(mtime, 1136102400)
    ensures SaysOctal(sz, if size >= 0 then size else size + 0x1_0000_0000)
    ensures var h := HeaderFor(name, t, size); SaysOctal(sum, Total(h[..148]) + 8 * 32 + Total(h[156..]))
    ensures forall k :: 0 <= k < 512 ==>
      HeaderFor(name, t, size)[k] == HeaderByte(name, t, mode, sz, mtime, sum, k)
  {
    var f := FrontHalf(name, t, size);
    var u := BackOver(f, t);
    mode, sz, mtime, sum := HeaderNumbers(t, size, u);
    forall k | 0 <= k < 512 ensures Summed(u)[k] == HeaderByte(name, t, mode, sz, mtime, sum, k) {
      FrontIs(name, t, size, mode, sz, k);
      BackIs(f, t, mtime, k);
      SummedIs(u, sum, k);
    }
    SumKept(u);
    ChecksumIs(Summed(u));
  }

  lemma SumKept(u: Header)
    ensures Checksum(Summed(u)) == Checksum(u)
  {
    ChecksumFits(u);
    var h := Summed(u);
    forall k | 0 <= k < 512 && !(148 <= k < 156) ensures u[k] == h[k] {
      WithByte(u, CHKSUM, Octal(Checksum(u), 7) + [0], k);
    }
    SumIgnoresField(u, h, |u|);
  }

  lemma HeaderNumbers(t: byte, size: int, u: Header)
      returns (mode: seq<byte>, sz: seq<byte>, mtime: seq<byte>, sum: seq<byte>)
    requires IsType(t) && -INT_MAX - 1 <= size <= INT_MAX
    ensures mode == Octal(if t == REGULAR then 420 else 493, 7) && sz == Octal(SizeWord(size), 11)
    ensures mtime == Octal(1136102400, 11) && sum == Octal(Checksum(u), 7)
    ensures |mode| == |sum| == 7 && |sz| == |mtime| == 11 && SaysOctal(mtime, 1136102400) && SaysOctal(sum, Checksum(u))
    ensures SaysOctal(mode, if t == 48 then 6 * 64 + 4 * 8 + 4 else 7 * 64 + 5 * 8 + 5)
    ensures SaysOctal(sz, if size >= 0 then size else size + 0x1_0000_0000)
  {
    Powers();
    mode := OctalSays(if t == REGULAR then 420 else 493, 7);
    sz := OctalSays(SizeWord(size), 11);
    mtime := OctalSays(1136102400, 11);
    sum := OctalSays(Checksum(u), 7);
  }

  lemma OctalSays(v: nat, n: nat) returns (s: seq<byte>)
    requires 0 < n < 64 && v < Pow8(n)
    ensures s == Octal(v, n) && |s| == n && SaysOctal(s, v)
  {
    OctalIs(v, n);
    s := Octal(v, n);
  }

  // ---------------------------------------------------------------- parsing

  datatype Error =
    | NotUstar | BadVersion | CorruptChksum | ChksumMismatch | NameTooLong | UnimplementedType | CorruptSize | FileTooLarge

  datatype Parsed = EndOfArchive | Bad(error: Error) | Entry(name: seq<byte>, t: byte, size: nat)

  /** What ustar_parse_header makes of a header. */
  function Parse(h: Header): Parsed {
    if forall k :: 0 <= k < HEADER_SIZE ==> h[k] == 0 then EndOfArchive
    else if h[MAGIC..MAGIC + 6] != USTAR + [0] then Bad(NotUstar)
    else if h[VERSION] != 48 || h[VERSION + 1] != 48 then Bad(BadVersion)
    else if ParseFrom(h[CHKSUM..CHKSUM + 8], 0, 0).None? then Bad(CorruptChksum)
    else if ParseFrom(h[CHKSUM..CHKSUM + 8], 0, 0).value != Checksum(h) then Bad(ChksumMismatch)
    else if h[99] != 0 || h[PREFIX] != 0 then Bad(NameTooLong)
    else if !IsType(h[TYPEFLAG]) then Bad(UnimplementedType)
    else if h[TYPEFLAG] == REGULAR && ParseFrom(h[SIZE..SIZE + 12], 0, 0).None? then Bad(CorruptSize)
    else if h[TYPEFLAG] == REGULAR && ParseFrom(h[SIZE..SIZE + 12], 0, 0).value > INT_MAX then Bad(FileTooLarge)
    else Entry(Strip(CString(h[NAME..NAME + 100])), h[TYPEFLAG],
               if h[TYPEFLAG] == REGULAR then ParseFrom(h[SIZE..SIZE + 12], 0, 0).value else 0)
  }

  /** A header parses as a file or directory exactly when every field is as it should be: the magic number, version 00, a
      checksum that is right, a name that ends inside its field and has no prefix, a type that is known, and for a file a
      size that fits an int. */
  lemma ParsesIff(h: Header, name: seq<byte>, t: byte, size: nat)
    ensures Parse(h) == Entry(name, t, size) <==>
      && h[257..263] == [117, 115, 116, 97, 114, 0] && h[263] == 48 && h[264] == 48
      && ReadsOctal(h[148..156], Total(h[..148]) + 8 * 32 + Total(h[156..]))
      && h[99] == 0 && h[345] == 0 && h[156] == t && (t == 48 || t == 53) && name == Strip(CString(h[0..100]))
      && (if t == 48 then size <= 0x7FFF_FFFF && ReadsOctal(h[124..136], size) else size == 0)
  {
    ChecksumIs(h);
    OctalFieldIff(h[148..156], Checksum(h));
    OctalFieldIff(h[124..136], size);
    assert h[257..263] == [117, 115, 116, 97, 114, 0] ==> h[257] == h[257..263][0];
  }

  /** An archive ends at a block of zeros and nowhere else. */
  lemma EndsIff(h: Header)
    ensures Parse(h) == EndOfArchive <==> Total(h) == 0
  {
    TotalZeroIff(h);
  }

  lemma {:induction false} TotalZeroIff(s: seq<byte>)
    ensures Total(s) == 0 <==> forall k :: 0 <= k < |s| ==> s[k] == 0
  {
    if s != [] {
      TotalZeroIff(s[..|s| - 1]);
    }
  }

  lemma FieldSlice(h: Header, ofs: nat, data: seq<byte>)
    requires HasField(h, ofs, data)
    ensures h[ofs..ofs + |data|] == data
  {
    var s := h[ofs..ofs + |data|];
    forall k | 0 <= k < |data| ensures s[k] == data[k] {
      assert s[k] == h[ofs + k];
    }
  }

  lemma NameReadsBack(h: Header, name: seq<byte>)
    requires |name| <= 99 && NoNul(name) && HasName(h, name)
    ensures CString(h[NAME..NAME + 100]) == name && h[99] == 0 && h[PREFIX] == 0
  {
    FieldSlice(h, NAME, name + [0]);
    var rest := h[|name| + 1..100];
    assert h[0..100] == h[0..|name| + 1] + rest;
    assert h[0..100] == name + ([0] + rest);
    CStringOf(name, rest);
    assert h[99 + 0] == [0][0] && h[PREFIX + 0] == [0][0];
  }

  /** What a header for a file of the given name, type and size word says. */
  function Said(n: seq<byte>, t: byte, v: nat): Parsed {
    if t == DIRECTORY then Entry(n, t, 0) else if v <= INT_MAX then Entry(n, t, v) else Bad(FileTooLarge)
  }

  /** What is made parses: the name comes back stripped, the type as it was, and the size too. A directory's size reads
      as 0, and a negative size of a file, being a large word, is refused. */
  lemma RoundTrip(name: seq<byte>, t: byte, size: int)
    requires NoNul(name) && |Strip(name)| <= 99 && IsType(t) && -INT_MAX - 1 <= size <= INT_MAX
    ensures Parse(HeaderFor(Strip(name), t, size)) == Said(Strip(name), t, SizeWord(size))
  {
    var n := Strip(name);
    StripKeepsNoNul(name);
    StripIsIdempotent(name);
    HeaderFields(n, t, size);
    IsReadable(HeaderFor(n, t, size), n, t, SizeWord(size));
    ParsesAs(HeaderFor(n, t, size), n, t, SizeWord(size));
  }

  /** Each field reads as it should. */
  predicate Readable(h: Header, n: seq<byte>, t: byte, v: nat) {
    && h[99] == 0 && h[PREFIX] == 0 && h[TYPEFLAG] == t && h[VERSION] == 48 && h[VERSION + 1] == 48
    && CString(h[NAME..NAME + 100]) == n && h[MAGIC..MAGIC + 6] == USTAR + [0]
    && ParseFrom(h[CHKSUM..CHKSUM + 8], 0, 0) == Some(Checksum(h)) && ParseFrom(h[SIZE..SIZE + 12], 0, 0) == Some(v)
  }

  lemma IsReadable(h: Header, n: seq<byte>, t: byte, v: nat)
    requires NoNul(n) && |n| <= 99 && v <= ULONG_MAX
    requires HasName(h, n) && HasField(h, SIZE, Octal(v, 11) + [0])
    requires HasBack(h, t) && HasField(h, CHKSUM, Octal(Checksum(h), 7) + [0])
    ensures Readable(h, n, t, v)
  {
    NameReadsBack(h, n);
    BackReads(h, t);
    OctalFieldReads(h, CHKSUM, Checksum(h), 7);
    OctalFieldReads(h, SIZE, v, 11);
  }

  lemma BackReads(h: Header, t: byte)
    requires HasBack(h, t)
    ensures h[MAGIC..MAGIC + 6] == USTAR + [0] && h[VERSION] == 48 && h[VERSION + 1] == 48 && h[TYPEFLAG] == t
  {
    FieldSlice(h, MAGIC, USTAR + [0]);
    assert h[VERSION + 0] == [48, 48][0] && h[VERSION + 1] == [48, 48][1] && h[TYPEFLAG + 0] == [t][0];
  }

  lemma ParsesAs(h: Header, n: seq<byte>, t: byte, v: nat)
    requires IsType(t) && Strip(n) == n && Readable(h, n, t, v)
    ensures Parse(h) == Said(n, t, v)
  {
    assert h[VERSION] != 0;
  }

  lemma OctalFieldReads(h: Header, ofs: nat, v: nat, n: nat)
    requires (n == 7 && v <= 255 * HEADER_SIZE) || (n == 11 && v <= ULONG_MAX)
    requires HasField(h, ofs, Octal(v, n) + [0])
    ensures ofs + n + 1 <= HEADER_SIZE && ParseFrom(h[ofs..ofs + n + 1], 0, 0) == Some(v)
  {
    Powers();
    OctalIs(v, n);
    OctalRoundTrip(v, n, []);
    FieldSlice(h, ofs, Octal(v, n) + [0]);
    assert Octal(v, n) + [0] == Octal(v, n) + ([0] + []);
  }

  // ---------------------------------------------------------------- the code

  /** strchr for the slash that ends a dropped component. */
  method FindSlash(name: seq<byte>) returns (slash: nat)
    requires Dropped(name) > 0
    ensures slash + 1 == Dropped(name)
  {
    slash := 0;
    while name[slash] != SLASH
      invariant slash < Dropped(name) && forall k :: 0 <= k < slash ==> name[k] != SLASH
      decreases Dropped(name) - slash
    {
      slash := slash + 1;
    }
  }

  method StripPrefixes(fileName: seq<byte>) returns (r: seq<byte>)
    ensures r == Strip(fileName)
  {
    r := fileName;
    while Dropped(r) > 0
      invariant DropPrefixes(r) == DropPrefixes(fileName)
      decreases |r|
    {
      var slash := FindSlash(r);
      r := r[slash + 1..];
    }
    if r == [] || r == [DOT, DOT] {
      r := [DOT];
    }
  }

  lemma StoredIsField(h: Header, ofs: nat, size: nat, text: seq<byte>)
    requires ofs + size <= HEADER_SIZE && |text| < size
    ensures Stored(h, ofs, size, text) == WithField(h, ofs, text + [0])
  {
    assert text[..|text|] == text;
  }

  /** A header that has the field and is otherwise as before. */
  lemma FieldBytes(was: Header, now: Header, ofs: nat, data: seq<byte>)
    requires ofs + |data| <= HEADER_SIZE
    requires forall k {:trigger now[k]} :: 0 <= k < HEADER_SIZE ==>
      now[k] == if ofs <= k < ofs + |data| then data[k - ofs] else was[k]
    ensures now == WithField(was, ofs, data)
  {
    var r := WithField(was, ofs, data);
    forall k | 0 <= k < HEADER_SIZE ensures now[k] == r[k] {
    }
  }

  /** strlcpy into a field that is large enough. */
  method Strlcpy(header: array<byte>, ofs: nat, size: nat, src: seq<byte>)
    requires header.Length == HEADER_SIZE && ofs + size <= HEADER_SIZE && |src| < size
    modifies header
    ensures header[..] == WithField(old(header[..]), ofs, src + [0])
  {
    ghost var was := header[..];
    for i := 0 to |src|
      invariant forall k {:trigger header[k]} :: 0 <= k < HEADER_SIZE ==>
        header[k] == if ofs <= k < ofs + i then src[k - ofs] else was[k]
    {
      header[ofs + i] := src[i];
    }
    header[ofs + |src|] := 0;
    FieldBytes(was, header[..], ofs, src + [0]);
  }

  const OCTAL_7: seq<byte> := [37, 48, 55, 111]            // %07o
  const OCTAL_11: seq<byte> := [37, 48, 49, 49, 111]       // %011o

  predicate PrintsOctal(format: seq<byte>, width: nat) {
    (format == OCTAL_7 && width == 7) || (format == OCTAL_11 && width == 11)
  }

  /** What the two formats come to. */
  lemma OctalFormat(format: seq<byte>, args: seq<Printf.Arg>, width: nat, v: nat)
    requires PrintsOctal(format, width) && v < WORD && args == [Printf.Number(v)]
    ensures Printf.Printed(format, args) == Octal(v, width)
  {
    IsOneConversion(format, args, width, 111);
    OctalConverts(111, args, width, v);
  }

  lemma IsOneConversion(format: seq<byte>, args: seq<Printf.Arg>, width: nat, letter: byte)
    requires PrintsOctal(format, width) && |args| == 1 && letter == 111
    ensures Printf.Printed(format, args) == Printf.Converted(letter, Padded(width), Printf.Int, args)
  {
    var digits: seq<byte> := if width == 7 then [55] else [49, 49];
    var spec := Printf.Spec([ZERO], Printf.Digits(digits), Printf.Absent, Printf.Int, letter);
    WidthIs(digits, width);
    SpecIs(format, digits, width);
    assert Printf.SpecArgs(spec) + [args[0]] == args;
    Printf.ConversionAlone(format, args, spec, args[0]);
  }

  lemma OctalConverts(letter: byte, args: seq<Printf.Arg>, width: nat, v: nat)
    requires letter == 111 && v < WORD && args == [Printf.Number(v)]
    ensures Printf.Converted(letter, Padded(width), Printf.Int, args) == Octal(v, width)
  {
    assert v == Printf.AsUnsigned(Printf.NextNumber(args), Printf.Int);
    Printf.UnsignedConverts(letter, Padded(width), Printf.Int, args, v, BASE_O);
  }

  lemma SpecIs(format: seq<byte>, digits: seq<byte>, width: nat)
    requires PrintsOctal(format, width) && digits == (if width == 7 then [55] else [49, 49])
    requires NumberOf(digits, 10) == width
    ensures var spec := Printf.Spec([ZERO], Printf.Digits(digits), Printf.Absent, Printf.Int, 111);
      && Printf.WellWritten(spec) && format == [Printf.PERCENT] + Printf.SpecText(spec)
      && Printf.Meaning(spec) == Padded(width)
  {
  }

  lemma WidthIs(digits: seq<byte>, width: nat)
    requires (digits == [55] && width == 7) || (digits == [49, 49] && width == 11)
    ensures NumberOf(digits, 10) == width
  {
    NumberAppend([], digits[0], 10);
    if width == 11 {
      NumberAppend([49], 49, 10);
      assert digits == [49] + [49];
    }
  }

  /** snprintf of an octal number into a field that is large enough. */
  method PrintOctal(header: array<byte>, ofs: nat, size: nat, format: seq<byte>, ghost width: nat, v: nat)
    requires header.Length == HEADER_SIZE && ofs + size <= HEADER_SIZE && v < WORD
    requires PrintsOctal(format, width) && |Octal(v, width)| < size
    modifies header
    ensures header[..] == WithField(old(header[..]), ofs, Octal(v, width) + [0])
  {
    var args := [Printf.Number(v)];
    OctalFormat(format, args, width, v);
    StoredIsField(header[..], ofs, size, Octal(v, width));
    var n := Printf.Snprintf(header, ofs, size, format, args);
  }

  method StoreBytes(header: array<byte>, ofs: nat, data: seq<byte>)
    requires header.Length == HEADER_SIZE && ofs + |data| <= HEADER_SIZE
    modifies header
    ensures header[..] == WithField(old(header[..]), ofs, data)
  {
    ghost var was := header[..];
    for i := 0 to |data|
      invariant forall k {:trigger header[k]} :: 0 <= k < HEADER_SIZE ==>
        header[k] == if ofs <= k < ofs + i then data[k - ofs] else was[k]
    {
      header[ofs + i] := data[i];
    }
    FieldBytes(was, header[..], ofs, data);
  }

  method Clear(header: array<byte>)
    requires header.Length == HEADER_SIZE
    modifies header
    ensures header[..] == Empty()
  {
    for i := 0 to HEADER_SIZE
      invariant forall k :: 0 <= k < i ==> header[k] == 0
    {
      header[i] := 0;
    }
  }

  method FillFront(header: array<byte>, name: seq<byte>, t: byte, size: int)
    requires header.Length == HEADER_SIZE && |name| <= 99 && IsType(t) && -INT_MAX - 1 <= size <= INT_MAX
    modifies header
    ensures header[..] == FrontHalf(name, t, size)
  {
    FieldsFit(t, size);
    Clear(header);
    Strlcpy(header, NAME, 100, name);
    PrintOctal(header, MODE, 8, OCTAL_7, 7, if t == REGULAR then 420 else 493);
    Strlcpy(header, UID, 8, ZEROS7);
    Strlcpy(header, GID, 8, ZEROS7);
    PrintOctal(header, SIZE, 12, OCTAL_11, 11, SizeWord(size));
  }

  method FillBack(header: array<byte>, t: byte)
    requires header.Length == HEADER_SIZE
    modifies header
    ensures header[..] == BackOver(old(header[..]), t)
  {
    MtimeFits();
    PrintOctal(header, MTIME, 12, OCTAL_11, 11, 1136102400);
    StoreBytes(header, TYPEFLAG, [t]);
    Strlcpy(header, MAGIC, 6, USTAR);
    StoreBytes(header, VERSION, [48, 48]);
    Strlcpy(header, GNAME, 32, ROOT);
    Strlcpy(header, UNAME, 32, ROOT);
  }

  /** Composes a header; refuses only a name whose stripped form is too long. */
  method MakeHeader(fileName: seq<byte>, t: byte, size: int, header: array<byte>) returns (ok: bool)
    requires header.Length == HEADER_SIZE && NoNul(fileName) && IsType(t) && -INT_MAX - 1 <= size <= INT_MAX
    modifies header
    ensures ok <==> |Strip(fileName)| <= 99
    ensures !ok ==> header[..] == old(header[..])
    ensures ok ==> header[..] == HeaderFor(Strip(fileName), t, size)
    ensures ok && size >= 0 ==>
      Parse(header[..]) == Entry(Strip(fileName), t, if t == REGULAR then size else 0)
  {
    var name := StripPrefixes(fileName);
    if |name| > 99 {
      return false;
    }
    FillFront(header, name, t, size);
    FillBack(header, t);
    var chksum := CalculateChksum(header[..]);
    ChecksumFits(header[..]);
    SumBound(header[..]);
    PrintOctal(header, CHKSUM, 8, OCTAL_7, 7, chksum);
    RoundTrip(fileName, t, size);
    return true;
  }

  lemma SumBound(h: Header)
    ensures Checksum(h) <= 255 * HEADER_SIZE
  {
  }

  method IsAllZeros(h: Header) returns (r: bool)
    ensures r <==> forall k :: 0 <= k < HEADER_SIZE ==> h[k] == 0
  {
    var cnt := 0;
    while cnt < HEADER_SIZE
      invariant cnt <= HEADER_SIZE && forall k :: 0 <= k < cnt ==> h[k] == 0
    {
      if h[cnt] != 0 {
        return false;
      }
      cnt := cnt + 1;
    }
    return true;
  }

  method ParseHeader(h: Header) returns (r: Parsed)
    ensures r == Parse(h)
  {
    var zeros := IsAllZeros(h);
    if zeros {
      return EndOfArchive;
    }
    if h[MAGIC..MAGIC + 6] != USTAR + [0] {
      return Bad(NotUstar);
    } else if h[VERSION] != 48 || h[VERSION + 1] != 48 {
      return Bad(BadVersion);
    }
    var ok, chksum := ParseOctalField(h[CHKSUM..CHKSUM + 8]);
    if !ok {
      return Bad(CorruptChksum);
    }
    var sum := CalculateChksum(h);
    if chksum != sum {
      return Bad(ChksumMismatch);
    } else if h[99] != 0 || h[PREFIX] != 0 {
      return Bad(NameTooLong);
    } else if h[TYPEFLAG] != REGULAR && h[TYPEFLAG] != DIRECTORY {
      return Bad(UnimplementedType);
    }
    var size := 0;
    if h[TYPEFLAG] == REGULAR {
      ok, size := ParseOctalField(h[SIZE..SIZE + 12]);
      if !ok {
        return Bad(CorruptSize);
      } else if size > INT_MAX {
        return Bad(FileTooLarge);
      }
    }
    var name := StripPrefixes(CString(h[NAME..NAME + 100]));
    return Entry(name, h[TYPEFLAG], size);
  }
}

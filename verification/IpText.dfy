/**
 IPv4 addresses as text: the loose parser ip4addr_aton and the printer ip4addr_ntoa_r
 (device/sal/ip4_addr.c), and the strict parser ipstr_to_u32 (device/sal/sal_sockets.c).

 A C string is a sequence of characters; reading past its end yields the terminator.
 An address is the four bytes it has in memory, in network order.
 */
module IpText {
  import opened Wrappers

  const U32: nat := 0x1_0000_0000

  // The four bytes of an address in memory, most significant first.
  type Address = a: seq<nat> | |a| == 4 && forall i :: 0 <= i < 4 ==> a[i] < 256 witness [0, 0, 0, 0]

  // ---------------------------------------------------------------- characters

  predicate IsDigit(c: char) { '0' <= c <= '9' }

  predicate IsLower(c: char) { 'a' <= c <= 'z' }

  predicate IsXDigit(c: char) { IsDigit(c) || 'a' <= c <= 'f' || 'A' <= c <= 'F' }

  predicate IsSpace(c: char) { c == ' ' || c == '\U{000c}' || c == '\n' || c == '\r' || c == '\t' || c == '\U{000b}' }

  function DigitValue(c: char): (d: nat)
    requires IsDigit(c)
    ensures d < 10
  {
    c as nat - '0' as nat
  }

  function XDigitValue(c: char): (d: nat)
    requires IsXDigit(c) && !IsDigit(c)
    ensures 10 <= d < 16
  {
    c as nat + 10 - (if IsLower(c) then 'a' else 'A') as nat
  }

  function At(s: string, i: nat): char {
    if i < |s| then s[i] else '\0'
  }

  // ---------------------------------------------------------------- bits

  function Pow2(k: nat): (p: nat)
    ensures p > 0
  {
    if k == 0 then 1 else 2 * Pow2(k - 1)
  }

  function BitOr(x: nat, y: nat): nat
    decreases x + y
  {
    if x == 0 && y == 0 then 0
    else 2 * BitOr(x / 2, y / 2) + (if x % 2 == 1 || y % 2 == 1 then 1 else 0)
  }

  // x << k in 32 bits
  function Shl(x: nat, k: nat): nat
    decreases k
  {
    if k == 0 then x % U32 else Shl(2 * x, k - 1)
  }

  lemma {:induction false} ShlIsTimes(x: nat, k: nat)
    ensures Shl(x, k) == x * Pow2(k) % U32
    decreases k
  {
    if k > 0 {
      ShlIsTimes(2 * x, k - 1);
      assert 2 * x * Pow2(k - 1) == x * Pow2(k) by { TimesTwo(x, Pow2(k - 1)); }
    }
  }

  // Where the bits of two numbers do not meet, OR is addition.
  lemma {:induction false} OrIsSum(hi: nat, k: nat, lo: nat)
    requires lo < Pow2(k)
    ensures BitOr(hi * Pow2(k), lo) == hi * Pow2(k) + lo
    ensures BitOr(lo, hi * Pow2(k)) == hi * Pow2(k) + lo
    decreases k
  {
    if k > 0 {
      var h := hi * Pow2(k - 1);
      assert hi * Pow2(k) == 2 * h by { TimesTwo(hi, Pow2(k - 1)); }
      OrIsSum(hi, k - 1, lo / 2);
      OrHalves(h, lo);
    } else {
      OrZero(hi);
    }
  }

  lemma {:induction false} OrZero(x: nat)
    ensures BitOr(x, 0) == x && BitOr(0, x) == x
  {
    if x > 0 { OrZero(x / 2); }
  }

  lemma TimesTwo(hi: nat, p: nat)
    ensures hi * (2 * p) == 2 * (hi * p)
  {}

  lemma OrHalves(h: nat, lo: nat)
    ensures BitOr(2 * h, lo) == 2 * BitOr(h, lo / 2) + lo % 2
    ensures BitOr(lo, 2 * h) == 2 * BitOr(lo / 2, h) + lo % 2
  {
    assert 2 * h / 2 == h && 2 * h % 2 == 0;
    if h == 0 && lo == 0 {
      assert BitOr(0, 0) == 0;
    }
  }

  lemma Powers()
    ensures Pow2(4) == 16 && Pow2(8) == 0x100 && Pow2(16) == 0x1_0000 && Pow2(24) == 0x100_0000
  {}

  // ---------------------------------------------------------------- what a loose address means

  // u32_t arithmetic keeps the low 32 bits.
  function Mod32(x: nat): (r: nat)
    ensures r < U32 && (x < U32 ==> r == x)
  {
    if x < U32 then x else Mod32(x - U32)
  }

  datatype Base = Octal | Decimal | Hexadecimal

  function Times(val: nat, base: Base): nat {
    match base
    case Octal => 8 * val
    case Decimal => 10 * val
    case Hexadecimal => 16 * val
  }

  // The longest run of digits of the base, read as a number modulo 2^32, and what follows it.
  function Digits(s: string, base: Base, val: nat): (r: (nat, string))
    ensures |r.1| <= |s| && (val < U32 ==> r.0 < U32)
    decreases |s|
  {
    if s != [] && IsDigit(s[0]) then Digits(s[1..], base, Mod32(Times(val, base) + DigitValue(s[0])))
    else if base == Hexadecimal && s != [] && IsXDigit(s[0]) then
      Digits(s[1..], base, Mod32(Times(val, base) + XDigitValue(s[0])))
    else (val, s)
  }

  // A number as in C: 0x is hexadecimal, a leading 0 octal, anything else decimal.
  function Number(s: string): (r: (nat, string))
    requires s != [] && IsDigit(s[0])
    ensures |r.1| < |s| && r.0 < U32
  {
    if s[0] == '0' then
      if At(s, 1) == 'x' || At(s, 1) == 'X' then Digits(s[2..], Hexadecimal, 0) else Digits(s[1..], Octal, 0)
    else Digits(s, Decimal, 0)
  }

  // The numbers between dots, and what follows the last of them.
  function Parts(s: string): (r: Option<(seq<nat>, string)>)
    ensures r.Some? ==> |r.value.0| > 0 && |r.value.1| < |s| && forall i :: 0 <= i < |r.value.0| ==> r.value.0[i] < U32
    decreases |s|
  {
    if s == [] || !IsDigit(s[0]) then None
    else
      var (v, rest) := Number(s);
      if At(rest, 0) == '.' then
        match Parts(rest[1..])
        case None => None
        case Some((vs, tail)) => Some(([v] + vs, tail))
      else Some(([v], rest))
  }

  // The address of one to four parts: leading parts are one byte each, the last part fills the rest.
  function Meaning(parts: seq<nat>): Option<nat> {
    if |parts| == 1 && parts[0] < U32 then Some(parts[0])
    else if |parts| == 2 && parts[0] < 0x100 && parts[1] < 0x100_0000 then Some(parts[0] * 0x100_0000 + parts[1])
    else if |parts| == 3 && parts[0] < 0x100 && parts[1] < 0x100 && parts[2] < 0x1_0000 then
      Some(parts[0] * 0x100_0000 + parts[1] * 0x1_0000 + parts[2])
    else if |parts| == 4 && parts[0] < 0x100 && parts[1] < 0x100 && parts[2] < 0x100 && parts[3] < 0x100 then
      Some(parts[0] * 0x100_0000 + parts[1] * 0x1_0000 + parts[2] * 0x100 + parts[3])
    else None
  }

  // The text up to the end of the string or a white-space character is an address.
  function AddressOf(s: string): Option<nat> {
    match Parts(s)
    case None => None
    case Some((vs, tail)) => if At(tail, 0) == '\0' || IsSpace(At(tail, 0)) then Meaning(vs) else None
  }

  function NetworkBytes(v: nat): (b: Address)
    requires v < U32
    ensures b[0] * 0x100_0000 + b[1] * 0x1_0000 + b[2] * 0x100 + b[3] == v
  {
    var v1 := v / 0x100;
    var v2 := v1 / 0x100;
    [v2 / 0x100, v2 % 0x100, v1 % 0x100, v % 0x100]
  }

  // ---------------------------------------------------------------- the value of a number, without any bound

  predicate IsDigitOf(c: char, base: Base) {
    IsDigit(c) || (base == Hexadecimal && IsXDigit(c))
  }

  function DigitOf(c: char): nat
    requires IsXDigit(c)
  {
    if IsDigit(c) then DigitValue(c) else XDigitValue(c)
  }

  // The longest run of digits of the base at the head of s.
  function Run(s: string, base: Base): seq<nat>
    decreases |s|
  {
    if s != [] && IsDigitOf(s[0], base) then [DigitOf(s[0])] + Run(s[1..], base) else []
  }

  // The number that the digits ds spell after a number acc.
  function ValueAfter(acc: nat, ds: seq<nat>, base: Base): nat
    decreases |ds|
  {
    if ds == [] then acc else ValueAfter(Times(acc, base) + ds[0], ds[1..], base)
  }

  lemma {:induction false} Mod32Add(x: nat, k: nat)
    ensures Mod32(x + U32 * k) == Mod32(x)
    decreases k
  {
    if k > 0 {
      Mod32Add(x, k - 1);
      assert Mod32(x + U32 * k) == Mod32(x + U32 * k - U32);
    }
  }

  lemma Mod32IsRemainder(x: nat)
    ensures Mod32(x) == x % U32
  {
    Mod32Add(x % U32, x / U32);
  }

  lemma Mod32TimesPlus(p: nat, base: Base, d: nat)
    ensures Mod32(Times(Mod32(p), base) + d) == Mod32(Times(p, base) + d)
  {
    Mod32IsRemainder(p);
    Mod32Add(Times(p % U32, base) + d, Times(p / U32, base));
  }

  lemma OneDigit(s: string, base: Base, val: nat)
    requires s != [] && IsDigitOf(s[0], base)
    ensures Digits(s, base, val) == Digits(s[1..], base, Mod32(Times(val, base) + DigitOf(s[0])))
  {}

  lemma OneMoreDigit(s: string, base: Base, acc: nat)
    requires s != [] && IsDigitOf(s[0], base)
    ensures ValueAfter(acc, Run(s, base), base) == ValueAfter(Times(acc, base) + DigitOf(s[0]), Run(s[1..], base), base)
  {}

  // A number read digit by digit in 32 bits is the number its digits spell, modulo 2^32.
  lemma {:induction false} DigitsSpellTheNumber(s: string, base: Base, acc: nat)
    ensures Digits(s, base, Mod32(acc)).0 == ValueAfter(acc, Run(s, base), base) % U32
    decreases |s|
  {
    if s != [] && IsDigitOf(s[0], base) {
      OneDigit(s, base, Mod32(acc));
      OneMoreDigit(s, base, acc);
      Mod32TimesPlus(acc, base, DigitOf(s[0]));
      DigitsSpellTheNumber(s[1..], base, Times(acc, base) + DigitOf(s[0]));
    } else {
      Mod32IsRemainder(acc);
    }
  }

  // ---------------------------------------------------------------- ip4addr_aton

  // The digits from position i on.
  method ReadDigits(s: string, i: nat, base: Base) returns (val: nat, j: nat)
    requires i <= |s|
    ensures i <= j <= |s| && (val, s[j..]) == Digits(s[i..], base, 0)
  {
    val, j := 0, i;
    while true
      invariant i <= j <= |s| && val < U32
      invariant Digits(s[j..], base, val) == Digits(s[i..], base, 0)
      decreases |s| - j
    {
      var c := At(s, j);
      assert j < |s| ==> s[j..][1..] == s[j + 1..];
      if IsDigit(c) {
        val := Mod32(Times(val, base) + DigitValue(c));
        j := j + 1;
      } else if base == Hexadecimal && IsXDigit(c) {
        ShiftIn(val, XDigitValue(c));
        val := BitOr(Shl(val, 4), XDigitValue(c));
        j := j + 1;
      } else {
        break;
      }
    }
  }

  // One number of the address, from position i on.
  method ReadNumber(s: string, i: nat) returns (val: nat, j: nat)
    requires i < |s| && IsDigit(s[i])
    ensures i < j <= |s| && (val, s[j..]) == Number(s[i..])
  {
    var base := Decimal;
    j := i;
    if At(s, j) == '0' {
      j := j + 1;
      if At(s, j) == 'x' || At(s, j) == 'X' {
        base := Hexadecimal;
        j := j + 1;
      } else {
        base := Octal;
      }
    }
    assert s[j..] == s[i..][j - i..];
    val, j := ReadDigits(s, j, base);
  }

  lemma DropTopBits(val: nat, d: nat)
    requires d < 16
    ensures Mod32(16 * val + d) == val % 0x1000_0000 * 16 + d
  {
    var q, h := val / 0x1000_0000, val % 0x1000_0000;
    assert 16 * val + d == (16 * h + d) + U32 * q;
    Mod32Add(16 * h + d, q);
  }

  // Shifting a hexadecimal digit in.
  lemma ShiftIn(val: nat, d: nat)
    requires d < 16
    ensures BitOr(Shl(val, 4), d) == Mod32(16 * val + d)
  {
    var h := ShiftFour(val, d);
    OrIsSumAt(h, 4, 16, d);
  }

  lemma ShiftFour(val: nat, d: nat) returns (h: nat)
    requires d < 16
    ensures Shl(val, 4) == h * 16 && Mod32(16 * val + d) == h * 16 + d
  {
    h := val % 0x1000_0000;
    DropTopBits(val, d);
    DropTopBits(val, 0);
    ShlIs(val, 4, 16);
    Mod32IsRemainder(16 * val);
  }

  lemma ShlIs(x: nat, k: nat, p: nat)
    requires Place(k, p)
    ensures Shl(x, k) == x * p % U32
  {
    Powers();
    ShlIsTimes(x, k);
  }

  // The four places at which the parsers shift and OR.
  predicate Place(k: nat, p: nat) {
    (k == 4 && p == 16) || (k == 8 && p == 0x100) || (k == 16 && p == 0x1_0000) || (k == 24 && p == 0x100_0000)
  }

  lemma OrIsSumAt(hi: nat, k: nat, p: nat, lo: nat)
    requires Place(k, p) && lo < p
    ensures BitOr(hi * p, lo) == hi * p + lo && BitOr(lo, hi * p) == hi * p + lo
  {
    Powers();
    OrIsSum(hi, k, lo);
  }

  function Shifted2(a: nat, last: nat): nat {
    BitOr(last, Shl(a, 24))
  }

  function Shifted3(a: nat, b: nat, last: nat): nat {
    BitOr(last, BitOr(Shl(a, 24), Shl(b, 16)))
  }

  function Shifted4(a: nat, b: nat, c: nat, last: nat): nat {
    BitOr(last, BitOr(BitOr(Shl(a, 24), Shl(b, 16)), Shl(c, 8)))
  }

  // Shifted into place and OR-ed together, the parts of an address add up.
  lemma Shifted2AddsUp(a: nat, last: nat)
    requires a < 0x100 && last < 0x100_0000
    ensures Shifted2(a, last) == a * 0x100_0000 + last
  {
    ShlIs(a, 24, 0x100_0000);
    OrTwo(Shl(a, 24), a, last);
  }

  lemma Shifted3AddsUp(a: nat, b: nat, last: nat)
    requires a < 0x100 && b < 0x100 && last < 0x1_0000
    ensures Shifted3(a, b, last) == a * 0x100_0000 + b * 0x1_0000 + last
  {
    ShlIs(a, 24, 0x100_0000);
    ShlIs(b, 16, 0x1_0000);
    OrThree(Shl(a, 24), Shl(b, 16), a, b, last);
  }

  lemma Shifted4AddsUp(a: nat, b: nat, c: nat, last: nat)
    requires a < 0x100 && b < 0x100 && c < 0x100 && last < 0x100
    ensures Shifted4(a, b, c, last) == a * 0x100_0000 + b * 0x1_0000 + c * 0x100 + last
  {
    ShlIs(a, 24, 0x100_0000);
    ShlIs(b, 16, 0x1_0000);
    ShlIs(c, 8, 0x100);
    OrFour(Shl(a, 24), Shl(b, 16), Shl(c, 8), a, b, c, last);
  }

  // The switch on the number of parts: leading parts are shifted to their place and OR-ed in.
  method Compose(parts: seq<nat>, last: nat) returns (ok: bool, v: nat)
    requires |parts| <= 3 && last < U32 && forall i :: 0 <= i < |parts| ==> parts[i] < U32
    ensures ok == Meaning(parts + [last]).Some?
    ensures ok ==> v == Meaning(parts + [last]).value < U32
  {
    v := last;
    match |parts| {
      case 0 =>
      case 1 =>
        if v > 0xff_ffff || parts[0] > 0xff { return false, 0; }
        Shifted2AddsUp(parts[0], last);
        v := Shifted2(parts[0], v);
      case 2 =>
        if v > 0xffff || parts[0] > 0xff || parts[1] > 0xff { return false, 0; }
        Shifted3AddsUp(parts[0], parts[1], last);
        v := Shifted3(parts[0], parts[1], v);
      case _ =>
        if v > 0xff || parts[0] > 0xff || parts[1] > 0xff || parts[2] > 0xff { return false, 0; }
        Shifted4AddsUp(parts[0], parts[1], parts[2], last);
        v := Shifted4(parts[0], parts[1], parts[2], v);
    }
    return true, v;
  }

  lemma OrTwo(sa: nat, a: nat, last: nat)
    requires sa == a * 0x100_0000 && last < 0x100_0000
    ensures BitOr(last, sa) == sa + last && BitOr(sa, last) == sa + last
  {
    OrIsSumAt(a, 24, 0x100_0000, last);
  }

  lemma OrThree(sa: nat, sb: nat, a: nat, b: nat, last: nat)
    requires sa == a * 0x100_0000 && sb == b * 0x1_0000 && b < 0x100 && last < 0x1_0000
    ensures BitOr(last, BitOr(sa, sb)) == sa + sb + last && BitOr(BitOr(sa, sb), last) == sa + sb + last
  {
    OrTwo(sa, a, sb);
    var hi := a * 0x100 + b;
    assert hi * 0x1_0000 == sa + sb;
    OrIsSumAt(hi, 16, 0x1_0000, last);
  }

  lemma OrFour(sa: nat, sb: nat, sc: nat, a: nat, b: nat, c: nat, last: nat)
    requires sa == a * 0x100_0000 && sb == b * 0x1_0000 && sc == c * 0x100 && b < 0x100 && c < 0x100 && last < 0x100
    ensures BitOr(last, BitOr(BitOr(sa, sb), sc)) == sa + sb + sc + last
  {
    OrThree(sa, sb, a, b, sc);
    var hi := a * 0x1_0000 + b * 0x100 + c;
    assert hi * 0x100 == sa + sb + sc;
    OrIsSumAt(hi, 8, 0x100, last);
  }

  // The parts read so far are followed by those of the text from i on.
  ghost predicate Reading(s: string, parts: seq<nat>, i: nat) {
    i <= |s| && |parts| <= 3 && Parts(s) == Prepend(parts, Parts(s[i..]))
  }

  lemma StartReading(s: string)
    ensures Reading(s, [], 0)
  {
    assert s[0..] == s;
    if Parts(s).Some? { assert [] + Parts(s).value.0 == Parts(s).value.0; }
  }

  lemma NotANumber(s: string, parts: seq<nat>, i: nat)
    requires Reading(s, parts, i) && !IsDigit(At(s, i))
    ensures AddressOf(s).None?
  {}

  // One number of the address more.
  lemma NextPart(s: string, parts: seq<nat>, i: nat, val: nat, j: nat)
    requires Reading(s, parts, i) && i < |s| && IsDigit(s[i]) && i < j <= |s| && (val, s[j..]) == Number(s[i..])
    ensures At(s, j) != '.' ==> Parts(s) == Some((parts + [val], s[j..]))
    ensures At(s, j) == '.' && |parts| < 3 ==> Reading(s, parts + [val], j + 1)
    ensures At(s, j) == '.' && |parts| >= 3 ==> AddressOf(s).None?
  {
    assert s[i..][0] == s[i] && At(s[j..], 0) == At(s, j);
    if At(s, j) == '.' {
      var rest := Parts(s[j + 1..]);
      assert s[j..][1..] == s[j + 1..];
      PrependMore(parts, val, rest);
      if |parts| >= 3 { TooManyParts(parts, val, rest); }
    }
  }

  // ip4addr_aton's loop: the leading parts, the last one, and where it ends. It fails only on a text that has no
  // parts or too many of them.
  method ReadParts(s: string) returns (ok: bool, parts: seq<nat>, last: nat, i: nat)
    ensures !ok ==> AddressOf(s).None?
    ensures ok ==> i <= |s| && |parts| <= 3 && Parts(s) == Some((parts + [last], s[i..]))
  {
    parts, i, last := [], 0, 0;
    StartReading(s);
    while true
      invariant Reading(s, parts, i)
      decreases |s| - i
    {
      if !IsDigit(At(s, i)) {
        NotANumber(s, parts, i);
        return false, parts, last, i;
      }
      var val, j := ReadNumber(s, i);
      NextPart(s, parts, i, val, j);
      if At(s, j) != '.' { return true, parts, val, j; }
      if |parts| >= 3 { return false, parts, last, i; }
      parts := parts + [val];
      i := j + 1;
    }
  }

  // ip4addr_aton accepts exactly the texts that are addresses, and stores the address in network order.
  method Aton(s: string) returns (ok: bool, addr: Address)
    ensures ok == AddressOf(s).Some?
    ensures ok ==> AddressOf(s).value < U32 && addr == NetworkBytes(AddressOf(s).value)
  {
    addr := [0, 0, 0, 0];
    var parts, last, i;
    ok, parts, last, i := ReadParts(s);
    if !ok { return false, addr; }
    assert At(s[i..], 0) == At(s, i);
    PartsFit(s, parts, last);
    if At(s, i) != '\0' && !IsSpace(At(s, i)) { return false, addr; }
    var v;
    ok, v := Compose(parts, last);
    if ok { addr := NetworkBytes(v); }
  }

  // Every part is a number of 32 bits.
  lemma PartsFit(s: string, parts: seq<nat>, last: nat)
    requires Parts(s).Some? && Parts(s).value.0 == parts + [last]
    ensures last < U32 && forall k :: 0 <= k < |parts| ==> parts[k] < U32
  {
    var all := Parts(s).value.0;
    assert all[|parts|] == last;
    forall k | 0 <= k < |parts| ensures parts[k] < U32 { assert all[k] == parts[k]; }
  }

  // The parts already read, in front of those still to come.
  function Prepend(parts: seq<nat>, rest: Option<(seq<nat>, string)>): Option<(seq<nat>, string)> {
    match rest
    case None => None
    case Some((vs, tail)) => Some((parts + vs, tail))
  }

  lemma PrependMore(parts: seq<nat>, val: nat, rest: Option<(seq<nat>, string)>)
    ensures Prepend(parts, Prepend([val], rest)) == Prepend(parts + [val], rest)
  {
    if rest.Some? { assert parts + ([val] + rest.value.0) == parts + [val] + rest.value.0; }
  }

  lemma TooManyParts(parts: seq<nat>, val: nat, rest: Option<(seq<nat>, string)>)
    requires |parts| >= 3 && (rest.Some? ==> |rest.value.0| > 0)
    ensures var r := Prepend(parts + [val], rest); r.Some? ==> Meaning(r.value.0).None?
  {}

  // ---------------------------------------------------------------- dotted quads

  function DigitChar(d: nat): (c: char)
    requires d < 10
    ensures IsDigit(c) && DigitValue(c) == d
  {
    ('0' as nat + d) as char
  }

  // The decimal digits of n, without leading zeros.
  function Dec(n: nat): (s: string)
    ensures s != [] && IsDigit(s[0]) && (n > 0 ==> s[0] != '0')
  {
    if n < 10 then [DigitChar(n)] else Dec(n / 10) + [DigitChar(n % 10)]
  }

  function Quad(a: Address): string {
    Dec(a[0]) + ("." + (Dec(a[1]) + ("." + (Dec(a[2]) + ("." + Dec(a[3]))))))
  }

  function AddressValue(a: Address): (v: nat)
    ensures v < U32
  {
    a[0] * 0x100_0000 + a[1] * 0x1_0000 + a[2] * 0x100 + a[3]
  }

  lemma DigitsStep(c: char, t: string, val: nat)
    requires IsDigit(c)
    ensures Digits([c] + t, Decimal, val) == Digits(t, Decimal, Mod32(10 * val + DigitValue(c)))
  {
    assert ([c] + t)[1..] == t;
    OneDigit([c] + t, Decimal, val);
  }

  // The last digit of a printed number, in front of what follows.
  lemma DecLast(n: nat, t: string)
    requires n >= 10
    ensures Dec(n) + t == Dec(n / 10) + ([DigitChar(n % 10)] + t) && |Dec(n)| == |Dec(n / 10)| + 1
  {}

  // Reading a printed number puts it in front of whatever digits follow.
  lemma {:induction false} DigitsOfDec(n: nat, t: string)
    requires n < U32
    ensures Digits(Dec(n) + t, Decimal, 0) == Digits(t, Decimal, n)
    decreases n
  {
    var d := DigitChar(n % 10);
    if n < 10 {
      DigitsStep(d, t, 0);
    } else {
      DecLast(n, t);
      DigitsOfDec(n / 10, [d] + t);
      DigitsStep(d, t, n / 10);
    }
  }

  // The number at the head of a printed number is that number.
  lemma NumberOfDec(n: nat, t: string)
    requires n < U32 && (t == [] || t[0] == '.')
    ensures Number(Dec(n) + t) == (n, t)
  {
    if n == 0 {
      assert (Dec(0) + t)[1..] == t && At(Dec(0) + t, 1) == At(t, 0);
    } else {
      DigitsOfDec(n, t);
    }
  }

  lemma PartsOfDec(b: nat, t: string)
    requires b < U32
    ensures Parts(Dec(b)) == Some(([b], []))
    ensures Parts(Dec(b) + ("." + t)) == Prepend([b], Parts(t))
  {
    NumberOfDec(b, "");
    assert Dec(b) + "" == Dec(b);
    NumberOfDec(b, "." + t);
    assert ("." + t)[1..] == t;
  }

  lemma PartsOfQuad(b0: nat, b1: nat, b2: nat, b3: nat)
    requires b0 < 256 && b1 < 256 && b2 < 256 && b3 < 256
    ensures Parts(Dec(b0) + ("." + (Dec(b1) + ("." + (Dec(b2) + ("." + Dec(b3))))))) == Some(([b0, b1, b2, b3], []))
  {
    var q3 := Dec(b3);
    var q2 := Dec(b2) + ("." + q3);
    var q1 := Dec(b1) + ("." + q2);
    PartsOfDec(b3, "");
    PartsOfDec(b2, q3);
    assert Parts(q2) == Some(([b2, b3], [])) by { assert [b2] + [b3] == [b2, b3]; }
    PartsOfDec(b1, q2);
    assert Parts(q1) == Some(([b1, b2, b3], [])) by { assert [b1] + [b2, b3] == [b1, b2, b3]; }
    PartsOfDec(b0, q1);
    assert [b0] + [b1, b2, b3] == [b0, b1, b2, b3];
  }

  // Parsing the printed form of an address gives the address back.
  lemma QuadRoundTrip(a: Address)
    ensures AddressOf(Quad(a)) == Some(AddressValue(a))
    ensures NetworkBytes(AddressValue(a)) == a
  {
    QuadReads(a);
    BytesOfValue(a[0], a[1], a[2], a[3]);
    assert a == [a[0], a[1], a[2], a[3]];
  }

  lemma QuadReads(a: Address)
    ensures AddressOf(Quad(a)) == Some(AddressValue(a))
  {
    PartsOfQuad(a[0], a[1], a[2], a[3]);
  }

  lemma BytesOfValue(b0: nat, b1: nat, b2: nat, b3: nat)
    requires b0 < 256 && b1 < 256 && b2 < 256 && b3 < 256
    ensures NetworkBytes(b0 * 0x100_0000 + b1 * 0x1_0000 + b2 * 0x100 + b3) == [b0, b1, b2, b3]
  {
    var v := b0 * 0x100_0000 + b1 * 0x1_0000 + b2 * 0x100 + b3;
    var v1 := b0 * 0x1_0000 + b1 * 0x100 + b2;
    var v2 := b0 * 0x100 + b1;
    assert v == v1 * 0x100 + b3 && v1 == v2 * 0x100 + b2;
    assert v / 0x100 == v1 && v1 / 0x100 == v2;
  }

  // ---------------------------------------------------------------- ip4addr_ntoa_r

  function Reverse(s: string): (r: string)
    ensures |r| == |s|
  {
    if s == [] then [] else [s[|s| - 1]] + Reverse(s[..|s| - 1])
  }

  // The digits of a byte, least significant first.
  method ByteDigits(b: nat) returns (inv: string)
    requires b < 256
    ensures Reverse(inv) == Dec(b) && |inv| <= 3
  {
    var ap: nat := b / 10;
    inv := [DigitChar(b % 10)];
    assert Reverse(inv) == [DigitChar(b % 10)];
    while ap != 0
      invariant (if ap == 0 then [] else Dec(ap)) + Reverse(inv) == Dec(b)
      invariant |inv| == 1 ==> ap < 26
      invariant |inv| == 2 ==> ap < 3
      invariant 1 <= |inv| <= 3 && (|inv| == 3 ==> ap == 0)
      decreases ap
    {
      ghost var was, n: nat := inv, ap;
      inv := inv + [DigitChar(ap % 10)];
      ap := ap / 10;
      assert inv[..|inv| - 1] == was;
      assert Dec(n) == (if ap == 0 then [] else Dec(ap)) + [DigitChar(n % 10)];
    }
  }

  // The text of the first n bytes, each followed by a dot.
  function Dotted(a: Address, n: nat): string
    requires n <= 4
  {
    if n == 0 then "" else Dotted(a, n - 1) + Dec(a[n - 1]) + "."
  }

  // The text from group n on.
  function QuadFrom(a: Address, n: nat): string
    requires n < 4
    decreases 4 - n
  {
    if n == 3 then Dec(a[3]) else Dec(a[n]) + ("." + QuadFrom(a, n + 1))
  }

  lemma {:induction false} DottedThenRest(a: Address, n: nat)
    requires n < 4
    ensures Dotted(a, n) + QuadFrom(a, n) == QuadFrom(a, 0)
  {
    if n == 0 {
      assert "" + QuadFrom(a, 0) == QuadFrom(a, 0);
    } else {
      DottedThenRest(a, n - 1);
      Regroup(Dotted(a, n - 1), Dec(a[n - 1]), QuadFrom(a, n));
    }
  }

  lemma Regroup(x: string, y: string, z: string)
    ensures (x + y + ".") + z == x + (y + ("." + z))
  {}

  lemma DottedIsQuad(a: Address)
    ensures Dotted(a, 4) == Quad(a) + "."
  {
    DottedThenRest(a, 3);
    assert QuadFrom(a, 2) == Dec(a[2]) + ("." + Dec(a[3]));
    assert QuadFrom(a, 1) == Dec(a[1]) + ("." + QuadFrom(a, 2));
    assert QuadFrom(a, 0) == Quad(a);
  }

  lemma {:induction false} DottedGrows(a: Address, n: nat, m: nat)
    requires n <= m <= 4
    ensures |Dotted(a, n)| <= |Dotted(a, m)|
    decreases m
  {
    if n < m { DottedGrows(a, n, m - 1); }
  }

  method PutChar(buf: array<char>, at: nat, c: char)
    requires at < buf.Length
    modifies buf
    ensures buf[..at + 1] == old(buf[..at]) + [c]
    ensures forall k :: 0 <= k < buf.Length && k != at ==> buf[k] == old(buf[k])
  {
    buf[at] := c;
    assert buf[..at] == old(buf[..at]);
  }

  lemma ReverseStep(done: string, inv: string, i: nat)
    requires i < |inv|
    ensures (done + [inv[i]]) + Reverse(inv[..i]) == done + Reverse(inv[..i + 1])
  {
    assert inv[..i + 1][..i] == inv[..i];
  }

  // Writes inv backwards from position len on, while it fits.
  method PutReversed(buf: array<char>, buflen: int, len: nat, inv: string) returns (ok: bool)
    requires len <= buf.Length && buflen <= buf.Length && inv != []
    modifies buf
    ensures ok <==> len + |inv| <= buflen
    ensures ok ==> buf[..len + |inv|] == old(buf[..len]) + Reverse(inv)
    ensures forall k :: 0 <= k < buf.Length && k >= buflen ==> buf[k] == old(buf[k])
  {
    var i, at := |inv|, len;
    assert inv[..|inv|] == inv;
    while i > 0
      invariant 0 <= i <= |inv| && at == len + |inv| - i <= buf.Length
      invariant i < |inv| ==> at <= buflen
      invariant buf[..at] + Reverse(inv[..i]) == old(buf[..len]) + Reverse(inv)
      invariant forall k :: 0 <= k < buf.Length && k >= buflen ==> buf[k] == old(buf[k])
    {
      i := i - 1;
      if at >= buflen { return false; }
      ReverseStep(buf[..at], inv, i);
      PutChar(buf, at, inv[i]);
      at := at + 1;
    }
    return true;
  }

  // Writes inv backwards and a dot.
  method PutGroup(buf: array<char>, buflen: int, len: nat, inv: string) returns (ok: bool)
    requires len <= buf.Length && buflen <= buf.Length && inv != []
    modifies buf
    ensures ok <==> len + |inv| + 1 <= buflen
    ensures ok ==> buf[..len + |inv| + 1] == old(buf[..len]) + Reverse(inv) + "."
    ensures forall k :: 0 <= k < buf.Length && k >= buflen ==> buf[k] == old(buf[k])
  {
    ok := PutReversed(buf, buflen, len, inv);
    if !ok || len + |inv| >= buflen { return false; }
    ghost var done := buf[..len + |inv|];
    buf[len + |inv|] := '.';
    assert buf[..len + |inv| + 1] == done + ".";
  }

  // ip4addr_ntoa_r: buf has room for buflen characters. The text is stored exactly when it fits with its terminator.
  method NtoaR(addr: Address, buf: array<char>, buflen: int) returns (ok: bool)
    requires buflen <= buf.Length
    modifies buf
    ensures ok <==> buflen >= |Quad(addr)| + 1
    ensures ok ==> buf[..|Quad(addr)|] == Quad(addr) && buf[|Quad(addr)|] == '\0'
    ensures forall k :: 0 <= k < buf.Length && k >= buflen ==> buf[k] == old(buf[k])
  {
    var len := 0;
    ghost var text := Dotted(addr, 4);
    for n := 0 to 4
      invariant len == |Dotted(addr, n)| <= |text| && len <= buf.Length && (n > 0 ==> len <= buflen)
      invariant buf[..len] == Dotted(addr, n)
      invariant forall k :: 0 <= k < buf.Length && k >= buflen ==> buf[k] == old(buf[k])
    {
      DottedGrows(addr, n + 1, 4);
      var inv := ByteDigits(addr[n]);
      ok := PutGroup(buf, buflen, len, inv);
      if !ok {
        DottedIsQuad(addr);
        return false;
      }
      len := len + |inv| + 1;
    }
    DottedIsQuad(addr);
    assert buf[..len - 1] == buf[..len][..len - 1];
    buf[len - 1] := '\0';
    return true;
  }

  // ---------------------------------------------------------------- ipstr_to_u32

  // What ipstr_to_u32 makes of the text s after stridx characters and dotnum dots, with n the number being
  // read and q the bytes stored so far.
  function Strict(s: string, stridx: nat, dotnum: nat, n: nat, q: Address): (r: (int, Address))
    requires dotnum <= 4
    decreases |s|
  {
    if s != [] && s[0] != '\0' && stridx < 15 && dotnum < 4 then
      if s[0] == '.' then Strict(s[1..], stridx + 1, dotnum + 1, 0, q[dotnum := n % 256])
      else if !IsDigit(s[0]) then (-1, q)
      else Strict(s[1..], stridx + 1, dotnum, (n * 10 + DigitValue(s[0])) % 256, q)
    else if dotnum >= 4 || stridx > 15 then (-1, q)
    else (0, q[dotnum := n % 256])
  }

  method IpstrToU32(s: string, q0: Address) returns (ret: int, q: Address)
    ensures (ret, q) == Strict(s, 0, 0, 0, q0)
  {
    var n: nat, stridx: nat, dotnum: nat := 0, 0, 0;
    q := q0;
    assert s[0..] == s;
    while At(s, stridx) != '\0' && stridx < 15 && dotnum < 4
      invariant stridx <= |s| && stridx <= 15 && dotnum <= 4 && n < 256
      invariant Strict(s[stridx..], stridx, dotnum, n, q) == Strict(s, 0, 0, 0, q0)
      decreases 15 - stridx
    {
      assert s[stridx..][1..] == s[stridx + 1..];
      if s[stridx] == '.' {
        q := q[dotnum := n];
        n := 0;
        dotnum := dotnum + 1;
      } else if !IsDigit(s[stridx]) {
        return -1, q;
      } else {
        n := (n * 10 + DigitValue(s[stridx])) % 256;
      }
      stridx := stridx + 1;
    }
    if dotnum >= 4 || stridx > 15 { return -1, q; }
    return 0, q[dotnum := n];
  }

  // The characters that are looked at: up to a terminator, 15 at most.
  function Visible(s: string, n: nat): string
    decreases n
  {
    if s == [] || s[0] == '\0' || n == 0 then [] else [s[0]] + Visible(s[1..], n - 1)
  }

  predicate IsDotted(u: string) {
    forall i :: 0 <= i < |u| ==> u[i] == '.' || IsDigit(u[i])
  }

  // The texts between the dots
  function Groups(u: string): (g: seq<string>)
    ensures |g| > 0
    decreases |u|
  {
    if u == [] then [[]]
    else
      var g := Groups(u[1..]);
      if u[0] == '.' then [[]] + g else [[u[0]] + g[0]] + g[1..]
  }

  // The number that digits spell after n, any other character counting as 0.
  function DecimalAfter(n: nat, g: string): nat
    decreases |g|
  {
    if g == [] then n else DecimalAfter(n * 10 + (if IsDigit(g[0]) then DigitValue(g[0]) else 0), g[1..])
  }

  // The bytes from d on are the numbers of the groups modulo 256, the first one going on from n.
  function Fill(q: Address, d: nat, n: nat, g: seq<string>): Address
    requires g != [] && d + |g| <= 4
    decreases |g|
  {
    var q' := q[d := DecimalAfter(n, g[0]) % 256];
    if |g| == 1 then q' else Fill(q', d + 1, 0, g[1..])
  }

  lemma TimesTenModulo(n: nat, m: nat, d: nat)
    requires n % 256 == m % 256
    ensures (n * 10 + d) % 256 == (m * 10 + d) % 256
  {
    var k := n / 256 - m / 256;
    assert n * 10 + d == (m * 10 + d) + 256 * (10 * k);
    AddMultiple(m * 10 + d, 10 * k);
  }

  lemma AddMultiple(x: int, k: int)
    ensures (x + 256 * k) % 256 == x % 256
  {}

  lemma {:induction false} DecimalModulo(n: nat, m: nat, g: string)
    requires n % 256 == m % 256
    ensures DecimalAfter(n, g) % 256 == DecimalAfter(m, g) % 256
    decreases |g|
  {
    if g != [] {
      var d := if IsDigit(g[0]) then DigitValue(g[0]) else 0;
      TimesTenModulo(n, m, d);
      DecimalModulo(n * 10 + d, m * 10 + d, g[1..]);
    }
  }

  // From a point on, the rest is accepted exactly if it is digits and dots with few enough dots; the groups then fill
  // the bytes.
  ghost predicate Reads(s: string, k: nat, d: nat, n: nat, q: Address)
    requires k <= 15 && d < 4
  {
    var u := Visible(s, 15 - k);
    var r := Strict(s, k, d, n, q);
    && (r.0 == 0 <==> IsDotted(u) && d + |Groups(u)| <= 4)
    && (IsDotted(u) && d + |Groups(u)| <= 4 ==> r.1 == Fill(q, d, n, Groups(u)))
  }

  lemma ReadsEnd(s: string, k: nat, d: nat, n: nat, q: Address)
    requires k <= 15 && d < 4 && n < 256 && Visible(s, 15 - k) == []
    ensures Reads(s, k, d, n, q)
  {
    assert DecimalAfter(n, []) == n;
  }

  lemma VisibleTail(s: string, k: nat)
    requires k <= 15 && Visible(s, 15 - k) != []
    ensures k < 15 && s != [] && s[0] != '\0'
    ensures var u := Visible(s, 15 - k); u[0] == s[0] && u[1..] == Visible(s[1..], 15 - (k + 1))
  {}

  lemma ReadsDot(s: string, k: nat, d: nat, n: nat, q: Address)
    requires k < 15 && d < 4 && n < 256 && Visible(s, 15 - k) != [] && s[0] == '.'
    requires d < 3 ==> Reads(s[1..], k + 1, d + 1, 0, q[d := n])
    ensures Reads(s, k, d, n, q)
  {
    VisibleTail(s, k);
    var u := Visible(s, 15 - k);
    DottedTail(u);
    var g := Groups(u[1..]);
    assert Groups(u) == [[]] + g && ([[]] + g)[1..] == g;
    assert Strict(s, k, d, n, q) == Strict(s[1..], k + 1, d + 1, 0, q[d := n]);
  }

  lemma ReadsDigit(s: string, k: nat, d: nat, n: nat, q: Address)
    requires k < 15 && d < 4 && n < 256 && Visible(s, 15 - k) != [] && IsDigit(s[0])
    requires Reads(s[1..], k + 1, d, (n * 10 + DigitValue(s[0])) % 256, q)
    ensures Reads(s, k, d, n, q)
  {
    VisibleTail(s, k);
    var u := Visible(s, 15 - k);
    DottedTail(u);
    FillDigit(q, d, n, s[0], Groups(u[1..]));
    assert Strict(s, k, d, n, q) == Strict(s[1..], k + 1, d, (n * 10 + DigitValue(s[0])) % 256, q);
  }

  lemma ReadsOther(s: string, k: nat, d: nat, n: nat, q: Address)
    requires k < 15 && d < 4 && n < 256 && Visible(s, 15 - k) != [] && !IsDigit(s[0]) && s[0] != '.'
    ensures Reads(s, k, d, n, q)
  {
    VisibleTail(s, k);
    DottedTail(Visible(s, 15 - k));
  }

  lemma {:induction false} StrictFrom(s: string, k: nat, d: nat, n: nat, q: Address)
    requires k <= 15 && d < 4 && n < 256
    ensures Reads(s, k, d, n, q)
    decreases |s|
  {
    if Visible(s, 15 - k) == [] {
      ReadsEnd(s, k, d, n, q);
    } else {
      VisibleTail(s, k);
      if s[0] == '.' {
        if d < 3 { StrictFrom(s[1..], k + 1, d + 1, 0, q[d := n]); }
        ReadsDot(s, k, d, n, q);
      } else if IsDigit(s[0]) {
        StrictFrom(s[1..], k + 1, d, (n * 10 + DigitValue(s[0])) % 256, q);
        ReadsDigit(s, k, d, n, q);
      } else {
        ReadsOther(s, k, d, n, q);
      }
    }
  }

  lemma DottedTail(u: string)
    requires u != []
    ensures IsDotted(u) <==> (u[0] == '.' || IsDigit(u[0])) && IsDotted(u[1..])
  {
    forall i | 0 < i < |u| ensures u[i] == u[1..][i - 1] {}
  }

  lemma FillDigit(q: Address, d: nat, n: nat, c: char, g: seq<string>)
    requires IsDigit(c) && g != [] && n < 256
    ensures d + |g| <= 4 ==>
      Fill(q, d, (n * 10 + DigitValue(c)) % 256, g) == Fill(q, d, n, [[c] + g[0]] + g[1..])
  {
    var m := n * 10 + DigitValue(c);
    assert ([c] + g[0])[1..] == g[0];
    DecimalModulo(m % 256, m, g[0]);
    assert ([[c] + g[0]] + g[1..])[1..] == g[1..];
  }

  // The strict parser looks at 15 characters at most. It accepts exactly digits and up to three dots, and stores the
  // number of each group modulo 256, 0 for an empty one; bytes without a group stay as they were.
  lemma StrictMeaning(s: string, q: Address)
    ensures var u := Visible(s, 15);
      var r := Strict(s, 0, 0, 0, q);
      && (r.0 == 0 <==> IsDotted(u) && |Groups(u)| <= 4)
      && (IsDotted(u) && |Groups(u)| <= 4 ==> r.1 == Fill(q, 0, 0, Groups(u)))
  {
    StrictFrom(s, 0, 0, 0, q);
  }

  lemma {:induction false} DecLength(n: nat)
    ensures n < 10 ==> |Dec(n)| == 1
    ensures n < 100 ==> |Dec(n)| <= 2
    ensures n < 1000 ==> |Dec(n)| <= 3
  {
    if n >= 10 { DecLength(n / 10); }
  }

  lemma StrictDigit(c: char, t: string, k: nat, d: nat, n: nat, q: Address)
    requires IsDigit(c) && k < 15 && d < 4 && n * 10 + DigitValue(c) < 256
    ensures Strict([c] + t, k, d, n, q) == Strict(t, k + 1, d, n * 10 + DigitValue(c), q)
  {
    assert ([c] + t)[1..] == t;
  }

  lemma StrictDot(t: string, k: nat, d: nat, n: nat, q: Address)
    requires k < 15 && d < 4 && n < 256
    ensures Strict("." + t, k, d, n, q) == Strict(t, k + 1, d + 1, 0, q[d := n])
  {
    assert ("." + t)[1..] == t;
  }

  lemma {:induction false} StrictDec(n: nat, t: string, k: nat, d: nat, q: Address)
    requires n < 256 && d < 4 && k + |Dec(n)| <= 15
    ensures Strict(Dec(n) + t, k, d, 0, q) == Strict(t, k + |Dec(n)|, d, n, q)
    decreases n
  {
    var c := DigitChar(n % 10);
    if n < 10 {
      StrictDigit(c, t, k, d, 0, q);
    } else {
      DecLast(n, t);
      StrictDec(n / 10, [c] + t, k, d, q);
      StrictDigit(c, t, k + |Dec(n / 10)|, d, n / 10, q);
    }
  }

  lemma StrictGroup(n: nat, t: string, k: nat, d: nat, q: Address)
    requires n < 256 && d < 4 && k + |Dec(n)| < 15
    ensures Strict(Dec(n) + ("." + t), k, d, 0, q) == Strict(t, k + |Dec(n)| + 1, d + 1, 0, q[d := n])
  {
    StrictDec(n, "." + t, k, d, q);
    StrictDot(t, k + |Dec(n)|, d, n, q);
  }

  lemma StrictLast(n: nat, k: nat, q: Address)
    requires n < 256 && k + |Dec(n)| <= 15
    ensures Strict(Dec(n), k, 3, 0, q) == (0, q[3 := n])
  {
    assert Dec(n) + "" == Dec(n);
    StrictDec(n, "", k, 3, q);
    StrictEnd(n, k + |Dec(n)|, q);
  }

  lemma StrictEnd(n: nat, k: nat, q: Address)
    requires n < 256 && k <= 15
    ensures Strict("", k, 3, n, q) == (0, q[3 := n])
  {}

  lemma StrictLastTwo(b2: nat, b3: nat, k: nat, q: Address)
    requires b2 < 256 && b3 < 256 && k + |Dec(b2)| + 1 + |Dec(b3)| <= 15
    ensures Strict(Dec(b2) + ("." + Dec(b3)), k, 2, 0, q) == (0, q[2 := b2][3 := b3])
  {
    DecLength(b3);
    StrictGroup(b2, Dec(b3), k, 2, q);
    StrictLast(b3, k + |Dec(b2)| + 1, q[2 := b2]);
  }

  lemma StrictLastThree(b1: nat, t: string, b2: nat, b3: nat, k: nat, q: Address)
    requires b1 < 256 && b2 < 256 && b3 < 256 && t == Dec(b2) + ("." + Dec(b3))
    requires k + |Dec(b1)| + 1 + |Dec(b2)| + 1 + |Dec(b3)| <= 15
    ensures Strict(Dec(b1) + ("." + t), k, 1, 0, q) == (0, q[1 := b1][2 := b2][3 := b3])
  {
    StrictGroup(b1, t, k, 1, q);
    StrictLastTwo(b2, b3, k + |Dec(b1)| + 1, q[1 := b1]);
  }

  lemma QuadLengths(a: Address)
    ensures |Dec(a[0])| <= 3 && |Dec(a[1])| <= 3 && |Dec(a[2])| <= 3 && |Dec(a[3])| <= 3
  {
    DecLength(a[0]);
    DecLength(a[1]);
    DecLength(a[2]);
    DecLength(a[3]);
  }

  lemma StrictQuad(a: Address, q: Address)
    ensures Strict(Quad(a), 0, 0, 0, q) == (0, q[0 := a[0]][1 := a[1]][2 := a[2]][3 := a[3]])
  {
    QuadLengths(a);
    var t := Dec(a[2]) + ("." + Dec(a[3]));
    StrictGroup(a[0], Dec(a[1]) + ("." + t), 0, 0, q);
    StrictLastThree(a[1], t, a[2], a[3], |Dec(a[0])| + 1, q[0 := a[0]]);
  }

  // On the canonical dotted quad of any address the strict and the loose parser both succeed with that address.
  lemma ParsersAgreeOnQuads(a: Address, q: Address)
    ensures Strict(Quad(a), 0, 0, 0, q) == (0, a)
    ensures AddressOf(Quad(a)).Some? && NetworkBytes(AddressOf(Quad(a)).value) == a
  {
    StrictQuad(a, q);
    assert q[0 := a[0]][1 := a[1]][2 := a[2]][3 := a[3]] == a;
    QuadRoundTrip(a);
  }
}

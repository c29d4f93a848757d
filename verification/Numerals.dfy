/** Numbers as text: the canonical digits the printers share, and reading them back (ipv4.c). */
module Numerals {
  import opened Bytes

  const NEWLINE: uint8 := 10
  const DOT: uint8 := 46

  /** The characters of "0123456789ABCDEF". */
  function DigitChar(d: nat): uint8
    requires d < 16
  {
    if d < 10 then 48 + d else 55 + d
  }

  lemma DigitCharacters(d: nat)
    requires d < 16
    ensures DigitChar(d) == Text("0123456789ABCDEF")[d]
  {
    var t := "0123456789ABCDEF";
    assert t[d] as int == DigitChar(d);
  }

  function DigitValue(c: uint8): Option<nat> {
    if 48 <= c < 58 then Some(c - 48) else if 65 <= c < 71 then Some(c - 55) else None
  }

  predicate IsDigit(c: uint8, base: nat) {
    DigitValue(c).Some? && DigitValue(c).value < base
  }

  function Quot(n: nat, base: nat): nat
    requires base > 0
  {
    n / base
  }

  function Rem(n: nat, base: nat): (r: nat)
    requires base > 0
    ensures r < base
  {
    n % base
  }

  /** The digits of `n`, most significant first, without leading zeros. */
  function Digits(n: nat, base: nat): (s: seq<uint8>)
    requires 2 <= base <= 16
    ensures s != [] && forall i :: 0 <= i < |s| ==> IsDigit(s[i], base)
    decreases n
  {
    if n < base then [DigitChar(n)] else Shrinks(n, base); Digits(Quot(n, base), base) + [DigitChar(Rem(n, base))]
  }

  lemma ZeroDigits(base: nat)
    requires 2 <= base <= 16
    ensures Digits(0, base) == [DigitChar(0)]
  {
  }

  lemma Shrinks(n: nat, base: nat)
    requires 2 <= base <= n
    ensures 0 < n / base < n
  {
    assert n == n / base * base + n % base;
    if n / base >= n {
      assert n / base * base >= n * 2 by {
        Monotone(n, n / base, base);
      }
    }
  }

  lemma Monotone(n: nat, q: nat, base: nat)
    requires n <= q && 2 <= base
    ensures q * base >= n * 2
  {
    assert q * base == q * 2 + q * (base - 2);
  }

  function ValueOf(c: uint8): nat {
    match DigitValue(c)
    case None => 0
    case Some(v) => v
  }

  /** Reading digits from left to right, starting from `acc`. */
  function Read(acc: nat, s: seq<uint8>, base: nat): nat
    decreases s
  {
    if s == [] then acc else Read(acc * base + ValueOf(s[0]), s[1..], base)
  }

  lemma {:induction false} ReadAppend(acc: nat, s: seq<uint8>, c: uint8, base: nat)
    ensures Read(acc, s + [c], base) == Read(acc, s, base) * base + ValueOf(c)
    decreases s
  {
    if s == [] {
      assert [c][1..] == [];
    } else {
      assert (s + [c])[1..] == s[1..] + [c];
      ReadAppend(acc * base + ValueOf(s[0]), s[1..], c, base);
    }
  }

  /** What is printed reads back as the number, in every base. */
  lemma {:induction false} DigitsReadBack(n: nat, base: nat)
    requires 2 <= base <= 16
    ensures Read(0, Digits(n, base), base) == n
    decreases n
  {
    if n >= base {
      Shrinks(n, base);
      var q, d := n / base, n % base;
      assert n == q * base + d;
      DigitsReadBack(q, base);
      ReadAppend(0, Digits(q, base), DigitChar(d), base);
      assert ValueOf(DigitChar(d)) == d;
    } else {
      assert Read(0, [DigitChar(n)], base) == Read(n, [], base) by {
        assert [DigitChar(n)][1..] == [];
      }
    }
  }

  /** No number but 0 is printed with a leading zero. */
  lemma {:induction false} NoLeadingZero(n: nat, base: nat)
    requires 2 <= base <= 16
    ensures Digits(n, base)[0] == DigitChar(0) <==> n == 0
    decreases n
  {
    if n >= base {
      Shrinks(n, base);
      NoLeadingZero(n / base, base);
    }
  }

  /** Conversely, a digit string without a leading zero is what its value prints as. */
  lemma {:induction false} Canonical(s: seq<uint8>, base: nat)
    requires 2 <= base <= 16 && s != [] && forall i :: 0 <= i < |s| ==> IsDigit(s[i], base)
    requires |s| > 1 ==> s[0] != DigitChar(0)
    ensures Digits(Read(0, s, base), base) == s
    decreases |s|
  {
    var p, c := Init(s), Last(s);
    assert s == p + [c];
    ReadAppend(0, p, c, base);
    if p == [] {
      assert Read(0, p, base) == 0;
    } else {
      var q, d := Read(0, p, base), ValueOf(c);
      Canonical(p, base);
      NoLeadingZero(q, base);
      QuotientAndRemainder(q, d, base);
    }
  }

  lemma QuotientAndRemainder(q: nat, d: nat, base: nat)
    requires q > 0 && d < base
    ensures q * base + d >= base && (q * base + d) / base == q && (q * base + d) % base == d
  {
    var n := q * base + d;
    assert n == n / base * base + n % base;
    assert (n / base - q) * base == d - n % base;
    SmallMultiple(n / base - q, base, d - n % base);
    assert q * base == base + (q - 1) * base;
  }

  lemma SmallMultiple(x: int, base: nat, y: int)
    requires x * base == y && -(base as int) < y < base
    ensures x == 0
  {
  }

  function Power(base: nat, k: nat): nat {
    if k == 0 then 1 else base * Power(base, k - 1)
  }

  /** A number below base^k has at most k digits. */
  lemma {:induction false} DigitCount(n: nat, base: nat, k: nat)
    requires 2 <= base <= 16 && k > 0 && n < Power(base, k)
    ensures |Digits(n, base)| <= k
    decreases n
  {
    if n >= base {
      Shrinks(n, base);
      assert k > 1 by {
        assert Power(base, 1) == base * Power(base, 0);
      }
      QuotientBelow(n, base, Power(base, k - 1));
      DigitCount(n / base, base, k - 1);
    }
  }

  lemma QuotientBelow(n: nat, base: nat, m: nat)
    requires base > 0 && n < base * m
    ensures n / base < m
  {
    var q := n / base;
    assert q * base <= n;
    assert (q - m) * base < 0 by {
      assert (q - m) * base == q * base - m * base;
    }
    NegativeProduct(q - m, base);
  }

  lemma NegativeProduct(x: int, base: nat)
    requires x * base < 0
    ensures x < 0
  {
  }

  lemma {:induction false} PowerStep(k: nat)
    ensures Power(2, k + 4) == 16 * Power(2, k)
  {
    assert Power(2, k + 4) == 2 * Power(2, k + 3);
    assert Power(2, k + 3) == 2 * Power(2, k + 2);
  }

  lemma PowersOfTwo()
    ensures Power(2, 8) == 0x100 && Power(2, 16) == 0x1_0000 && Power(2, 24) == 0x100_0000
    ensures Power(2, 31) == 0x8000_0000
  {
    assert Power(2, 4) == 16;
    PowerStep(4);
    PowerStep(8);
    PowerStep(12);
    PowerStep(16);
    PowerStep(20);
    assert Power(2, 3) == 8;
    PowerStep(3);
    PowerStep(7);
    PowerStep(11);
    PowerStep(15);
    PowerStep(19);
    PowerStep(23);
    PowerStep(27);
  }

  lemma TwiceAtMost(q: nat, base: nat)
    requires base >= 2
    ensures 2 * q <= q * base
  {
    assert q * base == q * 2 + q * (base - 2);
  }

  lemma QuotientShrinks(n: nat, base: nat)
    requires base >= 2
    ensures n / base <= n / 2
  {
    var q, m := n / base, n / 2;
    assert q * base <= n < 2 * m + 2 by {
      assert n == q * base + n % base;
    }
    TwiceAtMost(q, base);
  }

  /** In any base a number has at most as many digits as in base 2. */
  lemma {:induction false} BinaryIsLongest(n: nat, base: nat, k: nat)
    requires 2 <= base <= 16 && k > 0 && n < Power(2, k)
    ensures |Digits(n, base)| <= k
    decreases n
  {
    if n >= base {
      Shrinks(n, base);
      assert k > 1 && Power(2, k) == 2 * Power(2, k - 1);
      hide Power;
      assert n / base <= n / 2 by {
        QuotientShrinks(n, base);
      }
      BinaryIsLongest(n / base, base, k - 1);
    }
  }

  /** 32-bit numbers have at most 10 decimal digits, and 31-bit ones at most 31 in any base. */
  lemma BufferBounds(n: nat, base: nat)
    requires 2 <= base <= 16
    ensures n < 0x1_0000_0000 ==> |Digits(n, 10)| <= 10
    ensures n < 0x8000_0000 ==> |Digits(n, base)| <= 31
  {
    PowersOfTwo();
    if n < 0x1_0000_0000 {
      assert Power(10, 5) == 100_000;
      assert Power(10, 10) == 10_000_000_000;
      DigitCount(n, 10, 10);
    }
    if n < 0x8000_0000 {
      BinaryIsLongest(n, base, 31);
    }
  }

  /** The bound of 31 digits is reached in base 2. */
  lemma BinaryNeeds31(n: nat)
    requires n == 0x7FFF_FFFF
    ensures |Digits(n, 2)| == 31
  {
    AllOnes(31);
    PowersOfTwo();
  }

  lemma {:induction false} AllOnes(k: nat)
    requires k > 0
    ensures Power(2, k) >= 2 && |Digits(Power(2, k) - 1, 2)| == k
  {
    if k > 1 {
      AllOnes(k - 1);
      var n := Power(2, k) - 1;
      assert n / 2 == Power(2, k - 1) - 1;
    } else {
      assert Power(2, 1) == 2 * Power(2, 0) == 2;
    }
  }

  // ---------------------------------------------------------------- reversed text

  function Reverse(s: seq<uint8>): (r: seq<uint8>)
    ensures |r| == |s|
    ensures forall i :: 0 <= i < |s| ==> r[i] == s[|s| - 1 - i]
  {
    if s == [] then [] else [Last(s)] + Reverse(Init(s))
  }

  lemma ReverseAppend(s: seq<uint8>, c: uint8)
    ensures Reverse(s + [c]) == [c] + Reverse(s)
  {
    assert Init(s + [c]) == s;
  }

  /** The digits of `n` still to be produced when the quotient has come down to `n`. */
  function Remaining(n: nat, base: nat): seq<uint8>
    requires 2 <= base <= 16
  {
    if n == 0 then [] else Digits(n, base)
  }

  /** Splitting off the last digit. */
  lemma RemainingStep(n: nat, base: nat)
    requires 2 <= base <= 16 && n > 0
    ensures Remaining(n, base) == Remaining(Quot(n, base), base) + [DigitChar(Rem(n, base))]
    ensures Quot(n, base) < n
  {
    if n >= base {
      Shrinks(n, base);
    } else {
      assert n / base == 0 && n % base == n by {
        SmallQuotient(n, base);
      }
    }
  }

  lemma SmallQuotient(n: nat, base: nat)
    requires n < base
    ensures n / base == 0 && n % base == n
  {
  }

  /** The loop that pushes the digits of a positive number, last one first (terminal.c:133-136,
      serial.c:214-217, 237-240). */
  method PushDigits(buf: array<uint8>, value: nat, base: nat) returns (i: nat)
    requires 2 <= base <= 16 && value > 0 && |Digits(value, base)| <= buf.Length
    modifies buf
    ensures i == |Digits(value, base)| && Reverse(buf[..i]) == Digits(value, base)
  {
    hide Pushed, Digits, Remaining, Quot, Rem, Reverse, DigitChar;
    var n: nat := value;
    i := 0;
    PushStart(value, base);
    assert buf[..0] == [];
    while n > 0
      invariant 0 <= i <= buf.Length && Pushed(value, n, base, buf[..i])
    {
      PushStep(value, n, base, buf[..i]);
      buf[i] := DigitChar(Rem(n, base));
      assert buf[..i + 1] == buf[..i] + [DigitChar(Rem(n, base))];
      i, n := i + 1, Quot(n, base);
    }
    PushDone(value, base, buf[..i]);
  }

  /** `pushed` are the digits of `value` that come after those of the quotient `n`, last first. */
  ghost predicate Pushed(value: nat, n: nat, base: nat, pushed: seq<uint8>)
    requires 2 <= base <= 16
  {
    Digits(value, base) == Remaining(n, base) + Reverse(pushed)
  }

  lemma PushStart(value: nat, base: nat)
    requires 2 <= base <= 16 && value > 0
    ensures Pushed(value, value, base, [])
  {
  }

  lemma PushStep(value: nat, n: nat, base: nat, pushed: seq<uint8>)
    requires 2 <= base <= 16 && n > 0 && Pushed(value, n, base, pushed)
    ensures Pushed(value, Quot(n, base), base, pushed + [DigitChar(Rem(n, base))])
    ensures Quot(n, base) < n && |pushed| < |Digits(value, base)|
  {
    RemainingStep(n, base);
    ReverseAppend(pushed, DigitChar(Rem(n, base)));
  }

  lemma PushDone(value: nat, base: nat, pushed: seq<uint8>)
    requires 2 <= base <= 16 && Pushed(value, 0, base, pushed)
    ensures Reverse(pushed) == Digits(value, base)
  {
  }

  // ---------------------------------------------------------------- dotted quads

  /** The address `ip` in host order, as text. */
  function DottedQuad(ip: uint32): seq<uint8> {
    Digits(ip / 0x100_0000, 10) + [DOT] + Digits(ip / 0x1_0000 % 0x100, 10) + [DOT]
    + Digits(ip / 0x100 % 0x100, 10) + [DOT] + Digits(ip % 0x100, 10)
  }

  /** The decimal digits at the front of `s`: how many there are. */
  function DigitRun(s: seq<uint8>): (n: nat)
    ensures n <= |s| && forall i :: 0 <= i < n ==> IsDigit(s[i], 10)
  {
    if s != [] && IsDigit(s[0], 10) then
      assert forall i :: 1 <= i < 1 + DigitRun(s[1..]) ==> s[i] == s[1..][i - 1];
      1 + DigitRun(s[1..])
    else 0
  }

  /** One %u conversion: the number at the front of `s` and the rest, if there is one that fits
      32 bits. */
  function ScanNumber(s: seq<uint8>): Option<(uint32, seq<uint8>)> {
    var k := DigitRun(s);
    if k == 0 || Read(0, s[..k], 10) >= 0x1_0000_0000 then None
    else Some((Read(0, s[..k], 10), s[k..]))
  }

  /** A number followed by the literal dot of the format. */
  function ScanDotted(s: seq<uint8>): Option<(uint32, seq<uint8>)> {
    var r := ScanNumber(s);
    if r.Some? && r.value.1 != [] && r.value.1[0] == DOT then Some((r.value.0, r.value.1[1..])) else None
  }

  /** a | b, bit by bit. */
  function BitOr(a: nat, b: nat): nat
    decreases a + b
  {
    if a == 0 then b else if b == 0 then a
    else (if a % 2 == 1 || b % 2 == 1 then 1 else 0) + 2 * BitOr(a / 2, b / 2)
  }

  /** a << k on 32 bits. */
  function ShiftLeft(a: uint32, k: nat): uint32 {
    a * Power(2, k) % 0x1_0000_0000
  }

  /** ip_str_to_int; None where sscanf leaves one of the four numbers unset. */
  function IpStrToInt(s: seq<uint8>): Option<nat> {
    var a := ScanDotted(s);
    if a.None? then None else
    var b := ScanDotted(a.value.1);
    if b.None? then None else
    var c := ScanDotted(b.value.1);
    if c.None? then None else
    var d := ScanNumber(c.value.1);
    if d.None? then None else
    Some(BitOr(BitOr(BitOr(a.value.0, ShiftLeft(b.value.0, 8)), ShiftLeft(c.value.0, 16)), ShiftLeft(d.value.0, 24)))
  }

  /** Bit `i` of `n`. */
  predicate BitAt(n: nat, i: nat) {
    if i == 0 then n % 2 == 1 else BitAt(n / 2, i - 1)
  }

  /** A bit of a | b is set exactly when it is set in one of them. */
  lemma {:induction false} BitOrBits(a: nat, b: nat, i: nat)
    ensures BitAt(BitOr(a, b), i) <==> BitAt(a, i) || BitAt(b, i)
    decreases i
  {
    ZeroBits(i);
    if a > 0 && b > 0 {
      var o := BitOr(a / 2, b / 2);
      var low := if a % 2 == 1 || b % 2 == 1 then 1 else 0;
      assert BitOr(a, b) == low + 2 * o && (low + 2 * o) % 2 == low && (low + 2 * o) / 2 == o;
      if i > 0 {
        BitOrBits(a / 2, b / 2, i - 1);
      }
    }
  }

  lemma {:induction false} ZeroBits(i: nat)
    ensures !BitAt(0, i)
  {
    if i > 0 {
      ZeroBits(i - 1);
    }
  }

  predicate AllDigits(s: seq<uint8>) {
    s != [] && forall i :: 0 <= i < |s| ==> '0' as int <= s[i] <= '9' as int
  }

  /** What follows a number: the end of the string or a character that is no digit. */
  predicate NumberEnds(rest: seq<uint8>) {
    rest == [] || !('0' as int <= rest[0] <= '9' as int)
  }

  lemma ScanDigits(ds: seq<uint8>, rest: seq<uint8>)
    requires AllDigits(ds) && NumberEnds(rest) && Read(0, ds, 10) < 0x1_0000_0000
    ensures ScanNumber(ds + rest) == Some((Read(0, ds, 10), rest))
  {
    RunOfDigits(ds, rest);
    assert (ds + rest)[..|ds|] == ds && (ds + rest)[|ds|..] == rest;
  }

  lemma ScanDigitsDot(ds: seq<uint8>, rest: seq<uint8>)
    requires AllDigits(ds) && Read(0, ds, 10) < 0x1_0000_0000
    ensures ScanDotted(ds + (['.' as int] + rest)) == Some((Read(0, ds, 10), rest))
  {
    ScanDigits(ds, ['.' as int] + rest);
    assert (['.' as int] + rest)[1..] == rest;
  }

  /** Four numbers, with leading zeros or not and of any size up to 32 bits, and whatever follows the
      last one: each is shifted into its place, bits beyond 32 are lost, and they are or-ed. */
  lemma QuadParsed(a: seq<uint8>, b: seq<uint8>, c: seq<uint8>, d: seq<uint8>, rest: seq<uint8>)
    requires AllDigits(a) && AllDigits(b) && AllDigits(c) && AllDigits(d) && NumberEnds(rest)
    requires Read(0, a, 10) < 0x1_0000_0000 && Read(0, b, 10) < 0x1_0000_0000
    requires Read(0, c, 10) < 0x1_0000_0000 && Read(0, d, 10) < 0x1_0000_0000
    ensures IpStrToInt(a + (['.' as int] + (b + (['.' as int] + (c + (['.' as int] + (d + rest)))))))
         == Some(BitOr(BitOr(BitOr(Read(0, a, 10), Read(0, b, 10) * 0x100 % 0x1_0000_0000),
                             Read(0, c, 10) * 0x1_0000 % 0x1_0000_0000),
                       Read(0, d, 10) * 0x100_0000 % 0x1_0000_0000))
  {
    hide ScanNumber, ScanDotted, BitOr, Power, Read, AllDigits;
    PowersOfTwo();
    ScanDigits(d, rest);
    ScanDigitsDot(c, d + rest);
    ScanDigitsDot(b, c + (['.' as int] + (d + rest)));
    ScanDigitsDot(a, b + (['.' as int] + (c + (['.' as int] + (d + rest)))));
  }

  lemma {:induction false} RunIsMaximal(s: seq<uint8>)
    ensures NumberEnds(s[DigitRun(s)..])
  {
    if s != [] && IsDigit(s[0], 10) {
      RunIsMaximal(s[1..]);
      assert s[1..][DigitRun(s[1..])..] == s[DigitRun(s)..];
    }
  }

  lemma ScanForm(s: seq<uint8>) returns (ds: seq<uint8>, rest: seq<uint8>)
    requires ScanNumber(s).Some?
    ensures AllDigits(ds) && NumberEnds(rest) && s == ds + rest && Read(0, ds, 10) < 0x1_0000_0000
    ensures ScanNumber(s) == Some((Read(0, ds, 10), rest))
  {
    var k := DigitRun(s);
    ds, rest := s[..k], s[k..];
    RunIsMaximal(s);
    forall i | 0 <= i < k ensures '0' as int <= ds[i] <= '9' as int {
      assert IsDigit(s[i], 10);
    }
  }

  lemma DottedForm(s: seq<uint8>) returns (ds: seq<uint8>, rest: seq<uint8>)
    requires ScanDotted(s).Some?
    ensures AllDigits(ds) && s == ds + (['.' as int] + rest) && Read(0, ds, 10) < 0x1_0000_0000
    ensures ScanDotted(s) == Some((Read(0, ds, 10), rest))
  {
    var tail: seq<uint8>;
    ds, tail := ScanForm(s);
    rest := tail[1..];
    assert tail == ['.' as int] + rest;
  }

  /** And nothing else is an address. */
  lemma QuadOnly(s: seq<uint8>) returns (a: seq<uint8>, b: seq<uint8>, c: seq<uint8>, d: seq<uint8>, rest: seq<uint8>)
    requires IpStrToInt(s).Some?
    ensures AllDigits(a) && AllDigits(b) && AllDigits(c) && AllDigits(d) && NumberEnds(rest)
    ensures s == a + (['.' as int] + (b + (['.' as int] + (c + (['.' as int] + (d + rest))))))
    ensures Read(0, a, 10) < 0x1_0000_0000 && Read(0, b, 10) < 0x1_0000_0000
    ensures Read(0, c, 10) < 0x1_0000_0000 && Read(0, d, 10) < 0x1_0000_0000
  {
    hide ScanNumber, ScanDotted, BitOr, Power, Read, AllDigits;
    var s1, s2, s3: seq<uint8>;
    a, s1 := DottedForm(s);
    b, s2 := DottedForm(s1);
    c, s3 := DottedForm(s2);
    d, rest := ScanForm(s3);
  }

  /** The dots of a printed address. */
  lemma DottedQuadText(ip: uint32)
    ensures DottedQuad(ip)
         == Digits(ip / 0x100_0000, 10) + Text(".") + Digits(ip / 0x1_0000 % 0x100, 10) + Text(".")
            + Digits(ip / 0x100 % 0x100, 10) + Text(".") + Digits(ip % 0x100, 10)
  {
    hide Digits;
    assert Text(".") == [DOT];
  }

  lemma {:induction false} RunOfDigits(ds: seq<uint8>, rest: seq<uint8>)
    requires forall i :: 0 <= i < |ds| ==> IsDigit(ds[i], 10)
    requires rest == [] || !IsDigit(rest[0], 10)
    ensures DigitRun(ds + rest) == |ds|
  {
    if ds == [] {
      assert ds + rest == rest;
    } else {
      assert (ds + rest)[1..] == ds[1..] + rest;
      RunOfDigits(ds[1..], rest);
    }
  }

  lemma ScanPrinted(n: uint32, rest: seq<uint8>)
    requires rest == [] || !IsDigit(rest[0], 10)
    ensures ScanNumber(Digits(n, 10) + rest) == Some((n, rest))
  {
    var ds := Digits(n, 10);
    RunOfDigits(ds, rest);
    assert (ds + rest)[..|ds|] == ds && (ds + rest)[|ds|..] == rest;
    DigitsReadBack(n, 10);
  }

  /** Numbers without a common bit are joined by addition. */
  lemma {:induction false} OrDisjoint(a: nat, m: nat, k: nat)
    requires a < Power(2, k)
    ensures BitOr(a, m * Power(2, k)) == a + m * Power(2, k)
    decreases k
  {
    if k > 0 {
      var p := Power(2, k - 1);
      assert m * Power(2, k) == 2 * (m * p);
      OrDisjoint(a / 2, m, k - 1);
    }
  }

  lemma ScanDottedPrinted(n: uint32, rest: seq<uint8>)
    ensures ScanDotted(Digits(n, 10) + ([DOT] + rest)) == Some((n, rest))
  {
    ScanPrinted(n, [DOT] + rest);
    assert ([DOT] + rest)[1..] == rest;
  }

  /** Every address survives printing and reading, up to the byte order ip_str_to_int uses. */
  lemma DottedQuadRoundTrip(ip: uint32)
    ensures IpStrToInt(DottedQuad(ip)) == Some(Htonl(ip))
  {
    hide Digits, IpStrToInt, BitOr, ShiftLeft;
    var a, b, c, d := ip / 0x100_0000, ip / 0x1_0000 % 0x100, ip / 0x100 % 0x100, ip % 0x100;
    ScanQuad(a, b, c, d);
    OctetsJoined(a, b, c, d);
  }

  lemma GroupQuad<T>(s: seq<T>, a: seq<T>, b: seq<T>, c: seq<T>, d: seq<T>, dot: seq<T>)
    ensures s + a + dot + b + dot + c + dot + d == s + (a + dot + b + dot + c + dot + d)
  {
  }

  lemma GroupRight<T>(a: seq<T>, b: seq<T>, c: seq<T>, d: seq<T>, dot: seq<T>)
    ensures a + dot + b + dot + c + dot + d == a + (dot + (b + (dot + (c + (dot + d)))))
  {
  }

  lemma ScanQuad(a: uint32, b: uint32, c: uint32, d: uint32)
    ensures var s := Digits(a, 10) + [DOT] + Digits(b, 10) + [DOT] + Digits(c, 10) + [DOT] + Digits(d, 10);
            IpStrToInt(s)
            == Some(BitOr(BitOr(BitOr(a, ShiftLeft(b, 8)), ShiftLeft(c, 16)), ShiftLeft(d, 24)))
  {
    hide Digits, ScanNumber, ScanDotted, BitOr, ShiftLeft;
    var sd := Digits(d, 10);
    var sc := Digits(c, 10) + ([DOT] + sd);
    var sb := Digits(b, 10) + ([DOT] + sc);
    var sa := Digits(a, 10) + ([DOT] + sb);
    GroupRight(Digits(a, 10), Digits(b, 10), Digits(c, 10), sd, [DOT]);
    ScanDottedPrinted(a, sb);
    ScanDottedPrinted(b, sc);
    ScanDottedPrinted(c, sd);
    assert sd + [] == sd;
    ScanPrinted(d, []);
  }

  lemma OctetsJoined(a: nat, b: nat, c: nat, d: nat)
    requires a < 0x100 && b < 0x100 && c < 0x100 && d < 0x100
    ensures BitOr(BitOr(BitOr(a, ShiftLeft(b, 8)), ShiftLeft(c, 16)), ShiftLeft(d, 24))
         == a + b * 0x100 + c * 0x1_0000 + d * 0x100_0000
  {
    hide BitOr, Power;
    PowersOfTwo();
    OrDisjoint(a, b, 8);
    OrDisjoint(a + b * 0x100, c, 16);
    OrDisjoint(a + b * 0x100 + c * 0x1_0000, d, 24);
  }
}

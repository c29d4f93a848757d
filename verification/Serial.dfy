/** The serial console's printers (serial.c:46-66, 107-253). */
module Serial {
  import opened Bytes
  import opened Numerals

  const RETURN: uint8 := 13
  const MINUS: uint8 := 45

  /** What goes out for `s`: a carriage return follows every newline. */
  function Expanded(s: seq<uint8>): seq<uint8> {
    if s == [] then [] else Expanded(Init(s)) + if Last(s) == NEWLINE then [NEWLINE, RETURN] else [Last(s)]
  }

  lemma {:induction false} ExpandedPlain(s: seq<uint8>)
    requires NEWLINE !in s
    ensures Expanded(s) == s
  {
    if s != [] {
      var t, c := Init(s), Last(s);
      assert s == t + [c] && c in s && forall x :: x in t ==> x in s;
      ExpandedPlain(t);
    }
  }

  /** Each character goes out by itself, a newline followed by a carriage return. */
  lemma {:induction false} ExpandedAppend(a: seq<uint8>, b: seq<uint8>)
    ensures Expanded(a + b) == Expanded(a) + Expanded(b)
  {
    if b == [] {
      assert a + b == a;
    } else {
      assert Init(a + b) == a + Init(b) && Last(a + b) == Last(b);
      ExpandedAppend(a, Init(b));
    }
  }

  lemma ExpandedCharacter(c: uint8)
    ensures Expanded([c]) == if c == '\n' as int then ['\n' as int, '\r' as int] else [c]
  {
    assert Init([c]) == [];
  }

  lemma DigitsPlain(n: nat, base: nat)
    requires 2 <= base <= 16
    ensures Expanded(Digits(n, base)) == Digits(n, base)
  {
    var s := Digits(n, base);
    forall i | 0 <= i < |s| ensures s[i] != NEWLINE {
      assert IsDigit(s[i], base);
    }
    ExpandedPlain(s);
  }

  /** The text of a signed number. */
  function SignedDigits(value: int, base: nat): seq<uint8>
    requires 2 <= base <= 16
  {
    if value < 0 then [MINUS] + Digits(-value, base) else Digits(value, base)
  }

  /** The sign comes first, exactly for negative numbers, and the rest reads as the magnitude. */
  lemma SignedReadBack(value: int, base: nat)
    requires 2 <= base <= 16
    ensures var s := SignedDigits(value, base);
            && (s[0] == '-' as int <==> value < 0)
            && (if value < 0 then Read(0, s[1..], base) == -value else Read(0, s, base) == value)
  {
    var n: nat := if value < 0 then -value else value;
    DigitsReadBack(n, base);
    assert IsDigit(Digits(n, base)[0], base);
    assert ([MINUS] + Digits(n, base))[1..] == Digits(n, base);
  }

  /** The reversal loop shared by the integer printers (serial.c:220-225, 243-248). */
  method ReversePrefix(buf: array<uint8>, n: nat)
    requires n <= buf.Length
    modifies buf
    ensures buf[..n] == Reverse(old(buf[..n]))
    ensures buf[n..] == old(buf[n..])
  {
    for j := 0 to n / 2
      invariant forall k :: 0 <= k < j ==> buf[k] == old(buf[n - 1 - k]) && buf[n - 1 - k] == old(buf[k])
      invariant forall k :: j <= k < n - j ==> buf[k] == old(buf[k])
      invariant buf[n..] == old(buf[n..])
    {
      var temp := buf[j];
      buf[j] := buf[n - j - 1];
      buf[n - j - 1] := temp;
    }
    forall k | 0 <= k < n ensures buf[k] == old(buf[n - 1 - k]) {
      if k >= n / 2 && k < n - n / 2 {
        assert k == n - 1 - k;
      } else if k >= n / 2 {
        var m := n - 1 - k;
        assert buf[n - 1 - m] == old(buf[m]);
      }
    }
  }

  class Serial {
    var out: seq<uint8>   // the bytes written to the port

    constructor ()
      ensures out == []
    {
      out := [];
    }

    /** serial_putc; the recursion writes the carriage return. */
    method Putc(c: uint8)
      modifies this
      ensures out == old(out) + if c == NEWLINE then [NEWLINE, RETURN] else [c]
      decreases c == NEWLINE
    {
      out := out + [c];
      if c == NEWLINE {
        Putc(RETURN);
      }
    }

    /** serial_write_string, for the characters before the terminating zero. */
    method WriteString(str: seq<uint8>)
      modifies this
      ensures out == old(out) + Expanded(str)
    {
      for i := 0 to |str|
        invariant out == old(out) + Expanded(str[..i])
      {
        Putc(str[i]);
        assert Init(str[..i + 1]) == str[..i];
      }
      assert str[..|str|] == str;
    }

    /** serial_write_dec: the digits are filled in from the end of a 12-byte buffer. */
    method WriteDec(value: uint32)
      modifies this
      ensures out == old(out) + Digits(value, 10)
    {
      hide Digits;
      var buffer := new uint8[12];
      var p: nat, n: nat := 11, value;
      buffer[p] := 0;
      FirstDigit(value);
      p := p - 1;
      buffer[p] := 48 + n % 10;
      n := n / 10;
      assert buffer[p..11] == [DigitChar(value % 10)];
      while n > 0
        invariant 1 <= p <= 10 && |Remaining(n, 10)| <= p - 1
        invariant Digits(value, 10) == Remaining(n, 10) + buffer[p..11]
        invariant out == old(out)
      {
        RemainingStep(n, 10);
        ghost var tail := buffer[p..11];
        p := p - 1;
        buffer[p] := 48 + n % 10;
        n := n / 10;
        assert buffer[p..11] == [buffer[p]] + tail;
      }
      assert buffer[p..11] == Digits(value, 10);
      DigitsPlain(value, 10);
      WriteString(buffer[p..11]);
    }

    lemma FirstDigit(value: uint32)
      ensures Digits(value, 10) == Remaining(value / 10, 10) + [DigitChar(value % 10)]
      ensures |Digits(value, 10)| <= 10
    {
      BufferBounds(value, 10);
      if value > 0 {
        RemainingStep(value, 10);
      }
    }

    /** serial_write_int: digits are filled in from the start of a 32-byte buffer, which is then
        reversed in place.  Negating the smallest int is undefined in C. */
    method WriteInt(value: int, base: nat)
      requires -0x8000_0000 < value < 0x8000_0000 && 2 <= base <= 16
      modifies this
      ensures out == old(out) + SignedDigits(value, base)
    {
      hide Digits, Expanded;
      var n := value;
      if n < 0 {
        ExpandedPlain([MINUS]);
        WriteString([MINUS]);
        n := -n;
      }
      var buf := new uint8[32];
      var i := FillDigits(buf, n, base);
      DigitsPlain(n, base);
      WriteString(buf[..i]);
    }

    /** Fill in the digits of `n`, reverse them and put the terminating zero (serial.c:212-227,
        234-250). */
    method FillDigits(buf: array<uint8>, n: nat, base: nat) returns (i: nat)
      requires buf.Length == 32 && n < 0x8000_0000 && 2 <= base <= 16
      modifies buf
      ensures i < 32 && buf[..i] == Digits(n, base) && buf[i] == 0
    {
      hide Digits;
      BufferBounds(n, base);
      if n == 0 {
        buf[0] := 48;
        i := 1;
        ZeroDigits(base);
        assert buf[..1] == [DigitChar(0)] && Init(buf[..1]) == [];
      } else {
        i := PushDigits(buf, n, base);
      }
      ReversePrefix(buf, i);
      ghost var digits := buf[..i];
      buf[i] := 0;
      assert buf[..i] == digits;
    }

    /** serial_print_ip: three digits per octet, leading zeros suppressed. */
    method PrintIp(ip: uint32)
      modifies this
      ensures out == old(out) + DottedQuad(ip)
    {
      hide Digits;
      GroupQuad(out, Digits(ip / 0x100_0000, 10), Digits(ip / 0x1_0000 % 0x100, 10), Digits(ip / 0x100 % 0x100, 10),
                Digits(ip % 0x100, 10), [DOT]);
      PrintOctet(ip / 0x100_0000 % 0x100);
      Putc(DOT);
      PrintOctet(ip / 0x1_0000 % 0x100);
      Putc(DOT);
      PrintOctet(ip / 0x100 % 0x100);
      Putc(DOT);
      PrintOctet(ip % 0x100);
    }

    method PrintOctet(octet: uint8)
      modifies this
      ensures out == old(out) + Digits(octet, 10)
    {
      var b0, b1, b2 := 48 + octet / 100, 48 + octet / 10 % 10, 48 + octet % 10;
      OctetDigits(octet);
      if b0 == 48 {
        if b1 == 48 {
          Putc(b2);
        } else {
          Putc(b1);
          Putc(b2);
        }
      } else {
        Putc(b0);
        Putc(b1);
        Putc(b2);
      }
    }
  }

  lemma OctetDigits(o: uint8)
    ensures Digits(o, 10) ==
            if o < 10 then [DigitChar(o % 10)]
            else if o < 100 then [DigitChar(o / 10 % 10), DigitChar(o % 10)]
            else [DigitChar(o / 100), DigitChar(o / 10 % 10), DigitChar(o % 10)]
  {
    if o >= 10 {
      assert Digits(o, 10) == Digits(o / 10, 10) + [DigitChar(o % 10)];
      if o >= 100 {
        assert Digits(o / 10, 10) == Digits(o / 100, 10) + [DigitChar(o / 10 % 10)];
      }
    }
  }
}

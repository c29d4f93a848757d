/** The VGA text terminal (terminal.c): 25 rows of 80 cells in one flat array, a cursor, immediate
    wrap at column 80 and scrolling in place. */
module Terminal {
  import opened Bytes
  import opened Numerals

  const VGA_WIDTH := 80
  const VGA_HEIGHT := 25
  const SPACE: uint8 := 32

  /** make_vgaentry with the one colour in use, white on black.  `char` is signed, so a byte from
      128 up fills the attribute byte with ones. */
  function VgaEntry(c: uint8): uint16 {
    if c < 128 then 0x0F00 + c else 0xFF00 + c
  }

  /** `char` widened to 16 bits: the sign bit of a byte from 128 up is copied. */
  function Widened(c: uint8): uint16 {
    if c < 128 then c else 0xFF00 + c
  }

  /** c16 | color16 << 8 with the colour fg | bg << 4, foreground 15 and background 0. */
  lemma VgaEntryBits(c: uint8)
    ensures VgaEntry(c) == BitOr(Widened(c), ShiftLeft(BitOr(15, ShiftLeft(0, 4)), 8))
  {
    PowersOfTwo();
    assert BitOr(15, ShiftLeft(0, 4)) == 15;
    hide Power;
    assert ShiftLeft(15, 8) == 0xF00;
    if c < 128 {
      OrDisjoint(c, 15, 8);
    } else {
      OrAbove(c, 8);
    }
  }

  lemma AllOnesOr(x: nat)
    requires x == 15
    ensures BitOr(0xFF, x) == 0xFF
  {
    assert BitOr(15, 0) == 15;
    assert BitOr(31, 1) == 31;
    assert BitOr(63, 3) == 63;
    assert BitOr(127, 7) == 127;
  }

  /** The `k` bits below eight ones stay as they are. */
  lemma {:induction false} OrAbove(a: nat, k: nat)
    requires a < Power(2, k)
    ensures BitOr(a + 0xFF * Power(2, k), 0xF * Power(2, k)) == a + 0xFF * Power(2, k)
    decreases k
  {
    hide BitOr;
    if k > 0 {
      var p := Power(2, k - 1);
      OrAbove(a / 2, k - 1);
      OrDouble(a % 2, a / 2 + 0xFF * p, 0xF * p);
    } else {
      AllOnesOr(15);
    }
  }

  lemma OrDouble(low: nat, x: nat, y: nat)
    requires low < 2
    ensures BitOr(low + 2 * x, 2 * y) == low + 2 * BitOr(x, y)
  {
    assert (low + 2 * x) / 2 == x && (low + 2 * x) % 2 == low && (2 * y) / 2 == y;
  }

  /** The cell holds the character, white on black if it is a 7-bit one. */
  lemma CellHolds(c: uint8)
    ensures VgaEntry(c) % 0x100 == c && (c < 128 ==> VgaEntry(c) / 0x100 == 0x0F)
  {
  }

  // ---------------------------------------------------------------- the unbounded page

  type Line = seq<uint8>

  /** The lines of `text` on a page of unbounded length: a newline and the 80th character of a
      line both start a new one. */
  function Lines(text: seq<uint8>): (ls: seq<Line>)
    ensures ls != [] && |Last(ls)| < VGA_WIDTH
    ensures forall k :: 0 <= k < |ls| ==> |ls[k]| <= VGA_WIDTH
  {
    if text == [] then [[]] else WithChar(Lines(Init(text)), Last(text))
  }

  /** The number of lines that have scrolled off the top. */
  function Top(ls: seq<Line>): nat {
    if |ls| <= VGA_HEIGHT then 0 else |ls| - VGA_HEIGHT
  }

  /** What the 25-row window over the last lines shows at (y, x); blank where there is no text. */
  function CellAt(ls: seq<Line>, y: nat, x: nat): uint16 {
    var k := Top(ls) + y;
    if k < |ls| && x < |ls[k]| then VgaEntry(ls[k][x]) else VgaEntry(SPACE)
  }

  /** The screen memory shows the window over `ls`. */
  ghost predicate Shows(screen: seq<uint16>, ls: seq<Line>) {
    && |screen| == VGA_WIDTH * VGA_HEIGHT
    && forall y, x :: 0 <= y < VGA_HEIGHT && 0 <= x < VGA_WIDTH ==> screen[y * VGA_WIDTH + x] == CellAt(ls, y, x)
  }

  ghost predicate Blank(screen: seq<uint16>, from: nat, to: nat)
    requires to <= |screen|
  {
    forall k :: from <= k < to ==> screen[k] == VgaEntry(SPACE)
  }

  /** `after` is `before` moved up by one row, with a blank last row. */
  ghost predicate ShiftedUp(before: seq<uint16>, after: seq<uint16>) {
    && |before| == |after| == VGA_WIDTH * VGA_HEIGHT
    && (forall k :: 0 <= k < VGA_WIDTH * (VGA_HEIGHT - 1) ==> after[k] == before[k + VGA_WIDTH])
    && Blank(after, VGA_WIDTH * (VGA_HEIGHT - 1), |after|)
  }

  /** What can be read at (y, x): row y shows line y while all lines fit, and otherwise one of the last
      25; a space where the line has no character. */
  lemma ScreenText(screen: seq<uint16>, ls: seq<Line>, y: nat, x: nat)
    requires Shows(screen, ls) && y < 25 && x < 80
    ensures var k := if |ls| <= 25 then y else |ls| - 25 + y;
            screen[y * 80 + x] % 0x100 == if k < |ls| && x < |ls[k]| then ls[k][x] else ' ' as int
  {
    hide VgaEntry;
    var cell := CellAt(ls, y, x);
    assert screen[y * VGA_WIDTH + x] == cell;
    var k := Top(ls) + y;
    CellHolds(if k < |ls| && x < |ls[k]| then ls[k][x] else SPACE);
  }

  /** A new line on the page: nothing to do while the window has room, a row shift afterwards. */
  lemma FeedShows(before: seq<uint16>, after: seq<uint16>, ls: seq<Line>)
    requires ls != [] && Shows(before, ls)
    requires if |ls| < VGA_HEIGHT then after == before else ShiftedUp(before, after)
    ensures Shows(after, ls + [[]])
  {
    var ls' := ls + [[]];
    forall y, x | 0 <= y < VGA_HEIGHT && 0 <= x < VGA_WIDTH
      ensures after[y * VGA_WIDTH + x] == CellAt(ls', y, x)
    {
      if |ls| < VGA_HEIGHT || y == VGA_HEIGHT - 1 {
        assert CellAt(ls, y, x) == before[y * VGA_WIDTH + x];
      } else {
        assert after[y * VGA_WIDTH + x] == before[(y + 1) * VGA_WIDTH + x];
        assert CellAt(ls', y, x) == CellAt(ls, y + 1, x);
      }
    }
  }

  /** A character at the end of the last line. */
  lemma CellShows(screen: seq<uint16>, ls: seq<Line>, c: uint8)
    requires ls != [] && |Last(ls)| < VGA_WIDTH && Shows(screen, ls)
    ensures var row, col := |ls| - 1 - Top(ls), |Last(ls)|;
            Shows(screen[row * VGA_WIDTH + col := VgaEntry(c)], Init(ls) + [Last(ls) + [c]])
  {
    var row, col := |ls| - 1 - Top(ls), |Last(ls)|;
    var ls' := Init(ls) + [Last(ls) + [c]];
    var after := screen[row * VGA_WIDTH + col := VgaEntry(c)];
    forall y, x | 0 <= y < VGA_HEIGHT && 0 <= x < VGA_WIDTH
      ensures after[y * VGA_WIDTH + x] == CellAt(ls', y, x)
    {
      assert CellAt(ls, y, x) == screen[y * VGA_WIDTH + x];
      if y == row && x == col {
      } else {
        assert y * VGA_WIDTH + x != row * VGA_WIDTH + col;
        assert CellAt(ls', y, x) == CellAt(ls, y, x);
      }
    }
  }

  // ---------------------------------------------------------------- the layout, independently

  /** A newline starts afresh: what follows it is laid out as on a new page. */
  lemma {:induction false} LinesAfterNewline(a: seq<uint8>, b: seq<uint8>)
    ensures Lines(a + [NEWLINE] + b) == Lines(a) + Lines(b)
  {
    var t := a + [NEWLINE] + b;
    if b == [] {
      assert Init(t) == a;
    } else {
      assert Init(t) == a + [NEWLINE] + Init(b) && Last(t) == Last(b);
      LinesAfterNewline(a, Init(b));
      LinesStep(Lines(a), Lines(Init(b)), Last(b));
    }
  }

  /** How one more character changes a page whose last lines are `ls`. */
  function WithChar(ls: seq<Line>, c: uint8): seq<Line>
    requires ls != []
  {
    if c == NEWLINE then ls + [[]]
    else if |Last(ls)| + 1 == VGA_WIDTH then Init(ls) + [Last(ls) + [c]] + [[]]
    else Init(ls) + [Last(ls) + [c]]
  }

  lemma LinesStep(la: seq<Line>, lb: seq<Line>, c: uint8)
    requires lb != []
    ensures WithChar(la + lb, c) == la + WithChar(lb, c)
  {
    assert Init(la + lb) == la + Init(lb) && Last(la + lb) == Last(lb);
  }

  /** A paragraph cut into lines of exactly 80 characters and a shorter rest. */
  function Cut(p: seq<uint8>): (ls: seq<Line>)
    ensures ls != []
  {
    if |p| < VGA_WIDTH then [p] else [p[..VGA_WIDTH]] + Cut(p[VGA_WIDTH..])
  }

  lemma {:induction false} CutStep(p: seq<uint8>, c: uint8)
    requires c != NEWLINE
    ensures Cut(p + [c]) == WithChar(Cut(p), c)
  {
    if |p| < VGA_WIDTH {
      assert |p| == VGA_WIDTH - 1 ==> (p + [c])[..VGA_WIDTH] == p + [c] && (p + [c])[VGA_WIDTH..] == [];
    } else {
      var rest := p[VGA_WIDTH..];
      assert (p + [c])[..VGA_WIDTH] == p[..VGA_WIDTH] && (p + [c])[VGA_WIDTH..] == rest + [c];
      CutStep(rest, c);
      LinesStep([p[..VGA_WIDTH]], Cut(rest), c);
    }
  }

  /** Text without a newline is laid out by cutting it every 80 characters. */
  lemma {:induction false} LinesOfParagraph(p: seq<uint8>)
    requires NEWLINE !in p
    ensures Lines(p) == Cut(p)
  {
    if p != [] {
      assert p == Init(p) + [Last(p)];
      LinesOfParagraph(Init(p));
      CutStep(Init(p), Last(p));
    }
  }

  /** Line `k` of a paragraph is its characters from 80 * k on, at most 80 of them. */
  lemma {:induction false} CutAt80(p: seq<uint8>, k: nat)
    ensures |Cut(p)| == |p| / 80 + 1
    ensures 80 * k <= |p| ==>
              && k < |Cut(p)|
              && Cut(p)[k] == if 80 * k + 80 <= |p| then p[80 * k..80 * k + 80] else p[80 * k..]
    decreases |p|
  {
    if |p| >= VGA_WIDTH {
      var q := p[VGA_WIDTH..];
      CutAt80(q, if k > 0 then k - 1 else 0);
      assert |p| / 80 == |q| / 80 + 1;
      if k > 0 && 80 * k <= |p| {
        assert 80 * (k - 1) + 80 == 80 * k;
        assert Cut(p)[k] == Cut(q)[k - 1];
      }
    }
  }

  // ---------------------------------------------------------------- hexadecimal

  /** "0x" */
  const HEX_PREFIX: seq<uint8> := [48, 120]

  function Lower(c: uint8): uint8 {
    if 65 <= c < 91 then c + 32 else c
  }

  lemma HexCharacters(d: nat)
    requires d < 16
    ensures Lower(DigitChar(d)) == Text("0123456789abcdef")[d] && HEX_PREFIX == Text("0x")
  {
    var t, u := "0123456789abcdef", "0x";
    assert t[d] as int == Lower(DigitChar(d));
    assert HEX_PREFIX[0] == u[0] as int && HEX_PREFIX[1] == u[1] as int;
  }

  function LowerCase(s: seq<uint8>): seq<uint8> {
    seq(|s|, i requires 0 <= i < |s| => Lower(s[i]))
  }

  /** n >> i */
  function Shifted(n: nat, i: nat): nat {
    PowerPositive(i);
    n / Power(2, i)
  }

  lemma {:induction false} PowerPositive(i: nat)
    ensures Power(2, i) > 0
  {
    if i > 0 {
      PowerPositive(i - 1);
    }
  }

  /** What is on the screen before the digit at bit `i` is looked at. */
  function HexPrinted(n: nat, i: nat): seq<uint8> {
    LowerCase(Remaining(Shifted(n, i + 4), 16))
  }

  lemma HexStart(n: uint32)
    ensures Shifted(n, 32) == 0 && HexPrinted(n, 28) == []
  {
    PowersOfTwo();
    assert Power(2, 32) == 2 * Power(2, 31);
    SmallQuotient(n, Power(2, 32));
  }

  lemma ShiftedBy4(n: nat, i: nat)
    ensures Shifted(n, i + 4) == Quot(Shifted(n, i), 16)
  {
    PowerStep(i);
    PowerPositive(i);
    hide Power;
    var p := Power(2, i);
    var a, b, r := n / p / 16, n / p % 16, n % p;
    assert n == (16 * a + b) * p + r;
    SplitProduct(a, b, p, r);
    UniqueQuotient(a, b * p + r, 16 * p);
  }

  lemma SplitProduct(a: nat, b: nat, p: nat, r: nat)
    requires b < 16 && r < p
    ensures (16 * a + b) * p + r == a * (16 * p) + (b * p + r)
    ensures b * p + r < 16 * p
  {
    assert (15 - b) * p >= 0;
  }

  lemma UniqueQuotient(q: nat, d: nat, base: nat)
    requires d < base
    ensures (q * base + d) / base == q
  {
    if q > 0 {
      QuotientAndRemainder(q, d, base);
    } else {
      SmallQuotient(d, base);
    }
  }

  /** One digit further: skipped while only zeros have come, printed otherwise. */
  lemma HexStep(n: nat, i: nat)
    ensures var q, d := Shifted(n, i), Rem(Shifted(n, i), 16);
            var c := if d < 10 then 48 + d else 97 + d - 10;
            && (q == 0 <==> d == 0 && Shifted(n, i + 4) == 0)
            && LowerCase(Remaining(q, 16)) == (if q == 0 then HexPrinted(n, i) else HexPrinted(n, i) + [c])
            && (i == 0 ==> LowerCase(Digits(n, 16)) == HexPrinted(n, i) + [c])
            && (i >= 4 ==> HexPrinted(n, i - 4) == LowerCase(Remaining(q, 16)))
  {
    var q := Shifted(n, i);
    ShiftedBy4(n, i);
    if q > 0 {
      RemainingStep(q, 16);
    }
    if i == 0 {
      assert Power(2, 0) == 1 && q == n;
    }
  }

  // ---------------------------------------------------------------- the code

  class Terminal {
    const vga: array<uint16>
    var cursorX: nat
    var cursorY: nat
    ghost var text: seq<uint8>   // everything written since the last clear

    /** The screen shows the last 25 lines of the page, and the cursor is the page's cursor
        clamped to the window. */
    ghost predicate Valid()
      reads this, vga
    {
      && Shows(vga[..], Lines(text))
      && cursorX == |Last(Lines(text))|
      && cursorY == |Lines(text)| - 1 - Top(Lines(text))
    }

    constructor ()
      ensures Valid() && text == [] && fresh(vga)
    {
      vga := new uint16[VGA_WIDTH * VGA_HEIGHT];
      new;
      Clear();
    }

    /** terminal_clear, terminal_initialize. */
    method Clear()
      requires vga.Length == VGA_WIDTH * VGA_HEIGHT
      modifies this, vga
      ensures Valid() && text == []
    {
      for y := 0 to VGA_HEIGHT
        invariant forall k :: 0 <= k < y * VGA_WIDTH ==> vga[k] == VgaEntry(SPACE)
      {
        for x := 0 to VGA_WIDTH
          invariant forall k :: 0 <= k < y * VGA_WIDTH + x ==> vga[k] == VgaEntry(SPACE)
        {
          vga[y * VGA_WIDTH + x] := VgaEntry(SPACE);
        }
      }
      cursorX, cursorY, text := 0, 0, [];
    }

    /** The scroll loops: every row moves up by one and the last one is blanked. */
    method Scroll()
      requires vga.Length == VGA_WIDTH * VGA_HEIGHT
      modifies vga
      ensures ShiftedUp(old(vga[..]), vga[..])
    {
      ghost var before := vga[..];
      for y := 0 to VGA_HEIGHT - 1
        invariant forall k :: 0 <= k < y * VGA_WIDTH ==> vga[k] == before[k + VGA_WIDTH]
        invariant forall k :: y * VGA_WIDTH <= k < vga.Length ==> vga[k] == before[k]
      {
        for x := 0 to VGA_WIDTH
          invariant forall k :: 0 <= k < y * VGA_WIDTH + x ==> vga[k] == before[k + VGA_WIDTH]
          invariant forall k :: y * VGA_WIDTH + x <= k < vga.Length ==> vga[k] == before[k]
        {
          vga[y * VGA_WIDTH + x] := vga[(y + 1) * VGA_WIDTH + x];
        }
      }
      ClearLastRow();
    }

    method ClearLastRow()
      requires vga.Length == VGA_WIDTH * VGA_HEIGHT
      modifies vga
      ensures forall k :: 0 <= k < VGA_WIDTH * (VGA_HEIGHT - 1) ==> vga[k] == old(vga[k])
      ensures Blank(vga[..], VGA_WIDTH * (VGA_HEIGHT - 1), vga.Length)
    {
      for x := 0 to VGA_WIDTH
        invariant forall k :: 0 <= k < VGA_WIDTH * (VGA_HEIGHT - 1) ==> vga[k] == old(vga[k])
        invariant Blank(vga[..], VGA_WIDTH * (VGA_HEIGHT - 1), VGA_WIDTH * (VGA_HEIGHT - 1) + x)
      {
        vga[(VGA_HEIGHT - 1) * VGA_WIDTH + x] := VgaEntry(SPACE);
      }
    }

    /** Start a new line, scrolling when the cursor leaves the screen (terminal.c:47-61, 69-83). */
    method LineFeed()
      requires vga.Length == VGA_WIDTH * VGA_HEIGHT && cursorY < VGA_HEIGHT
      modifies this, vga
      ensures text == old(text) && cursorX == 0
      ensures cursorY == if old(cursorY) + 1 < VGA_HEIGHT then old(cursorY) + 1 else VGA_HEIGHT - 1
      ensures if old(cursorY) + 1 < VGA_HEIGHT then vga[..] == old(vga[..]) else ShiftedUp(old(vga[..]), vga[..])
    {
      cursorX := 0;
      cursorY := cursorY + 1;
      if cursorY >= VGA_HEIGHT {
        Scroll();
        cursorY := VGA_HEIGHT - 1;
      }
    }

    /** terminal_putchar. */
    method PutChar(c: uint8)
      requires Valid()
      modifies this, vga
      ensures Valid() && text == old(text) + [c]
    {
      ghost var ls, before := Lines(text), vga[..];
      text := text + [c];
      assert Init(text) == old(text);
      if c == NEWLINE {
        LineFeed();
        FeedShows(before, vga[..], ls);
        return;
      }
      var index := cursorY * VGA_WIDTH + cursorX;
      vga[index] := VgaEntry(c);
      CellShows(before, ls, c);
      ghost var ls', after := Init(ls) + [Last(ls) + [c]], vga[..];
      assert after == before[index := VgaEntry(c)];
      cursorX := cursorX + 1;
      if cursorX >= VGA_WIDTH {
        LineFeed();
        FeedShows(after, vga[..], ls');
      }
    }

    /** terminal_writestring, for the characters before the terminating zero. */
    method WriteString(str: seq<uint8>)
      requires Valid()
      modifies this, vga
      ensures Valid() && text == old(text) + str
    {
      for i := 0 to |str|
        invariant Valid() && text == old(text) + str[..i]
      {
        PutChar(str[i]);
        assert str[..i + 1] == str[..i] + [str[i]];
      }
      assert str[..|str|] == str;
    }

    /** terminal_writedec: push the digits, then pop them. */
    method WriteDec(value: uint32)
      requires Valid()
      modifies this, vga
      ensures Valid() && text == old(text) + Digits(value, 10)
    {
      hide CellAt, Shows, Lines, Digits, Reverse;
      if value == 0 {
        ZeroDigits(10);
        PutChar(48);
        return;
      }
      var buf := new uint8[32];
      BufferBounds(value, 10);
      var i := PushDigits(buf, value, 10);
      ghost var popped := [];
      while i > 0
        invariant 0 <= i <= buf.Length
        invariant Valid() && text == old(text) + popped && Digits(value, 10) == popped + Reverse(buf[..i])
      {
        i := i - 1;
        assert buf[..i + 1] == buf[..i] + [buf[i]];
        PopStep(popped, buf[..i], buf[i]);
        PutChar(buf[i]);
        popped := popped + [buf[i]];
      }
      PopDone(popped, buf[..i]);
    }

    lemma PopStep(popped: seq<uint8>, left: seq<uint8>, c: uint8)
      ensures popped + Reverse(left + [c]) == popped + [c] + Reverse(left)
    {
      ReverseAppend(left, c);
    }

    lemma PopDone(popped: seq<uint8>, left: seq<uint8>)
      requires left == []
      ensures popped + Reverse(left) == popped
    {
    }

    /** terminal_writehex: the digits come out most significant first, leading zeros skipped but
        for the last digit.  The loop always prints one, so the branch after it is never taken. */
    method WriteHex(value: uint32)
      requires Valid()
      modifies this, vga
      ensures Valid() && text == old(text) + HEX_PREFIX + LowerCase(Digits(value, 16))
    {
      hide CellAt, Shows, Lines, Digits, Remaining, LowerCase, Quot, Rem, Power, DigitChar, Lower;
      WriteString(HEX_PREFIX);
      ghost var start := text;
      var i, leadingZero := 28, true;
      HexStart(value);
      while i >= 0
        invariant -4 <= i <= 28 && i % 4 == 0 && Valid()
        invariant i >= 0 ==> text == start + HexPrinted(value, i) && (leadingZero <==> Shifted(value, i + 4) == 0)
        invariant i < 0 ==> text == start + LowerCase(Digits(value, 16)) && !leadingZero
      {
        HexStep(value, i);
        var digit := Rem(Shifted(value, i), 16);
        if !(digit == 0 && leadingZero && i != 0) {
          leadingZero := false;
          PutChar(if digit < 10 then 48 + digit else 97 + digit - 10);
        }
        i := i - 4;
      }
      assert !leadingZero;
    }

    /** print_ip (network.c:206-215). */
    method PrintIp(ip: uint32)
      requires Valid()
      modifies this, vga
      ensures Valid() && text == old(text) + DottedQuad(ip)
    {
      hide CellAt, Shows, Lines, Digits;
      GroupQuad(text, Digits(ip / 0x100_0000, 10), Digits(ip / 0x1_0000 % 0x100, 10), Digits(ip / 0x100 % 0x100, 10),
                Digits(ip % 0x100, 10), [DOT]);
      WriteDec(ip / 0x100_0000 % 0x100);
      PutChar(DOT);
      WriteDec(ip / 0x1_0000 % 0x100);
      PutChar(DOT);
      WriteDec(ip / 0x100 % 0x100);
      PutChar(DOT);
      WriteDec(ip % 0x100);
    }
  }
}

/** The Internet checksum (network.c:168-189) and its theory: RFC 1071 sections 1 and 2. */
module Checksum {
  import opened Bytes

  /** The sum of the little-endian 16-bit words of `s`; an odd last byte counts as it is. */
  function WordSum(s: seq<uint8>): nat {
    if |s| == 0 then 0
    else if |s| == 1 then s[0]
    else Load16(s, 0) + WordSum(s[2..])
  }

  /** The one's-complement value of a sum: 0 only for 0, otherwise the member of 1..65535
      congruent to it modulo 65535. */
  function Fold(n: nat): uint16 {
    if n == 0 then 0 else if n % 65535 == 0 then 65535 else n % 65535
  }

  /** The checksum of RFC 1071: the complement of the one's-complement sum. */
  function InternetChecksum(s: seq<uint8>): uint16 {
    65535 - Fold(WordSum(s))
  }

  predicate AllZero(s: seq<uint8>) {
    forall i :: 0 <= i < |s| ==> s[i] == 0
  }

  // ---------------------------------------------------------------- the code

  /** network_checksum.  The accumulator is 32 bits wide and would wrap silently; up to 131074
      bytes it never does (AccumulatorBound). */
  method NetworkChecksum(data: seq<uint8>) returns (r: uint16)
    ensures r == 65535 - Fold(WordSum(data) % 0x1_0000_0000)
    ensures |data| <= 131074 ==> r == InternetChecksum(data)
  {
    var sum: uint32 := 0;
    var ptr, length := 0, |data|;
    ghost var lost: nat := 0;  // carries out of bit 31
    while length > 1
      invariant 0 <= ptr && 0 <= length && ptr + length == |data|
      invariant sum + WordSum(data[ptr..]) + lost * 0x1_0000_0000 == WordSum(data)
    {
      assert data[ptr..][2..] == data[ptr + 2..];
      lost := lost + (sum + Load16(data, ptr)) / 0x1_0000_0000;
      sum := (sum + Load16(data, ptr)) % 0x1_0000_0000;
      ptr, length := ptr + 2, length - 2;
    }
    if length > 0 {
      lost := lost + (sum + data[ptr]) / 0x1_0000_0000;
      sum := (sum + data[ptr]) % 0x1_0000_0000;
    }
    LowBits(WordSum(data), lost, sum);
    r := ComplementFolded(sum);
    AccumulatorBound(data);
  }

  lemma LowBits(n: nat, lost: nat, low: uint32)
    requires n == low + lost * 0x1_0000_0000
    ensures n % 0x1_0000_0000 == low
    ensures n < 0x1_0000_0000 ==> n == low
  {
  }

  /** The tail both checksum routines share: fold the carries and complement
      (network.c:183-188, tcp.c.bak:284-289). */
  method ComplementFolded(total: uint32) returns (r: uint16)
    ensures r == 65535 - Fold(total)
  {
    var sum := total;
    while sum / 0x1_0000 > 0
      invariant Fold(sum) == Fold(total)
      decreases sum
    {
      FoldStepKeeps(sum);
      sum := FoldStep(sum);
    }
    r := 65535 - sum;
  }

  /** One round of the carry loop (network.c:184-186). */
  function FoldStep(sum: uint32): (r: uint32)
    ensures sum >= 0x1_0000 ==> r < sum
  {
    sum % 0x1_0000 + sum / 0x1_0000
  }

  lemma FoldStepKeeps(sum: uint32)
    ensures Fold(FoldStep(sum)) == Fold(sum)
  {
    var hi, lo := sum / 0x1_0000, sum % 0x1_0000;
    assert sum == lo + hi + hi * 65535;
    ModAddMultiple(lo + hi, hi);
  }

  /** The carry loop ends within two rounds from any 32-bit sum, and some sum needs both. */
  lemma FoldLoopTwoRounds(sum: uint32)
    ensures FoldStep(FoldStep(sum)) == Fold(sum)
    ensures FoldStep(0xFFFF_FFFF) >= 0x1_0000
  {
    FoldStepKeeps(sum);
    FoldStepKeeps(FoldStep(sum));
    assert FoldStep(sum) <= 0x1_FFFE;
    assert FoldStep(FoldStep(sum)) < 0x1_0000;
  }

  // ---------------------------------------------------------------- arithmetic modulo 65535

  lemma ModAddMultiple(n: nat, k: nat)
    ensures (n + k * 65535) % 65535 == n % 65535
  {
  }

  /** Fold keeps the residue; a nonzero value is determined by it. */
  lemma FoldResidue(n: nat)
    ensures Fold(n) % 65535 == n % 65535 && (Fold(n) == 0 <==> n == 0)
  {
  }

  lemma FoldEqual(a: nat, b: nat)
    requires a % 65535 == b % 65535 && (a == 0 <==> b == 0)
    ensures Fold(a) == Fold(b)
  {
  }

  lemma FoldOfFolded(v: uint16)
    ensures Fold(v) == v
  {
  }

  // ---------------------------------------------------------------- the word sum

  lemma {:induction false} WordSumAppend(a: seq<uint8>, b: seq<uint8>)
    requires |a| % 2 == 0
    ensures WordSum(a + b) == WordSum(a) + WordSum(b)
  {
    if |a| == 0 {
      assert a + b == b;
    } else {
      assert (a + b)[2..] == a[2..] + b;
      WordSumAppend(a[2..], b);
    }
  }

  lemma {:induction false} WordSumZero(s: seq<uint8>)
    ensures WordSum(s) == 0 <==> AllZero(s)
  {
    if |s| > 1 {
      WordSumZero(s[2..]);
      assert AllZero(s) ==> AllZero(s[2..]);
      if AllZero(s[2..]) && s[0] == 0 && s[1] == 0 {
        forall i | 0 <= i < |s| ensures s[i] == 0 {
          if i >= 2 { assert s[i] == s[2..][i - 2]; }
        }
      }
    }
  }

  /** The bytes at even offsets, and those at odd ones. */
  function Evens(s: seq<uint8>): nat {
    if s == [] then 0 else s[0] + Odds(s[1..])
  }

  function Odds(s: seq<uint8>): nat {
    if s == [] then 0 else Evens(s[1..])
  }

  /** The word sum, byte by byte: each byte at an odd offset is the high byte of its word. */
  lemma {:induction false} WordSumByBytes(s: seq<uint8>)
    ensures WordSum(s) == Evens(s) + 0x100 * Odds(s)
  {
    if |s| == 1 {
      assert s[1..] == [];
    } else if |s| > 1 {
      assert s[1..][1..] == s[2..];
      WordSumByBytes(s[2..]);
    }
  }

  lemma {:induction false} WordSumBound(s: seq<uint8>)
    ensures WordSum(s) <= |s| / 2 * 65535 + |s| % 2 * 255
  {
    if |s| > 1 {
      WordSumBound(s[2..]);
    }
  }

  lemma {:induction false} WordSumOnes(n: nat)
    ensures WordSum(seq(n, _ => 0xFF)) == n / 2 * 65535 + n % 2 * 255
  {
    if n > 1 {
      assert seq(n, _ => 0xFF)[2..] == seq(n - 2, _ => 0xFF);
      WordSumOnes(n - 2);
    }
  }

  lemma AccumulatorBound(s: seq<uint8>)
    ensures |s| <= 131074 ==> WordSum(s) < 0x1_0000_0000
  {
    WordSumBound(s);
  }

  /** The 32-bit accumulator holds the whole sum of every buffer of length n exactly when n is at
      most 131074; the bound is reached by 65537 words of 0xFFFF. */
  lemma AccumulatorExact(n: nat)
    ensures (forall s: seq<uint8> :: |s| == n ==> WordSum(s) < 0x1_0000_0000) <==> n <= 131074
    ensures WordSum(seq(131074, _ => 0xFF)) == 0xFFFF_FFFF
  {
    WordSumOnes(131074);
    if n <= 131074 {
      forall s: seq<uint8> | |s| == n ensures WordSum(s) < 0x1_0000_0000 {
        AccumulatorBound(s);
      }
    } else {
      WordSumOnes(n);
      var worst: seq<uint8> := seq(n, _ => 0xFF);
      assert |worst| == n && WordSum(worst) >= 0x1_0000_0000;
    }
  }

  // ---------------------------------------------------------------- what a checksum is for

  /** A buffer verifies (its checksum is 0) exactly when its word sum is a positive multiple of
      65535; a checksum of 0xFFFF means that every byte is 0. */
  lemma VerifiesIff(s: seq<uint8>)
    ensures InternetChecksum(s) == 0 <==> WordSum(s) % 65535 == 0 && !AllZero(s)
    ensures InternetChecksum(s) == 0xFFFF <==> AllZero(s)
  {
    WordSumZero(s);
  }

  /** The word sum, seen around the aligned word at `k`. */
  lemma WordSumAt(s: seq<uint8>, k: nat)
    requires k % 2 == 0 && k + 2 <= |s|
    ensures WordSum(s) == WordSum(s[..k]) + Load16(s, k) + WordSum(s[k + 2..])
  {
    WordSumAppend(s[..k], s[k..]);
    assert s == s[..k] + s[k..];
    assert s[k..][2..] == s[k + 2..];
  }

  lemma WordSumSplice(s: seq<uint8>, k: nat, w: uint16)
    requires k % 2 == 0 && k + 2 <= |s|
    ensures WordSum(Splice(s, k, Le16(w))) == WordSum(s) - Load16(s, k) + w
  {
    var t := Splice(s, k, Le16(w));
    WordSumAt(s, k);
    WordSumAt(t, k);
    assert t[..k] == s[..k] && t[k + 2..] == s[k + 2..];
  }

  /** Zero a field, compute the checksum, store it in the field: the span then verifies. */
  lemma StoredChecksumVerifies(s: seq<uint8>, k: nat)
    requires k % 2 == 0 && k + 2 <= |s| && Load16(s, k) == 0
    ensures InternetChecksum(Splice(s, k, Le16(InternetChecksum(s)))) == 0
  {
    var c := InternetChecksum(s);
    var t := Splice(s, k, Le16(c));
    WordSumSplice(s, k, c);
    hide WordSum, Fold;
    SumWithComplement(WordSum(s));
  }

  /** A sum plus the complement of its folded value is a positive multiple of 65535. */
  lemma SumWithComplement(n: nat)
    ensures n + 65535 - Fold(n) > 0 && Fold(n + 65535 - Fold(n)) == 65535
  {
    var f := Fold(n);
    FoldResidue(n);
    assert (n - f) % 65535 == 0;
    ModAddMultiple(n - f, 1);
  }

  /** Error detection: overwriting one aligned word of a verifying buffer goes unnoticed exactly
      when the words are congruent modulo 65535 and something nonzero remains. */
  lemma ErrorDetection(s: seq<uint8>, k: nat, w: uint16)
    requires k % 2 == 0 && k + 2 <= |s|
    requires InternetChecksum(s) == 0
    ensures var t := Splice(s, k, Le16(w));
            InternetChecksum(t) == 0 <==> w % 65535 == Load16(s, k) % 65535 && !AllZero(t)
  {
    var t := Splice(s, k, Le16(w));
    WordSumSplice(s, k, w);
    VerifiesIff(s);
    VerifiesIff(t);
    SumOfMultiple(WordSum(s), Load16(s, k), w);
  }

  lemma SumOfMultiple(sum: nat, a: nat, b: nat)
    requires sum % 65535 == 0
    ensures (sum - a + b) % 65535 == 0 <==> a % 65535 == b % 65535
  {
  }

  /** RFC 1071 section 2: the checksum of a buffer split at an even offset follows from the
      checksums of its parts. */
  lemma SplitChecksum(a: seq<uint8>, b: seq<uint8>)
    requires |a| % 2 == 0
    ensures InternetChecksum(a + b)
         == 65535 - Fold((65535 - InternetChecksum(a)) + (65535 - InternetChecksum(b)))
  {
    var x, y := WordSum(a), WordSum(b);
    WordSumAppend(a, b);
    FoldResidue(x);
    FoldResidue(y);
    ModAdd(Fold(x), x, Fold(y), y);
  }

  // ---------------------------------------------------------------- byte order

  /** The sum of the words read most significant byte first; an odd last byte is the high byte
      of its word (tcp.c.bak:261-282). */
  function WordSumBe(s: seq<uint8>): nat {
    if |s| == 0 then 0
    else if |s| == 1 then s[0] as int * 0x100
    else Htons(Load16(s, 0)) + WordSumBe(s[2..])
  }

  lemma {:induction false} WordSumBeAppend(a: seq<uint8>, b: seq<uint8>)
    requires |a| % 2 == 0
    ensures WordSumBe(a + b) == WordSumBe(a) + WordSumBe(b)
  {
    if |a| == 0 {
      assert a + b == b;
    } else {
      assert (a + b)[2..] == a[2..] + b;
      WordSumBeAppend(a[2..], b);
    }
  }

  lemma {:induction false} WordSumBeBound(s: seq<uint8>)
    ensures 2 * WordSumBe(s) <= (|s| + 1) * 65535
  {
    if |s| > 1 {
      WordSumBeBound(s[2..]);
    }
  }

  /** Swapping the bytes of a word multiplies it by 256 modulo 65535. */
  lemma SwapIsTimes256(x: uint16)
    ensures Htons(x) % 65535 == 256 * x as int % 65535
    ensures Htons(x) == 0 <==> x == 0
  {
    var lo, hi := x % 0x100, x / 0x100;
    assert 256 * x as int == Htons(x) + hi * 65535;
    ModAddMultiple(Htons(x), hi);
  }

  lemma SwapComplement(x: uint16)
    ensures Htons(65535 - x) == 65535 - Htons(x)
  {
    var lo, hi := x % 0x100, x / 0x100;
    assert 65535 - x == (255 - hi) * 0x100 + (255 - lo);
  }

  lemma {:induction false} BigEndianSum(s: seq<uint8>)
    ensures WordSumBe(s) % 65535 == 256 * WordSum(s) % 65535
    ensures WordSumBe(s) == 0 <==> WordSum(s) == 0
  {
    if |s| > 1 {
      BigEndianSum(s[2..]);
      var w, rest := Load16(s, 0), WordSum(s[2..]);
      SwapIsTimes256(w);
      ModAdd(Htons(w), 256 * w as int, WordSumBe(s[2..]), 256 * rest);
    }
  }

  lemma ModAdd(a: nat, a': nat, b: nat, b': nat)
    requires a % 65535 == a' % 65535 && b % 65535 == b' % 65535
    ensures (a + b) % 65535 == (a' + b') % 65535
  {
  }

  /** Multiplying by 256 twice is multiplying by 65536, which is 1 modulo 65535. */
  lemma SwapBack(f: nat, be: nat, n: nat)
    requires f % 65535 == be % 65535 == 256 * n % 65535
    ensures 256 * f % 65535 == n % 65535
  {
    var k := f / 65535 - 256 * n / 65535;
    assert f == 256 * n + k * 65535;
    assert 256 * f == n + (n + 256 * k) * 65535;
    if n + 256 * k >= 0 {
      ModAddMultiple(n, n + 256 * k);
    } else {
      assert n == 256 * f + (-(n + 256 * k)) * 65535;
      ModAddMultiple(256 * f, -(n + 256 * k));
    }
  }

  /** RFC 1071 section 2 (B): summing byte-swapped words and swapping the folded result back is
      summing the words as they are. */
  lemma ByteOrderIndependence(s: seq<uint8>)
    ensures Htons(Fold(WordSumBe(s))) == Fold(WordSum(s))
    ensures Htons(65535 - Fold(WordSumBe(s))) == InternetChecksum(s)
  {
    var n, be := WordSum(s), WordSumBe(s);
    BigEndianSum(s);
    var f := Fold(be);
    FoldResidue(be);
    SwapIsTimes256(f);
    SwapBack(f, be, n);
    FoldOfFolded(Htons(f));
    FoldEqual(Htons(f), n);
    SwapComplement(f);
  }

  // ---------------------------------------------------------------- TCP

  /** struct tcp_pseudo_header for a segment of `len` bytes of data; the length field is 16 bits
      wide (tcp.c.bak:252-258). */
  function PseudoHeader(srcIp: seq<uint8>, dstIp: seq<uint8>, len: nat): seq<uint8>
    requires |srcIp| == 4 && |dstIp| == 4
  {
    srcIp + dstIp + [0, 6] + Be16((20 + len) % 0x1_0000)
  }

  /** The length field counts the 20-byte header and the data. */
  lemma PseudoHeaderLength(srcIp: seq<uint8>, dstIp: seq<uint8>, len: nat)
    requires |srcIp| == 4 && |dstIp| == 4
    ensures PseudoHeader(srcIp, dstIp, len) == srcIp + dstIp + [0, 6] + Be16((20 + len) % 0x1_0000)
  {
  }

  /** The loop all three parts of tcp_checksum share: add the byte-swapped words of `data`. */
  method AddSwappedWords(start: uint32, data: seq<uint8>) returns (sum: uint32)
    requires start + WordSumBe(data) < 0x1_0000_0000
    ensures sum == start + WordSumBe(data[..|data| / 2 * 2])
  {
    sum := start;
    var i := 0;
    WordSumBeSplit(data);
    while i < |data| / 2
      invariant 0 <= i <= |data| / 2
      invariant sum + WordSumBe(data[2 * i..|data| / 2 * 2]) == start + WordSumBe(data[..|data| / 2 * 2])
    {
      var rest := data[2 * i..|data| / 2 * 2];
      assert rest[2..] == data[2 * (i + 1)..|data| / 2 * 2];
      assert Load16(rest, 0) == Load16(data, 2 * i);
      sum := sum + Htons(Load16(data, 2 * i));
      i := i + 1;
    }
  }

  lemma WordSumBeSplit(data: seq<uint8>)
    ensures WordSumBe(data)
         == WordSumBe(data[..|data| / 2 * 2]) + if |data| % 2 == 1 then data[|data| - 1] as int * 0x100 else 0
  {
    hide WordSumBe;
    var n := |data| / 2 * 2;
    WordSumBeAppend(data[..n], data[n..]);
    assert data == data[..n] + data[n..];
    WordSumBeShort(data[n..]);
  }

  lemma WordSumBeShort(s: seq<uint8>)
    requires |s| < 2
    ensures WordSumBe(s) == if s == [] then 0 else s[0] as int * 0x100
  {
  }

  /** What the three loops and the odd byte add up to; the accumulator never wraps. */
  lemma SegmentSum(pseudo: seq<uint8>, tcp: seq<uint8>, data: seq<uint8>)
    requires |pseudo| == 12 && |tcp| == 20 && |data| < 0x1_0000
    ensures pseudo[..|pseudo| / 2 * 2] == pseudo && tcp[..|tcp| / 2 * 2] == tcp
    ensures WordSumBe(pseudo + tcp + data) == WordSumBe(pseudo) + WordSumBe(tcp) + WordSumBe(data)
    ensures WordSumBe(data)
         == WordSumBe(data[..|data| / 2 * 2]) + if |data| % 2 == 1 then data[|data| - 1] as int * 0x100 else 0
    ensures WordSumBe(pseudo) + WordSumBe(tcp) + WordSumBe(data) < 0x1_0000_0000
  {
    WordSumBeAppend(pseudo + tcp, data);
    WordSumBeAppend(pseudo, tcp);
    WordSumBeBound(pseudo);
    WordSumBeBound(tcp);
    WordSumBeBound(data);
    WordSumBeSplit(data);
  }

  /** tcp_checksum of a segment: the IP addresses, the 20-byte header and the data.  For every
      header and every data length, htons of the result is network_checksum of the concatenation
      of pseudo-header, header and data. */
  method TcpChecksum(srcIp: seq<uint8>, dstIp: seq<uint8>, tcp: seq<uint8>, data: seq<uint8>) returns (r: uint16)
    requires |srcIp| == 4 && |dstIp| == 4 && |tcp| == 20 && |data| < 0x1_0000
    ensures Htons(r) == InternetChecksum(PseudoHeader(srcIp, dstIp, |data|) + tcp + data)
    ensures Htons(r) == InternetChecksum(srcIp + dstIp + [0, 6] + Be16(|tcp + data| % 0x1_0000) + tcp + data)
  {
    hide InternetChecksum, WordSumBe, Fold, Htons, Be16;
    HtonsStored((20 + |data|) % 0x1_0000);
    PseudoHeaderLength(srcIp, dstIp, |data|);
    var pseudo := srcIp + dstIp + [0, 6] + Le16(Htons((20 + |data|) % 0x1_0000));
    SegmentSum(pseudo, tcp, data);
    var sum := AddSwappedWords(0, pseudo);
    sum := AddSwappedWords(sum, tcp);
    sum := AddSwappedWords(sum, data);
    if |data| % 2 == 1 {
      sum := sum + data[|data| - 1] as int * 0x100;
    }
    r := ComplementFolded(sum);
    ByteOrderIndependence(pseudo + tcp + data);
  }
}

/** Machine integers, byte buffers and byte order (types.h, byteorder.h, memory.c).

    The code runs on a little-endian x86: a 16- or 32-bit field of a packed struct is loaded and
    stored least significant byte first.  Masks and shifts by whole bytes are written with `%`
    and `/`, which is what they compute on unsigned operands. */
module Bytes {

  type uint8 = x: int | 0 <= x < 0x100
  type uint16 = x: int | 0 <= x < 0x1_0000
  type uint32 = x: int | 0 <= x < 0x1_0000_0000

  datatype Option<T> = None | Some(value: T)

  function Init<T>(s: seq<T>): seq<T>
    requires s != []
  {
    s[..|s| - 1]
  }

  function Last<T>(s: seq<T>): T
    requires s != []
  {
    s[|s| - 1]
  }

  /** x modulo r, by repeated subtraction. */
  function Mod(x: nat, r: nat): (m: nat)
    requires r > 0
    ensures m < r
  {
    if x < r then x else Mod(x - r, r)
  }

  /** What is left is the remainder. */
  lemma {:induction false} ModIsRemainder(x: nat, r: nat)
    requires r > 0
    ensures Mod(x, r) == x % r
  {
    if x < r {
      SmallRemainder(x, 0, r);
    } else {
      ModIsRemainder(x - r, r);
      var q, m := (x - r) / r, (x - r) % r;
      assert x == (q + 1) * r + m by {
        assert x - r == q * r + m;
      }
      SmallRemainder(m, q + 1, r);
    }
  }

  lemma SmallRemainder(m: nat, q: nat, r: nat)
    requires m < r
    ensures (q * r + m) % r == m
  {
    var n := q * r + m;
    assert n == n / r * r + n % r;
    assert (n / r - q) * r == m - n % r;
    NoSmallMultiple(n / r - q, r, m - n % r);
  }

  lemma NoSmallMultiple(x: int, r: nat, y: int)
    requires x * r == y && -(r as int) < y < r
    ensures x == 0
  {
  }

  // ---------------------------------------------------------------- byteorder.h

  function Htons(x: uint16): (r: uint16)
    ensures r % 0x100 == x / 0x100 && r / 0x100 == x % 0x100
  {
    x % 0x100 * 0x100 + x / 0x100
  }

  function Htonl(x: uint32): uint32 {
    x % 0x100 * 0x100_0000
    + x / 0x100 % 0x100 * 0x1_0000
    + x / 0x1_0000 % 0x100 * 0x100
    + x / 0x100_0000
  }

  /** htons is its own inverse, so ntohs may be htons (byteorder.h:11-13). */
  lemma HtonsInverse(x: uint16)
    ensures Htons(Htons(x)) == x
  {
  }

  /** htonl is its own inverse, so ntohl may be htonl (byteorder.h:22-24). */
  lemma HtonlInverse(x: uint32)
    ensures Htonl(Htonl(x)) == x
  {
    HtonlStored(x);
    HtonlStored(Htonl(x));
    assert Be32(x) == Le32(Htonl(x));
    Load32Le32(Htonl(Htonl(x)));
    Load32Le32(x);
    assert Le32(Htonl(Htonl(x))) == Be32(Htonl(x));
    assert Be32(Htonl(x)) == Reverse4(Le32(Htonl(x)));
    assert Le32(x) == Reverse4(Be32(x));
  }

  // ---------------------------------------------------------------- loads and stores

  function Load16(s: seq<uint8>, k: nat): uint16
    requires k + 2 <= |s|
  {
    s[k] as int + 0x100 * s[k + 1] as int
  }

  function Load32(s: seq<uint8>, k: nat): uint32
    requires k + 4 <= |s|
  {
    s[k] as int + 0x100 * s[k + 1] as int + 0x1_0000 * s[k + 2] as int + 0x100_0000 * s[k + 3] as int
  }

  /** The bytes a little-endian store of `x` leaves in memory. */
  function Le16(x: uint16): (r: seq<uint8>)
    ensures |r| == 2
  {
    [x % 0x100, x / 0x100]
  }

  function Le32(x: uint32): (r: seq<uint8>)
    ensures |r| == 4
  {
    [x % 0x100, x / 0x100 % 0x100, x / 0x1_0000 % 0x100, x / 0x100_0000]
  }

  /** Network byte order: the bytes of `x` as they appear on the wire. */
  function Be16(x: uint16): (r: seq<uint8>)
    ensures |r| == 2
  {
    [x / 0x100, x % 0x100]
  }

  function Be32(x: uint32): (r: seq<uint8>)
    ensures |r| == 4
  {
    [x / 0x100_0000, x / 0x1_0000 % 0x100, x / 0x100 % 0x100, x % 0x100]
  }

  /** The most significant byte comes first on the wire. */
  lemma NetworkOrder(x: uint32, y: uint16)
    ensures var s := Be32(x); x == s[0] as int * 0x100_0000 + s[1] as int * 0x1_0000 + s[2] as int * 0x100 + s[3]
    ensures y == Be16(y)[0] as int * 0x100 + Be16(y)[1]
  {
    Load32Le32(x);
  }

  function Reverse4(s: seq<uint8>): seq<uint8>
    requires |s| == 4
  {
    [s[3], s[2], s[1], s[0]]
  }

  lemma Load32Le32(x: uint32)
    ensures Load32(Le32(x), 0) == x
  {
    var q1, q2 := x / 0x100, x / 0x1_0000;
    assert q1 / 0x100 == q2 && q2 / 0x100 == x / 0x100_0000;
    assert x == q1 * 0x100 + x % 0x100;
    assert q1 == q2 * 0x100 + q1 % 0x100;
    assert q2 == x / 0x100_0000 * 0x100 + q2 % 0x100;
  }

  lemma DivByte(r: uint8, q: nat)
    ensures (r as int + 0x100 * q) / 0x100 == q && (r as int + 0x100 * q) % 0x100 == r
  {
  }

  lemma Le32Load32(s: seq<uint8>)
    requires |s| == 4
    ensures Le32(Load32(s, 0)) == s
  {
    var q2: nat := s[2] as int + 0x100 * s[3] as int;
    var q1: nat := s[1] as int + 0x100 * q2;
    var x := Load32(s, 0);
    assert x == s[0] as int + 0x100 * q1;
    DivByte(s[0], q1);
    DivByte(s[1], q2);
    DivByte(s[2], s[3]);
    assert x / 0x1_0000 == x / 0x100 / 0x100;
    assert x / 0x100_0000 == x / 0x1_0000 / 0x100;
  }

  /** Storing htons(x) puts x on the wire in network order. */
  lemma HtonsStored(x: uint16)
    ensures Le16(Htons(x)) == Be16(x)
  {
  }

  /** Storing htonl(x) puts x on the wire in network order. */
  lemma HtonlStored(x: uint32)
    ensures Le32(Htonl(x)) == Be32(x)
  {
    var a, b, c, d := x % 0x100, x / 0x100 % 0x100, x / 0x1_0000 % 0x100, x / 0x100_0000;
    var y := Htonl(x);
    assert y == d + 0x100 * c + 0x1_0000 * b + 0x100_0000 * a;
    Le32Load32([d, c, b, a]);
    assert Load32([d, c, b, a], 0) == y;
  }

  /** Loading a big-endian field and applying ntohl gives the number on the wire. */
  lemma NtohlLoaded(s: seq<uint8>, k: nat)
    requires k + 4 <= |s|
    ensures Be32(Htonl(Load32(s, k))) == s[k..k + 4]
    ensures forall x: uint32 :: s[k..k + 4] == Be32(x) ==> Htonl(Load32(s, k)) == x
  {
    var t := s[k..k + 4];
    assert Load32(s, k) == Load32(t, 0);
    Le32Load32(t);
    var h := Htonl(Load32(t, 0));
    HtonlInverse(Load32(t, 0));
    HtonlStored(h);
    forall x: uint32 | t == Be32(x) ensures h == x {
      HtonlStored(x);
      Load32Le32(Htonl(x));
      HtonlInverse(x);
    }
  }

  // ---------------------------------------------------------------- overwriting a span

  /** `s` with the span starting at `k` overwritten by `t`. */
  function Splice<T>(s: seq<T>, k: nat, t: seq<T>): (r: seq<T>)
    requires k + |t| <= |s|
    ensures |r| == |s|
  {
    s[..k] + t + s[k + |t|..]
  }

  /** Overwriting a field of the window of `n` elements at `p` touches nothing outside it. */
  lemma SpliceWindow<T>(s: seq<T>, p: nat, n: nat, k: nat, t: seq<T>)
    requires p + n <= |s| && k + |t| <= n
    ensures Splice(s, p + k, t)[p..p + n] == Splice(s[p..p + n], k, t)
    ensures Splice(s, p + k, t)[..p] == s[..p]
    ensures Splice(s, p + k, t)[p + n..] == s[p + n..]
  {
  }

  /** Overwriting the middle of three parts. */
  lemma SpliceMiddle<T>(a: seq<T>, b: seq<T>, c: seq<T>, t: seq<T>)
    requires |t| == |b|
    ensures Splice(a + b + c, |a|, t) == a + t + c
  {
    assert (a + b + c)[..|a|] == a;
    assert (a + b + c)[|a| + |b|..] == c;
  }

  /** What a shared prefix and suffix say element by element. */
  lemma SameOutside<T>(s: seq<T>, t: seq<T>, a: nat, b: nat)
    requires a <= b <= |s| == |t| && s[..a] == t[..a] && s[b..] == t[b..]
    ensures forall i :: 0 <= i < |s| && (i < a || b <= i) ==> t[i] == s[i]
  {
    forall i | 0 <= i < |s| && (i < a || b <= i) ensures t[i] == s[i] {
      if i < a {
        assert s[..a][i] == t[..a][i];
      } else {
        assert s[b..][i - b] == t[b..][i - b];
      }
    }
  }

  /** Parts of a shared suffix are shared. */
  lemma SameTail<T>(s: seq<T>, t: seq<T>, k: nat, a: nat, b: nat)
    requires k <= a <= b <= |s| == |t| && s[k..] == t[k..]
    ensures s[a..b] == t[a..b]
  {
    DropSlice(s, k, a - k, b - k);
    DropSlice(t, k, a - k, b - k);
  }

  lemma SliceSlice<T>(s: seq<T>, p: nat, q: nat)
    requires p <= q <= |s|
    ensures forall a, b {:trigger s[p..q][a..b]} :: 0 <= a <= b <= q - p ==> s[p..q][a..b] == s[p + a..p + b]
  {
    forall a, b | 0 <= a <= b <= q - p ensures s[p..q][a..b] == s[p + a..p + b] {
      assert forall i :: 0 <= i < b - a ==> s[p..q][a..b][i] == s[p + a..p + b][i];
    }
  }

  lemma DropSlice<T>(s: seq<T>, p: nat, a: nat, b: nat)
    requires a <= b && p + b <= |s|
    ensures s[p..][a..b] == s[p + a..p + b]
  {
  }

  lemma Regroup4<T>(s: seq<T>, a: seq<T>, b: seq<T>, c: seq<T>, d: seq<T>)
    ensures s + a + b + c + d == s + (a + b + c + d)
  {
  }

  lemma Regroup5<T>(s: seq<T>, a: seq<T>, b: seq<T>, c: seq<T>, d: seq<T>, e: seq<T>)
    ensures s + a + b + c + d + e == s + (a + b + c + d + e)
  {
  }

  /** The characters of a string as bytes. */
  function Text(s: string): (r: seq<uint8>)
    requires forall i :: 0 <= i < |s| ==> s[i] < 128 as char
    ensures |r| == |s| && forall i :: 0 <= i < |s| ==> r[i] == s[i] as int
  {
    seq(|s|, i requires 0 <= i < |s| => s[i] as int)
  }

  /** `x`, `k` times. */
  function Copies<T>(k: nat, x: T): (r: seq<T>)
    ensures |r| == k && forall i :: 0 <= i < k ==> r[i] == x
  {
    if k == 0 then [] else [x] + Copies(k - 1, x)
  }

  /** `n` zero bytes, such as the padding of a short Ethernet frame. */
  function Zeros(n: nat): (r: seq<uint8>)
    ensures |r| == n && forall i :: 0 <= i < n ==> r[i] == 0
  {
    seq(n, _ => 0)
  }

  // ---------------------------------------------------------------- memory.c

  /** memcpy: bytes are copied first to last (memory.c:34-41).  That is a copy of the original bytes,
      unless the destination starts inside the source in the same buffer: then the bytes before it
      are repeated. */
  method Memcpy(dest: array<uint8>, d: nat, src: array<uint8>, s: nat, len: nat)
    requires d + len <= dest.Length && s + len <= src.Length
    modifies dest
    ensures !(dest == src && s < d < s + len) ==> dest[..] == Splice(old(dest[..]), d, old(src[s..s + len]))
    ensures dest == src && s < d < s + len ==> dest[..] == Splice(old(dest[..]), d, Repeated(old(src[s..d]), len))
  {
    hide Moved, Repeated, Partly, Splice;
    var n := 0;
    ghost var was, now := src[..], dest[..];
    ghost var t := if dest == src then Moved(now, d, s, len) else was[s..s + len];
    PartlyEnds(now, d, t);
    while n < len
      invariant 0 <= n <= len
      invariant dest[..] == Partly(now, d, t, n)
      invariant dest != src ==> src[..] == was
    {
      if dest == src {
        NextByte(now, d, s, len, n);
        assert src[s + n] == dest[..][s + n];
      } else {
        assert src[s + n] == src[..][s + n] == t[n];
      }
      PartlyStep(now, d, t, n);
      dest[d + n] := src[s + n];
      n := n + 1;
    }
    if dest == src {
      MovedCases(now, d, s, len);
    }
  }

  /** `now` with the first `n` bytes of `t` stored at `d`. */
  function Partly(now: seq<uint8>, d: nat, t: seq<uint8>, n: nat): (r: seq<uint8>)
    requires n <= |t| && d + |t| <= |now|
    ensures |r| == |now|
  {
    now[..d] + t[..n] + now[d + n..]
  }

  lemma PartlyEnds(now: seq<uint8>, d: nat, t: seq<uint8>)
    requires d + |t| <= |now|
    ensures Partly(now, d, t, 0) == now && Partly(now, d, t, |t|) == Splice(now, d, t)
  {
    assert t[..|t|] == t;
  }

  lemma PartlyStep(now: seq<uint8>, d: nat, t: seq<uint8>, n: nat)
    requires n < |t| && d + |t| <= |now|
    ensures Partly(now, d, t, n)[d + n := t[n]] == Partly(now, d, t, n + 1)
  {
  }

  /** What copying `len` bytes from `s` to `d` of the same buffer puts there. */
  function Moved(now: seq<uint8>, d: nat, s: nat, len: nat): (t: seq<uint8>)
    requires d + len <= |now| && s + len <= |now|
    ensures |t| == len
  {
    if s < d < s + len then Repeated(now[s..d], len) else now[s..s + len]
  }

  lemma MovedCases(now: seq<uint8>, d: nat, s: nat, len: nat)
    requires d + len <= |now| && s + len <= |now|
    ensures Moved(now, d, s, len) == if s < d < s + len then Repeated(now[s..d], len) else now[s..s + len]
  {
  }

  /** The byte about to be copied, when the first `n` have been. */
  lemma NextByte(now: seq<uint8>, d: nat, s: nat, len: nat, n: nat)
    requires d + len <= |now| && s + len <= |now| && n < len
    ensures Partly(now, d, Moved(now, d, s, len), n)[s + n] == Moved(now, d, s, len)[n]
  {
    hide Repeated;
    if s < d < s + len {
      RepeatedStep(now[s..d], len, n);
    }
  }

  lemma RepeatedStep(s: seq<uint8>, len: nat, n: nat)
    requires s != [] && n < len
    ensures Repeated(s, len)[n] == if n < |s| then s[n] else Repeated(s, len)[n - |s|]
  {
  }

  /** `len` bytes, `s` over and over. */
  function Repeated(s: seq<uint8>, len: nat): (r: seq<uint8>)
    requires s != []
    ensures |r| == len
  {
    seq(len, i requires 0 <= i < len => s[Mod(i, |s|)])
  }

  /** The first difference of two spans is at `k`, and it is `r`. */
  ghost predicate FirstDifference(s: seq<uint8>, t: seq<uint8>, k: nat, r: int) {
    k < |s| && k < |t| && s[..k] == t[..k] && s[k] != t[k] && r == s[k] as int - t[k] as int
  }

  ghost predicate Differ(s: seq<uint8>, t: seq<uint8>, r: int) {
    exists k: nat :: FirstDifference(s, t, k, r)
  }

  /** memcmp (memory.c:43-54): zero for equal spans, otherwise the difference of the first two bytes
      that differ. */
  method Memcmp(s1: array<uint8>, a: nat, s2: array<uint8>, b: nat, len: nat) returns (r: int)
    requires a + len <= s1.Length && b + len <= s2.Length
    ensures r == 0 <==> s1[a..a + len] == s2[b..b + len]
    ensures r != 0 ==> Differ(s1[a..a + len], s2[b..b + len], r)
  {
    var n := 0;
    while n < len
      invariant 0 <= n <= len && s1[a..a + len][..n] == s2[b..b + len][..n]
    {
      if s1[a + n] != s2[b + n] {
        r := s1[a + n] as int - s2[b + n] as int;
        assert FirstDifference(s1[a..a + len], s2[b..b + len], n, r);
        return;
      }
      n := n + 1;
    }
    return 0;
  }

  /** Storing bytes that come from no buffer: an immediate value, a string literal or a struct
      that is not in `dest`. */
  method Store(dest: array<uint8>, d: nat, src: seq<uint8>)
    requires d + |src| <= dest.Length
    modifies dest
    ensures dest[..] == Splice(old(dest[..]), d, src)
    ensures dest[..d + |src|] == old(dest[..d]) + src
  {
    var n := 0;
    while n < |src|
      invariant 0 <= n <= |src|
      invariant dest[..d + n] == old(dest[..d]) + src[..n]
      invariant dest[d + n..] == old(dest[d + n..])
    {
      dest[d + n] := src[n];
      n := n + 1;
    }
    assert src[..n] == src;
    assert dest[..] == dest[..d + n] + dest[d + n..];
  }

  /** memset (memory.c:26-32). */
  method Memset(dest: array<uint8>, d: nat, val: uint8, len: nat)
    requires d + len <= dest.Length
    modifies dest
    ensures dest[..d + len] == old(dest[..d]) + seq(len, _ => val)
    ensures dest[d + len..] == old(dest[d + len..])
  {
    var n := 0;
    while n < len
      invariant 0 <= n <= len
      invariant forall i :: d <= i < d + n ==> dest[i] == val
      invariant forall i :: 0 <= i < dest.Length && (i < d || d + n <= i) ==> dest[i] == old(dest[i])
    {
      dest[d + n] := val;
      n := n + 1;
    }
  }

  /** Storing field `k` of the struct of `n` bytes at `p`. */
  method StoreField(mem: array<uint8>, p: nat, n: nat, k: nat, src: seq<uint8>)
    requires p + n <= mem.Length && k + |src| <= n
    modifies mem
    ensures mem[p..p + n] == Splice(old(mem[p..p + n]), k, src)
    ensures mem[..p] == old(mem[..p]) && mem[p + n..] == old(mem[p + n..])
  {
    hide Splice;
    SpliceWindow(mem[..], p, n, k, src);
    Store(mem, p + k, src);
  }

  /** Copying one field of the struct of `n` bytes at `p` onto another. */
  method CopyField(mem: array<uint8>, p: nat, n: nat, k: nat, from: nat, len: nat)
    requires p + n <= mem.Length && k + len <= n && from + len <= n
    requires k <= from || from + len <= k
    modifies mem
    ensures mem[p..p + n] == Splice(old(mem[p..p + n]), k, old(mem[p..p + n])[from..from + len])
    ensures mem[..p] == old(mem[..p]) && mem[p + n..] == old(mem[p + n..])
  {
    hide Splice;
    ghost var m := mem[..];
    FieldCopied(m, p, n, k, from, len);
    Memcpy(mem, p + k, mem, p + from, len);
    assert mem[..] == Splice(m, p + k, m[p + from..p + from + len]);
  }

  lemma FieldCopied(m: seq<uint8>, p: nat, n: nat, k: nat, from: nat, len: nat)
    requires p + n <= |m| && k + len <= n && from + len <= n
    ensures var r := Splice(m, p + k, m[p + from..p + from + len]);
            && r[p..p + n] == Splice(m[p..p + n], k, m[p..p + n][from..from + len])
            && r[..p] == m[..p] && r[p + n..] == m[p + n..]
  {
    SliceSlice(m, p, p + n);
    assert m[p..p + n][from..from + len] == m[p + from..p + from + len];
    SpliceWindow(m, p, n, k, m[p + from..p + from + len]);
  }
}

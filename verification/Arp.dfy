/** The ARP cache (arp.c:15-30, 139-191): sixteen slots scanned and overwritten in place, and the
    theorem that says what they hold after any history of updates. */
module Arp {
  import opened Bytes

  const ARP_CACHE_SIZE := 16

  type Mac = m: seq<uint8> | |m| == 6 witness [0, 0, 0, 0, 0, 0]

  datatype Entry = Entry(ip: uint32, mac: Mac, valid: bool)

  type Cache = c: seq<Entry> | |c| == ARP_CACHE_SIZE
    witness seq(ARP_CACHE_SIZE, _ => Entry(0, [0, 0, 0, 0, 0, 0], false))

  predicate Matches(e: Entry, ip: uint32) {
    e.valid && e.ip == ip
  }

  // ---------------------------------------------------------------- specification of one call

  /** The first slot at or after `from` that holds `ip`, or |c|. */
  function IndexOf(c: seq<Entry>, ip: uint32, from: nat := 0): (r: nat)
    requires from <= |c|
    ensures from <= r <= |c| && (r < |c| ==> Matches(c[r], ip))
    ensures forall j :: from <= j < r ==> !Matches(c[j], ip)
    decreases |c| - from
  {
    if from == |c| || Matches(c[from], ip) then from else IndexOf(c, ip, from + 1)
  }

  function FirstFree(c: seq<Entry>, from: nat := 0): (r: nat)
    requires from <= |c|
    ensures from <= r <= |c| && (r < |c| ==> !c[r].valid)
    ensures forall j :: from <= j < r ==> c[j].valid
    decreases |c| - from
  {
    if from == |c| || !c[from].valid then from else FirstFree(c, from + 1)
  }

  function Lookup(c: seq<Entry>, ip: uint32): Option<Mac> {
    var i := IndexOf(c, ip);
    if i < |c| then Some(c[i].mac) else None
  }

  /** An update overwrites the slot of `ip`, else the first free slot, else slot 0. */
  function Updated(c: seq<Entry>, ip: uint32, mac: Mac): (r: seq<Entry>)
    requires |c| > 0
    ensures |r| == |c|
  {
    var i, j := IndexOf(c, ip), FirstFree(c);
    if i < |c| then c[i := c[i].(mac := mac)]
    else if j < |c| then c[j := Entry(ip, mac, true)]
    else c[0 := c[0].(ip := ip, mac := mac)]
  }

  /** Whatever the cache held, an updated address is found with its new MAC. */
  lemma UpdatedFound(c: seq<Entry>, ip: uint32, mac: Mac)
    requires |c| > 0
    ensures Lookup(Updated(c, ip, mac), ip) == Some(mac)
  {
    var r, i, j := Updated(c, ip, mac), IndexOf(c, ip), FirstFree(c);
    var k := if i < |c| then i else if j < |c| then j else 0;
    assert Matches(r[k], ip) && r[k].mac == mac;
    assert forall n :: 0 <= n < k ==> !Matches(r[n], ip);
  }

  // ---------------------------------------------------------------- the code

  class ArpCache {
    const entries: array<Entry>

    constructor ()
      ensures entries.Length == ARP_CACHE_SIZE && fresh(entries)
      ensures forall i :: 0 <= i < ARP_CACHE_SIZE ==> !entries[i].valid
    {
      entries := new Entry[ARP_CACHE_SIZE](_ => Entry(0, [0, 0, 0, 0, 0, 0], false));
    }

    /** clear_arp_cache: only the valid flags change. */
    method Clear()
      requires entries.Length == ARP_CACHE_SIZE
      modifies entries
      ensures forall i :: 0 <= i < ARP_CACHE_SIZE ==> entries[i] == old(entries[i]).(valid := false)
    {
      for i := 0 to ARP_CACHE_SIZE
        invariant forall k :: 0 <= k < i ==> entries[k] == old(entries[k]).(valid := false)
        invariant forall k :: i <= k < ARP_CACHE_SIZE ==> entries[k] == old(entries[k])
      {
        entries[i] := entries[i].(valid := false);
      }
    }

    /** get_mac_from_cache. */
    method GetMac(ip: uint32) returns (r: Option<Mac>)
      requires entries.Length == ARP_CACHE_SIZE
      ensures r == Lookup(entries[..], ip)
    {
      for i := 0 to ARP_CACHE_SIZE
        invariant IndexOf(entries[..], ip) == IndexOf(entries[..], ip, i)
      {
        if entries[i].valid && entries[i].ip == ip {
          return Some(entries[i].mac);
        }
      }
      return None;
    }

    /** update_arp_cache. */
    method Update(ip: uint32, mac: Mac)
      requires entries.Length == ARP_CACHE_SIZE
      modifies entries
      ensures entries[..] == Updated(old(entries[..]), ip, mac)
    {
      for i := 0 to ARP_CACHE_SIZE
        invariant IndexOf(entries[..], ip) == IndexOf(entries[..], ip, i)
        invariant entries[..] == old(entries[..])
      {
        if entries[i].valid && entries[i].ip == ip {
          entries[i] := entries[i].(mac := mac);
          return;
        }
      }
      for i := 0 to ARP_CACHE_SIZE
        invariant FirstFree(entries[..]) == FirstFree(entries[..], i)
        invariant entries[..] == old(entries[..])
      {
        if !entries[i].valid {
          entries[i] := Entry(ip, mac, true);
          return;
        }
      }
      entries[0] := entries[0].(ip := ip, mac := mac);
    }
  }

  // ---------------------------------------------------------------- histories

  datatype Update = Update(ip: uint32, mac: Mac)

  function Cleared(c: seq<Entry>): seq<Entry> {
    seq(|c|, i requires 0 <= i < |c| => c[i].(valid := false))
  }

  /** The cache after the updates `h`, oldest first, starting from `c`. */
  function AfterAll(c: seq<Entry>, h: seq<Update>): (r: seq<Entry>)
    requires |c| > 0
    ensures |r| == |c|
  {
    if h == [] then c
    else Updated(AfterAll(c, Init(h)), Last(h).ip, Last(h).mac)
  }

  /** The distinct addresses of `h` in the order of their first appearance. */
  function Firsts(h: seq<Update>): seq<uint32> {
    if h == [] then []
    else if Last(h).ip in Firsts(Init(h)) then Firsts(Init(h))
    else Firsts(Init(h)) + [Last(h).ip]
  }

  /** The unbounded map from each address of `h` to the MAC most recently seen for it. */
  function Latest(h: seq<Update>): map<uint32, Mac> {
    if h == [] then map[] else Latest(Init(h))[Last(h).ip := Last(h).mac]
  }

  /** The most recent address of `h` that is not in `settled`. */
  function LastOutside(h: seq<Update>, settled: seq<uint32>): Option<uint32> {
    if h == [] then None
    else if Last(h).ip !in settled then Some(Last(h).ip)
    else LastOutside(Init(h), settled)
  }

  /** The 2nd to 16th of the distinct addresses `f`: they keep slots 1 to 15 for good. */
  function Settled(f: seq<uint32>): seq<uint32> {
    if |f| == 0 then [] else if |f| <= ARP_CACHE_SIZE then f[1..] else f[1..ARP_CACHE_SIZE]
  }

  /** Slot `i` is in use once there are more than `i` distinct addresses; slots 1 to 15 keep the
      address they got first, and every slot has the MAC that `m` has for its address. */
  ghost predicate SlotHolds(e: Entry, i: nat, f: seq<uint32>, m: map<uint32, Mac>) {
    && (e.valid <==> i < |f|)
    && (e.valid && i > 0 ==> e.ip == f[i])
    && (e.valid ==> e.ip in m && m[e.ip] == e.mac)
  }

  /** `slot0` is the address in slot 0. */
  ghost predicate Holds(c: seq<Entry>, f: seq<uint32>, m: map<uint32, Mac>, slot0: Option<uint32>) {
    && |c| == ARP_CACHE_SIZE
    && (forall i :: 0 <= i < ARP_CACHE_SIZE ==> SlotHolds(c[i], i, f, m))
    && slot0 == (if c[0].valid then Some(c[0].ip) else None)
  }

  /** `f` lists the keys of `m` without repetition and `slot0` is a key outside the settled ones. */
  ghost predicate Distinct(f: seq<uint32>, m: map<uint32, Mac>, slot0: Option<uint32>) {
    && (forall i, j :: 0 <= i < j < |f| ==> f[i] != f[j])
    && (forall ip :: ip in f <==> ip in m)
    && (slot0.None? <==> f == [])
    && (slot0.Some? ==> slot0.value in f && slot0.value !in Settled(f))
  }

  ghost predicate Describes(h: seq<Update>, c: seq<Entry>) {
    Holds(c, Firsts(h), Latest(h), LastOutside(h, Settled(Firsts(h))))
  }

  lemma {:induction false} HistoryDistinct(h: seq<Update>)
    ensures Distinct(Firsts(h), Latest(h), LastOutside(h, Settled(Firsts(h))))
  {
    if h != [] {
      var g, ip := Init(h), Last(h).ip;
      HistoryDistinct(g);
      LastOutsideStep(h);
    }
  }

  lemma {:induction false} LastOutsideNew(h: seq<Update>, s: seq<uint32>, ip: uint32)
    requires ip !in Latest(h)
    ensures LastOutside(h, s + [ip]) == LastOutside(h, s)
  {
    if h != [] {
      LastOutsideNew(Init(h), s, ip);
    }
  }

  /** A new address is settled unless it is the first one or comes after the sixteenth. */
  lemma SettledGrows(f: seq<uint32>, ip: uint32)
    ensures Settled(f + [ip]) == if 0 < |f| < ARP_CACHE_SIZE then Settled(f) + [ip] else Settled(f)
  {
  }

  /** How the address outside the settled ones changes with one more update. */
  lemma LastOutsideStep(h: seq<Update>)
    requires h != [] && (Last(h).ip in Latest(Init(h)) ==> Last(h).ip in Firsts(Init(h)))
    ensures LastOutside(h, Settled(Firsts(h)))
         == if Last(h).ip !in Settled(Firsts(h)) then Some(Last(h).ip)
            else LastOutside(Init(h), Settled(Firsts(Init(h))))
  {
    var g, ip := Init(h), Last(h).ip;
    var f := Firsts(g);
    if ip !in f {
      SettledGrows(f, ip);
      LastOutsideNew(g, Settled(f), ip);
    }
  }

  function WithIp(f: seq<uint32>, ip: uint32): seq<uint32> {
    if ip in f then f else f + [ip]
  }

  /** Every cached address sits in one slot; all but slot 0 are settled, and while there is room
      slot 0 holds the very first address. */
  lemma SlotsDistinct(c: seq<Entry>, f: seq<uint32>, m: map<uint32, Mac>, slot0: Option<uint32>)
    requires Holds(c, f, m, slot0) && Distinct(f, m, slot0)
    ensures forall k :: 1 <= k < ARP_CACHE_SIZE && c[k].valid ==> c[k].ip in Settled(f)
    ensures forall j, k :: 0 <= j < k < ARP_CACHE_SIZE && c[j].valid && c[k].valid ==> c[j].ip != c[k].ip
    ensures 0 < |f| <= ARP_CACHE_SIZE ==> c[0].ip == f[0]
  {
    assert forall i :: 0 <= i < ARP_CACHE_SIZE ==> SlotHolds(c[i], i, f, m);
    forall k | 1 <= k < ARP_CACHE_SIZE && c[k].valid ensures c[k].ip in Settled(f) {
      assert Settled(f)[k - 1] == c[k].ip;
    }
    if 0 < |f| <= ARP_CACHE_SIZE {
      assert f == [f[0]] + Settled(f);
    }
  }

  lemma SettledMatches(c: seq<Entry>, f: seq<uint32>, m: map<uint32, Mac>, slot0: Option<uint32>, ip: uint32)
    requires Holds(c, f, m, slot0) && ip in Settled(f)
    ensures IndexOf(c, ip) < |c|
  {
    var k :| 0 <= k < |Settled(f)| && Settled(f)[k] == ip;
    assert SlotHolds(c[k + 1], k + 1, f, m);
    assert Matches(c[k + 1], ip);
  }

  /** An update of a cached address. */
  lemma HitStep(c: seq<Entry>, f: seq<uint32>, m: map<uint32, Mac>, slot0: Option<uint32>, ip: uint32, mac: Mac)
    requires Holds(c, f, m, slot0) && Distinct(f, m, slot0)
    requires IndexOf(c, ip) < |c|
    ensures ip in f
    ensures Holds(Updated(c, ip, mac), f, m[ip := mac], if ip !in Settled(f) then Some(ip) else slot0)
  {
    var i := IndexOf(c, ip);
    SlotsDistinct(c, f, m, slot0);
    assert SlotHolds(c[i], i, f, m);
    forall k | 0 <= k < ARP_CACHE_SIZE ensures SlotHolds(Updated(c, ip, mac)[k], k, f, m[ip := mac]) {
      assert SlotHolds(c[k], k, f, m);
    }
  }

  /** An update of a new address while there is room. */
  lemma FillStep(c: seq<Entry>, f: seq<uint32>, m: map<uint32, Mac>, slot0: Option<uint32>, ip: uint32, mac: Mac)
    requires Holds(c, f, m, slot0) && Distinct(f, m, slot0)
    requires IndexOf(c, ip) == |c| && |f| < ARP_CACHE_SIZE
    ensures ip !in f
    ensures Holds(Updated(c, ip, mac), f + [ip], m[ip := mac],
                  if ip !in Settled(f + [ip]) then Some(ip) else slot0)
  {
    hide FirstFree, IndexOf;
    var n := |f|;
    FillPosition(c, f, m, slot0, ip);
    forall k | 0 <= k < ARP_CACHE_SIZE ensures SlotHolds(Updated(c, ip, mac)[k], k, f + [ip], m[ip := mac]) {
      assert SlotHolds(c[k], k, f, m) && !Matches(c[k], ip);
    }
    assert n > 0 ==> Settled(f + [ip])[n - 1] == ip;
  }

  /** While there is room, a new address goes to the slot that is its turn. */
  lemma FillPosition(c: seq<Entry>, f: seq<uint32>, m: map<uint32, Mac>, slot0: Option<uint32>, ip: uint32)
    requires Holds(c, f, m, slot0) && Distinct(f, m, slot0)
    requires IndexOf(c, ip) == |c| && |f| < ARP_CACHE_SIZE
    ensures ip !in f && FirstFree(c) == |f|
  {
    var n := |f|;
    SlotsDistinct(c, f, m, slot0);
    forall k | 0 <= k < ARP_CACHE_SIZE ensures c[k].valid <==> k < n {
      assert SlotHolds(c[k], k, f, m);
    }
    forall k | 0 <= k < n ensures f[k] != ip {
      assert SlotHolds(c[k], k, f, m) && !Matches(c[k], ip);
    }
    assert !c[n].valid && forall k :: 0 <= k < n ==> c[k].valid;
  }

  /** An update of an uncached address when the cache is full. */
  lemma ReplaceStep(c: seq<Entry>, f: seq<uint32>, m: map<uint32, Mac>, slot0: Option<uint32>, ip: uint32, mac: Mac)
    requires Holds(c, f, m, slot0) && Distinct(f, m, slot0)
    requires IndexOf(c, ip) == |c| && |f| >= ARP_CACHE_SIZE
    ensures ip !in Settled(f) && Settled(WithIp(f, ip)) == Settled(f)
    ensures Holds(Updated(c, ip, mac), WithIp(f, ip), m[ip := mac], Some(ip))
  {
    if ip in Settled(f) {
      SettledMatches(c, f, m, slot0, ip);
    }
    forall k | 0 <= k < ARP_CACHE_SIZE ensures c[k].valid {
      assert SlotHolds(c[k], k, f, m);
    }
    assert FirstFree(c) == |c|;
    forall k | 0 <= k < ARP_CACHE_SIZE
      ensures SlotHolds(Updated(c, ip, mac)[k], k, WithIp(f, ip), m[ip := mac])
    {
      assert SlotHolds(c[k], k, f, m) && !Matches(c[k], ip);
    }
  }

  /** After any sequence of updates since a clear: slots 1 to 15 hold the 2nd to 16th distinct
      addresses in order of first appearance, slot 0 the last address that is none of those, and
      every slot the latest MAC seen for its address. */
  lemma {:induction false} CacheHistory(c: seq<Entry>, h: seq<Update>)
    requires |c| == ARP_CACHE_SIZE && forall i :: 0 <= i < ARP_CACHE_SIZE ==> !c[i].valid
    ensures Describes(h, AfterAll(c, h))
  {
    if h == [] {
    } else {
      var g, ip, mac := Init(h), Last(h).ip, Last(h).mac;
      var f, m, slot0 := Firsts(g), Latest(g), LastOutside(g, Settled(Firsts(g)));
      var b := AfterAll(c, g);
      CacheHistory(c, g);
      HistoryDistinct(g);
      LastOutsideStep(h);
      if IndexOf(b, ip) < |b| {
        HitStep(b, f, m, slot0, ip, mac);
      } else if |f| < ARP_CACHE_SIZE {
        FillStep(b, f, m, slot0, ip, mac);
      } else {
        ReplaceStep(b, f, m, slot0, ip, mac);
      }
    }
  }

  function MapLookup(m: map<uint32, Mac>, ip: uint32): Option<Mac> {
    if ip in m then Some(m[ip]) else None
  }

  /** A hit is never stale, and the addresses that hit are exactly the settled ones and the last
      address outside them. */
  lemma LookupAfterHistory(c: seq<Entry>, h: seq<Update>, ip: uint32)
    requires |c| == ARP_CACHE_SIZE && forall i :: 0 <= i < ARP_CACHE_SIZE ==> !c[i].valid
    ensures var settled := Settled(Firsts(h));
            Lookup(AfterAll(c, h), ip)
            == if ip in settled || LastOutside(h, settled) == Some(ip) then MapLookup(Latest(h), ip) else None
  {
    var r, f, slot0 := AfterAll(c, h), Firsts(h), LastOutside(h, Settled(Firsts(h)));
    CacheHistory(c, h);
    HistoryDistinct(h);
    SlotsDistinct(r, f, Latest(h), slot0);
    assert forall i :: 0 <= i < ARP_CACHE_SIZE ==> SlotHolds(r[i], i, f, Latest(h));
    if ip in Settled(f) {
      SettledMatches(r, f, Latest(h), slot0, ip);
    } else if slot0 == Some(ip) {
      assert Matches(r[0], ip);
    }
  }

  /** With at most sixteen distinct addresses the cache is the unbounded map. */
  lemma CacheIsMap(c: seq<Entry>, h: seq<Update>, ip: uint32)
    requires |c| == ARP_CACHE_SIZE && forall i :: 0 <= i < ARP_CACHE_SIZE ==> !c[i].valid
    requires |Firsts(h)| <= 16
    ensures Lookup(AfterAll(c, h), ip) == MapLookup(Latest(h), ip)
  {
    var f := Firsts(h);
    LookupAfterHistory(c, h, ip);
    CacheHistory(c, h);
    HistoryDistinct(h);
    SlotsDistinct(AfterAll(c, h), f, Latest(h), LastOutside(h, Settled(f)));
    assert f != [] ==> f == [f[0]] + Settled(f);
  }

  /** The seventeenth distinct address takes the slot of the first, which no longer resolves. */
  lemma SeventeenthEvicts(c: seq<Entry>, h: seq<Update>, u: Update)
    requires |c| == ARP_CACHE_SIZE && forall i :: 0 <= i < ARP_CACHE_SIZE ==> !c[i].valid
    requires |Firsts(h)| == 16 && u.ip !in Firsts(h)
    ensures Lookup(AfterAll(c, h + [u]), Firsts(h)[0]) == None
    ensures Lookup(AfterAll(c, h + [u]), u.ip) == Some(u.mac)
    ensures forall k :: 1 <= k < 16 ==>
              Lookup(AfterAll(c, h + [u]), Firsts(h)[k]) == Lookup(AfterAll(c, h), Firsts(h)[k])
  {
    var g := h + [u];
    assert Init(g) == h && Last(g) == u;
    var f := Firsts(h);
    assert Firsts(g) == f + [u.ip] && Settled(f + [u.ip]) == f[1..16] == Settled(f);
    HistoryDistinct(h);
    LookupAfterHistory(c, g, f[0]);
    UpdatedFound(AfterAll(c, h), u.ip, u.mac);
    forall k | 1 <= k < 16 ensures Lookup(AfterAll(c, g), f[k]) == Lookup(AfterAll(c, h), f[k]) {
      assert Settled(f)[k - 1] == f[k];
      LookupAfterHistory(c, g, f[k]);
      LookupAfterHistory(c, h, f[k]);
    }
  }
}

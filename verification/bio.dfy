/** The block buffer cache: NBUF buffers spread over NBUCKETS hash buckets,
    each bucket an ordered list from its most recently released buffer (the
    head) to its tail. A bucket is modelled as the sequence of the indices of
    the buffers it holds, in list order. */
module Bio {
  import opened Outcomes
  import opened Bags

  const NBUF: nat := 30
  const NBUCKETS: nat := 13
  /** `refcnt` is an unsigned 32-bit counter. */
  const U32: nat := 0x1_0000_0000

  datatype Buf = Buf(dev: bv32, blockno: bv32, valid: bool, refcnt: nat)

  datatype Cache = Cache(bufs: seq<Buf>, buckets: seq<seq<nat>>)

  /** The bucket of a block number: an integer mix on 32-bit unsigned values,
      reduced modulo the bucket count. */
  function Hash(x: bv32): (r: nat)
    ensures r < NBUCKETS
  {
    var x1 := ((x >> 16) ^ x) * 0x45d9f3b;
    var x2 := ((x1 >> 16) ^ x1) * 0x45d9f3b;
    var x3 := (x2 >> 16) ^ x2;
    (x3 as int) % NBUCKETS
  }

  /** `refcnt++` and `refcnt--` on the unsigned 32-bit counter. */
  function Inc(n: nat): (r: nat)
    requires n < U32
    ensures r < U32 && r == (n + 1) % U32
  {
    if n == U32 - 1 then 0 else n + 1
  }

  function Dec(n: nat): (r: nat)
    requires n < U32
    ensures r < U32 && r == (n - 1) % U32
  {
    if n == 0 then U32 - 1 else n - 1
  }

  /** The right number of buffers and buckets, and every bucket entry names a buffer. */
  predicate Shaped(c: Cache)
  {
    && |c.bufs| == NBUF
    && |c.buckets| == NBUCKETS
    && (forall i :: 0 <= i < NBUF ==> c.bufs[i].refcnt < U32)
    && (forall j, k :: 0 <= j < NBUCKETS && 0 <= k < |c.buckets[j]| ==> c.buckets[j][k] < NBUF)
  }

  /** Every buffer lies in exactly one bucket, exactly once. */
  ghost predicate Partitioned(c: Cache)
  {
    Shaped(c) && Counts(Union(c.buckets), NBUF)
  }

  /** The multiset holding 0, 1, ..., n - 1 once each. */
  ghost predicate Counts(m: multiset<nat>, n: nat)
  {
    forall x: nat :: m[x] == if x < n then 1 else 0
  }

  /** A buffer lying in bucket j and in no other bucket, once. */
  lemma PartitionedAlone(c: Cache, b: nat, j: nat)
    requires Partitioned(c) && j < NBUCKETS && b in c.buckets[j]
    ensures forall q :: 0 <= q < NBUCKETS && q != j ==> b !in c.buckets[q]
    ensures multiset(c.buckets[j])[b] == 1
  {
    assert b < NBUF;
    forall q | 0 <= q < NBUCKETS && q != j
      ensures b !in c.buckets[q]
    {
      NoDupSeparates(c.buckets, j, q, b);
    }
    OneInUnion(c.buckets, j);
  }

  /** A buffer that holds a block for someone: referenced or holding valid data. */
  predicate InUse(u: Buf) { u.valid || u.refcnt != 0 }

  /** Every buffer in use sits in the bucket of its block number. */
  predicate Homed(c: Cache)
    requires Shaped(c)
  {
    forall j, x :: 0 <= j < NBUCKETS && x in c.buckets[j] && x < |c.bufs| && InUse(c.bufs[x]) ==> Hash(c.bufs[x].blockno) == j
  }

  // ---------------------------------------------------------------- binit

  /** Buffers 0 .. b - 1 dealt round robin, each pushed on the front of its bucket. */
  ghost predicate DealtSoFar(buckets: seq<seq<nat>>, b: nat)
  {
    |buckets| == NBUCKETS && DealtMembers(buckets, b) && Descending(buckets) && Counts(Union(buckets), b)
  }

  /** Bucket j holds the buffers below b that are j modulo NBUCKETS. */
  ghost predicate DealtMembers(buckets: seq<seq<nat>>, b: nat)
    requires |buckets| == NBUCKETS
  {
    forall j, x: nat :: 0 <= j < NBUCKETS ==> (x in buckets[j] <==> x < b && x % NBUCKETS == j)
  }

  /** Each bucket falls by NBUCKETS from one entry to the next. */
  predicate Descending(buckets: seq<seq<nat>>)
  {
    forall j, k :: 0 <= j < |buckets| && 0 <= k < |buckets[j]| - 1 ==> buckets[j][k] == buckets[j][k + 1] + NBUCKETS
  }

  lemma DealStep(buckets: seq<seq<nat>>, b: nat)
    requires DealtSoFar(buckets, b)
    ensures DealtSoFar(buckets[b % NBUCKETS := [b] + buckets[b % NBUCKETS]], b + 1)
  {
    var i := b % NBUCKETS;
    var next := buckets[i := [b] + buckets[i]];
    DealCounts(buckets, b);
    DealMembers(buckets, b);
    DealOrder(buckets, b);
    assert Descending(next);
  }

  lemma DealCounts(buckets: seq<seq<nat>>, b: nat)
    requires |buckets| == NBUCKETS && Counts(Union(buckets), b)
    ensures Counts(Union(buckets[b % NBUCKETS := [b] + buckets[b % NBUCKETS]]), b + 1)
  {
    var i := b % NBUCKETS;
    var next := buckets[i := [b] + buckets[i]];
    UnionPush(buckets, i, b);
    forall x: nat
      ensures Union(next)[x] == if x < b + 1 then 1 else 0
    {
      assert Union(next)[x] == Union(buckets)[x] + multiset{b}[x];
    }
  }

  lemma DealMembers(buckets: seq<seq<nat>>, b: nat)
    requires |buckets| == NBUCKETS && DealtMembers(buckets, b)
    ensures DealtMembers(buckets[b % NBUCKETS := [b] + buckets[b % NBUCKETS]], b + 1)
  {
    var i := b % NBUCKETS;
    var next := buckets[i := [b] + buckets[i]];
    forall j, x: nat | 0 <= j < NBUCKETS
      ensures x in next[j] <==> x < b + 1 && x % NBUCKETS == j
    {
      if j == i {
        assert x in next[j] <==> x == b || x in buckets[j];
      }
    }
  }

  lemma NoneDealt(buckets: seq<seq<nat>>)
    requires |buckets| == NBUCKETS && forall j :: 0 <= j < NBUCKETS ==> buckets[j] == []
    ensures DealtSoFar(buckets, 0)
  {
    UnionOfEmpties(buckets);
    forall j, x: nat | 0 <= j < NBUCKETS
      ensures x !in buckets[j]
    {
      assert buckets[j] == [];
    }
    assert forall x: nat :: Union(buckets)[x] == 0;
  }

  lemma DealOrder(buckets: seq<seq<nat>>, b: nat)
    requires DealtSoFar(buckets, b)
    ensures var s := [b] + buckets[b % NBUCKETS];
      forall k :: 0 <= k < |s| - 1 ==> s[k] == s[k + 1] + NBUCKETS
  {
    var i := b % NBUCKETS;
    var l := buckets[i];
    if |l| > 0 {
      assert b - NBUCKETS >= 0 by {
        assert l[0] in l;
      }
      var p: nat := b - NBUCKETS;
      assert p % NBUCKETS == i;
      assert p in l;
      var k0 :| 0 <= k0 < |l| && l[k0] == p;
      AtMostHead(l, k0);
      assert l[0] == p by {
        assert l[0] in l;
      }
    }
  }

  /** In a list that falls by NBUCKETS at every step, the head is the largest entry. */
  lemma {:induction false} AtMostHead(s: seq<nat>, k: nat)
    requires k < |s|
    requires forall m :: 0 <= m < |s| - 1 ==> s[m] == s[m + 1] + NBUCKETS
    ensures s[k] <= s[0]
  {
    if k > 0 {
      AtMostHead(s, k - 1);
    }
  }

  /** The initial cache: every buffer zeroed and unreferenced, buffer i in bucket
      i mod NBUCKETS, each bucket listing its buffers from the highest index down. */
  method Binit() returns (c: Cache)
    ensures Partitioned(c) && Homed(c)
    ensures forall i :: 0 <= i < NBUF ==> c.bufs[i] == Buf(0, 0, false, 0)
    ensures forall j, x: nat :: 0 <= j < NBUCKETS ==> (x in c.buckets[j] <==> x < NBUF && x % NBUCKETS == j)
    ensures forall j, k :: 0 <= j < NBUCKETS && 0 <= k < |c.buckets[j]| - 1 ==> c.buckets[j][k] == c.buckets[j][k + 1] + NBUCKETS
  {
    var buckets := Deal();
    c := Cache(seq(NBUF, _ => Buf(0, 0, false, 0)), buckets);
    AllDealt(c);
  }

  /** binit's round robin: buffer b goes on the front of bucket b mod NBUCKETS. */
  method Deal() returns (buckets: seq<seq<nat>>)
    ensures DealtSoFar(buckets, NBUF)
  {
    buckets := seq(NBUCKETS, _ => []);
    NoneDealt(buckets);
    var i := 0;
    var b := 0;
    while b < NBUF
      invariant b <= NBUF && i == b % NBUCKETS
      invariant DealtSoFar(buckets, b)
    {
      DealStep(buckets, b);
      buckets := buckets[i := [b] + buckets[i]];
      NextBucket(b, i);
      i := i + 1;
      if i == NBUCKETS {
        i := 0;
      }
      b := b + 1;
    }
  }

  /** The round robin's bucket counter, wrapped at NBUCKETS, tracks b mod NBUCKETS. */
  lemma NextBucket(b: nat, i: nat)
    requires i == b % NBUCKETS
    ensures (if i + 1 == NBUCKETS then 0 else i + 1) == (b + 1) % NBUCKETS
  {
  }

  lemma AllDealt(c: Cache)
    requires DealtSoFar(c.buckets, NBUF) && |c.bufs| == NBUF
    requires forall i :: 0 <= i < NBUF ==> c.bufs[i] == Buf(0, 0, false, 0)
    ensures Partitioned(c) && Homed(c)
  {
    assert forall j, k :: 0 <= j < NBUCKETS && 0 <= k < |c.buckets[j]| ==> c.buckets[j][k] in c.buckets[j];
  }

  // ---------------------------------------------------------------- bget

  predicate Holds(u: Buf, dev: bv32, blockno: bv32) { u.dev == dev && u.blockno == blockno }

  /** The position of the first buffer of list l holding (dev, blockno), or -1. */
  function FirstMatch(bufs: seq<Buf>, l: seq<nat>, dev: bv32, blockno: bv32): (k: int)
    requires forall m :: 0 <= m < |l| ==> l[m] < |bufs|
    ensures -1 <= k < |l|
    ensures k == -1 <==> forall m :: 0 <= m < |l| ==> !Holds(bufs[l[m]], dev, blockno)
    ensures k >= 0 ==> Holds(bufs[l[k]], dev, blockno) && forall m :: 0 <= m < k ==> !Holds(bufs[l[m]], dev, blockno)
  {
    if |l| == 0 then -1
    else if Holds(bufs[l[0]], dev, blockno) then 0
    else
      var k := FirstMatch(bufs, l[1..], dev, blockno);
      if k == -1 then -1 else k + 1
  }

  /** The first entry of bucket j is an unreferenced buffer. */
  predicate Recyclable(c: Cache, j: nat)
    requires Shaped(c) && j < NBUCKETS
  {
    |c.buckets[j]| > 0 && c.bufs[c.buckets[j][0]].refcnt == 0
  }

  /** The bucket visited at step i of a cyclic scan starting at bucket h. */
  function Cyclic(h: nat, i: nat): (j: nat)
    requires h < NBUCKETS && i < NBUCKETS
    ensures j < NBUCKETS && j == (h + i) % NBUCKETS
  {
    if h + i < NBUCKETS then h + i else h + i - NBUCKETS
  }

  /** Step i of the cyclic scan from bucket h lands on a recyclable bucket. */
  predicate RecyclableAt(c: Cache, h: nat, i: nat)
    requires Shaped(c) && h < NBUCKETS && i < NBUCKETS
  {
    Recyclable(c, Cyclic(h, i))
  }

  /** The first step i' >= i of the cyclic scan from bucket h whose bucket is recyclable, or -1. */
  function FirstRecyclable(c: Cache, h: nat, i: nat): (r: int)
    requires Shaped(c) && h < NBUCKETS && i <= NBUCKETS
    ensures r == -1 || i <= r < NBUCKETS
    ensures r == -1 <==> forall m :: i <= m < NBUCKETS ==> !RecyclableAt(c, h, m)
    ensures r >= 0 ==> RecyclableAt(c, h, r) && forall m :: i <= m < r ==> !RecyclableAt(c, h, m)
    decreases NBUCKETS - i
  {
    if i == NBUCKETS then -1
    else if RecyclableAt(c, h, i) then i
    else FirstRecyclable(c, h, i + 1)
  }

  /** No buffer of bucket h holds (dev, blockno). */
  predicate Miss(c: Cache, h: nat, dev: bv32, blockno: bv32)
    requires Shaped(c) && h < NBUCKETS
  {
    FirstMatch(c.bufs, c.buckets[h], dev, blockno) == -1
  }

  /** No bucket has an unreferenced head. */
  predicate NoneRecyclable(c: Cache, h: nat)
    requires Shaped(c) && h < NBUCKETS
  {
    forall i :: 0 <= i < NBUCKETS ==> !RecyclableAt(c, h, i)
  }

  /** Takes entry k of bucket j out of its list, appends it to the tail of
      bucket h and gives it to (dev, blockno), not yet valid, referenced once. */
  function Move(c: Cache, j: nat, k: nat, h: nat, dev: bv32, blockno: bv32): (r: Cache)
    requires Shaped(c) && j < NBUCKETS && h < NBUCKETS && k < |c.buckets[j]|
    ensures Shaped(r)
    ensures r.bufs == c.bufs[c.buckets[j][k] := Buf(dev, blockno, false, 1)]
    ensures |r.buckets[h]| > 0 && r.buckets[h][|r.buckets[h]| - 1] == c.buckets[j][k]
  {
    var b := c.buckets[j][k];
    var bk := c.buckets[j := c.buckets[j][..k] + c.buckets[j][k + 1..]];
    assert forall x :: x in bk[j] ==> x in c.buckets[j];
    Cache(c.bufs[b := Buf(dev, blockno, false, 1)], bk[h := bk[h] + [b]])
  }

  /** Where Move leaves each list: the moved entry cut out of bucket j and
      appended to bucket h, every other bucket untouched. */
  lemma MoveBuckets(c: Cache, j: nat, k: nat, h: nat, dev: bv32, blockno: bv32)
    requires Shaped(c) && j < NBUCKETS && h < NBUCKETS && k < |c.buckets[j]|
    ensures var r := Move(c, j, k, h, dev, blockno);
      && r.buckets[h] == (if j == h then c.buckets[h][..k] + c.buckets[h][k + 1..] else c.buckets[h]) + [c.buckets[j][k]]
      && (j != h ==> r.buckets[j] == c.buckets[j][..k] + c.buckets[j][k + 1..])
      && forall q :: 0 <= q < NBUCKETS && q != j && q != h ==> r.buckets[q] == c.buckets[q]
  {
  }

  /** Moving a buffer between buckets neither loses nor duplicates one. */
  lemma MoveConserves(c: Cache, j: nat, k: nat, h: nat, dev: bv32, blockno: bv32)
    requires Shaped(c) && j < NBUCKETS && h < NBUCKETS && k < |c.buckets[j]|
    ensures Union(Move(c, j, k, h, dev, blockno).buckets) == Union(c.buckets)
  {
    var b := c.buckets[j][k];
    var bk := c.buckets[j := c.buckets[j][..k] + c.buckets[j][k + 1..]];
    UnionDropAt(c.buckets, j, k);
    UnionAppend(bk, h, b);
    assert Move(c, j, k, h, dev, blockno).buckets == bk[h := bk[h] + [b]];
  }

  /** Moving a buffer to the bucket of its new block keeps every buffer in use at home. */
  lemma MoveKeepsHomed(c: Cache, j: nat, k: nat, dev: bv32, blockno: bv32)
    requires Partitioned(c) && Homed(c) && j < NBUCKETS && k < |c.buckets[j]|
    ensures Partitioned(Move(c, j, k, Hash(blockno), dev, blockno))
    ensures Homed(Move(c, j, k, Hash(blockno), dev, blockno))
  {
    var h := Hash(blockno);
    var r := Move(c, j, k, h, dev, blockno);
    var b := c.buckets[j][k];
    MoveConserves(c, j, k, h, dev, blockno);
    PartitionedAlone(c, b, j);
    var s := c.buckets[j];
    assert s == s[..k] + [b] + s[k + 1..];
    assert multiset(s[..k] + s[k + 1..])[b] == 0;
    forall q, x | 0 <= q < NBUCKETS && x in r.buckets[q] && x < |r.bufs| && InUse(r.bufs[x])
      ensures Hash(r.bufs[x].blockno) == q
    {
      if x != b {
        assert x in c.buckets[q];
      }
    }
  }

  /** What a successful lookup hands back: the index of a buffer that now
      holds the block, carries one more reference, and is listed in bucket h. */
  predicate Serves(c: Cache, h: nat, dev: bv32, blockno: bv32, res: (nat, Cache))
    requires Shaped(c) && h < NBUCKETS
  {
    var (b, c') := res;
    Shaped(c') && b < NBUF && Holds(c'.bufs[b], dev, blockno) && c'.bufs[b].refcnt == Inc(c.bufs[b].refcnt)
    && b in c'.buckets[h]
  }

  /** res recycles some unreferenced buffer, listed anywhere, into bucket h. */
  predicate RecyclesFree(c: Cache, h: nat, dev: bv32, blockno: bv32, res: (nat, Cache))
    requires Shaped(c) && h < NBUCKETS
  {
    exists j, k :: 0 <= j < NBUCKETS && 0 <= k < |c.buckets[j]| && c.bufs[c.buckets[j][k]].refcnt == 0
      && res == (c.buckets[j][k], Move(c, j, k, h, dev, blockno))
  }

  /** Looks up (dev, blockno) in its home bucket h; on a miss recycles the
      head of the first bucket, scanning cyclically from h, whose head is
      unreferenced. Returns the buffer's index. */
  function Lookup(c: Cache, h: nat, dev: bv32, blockno: bv32): (r: Outcome<(nat, Cache)>)
    requires Shaped(c) && h < NBUCKETS
    ensures r.Panic? <==> Miss(c, h, dev, blockno) && NoneRecyclable(c, h)
    ensures r.Done? ==> Serves(c, h, dev, blockno, r.value)
    ensures var k := FirstMatch(c.bufs, c.buckets[h], dev, blockno);
      k >= 0 ==> var b := c.buckets[h][k];
        r == Done((b, Cache(c.bufs[b := c.bufs[b].(refcnt := Inc(c.bufs[b].refcnt))], c.buckets)))
    ensures Miss(c, h, dev, blockno) && r.Done? ==> var i := FirstRecyclable(c, h, 0);
      0 <= i < NBUCKETS && Recyclable(c, Cyclic(h, i))
      && r == Done((c.buckets[Cyclic(h, i)][0], Move(c, Cyclic(h, i), 0, h, dev, blockno)))
  {
    var k := FirstMatch(c.bufs, c.buckets[h], dev, blockno);
    if k >= 0 then
      var b := c.buckets[h][k];
      assert b in c.buckets[h];
      Done((b, Cache(c.bufs[b := c.bufs[b].(refcnt := Inc(c.bufs[b].refcnt))], c.buckets)))
    else RecycleHead(c, h, dev, blockno)
  }

  /** bget's miss path as written: recycle the head of the first bucket,
      scanning cyclically from h, whose head is unreferenced; panic when
      there is none. */
  function RecycleHead(c: Cache, h: nat, dev: bv32, blockno: bv32): (r: Outcome<(nat, Cache)>)
    requires Shaped(c) && h < NBUCKETS
    ensures r.Panic? <==> NoneRecyclable(c, h)
    ensures r.Done? ==> Serves(c, h, dev, blockno, r.value)
    ensures r.Done? ==> var i := FirstRecyclable(c, h, 0);
      0 <= i < NBUCKETS && Recyclable(c, Cyclic(h, i))
      && r.value == (c.buckets[Cyclic(h, i)][0], Move(c, Cyclic(h, i), 0, h, dev, blockno))
  {
    var i := FirstRecyclable(c, h, 0);
    if i == -1 then Panic("bget: no buffers")
    else
      var j := Cyclic(h, i);
      MoveServes(c, j, 0, h, dev, blockno);
      Done((c.buckets[j][0], Move(c, j, 0, h, dev, blockno)))
  }

  /** A recycled unreferenced buffer serves the block it is given. */
  lemma MoveServes(c: Cache, j: nat, k: nat, h: nat, dev: bv32, blockno: bv32)
    requires Shaped(c) && j < NBUCKETS && h < NBUCKETS && k < |c.buckets[j]|
    requires c.bufs[c.buckets[j][k]].refcnt == 0
    ensures Serves(c, h, dev, blockno, (c.buckets[j][k], Move(c, j, k, h, dev, blockno)))
  {
    var r := Move(c, j, k, h, dev, blockno);
    assert r.buckets[h][|r.buckets[h]| - 1] in r.buckets[h];
  }

  /** bget: the lookup in the bucket of the block number. */
  function BGet(c: Cache, dev: bv32, blockno: bv32): Outcome<(nat, Cache)>
    requires Shaped(c)
  {
    Lookup(c, Hash(blockno), dev, blockno)
  }

  /** The position of the first unreferenced buffer of list l, or -1. */
  function FirstFree(bufs: seq<Buf>, l: seq<nat>): (k: int)
    requires forall m :: 0 <= m < |l| ==> l[m] < |bufs|
    ensures -1 <= k < |l|
    ensures k == -1 <==> forall m :: 0 <= m < |l| ==> bufs[l[m]].refcnt != 0
    ensures k >= 0 ==> bufs[l[k]].refcnt == 0
  {
    if |l| == 0 then -1
    else if bufs[l[0]].refcnt == 0 then 0
    else
      var k := FirstFree(bufs, l[1..]);
      if k == -1 then -1 else k + 1
  }

  /** Step i of the cyclic scan from bucket h lands on a bucket holding an unreferenced buffer. */
  predicate FreeAt(c: Cache, h: nat, i: nat)
    requires Shaped(c) && h < NBUCKETS && i < NBUCKETS
  {
    FirstFree(c.bufs, c.buckets[Cyclic(h, i)]) >= 0
  }

  /** The first step i' >= i of the cyclic scan from bucket h whose bucket holds an unreferenced buffer, or -1. */
  function FirstWithFree(c: Cache, h: nat, i: nat): (r: int)
    requires Shaped(c) && h < NBUCKETS && i <= NBUCKETS
    ensures r == -1 || i <= r < NBUCKETS
    ensures r == -1 <==> forall m :: i <= m < NBUCKETS ==> !FreeAt(c, h, m)
    ensures r >= 0 ==> FreeAt(c, h, r)
    decreases NBUCKETS - i
  {
    if i == NBUCKETS then -1
    else if FreeAt(c, h, i) then i
    else FirstWithFree(c, h, i + 1)
  }

  /** Every buffer listed in some bucket is referenced. */
  predicate AllBusy(c: Cache)
    requires Shaped(c)
  {
    forall j, k :: 0 <= j < NBUCKETS && 0 <= k < |c.buckets[j]| ==> c.bufs[c.buckets[j][k]].refcnt != 0
  }

  /** The lookup with the recycling scan completed: when no bucket head is
      unreferenced, the first unreferenced buffer of the first bucket (in
      the same cyclic order) that has one is recycled instead. It agrees with
      Lookup whenever Lookup does not panic, and panics only when every
      buffer is referenced. */
  function LookupFixed(c: Cache, h: nat, dev: bv32, blockno: bv32): (r: Outcome<(nat, Cache)>)
    requires Shaped(c) && h < NBUCKETS
    ensures r.Panic? <==> Miss(c, h, dev, blockno) && AllBusy(c)
    ensures Lookup(c, h, dev, blockno).Done? ==> r == Lookup(c, h, dev, blockno)
    ensures r.Done? ==> Serves(c, h, dev, blockno, r.value)
    ensures Miss(c, h, dev, blockno) && r.Done? ==> RecyclesFree(c, h, dev, blockno, r.value)
  {
    var first := Lookup(c, h, dev, blockno);
    if first.Done? then
      if Miss(c, h, dev, blockno) then
        HeadRecyclesFree(c, h, dev, blockno);
        first
      else first
    else RecycleAny(c, h, dev, blockno)
  }

  /** Where the as-written lookup recycles a head, that head is an
      unreferenced buffer. */
  lemma HeadRecyclesFree(c: Cache, h: nat, dev: bv32, blockno: bv32)
    requires Shaped(c) && h < NBUCKETS
    requires Miss(c, h, dev, blockno) && Lookup(c, h, dev, blockno).Done?
    ensures !AllBusy(c) && RecyclesFree(c, h, dev, blockno, Lookup(c, h, dev, blockno).value)
  {
    var j := Cyclic(h, FirstRecyclable(c, h, 0));
    assert c.bufs[c.buckets[j][0]].refcnt == 0;
  }

  /** The completed miss path: recycle the first unreferenced buffer of the
      first bucket, in cyclic order from h, that has one; panic only when
      every buffer is referenced. */
  function RecycleAny(c: Cache, h: nat, dev: bv32, blockno: bv32): (r: Outcome<(nat, Cache)>)
    requires Shaped(c) && h < NBUCKETS
    ensures r.Panic? <==> AllBusy(c)
    ensures r.Done? ==> Serves(c, h, dev, blockno, r.value) && RecyclesFree(c, h, dev, blockno, r.value)
  {
    var i := FirstWithFree(c, h, 0);
    if i == -1 then
      NoneFreeAllBusy(c, h);
      Panic("bget: no buffers")
    else
      var j := Cyclic(h, i);
      var k := FirstFree(c.bufs, c.buckets[j]);
      MoveServes(c, j, k, h, dev, blockno);
      Done((c.buckets[j][k], Move(c, j, k, h, dev, blockno)))
  }

  /** A cyclic scan that finds no unreferenced buffer has seen every bucket. */
  lemma NoneFreeAllBusy(c: Cache, h: nat)
    requires Shaped(c) && h < NBUCKETS && FirstWithFree(c, h, 0) == -1
    ensures AllBusy(c)
  {
    forall j, k | 0 <= j < NBUCKETS && 0 <= k < |c.buckets[j]|
      ensures c.bufs[c.buckets[j][k]].refcnt != 0
    {
      var i' := if h <= j then j - h else j + NBUCKETS - h;
      assert Cyclic(h, i') == j && !FreeAt(c, h, i');
    }
  }

  /** bget with the completed recycling scan. */
  function BGetFixed(c: Cache, dev: bv32, blockno: bv32): Outcome<(nat, Cache)>
    requires Shaped(c)
  {
    LookupFixed(c, Hash(blockno), dev, blockno)
  }

  // ---------------------------------------------------------------- bread

  /** bread: the buffer of (dev, blockno), read from disk first unless it
      already holds valid data. The flag says whether the disk was read. */
  function BRead(c: Cache, dev: bv32, blockno: bv32): (r: Outcome<(nat, Cache, bool)>)
    requires Shaped(c)
    ensures r.Panic? <==> BGetFixed(c, dev, blockno).Panic?
    ensures r.Done? ==> var (b, c', read) := r.value;
      var (b0, c0) := BGetFixed(c, dev, blockno).value;
      && b == b0 && Shaped(c') && c'.buckets == c0.buckets
      && c'.bufs == c0.bufs[b := c0.bufs[b].(valid := true)]
      && (read <==> !c0.bufs[b].valid)
  {
    match BGetFixed(c, dev, blockno)
    case Panic(m) => Panic(m)
    case Done((b, c0)) =>
      if c0.bufs[b].valid then Done((b, c0, false))
      else Done((b, c0.(bufs := c0.bufs[b := c0.bufs[b].(valid := true)]), true))
  }

  // ---------------------------------------------------- brelse, bpin, bunpin

  /** bunpin: drops one reference; the last one moves the buffer, from
      wherever it is, to the head of the bucket of its block number. */
  function BUnpin(c: Cache, b: nat): (r: Cache)
    requires Shaped(c) && b < NBUF
    ensures Shaped(r)
    ensures r.bufs == c.bufs[b := c.bufs[b].(refcnt := Dec(c.bufs[b].refcnt))]
    ensures Dec(c.bufs[b].refcnt) != 0 ==> r.buckets == c.buckets
  {
    var n := Dec(c.bufs[b].refcnt);
    var bufs := c.bufs[b := c.bufs[b].(refcnt := n)];
    if n != 0 then Cache(bufs, c.buckets)
    else
      var h := Hash(c.bufs[b].blockno);
      var bk := RemoveAll(c.buckets, b);
      RemovedShaped(c, b, bk);
      Cache(bufs, bk[h := [b] + bk[h]])
  }

  /** Entries removed from lists that name buffers still name buffers. */
  lemma RemovedShaped(c: Cache, b: nat, bk: seq<seq<nat>>)
    requires Shaped(c) && bk == RemoveAll(c.buckets, b)
    ensures |bk| == NBUCKETS
    ensures forall j, k :: 0 <= j < NBUCKETS && 0 <= k < |bk[j]| ==> bk[j][k] < NBUF
  {
    forall j, k | 0 <= j < NBUCKETS && 0 <= k < |bk[j]|
      ensures bk[j][k] < NBUF
    {
      var x := bk[j][k];
      assert bk[j] == Remove(c.buckets[j], b);
      assert multiset(bk[j])[x] > 0;
      assert x in c.buckets[j];
    }
  }

  /** Where the last release leaves the lists: the buffer first in the bucket
      of its block number and nowhere else, every other entry in its old
      place and order. */
  lemma BUnpinBuckets(c: Cache, b: nat)
    requires Shaped(c) && b < NBUF && Dec(c.bufs[b].refcnt) == 0
    ensures var r := BUnpin(c, b); var h := Hash(c.bufs[b].blockno);
      && r.buckets[h] == [b] + Remove(c.buckets[h], b)
      && forall q :: 0 <= q < NBUCKETS && q != h ==> r.buckets[q] == Remove(c.buckets[q], b)
  {
  }

  /** brelse: a release by a caller that must hold the buffer's lock. */
  function BRelse(c: Cache, b: nat, holding: bool): (r: Outcome<Cache>)
    requires Shaped(c) && b < NBUF
    ensures r.Panic? <==> !holding
    ensures r.Done? ==> r.value == BUnpin(c, b)
  {
    if !holding then Panic("brelse") else Done(BUnpin(c, b))
  }

  /** bpin: one more reference, nothing else changes. */
  function BPin(c: Cache, b: nat): (r: Cache)
    requires Shaped(c) && b < NBUF
    ensures Shaped(r) && r.buckets == c.buckets
    ensures r.bufs[b] == c.bufs[b].(refcnt := Inc(c.bufs[b].refcnt))
    ensures forall x :: 0 <= x < NBUF && x != b ==> r.bufs[x] == c.bufs[x]
  {
    Cache(c.bufs[b := c.bufs[b].(refcnt := Inc(c.bufs[b].refcnt))], c.buckets)
  }

  /** Pinning a referenced buffer and unpinning it again restores the cache. */
  lemma PinThenUnpin(c: Cache, b: nat)
    requires Shaped(c) && b < NBUF && 0 < c.bufs[b].refcnt < U32 - 1
    ensures BUnpin(BPin(c, b), b) == c
  {
    var p := BPin(c, b);
    assert Dec(p.bufs[b].refcnt) == c.bufs[b].refcnt;
    assert BUnpin(p, b).bufs == c.bufs;
  }

  /** Unpinning a buffer that stays referenced and pinning it again restores the cache. */
  lemma UnpinThenPin(c: Cache, b: nat)
    requires Shaped(c) && b < NBUF && 1 < c.bufs[b].refcnt < U32
    ensures BPin(BUnpin(c, b), b) == c
  {
    var u := BUnpin(c, b);
    assert Inc(u.bufs[b].refcnt) == c.bufs[b].refcnt;
    assert BPin(u, b).bufs == c.bufs;
  }

  // ------------------------------------------------------------ invariants

  /** A hit only bumps the count of a buffer already at home. */
  lemma HitKeepsHomed(c: Cache, dev: bv32, blockno: bv32)
    requires Partitioned(c) && Homed(c) && !Miss(c, Hash(blockno), dev, blockno)
    ensures var c' := LookupFixed(c, Hash(blockno), dev, blockno).value.1;
      Partitioned(c') && Homed(c')
  {
    var h := Hash(blockno);
    var k := FirstMatch(c.bufs, c.buckets[h], dev, blockno);
    var b := c.buckets[h][k];
    var c' := LookupFixed(c, h, dev, blockno).value.1;
    assert c' == Cache(c.bufs[b := c.bufs[b].(refcnt := Inc(c.bufs[b].refcnt))], c.buckets);
    assert b in c.buckets[h];
    PartitionedAlone(c, b, h);
    forall q, x | 0 <= q < NBUCKETS && x in c'.buckets[q] && x < |c'.bufs| && InUse(c'.bufs[x])
      ensures Hash(c'.bufs[x].blockno) == q
    {
      if x != b {
        assert c'.bufs[x] == c.bufs[x];
      }
    }
  }

  /** bget, with the completed scan, keeps every buffer in exactly one bucket
      and every buffer in use in the bucket of its block number. */
  lemma BGetFixedKeeps(c: Cache, dev: bv32, blockno: bv32)
    requires Partitioned(c) && Homed(c)
    ensures var r := BGetFixed(c, dev, blockno);
      r.Done? ==> Partitioned(r.value.1) && Homed(r.value.1)
  {
    var h := Hash(blockno);
    var r := LookupFixed(c, h, dev, blockno);
    if r.Done? {
      if !Miss(c, h, dev, blockno) {
        HitKeepsHomed(c, dev, blockno);
      } else {
        var j, k :| 0 <= j < NBUCKETS && 0 <= k < |c.buckets[j]| && c.bufs[c.buckets[j][k]].refcnt == 0
          && r == Done((c.buckets[j][k], Move(c, j, k, h, dev, blockno)));
        MoveKeepsHomed(c, j, k, dev, blockno);
      }
    }
  }

  /** The same holds for bget as written whenever it does not panic. */
  lemma BGetKeeps(c: Cache, dev: bv32, blockno: bv32)
    requires Partitioned(c) && Homed(c)
    ensures var r := BGet(c, dev, blockno);
      r.Done? ==> Partitioned(r.value.1) && Homed(r.value.1)
  {
    BGetFixedKeeps(c, dev, blockno);
  }

  lemma BReadKeeps(c: Cache, dev: bv32, blockno: bv32)
    requires Partitioned(c) && Homed(c)
    ensures var r := BRead(c, dev, blockno);
      r.Done? ==> Partitioned(r.value.1) && Homed(r.value.1)
  {
    var r := BRead(c, dev, blockno);
    if r.Done? {
      BGetFixedKeeps(c, dev, blockno);
      var (b0, c0) := BGetFixed(c, dev, blockno).value;
      var c' := r.value.1;
      forall q, x | 0 <= q < NBUCKETS && x in c'.buckets[q] && x < |c'.bufs| && InUse(c'.bufs[x])
        ensures Hash(c'.bufs[x].blockno) == q
      {
        if x == b0 {
          assert b0 in c0.buckets[Hash(blockno)];
          PartitionedAlone(c0, b0, Hash(blockno));
        } else {
          assert c'.bufs[x] == c0.bufs[x];
        }
      }
    }
  }

  /** The last release moves a buffer into its own bucket, taking it out of every other. */
  lemma LastUnpinKeeps(c: Cache, b: nat)
    requires Partitioned(c) && Homed(c) && b < NBUF && Dec(c.bufs[b].refcnt) == 0
    ensures Partitioned(BUnpin(c, b)) && Homed(BUnpin(c, b))
  {
    LastUnpinCounts(c, b);
    var r := BUnpin(c, b);
    var h := Hash(c.bufs[b].blockno);
    BUnpinBuckets(c, b);
    forall q, x | 0 <= q < NBUCKETS && x in r.buckets[q] && x < |r.bufs| && InUse(r.bufs[x])
      ensures Hash(r.bufs[x].blockno) == q
    {
      if x != b {
        assert multiset(r.buckets[q])[x] > 0;
        assert x in c.buckets[q];
      }
    }
  }

  lemma LastUnpinCounts(c: Cache, b: nat)
    requires Partitioned(c) && b < NBUF && Dec(c.bufs[b].refcnt) == 0
    ensures Counts(Union(BUnpin(c, b).buckets), NBUF)
  {
    var r := BUnpin(c, b);
    var h := Hash(c.bufs[b].blockno);
    var bk := RemoveAll(c.buckets, b);
    UnionRemoveAll(c.buckets, b);
    UnionPush(bk, h, b);
    assert r.buckets == bk[h := [b] + bk[h]];
    forall x: nat
      ensures Union(r.buckets)[x] == if x < NBUF then 1 else 0
    {
      if x == b {
        assert Union(r.buckets)[x] == Union(bk)[x] + 1;
      } else {
        assert Union(r.buckets)[x] == Union(bk)[x];
      }
    }
  }

  /** Releasing a held buffer keeps every buffer in exactly one bucket and
      every buffer in use in the bucket of its block number. */
  lemma BUnpinKeeps(c: Cache, b: nat)
    requires Partitioned(c) && Homed(c) && b < NBUF && c.bufs[b].refcnt != 0
    ensures Partitioned(BUnpin(c, b)) && Homed(BUnpin(c, b))
  {
    if Dec(c.bufs[b].refcnt) == 0 {
      LastUnpinKeeps(c, b);
    } else {
      var r := BUnpin(c, b);
      forall q, x | 0 <= q < NBUCKETS && x in r.buckets[q] && x < |r.bufs| && InUse(r.bufs[x])
        ensures Hash(r.bufs[x].blockno) == q
      {
        assert InUse(c.bufs[x]);
      }
    }
  }

  /** Pinning a buffer that is in use changes no placement fact. */
  lemma BPinKeeps(c: Cache, b: nat)
    requires Partitioned(c) && Homed(c) && b < NBUF && InUse(c.bufs[b])
    ensures Partitioned(BPin(c, b)) && Homed(BPin(c, b))
  {
    var r := BPin(c, b);
    forall q, x | 0 <= q < NBUCKETS && x in r.buckets[q] && x < |r.bufs| && InUse(r.bufs[x])
      ensures Hash(r.bufs[x].blockno) == q
    {
      assert InUse(c.bufs[x]);
    }
  }

  /** Under the invariants a block that some buffer in use holds is always
      found by the lookup in its home bucket: bget never recycles a second
      buffer for a block already cached. */
  lemma CachedIsFound(c: Cache, x: nat, dev: bv32, blockno: bv32)
    requires Partitioned(c) && Homed(c) && x < NBUF && InUse(c.bufs[x]) && Holds(c.bufs[x], dev, blockno)
    ensures !Miss(c, Hash(blockno), dev, blockno)
  {
    assert Union(c.buckets)[x] == 1;
    var j := UnionMember(c.buckets, x);
    var m :| 0 <= m < |c.buckets[j]| && c.buckets[j][m] == x;
    assert Hash(c.bufs[x].blockno) == j;
  }

  // ------------------------------------------------------------ reading twice

  /** The first match depends only on which entries hold the block. */
  lemma FirstMatchSame(bufs: seq<Buf>, bufs': seq<Buf>, l: seq<nat>, dev: bv32, blockno: bv32)
    requires forall m :: 0 <= m < |l| ==> l[m] < |bufs| && l[m] < |bufs'|
    requires forall m :: 0 <= m < |l| ==> (Holds(bufs[l[m]], dev, blockno) <==> Holds(bufs'[l[m]], dev, blockno))
    ensures FirstMatch(bufs, l, dev, blockno) == FirstMatch(bufs', l, dev, blockno)
  {
  }

  /** When b is the only buffer of l holding the block, the first match is b. */
  lemma FirstMatchOnly(bufs: seq<Buf>, l: seq<nat>, dev: bv32, blockno: bv32, b: nat)
    requires forall m :: 0 <= m < |l| ==> l[m] < |bufs|
    requires b in l && b < |bufs| && Holds(bufs[b], dev, blockno)
    requires forall m :: 0 <= m < |l| && Holds(bufs[l[m]], dev, blockno) ==> l[m] == b
    ensures FirstMatch(bufs, l, dev, blockno) >= 0 && l[FirstMatch(bufs, l, dev, blockno)] == b
  {
    var m :| 0 <= m < |l| && l[m] == b;
  }

  /** After bread, the buffer it returned is the first in its home bucket to hold the block. */
  lemma FoundAgain(c: Cache, dev: bv32, blockno: bv32)
    requires Shaped(c) && BRead(c, dev, blockno).Done?
    ensures var (b, c1, _) := BRead(c, dev, blockno).value;
      var k := FirstMatch(c1.bufs, c1.buckets[Hash(blockno)], dev, blockno);
      k >= 0 && c1.buckets[Hash(blockno)][k] == b
  {
    var h := Hash(blockno);
    var (b, c1, _) := BRead(c, dev, blockno).value;
    var l := c1.buckets[h];
    if !Miss(c, h, dev, blockno) {
      FirstMatchSame(c.bufs, c1.bufs, l, dev, blockno);
    } else {
      var j, k :| 0 <= j < NBUCKETS && 0 <= k < |c.buckets[j]| && c.bufs[c.buckets[j][k]].refcnt == 0
        && LookupFixed(c, h, dev, blockno) == Done((c.buckets[j][k], Move(c, j, k, h, dev, blockno)));
      MissFoundAgain(c, j, k, dev, blockno, c1);
    }
  }

  lemma MissFoundAgain(c: Cache, j: nat, k: nat, dev: bv32, blockno: bv32, c1: Cache)
    requires Shaped(c) && j < NBUCKETS && k < |c.buckets[j]| && Miss(c, Hash(blockno), dev, blockno)
    requires var c0 := Move(c, j, k, Hash(blockno), dev, blockno); var b := c.buckets[j][k];
      c1 == c0.(bufs := c0.bufs[b := c0.bufs[b].(valid := true)])
    ensures var l := c1.buckets[Hash(blockno)];
      FirstMatch(c1.bufs, l, dev, blockno) >= 0 && l[FirstMatch(c1.bufs, l, dev, blockno)] == c.buckets[j][k]
  {
    var h := Hash(blockno);
    var b := c.buckets[j][k];
    var l := c1.buckets[h];
    MoveBuckets(c, j, k, h, dev, blockno);
    assert forall m :: 0 <= m < |l| && Holds(c1.bufs[l[m]], dev, blockno) ==> l[m] == b;
    FirstMatchOnly(c1.bufs, l, dev, blockno, b);
  }

  /** Right after bread returns a buffer, reading the same block again
      returns the same buffer without touching the disk. */
  lemma ReadTwice(c: Cache, dev: bv32, blockno: bv32)
    requires Shaped(c)
    ensures var r1 := BRead(c, dev, blockno);
      r1.Done? ==> var r2 := BRead(r1.value.1, dev, blockno);
        r2.Done? && r2.value.0 == r1.value.0 && !r2.value.2
  {
    if BRead(c, dev, blockno).Done? {
      FoundAgain(c, dev, blockno);
    }
  }

  // ------------------------------------------------ recycling only bucket heads

  /** Block numbers whose hashes are 0, 1, ..., 12. */
  const HomeBlocks: seq<bv32> := [0, 9, 2, 65, 6, 4, 11, 23, 7, 10, 29, 1, 21]

  lemma HomeBlocksHashed()
    ensures forall j :: 0 <= j < NBUCKETS ==> Hash(HomeBlocks[j]) == j
  {
    assert Hash(0) == 0;
    assert Hash(9) == 1;
    assert Hash(2) == 2;
    assert Hash(65) == 3;
    assert Hash(6) == 4;
    assert Hash(4) == 5;
    assert Hash(11) == 6;
    assert Hash(23) == 7;
    assert Hash(7) == 8;
    assert Hash(10) == 9;
    assert Hash(29) == 10;
    assert Hash(1) == 11;
    assert Hash(21) == 12;
  }

  lemma StuckShaped()
    ensures Shaped(StuckCache())
  {
    var c := StuckCache();
    assert forall i :: 0 <= i < NBUF ==> c.bufs[i].refcnt <= 1;
    assert forall k :: 0 <= k < |c.buckets[0]| ==> c.buckets[0][k] < NBUF;
    assert forall j :: 1 <= j < NBUCKETS ==> c.buckets[j] == [j];
  }

  /** Thirteen buffers held, one at the head of every bucket, each in the
      bucket of its block; the other seventeen unreferenced behind the head of
      bucket 0. */
  function StuckCache(): Cache
  {
    Cache(seq(NBUF, i requires 0 <= i < NBUF => if i < NBUCKETS then Buf(0, HomeBlocks[i], true, 1) else Buf(0, 0, false, 0)),
          [[0] + seq(NBUF - NBUCKETS, i => NBUCKETS + i)] + seq(NBUCKETS - 1, j => [j + 1]))
  }

  lemma StuckHomed()
    ensures Shaped(StuckCache()) && Homed(StuckCache())
  {
    var c := StuckCache();
    StuckShaped();
    HomeBlocksHashed();
    forall j, x | 0 <= j < NBUCKETS && x in c.buckets[j] && x < |c.bufs| && InUse(c.bufs[x])
      ensures Hash(c.bufs[x].blockno) == j
    {
      if j == 0 {
        assert x == 0;
      } else {
        assert c.buckets[j] == [j];
      }
    }
  }

  lemma StuckPanics()
    ensures Shaped(StuckCache()) && BGet(StuckCache(), 1, 0).Panic?
  {
    var c := StuckCache();
    StuckShaped();
    assert Hash(0) == 0;
    assert forall j :: 0 <= j < NBUCKETS ==> c.buckets[j][0] == j;
    assert forall m :: 0 <= m < |c.buckets[0]| ==> !Holds(c.bufs[c.buckets[0][m]], 1, 0);
    assert forall i :: 0 <= i < NBUCKETS ==> !RecyclableAt(c, 0, i);
  }

  lemma StuckFixedSucceeds()
    ensures Shaped(StuckCache()) && BGetFixed(StuckCache(), 1, 0).Done?
    ensures 13 in StuckCache().buckets[0] && StuckCache().bufs[13].refcnt == 0
  {
    var c := StuckCache();
    StuckShaped();
    assert Hash(0) == 0;
    assert c.buckets[0][1] == 13 && c.bufs[13].refcnt == 0;
  }

  /** The run k, k + 1, ..., k + n - 1 holds x once when x is in it, else not at all. */
  lemma {:induction false} RunCount(k: nat, n: nat, x: nat)
    decreases n
    ensures multiset(seq(n, i => k + i))[x] == if k <= x < k + n then 1 else 0
  {
    if n > 0 {
      assert seq(n, i => k + i) == seq(n - 1, i => k + i) + [k + n - 1];
      RunCount(k, n - 1, x);
    }
  }

  /** The first m buckets of the stuck cache hold bucket 0's list and the
      buffers 1, ..., m - 1. */
  lemma {:induction false} StuckPrefix(m: nat)
    requires 1 <= m <= NBUCKETS
    decreases m
    ensures Union(StuckCache().buckets[..m]) == multiset(StuckCache().buckets[0]) + multiset(seq(m - 1, j => j + 1))
  {
    var b: seq<seq<nat>> := StuckCache().buckets;
    if m == 1 {
      assert |b[..1][..0]| == 0;
      assert |seq(0, j => j + 1)| == 0;
    } else {
      StuckPrefix(m - 1);
      assert b[..m][..m - 1] == b[..m - 1];
      assert b[..m][m - 1] == [m - 1];
      assert seq(m - 1, j => j + 1) == seq(m - 2, j => j + 1) + [m - 1];
    }
  }

  /** The stuck cache is a legitimate state: every buffer sits in exactly one
      bucket, once. */
  lemma StuckPartitioned()
    ensures Partitioned(StuckCache())
  {
    var b: seq<seq<nat>> := StuckCache().buckets;
    StuckShaped();
    StuckPrefix(NBUCKETS);
    assert b[..NBUCKETS] == b;
    assert b[0] == [0] + seq(NBUF - NBUCKETS, i => NBUCKETS + i);
    forall x: nat
      ensures Union(b)[x] == if x < NBUF then 1 else 0
    {
      RunCount(NBUCKETS, NBUF - NBUCKETS, x);
      RunCount(1, NBUCKETS - 1, x);
      assert seq(NBUCKETS - 1, j => j + 1) == seq(NBUCKETS - 1, i => 1 + i);
    }
  }

  /** bget as written panics although seventeen listed buffers are
      unreferenced: the recycling scan looks only at the head of each bucket.
      With the completed scan the same request succeeds. */
  lemma BGetPanicsWithFreeBuffers()
    ensures Partitioned(StuckCache()) && Homed(StuckCache())
    ensures 13 in StuckCache().buckets[0] && StuckCache().bufs[13].refcnt == 0
    ensures BGet(StuckCache(), 1, 0).Panic?
    ensures BGetFixed(StuckCache(), 1, 0).Done?
  {
    StuckPartitioned();
    StuckHomed();
    StuckPanics();
    StuckFixedSucceeds();
  }
}

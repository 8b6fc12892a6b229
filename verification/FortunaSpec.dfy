/** What the Fortuna generator of core/crypto/rng_fortuna.c computes, as functions, with the pool schedule and the
    record of encryptions. The hash and the block cipher are arbitrary functions. */
module FortunaSpec {
  import opened Arithmetic
  import opened ByteValues
  import opened Bytes
  import opened FortunaRing

  const NUM_POOLS: nat := 32
  const MIN_POOL_SIZE: nat := 64
  const MAX_EVENT_DATA_LEN: nat := 32
  const SIZE_1M: nat := 0x100000
  const MAX_BLOCKS_PER_KEY: nat := 65538

  type Octets = seq<bv8>

  datatype TeeResult = Success | BadState | BadParameters | CryptoError

  // ---------- the pool schedule ----------

  /** reseed_from_pool(): a single bit of the count. */
  predicate ReseedFromPool(count: nat, pool: nat) {
    pool == 0 || count / Pow2(pool - 1) % 2 == 0
  }

  predicate Divides(pool: nat, count: nat) {
    count % Pow2(pool) == 0
  }

  lemma DivModTwice(c: nat, p: nat)
    requires p > 0
    ensures c % (2 * p) == c % p + p * (c / p % 2)
  {
    var q, r := c / p, c % p;
    assert c == q * p + r;
    Halves(q, p);
    if q % 2 == 0 {
      DivUnique(c, 2 * p, q / 2, r);
    } else {
      DivUnique(c, 2 * p, q / 2, p + r);
    }
  }

  lemma Halves(q: nat, p: nat)
    ensures q * p == q / 2 * (2 * p) + if q % 2 == 0 then 0 else p
    ensures p * (q % 2) == if q % 2 == 0 then 0 else p
  {
    var h := q / 2;
    if q % 2 == 0 {
      assert 2 * h * p == h * (2 * p);
    } else {
      assert (2 * h + 1) * p == h * (2 * p) + p;
    }
  }

  lemma DivUnique(x: nat, n: nat, q: int, r: nat)
    requires n > 0 && x == q * n + r && r < n
    ensures x % n == r
  {
    var d := q - x / n;
    assert d * n == q * n - x / n * n == x % n - r;
    if d > 0 {
      AtLeastOnce(d, n);
    } else if d < 0 {
      AtLeastOnce(-d, n);
    }
  }

  /** Given that the previous pool was used, one more bit decides about this one. */
  lemma BitDecides(count: nat, pool: nat)
    requires pool > 0 && Divides(pool - 1, count)
    ensures ReseedFromPool(count, pool) <==> Divides(pool, count)
  {
    var p := Pow2(pool - 1);
    DivModTwice(count, p);
    if count / p % 2 == 1 {
      assert p * 1 == p;
    } else {
      assert p * 0 == 0;
    }
  }

  /** A power of two that does not divide rules out the larger ones. */
  lemma {:induction false} DividesDown(count: nat, m: nat, n: nat)
    requires m <= n && Divides(n, count)
    ensures Divides(m, count)
    decreases n
  {
    if m < n {
      var p := Pow2(n - 1);
      DivModTwice(count, p);
      assert p * (count / p % 2) >= 0;
      DividesDown(count, m, n - 1);
    }
  }

  /** The pools before the first one that is not due are exactly those whose power of two divides. */
  lemma ExactlyDue(count: nat, k: nat)
    requires 1 <= k <= NUM_POOLS && Divides(k - 1, count) && (k < NUM_POOLS ==> !ReseedFromPool(count, k))
    ensures forall n | 0 <= n < NUM_POOLS :: n < k <==> Divides(n, count)
  {
    if k < NUM_POOLS {
      BitDecides(count, k);
    }
    forall n | 0 <= n < NUM_POOLS
      ensures n < k <==> Divides(n, count)
    {
      if n < k {
        DividesDown(count, n, k - 1);
      } else if Divides(n, count) {
        DividesDown(count, k, n);
      }
    }
  }

  /** The number of pools that are due, counted from pool n on. */
  function DuePools(count: nat, n: nat): (k: nat)
    requires n <= NUM_POOLS
    ensures n <= k <= NUM_POOLS
    decreases NUM_POOLS - n
  {
    if n == NUM_POOLS || !Divides(n, count) then n else DuePools(count, n + 1)
  }

  lemma {:induction false} DueIs(count: nat, n: nat, k: nat)
    requires n <= k <= NUM_POOLS && forall i | n <= i < NUM_POOLS :: i < k <==> Divides(i, count)
    ensures DuePools(count, n) == k
    decreases k - n
  {
    hide Divides;
    if n < k {
      assert Divides(n, count);
      DueIs(count, n + 1, k);
    }
  }

  // ---------- the record of encryptions ----------

  /** An encryption of the counter: under which key, by number, and after how many increments. */
  datatype Use = Use(epoch: nat, tick: nat)

  ghost predicate Ordered(log: seq<Use>, ticks: nat) {
    && (forall i | 0 <= i < |log| :: log[i].tick < ticks)
    && (forall i, j | 0 <= i < j < |log| :: log[i].tick < log[j].tick)
  }

  function Uses(log: seq<Use>, epoch: nat): nat {
    if log == [] then 0
    else Uses(log[..|log| - 1], epoch) + if log[|log| - 1].epoch == epoch then 1 else 0
  }

  lemma UsesSnoc(log: seq<Use>, u: Use, epoch: nat)
    ensures Uses(log + [u], epoch) == Uses(log, epoch) + if u.epoch == epoch then 1 else 0
  {
    assert (log + [u])[..|log|] == log;
  }

  ghost predicate Within(log: seq<Use>, limit: nat) {
    forall ep: nat :: Uses(log, ep) <= limit
  }

  /** No key has a number above the current one. */
  ghost predicate Past(log: seq<Use>, epoch: nat) {
    forall i | 0 <= i < |log| :: log[i].epoch <= epoch
  }

  lemma {:induction false} FreshEpoch(log: seq<Use>, epoch: nat)
    requires Past(log, epoch)
    ensures Uses(log, epoch + 1) == 0
  {
    if log != [] {
      FreshEpoch(log[..|log| - 1], epoch);
    }
  }

  /** With no more than 2^128 increments the counter values that were encrypted are all different. */
  lemma NoCounterTwice(log: seq<Use>, ticks: nat)
    requires Ordered(log, ticks) && ticks <= TWO128
    ensures forall i, j | 0 <= i < j < |log| :: log[i].tick % TWO128 != log[j].tick % TWO128
  {
  }

  lemma NextCount(n: nat)
    ensures (n + 1) % TWO128 == if n % TWO128 + 1 == TWO128 then 0 else n % TWO128 + 1
  {
    assert n + 1 == n / TWO128 * TWO128 + (n % TWO128 + 1);
  }

  /** Two 64-bit words with a carry between them count modulo 2^128. */
  lemma NextCounter(c0: nat, c1: nat, n: nat)
    requires c0 < TWO64 && c1 < TWO64 && c1 * TWO64 + c0 == n % TWO128
    ensures var d0 := (c0 + 1) % TWO64;
            var d1 := if d0 == 0 then (c1 + 1) % TWO64 else c1;
            d1 * TWO64 + d0 == (n + 1) % TWO128
  {
    NextCount(n);
    if c0 + 1 < TWO64 {
      assert c1 * TWO64 + c0 + 1 < TWO128;
    } else if c1 + 1 < TWO64 {
      assert (c1 + 1) * TWO64 < TWO128;
    }
  }

  lemma RecordUse(log: seq<Use>, epoch: nat, ticks: nat, limit: nat)
    requires Ordered(log, ticks) && Past(log, epoch) && Within(log, limit) && Uses(log, epoch) < limit
    ensures var log' := log + [Use(epoch, ticks)];
            Ordered(log', ticks + 1) && Past(log', epoch) && Within(log', limit) && Uses(log', epoch) == Uses(log, epoch) + 1
  {
    hide Uses;
    var log' := log + [Use(epoch, ticks)];
    forall ep: nat
      ensures Uses(log', ep) == Uses(log, ep) + if epoch == ep then 1 else 0
    {
      UsesSnoc(log, Use(epoch, ticks), ep);
    }
  }

  lemma TickKeepsLog(log: seq<Use>, ticks: nat)
    requires Ordered(log, ticks)
    ensures Ordered(log, ticks + 1)
  {
  }

  // ---------- what the generator produces ----------

  type Encryption = (Octets, nat) -> Block

  /** n blocks of output under key from counter t on. */
  function Stream(e: Encryption, key: Octets, t: nat, n: nat): (r: Octets)
    ensures |r| == 16 * n
  {
    if n == 0 then [] else Stream(e, key, t, n - 1) + e(key, (t + n - 1) % TWO128)
  }

  lemma {:induction false} StreamSplit(e: Encryption, key: Octets, t: nat, m: nat, n: nat)
    ensures Stream(e, key, t, m + n) == Stream(e, key, t, m) + Stream(e, key, t + m, n)
    decreases n
  {
    if n == 0 {
      assert Stream(e, key, t, m) + [] == Stream(e, key, t, m);
    } else {
      StreamSplit(e, key, t, m, n - 1);
      assert t + m + (n - 1) == t + (m + n) - 1;
    }
  }

  /** The digests of the first k pools, in order. */
  function Digests(hash: Octets -> Octets, pools: seq<Octets>, k: nat): Octets
    requires k <= |pools|
  {
    if k == 0 then [] else Digests(hash, pools, k - 1) + hash(pools[k - 1])
  }

  // ---------- events and pools ----------

  function Header(snum: nat, dl: nat): Octets
    requires dl <= MAX_EVENT_DATA_LEN
  {
    [Byte(snum % 256), Byte(dl)]
  }

  /** What an event leaves in its pool: source, length, then at most 32 bytes. */
  function Recorded(ev: Event): Octets {
    var dl := if |ev.data| <= MAX_EVENT_DATA_LEN then |ev.data| else MAX_EVENT_DATA_LEN;
    Header(ev.snum, dl) + ev.data[..dl]
  }

  /** The pools and the number of bytes that count for pool 0. */
  datatype Pools = Pools(contents: seq<Octets>, length0: nat)

  function Absorbed(p: Pools, ev: Event): (r: Pools)
    requires ev.pnum < |p.contents|
    ensures |r.contents| == |p.contents|
  {
    var dl := if |ev.data| <= MAX_EVENT_DATA_LEN then |ev.data| else MAX_EVENT_DATA_LEN;
    Pools(p.contents[ev.pnum := p.contents[ev.pnum] + Recorded(ev)],
          if ev.pnum == 0 && p.length0 + dl < TWO32 then p.length0 + dl else p.length0)
  }

  /** The events up to the first empty one, each into its own pool. */
  function Drained(p: Pools, events: seq<Event>): Pools
    decreases events
  {
    if events == [] || events[0].data == [] || events[0].pnum >= |p.contents| then p
    else Drained(Absorbed(p, events[0]), events[1..])
  }

  /** All of these events, each into its own pool. */
  function AbsorbAll(p: Pools, events: seq<Event>): Pools
    requires forall e | e in events :: e.pnum < |p.contents|
    decreases events
  {
    if events == [] then p else AbsorbAll(Absorbed(p, events[0]), events[1..])
  }

  /** What a drain of the ring pops ends up in the pools, up to the first empty event. */
  lemma {:induction false} DrainAbsorbs(p: Pools, events: seq<Event>)
    requires forall e | e in events :: e.pnum < |p.contents|
    ensures (forall e | e in Taken(events) :: e in events) && Drained(p, events) == AbsorbAll(p, Taken(events))
    decreases events
  {
    hide Absorbed;
    if events != [] && events[0].data != [] {
      var q := Absorbed(p, events[0]);
      DrainAbsorbs(q, events[1..]);
      assert ([events[0]] + Taken(events[1..]))[1..] == Taken(events[1..]);
    }
  }

  /** Every event that reaches the pools through the ring was accepted by it, and each drain of a run absorbs
      exactly its non-empty events: nothing is lost between ring and pools. */
  lemma RingReachesPools(rs: seq<Ring>, n: nat, i: nat, p: Pools)
    requires Run(rs) && n < |rs| && i < |rs[n].drains|
    requires forall e | e in rs[n].drains[i] :: e.pnum < |p.contents|
    ensures forall e | e in NonEmpty(rs[n].drains[i]) :: e in rs[n].drains[i]
    ensures Drained(p, rs[n].drains[i]) == AbsorbAll(p, NonEmpty(rs[n].drains[i]))
    ensures TakenAll(rs[n].drains) <= NonEmpty(rs[n].accepted)
  {
    hide Run, SlotsHold, Slot, Drained, AbsorbAll, Taken, NonEmpty;
    RunSafe(rs, n);
    RunDelivers(rs, n);
    assert OneDrain(rs[n].drains[i]);
    TakenIs(rs[n].drains[i]);
    DrainAbsorbs(p, rs[n].drains[i]);
  }

  // ---------- a whole read ----------

  /** What the outside decides during one fortuna_read(): the clock and the event ring. */
  datatype Env = Env(rateLimited: bool, events: seq<Event>)

  type Hash = Octets -> Octets

  /** The part of the state that decides what is produced. */
  datatype Gen = Gen(key: Octets, ticks: nat, pools: Pools, count: nat)

  function NoEvents(): (r: seq<Octets>)
    ensures |r| == NUM_POOLS
  {
    seq(NUM_POOLS, _ => [])
  }

  /** The first k pools each go on from their own digest. */
  function Restarted(hash: Hash, pools: seq<Octets>, k: nat): (r: seq<Octets>)
    ensures |r| == |pools|
  {
    seq(|pools|, n requires 0 <= n < |pools| => if n < k then hash(pools[n]) else pools[n])
  }

  ghost predicate Shaped(g: Gen) {
    |g.pools.contents| == NUM_POOLS
  }

  function Reseed(hash: Hash, g: Gen): (r: Gen)
    requires Shaped(g)
    ensures Shaped(r)
  {
    var count := (g.count + 1) % TWO32;
    var k := DuePools(count, 0);
    Gen(hash(Digests(hash, g.pools.contents, k)), g.ticks + 1, Pools(Restarted(hash, g.pools.contents, k), 0), count)
  }

  /** maybe_reseed() */
  function Refreshed(hash: Hash, g: Gen, rateLimited: bool): (r: Gen)
    requires Shaped(g)
    ensures Shaped(r)
  {
    if g.pools.length0 >= MIN_POOL_SIZE && !rateLimited then Reseed(hash, g) else g
  }

  function Blocks(len: nat): (n: nat)
    ensures 16 * n - 16 < len <= 16 * n
  {
    (len + 15) / 16
  }

  /** A piece of output: the key it was drawn on, the counter it starts from, its length. */
  datatype Part = Part(key: Octets, tick: nat, len: nat)

  function PartBytes(e: Encryption, p: Part): (r: Octets)
    ensures |r| == p.len
  {
    Stream(e, p.key, p.tick, Blocks(p.len))[..p.len]
  }

  /** After the blocks of output come the two of the next key. */
  function Rekeyed(e: Encryption, g: Gen, len: nat): Gen {
    if len == 0 then g
    else g.(key := Stream(e, g.key, g.ticks + Blocks(len), 2), ticks := g.ticks + Blocks(len) + 2)
  }

  lemma {:induction false} DrainedShape(p: Pools, events: seq<Event>)
    ensures |Drained(p, events).contents| == |p.contents|
    decreases events
  {
    hide Absorbed;
    if !(events == [] || events[0].data == [] || events[0].pnum >= |p.contents|) {
      DrainedShape(Absorbed(p, events[0]), events[1..]);
    }
  }

  /** The state after a successful fortuna_read(): reseeded if due, re-keyed if anything was drawn, and the ring
      drained into the pools. */
  function AfterRead(hash: Hash, e: Encryption, g: Gen, len: nat, env: Env): (r: Gen)
    requires Shaped(g)
    ensures Shaped(r)
  {
    var h := Rekeyed(e, Refreshed(hash, g, env.rateLimited), len);
    DrainedShape(h.pools, env.events);
    h.(pools := Drained(h.pools, env.events))
  }

  function PartOf(hash: Hash, g: Gen, len: nat, env: Env): Part
    requires Shaped(g)
  {
    var h := Refreshed(hash, g, env.rateLimited);
    Part(h.key, h.ticks, len)
  }

  function Chunk(blen: nat): (n: nat)
    ensures n <= blen && n <= SIZE_1M && (n == 0 <==> blen == 0)
  {
    if blen <= SIZE_1M then blen else SIZE_1M
  }

  /** The parts of a crypto_rng_read() of blen bytes. */
  function Parts(hash: Hash, e: Encryption, g: Gen, blen: nat, env: nat -> Env, round: nat): seq<Part>
    requires Shaped(g)
    decreases blen
  {
    var n := Chunk(blen);
    if n == 0 then []
    else [PartOf(hash, g, n, env(round))] + Parts(hash, e, AfterRead(hash, e, g, n, env(round)), blen - n, env, round + 1)
  }

  function AfterAll(hash: Hash, e: Encryption, g: Gen, blen: nat, env: nat -> Env, round: nat): (r: Gen)
    requires Shaped(g)
    ensures Shaped(r)
    decreases blen
  {
    var n := Chunk(blen);
    if n == 0 then g else AfterAll(hash, e, AfterRead(hash, e, g, n, env(round)), blen - n, env, round + 1)
  }

  function Output(e: Encryption, parts: seq<Part>): Octets {
    if parts == [] then [] else PartBytes(e, parts[0]) + Output(e, parts[1..])
  }

  /** A key that a reseed made, from the digests of k of the pools. */
  ghost predicate FromPools(hash: Hash, key: Octets) {
    exists pools: seq<Octets>, k: nat :: k <= |pools| && key == hash(Digests(hash, pools, k))
  }

  function PartEnd(p: Part): nat {
    p.tick + Blocks(p.len) + 2
  }

  /** The key of a part is the two blocks behind the part before it, or the key of a reseed in between. */
  ghost predicate Linked(hash: Hash, e: Encryption, p: Part, q: Part) {
    || (q.tick == PartEnd(p) && q.key == Stream(e, p.key, p.tick + Blocks(p.len), 2))
    || (q.tick == PartEnd(p) + 1 && FromPools(hash, q.key))
  }

  lemma PartKey(hash: Hash, g: Gen, len: nat, env: Env)
    requires Shaped(g)
    ensures var p := PartOf(hash, g, len, env);
            (p.key == g.key && p.tick == g.ticks) || (p.tick == g.ticks + 1 && FromPools(hash, p.key))
  {
  }

  /** Over a whole read: at most 1 MiB on one key, the first key is the one there was or that of a reseed, and each
      further one follows from the part before or from a reseed. Counter ranges do not overlap. */
  lemma {:induction false} PartsChain(hash: Hash, e: Encryption, g: Gen, blen: nat, env: nat -> Env, round: nat, i: nat)
    requires Shaped(g) && i < |Parts(hash, e, g, blen, env, round)|
    ensures var ps := Parts(hash, e, g, blen, env, round);
            && 0 < ps[i].len <= SIZE_1M && g.ticks <= ps[i].tick
            && (i == 0 ==> (ps[0].key == g.key && ps[0].tick == g.ticks) || (ps[0].tick == g.ticks + 1 && FromPools(hash, ps[0].key)))
            && (i > 0 ==> Linked(hash, e, ps[i - 1], ps[i]))
    decreases i
  {
    hide FromPools, PartOf, Stream, Drained, Refreshed;
    var n := Chunk(blen);
    var g' := AfterRead(hash, e, g, n, env(round));
    PartKey(hash, g, n, env(round));
    PartNext(hash, e, g, n, env(round));
    if i > 0 {
      PartsChain(hash, e, g', blen - n, env, round + 1, i - 1);
    }
  }

  lemma PartNext(hash: Hash, e: Encryption, g: Gen, n: nat, env: Env)
    requires Shaped(g) && n > 0
    ensures var p, g' := PartOf(hash, g, n, env), AfterRead(hash, e, g, n, env);
            g'.ticks == PartEnd(p) && g'.key == Stream(e, p.key, p.tick + Blocks(n), 2) && p.len == n
  {
    hide Stream, Drained, Refreshed;
  }
}

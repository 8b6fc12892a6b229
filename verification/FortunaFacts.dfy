/** What the functions of the Fortuna specification come to, byte by byte and pool by pool, with the constants written
    out. */
module FortunaFacts {
  import opened Arithmetic
  import opened ByteValues
  import opened Bytes
  import opened FortunaRing
  import opened FortunaSpec

  // ---------- output ----------

  /** Byte k of block i is that of the counter i places on. */
  lemma {:induction false} StreamByte(e: Encryption, key: Octets, t: nat, n: nat, i: nat, k: nat)
    requires i < n && k < 16
    ensures Stream(e, key, t, n)[16 * i + k] == e(key, (t + i) % 0x1_0000_0000_0000_0000_0000_0000_0000_0000)[k]
    decreases n
  {
    if i < n - 1 {
      StreamByte(e, key, t, n - 1, i, k);
    } else {
      assert t + n - 1 == t + i;
    }
  }

  /** A part is the encryptions of successive counter values under its key. */
  lemma PartByte(e: Encryption, p: Part, i: nat, k: nat)
    requires 16 * i + k < p.len && k < 16
    ensures PartBytes(e, p)[16 * i + k] == e(p.key, (p.tick + i) % 0x1_0000_0000_0000_0000_0000_0000_0000_0000)[k]
  {
    StreamByte(e, p.key, p.tick, Blocks(p.len), i, k);
  }

  function Lengths(parts: seq<Part>): nat {
    if parts == [] then 0 else parts[0].len + Lengths(parts[1..])
  }

  /** The parts of a read make up its length, all but the last of 1 MiB. */
  lemma {:induction false} PartsCover(hash: Hash, e: Encryption, g: Gen, blen: nat, env: nat -> Env, round: nat)
    requires Shaped(g)
    ensures var ps := Parts(hash, e, g, blen, env, round);
            && Lengths(ps) == blen && |Output(e, ps)| == blen
            && forall i | 0 <= i < |ps| - 1 :: ps[i].len == 0x100000
    decreases blen
  {
    hide PartBytes, AfterRead, Refreshed;
    var n := Chunk(blen);
    if n > 0 {
      PartsCover(hash, e, AfterRead(hash, e, g, n, env(round)), blen - n, env, round + 1);
    }
  }

  // ---------- reseeding ----------

  /** A further pool adds its digest behind the others. */
  lemma {:induction false} DigestsPrefix(hash: Hash, pools: seq<Octets>, m: nat, n: nat)
    requires m <= n <= |pools|
    ensures Digests(hash, pools, m) <= Digests(hash, pools, n)
    ensures n < |pools| ==> Digests(hash, pools, n + 1) == Digests(hash, pools, n) + hash(pools[n])
    decreases n
  {
    if m < n {
      DigestsPrefix(hash, pools, m, n - 1);
    }
  }

  /** With 32-byte digests, that of pool n starts at byte 32 n. */
  lemma {:induction false} DigestAt(hash: Hash, pools: seq<Octets>, k: nat, n: nat)
    requires n < k <= |pools| && forall i | 0 <= i < |pools| :: |hash(pools[i])| == 32
    ensures |Digests(hash, pools, k)| == 32 * k && Digests(hash, pools, k)[32 * n..32 * n + 32] == hash(pools[n])
    decreases k
  {
    if n < k - 1 {
      DigestAt(hash, pools, k - 1, n);
    } else {
      DigestsLength(hash, pools, k - 1);
    }
    assert Digests(hash, pools, k) == Digests(hash, pools, k - 1) + hash(pools[k - 1]);
  }

  lemma {:induction false} DigestsLength(hash: Hash, pools: seq<Octets>, k: nat)
    requires k <= |pools| && forall i | 0 <= i < |pools| :: |hash(pools[i])| == 32
    ensures |Digests(hash, pools, k)| == 32 * k
  {
    if k > 0 {
      DigestsLength(hash, pools, k - 1);
    }
  }

  /** A byte string with the digests of the first k pools at 0, 32, 64 and so on. */
  ghost predicate InOrder(hash: Hash, pools: seq<Octets>, k: nat, seed: Octets) {
    k <= |pools| && |seed| == 32 * k && forall n | 0 <= n < k :: DigestIs(hash, pools, seed, n)
  }

  ghost predicate DigestIs(hash: Hash, pools: seq<Octets>, seed: Octets, n: nat) {
    n < |pools| && 32 * n + 32 <= |seed| && seed[32 * n..32 * n + 32] == hash(pools[n])
  }

  lemma {:induction false} InOrderIs(hash: Hash, pools: seq<Octets>, k: nat, seed: Octets)
    requires InOrder(hash, pools, k, seed)
    ensures seed == Digests(hash, pools, k)
    decreases k
  {
    if k == 0 {
      assert seed == [];
    } else {
      var s := seed[..32 * (k - 1)];
      forall n | 0 <= n < k - 1
        ensures DigestIs(hash, pools, s, n)
      {
        assert DigestIs(hash, pools, seed, n);
        assert s[32 * n..32 * n + 32] == seed[32 * n..32 * n + 32];
      }
      InOrderIs(hash, pools, k - 1, s);
      assert DigestIs(hash, pools, seed, k - 1);
      assert seed == s + seed[32 * (k - 1)..];
    }
  }

  /** A reseed: the count goes up by one, the pools n with 2^n dividing it are due, the new key is the hash of their
      digests from pool 0 on, each of them goes on from its digest, and the others stay. */
  lemma ReseedUses(hash: Hash, g: Gen, k: nat, seed: Octets)
    requires Shaped(g) && k <= 32
    requires forall n | 0 <= n < 32 :: n < k <==> (g.count + 1) % 0x1_0000_0000 % Pow2(n) == 0
    requires InOrder(hash, g.pools.contents, k, seed)
    ensures var r := Reseed(hash, g);
            && r.count == (g.count + 1) % 0x1_0000_0000 && r.key == hash(seed) && r.ticks == g.ticks + 1
            && r.pools.length0 == 0 && |r.pools.contents| == 32
            && forall n | 0 <= n < 32 ::
                 r.pools.contents[n] == if n < k then hash(g.pools.contents[n]) else g.pools.contents[n]
  {
    hide Digests, DuePools, InOrder;
    var count := (g.count + 1) % 0x1_0000_0000;
    assert forall n | 0 <= n < 32 :: n < k <==> Divides(n, count);
    DueIs(count, 0, k);
    InOrderIs(hash, g.pools.contents, k, seed);
  }

  /** There is such a number of pools for every count, and such a seed for every hash with 32-byte digests. */
  lemma ReseedExists(hash: Hash, g: Gen) returns (k: nat, seed: Octets)
    requires Shaped(g) && forall i | 0 <= i < 32 :: |hash(g.pools.contents[i])| == 32
    ensures 1 <= k <= 32 && forall n | 0 <= n < 32 :: n < k <==> (g.count + 1) % 0x1_0000_0000 % Pow2(n) == 0
    ensures InOrder(hash, g.pools.contents, k, seed)
  {
    hide Digests;
    k := DuePools((g.count + 1) % 0x1_0000_0000, 0);
    DueAre((g.count + 1) % 0x1_0000_0000, 0);
    seed := Digests(hash, g.pools.contents, k);
    DigestsLength(hash, g.pools.contents, k);
    forall n | 0 <= n < k
      ensures DigestIs(hash, g.pools.contents, seed, n)
    {
      DigestAt(hash, g.pools.contents, k, n);
    }
  }

  lemma {:induction false} DueAre(count: nat, n: nat)
    requires n <= 32 && forall i | 0 <= i < n :: count % Pow2(i) == 0
    ensures forall i | 0 <= i < 32 :: i < DuePools(count, n) <==> count % Pow2(i) == 0
    ensures DuePools(count, 0) >= 1
    decreases 32 - n
  {
    hide Pow2;
    FirstDue(count);
    if n < 32 && Divides(n, count) {
      DueAre(count, n + 1);
    } else {
      forall i | n <= i < 32
        ensures count % Pow2(i) != 0
      {
        if Divides(i, count) {
          DividesDown(count, n, i);
        }
      }
    }
  }

  lemma FirstDue(count: nat)
    ensures DuePools(count, 0) >= 1
  {
  }

  /** maybe_reseed() does nothing if and only if fewer than 64 bytes count for pool 0 or the rate limit holds. */
  lemma RefreshedIff(hash: Hash, g: Gen, rateLimited: bool)
    requires Shaped(g)
    ensures Refreshed(hash, g, rateLimited) == g <==> g.pools.length0 < 64 || rateLimited
    ensures Refreshed(hash, g, rateLimited) == g || Refreshed(hash, g, rateLimited) == Reseed(hash, g)
  {
  }

  /** The order within a read: the reseed comes before the output, the two blocks of the next key behind it, and the
      events of the ring last, so that they count for later reads only. */
  lemma ReadOrder(hash: Hash, e: Encryption, g: Gen, len: nat, env: Env)
    requires Shaped(g) && len > 0
    ensures var reseeded := g.pools.length0 >= 64 && !env.rateLimited;
            var start := if reseeded then Reseed(hash, g) else g;
            var r, p := AfterRead(hash, e, g, len, env), PartOf(hash, g, len, env);
            && p.key == start.key && p.tick == start.ticks && p.len == len
            && r.count == start.count && r.pools == Drained(start.pools, env.events)
            && r.ticks == start.ticks + (len + 15) / 16 + 2
            && r.key == e(start.key, (start.ticks + (len + 15) / 16) % 0x1_0000_0000_0000_0000_0000_0000_0000_0000)
                        + e(start.key, (start.ticks + (len + 15) / 16 + 1) % 0x1_0000_0000_0000_0000_0000_0000_0000_0000)
  {
    hide Stream, Reseed, Drained;
    var start := Refreshed(hash, g, env.rateLimited);
    TwoBlocks(e, start.key, start.ticks + Blocks(len));
  }

  lemma TwoBlocks(e: Encryption, key: Octets, t: nat)
    ensures Stream(e, key, t, 2) == e(key, t % TWO128) + e(key, (t + 1) % TWO128)
  {
    assert Stream(e, key, t, 0) == [];
    assert Stream(e, key, t, 1) == [] + e(key, (t + 1 - 1) % TWO128);
    assert Stream(e, key, t, 2) == Stream(e, key, t, 1) + e(key, (t + 2 - 1) % TWO128);
  }

  // ---------- events ----------

  /** What an event leaves in a pool: a byte of source, a byte of length, then at most 32 bytes of data. */
  lemma RecordedBytes(ev: Event)
    ensures var r, n := Recorded(ev), if |ev.data| < 32 then |ev.data| else 32;
            && |r| == n + 2 && Value(r[0]) == ev.snum % 256 && Value(r[1]) == n
            && forall i | 0 <= i < n :: r[2 + i] == ev.data[i]
  {
    hide Value, Byte;
  }

  /** It goes into its own pool, and its bytes count if that is pool 0 and the 32-bit count does not overflow. */
  lemma AbsorbedIs(p: Pools, ev: Event)
    requires ev.pnum < |p.contents|
    ensures var r, n := Absorbed(p, ev), if |ev.data| < 32 then |ev.data| else 32;
            && |r.contents| == |p.contents|
            && (forall i | 0 <= i < |p.contents| && i != ev.pnum :: r.contents[i] == p.contents[i])
            && r.contents[ev.pnum] == p.contents[ev.pnum] + Recorded(ev)
            && (ev.pnum != 0 || p.length0 + n > 0xffff_ffff ==> r.length0 == p.length0)
            && (ev.pnum == 0 && p.length0 + n <= 0xffff_ffff ==> r.length0 == p.length0 + n)
  {
    hide Recorded;
  }

  /** One event after the other. */
  lemma {:induction false} AbsorbInTurn(p: Pools, a: seq<Event>, ev: Event)
    requires ev.pnum < |p.contents| && forall e | e in a :: e.pnum < |p.contents|
    ensures |AbsorbAll(p, a).contents| == |p.contents| && AbsorbAll(p, a + [ev]) == Absorbed(AbsorbAll(p, a), ev)
    decreases a
  {
    hide Absorbed;
    if a == [] {
      assert [ev][1..] == [];
      assert a + [ev] == [ev];
      assert AbsorbAll(Absorbed(p, ev), []) == Absorbed(p, ev);
    } else {
      AbsorbInTurn(Absorbed(p, a[0]), a[1..], ev);
      assert (a + [ev])[1..] == a[1..] + [ev];
    }
  }

  lemma KeptOrNot(ev: Event)
    ensures NonEmpty([ev]) == if |ev.data| == 0 then [] else [ev]
  {
    assert [ev][..0] == [];
  }
}

/** The Fortuna generator of core/crypto/rng_fortuna.c.

    The hash and the block cipher are arbitrary functions. Every call into them that can fail does
    so as an arbitrary oracle says. The mutex makes each read one step, and what the event ring
    yields during a read is a parameter. */
module Fortuna {
  import opened Arithmetic
  import opened Bytes
  import opened FortunaRing
  import opened FortunaSpec
  import opened FortunaFacts

  class Generator {
    const hash: Octets -> Octets
    const encrypt: Encryption
    /** Whether the n-th fallible call into the crypto library fails. */
    const fails: nat -> bool
    var calls: nat
    /** state.ctx is set. */
    var ready: bool
    var key: Octets
    var counter0: nat
    var counter1: nat
    var pool0Length: nat
    /** What each pool's hash context has absorbed. */
    var pools: seq<Octets>
    var reseedCount: nat

    /** All increments since initialisation. */
    ghost var ticks: nat
    ghost var epoch: nat
    ghost var log: seq<Use>

    ghost predicate CounterOk()
      reads `counter0, `counter1, `ticks
    {
      counter0 < TWO64 && counter1 < TWO64 && counter1 * TWO64 + counter0 == ticks % TWO128
    }

    ghost predicate LogOk()
      reads `ticks, `epoch, `log
    {
      Ordered(log, ticks) && Past(log, epoch) && Within(log, MAX_BLOCKS_PER_KEY)
    }

    ghost predicate Valid()
      reads this
    {
      CounterOk() && LogOk() && |pools| == NUM_POOLS && (ready ==> Uses(log, epoch) == 0)
    }

    ghost function Model(): Gen
      reads `key, `ticks, `pools, `pool0Length, `reseedCount
    {
      Gen(key, ticks, Pools(pools, pool0Length), reseedCount)
    }

    constructor (hash: Octets -> Octets, encrypt: Encryption, fails: nat -> bool)
      ensures Valid() && !ready && log == [] && this.hash == hash && this.encrypt == encrypt && this.fails == fails
    {
      this.hash, this.encrypt, this.fails := hash, encrypt, fails;
      calls, ready, key, counter0, counter1, pool0Length, reseedCount := 0, false, [], 0, 0, 0, 0;
      pools := NoEvents();
      ticks, epoch, log := 0, 0, [];
    }

    /** One fallible call. */
    method Call() returns (failed: bool)
      modifies `calls
    {
      failed := fails(calls);
      calls := calls + 1;
    }

    /** inc_counter() */
    method IncCounter()
      requires CounterOk()
      modifies `counter0, `counter1, `ticks
      ensures CounterOk() && ticks == old(ticks) + 1
    {
      NextCounter(counter0, counter1, ticks);
      counter0 := (counter0 + 1) % TWO64;
      if counter0 == 0 {
        counter1 := (counter1 + 1) % TWO64;
      }
      ticks := ticks + 1;
    }

    /** One encryption of the counter, which moves on even when the encryption fails. */
    method EncryptCounter() returns (failed: bool, block: Block)
      requires CounterOk() && LogOk() && Uses(log, epoch) < MAX_BLOCKS_PER_KEY
      modifies `calls, `counter0, `counter1, `ticks, `log
      ensures CounterOk() && LogOk() && Uses(log, epoch) == old(Uses(log, epoch)) + 1
      ensures block == encrypt(key, old(ticks) % TWO128) && ticks == old(ticks) + 1
      ensures log == old(log) + [Use(epoch, old(ticks))]
    {
      hide Ordered, Past, Within, Uses;
      failed := Call();
      RecordUse(log, epoch, ticks, MAX_BLOCKS_PER_KEY);
      log := log + [Use(epoch, ticks)];
      block := encrypt(key, counter1 * TWO64 + counter0);
      IncCounter();
    }

    /** generate_blocks() */
    method GenerateBlocks(n: nat) returns (res: TeeResult, out: Octets)
      requires CounterOk() && LogOk() && Uses(log, epoch) + n <= MAX_BLOCKS_PER_KEY
      modifies `calls, `counter0, `counter1, `ticks, `log
      ensures CounterOk() && LogOk() && Uses(log, epoch) <= old(Uses(log, epoch)) + n
      ensures res == Success ==> out == Stream(encrypt, key, old(ticks), n) && ticks == old(ticks) + n
      ensures res == Success || res == CryptoError
    {
      hide CounterOk, LogOk, Uses;
      out := [];
      for k := 0 to n
        invariant CounterOk() && LogOk() && Uses(log, epoch) <= old(Uses(log, epoch)) + k
        invariant out == Stream(encrypt, key, old(ticks), k) && ticks == old(ticks) + k
      {
        var failed, block := EncryptCounter();
        out := out + block;
        if failed {
          return CryptoError, [];
        }
      }
      return Success, out;
    }

    /** generate_random_data() */
    method GenerateRandomData(blen: nat) returns (res: TeeResult, out: Octets)
      requires CounterOk() && LogOk() && Uses(log, epoch) + (blen + 15) / 16 <= MAX_BLOCKS_PER_KEY
      modifies `calls, `counter0, `counter1, `ticks, `log
      ensures CounterOk() && LogOk() && Uses(log, epoch) <= old(Uses(log, epoch)) + (blen + 15) / 16
      ensures res == Success ==> ticks == old(ticks) + (blen + 15) / 16
                                 && out == Stream(encrypt, key, old(ticks), (blen + 15) / 16)[..blen]
      ensures res == Success || res == CryptoError
    {
      hide CounterOk, LogOk, Uses, Stream;
      res, out := GenerateBlocks(blen / 16);
      if res != Success {
        return;
      }
      if blen % 16 != 0 {
        var block;
        res, block := GenerateBlocks(1);
        if res != Success {
          return;
        }
        StreamSplit(encrypt, key, old(ticks), blen / 16, 1);
        out := out + block[..blen % 16];
      } else {
        assert out == out[..blen];
      }
    }

    // ---------- reseeding ----------

    /** restart_pool(): the pool goes on from its own digest. */
    method RestartPool(n: nat) returns (res: TeeResult, digest: Octets)
      requires n < |pools|
      modifies `calls, `pools
      ensures |pools| == |old(pools)|
      ensures res == Success ==> digest == hash(old(pools)[n]) && pools == old(pools)[n := digest]
      ensures res == Success || res == CryptoError
    {
      digest := [];
      var failed := Call();
      if failed {
        return CryptoError, digest;
      }
      digest := hash(pools[n]);
      failed := Call();
      if failed {
        return CryptoError, digest;
      }
      pools := pools[n := []];
      failed := Call();
      if failed {
        return CryptoError, digest;
      }
      pools := pools[n := digest];
      return Success, digest;
    }

    /** The loop of maybe_reseed(), which stops at the first pool that is not due. */
    method DrainPools(count: nat) returns (res: TeeResult, seed: Octets, ghost k: nat)
      requires |pools| == NUM_POOLS
      modifies `calls, `pools, `pool0Length
      ensures |pools| == NUM_POOLS && (res == Success || res == CryptoError)
      ensures res == Success ==> 1 <= k <= NUM_POOLS && pool0Length == 0 && seed == Digests(hash, old(pools), k)
      ensures res == Success && (forall n | 0 <= n < NUM_POOLS :: |hash(old(pools)[n])| == 32) ==> InOrder(hash, old(pools), k, seed)
      ensures res == Success ==> forall n | 0 <= n < NUM_POOLS :: n < k <==> Divides(n, count)
      ensures res == Success ==> forall n | 0 <= n < NUM_POOLS :: pools[n] == if n < k then hash(old(pools)[n]) else old(pools)[n]
    {
      seed := [];
      k := 0;
      var n := 0;
      while n < NUM_POOLS && ReseedFromPool(count, n)
        invariant 0 <= n <= NUM_POOLS && n == k && |pools| == NUM_POOLS
        invariant n > 0 ==> Divides(n - 1, count) && pool0Length == 0
        invariant seed == Digests(hash, old(pools), n)
        invariant forall i | 0 <= i < NUM_POOLS :: pools[i] == if i < n then hash(old(pools)[i]) else old(pools)[i]
      {
        if n > 0 {
          BitDecides(count, n);
        }
        var digest;
        res, digest := RestartPool(n);
        if res != Success {
          return;
        }
        if n == 0 {
          pool0Length := 0;
        }
        var failed := Call();
        if failed {
          res := CryptoError;
          return;
        }
        seed := seed + digest;
        n := n + 1;
        k := n;
      }
      res := Success;
      ExactlyDue(count, n);
      OrderOfDigests(old(pools), n);
    }

    lemma OrderOfDigests(ps: seq<Octets>, k: nat)
      requires k <= |ps| == NUM_POOLS
      ensures (forall n | 0 <= n < NUM_POOLS :: |hash(ps[n])| == 32) ==> InOrder(hash, ps, k, Digests(hash, ps, k))
    {
      hide Digests;
      if forall n | 0 <= n < NUM_POOLS :: |hash(ps[n])| == 32 {
        DigestsLength(hash, ps, k);
        forall n | 0 <= n < k
          ensures DigestIs(hash, ps, Digests(hash, ps, k), n)
        {
          DigestAt(hash, ps, k, n);
        }
      }
    }

    /** maybe_reseed() */
    method MaybeReseed(rateLimited: bool) returns (res: TeeResult)
      requires Valid() && ready
      modifies `calls, `pools, `pool0Length, `reseedCount, `key, `epoch, `counter0, `counter1, `ticks
      ensures CounterOk() && LogOk() && |pools| == NUM_POOLS && Uses(log, epoch) == 0 && (res == Success || res == CryptoError)
      ensures res == Success ==> Model() == Refreshed(hash, old(Model()), rateLimited)
      ensures old(pool0Length) < MIN_POOL_SIZE || rateLimited ==> res == Success
    {
      hide CounterOk, LogOk, Uses, Reseed;
      if pool0Length < MIN_POOL_SIZE {
        return Success;
      }
      if rateLimited {
        return Success;
      }
      res := ReseedNow();
    }

    /** The reseed proper. */
    method ReseedNow() returns (res: TeeResult)
      requires CounterOk() && LogOk() && Uses(log, epoch) == 0 && |pools| == NUM_POOLS
      modifies `calls, `pools, `pool0Length, `reseedCount, `key, `epoch, `counter0, `counter1, `ticks
      ensures CounterOk() && LogOk() && |pools| == NUM_POOLS && Uses(log, epoch) == 0 && (res == Success || res == CryptoError)
      ensures res == Success ==> Model() == Reseed(hash, old(Model()))
      ensures res == Success && (forall n | 0 <= n < NUM_POOLS :: |hash(old(pools)[n])| == 32) ==>
                exists seed, k :: InOrder(hash, old(pools), k, seed) && key == hash(seed)
                                  && forall n | 0 <= n < NUM_POOLS :: n < k <==> Divides(n, reseedCount)
    {
      hide CounterOk, LogOk, Uses, Reseed, Divides, Digests, InOrder;
      reseedCount := (reseedCount + 1) % TWO32;
      var failed := Call();
      if failed {
        return CryptoError;
      }
      var seed;
      ghost var k;
      res, seed, k := DrainPools(reseedCount);
      if res != Success {
        return;
      }
      failed := Call();
      if failed {
        return CryptoError;
      }
      failed := Call();
      if failed {
        return CryptoError;
      }
      TickWithNewKey(hash(seed));
      ReseedIs(old(Model()), k, Model());
      return Success;
    }

    method TickWithNewKey(k: Octets)
      requires CounterOk() && LogOk()
      modifies `key, `epoch, `counter0, `counter1, `ticks
      ensures CounterOk() && LogOk() && key == k && Uses(log, epoch) == 0 && ticks == old(ticks) + 1
    {
      hide CounterOk, Ordered, Uses, Within, Past;
      NewKey(k);
      TickKeepsLog(log, ticks);
      IncCounter();
    }

    /** A reseed that went through: exactly the pools whose power of two divides the new count were drained, each
        goes on from its own digest, and the digests in order make the new key. */
    lemma ReseedIs(g: Gen, k: nat, r: Gen)
      requires Shaped(g) && r.count == (g.count + 1) % TWO32 && r.ticks == g.ticks + 1
      requires k <= NUM_POOLS && forall n | 0 <= n < NUM_POOLS :: n < k <==> Divides(n, r.count)
      requires |r.pools.contents| == NUM_POOLS && r.pools.length0 == 0
      requires forall n | 0 <= n < NUM_POOLS :: r.pools.contents[n] == if n < k then hash(g.pools.contents[n]) else g.pools.contents[n]
      requires r.key == hash(Digests(hash, g.pools.contents, k))
      ensures r == Reseed(hash, g)
    {
      hide Divides, Digests, DuePools;
      DueIs(r.count, 0, k);
      assert r.pools.contents == Restarted(hash, g.pools.contents, k);
    }

    /** crypto_cipher_init() with a new key. */
    method NewKey(k: Octets)
      requires LogOk()
      modifies `key, `epoch
      ensures LogOk() && key == k && Uses(log, epoch) == 0 && epoch == old(epoch) + 1
    {
      FreshEpoch(log, epoch);
      key, epoch := k, epoch + 1;
    }

    // ---------- events ----------

    /** add_event() */
    method AddEvent(ev: Event) returns (res: TeeResult)
      requires |pools| == NUM_POOLS
      modifies `calls, `pools, `pool0Length
      ensures |pools| == NUM_POOLS
      ensures res == BadParameters <==> ev.pnum >= NUM_POOLS
      ensures res == BadParameters ==> pools == old(pools) && pool0Length == old(pool0Length)
      ensures res == Success ==> ev.pnum < NUM_POOLS
                                 && Pools(pools, pool0Length) == Absorbed(Pools(old(pools), old(pool0Length)), ev)
    {
      hide Header;
      var dl := if |ev.data| <= MAX_EVENT_DATA_LEN then |ev.data| else MAX_EVENT_DATA_LEN;
      if ev.pnum >= NUM_POOLS {
        return BadParameters;
      }
      var failed := Call();
      if failed {
        return CryptoError;
      }
      var header := Header(ev.snum, dl);
      pools := pools[ev.pnum := pools[ev.pnum] + header];
      failed := Call();
      if failed {
        return CryptoError;
      }
      assert old(pools)[ev.pnum] + header + ev.data[..dl] == old(pools)[ev.pnum] + Recorded(ev);
      pools := pools[ev.pnum := pools[ev.pnum] + ev.data[..dl]];
      if ev.pnum == 0 && pool0Length + dl < TWO32 {
        pool0Length := pool0Length + dl;
      }
      return Success;
    }

    /** drain_ring_buffer(), given what the ring yields before it is empty. */
    method DrainRing(events: seq<Event>) returns (res: TeeResult)
      requires |pools| == NUM_POOLS
      modifies `calls, `pools, `pool0Length
      ensures |pools| == NUM_POOLS
      ensures res == Success ==> Pools(pools, pool0Length) == Drained(Pools(old(pools), old(pool0Length)), events)
      ensures res == BadParameters ==> exists i :: 0 <= i < |events| && events[i].pnum >= NUM_POOLS
    {
      hide Absorbed;
      ghost var start := Pools(pools, pool0Length);
      assert events[0..] == events;
      for i := 0 to |events|
        invariant |pools| == NUM_POOLS && Drained(start, events) == Drained(Pools(pools, pool0Length), events[i..])
      {
        assert events[i..][1..] == events[i + 1..];
        if events[i].data == [] {
          return Success;
        }
        res := AddEvent(events[i]);
        if res != Success {
          return;
        }
      }
      return Success;
    }

    // ---------- reading ----------

    /** The part of fortuna_read() that draws on the key: output, then two blocks for the next key. */
    method Draw(blen: nat) returns (res: TeeResult, out: Octets)
      requires CounterOk() && LogOk() && Uses(log, epoch) == 0 && 0 < blen <= SIZE_1M
      modifies `calls, `key, `epoch, `counter0, `counter1, `ticks, `log
      ensures CounterOk() && LogOk() && (res == Success ==> Uses(log, epoch) == 0) && (res == Success || res == CryptoError)
      ensures var n := (blen + 15) / 16;
              res == Success ==> && out == Stream(encrypt, old(key), old(ticks), n)[..blen]
                                 && key == Stream(encrypt, old(key), old(ticks) + n, 2)
                                 && ticks == old(ticks) + n + 2
    {
      hide CounterOk, LogOk, Uses, Stream;
      res, out := GenerateRandomData(blen);
      if res != Success {
        return;
      }
      var newKey;
      res, newKey := GenerateBlocks(2);
      if res != Success {
        return;
      }
      var failed := Call();
      if failed {
        return CryptoError, out;
      }
      NewKey(newKey);
    }

    /** fortuna_read() */
    method FortunaRead(blen: nat, env: Env) returns (res: TeeResult, out: Octets)
      requires Valid() && blen <= SIZE_1M
      modifies this
      ensures Valid()
      ensures !old(ready) ==> res == BadState && !ready && log == old(log)
      ensures old(ready) ==> (ready <==> res == Success)
      ensures res == Success ==> out == PartBytes(encrypt, PartOf(hash, old(Model()), blen, env))
      ensures res == Success ==> Model() == AfterRead(hash, encrypt, old(Model()), blen, env)
    {
      hide CounterOk, LogOk, Uses, Stream, Refreshed, Drained;
      out := [];
      if !ready {
        return BadState, out;
      }
      res := MaybeReseed(env.rateLimited);
      if res == Success && blen > 0 {
        res, out := Draw(blen);
      }
      if res == Success {
        res := DrainRing(env.events);
      }
      if res != Success {
        ready := false;
      }
    }

    /** crypto_rng_read(): at most 1 MiB on one key. */
    method RngRead(blen: nat, env: nat -> Env) returns (res: TeeResult, out: Octets)
      requires Valid()
      modifies this
      ensures Valid() && (res == Success ==> |out| == blen)
      ensures res == Success ==> out == Output(encrypt, Parts(hash, encrypt, old(Model()), blen, env, 0))
      ensures res == Success ==> Model() == AfterAll(hash, encrypt, old(Model()), blen, env, 0)
      ensures !old(ready) && blen > 0 ==> res == BadState && log == old(log)
      ensures !old(ready) ==> !ready
      ensures old(ready) ==> (ready <==> res == Success)
    {
      hide CounterOk, LogOk, Uses, Stream, AfterRead, PartOf, PartBytes;
      out := [];
      var round := 0;
      ghost var start := Model();
      while true
        invariant Valid() && |out| <= blen && (old(ready) ==> ready) && (!old(ready) ==> !ready && out == [] && log == old(log))
        invariant Output(encrypt, Parts(hash, encrypt, start, blen, env, 0))
                  == out + Output(encrypt, Parts(hash, encrypt, Model(), blen - |out|, env, round))
        invariant AfterAll(hash, encrypt, start, blen, env, 0) == AfterAll(hash, encrypt, Model(), blen - |out|, env, round)
        decreases blen - |out|
      {
        var n := Chunk(blen - |out|);
        if n == 0 {
          assert out + [] == out;
          return Success, out;
        }
        ghost var g := Model();
        var part;
        res, part := FortunaRead(n, env(round));
        if res != Success {
          return;
        }
        NextPart(hash, encrypt, g, blen - |out|, env, round, part, out);
        out := out + part;
        round := round + 1;
      }
    }

    // ---------- initialisation ----------

    /** The pools' contexts in crypto_rng_init(): an allocation and an initialisation each. */
    method InitPools() returns (ok: bool)
      modifies `calls, `pools
      ensures pools == NoEvents()
    {
      pools := NoEvents();
      for n := 0 to NUM_POOLS
        invariant pools == NoEvents()
      {
        var failed := Call();
        if failed {
          return false;
        }
        failed := Call();
        if failed {
          return false;
        }
      }
      return true;
    }

    /** The remaining fallible calls of crypto_rng_init(): contexts, hash of the seed, cipher. */
    method InitCalls() returns (ok: bool)
      modifies `calls
    {
      ok := true;
      for n := 0 to 6 {
        var failed := Call();
        if failed {
          return false;
        }
      }
    }

    /** memset() of the state. */
    method Clear()
      modifies `key, `counter0, `counter1, `pool0Length, `reseedCount, `ticks, `epoch, `log
      ensures CounterOk() && LogOk() && ticks == 0 && log == [] && reseedCount == 0 == pool0Length && Uses(log, epoch) == 0
    {
      key, counter0, counter1, pool0Length, reseedCount := [], 0, 0, 0, 0;
      ticks, epoch, log := 0, 0, [];
    }

    /** crypto_rng_init() */
    method Init(data: Octets) returns (res: TeeResult)
      requires Valid()
      modifies this
      ensures Valid()
      ensures old(ready) ==> res == BadState && ready && log == old(log) && key == old(key) && ticks == old(ticks)
      ensures !old(ready) ==> (ready <==> res == Success)
      ensures !old(ready) && res == Success ==> log == [] && Model() == Gen(hash(data), 1, Pools(NoEvents(), 0), 0)
    {
      hide CounterOk, Uses, Within, Past;
      if ready {
        return BadState;
      }
      Clear();
      var ok := InitPools();
      if !ok {
        return CryptoError;
      }
      ok := InitCalls();
      if !ok {
        return CryptoError;
      }
      key := hash(data);
      IncCounter();
      ready := true;
      return Success;
    }
  }

  datatype Op = Read(blen: nat, env: nat -> Env) | Add(event: Event, ring: seq<Event>)

  /** Any run of reads and events after one initialisation, with any pattern of failures. As long as the
      counter has not gone round, no counter value was encrypted twice; no key encrypted more than 65538
      blocks; and after a read that failed every later one is refused. */
  method Run(g: Generator, data: Octets, ops: seq<Op>) returns (results: seq<TeeResult>)
    requires g.Valid() && !g.ready
    modifies g
    ensures g.Valid() && |results| == |ops|
    ensures g.ticks <= TWO128 ==> forall i, j | 0 <= i < j < |g.log| :: g.log[i].tick % TWO128 != g.log[j].tick % TWO128
    ensures forall epoch: nat :: Uses(g.log, epoch) <= MAX_BLOCKS_PER_KEY
    ensures forall i, j | 0 <= i < j < |ops| && ops[i].Read? && ops[j].Read? && results[i] != Success && ops[j].blen > 0 ::
              results[j] == BadState
  {
    hide Generator.CounterOk, Generator.LogOk, Uses;
    results := [];
    var res := g.Init(data);
    for n := 0 to |ops|
      invariant g.Valid() && |results| == n
      invariant forall i | 0 <= i < n && ops[i].Read? && results[i] != Success :: !g.ready
      invariant forall i, j | 0 <= i < j < n && ops[i].Read? && ops[j].Read? && results[i] != Success && ops[j].blen > 0 ::
                  results[j] == BadState
    {
      match ops[n]
      case Read(blen, env) =>
        var out;
        res, out := g.RngRead(blen, env);
        results := results + [res];
      case Add(event, ring) =>
        if g.ready {
          res := g.AddEvent(event);
          res := g.DrainRing(ring);
        }
        results := results + [Success];
    }
    LogFacts(g);
  }

  lemma NextPart(hash: Hash, e: Encryption, g: Gen, left: nat, env: nat -> Env, round: nat, part: Octets, out: Octets)
    requires Shaped(g) && left > 0 && part == PartBytes(e, PartOf(hash, g, Chunk(left), env(round)))
    ensures var n, g' := Chunk(left), AfterRead(hash, e, g, Chunk(left), env(round));
            && |part| == n
            && out + Output(e, Parts(hash, e, g, left, env, round)) == out + part + Output(e, Parts(hash, e, g', left - n, env, round + 1))
            && AfterAll(hash, e, g, left, env, round) == AfterAll(hash, e, g', left - n, env, round + 1)
  {
    hide PartBytes, AfterRead, PartOf;
    var n := Chunk(left);
    var p := PartOf(hash, g, n, env(round));
    PartLength(hash, g, n, env(round));
    var rest := Parts(hash, e, AfterRead(hash, e, g, n, env(round)), left - n, env, round + 1);
    assert ([p] + rest)[1..] == rest;
  }

  lemma PartLength(hash: Hash, g: Gen, len: nat, env: Env)
    requires Shaped(g)
    ensures PartOf(hash, g, len, env).len == len
  {
  }

  lemma LogFacts(g: Generator)
    requires g.LogOk()
    ensures g.ticks <= TWO128 ==> forall i, j | 0 <= i < j < |g.log| :: g.log[i].tick % TWO128 != g.log[j].tick % TWO128
    ensures forall epoch: nat :: Uses(g.log, epoch) <= MAX_BLOCKS_PER_KEY
  {
    if g.ticks <= TWO128 {
      NoCounterTwice(g.log, g.ticks);
    }
  }
}

/** What a look-up of ldelf/ta_elf_rel.c answers, in terms of the symbols themselves. */
module Lookups {
  import opened Arithmetic
  import opened Symbols
  import opened Resolve

  /** The symbol goes by this name and has a binding that is looked for. */
  predicate Named(s: Symbol, name: Name, weakOk: bool) {
    s.stName > 0 && s.name == name && (s.bind == Global || (weakOk && s.bind == Weak))
  }

  /** And it stands for something: it is defined, or weak and undefined. */
  predicate Hits(s: Symbol, name: Name, weakOk: bool) {
    Named(s, name, weakOk) && (s.shndx == Defined || (s.bind == Weak && s.shndx == Undefined))
  }

  predicate HasAddress(s: Symbol) {
    s.typ == NoType || s.typ == Object || s.typ == Func
  }

  /** Zero for a weak undefined symbol, the offset for a thread-local one, and otherwise the address in the
      module, which does not lie beyond its end. */
  predicate Stands(elf: Image, s: Symbol, v: nat) {
    if s.shndx == Undefined then s.bind == Weak && v == 0
    else if s.typ == Tls then v == s.value
    else HasAddress(s) && v == s.value + elf.loadAddr && v <= elf.maxAddr
  }

  /** The two errors: a type that is not supported, and an address beyond the end of the module. */
  predicate Offends(elf: Image, s: Symbol) {
    s.shndx == Defined && (s.typ == OtherType || (HasAddress(s) && s.value + elf.loadAddr > elf.maxAddr))
  }

  lemma CompareIs(elf: Image, s: Symbol, name: Name, weakOk: bool)
    requires s.stName <= elf.dynstrSize
    ensures match SymCompare(elf, s, name, weakOk)
            case NoMatch => !Hits(s, name, weakOk)
            case Match(v) => Hits(s, name, weakOk) && Stands(elf, s, v)
            case Fatal => Hits(s, name, weakOk) && Offends(elf, s)
  {
  }

  lemma OneAnswer(elf: Image, s: Symbol, v: nat, w: nat)
    requires Stands(elf, s, v)
    ensures !Offends(elf, s) && (Stands(elf, s, w) ==> v == w)
  {
  }

  // ---------- the first hit of a list ----------

  ghost predicate InTable(elf: Image, l: seq<nat>) {
    forall i | 0 <= i < |l| :: l[i] < |elf.syms| && elf.syms[l[i]].stName <= elf.dynstrSize
  }

  /** The k-th of these symbols is the first that hits. */
  ghost predicate FirstHit(elf: Image, l: seq<nat>, name: Name, weakOk: bool, k: nat)
    requires InTable(elf, l)
  {
    && k < |l| && Hits(elf.syms[l[k]], name, weakOk)
    && forall j | 0 <= j < k :: !Hits(elf.syms[l[j]], name, weakOk)
  }

  /** An outcome that the symbols of l account for. */
  ghost predicate Accounts(elf: Image, l: seq<nat>, name: Name, weakOk: bool, out: Outcome)
    requires InTable(elf, l)
  {
    match out
    case NotFound => forall j | 0 <= j < |l| :: !Hits(elf.syms[l[j]], name, weakOk)
    case Found(n, v) => exists k: nat | FirstHit(elf, l, name, weakOk, k) :: l[k] == n && Stands(elf, elf.syms[n], v)
    case Abort => exists k: nat | FirstHit(elf, l, name, weakOk, k) :: Offends(elf, elf.syms[l[k]])
  }

  /** The answer of the first symbol, or that of the others. */
  lemma AccountsStep(elf: Image, l: seq<nat>, name: Name, weakOk: bool, rest: Outcome)
    requires InTable(elf, l) && l != [] && InTable(elf, l[1..]) && Accounts(elf, l[1..], name, weakOk, rest)
    ensures Accounts(elf, l, name, weakOk, match SymCompare(elf, elf.syms[l[0]], name, weakOk)
                                           case NoMatch => rest
                                           case Match(v) => Found(l[0], v)
                                           case Fatal => Abort)
  {
    hide SymCompare, Hits, Stands, Offends;
    CompareIs(elf, elf.syms[l[0]], name, weakOk);
    match SymCompare(elf, elf.syms[l[0]], name, weakOk)
    case Match(v) =>
      assert FirstHit(elf, l, name, weakOk, 0);
    case Fatal =>
      assert FirstHit(elf, l, name, weakOk, 0);
    case NoMatch =>
      NextHit(elf, l, name, weakOk, rest);
  }

  lemma NextHit(elf: Image, l: seq<nat>, name: Name, weakOk: bool, out: Outcome)
    requires InTable(elf, l) && l != [] && InTable(elf, l[1..]) && Accounts(elf, l[1..], name, weakOk, out)
    requires !Hits(elf.syms[l[0]], name, weakOk)
    ensures Accounts(elf, l, name, weakOk, out)
  {
    hide Hits, Stands, Offends;
    if out != NotFound {
      var k: nat :| FirstHit(elf, l[1..], name, weakOk, k)
                    && (out.Found? ==> l[1..][k] == out.n && Stands(elf, elf.syms[out.n], out.val))
                    && (out.Abort? ==> Offends(elf, elf.syms[l[1..][k]]));
      forall j | 0 <= j < k + 1
        ensures !Hits(elf.syms[l[j]], name, weakOk)
      {
        if j > 0 {
          assert l[1..][j - 1] == l[j];
        }
      }
      assert l[1..][k] == l[k + 1];
      assert FirstHit(elf, l, name, weakOk, k + 1);
    } else {
      forall j | 0 <= j < |l|
        ensures !Hits(elf.syms[l[j]], name, weakOk)
      {
        if j > 0 {
          assert l[1..][j - 1] == l[j];
        }
      }
    }
  }

  /** The symbols account for one outcome only. */
  lemma AccountsOnce(elf: Image, l: seq<nat>, name: Name, weakOk: bool, a: Outcome, b: Outcome)
    requires InTable(elf, l) && Accounts(elf, l, name, weakOk, a) && Accounts(elf, l, name, weakOk, b)
    ensures a == b
  {
    hide Hits, Stands, Offends;
    if a != NotFound && b != NotFound {
      var i: nat :| FirstHit(elf, l, name, weakOk, i)
                    && (a.Found? ==> l[i] == a.n && Stands(elf, elf.syms[a.n], a.val))
                    && (a.Abort? ==> Offends(elf, elf.syms[l[i]]));
      var j: nat :| FirstHit(elf, l, name, weakOk, j)
                    && (b.Found? ==> l[j] == b.n && Stands(elf, elf.syms[b.n], b.val))
                    && (b.Abort? ==> Offends(elf, elf.syms[l[j]]));
      assert i == j;
      if a.Found? {
        OneAnswer(elf, elf.syms[a.n], a.val, if b.Found? then b.val else 0);
      } else if b.Found? {
        OneAnswer(elf, elf.syms[b.n], b.val, 0);
      }
    }
  }

  // ---------- look-ups ----------

  /** The numbers from m up to n. */
  function Range(m: nat, n: nat): (l: seq<nat>)
    requires m <= n
    ensures |l| == n - m && forall i | 0 <= i < |l| :: l[i] == m + i
  {
    seq(n - m, i => m + i)
  }

  /** The symbols of a module that can answer to a name, in the order in which they are looked at: with DT_GNU_HASH
      all from symoffset on, with DT_HASH the chain of the name's bucket. */
  ghost function Order(e: Elf, name: Name): (l: seq<nat>)
    requires Sound(e)
    ensures InTable(e.image, l)
  {
    hide ElfHash;
    match e.table
    case Gnu(h, _) => OrderGnu(e.image, h); Range(h.symoffset, |e.image.syms|)
    case Sysv(t) => OrderSysv(e.image, t, name); ChainOf(t, SysvBucket(t, name))
    case NoTable => []
  }

  lemma OrderGnu(elf: Image, h: GnuTable)
    requires WellFormed(elf, h)
    ensures h.symoffset <= |elf.syms| && InTable(elf, Range(h.symoffset, |elf.syms|))
  {
  }

  lemma OrderSysv(elf: Image, t: SysvTable, name: Name)
    requires SysvWellFormed(elf, t)
    ensures InTable(elf, ChainOf(t, SysvBucket(t, name)))
  {
    hide ElfHash;
    var l := ChainOf(t, SysvBucket(t, name));
    forall i | 0 <= i < |l|
      ensures l[i] < |elf.syms|
    {
      assert l[i] in l;
    }
  }

  lemma {:induction false} ScanAccounts(elf: Image, name: Name, weakOk: bool, n: nat)
    requires n <= |elf.syms| && InTable(elf, Range(n, |elf.syms|))
    ensures Accounts(elf, Range(n, |elf.syms|), name, weakOk, Scan(elf, name, weakOk, n))
    decreases |elf.syms| - n
  {
    hide SymCompare, Accounts;
    var l := Range(n, |elf.syms|);
    if n < |elf.syms| {
      assert l[1..] == Range(n + 1, |elf.syms|);
      ScanAccounts(elf, name, weakOk, n + 1);
      AccountsStep(elf, l, name, weakOk, Scan(elf, name, weakOk, n + 1));
    } else {
      NothingThere(elf, l, name, weakOk);
    }
  }

  lemma NothingThere(elf: Image, l: seq<nat>, name: Name, weakOk: bool)
    requires l == []
    ensures InTable(elf, l) && Accounts(elf, l, name, weakOk, NotFound)
  {
  }

  lemma {:induction false} WalkAccounts(elf: Image, t: SysvTable, name: Name, weakOk: bool, l: seq<nat>)
    requires InTable(elf, l) && |t.chain| == |elf.syms|
    ensures Accounts(elf, l, name, weakOk, Walk(elf, t, name, weakOk, l))
    decreases l
  {
    hide SymCompare, Accounts;
    if l != [] {
      assert InTable(elf, l[1..]);
      WalkAccounts(elf, t, name, weakOk, l[1..]);
      AccountsStep(elf, l, name, weakOk, Walk(elf, t, name, weakOk, l[1..]));
    } else {
      NothingThere(elf, l, name, weakOk);
    }
  }

  lemma LookupAccounts(e: Elf, name: Name, weakOk: bool)
    requires Sound(e)
    ensures Accounts(e.image, Order(e, name), name, weakOk, Lookup(e, name, weakOk))
  {
    hide Accounts, ElfHash, ChainOf, Walk, Scan;
    match e.table
    case Gnu(h, _) =>
      OrderGnu(e.image, h);
      ScanAccounts(e.image, name, weakOk, h.symoffset);
    case Sysv(t) =>
      OrderSysv(e.image, t, name);
      WalkAccounts(e.image, t, name, weakOk, ChainOf(t, SysvBucket(t, name)));
    case NoTable =>
      NothingThere(e.image, [], name, weakOk);
  }

  /** A look-up answers with symbol n and the value v if and only if n is the first symbol in order that has the name,
      an allowed binding and something to stand for, and v is what it stands for. */
  lemma FoundIff(e: Elf, name: Name, weakOk: bool, n: nat, v: nat)
    requires Sound(e)
    ensures Lookup(e, name, weakOk) == Found(n, v)
            <==> exists k: nat | FirstHit(e.image, Order(e, name), name, weakOk, k) ::
                   Order(e, name)[k] == n && Stands(e.image, e.image.syms[n], v)
  {
    hide Lookup, Sound, Order, FirstHit, Stands;
    LookupAccounts(e, name, weakOk);
    if Accounts(e.image, Order(e, name), name, weakOk, Found(n, v)) {
      AccountsOnce(e.image, Order(e, name), name, weakOk, Lookup(e, name, weakOk), Found(n, v));
    }
  }

  /** It fails for good if and only if that symbol has an unsupported type or lies beyond the module. */
  lemma AbortIff(e: Elf, name: Name, weakOk: bool)
    requires Sound(e)
    ensures Lookup(e, name, weakOk) == Abort
            <==> exists k: nat | FirstHit(e.image, Order(e, name), name, weakOk, k) ::
                   Offends(e.image, e.image.syms[Order(e, name)[k]])
  {
    hide Lookup, Sound, Order, FirstHit, Offends;
    LookupAccounts(e, name, weakOk);
    if Accounts(e.image, Order(e, name), name, weakOk, Abort) {
      AccountsOnce(e.image, Order(e, name), name, weakOk, Lookup(e, name, weakOk), Abort);
    }
  }

  /** The symbols that a look-up can find at all. */
  predicate Listed(e: Elf, n: nat) {
    n < |e.image.syms| && match e.table
                          case Gnu(h, _) => h.symoffset <= n
                          case Sysv(_) => 1 <= n
                          case NoTable => false
  }

  /** Whichever table is used, the order has every symbol of the name that is listed, and only listed ones. */
  lemma OrderHasAll(e: Elf, name: Name, n: nat)
    requires Sound(e)
    ensures n in Order(e, name) ==> Listed(e, n)
    ensures Listed(e, n) && e.image.syms[n].name == name ==> n in Order(e, name)
  {
    hide ElfHash;
    match e.table
    case Gnu(h, _) =>
      if Listed(e, n) {
        assert Order(e, name)[n - h.symoffset] == n;
      }
    case Sysv(t) =>
      OrderSysv(e.image, t, name);
    case NoTable =>
  }

  /** It finds nothing if and only if no listed symbol hits. */
  lemma NotFoundIff(e: Elf, name: Name, weakOk: bool)
    requires Sound(e)
    ensures Lookup(e, name, weakOk) == NotFound
            <==> forall n: nat | Listed(e, n) :: !Hits(e.image.syms[n], name, weakOk)
  {
    hide Lookup, Sound, Order, FirstHit, Listed;
    LookupAccounts(e, name, weakOk);
    ListedInTable(e);
    var l := Order(e, name);
    if forall n: nat | Listed(e, n) :: !Hits(e.image.syms[n], name, weakOk) {
      forall j | 0 <= j < |l|
        ensures !Hits(e.image.syms[l[j]], name, weakOk)
      {
        OrderHasAll(e, name, l[j]);
      }
      AccountsOnce(e.image, l, name, weakOk, Lookup(e, name, weakOk), NotFound);
    } else {
      ListedHit(e, name, weakOk);
    }
  }

  lemma ListedHit(e: Elf, name: Name, weakOk: bool)
    requires Sound(e) && exists n: nat | Listed(e, n) :: Hits(e.image.syms[n], name, weakOk)
    ensures exists j | 0 <= j < |Order(e, name)| :: Hits(e.image.syms[Order(e, name)[j]], name, weakOk)
  {
    hide Sound, Order, Listed;
    ListedInTable(e);
    var n: nat :| Listed(e, n) && Hits(e.image.syms[n], name, weakOk);
    OrderHasAll(e, name, n);
    var j :| 0 <= j < |Order(e, name)| && Order(e, name)[j] == n;
  }

  lemma ListedInTable(e: Elf)
    ensures forall n: nat | Listed(e, n) :: n < |e.image.syms|
  {
  }

  /** A symbol that is alone with its name and binding is found, with its address, its offset or zero. */
  lemma OnlyOne(e: Elf, name: Name, weakOk: bool, n: nat, v: nat)
    requires Sound(e) && Listed(e, n) && Hits(e.image.syms[n], name, weakOk) && Stands(e.image, e.image.syms[n], v)
    requires forall m: nat | Listed(e, m) && m != n :: !Hits(e.image.syms[m], name, weakOk)
    ensures Lookup(e, name, weakOk) == Found(n, v)
  {
    hide Lookup, Sound, Order, Listed, Stands;
    OrderHasAll(e, name, n);
    var l := Order(e, name);
    var k := FirstIndex(l, n);
    forall j | 0 <= j < k
      ensures !Hits(e.image.syms[l[j]], name, weakOk)
    {
      OrderHasAll(e, name, l[j]);
    }
    assert FirstHit(e.image, l, name, weakOk, k);
    FoundIff(e, name, weakOk, n, v);
  }

  lemma {:induction false} FirstIndex(l: seq<nat>, n: nat) returns (k: nat)
    requires n in l
    ensures k < |l| && l[k] == n && forall j | 0 <= j < k :: l[j] != n
  {
    if l[0] == n {
      k := 0;
    } else {
      var i := FirstIndex(l[1..], n);
      k := i + 1;
      forall j | 0 <= j < k
        ensures l[j] != n
      {
        if j > 0 {
          assert l[1..][j - 1] == l[j];
        }
      }
    }
  }

  // ---------- over all modules ----------

  /** The first module that is not silent answers, with a global symbol if it has one. */
  lemma {:induction false} FirstModuleIs(es: seq<Elf>, name: Name, i: nat)
    requires AllSound(es) && i < |es| && forall j | 0 <= j < i :: Silent(es[j], name)
    ensures Lookup(es[i], name, false) != NotFound ==> FirstModule(es, name) == Resolved(es[i], Lookup(es[i], name, false))
    ensures Lookup(es[i], name, false) == NotFound && Lookup(es[i], name, true) != NotFound
            ==> FirstModule(es, name) == Resolved(es[i], Lookup(es[i], name, true))
    decreases i
  {
    hide Lookup, Sound;
    if i > 0 {
      assert Silent(es[0], name);
      FirstModuleIs(es[1..], name, i - 1);
    }
  }

  lemma {:induction false} UnresolvedIff(es: seq<Elf>, name: Name)
    requires AllSound(es)
    ensures FirstModule(es, name) == Unresolved <==> forall e | e in es :: Silent(e, name)
  {
    hide Lookup, Sound;
    if es != [] {
      assert forall e :: e in es <==> e == es[0] || e in es[1..];
      UnresolvedIff(es[1..], name);
      if Silent(es[0], name) {
        assert FirstModule(es, name) == FirstModule(es[1..], name);
      } else {
        assert FirstModule(es, name) != Unresolved;
      }
    }
  }

  // ---------- the hash functions ----------

  /** The top four bits are cleared and added to bits 4 to 7. */
  function Cleared(t: bv32): bv32 {
    if t & 0xf0000000 == 0 then t else (t & 0x0fffffff) ^ ((t >> 28) << 4)
  }

  lemma FoldedIs(t: bv32)
    ensures Folded(t) == Cleared(t)
  {
    hide Folded;
    if t & 0xf0000000 == 0 {
      FoldedLow(t);
    } else {
      FoldedHigh(t);
    }
  }

  /** 16 h + c in 32 bits. */
  function Shifted(h: bv32, c: bv8): bv32 {
    (h << 4) + (c as bv32)
  }

  lemma StepClears(h: bv32, c: bv8)
    ensures ElfHashStep(h, c) == Cleared(Shifted(h, c))
  {
    hide Folded, Cleared;
    FoldedIs(Shifted(h, c));
  }

  lemma StepLast(name: Name, c: bv8)
    ensures ElfHash([]) == 0 && ElfHash(name + [c]) == ElfHashStep(ElfHash(name), c)
  {
    hide ElfHashStep;
    assert (name + [c])[..|name|] == name;
  }

  /** elf_hash(), character by character. */
  lemma ElfHashIs(name: Name, c: bv8)
    ensures ElfHash([]) == 0 && ElfHash(name + [c]) == Cleared(Shifted(ElfHash(name), c))
  {
    hide ElfHash, ElfHashStep, Cleared, Shifted;
    StepLast(name, c);
    StepClears(ElfHash(name), c);
  }

  /** gnu_hash(), character by character. */
  lemma GnuHashIs(name: Name, c: bv8)
    ensures GnuHash([]) == 5381 && GnuHash(name + [c]) == (GnuHash(name) * 33 + c as nat) % 0x1_0000_0000
  {
    assert (name + [c])[..|name|] == name;
  }

  // ---------- instances ----------

  function Word(a: nat, b: nat): seq<bool> {
    seq(32, i => i == a || i == b)
  }

  /** The filter for the hash of "f" and a shift of 6 asks for the bits 11 and 24, and for both of them. */
  lemma BloomNeedsBoth(b: seq<nat>, c: seq<nat>)
    requires |b| > 0
    ensures GnuHash([102]) == 177675
    ensures BloomPasses(GnuTable(0, 6, 32, [Word(11, 24)], b, c), 177675)
    ensures !BloomPasses(GnuTable(0, 6, 32, [Word(11, 11)], b, c), 177675)
    ensures !BloomPasses(GnuTable(0, 6, 32, [Word(24, 24)], b, c), 177675)
  {
    var name: Name := [102];
    assert name[..0] == [];
    assert Pow2(6) == 64;
  }

  /** A module with a DT_HASH table and the data symbol "f" at offset 8. */
  function SysvSingle(): Elf {
    Elf(Image([Symbol(0, [], Local, NoType, Undefined, 0), Symbol(1, [102], Global, Object, Defined, 8)], 2, 0x1000, 0x2000),
        Sysv(SysvTable([1], [0, 0])))
  }

  lemma Follows(t: SysvTable, start: nat, l: seq<nat>, i: nat)
    requires ChainList(t, start, l) && i + 1 < |l|
    ensures l[i] < |t.chain| && t.chain[l[i]] == l[i + 1] > 0
  {
  }

  lemma OnlyLink(t: SysvTable, l: seq<nat>)
    requires |t.chain| == 2 && t.chain[1] == 0 && ChainList(t, 1, l)
    ensures l == [1]
  {
    if |l| > 1 {
      Follows(t, 1, l, 0);
      assert false;
    }
  }

  lemma SysvSingleSound()
    ensures Sound(SysvSingle())
  {
    hide ElfHash;
    var t := SysvSingle().table.t;
    assert ChainList(t, t.bucket[0], [1]);
    OnlyLink(t, ChainOf(t, 0));
  }

  lemma SysvSingleFound()
    ensures Sound(SysvSingle()) && Lookup(SysvSingle(), [102], false) == Found(1, 0x1008)
  {
    hide Sound, Lookup;
    SysvSingleSound();
    OnlyOne(SysvSingle(), [102], false, 1, 0x1008);
  }
}

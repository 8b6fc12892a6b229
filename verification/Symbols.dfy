/** Symbol resolution of ldelf (ldelf/ta_elf_rel.c): hashed look-ups against a linear scan. */
module Symbols {
  import opened Arithmetic

  type Name = seq<bv8>

  // ---------- the hash functions ----------

  function GnuHash(name: Name): (h: nat)
    ensures h < TWO32
  {
    if name == [] then 5381
    else (GnuHash(name[..|name| - 1]) * 33 + name[|name| - 1] as nat) % TWO32
  }

  lemma ShiftAdd(h: nat, c: nat)
    ensures (h * 32 % TWO32 + h + c) % TWO32 == (h * 33 + c) % TWO32
  {
  }

  /** gnu_hash(): (h << 5) + h + c in 32 bits. */
  method ComputeGnuHash(name: Name) returns (h: nat)
    ensures h == GnuHash(name)
  {
    h := 5381;
    assert name[..0] == [];
    for i := 0 to |name|
      invariant h == GnuHash(name[..i])
    {
      assert name[..i + 1][..i] == name[..i];
      ShiftAdd(h, name[i] as nat);
      h := (h * 32 % TWO32 + h + name[i] as nat) % TWO32;
    }
    assert name[..|name|] == name;
  }

  /** One character of the System V ABI hash: the top four bits are folded back and cleared. */
  function ElfHashStep(h: bv32, c: bv8): (r: bv32)
    ensures r & 0xf0000000 == 0
  {
    Folded((h << 4) + (c as bv32))
  }

  function Folded(t: bv32): (r: bv32)
    ensures r & 0xf0000000 == 0
  {
    var g := t & 0xf0000000;
    (if g != 0 then t ^ (g >> 24) else t) & !g
  }

  lemma FoldedHigh(t: bv32)
    requires t & 0xf0000000 != 0
    ensures Folded(t) == (t & 0x0fffffff) ^ ((t >> 28) << 4)
  {
  }

  lemma FoldedLow(t: bv32)
    requires t & 0xf0000000 == 0
    ensures Folded(t) == t
  {
  }

  function ElfHash(name: Name): (h: bv32)
    ensures h & 0xf0000000 == 0
  {
    if name == [] then 0 else ElfHashStep(ElfHash(name[..|name| - 1]), name[|name| - 1])
  }

  /** elf_hash() */
  method ComputeElfHash(name: Name) returns (h: bv32)
    ensures h == ElfHash(name)
  {
    hide ElfHashStep;
    h := 0;
    assert name[..0] == [];
    for i := 0 to |name|
      invariant h == ElfHash(name[..i])
    {
      assert name[..i + 1][..i] == name[..i];
      h := ElfHashStep(h, name[i]);
    }
    assert name[..|name|] == name;
  }

  // ---------- symbols ----------

  datatype Bind = Local | Global | Weak | OtherBind
  datatype SymType = NoType | Object | Func | Tls | OtherType
  datatype Section = Undefined | Extended | Defined

  /** A dynamic symbol, with the string that its st_name refers to. */
  datatype Symbol = Symbol(stName: nat, name: Name, bind: Bind, typ: SymType, shndx: Section, value: nat)

  /** The answer of sym_compare(): err() does not return. */
  datatype Match = NoMatch | Match(val: nat) | Fatal

  datatype Image = Image(syms: seq<Symbol>, dynstrSize: nat, loadAddr: nat, maxAddr: nat)

  /** sym_compare() */
  function SymCompare(elf: Image, s: Symbol, name: Name, weakOk: bool): Match {
    if s.stName == 0 then NoMatch
    else if s.stName > elf.dynstrSize then Fatal
    else if s.name != name then NoMatch
    else if !(s.bind == Global || (weakOk && s.bind == Weak)) then NoMatch
    else if s.bind == Weak && s.shndx == Undefined then Match(0)
    else if s.shndx == Undefined || s.shndx == Extended then NoMatch
    else match s.typ
      case NoType => InRange(elf, s.value)
      case Object => InRange(elf, s.value)
      case Func => InRange(elf, s.value)
      case Tls => Match(s.value)
      case OtherType => Fatal
  }

  function InRange(elf: Image, value: nat): Match {
    if value + elf.loadAddr > elf.maxAddr then Fatal else Match(value + elf.loadAddr)
  }

  /** check_found_sym() */
  function CheckFoundSym(elf: Image, name: Name, weakOk: bool, n: nat): Match {
    if n >= |elf.syms| then Fatal else SymCompare(elf, elf.syms[n], name, weakOk)
  }

  datatype Outcome = NotFound | Found(n: nat, val: nat) | Abort

  /** What a linear scan from symbol n on finds first. */
  function Scan(elf: Image, name: Name, weakOk: bool, n: nat): Outcome
    requires n <= |elf.syms|
    decreases |elf.syms| - n
  {
    if n == |elf.syms| then NotFound
    else match SymCompare(elf, elf.syms[n], name, weakOk)
      case NoMatch => Scan(elf, name, weakOk, n + 1)
      case Match(val) => Found(n, val)
      case Fatal => Abort
  }

  /** Symbols with other names, all in range of the string table, do not stop a scan. */
  lemma {:induction false} ScanSkips(elf: Image, name: Name, weakOk: bool, m: nat, n: nat)
    requires m <= n <= |elf.syms|
    requires forall i | m <= i < n :: elf.syms[i].name != name && elf.syms[i].stName <= elf.dynstrSize
    ensures Scan(elf, name, weakOk, m) == Scan(elf, name, weakOk, n)
    decreases n - m
  {
    if m < n {
      ScanSkips(elf, name, weakOk, m + 1, n);
    }
  }

  // ---------- DT_GNU_HASH ----------

  /** The table; a bloom word is the sequence of its bits, 32 or 64 of them, lowest first. */
  datatype GnuTable = GnuTable(symoffset: nat, bloomShift: nat, wordBits: nat, bloom: seq<seq<bool>>, bucket: seq<nat>, chain: seq<nat>)

  predicate Shaped(h: GnuTable) {
    && (h.wordBits == 32 || h.wordBits == 64) && |h.bloom| > 0 && |h.bucket| > 0
    && forall i | 0 <= i < |h.bloom| :: |h.bloom[i]| == h.wordBits
  }

  predicate BloomPasses(h: GnuTable, hash: nat)
    requires Shaped(h)
  {
    var word := h.bloom[hash / h.wordBits % |h.bloom|];
    word[hash % h.wordBits] && word[hash / Pow2(h.bloomShift) % h.wordBits]
  }

  function HashOf(elf: Image, n: nat): nat
    requires n < |elf.syms|
  {
    GnuHash(elf.syms[n].name)
  }

  function BucketOf(elf: Image, h: GnuTable, n: nat): nat
    requires n < |elf.syms| && |h.bucket| > 0
  {
    HashOf(elf, n) % |h.bucket|
  }

  /** The entry of a bucket is its first symbol, or below symoffset when it has none. */
  ghost predicate BucketOk(elf: Image, h: GnuTable, b: nat)
    requires |h.bucket| > 0 && b < |h.bucket|
  {
    if h.bucket[b] < h.symoffset then forall n | h.symoffset <= n < |elf.syms| :: BucketOf(elf, h, n) != b
    else && h.bucket[b] < |elf.syms| && BucketOf(elf, h, h.bucket[b]) == b
         && forall n | h.symoffset <= n < h.bucket[b] :: BucketOf(elf, h, n) != b
  }

  /** A chain entry is the hash with its low bit replaced by the end-of-bucket mark. */
  ghost predicate ChainOk(elf: Image, h: GnuTable, n: nat)
    requires |h.bucket| > 0 && h.symoffset <= n < |elf.syms| == h.symoffset + |h.chain|
  {
    var c := h.chain[n - h.symoffset];
    && c / 2 == HashOf(elf, n) / 2
    && (c % 2 == 1 <==> n + 1 == |elf.syms| || BucketOf(elf, h, n + 1) != BucketOf(elf, h, n))
  }

  /** A well-formed table for the symbols from symoffset on, which are grouped by bucket. */
  ghost predicate WellFormed(elf: Image, h: GnuTable) {
    && Shaped(h) && |elf.syms| == h.symoffset + |h.chain|
    && (forall n | 0 <= n < |elf.syms| :: elf.syms[n].stName <= elf.dynstrSize)
    && (forall b: nat | b < |h.bucket| :: BucketOk(elf, h, b))
    && (forall n: nat | h.symoffset <= n < |elf.syms| :: ChainOk(elf, h, n) && BloomPasses(h, HashOf(elf, n)))
    && (forall m: nat, n: nat | h.symoffset <= m <= n < |elf.syms| :: BucketOf(elf, h, m) <= BucketOf(elf, h, n))
  }

  lemma OtherHash(elf: Image, name: Name, m: nat, n: nat)
    requires m <= n <= |elf.syms| && forall i | m <= i < n :: HashOf(elf, i) != GnuHash(name)
    ensures forall i | m <= i < n :: elf.syms[i].name != name
  {
    forall i | m <= i < n
      ensures elf.syms[i].name != name
    {
      assert HashOf(elf, i) == GnuHash(elf.syms[i].name);
    }
  }

  /** No symbol from m to n has this hash: the scan passes over them. */
  lemma SkipOthers(elf: Image, h: GnuTable, name: Name, weakOk: bool, m: nat, n: nat)
    requires WellFormed(elf, h) && m <= n <= |elf.syms|
    requires forall i | m <= i < n :: HashOf(elf, i) != GnuHash(name)
    ensures Scan(elf, name, weakOk, m) == Scan(elf, name, weakOk, n)
  {
    hide HashOf, BucketOk, ChainOk, BloomPasses, Scan;
    OtherHash(elf, name, m, n);
    ScanSkips(elf, name, weakOk, m, n);
  }

  lemma ScanEnd(elf: Image, name: Name, weakOk: bool)
    ensures Scan(elf, name, weakOk, |elf.syms|) == NotFound
  {
  }

  /** The bloom filter turns no defined name away. */
  lemma BloomSound(elf: Image, h: GnuTable, name: Name, weakOk: bool)
    requires WellFormed(elf, h) && !BloomPasses(h, GnuHash(name))
    ensures Scan(elf, name, weakOk, h.symoffset) == NotFound
  {
    hide Scan, HashOf, BucketOk, ChainOk, BloomPasses;
    forall i | h.symoffset <= i < |elf.syms|
      ensures HashOf(elf, i) != GnuHash(name)
    {
      assert BloomPasses(h, HashOf(elf, i));
    }
    SkipOthers(elf, h, name, weakOk, h.symoffset, |elf.syms|);
    ScanEnd(elf, name, weakOk);
  }

  /** Where the walk starts, the scan would arrive as well. */
  lemma BucketSound(elf: Image, h: GnuTable, name: Name, weakOk: bool)
    requires WellFormed(elf, h)
    ensures var n := h.bucket[GnuHash(name) % |h.bucket|];
            if n < h.symoffset then Scan(elf, name, weakOk, h.symoffset) == NotFound
            else && n < |elf.syms| && BucketOf(elf, h, n) == GnuHash(name) % |h.bucket|
                 && Scan(elf, name, weakOk, h.symoffset) == Scan(elf, name, weakOk, n)
  {
    hide Scan, HashOf, ChainOk, BloomPasses;
    var b := GnuHash(name) % |h.bucket|;
    assert BucketOk(elf, h, b);
    var n := h.bucket[b];
    var stop := if n < h.symoffset then |elf.syms| else n;
    forall i | h.symoffset <= i < stop
      ensures HashOf(elf, i) != GnuHash(name)
    {
      assert BucketOf(elf, h, i) != b;
    }
    SkipOthers(elf, h, name, weakOk, h.symoffset, stop);
    ScanEnd(elf, name, weakOk);
  }

  /** One link of the chain that does not answer. */
  lemma LinkSound(elf: Image, h: GnuTable, name: Name, weakOk: bool, n: nat)
    requires WellFormed(elf, h) && h.symoffset <= n < |elf.syms|
    requires h.chain[n - h.symoffset] / 2 == GnuHash(name) / 2 ==> SymCompare(elf, elf.syms[n], name, weakOk) == NoMatch
    ensures Scan(elf, name, weakOk, n) == Scan(elf, name, weakOk, n + 1)
  {
    hide Scan, BucketOk, BloomPasses, BucketOf, GnuHash;
    assert ChainOk(elf, h, n);
    if h.chain[n - h.symoffset] / 2 != GnuHash(name) / 2 {
      assert elf.syms[n].name != name;
    }
    ScanNext(elf, name, weakOk, n);
  }

  lemma ScanNext(elf: Image, name: Name, weakOk: bool, n: nat)
    requires n < |elf.syms| && SymCompare(elf, elf.syms[n], name, weakOk) == NoMatch
    ensures Scan(elf, name, weakOk, n) == Scan(elf, name, weakOk, n + 1)
  {
  }

  /** Behind the end mark of its bucket no symbol has the name. */
  lemma LastLink(elf: Image, h: GnuTable, name: Name, weakOk: bool, n: nat)
    requires WellFormed(elf, h) && h.symoffset <= n < |elf.syms| && BucketOf(elf, h, n) == GnuHash(name) % |h.bucket|
    requires h.chain[n - h.symoffset] % 2 == 1
    ensures Scan(elf, name, weakOk, n + 1) == NotFound
  {
    hide Scan, HashOf, BucketOk, BloomPasses;
    assert ChainOk(elf, h, n);
    forall i | n + 1 <= i < |elf.syms|
      ensures HashOf(elf, i) != GnuHash(name)
    {
      assert BucketOf(elf, h, n) <= BucketOf(elf, h, n + 1) <= BucketOf(elf, h, i);
    }
    SkipOthers(elf, h, name, weakOk, n + 1, |elf.syms|);
    ScanEnd(elf, name, weakOk);
  }

  /** The DT_GNU_HASH branch of resolve_sym_helper(). The bound of the walk lets it look one word past the
      chain, whose content is `past`. */
  method ResolveGnu(elf: Image, h: GnuTable, name: Name, weakOk: bool, past: nat) returns (out: Outcome)
    requires Shaped(h)
    ensures WellFormed(elf, h) ==> out == Scan(elf, name, weakOk, h.symoffset)
  {
    hide Scan, WellFormed, BloomPasses, SymCompare, HashOf, BucketOf, GnuHash;
    ghost var wf := WellFormed(elf, h);
    var hash := ComputeGnuHash(name);
    if !BloomPasses(h, hash) {
      if wf {
        BloomSound(elf, h, name, weakOk);
      }
      return NotFound;
    }
    var b := hash % |h.bucket|;
    var n := h.bucket[b];
    if wf {
      BucketSound(elf, h, name, weakOk);
    }
    if n < h.symoffset {
      return NotFound;
    }
    while true
      invariant h.symoffset <= n
      invariant wf ==> && n < |elf.syms| && BucketOf(elf, h, n) == b
                       && Scan(elf, name, weakOk, h.symoffset) == Scan(elf, name, weakOk, n)
      decreases h.symoffset + |h.chain| + 2 - n
    {
      if wf {
        InChain(elf, h);
        ScanStep(elf, name, weakOk, n);
      }
      var idx := n - h.symoffset;
      if idx > |h.chain| {
        return NotFound;
      }
      var hashval := if idx < |h.chain| then h.chain[idx] else past;
      if hashval / 2 == hash / 2 {
        match CheckFoundSym(elf, name, weakOk, n)
        case Match(val) =>
          return Found(n, val);
        case Fatal =>
          return Abort;
        case NoMatch =>
      }
      if wf {
        LinkSound(elf, h, name, weakOk, n);
        NextLink(elf, h, n);
        if hashval % 2 == 1 {
          LastLink(elf, h, name, weakOk, n);
        }
      }
      n := n + 1;
      if hashval % 2 == 1 {
        return NotFound;
      }
    }
  }

  lemma InChain(elf: Image, h: GnuTable)
    requires WellFormed(elf, h)
    ensures |elf.syms| == h.symoffset + |h.chain|
  {
  }

  lemma ScanStep(elf: Image, name: Name, weakOk: bool, n: nat)
    requires n < |elf.syms|
    ensures match SymCompare(elf, elf.syms[n], name, weakOk)
            case NoMatch => true
            case Match(val) => Scan(elf, name, weakOk, n) == Found(n, val)
            case Fatal => Scan(elf, name, weakOk, n) == Abort
  {
  }

  /** An unmarked link is followed by another of the same bucket. */
  lemma NextLink(elf: Image, h: GnuTable, n: nat)
    requires WellFormed(elf, h) && h.symoffset <= n < |elf.syms|
    ensures h.chain[n - h.symoffset] % 2 != 1 ==> n + 1 < |elf.syms| && BucketOf(elf, h, n + 1) == BucketOf(elf, h, n)
  {
    assert ChainOk(elf, h, n);
  }

  // ---------- DT_HASH ----------

  datatype SysvTable = SysvTable(bucket: seq<nat>, chain: seq<nat>)

  /** l is the chain that starts at `start`: it ends, by a zero or by an index outside the table. */
  ghost predicate ChainList(t: SysvTable, start: nat, l: seq<nat>) {
    && (if l == [] then start == 0 else start == l[0])
    && (forall i | 0 <= i < |l| :: l[i] > 0)
    && (forall i | 0 <= i < |l| - 1 :: l[i] < |t.chain| && t.chain[l[i]] == l[i + 1])
    && (l != [] && l[|l| - 1] < |t.chain| ==> t.chain[l[|l| - 1]] == 0)
  }

  /** No chain has a cycle. */
  ghost predicate Acyclic(t: SysvTable) {
    |t.bucket| > 0 && forall b | 0 <= b < |t.bucket| :: exists l :: ChainList(t, t.bucket[b], l)
  }

  ghost function ChainOf(t: SysvTable, b: nat): (l: seq<nat>)
    requires Acyclic(t) && b < |t.bucket|
    ensures ChainList(t, t.bucket[b], l)
  {
    var l :| ChainList(t, t.bucket[b], l);
    l
  }

  function SysvBucket(t: SysvTable, name: Name): nat
    requires |t.bucket| > 0
  {
    (ElfHash(name) as nat) % |t.bucket|
  }

  /** A well-formed table: every symbol but the first is on the chain of its bucket. */
  ghost predicate SysvWellFormed(elf: Image, t: SysvTable) {
    && Acyclic(t) && |t.chain| == |elf.syms|
    && (forall b | 0 <= b < |t.bucket| :: forall n | n in ChainOf(t, b) :: n < |t.chain|)
    && (forall n | 0 <= n < |elf.syms| :: elf.syms[n].stName <= elf.dynstrSize)
    && (forall n | 1 <= n < |elf.syms| :: n in ChainOf(t, SysvBucket(t, elf.syms[n].name)))
  }

  /** What the symbols of a list answer first. */
  function Walk(elf: Image, t: SysvTable, name: Name, weakOk: bool, l: seq<nat>): Outcome {
    if l == [] then NotFound
    else if l[0] >= |t.chain| then Abort
    else match CheckFoundSym(elf, name, weakOk, l[0])
      case NoMatch => Walk(elf, t, name, weakOk, l[1..])
      case Match(val) => Found(l[0], val)
      case Fatal => Abort
  }

  /** The DT_HASH branch of resolve_sym_helper(). */
  method ResolveSysv(elf: Image, t: SysvTable, name: Name, weakOk: bool) returns (out: Outcome)
    requires Acyclic(t)
    ensures out == Walk(elf, t, name, weakOk, ChainOf(t, SysvBucket(t, name)))
  {
    hide ElfHash, SymCompare, CheckFoundSym;
    var hash := ComputeElfHash(name);
    ghost var l := ChainOf(t, SysvBucket(t, name));
    var n := t.bucket[(hash as nat) % |t.bucket|];
    ghost var k := 0;
    assert l[0..] == l;
    while n != 0
      invariant k <= |l| && n == if k < |l| then l[k] else 0
      invariant Walk(elf, t, name, weakOk, l) == Walk(elf, t, name, weakOk, l[k..])
      decreases |l| - k
    {
      assert l[k..][1..] == l[k + 1..];
      if n >= |t.chain| {
        return Abort;
      }
      match CheckFoundSym(elf, name, weakOk, n)
      case Match(val) =>
        return Found(n, val);
      case Fatal =>
        return Abort;
      case NoMatch =>
      n := t.chain[n];
      k := k + 1;
    }
    return NotFound;
  }

  lemma {:induction false} WalkAnswers(elf: Image, t: SysvTable, name: Name, weakOk: bool, l: seq<nat>)
    requires |t.chain| == |elf.syms| && forall n | n in l :: n < |t.chain|
    ensures match Walk(elf, t, name, weakOk, l)
            case NotFound => forall n | n in l :: SymCompare(elf, elf.syms[n], name, weakOk) == NoMatch
            case Found(n, val) => n in l && SymCompare(elf, elf.syms[n], name, weakOk) == Match(val)
            case Abort => exists n :: n in l && SymCompare(elf, elf.syms[n], name, weakOk) == Fatal
  {
    hide SymCompare;
    if l != [] {
      assert forall n :: n in l <==> n == l[0] || n in l[1..];
      assert l[0] in l;
      WalkAnswers(elf, t, name, weakOk, l[1..]);
      if n :| n in l[1..] && SymCompare(elf, elf.syms[n], name, weakOk) == Fatal {
        assert n in l;
      }
    }
  }

  /** In a well-formed table the walk finds a match exactly when the symbol table holds one. */
  lemma SysvExact(elf: Image, t: SysvTable, name: Name, weakOk: bool)
    requires SysvWellFormed(elf, t)
    ensures match Walk(elf, t, name, weakOk, ChainOf(t, SysvBucket(t, name)))
            case NotFound => forall n | 1 <= n < |elf.syms| :: SymCompare(elf, elf.syms[n], name, weakOk) == NoMatch
            case Found(n, val) => 1 <= n < |elf.syms| && SymCompare(elf, elf.syms[n], name, weakOk) == Match(val)
            case Abort => exists n :: 1 <= n < |elf.syms| && SymCompare(elf, elf.syms[n], name, weakOk) == Fatal
  {
    hide ElfHash, Walk;
    var l := ChainOf(t, SysvBucket(t, name));
    WalkAnswers(elf, t, name, weakOk, l);
    assert forall n | n in l :: n > 0;
    forall n | 1 <= n < |elf.syms| && n !in l
      ensures SymCompare(elf, elf.syms[n], name, weakOk) == NoMatch
    {
      assert elf.syms[n].name != name;
    }
  }
}

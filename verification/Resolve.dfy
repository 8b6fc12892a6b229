/** Symbol resolution over several modules (ldelf/ta_elf_rel.c), against the order its comment describes. */
module Resolve {
  import opened Symbols

  datatype Table = Gnu(h: GnuTable, past: nat) | Sysv(t: SysvTable) | NoTable
  datatype Elf = Elf(image: Image, table: Table)

  /** The look-up in this module ends. */
  ghost predicate Searchable(e: Elf) {
    match e.table
    case Gnu(h, _) => Shaped(h)
    case Sysv(t) => Acyclic(t)
    case NoTable => true
  }

  ghost predicate Sound(e: Elf) {
    match e.table
    case Gnu(h, _) => WellFormed(e.image, h)
    case Sysv(t) => SysvWellFormed(e.image, t)
    case NoTable => true
  }

  /** What a module answers to a name. */
  ghost function Lookup(e: Elf, name: Name, weakOk: bool): Outcome
    requires Sound(e)
  {
    match e.table
    case Gnu(h, _) => Scan(e.image, name, weakOk, h.symoffset)
    case Sysv(t) => Walk(e.image, t, name, weakOk, ChainOf(t, SysvBucket(t, name)))
    case NoTable => NotFound
  }

  /** resolve_sym_helper() */
  method ResolveSymHelper(e: Elf, name: Name, weakOk: bool) returns (out: Outcome)
    requires Searchable(e)
    ensures Sound(e) ==> out == Lookup(e, name, weakOk)
  {
    hide WellFormed, Acyclic, Scan, Walk;
    match e.table
    case Gnu(h, past) =>
      out := ResolveGnu(e.image, h, name, weakOk, past);
    case Sysv(t) =>
      out := ResolveSysv(e.image, t, name, weakOk);
    case NoTable =>
      out := NotFound;
  }

  datatype Resolved = Unresolved | Resolved(found: Elf, out: Outcome)

  ghost predicate AllSound(es: seq<Elf>) {
    forall e | e in es :: Sound(e)
  }

  ghost predicate Answers(e: Elf, name: Name, weakOk: bool)
    requires Sound(e)
  {
    Lookup(e, name, weakOk) != NotFound
  }

  /** The first module that answers, with a global symbol if it has one. */
  ghost function FirstModule(es: seq<Elf>, name: Name): Resolved
    requires AllSound(es)
  {
    if es == [] then Unresolved
    else if Answers(es[0], name, false) then Resolved(es[0], Lookup(es[0], name, false))
    else if Answers(es[0], name, true) then Resolved(es[0], Lookup(es[0], name, true))
    else FirstModule(es[1..], name)
  }

  /** The first module that answers with this kind of symbols. */
  ghost function FirstOf(es: seq<Elf>, name: Name, weakOk: bool): Resolved
    requires AllSound(es)
  {
    if es == [] then Unresolved
    else if Answers(es[0], name, weakOk) then Resolved(es[0], Lookup(es[0], name, weakOk))
    else FirstOf(es[1..], name, weakOk)
  }

  /** ta_elf_resolve_sym(): a module of its own first, if given, then the queue. */
  method ResolveSym(own: seq<Elf>, queue: seq<Elf>, name: Name) returns (res: Resolved)
    requires |own| <= 1 && forall e | e in own + queue :: Searchable(e)
    ensures AllSound(own + queue) ==> res == FirstModule(own + queue, name)
  {
    hide Searchable, Sound, Lookup;
    ghost var es := own + queue;
    assert es[|own|..] == queue;
    if own != [] {
      assert own[0] == es[0] && es[1..] == queue;
      var out := ResolveSymHelper(own[0], name, false);
      if out != NotFound {
        return Resolved(own[0], out);
      }
      out := ResolveSymHelper(own[0], name, true);
      if out != NotFound {
        return Resolved(own[0], out);
      }
    }
    for i := 0 to |queue|
      invariant AllSound(es) ==> AllSound(queue[i..]) && FirstModule(es, name) == FirstModule(queue[i..], name)
    {
      assert queue[i] in es && queue[i..][1..] == queue[i + 1..];
      var out := ResolveSymHelper(queue[i], name, false);
      if out != NotFound {
        return Resolved(queue[i], out);
      }
      out := ResolveSymHelper(queue[i], name, true);
      if out != NotFound {
        return Resolved(queue[i], out);
      }
    }
    return Unresolved;
  }

  // ---------- the order that the comment describes ----------

  predicate WeakUndefined(s: Symbol) {
    s.bind == Weak && s.shndx == Undefined
  }

  /** A symbol table in which weak undefined symbols answer to no name. */
  function DefinedSymbol(s: Symbol): Symbol {
    if WeakUndefined(s) then s.(stName := 0) else s
  }

  function DefinedImage(elf: Image): Image {
    elf.(syms := seq(|elf.syms|, i requires 0 <= i < |elf.syms| => DefinedSymbol(elf.syms[i])))
  }

  function DefinedOnly(e: Elf): Elf {
    e.(image := DefinedImage(e.image))
  }

  lemma SameHash(elf: Image, n: nat)
    requires n < |elf.syms|
    ensures HashOf(DefinedImage(elf), n) == HashOf(elf, n)
  {
  }

  lemma GnuDefined(elf: Image, h: GnuTable)
    requires WellFormed(elf, h)
    ensures WellFormed(DefinedImage(elf), h)
  {
    hide HashOf, BloomPasses;
    var d := DefinedImage(elf);
    forall n: nat | n < |elf.syms|
      ensures HashOf(d, n) == HashOf(elf, n)
    {
      SameHash(elf, n);
    }
    assert forall n: nat | n < |elf.syms| :: BucketOf(d, h, n) == BucketOf(elf, h, n);
    forall b: nat | b < |h.bucket|
      ensures BucketOk(d, h, b)
    {
      assert BucketOk(elf, h, b);
    }
    forall n: nat | h.symoffset <= n < |elf.syms|
      ensures ChainOk(d, h, n) && BloomPasses(h, HashOf(d, n))
    {
      assert ChainOk(elf, h, n);
    }
  }

  lemma SysvDefined(elf: Image, t: SysvTable)
    requires SysvWellFormed(elf, t)
    ensures SysvWellFormed(DefinedImage(elf), t)
  {
    hide ChainOf, ChainList, ElfHash;
    var d := DefinedImage(elf);
    forall n | 1 <= n < |d.syms|
      ensures n in ChainOf(t, SysvBucket(t, d.syms[n].name))
    {
      assert d.syms[n].name == elf.syms[n].name;
    }
  }

  lemma DefinedSound(e: Elf)
    requires Sound(e)
    ensures Sound(DefinedOnly(e))
  {
    hide WellFormed, SysvWellFormed;
    match e.table
    case Gnu(h, _) => GnuDefined(e.image, h);
    case Sysv(t) => SysvDefined(e.image, t);
    case NoTable =>
  }

  /** What a module answers with its defined symbols alone. */
  ghost function LookupDefined(e: Elf, name: Name): Outcome
    requires Sound(e)
  {
    DefinedSound(e);
    Lookup(DefinedOnly(e), name, true)
  }

  ghost predicate AnswersDefined(e: Elf, name: Name)
    requires Sound(e)
  {
    LookupDefined(e, name) != NotFound
  }

  /** The module answers with a weak undefined symbol, that is, with zero. */
  ghost predicate ZeroAnswer(e: Elf, name: Name)
    requires Sound(e)
  {
    var out := Lookup(e, name, true);
    out.Found? && out.n < |e.image.syms| && WeakUndefined(e.image.syms[out.n])
  }

  /** The first module with a defined symbol. */
  ghost function FirstDefined(es: seq<Elf>, name: Name): Resolved
    requires AllSound(es)
  {
    if es == [] then Unresolved
    else if AnswersDefined(es[0], name) then Resolved(es[0], LookupDefined(es[0], name))
    else FirstDefined(es[1..], name)
  }

  /** The order that the comment describes: global symbols, then weak ones, and as the last option the zero of
      a weak undefined symbol. */
  ghost function Described(es: seq<Elf>, name: Name): Resolved
    requires AllSound(es)
  {
    if FirstOf(es, name, false) != Unresolved then FirstOf(es, name, false)
    else if FirstDefined(es, name) != Unresolved then FirstDefined(es, name)
    else FirstOf(es, name, true)
  }

  /** And where it says to look: in the given module, or in all modules if none is given. */
  ghost function Documented(own: seq<Elf>, queue: seq<Elf>, name: Name): Resolved
    requires AllSound(own) && AllSound(queue)
  {
    Described(if own == [] then queue else own, name)
  }

  // ---------- look-ups with and without weak undefined symbols ----------

  lemma CompareDefined(elf: Image, n: nat, name: Name)
    requires n < |elf.syms| && elf.syms[n].stName <= elf.dynstrSize
    ensures var a := SymCompare(elf, elf.syms[n], name, true);
            var b := SymCompare(DefinedImage(elf), DefinedImage(elf).syms[n], name, true);
            if WeakUndefined(elf.syms[n]) then (a == NoMatch || a == Match(0)) && b == NoMatch else a == b
  {
  }

  /** A scan without weak undefined symbols finds the same, unless the scan's own answer is one of those. */
  lemma {:induction false} ScanDefined(elf: Image, name: Name, n: nat)
    requires n <= |elf.syms| && forall i | 0 <= i < |elf.syms| :: elf.syms[i].stName <= elf.dynstrSize
    ensures var a, b := Scan(elf, name, true, n), Scan(DefinedImage(elf), name, true, n);
            && (a.Found? ==> n <= a.n < |elf.syms|) && (b.Found? ==> n <= b.n)
            && (if a.Found? && WeakUndefined(elf.syms[a.n]) then a.val == 0 && a != b else a == b)
    decreases |elf.syms| - n
  {
    hide SymCompare, WeakUndefined;
    if n < |elf.syms| {
      CompareDefined(elf, n, name);
      ScanDefined(elf, name, n + 1);
    }
  }

  lemma {:induction false} WalkDefined(elf: Image, t: SysvTable, name: Name, l: seq<nat>)
    requires |t.chain| == |elf.syms| && forall i | 0 <= i < |elf.syms| :: elf.syms[i].stName <= elf.dynstrSize
    ensures var a, b := Walk(elf, t, name, true, l), Walk(DefinedImage(elf), t, name, true, l);
            && (a.Found? ==> a.n < |elf.syms|)
            && (b.Found? ==> b.n < |elf.syms| && !WeakUndefined(elf.syms[b.n]))
            && (if a.Found? && WeakUndefined(elf.syms[a.n]) then a.val == 0 && a != b else a == b)
  {
    hide SymCompare, WeakUndefined;
    if l != [] {
      if l[0] < |t.chain| {
        CompareDefined(elf, l[0], name);
      }
      WalkDefined(elf, t, name, l[1..]);
    }
  }

  /** A zero answer gives way to a defined symbol; any other answer is that of the defined symbols. */
  lemma TierTwo(e: Elf, name: Name)
    requires Sound(e)
    ensures ZeroAnswer(e, name) ==> LookupDefined(e, name) != Lookup(e, name, true) && Lookup(e, name, true).val == 0
    ensures !ZeroAnswer(e, name) ==> LookupDefined(e, name) == Lookup(e, name, true)
  {
    hide Scan, Walk, DefinedImage, ChainOf;
    DefinedSound(e);
    match e.table
    case Gnu(h, _) =>
      GnuNames(e.image, h);
      ScanDefined(e.image, name, h.symoffset);
    case Sysv(t) =>
      SysvNames(e.image, t);
      WalkDefined(e.image, t, name, ChainOf(t, SysvBucket(t, name)));
    case NoTable =>
  }

  lemma GnuNames(elf: Image, h: GnuTable)
    requires WellFormed(elf, h)
    ensures h.symoffset <= |elf.syms| && forall i | 0 <= i < |elf.syms| :: elf.syms[i].stName <= elf.dynstrSize
  {
  }

  lemma SysvNames(elf: Image, t: SysvTable)
    requires SysvWellFormed(elf, t)
    ensures |t.chain| == |elf.syms| && forall i | 0 <= i < |elf.syms| :: elf.syms[i].stName <= elf.dynstrSize
  {
  }

  // ---------- where code and comment agree ----------

  ghost predicate Silent(e: Elf, name: Name)
    requires Sound(e)
  {
    !Answers(e, name, false) && !Answers(e, name, true)
  }

  /** The list from the first module on that answers at all. */
  ghost function From(es: seq<Elf>, name: Name): (r: seq<Elf>)
    requires AllSound(es)
    ensures AllSound(r) && (r != [] ==> !Silent(r[0], name))
  {
    hide Sound, Lookup;
    if es == [] || !Silent(es[0], name) then es else From(es[1..], name)
  }

  /** The answering module has a global symbol, or no later module has one and, if it can only answer with
      zero first, no module has a defined symbol. */
  ghost predicate InOrder(f: seq<Elf>, name: Name)
    requires AllSound(f)
  {
    || f == [] || Answers(f[0], name, false)
    || (&& (forall e | e in f[1..] :: !Answers(e, name, false))
        && (ZeroAnswer(f[0], name) ==> forall e | e in f :: !AnswersDefined(e, name)))
  }

  lemma SilentDefined(e: Elf, name: Name)
    requires Sound(e) && !Answers(e, name, true)
    ensures !AnswersDefined(e, name)
  {
    hide Sound, Lookup, LookupDefined;
    TierTwo(e, name);
    NotZero(e, name);
  }

  lemma NotZero(e: Elf, name: Name)
    requires Sound(e) && !Answers(e, name, true)
    ensures !ZeroAnswer(e, name)
  {
    hide Sound, Lookup;
  }

  lemma {:induction false} FromSkips(es: seq<Elf>, name: Name)
    requires AllSound(es)
    ensures FirstModule(es, name) == FirstModule(From(es, name), name)
    ensures Described(es, name) == Described(From(es, name), name)
    ensures forall w :: FirstOf(es, name, w) == FirstOf(From(es, name), name, w)
    ensures FirstDefined(es, name) == FirstDefined(From(es, name), name)
  {
    hide Sound, Lookup, AnswersDefined, LookupDefined;
    if es != [] && Silent(es[0], name) {
      SilentDefined(es[0], name);
      FromSkips(es[1..], name);
    }
  }

  lemma {:induction false} FirstOfNone(es: seq<Elf>, name: Name, weakOk: bool)
    requires AllSound(es)
    ensures var r := FirstOf(es, name, weakOk);
            if r == Unresolved then forall e | e in es :: !Answers(e, name, weakOk)
            else r.found in es && Answers(r.found, name, weakOk)
  {
    hide Sound, Lookup;
    if es != [] {
      assert forall e :: e in es <==> e == es[0] || e in es[1..];
      FirstOfNone(es[1..], name, weakOk);
    }
  }

  lemma {:induction false} FirstDefinedNone(es: seq<Elf>, name: Name)
    requires AllSound(es)
    ensures var r := FirstDefined(es, name);
            if r == Unresolved then forall e | e in es :: !AnswersDefined(e, name)
            else r.found in es && AnswersDefined(r.found, name)
  {
    hide Sound, Lookup, LookupDefined;
    if es != [] {
      assert forall e :: e in es <==> e == es[0] || e in es[1..];
      FirstDefinedNone(es[1..], name);
    }
  }

  /** The case of a first module that answers, but not with a global symbol. */
  lemma WeakHead(f: seq<Elf>, name: Name)
    requires AllSound(f) && f != [] && !Answers(f[0], name, false) && Answers(f[0], name, true)
    ensures FirstModule(f, name) == Described(f, name) <==> InOrder(f, name)
  {
    hide Sound, Lookup, LookupDefined, ZeroAnswer;
    assert forall e :: e in f <==> e == f[0] || e in f[1..];
    FirstOfNone(f[1..], name, false);
    TierTwo(f[0], name);
    FirstDefinedNone(f[1..], name);
    assert FirstOf(f, name, false) == FirstOf(f[1..], name, false);
    if FirstOf(f, name, false) == Unresolved {
      if !AnswersDefined(f[0], name) {
        assert FirstDefined(f, name) == FirstDefined(f[1..], name);
      }
    }
  }

  /** Over a list of modules the code follows the described order exactly when, from the first module on that
      answers, no weak symbol comes before a global one and no weak undefined one before a defined one. */
  lemma DescribedIff(es: seq<Elf>, name: Name)
    requires AllSound(es)
    ensures FirstModule(es, name) == Described(es, name) <==> InOrder(From(es, name), name)
  {
    hide Sound, Lookup, LookupDefined, ZeroAnswer;
    FromSkips(es, name);
    var f := From(es, name);
    if f != [] && !Answers(f[0], name, false) {
      WeakHead(f, name);
    }
  }

  /** With a module given, the code goes on to the queue when that module is silent, and the comment does not. */
  lemma DocumentedIff(own: seq<Elf>, queue: seq<Elf>, name: Name)
    requires |own| <= 1 && AllSound(own) && AllSound(queue)
    ensures AllSound(own + queue)
    ensures FirstModule(own + queue, name) == Documented(own, queue, name)
            <==> if own != [] && Silent(own[0], name) then From(queue, name) == []
                 else InOrder(From(if own == [] then queue else own, name), name)
  {
    hide Sound, Lookup, LookupDefined, ZeroAnswer;
    if own == [] {
      assert own + queue == queue;
      DescribedIff(queue, name);
    } else {
      assert (own + queue)[1..] == queue && own[1..] == [];
      DescribedIff(own, name);
      FromSkips(own, name);
      FromSkips(queue, name);
    }
  }

  /** In the last tier the value is zero. */
  lemma LastTierIsZero(es: seq<Elf>, name: Name)
    requires AllSound(es) && FirstOf(es, name, false) == Unresolved && FirstDefined(es, name) == Unresolved
    ensures var r := Described(es, name);
            r == Unresolved || (r.out.Found? && r.out.val == 0)
  {
    hide Sound, Lookup, LookupDefined;
    FirstDefinedNone(es, name);
    FirstOfNone(es, name, true);
    FirstOfOut(es, name, true);
    var r := Described(es, name);
    if r != Unresolved {
      TierTwo(r.found, name);
    }
  }

  lemma {:induction false} FirstOfOut(es: seq<Elf>, name: Name, weakOk: bool)
    requires AllSound(es)
    ensures var r := FirstOf(es, name, weakOk);
            r != Unresolved ==> r.found in es && r.out == Lookup(r.found, name, weakOk)
  {
    hide Sound, Lookup;
    if es != [] {
      FirstOfOut(es[1..], name, weakOk);
    }
  }

  // ---------- instances ----------

  /** A module with the one symbol "f", at offset `value`, of this binding and section. */
  function Single(bind: Bind, section: Section, value: nat): Elf {
    Elf(Image([Symbol(1, [102], bind, Func, section, value)], 2, 0x1000, 0x2000),
        Gnu(GnuTable(0, 6, 32, [seq(32, i => true)], [0], [177675]), 0))
  }

  lemma SingleSound(bind: Bind, section: Section, value: nat)
    requires value <= 0x1000
    ensures Sound(Single(bind, section, value))
    ensures forall w :: Lookup(Single(bind, section, value), [102], w) == Scan(Single(bind, section, value).image, [102], w, 0)
  {
    var e := Single(bind, section, value);
    var name: Name := [102];
    assert name[..0] == [];
    assert GnuHash(name) == 177675;
    assert HashOf(e.image, 0) == 177675;
    assert BucketOk(e.image, e.table.h, 0);
    assert ChainOk(e.image, e.table.h, 0);
  }

  lemma SingleAnswers(bind: Bind, section: Section, value: nat)
    requires value <= 0x1000 && section != Extended
    ensures var e := Single(bind, section, value);
            && Sound(e)
            && (bind == Global && section == Defined ==> Lookup(e, [102], false) == Found(0, value + 0x1000))
            && (bind == Weak ==> Lookup(e, [102], false) == NotFound)
            && (bind == Weak && section == Defined ==> Lookup(e, [102], true) == Found(0, value + 0x1000) && !ZeroAnswer(e, [102]))
            && (bind == Weak && section == Undefined ==> Lookup(e, [102], true) == Found(0, 0) && ZeroAnswer(e, [102])
                                                         && LookupDefined(e, [102]) == NotFound)
  {
    hide Sound, Lookup;
    SingleSound(bind, section, value);
    var e := Single(bind, section, value);
    ScanEnd(e.image, [102], false);
    if bind == Weak && section == Undefined {
      SingleHidden(value);
    }
  }

  lemma SingleHidden(value: nat)
    requires value <= 0x1000 && Sound(Single(Weak, Undefined, value))
    ensures LookupDefined(Single(Weak, Undefined, value), [102]) == NotFound
  {
    hide Sound;
    var d := DefinedOnly(Single(Weak, Undefined, value));
    ScanEnd(d.image, [102], true);
    DefinedSound(Single(Weak, Undefined, value));
  }

  /** The comment promises the global symbol of the second module; the code takes the weak one of the first. */
  lemma WeakHidesGlobal()
    ensures var weak, global := Single(Weak, Defined, 4), Single(Global, Defined, 8);
            && AllSound([weak, global])
            && FirstModule([weak, global], [102]) == Resolved(weak, Found(0, 0x1004))
            && Described([weak, global], [102]) == Resolved(global, Found(0, 0x1008))
  {
    hide Sound, Lookup, Single, LookupDefined;
    SingleAnswers(Weak, Defined, 4);
    SingleAnswers(Global, Defined, 8);
    var es := [Single(Weak, Defined, 4), Single(Global, Defined, 8)];
    assert es[1..] == [Single(Global, Defined, 8)];
    assert FirstOf(es, [102], false) == FirstOf(es[1..], [102], false);
  }

  /** The comment promises the weak symbol that the second module defines; the code takes the zero of the first. */
  lemma ZeroHidesDefined()
    ensures var zero, weak := Single(Weak, Undefined, 4), Single(Weak, Defined, 8);
            && AllSound([zero, weak])
            && FirstModule([zero, weak], [102]) == Resolved(zero, Found(0, 0))
            && Described([zero, weak], [102]) == Resolved(weak, Found(0, 0x1008))
  {
    hide Sound, Lookup, Single, LookupDefined, ZeroAnswer;
    SingleAnswers(Weak, Undefined, 4);
    SingleAnswers(Weak, Defined, 8);
    var zero, weak := Single(Weak, Undefined, 4), Single(Weak, Defined, 8);
    var es := [zero, weak];
    TierTwo(weak, [102]);
    assert es[1..] == [weak] && es[1..][1..] == [];
    assert FirstOf(es, [102], false) == FirstOf(es[1..], [102], false) == FirstOf(es[1..][1..], [102], false);
    assert FirstDefined(es, [102]) == FirstDefined(es[1..], [102]);
  }

  /** The comment promises a failed search in the given module; the code finds the symbol in the queue. */
  lemma SilentFallsThrough()
    ensures var silent, global := Elf(Image([], 0, 0, 0), NoTable), Single(Global, Defined, 8);
            && AllSound([silent]) && AllSound([global]) && AllSound([silent] + [global])
            && FirstModule([silent] + [global], [102]) == Resolved(global, Found(0, 0x1008))
            && Documented([silent], [global], [102]) == Unresolved
  {
    hide Single;
    SingleAnswers(Global, Defined, 8);
    var silent, global := Elf(Image([], 0, 0, 0), NoTable), Single(Global, Defined, 8);
    assert ([silent] + [global])[1..] == [global] && [silent][1..] == [];
  }
}

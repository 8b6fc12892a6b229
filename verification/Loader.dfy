/** The dependency loading of ldelf (ldelf/main.c and ldelf/ta_elf.c): a worklist that grows while it
    is walked. The DT_NEEDED entries of a binary, in order, are an arbitrary function of its UUID. */
module Loader {

  type Uuid = nat

  type Needed = Uuid -> seq<Uuid>

  // ---------- dependency closures ----------

  /** Each element of p needs the next. */
  ghost predicate Path(needed: Needed, p: seq<Uuid>) {
    |p| > 0 && forall i | 0 <= i < |p| - 1 :: p[i + 1] in needed(p[i])
  }

  ghost predicate PathTo(needed: Needed, p: seq<Uuid>, a: Uuid, b: Uuid) {
    Path(needed, p) && p[0] == a && p[|p| - 1] == b
  }

  ghost predicate Reaches(needed: Needed, a: Uuid, b: Uuid) {
    exists p :: PathTo(needed, p, a, b)
  }

  ghost predicate FromRoots(needed: Needed, roots: set<Uuid>, b: Uuid) {
    exists r :: r in roots && Reaches(needed, r, b)
  }

  /** Everything that the listed binaries need is listed. */
  ghost predicate Closed(needed: Needed, q: seq<Uuid>) {
    forall i | 0 <= i < |q| :: Listed(needed(q[i]), q)
  }

  ghost predicate Listed(ds: seq<Uuid>, q: seq<Uuid>) {
    forall d | d in ds :: d in q
  }

  ghost predicate Distinct(q: seq<Uuid>) {
    forall i, j | 0 <= i < j < |q| :: q[i] != q[j]
  }

  lemma ReachesSelf(needed: Needed, a: Uuid)
    ensures Reaches(needed, a, a)
  {
    assert PathTo(needed, [a], a, a);
  }

  lemma ReachesNext(needed: Needed, a: Uuid, b: Uuid, c: Uuid)
    requires Reaches(needed, a, b) && c in needed(b)
    ensures Reaches(needed, a, c)
  {
    var p :| PathTo(needed, p, a, b);
    assert PathTo(needed, p + [c], a, c);
  }

  lemma {:induction false} ClosedFollows(needed: Needed, q: seq<Uuid>, p: seq<Uuid>)
    requires Closed(needed, q) && Path(needed, p) && p[0] in q
    ensures p[|p| - 1] in q
    decreases |p|
  {
    if |p| > 1 {
      var i :| 0 <= i < |q| && q[i] == p[0];
      assert Listed(needed(q[i]), q);
      assert p[0 + 1] in needed(p[0]);
      var t := p[1..];
      forall j | 0 <= j < |t| - 1
        ensures t[j + 1] in needed(t[j])
      {
        assert p[(j + 1) + 1] in needed(p[j + 1]);
      }
      ClosedFollows(needed, q, t);
    }
  }

  /** A closed list of reachable binaries that holds the roots is exactly their closure. */
  lemma ExactClosure(needed: Needed, roots: set<Uuid>, q: seq<Uuid>)
    requires Closed(needed, q) && (forall r | r in roots :: r in q) && (forall u | u in q :: FromRoots(needed, roots, u))
    ensures forall u :: u in q <==> FromRoots(needed, roots, u)
  {
    forall u | FromRoots(needed, roots, u)
      ensures u in q
    {
      var r :| r in roots && Reaches(needed, r, u);
      var p :| PathTo(needed, p, r, u);
      ClosedFollows(needed, q, p);
    }
  }

  // ---------- the order of the queue ----------

  /** ds, in order, behind q: each unless it is there already. */
  function Appended(q: seq<Uuid>, ds: seq<Uuid>): seq<Uuid> {
    if ds == [] then q
    else
      var r, d := Appended(q, ds[..|ds| - 1]), ds[|ds| - 1];
      if d in r then r else r + [d]
  }

  /** d is in ds, and behind its first entry c. */
  ghost predicate LaterThan(ds: seq<Uuid>, c: Uuid, d: Uuid) {
    d in ds && exists a :: 0 <= a < |ds| && ds[a] == c && d !in ds[..a + 1]
  }

  ghost predicate New(ds: seq<Uuid>, r: seq<Uuid>, k: nat) {
    k < |r| && r[k] in ds && r[k] !in r[..k]
  }

  /** What was there stays in place, what is new comes from ds and is new indeed, and of two new ones the first is the
      one that ds has first. */
  ghost predicate Extends(q: seq<Uuid>, ds: seq<Uuid>, r: seq<Uuid>) {
    && q <= r
    && (forall k: nat | |q| <= k < |r| :: New(ds, r, k))
    && (forall j, k | |q| <= j < k < |r| :: LaterThan(ds, r[j], r[k]))
    && forall d | d in ds :: d in r
  }

  lemma LaterStill(ds: seq<Uuid>, c: Uuid, d: Uuid, x: Uuid)
    requires LaterThan(ds, c, d)
    ensures LaterThan(ds + [x], c, d)
  {
    var a :| 0 <= a < |ds| && ds[a] == c && d !in ds[..a + 1];
    assert (ds + [x])[..a + 1] == ds[..a + 1] && (ds + [x])[a] == c;
  }

  lemma LaterLast(ds: seq<Uuid>, c: Uuid, x: Uuid)
    requires c in ds && x !in ds
    ensures LaterThan(ds + [x], c, x)
  {
    var a :| 0 <= a < |ds| && ds[a] == c;
    assert (ds + [x])[..a + 1] == ds[..a + 1] && (ds + [x])[a] == c;
    assert (ds + [x])[|ds|] == x;
  }

  lemma ExtendsOld(q: seq<Uuid>, ds: seq<Uuid>, r: seq<Uuid>, x: Uuid)
    requires Extends(q, ds, r) && x in r
    ensures Extends(q, ds + [x], r)
  {
    hide LaterThan;
    forall k: nat | |q| <= k < |r|
      ensures New(ds + [x], r, k)
    {
      assert New(ds, r, k);
    }
    forall j, k | |q| <= j < k < |r|
      ensures LaterThan(ds + [x], r[j], r[k])
    {
      LaterStill(ds, r[j], r[k], x);
    }
  }

  lemma ExtendsNew(q: seq<Uuid>, ds: seq<Uuid>, r: seq<Uuid>, x: Uuid)
    requires Extends(q, ds, r) && x !in r
    ensures Extends(q, ds + [x], r + [x])
  {
    hide LaterThan;
    var r' := r + [x];
    forall k: nat | |q| <= k < |r'|
      ensures New(ds + [x], r', k)
    {
      assert r'[..k] == r[..k];
      if k < |r| {
        assert New(ds, r, k);
      }
    }
    forall j, k | |q| <= j < k < |r'|
      ensures LaterThan(ds + [x], r'[j], r'[k])
    {
      if k < |r| {
        LaterStill(ds, r[j], r[k], x);
      } else {
        assert New(ds, r, j);
        LaterLast(ds, r[j], x);
      }
    }
  }

  lemma {:induction false} AppendedExtends(q: seq<Uuid>, ds: seq<Uuid>)
    ensures Extends(q, ds, Appended(q, ds))
    decreases |ds|
  {
    hide Extends;
    if ds == [] {
      ExtendsNone(q);
    } else {
      var n := |ds| - 1;
      AppendedExtends(q, ds[..n]);
      assert ds == ds[..n] + [ds[n]];
      if ds[n] in Appended(q, ds[..n]) {
        ExtendsOld(q, ds[..n], Appended(q, ds[..n]), ds[n]);
      } else {
        ExtendsNew(q, ds[..n], Appended(q, ds[..n]), ds[n]);
      }
    }
  }

  lemma AppendedStep(q: seq<Uuid>, ds: seq<Uuid>, n: nat)
    requires n <= |ds|
    ensures Appended(q, ds[..0]) == q
    ensures n < |ds| ==> var r := Appended(q, ds[..n]);
                         Appended(q, ds[..n + 1]) == if ds[n] in r then r else r + [ds[n]]
  {
    if n < |ds| {
      assert ds[..n + 1][..n] == ds[..n];
    }
  }

  lemma ExtendsNone(q: seq<Uuid>)
    ensures Extends(q, [], q)
  {
  }

  // ---------- the code ----------

  datatype TeeResult = Success | OutOfMemory

  /** main_elf_queue */
  class ElfQueue {
    const needed: Needed
    var queue: seq<Uuid>
    ghost var roots: set<Uuid>
    /** Every binary that exists. */
    ghost const universe: set<Uuid>

    ghost predicate Sound()
      reads this
    {
      && Distinct(queue)
      && (forall u | u in universe :: forall d | d in needed(u) :: d in universe)
      && (forall u | u in queue :: u in universe && FromRoots(needed, roots, u))
    }

    /** The queue is the closure of the roots, each binary once. */
    ghost predicate Loaded()
      reads this
    {
      Sound() && Closed(needed, queue) && forall u :: u in queue <==> FromRoots(needed, roots, u)
    }

    constructor (needed: Needed, ghost universe: set<Uuid>)
      requires forall u | u in universe :: forall d | d in needed(u) :: d in universe
      ensures Sound() && queue == [] && roots == {} && this.needed == needed && this.universe == universe
    {
      this.needed, this.universe, queue, roots := needed, universe, [], {};
    }

    /** ta_elf_find_elf() */
    method FindElf(uuid: Uuid) returns (found: bool)
      ensures found <==> uuid in queue
    {
      for i := 0 to |queue|
        invariant uuid !in queue[..i]
      {
        if queue[i] == uuid {
          return true;
        }
      }
      return false;
    }

    /** queue_elf(): at the tail, unless it is there already. */
    method QueueElf(uuid: Uuid) returns (queued: bool)
      modifies `queue
      ensures queued <==> uuid !in old(queue)
      ensures queue == if queued then old(queue) + [uuid] else old(queue)
    {
      var found := FindElf(uuid);
      if found {
        return false;
      }
      queue := queue + [uuid];
      return true;
    }

    /** add_dependencies() of a binary */
    method AddDependencies(uuid: Uuid)
      requires Sound() && uuid in queue
      modifies `queue
      ensures Sound() && old(queue) <= queue && Listed(needed(uuid), queue)
      ensures queue == Appended(old(queue), needed(uuid))
    {
      hide Appended;
      var ds := needed(uuid);
      AppendedStep(old(queue), ds, 0);
      for n := 0 to |ds|
        invariant Sound() && old(queue) <= queue && uuid in queue && Listed(ds[..n], queue)
        invariant queue == Appended(old(queue), ds[..n])
      {
        AppendedStep(old(queue), ds, n);
        var queued := QueueElf(ds[n]);
        DependencyReachable(uuid, ds[n]);
      }
      assert ds[..|ds|] == ds;
    }

    lemma DependencyReachable(u: Uuid, d: Uuid)
      requires d in needed(u) && FromRoots(needed, roots, u)
      ensures FromRoots(needed, roots, d)
    {
      var r :| r in roots && Reaches(needed, r, u);
      ReachesNext(needed, r, u, d);
    }

    /** ta_elf_load_dependency(): the main binary has been loaded already. */
    method LoadDependency(i: nat)
      requires Sound() && i < |queue|
      requires i == 0 ==> Listed(needed(queue[0]), queue)
      modifies `queue
      ensures Sound() && old(queue) <= queue && Listed(needed(queue[i]), queue)
      ensures i > 0 ==> queue == Appended(old(queue), needed(old(queue)[i]))
    {
      var isMain := i == 0;
      if isMain {
        return;
      }
      AddDependencies(queue[i]);
    }

    /** The loop over the queue from position `from` on; its body appends to the queue it walks. */
    method LoadFrom(from: nat)
      requires Sound() && from <= |queue| && (from == 0 && |queue| > 0 ==> Listed(needed(queue[0]), queue))
      requires forall i | 0 <= i < from :: Listed(needed(queue[i]), queue)
      modifies `queue
      ensures Sound() && old(queue) <= queue && Closed(needed, queue)
    {
      var n := from;
      while n < |queue|
        invariant Sound() && from <= n <= |queue| && old(queue) <= queue
        invariant forall i | 0 <= i < n :: Listed(needed(queue[i]), queue)
        invariant n == 0 && |queue| > 0 ==> Listed(needed(queue[0]), queue)
        decreases |universe| - n
      {
        DistinctBound(queue, universe);
        ghost var before := queue;
        LoadDependency(n);
        forall i | 0 <= i < n
          ensures Listed(needed(queue[i]), queue)
        {
          assert Listed(needed(before[i]), before);
        }
        n := n + 1;
      }
    }

    /** ldelf() up to the relocations: afterwards the queue holds exactly the closure of the main
        binary, the main binary first. A legacy binary is parsed twice. */
    method Ldelf(uuid: Uuid, legacy: bool)
      requires Sound() && queue == [] && roots == {} && uuid in universe
      modifies this
      ensures Loaded() && roots == {uuid} && |queue| > 0 && queue[0] == uuid
    {
      ReachesSelf(needed, uuid);
      var queued := QueueElf(uuid);
      roots := {uuid};
      AddDependencies(uuid);
      if legacy {
        AddDependencies(uuid);
      }
      LoadFrom(0);
      ExactClosure(needed, roots, queue);
    }

    /** ta_elf_add_library(): what was loaded stays in place, and the queue is closed again. */
    method AddLibrary(uuid: Uuid, outOfMemory: bool) returns (res: TeeResult)
      requires Loaded() && uuid in universe && |queue| > 0
      modifies this
      ensures Loaded() && old(queue) <= queue
      ensures uuid in old(queue) ==> res == Success && queue == old(queue)
      ensures uuid !in old(queue) && outOfMemory ==> res == OutOfMemory && queue == old(queue)
      ensures uuid !in old(queue) && !outOfMemory ==> res == Success && uuid in queue
      ensures res == Success && uuid !in old(queue) ==> roots == old(roots) + {uuid}
    {
      hide FromRoots, Distinct, Listed;
      var found := FindElf(uuid);
      if found {
        return Success;
      }
      if outOfMemory {
        return OutOfMemory;
      }
      var lib := |queue|;
      AppendRoot(uuid);
      LoadFrom(lib);
      ExactClosure(needed, roots, queue);
      return Success;
    }

    /** A new root at the tail: everything before it is still closed. */
    method AppendRoot(uuid: Uuid)
      requires Loaded() && uuid in universe && uuid !in queue
      modifies `queue, `roots
      ensures Sound() && queue == old(queue) + [uuid] && roots == old(roots) + {uuid}
      ensures forall i | 0 <= i < |old(queue)| :: Listed(needed(queue[i]), queue)
      ensures forall r | r in roots :: r in queue
    {
      ghost var before, rs := queue, roots;
      queue := queue + [uuid];
      roots := roots + {uuid};
      ReachesSelf(needed, uuid);
      RootsListed(before, rs);
      forall u | u in queue
        ensures FromRoots(needed, roots, u)
      {
        if u in before {
          assert FromRoots(needed, rs, u);
        }
      }
      forall i | 0 <= i < |before|
        ensures Listed(needed(queue[i]), queue)
      {
        assert Listed(needed(before[i]), before);
      }
    }

    lemma RootsListed(q: seq<Uuid>, rs: set<Uuid>)
      requires forall u :: u in q <==> FromRoots(needed, rs, u)
      ensures forall r | r in rs :: r in q
    {
      forall r | r in rs
        ensures r in q
      {
        ReachesSelf(needed, r);
      }
    }
  }

  lemma {:induction false} DistinctBound(q: seq<Uuid>, s: set<Uuid>)
    requires Distinct(q) && forall u | u in q :: u in s
    ensures |q| <= |s|
    decreases |q|
  {
    if q != [] {
      var n := |q| - 1;
      DistinctBound(q[..n], s - {q[n]});
    }
  }
}

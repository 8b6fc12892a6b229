/** adjust_segments() of ldelf/ta_elf.c: page-align the load segments and merge those that share a page.

    Bitwise "and" on addresses only decides which asserts and remappings apply, so it is an arbitrary
    function here; size_t has 64 bits. */
module Segments {
  import opened Arithmetic

  const PAGE: nat := 4096
  const PF_W: bv32 := 2

  datatype Segment = Segment(offset: nat, vaddr: nat, filesz: nat, memsz: nat, flags: bv32, align: nat, remapped: bool)

  function RoundDown(v: nat): (r: nat)
    ensures r <= v < r + PAGE && r % PAGE == 0
  {
    v - v % PAGE
  }

  function End(s: Segment): nat {
    s.vaddr + s.memsz
  }

  // ---------- what the sanity loop demands ----------

  predicate Sane(s: Segment, align: nat) {
    && s.align == align >= PAGE && End(s) < TWO64 && s.filesz <= s.memsz && s.offset % PAGE == s.vaddr % PAGE
  }

  predicate After(prev: Segment, s: Segment) {
    s.vaddr >= End(prev) && s.offset >= (prev.offset + prev.filesz) % TWO64
  }

  predicate AllSane(segs: seq<Segment>) {
    forall i | 0 <= i < |segs| :: Sane(segs[i], segs[0].align) && (i > 0 ==> After(segs[i - 1], segs[i]))
  }

  predicate SharesPage(segs: seq<Segment>, t: nat)
    requires 1 <= t < |segs|
  {
    RoundDown(segs[t].vaddr) < End(segs[t - 1])
  }

  /** Offset minus address of the first of the originals that t is joined to by shared pages. */
  function Shift(segs: seq<Segment>, t: nat): int
    requires t < |segs|
  {
    if t > 0 && SharesPage(segs, t) then Shift(segs, t - 1) else segs[t].offset - segs[t].vaddr
  }

  /** Where in the file the mapping that original t ends in stops. */
  function FileEnd(segs: seq<Segment>, t: nat): int
    requires t < |segs|
  {
    segs[t].vaddr + segs[t].filesz + Shift(segs, t)
  }

  /** The first page of original t is in the file twice over: it is mapped for the one before already. */
  predicate MappedTwice(segs: seq<Segment>, and: (nat, nat) -> nat, t: nat)
    requires 1 <= t < |segs|
  {
    var mask := if segs[0].align > 0 then segs[0].align - 1 else 0;
    !SharesPage(segs, t) && and(segs[t].offset, mask) != 0 && RoundDown(segs[t].offset) < FileEnd(segs, t - 1) % TWO64
  }

  /** An assert fails at original t: a merge with other low bits or behind a zero-initialised tail, or a
      page of the file that is mapped a second time but not writeable. */
  predicate RefusedAt(segs: seq<Segment>, and: (nat, nat) -> nat, t: nat)
    requires 1 <= t < |segs|
  {
    var mask := if segs[0].align > 0 then segs[0].align - 1 else 0;
    if SharesPage(segs, t)
    then and(segs[t].vaddr, mask) != and(segs[t].offset, mask) || segs[t - 1].memsz != segs[t - 1].filesz
    else MappedTwice(segs, and, t) && segs[t].flags & PF_W == 0
  }

  predicate Refused(segs: seq<Segment>, and: (nat, nat) -> nat) {
    exists t :: 1 <= t < |segs| && RefusedAt(segs, and, t)
  }

  // ---------- one step ----------

  function Merged(prev: Segment, s: Segment): Segment
    requires s.vaddr >= prev.vaddr
  {
    prev.(filesz := s.vaddr + s.filesz - prev.vaddr, memsz := s.vaddr + s.memsz - prev.vaddr, flags := prev.flags | s.flags)
  }

  function PageAligned(s: Segment, remapped: bool): Segment {
    var d := s.vaddr - RoundDown(s.vaddr);
    s.(filesz := s.filesz + d, memsz := s.memsz + d, vaddr := RoundDown(s.vaddr), offset := RoundDown(s.offset), remapped := remapped)
  }

  // ---------- what the result means ----------

  /** Result segments after the first start on a page, at or after the end of the one before. */
  ghost predicate Ordered(r: seq<Segment>) {
    forall j | 1 <= j < |r| :: r[j].vaddr % PAGE == 0 && End(r[j - 1]) <= r[j].vaddr
  }

  ghost predicate Contains(r: Segment, s: Segment) {
    r.vaddr <= s.vaddr && End(s) <= End(r)
  }

  /** Each original segment has an owner in the result; owners go up by at most one, and start at the first. */
  ghost predicate Owners(owner: seq<nat>, n: nat) {
    && (|owner| == 0 <==> n == 0)
    && (|owner| > 0 ==> owner[0] == 0 && owner[|owner| - 1] == n - 1)
    && forall t | 1 <= t < |owner| :: owner[t] == owner[t - 1] || owner[t] == owner[t - 1] + 1
  }

  /** The union of the flags of the originals that segment j owns. */
  ghost function FlagsOf(orig: seq<Segment>, owner: seq<nat>, j: nat): bv32
    requires |owner| <= |orig|
    decreases |owner|
  {
    if owner == [] then 0
    else
      var t := |owner| - 1;
      FlagsOf(orig, owner[..t], j) | (if owner[t] == j then orig[t].flags else 0)
  }

  /** Original t is the first that its owner holds. */
  ghost predicate First(owner: seq<nat>, t: nat) {
    t < |owner| && (t == 0 || owner[t - 1] != owner[t])
  }

  ghost predicate SizesOk(r: seq<Segment>) {
    forall j | 0 <= j < |r| :: r[j].filesz <= r[j].memsz
  }

  ghost predicate FlagsOk(r: seq<Segment>, orig: seq<Segment>, owner: seq<nat>)
    requires |owner| <= |orig|
  {
    forall j | 0 <= j < |r| :: r[j].flags == FlagsOf(orig, owner, j)
  }

  ghost predicate Covers(r: seq<Segment>, orig: seq<Segment>, owner: seq<nat>)
    requires |owner| <= |orig|
  {
    forall t | 0 <= t < |owner| :: owner[t] < |r| && Contains(r[owner[t]], orig[t])
  }

  /** The distance from file offset to address is that of the first original. */
  ghost predicate SameShift(r: Segment, s: Segment) {
    r.vaddr + s.offset == s.vaddr + r.offset
  }

  ghost predicate ShiftsOk(r: seq<Segment>, orig: seq<Segment>, owner: seq<nat>)
    requires |owner| <= |orig|
  {
    forall t: nat | First(owner, t) :: owner[t] < |r| && SameShift(r[owner[t]], orig[t])
  }

  /** Originals share an owner exactly when the later one starts on the last page of the one before, and
      then the one before has no zero-initialised tail. */
  ghost predicate Joined(orig: seq<Segment>, owner: seq<nat>, t: nat)
    requires 1 <= t < |owner| <= |orig|
  {
    && (owner[t] == owner[t - 1] <==> RoundDown(orig[t].vaddr) < End(orig[t - 1]))
    && (owner[t] == owner[t - 1] ==> orig[t - 1].filesz == orig[t - 1].memsz)
  }

  ghost predicate JoinsOk(orig: seq<Segment>, owner: seq<nat>)
    requires |owner| <= |orig|
  {
    forall t | 1 <= t < |owner| :: Joined(orig, owner, t)
  }

  /** The last result segment ends, in memory and in its zero-initialised tail, like the last original. */
  ghost predicate SameTail(r: Segment, s: Segment) {
    End(r) == End(s) && r.memsz - r.filesz == s.memsz - s.filesz
  }

  /** r is what the originals up to |owner| have become. */
  ghost predicate Image(r: seq<Segment>, orig: seq<Segment>, owner: seq<nat>) {
    && |owner| <= |orig| && Owners(owner, |r|) && Ordered(r) && SizesOk(r)
    && FlagsOk(r, orig, owner) && Covers(r, orig, owner) && ShiftsOk(r, orig, owner) && JoinsOk(orig, owner)
    && (|owner| > 0 ==> SameTail(r[|r| - 1], orig[|owner| - 1]))
  }

  lemma FlagsSnoc(orig: seq<Segment>, owner: seq<nat>, x: nat, j: nat)
    requires |owner| < |orig|
    ensures FlagsOf(orig, owner + [x], j) == FlagsOf(orig, owner, j) | (if x == j then orig[|owner|].flags else 0)
  {
    assert (owner + [x])[..|owner|] == owner;
  }

  lemma {:induction false} FlagsNone(orig: seq<Segment>, owner: seq<nat>, j: nat)
    requires |owner| <= |orig| && forall t | 0 <= t < |owner| :: owner[t] != j
    ensures FlagsOf(orig, owner, j) == 0
    decreases |owner|
  {
    if owner != [] {
      FlagsNone(orig, owner[..|owner| - 1], j);
    }
  }

  lemma OrZero(x: bv32)
    ensures x | 0 == x && 0 | x == x
  {
  }

  lemma ImageStart(orig: seq<Segment>)
    requires orig != [] && AllSane(orig)
    ensures Image([orig[0]], orig, [0])
  {
    hide FlagsOk;
    FlagsStart(orig);
  }

  lemma FlagsStart(orig: seq<Segment>)
    requires orig != []
    ensures FlagsOk([orig[0]], orig, [0])
  {
    hide FlagsOf;
    FlagsNone(orig, [], 0);
    FlagsSnoc(orig, [], 0, 0);
    assert [] + [0] == [0];
    OrZero(orig[0].flags);
  }

  lemma FlagsMerge(r: seq<Segment>, orig: seq<Segment>, owner: seq<nat>, m: Segment)
    requires r != [] && |owner| < |orig| && FlagsOk(r, orig, owner) && m.flags == r[|r| - 1].flags | orig[|owner|].flags
    ensures FlagsOk(r[|r| - 1 := m], orig, owner + [|r| - 1])
  {
    hide FlagsOf;
    var n := |r| - 1;
    forall j | 0 <= j < |r|
      ensures r[n := m][j].flags == FlagsOf(orig, owner + [n], j)
    {
      FlagsSnoc(orig, owner, n, j);
      OrZero(r[j].flags);
    }
  }

  lemma ShiftsMerge(r: seq<Segment>, orig: seq<Segment>, owner: seq<nat>, m: Segment)
    requires 0 < |owner| < |orig| && Owners(owner, |r|) && ShiftsOk(r, orig, owner)
    requires m.vaddr == r[|r| - 1].vaddr && m.offset == r[|r| - 1].offset
    ensures ShiftsOk(r[|r| - 1 := m], orig, owner + [|r| - 1])
  {
    var n := |r| - 1;
    var owner' := owner + [n];
    forall t: nat | First(owner', t)
      ensures owner'[t] < |r| && SameShift(r[n := m][owner'[t]], orig[t])
    {
      assert First(owner, t);
    }
  }

  /** The next original shares a page with the last result segment and is merged into it. */
  lemma ImageMerge(r: seq<Segment>, orig: seq<Segment>, owner: seq<nat>)
    requires Image(r, orig, owner) && 0 < |owner| < |orig| && AllSane(orig)
    requires RoundDown(orig[|owner|].vaddr) < End(r[|r| - 1]) && r[|r| - 1].memsz == r[|r| - 1].filesz
    ensures var s := orig[|owner|]; var n := |r| - 1;
            s.vaddr >= End(r[n]) && Image(r[n := Merged(r[n], s)], orig, owner + [n])
  {
    hide FlagsOk, ShiftsOk, JoinsOk;
    var k, n := |owner|, |r| - 1;
    var s := orig[k];
    assert Sane(s, orig[0].align) && After(orig[k - 1], s);
    var m := Merged(r[n], s);
    FlagsMerge(r, orig, owner, m);
    ShiftsMerge(r, orig, owner, m);
    CoversMerge(r, orig, owner, m);
    JoinsSnoc(orig, owner, n);
  }

  lemma JoinsSnoc(orig: seq<Segment>, owner: seq<nat>, x: nat)
    requires 0 < |owner| < |orig| && JoinsOk(orig, owner) && Joined(orig, owner + [x], |owner|)
    ensures JoinsOk(orig, owner + [x])
  {
    forall t | 1 <= t < |owner| + 1
      ensures Joined(orig, owner + [x], t)
    {
      if t < |owner| {
        assert Joined(orig, owner, t);
      }
    }
  }

  lemma CoversMerge(r: seq<Segment>, orig: seq<Segment>, owner: seq<nat>, m: Segment)
    requires r != [] && |owner| < |orig| && Covers(r, orig, owner)
    requires Contains(m, r[|r| - 1]) && Contains(m, orig[|owner|])
    ensures Covers(r[|r| - 1 := m], orig, owner + [|r| - 1])
  {
  }

  lemma FlagsAlign(r: seq<Segment>, orig: seq<Segment>, owner: seq<nat>, m: Segment)
    requires |owner| < |orig| && FlagsOk(r, orig, owner) && Covers(r, orig, owner) && m.flags == orig[|owner|].flags
    ensures FlagsOk(r + [m], orig, owner + [|r|])
  {
    hide FlagsOf;
    var n := |r|;
    FlagsNone(orig, owner, n);
    forall j | 0 <= j < |r| + 1
      ensures (r + [m])[j].flags == FlagsOf(orig, owner + [n], j)
    {
      FlagsSnoc(orig, owner, n, j);
      OrZero((r + [m])[j].flags);
    }
  }

  lemma ShiftsAlign(r: seq<Segment>, orig: seq<Segment>, owner: seq<nat>, m: Segment)
    requires 0 < |owner| < |orig| && Owners(owner, |r|) && ShiftsOk(r, orig, owner) && SameShift(m, orig[|owner|])
    ensures ShiftsOk(r + [m], orig, owner + [|r|])
  {
    hide SameShift;
    var owner', r' := owner + [|r|], r + [m];
    forall t: nat | First(owner', t)
      ensures owner'[t] < |r'| && SameShift(r'[owner'[t]], orig[t])
    {
      if t < |owner| {
        assert First(owner, t) && owner'[t] == owner[t];
        assert r'[owner[t]] == r[owner[t]];
      } else {
        assert r'[owner'[t]] == m;
      }
    }
  }

  /** The next original starts on a later page and becomes a segment of its own. */
  lemma ImageAlign(r: seq<Segment>, orig: seq<Segment>, owner: seq<nat>, remapped: bool)
    requires Image(r, orig, owner) && 0 < |owner| < |orig| && AllSane(orig)
    requires RoundDown(orig[|owner|].vaddr) >= End(r[|r| - 1])
    ensures Image(r + [PageAligned(orig[|owner|], remapped)], orig, owner + [|r|])
  {
    hide FlagsOk, ShiftsOk, JoinsOk;
    var s := orig[|owner|];
    assert Sane(s, orig[0].align);
    var m := PageAligned(s, remapped);
    FlagsAlign(r, orig, owner, m);
    ShiftsAlign(r, orig, owner, m);
    JoinsSnoc(orig, owner, |r|);
  }

  /** Result segments are marked for remapping exactly when they were before or their first page is mapped
      twice. */
  ghost predicate RemapsOk(r: seq<Segment>, orig: seq<Segment>, owner: seq<nat>, and: (nat, nat) -> nat)
    requires |owner| <= |orig|
  {
    forall t: nat | First(owner, t) ::
      owner[t] < |r| && (r[owner[t]].remapped <==> orig[t].remapped || (t > 0 && MappedTwice(orig, and, t)))
  }

  lemma RemapsStart(orig: seq<Segment>, and: (nat, nat) -> nat)
    requires orig != []
    ensures RemapsOk([orig[0]], orig, [0], and)
  {
  }

  lemma RemapsMerge(r: seq<Segment>, orig: seq<Segment>, owner: seq<nat>, and: (nat, nat) -> nat, m: Segment)
    requires 0 < |owner| < |orig| && Owners(owner, |r|) && RemapsOk(r, orig, owner, and) && m.remapped == r[|r| - 1].remapped
    ensures RemapsOk(r[|r| - 1 := m], orig, owner + [|r| - 1], and)
  {
    hide MappedTwice;
    var n := |r| - 1;
    var owner' := owner + [n];
    forall t: nat | First(owner', t)
      ensures owner'[t] < |r| && r[n := m][owner'[t]].remapped == r[owner'[t]].remapped && First(owner, t)
    {
      assert First(owner, t);
    }
  }

  lemma RemapsAlign(r: seq<Segment>, orig: seq<Segment>, owner: seq<nat>, and: (nat, nat) -> nat, m: Segment)
    requires 0 < |owner| < |orig| && Owners(owner, |r|) && RemapsOk(r, orig, owner, and)
    requires m.remapped <==> orig[|owner|].remapped || MappedTwice(orig, and, |owner|)
    ensures RemapsOk(r + [m], orig, owner + [|r|], and)
  {
    hide MappedTwice;
    var owner' := owner + [|r|];
    forall t: nat | First(owner', t)
      ensures owner'[t] < |r| + 1
      ensures (r + [m])[owner'[t]].remapped <==> orig[t].remapped || (t > 0 && MappedTwice(orig, and, t))
    {
      if t < |owner| {
        assert First(owner, t);
      }
    }
  }

  /** Original t is the last that its owner holds. */
  ghost predicate Last(owner: seq<nat>, t: nat) {
    t < |owner| && (t == |owner| - 1 || owner[t + 1] != owner[t])
  }

  /** Where a result segment starts, by the first of its originals. */
  ghost predicate Starts(r: Segment, orig: seq<Segment>, t: nat)
    requires t < |orig|
  {
    r.vaddr == (if t == 0 then orig[0].vaddr else orig[t].vaddr / 4096 * 4096) && r.align == orig[0].align
  }

  ghost predicate StartsOk(r: seq<Segment>, orig: seq<Segment>, owner: seq<nat>)
    requires |owner| <= |orig|
  {
    forall t: nat | First(owner, t) :: owner[t] < |r| && Starts(r[owner[t]], orig, t)
  }

  /** Every result segment ends, in memory and in its zero-initialised tail, like the last of its originals. */
  ghost predicate TailsOk(r: seq<Segment>, orig: seq<Segment>, owner: seq<nat>)
    requires |owner| <= |orig|
  {
    forall t: nat | Last(owner, t) :: owner[t] < |r| && SameTail(r[owner[t]], orig[t])
  }

  ghost predicate Exact(r: seq<Segment>, orig: seq<Segment>, owner: seq<nat>) {
    |owner| <= |orig| && StartsOk(r, orig, owner) && TailsOk(r, orig, owner)
  }

  lemma ExactStart(orig: seq<Segment>)
    requires orig != []
    ensures Exact([orig[0]], orig, [0])
  {
  }

  lemma StartsMerge(r: seq<Segment>, orig: seq<Segment>, owner: seq<nat>, m: Segment)
    requires 0 < |owner| < |orig| && Owners(owner, |r|) && StartsOk(r, orig, owner)
    requires m.vaddr == r[|r| - 1].vaddr && m.align == r[|r| - 1].align
    ensures StartsOk(r[|r| - 1 := m], orig, owner + [|r| - 1])
  {
    var n := |r| - 1;
    var owner' := owner + [n];
    forall t: nat | First(owner', t)
      ensures owner'[t] < |r| && Starts(r[n := m][owner'[t]], orig, t)
    {
      assert First(owner, t);
    }
  }

  lemma StartsAlign(r: seq<Segment>, orig: seq<Segment>, owner: seq<nat>, m: Segment)
    requires 0 < |owner| < |orig| && Owners(owner, |r|) && StartsOk(r, orig, owner) && Starts(m, orig, |owner|)
    ensures StartsOk(r + [m], orig, owner + [|r|])
  {
    hide Starts;
    var owner', r' := owner + [|r|], r + [m];
    forall t: nat | First(owner', t)
      ensures owner'[t] < |r'| && Starts(r'[owner'[t]], orig, t)
    {
      if t < |owner| {
        assert First(owner, t) && owner'[t] == owner[t];
        assert r'[owner[t]] == r[owner[t]];
      } else {
        assert r'[owner'[t]] == m;
      }
    }
  }

  /** The owners go up, so only the last originals belong to the last result segment. */
  lemma {:induction false} BelowLast(owner: seq<nat>, n: nat, t: nat)
    requires Owners(owner, n) && t < |owner|
    ensures owner[t] < n
    decreases |owner| - t
  {
    if t < |owner| - 1 {
      BelowLast(owner, n, t + 1);
    }
  }

  lemma NotInLast(owner: seq<nat>, n: nat, t: nat)
    requires Owners(owner, n) && t + 1 < |owner| && owner[t + 1] != owner[t]
    ensures owner[t] < n - 1
  {
    BelowLast(owner, n, t + 1);
  }

  lemma TailsMerge(r: seq<Segment>, orig: seq<Segment>, owner: seq<nat>, m: Segment)
    requires 0 < |owner| < |orig| && Owners(owner, |r|) && r != [] && TailsOk(r, orig, owner) && SameTail(m, orig[|owner|])
    requires owner[|owner| - 1] == |r| - 1
    ensures TailsOk(r[|r| - 1 := m], orig, owner + [|r| - 1])
  {
    hide SameTail, Owners;
    var n := |r| - 1;
    var owner', r' := owner + [n], r[n := m];
    forall t: nat | Last(owner', t)
      ensures owner'[t] < |r'| && SameTail(r'[owner'[t]], orig[t])
    {
      if t == |owner| {
        assert r'[owner'[t]] == m;
      } else {
        assert t + 1 < |owner| && owner'[t] == owner[t];
        NotInLast(owner, |r|, t);
        assert Last(owner, t);
        assert r'[owner[t]] == r[owner[t]];
      }
    }
  }

  lemma TailsAlign(r: seq<Segment>, orig: seq<Segment>, owner: seq<nat>, m: Segment)
    requires 0 < |owner| < |orig| && Owners(owner, |r|) && TailsOk(r, orig, owner) && SameTail(m, orig[|owner|])
    ensures TailsOk(r + [m], orig, owner + [|r|])
  {
    hide SameTail;
    var owner', r' := owner + [|r|], r + [m];
    forall t: nat | Last(owner', t)
      ensures owner'[t] < |r'| && SameTail(r'[owner'[t]], orig[t])
    {
      if t < |owner| {
        assert Last(owner, t) && owner'[t] == owner[t];
        assert r'[owner[t]] == r[owner[t]];
      } else {
        assert r'[owner'[t]] == m;
      }
    }
  }

  lemma ExactMerge(r: seq<Segment>, orig: seq<Segment>, owner: seq<nat>)
    requires Exact(r, orig, owner) && 0 < |owner| < |orig| && Owners(owner, |r|) && orig[|owner|].vaddr >= r[|r| - 1].vaddr
    ensures var n := |r| - 1; Exact(r[n := Merged(r[n], orig[|owner|])], orig, owner + [n])
  {
    hide StartsOk, TailsOk;
    var m := Merged(r[|r| - 1], orig[|owner|]);
    StartsMerge(r, orig, owner, m);
    TailsMerge(r, orig, owner, m);
  }

  lemma ExactAlign(r: seq<Segment>, orig: seq<Segment>, owner: seq<nat>, remapped: bool)
    requires Exact(r, orig, owner) && 0 < |owner| < |orig| && Owners(owner, |r|) && orig[|owner|].align == orig[0].align
    ensures Exact(r + [PageAligned(orig[|owner|], remapped)], orig, owner + [|r|])
  {
    hide StartsOk, TailsOk;
    var m := PageAligned(orig[|owner|], remapped);
    StartsAlign(r, orig, owner, m);
    TailsAlign(r, orig, owner, m);
  }

  lemma ImageOwners(r: seq<Segment>, orig: seq<Segment>, owner: seq<nat>)
    requires Image(r, orig, owner)
    ensures |owner| <= |orig| && Owners(owner, |r|)
  {
  }

  // ---------- consequences ----------

  lemma {:induction false} OrderedFar(r: seq<Segment>, i: nat, j: nat)
    requires Ordered(r) && i < j < |r|
    ensures End(r[i]) <= r[j].vaddr
    decreases j
  {
    if i < j - 1 {
      OrderedFar(r, i, j - 1);
    }
  }

  /** A range with bytes in it lies in one result segment only. */
  lemma OneOwner(r: seq<Segment>, orig: seq<Segment>, owner: seq<nat>, t: nat, j: nat)
    requires Image(r, orig, owner) && t < |owner| && j < |r| && orig[t].memsz > 0 && Contains(r[j], orig[t])
    ensures j == owner[t]
  {
    if j < owner[t] {
      OrderedFar(r, j, owner[t]);
    } else if owner[t] < j {
      OrderedFar(r, owner[t], j);
    }
  }

  /** A merged original keeps its place in the file exactly when its own distance from offset to address is
      that of the first original of its owner; the asserts only compare the low bits. */
  lemma MergedShiftIff(r: seq<Segment>, orig: seq<Segment>, owner: seq<nat>, f: nat, t: nat)
    requires Image(r, orig, owner) && First(owner, f) && f <= t < |owner| && owner[f] == owner[t]
    ensures SameShift(r[owner[t]], orig[t]) <==> SameShift(orig[f], orig[t])
  {
  }

  // ---------- nothing is left open ----------

  /** Which originals are joined decides the owners. */
  lemma {:induction false} OwnersUnique(orig: seq<Segment>, owner: seq<nat>, n: nat, owner': seq<nat>, n': nat, t: nat)
    requires |owner| == |orig| == |owner'| && Owners(owner, n) && Owners(owner', n')
    requires JoinsOk(orig, owner) && JoinsOk(orig, owner') && t < |orig|
    ensures owner[t] == owner'[t]
    decreases t
  {
    if t > 0 {
      OwnersUnique(orig, owner, n, owner', n', t - 1);
      assert Joined(orig, owner, t) && Joined(orig, owner', t);
    }
  }

  /** Every result segment has a first and a last original. */
  lemma {:induction false} EndsOf(owner: seq<nat>, n: nat, j: nat) returns (f: nat, l: nat)
    requires Owners(owner, n) && j < n
    ensures First(owner, f) && Last(owner, l) && owner[f] == j == owner[l]
  {
    f := 0;
    while owner[f] != j
      invariant f < |owner| && First(owner, f) && owner[f] <= j
      decreases |owner| - f
    {
      f := NextFirst(owner, n, f, j);
    }
    l := f;
    while l < |owner| - 1 && owner[l + 1] == owner[l]
      invariant l < |owner| && owner[l] == j
      decreases |owner| - l
    {
      l := l + 1;
    }
  }

  lemma {:induction false} NextFirst(owner: seq<nat>, n: nat, f: nat, j: nat) returns (g: nat)
    requires Owners(owner, n) && f < |owner| && owner[f] < j < n
    ensures f < g < |owner| && First(owner, g) && owner[g] == owner[f] + 1
    decreases |owner| - f
  {
    if owner[f + 1] == owner[f] {
      g := NextFirst(owner, n, f + 1, j);
    } else {
      g := f + 1;
    }
  }

  lemma SameSegment(r: Segment, r': Segment, orig: seq<Segment>, f: nat, l: nat)
    requires f < |orig| && l < |orig| && Starts(r, orig, f) && Starts(r', orig, f)
    requires SameShift(r, orig[f]) && SameShift(r', orig[f]) && SameTail(r, orig[l]) && SameTail(r', orig[l])
    requires r.flags == r'.flags && r.remapped == r'.remapped
    ensures r == r'
  {
  }

  /** What is proved of the result leaves no choice: there is one such list at most. */
  lemma ResultUnique(r: seq<Segment>, r': seq<Segment>, orig: seq<Segment>, owner: seq<nat>, owner': seq<nat>, and: (nat, nat) -> nat)
    requires |owner| == |orig| == |owner'|
    requires Image(r, orig, owner) && Exact(r, orig, owner) && RemapsOk(r, orig, owner, and)
    requires Image(r', orig, owner') && Exact(r', orig, owner') && RemapsOk(r', orig, owner', and)
    ensures r == r' && owner == owner'
  {
    hide FlagsOf, MappedTwice, Ordered, SizesOk, Covers;
    forall t | 0 <= t < |orig|
      ensures owner[t] == owner'[t]
    {
      OwnersUnique(orig, owner, |r|, owner', |r'|, t);
    }
    assert owner == owner' && |r| == |r'|;
    forall j | 0 <= j < |r|
      ensures r[j] == r'[j]
    {
      var f, l := EndsOf(owner, |r|, j);
      SameSegment(r[j], r'[j], orig, f, l);
    }
  }

  // ---------- the code ----------

  /** The segment list of a struct ta_elf. */
  class Elf {
    var segs: seq<Segment>

    constructor (segs: seq<Segment>)
      ensures this.segs == segs
    {
      this.segs := segs;
    }

    /** The sanity loop. */
    method SanityCheck() returns (ok: bool)
      ensures ok <==> AllSane(segs)
    {
      var align := 0;
      for i := 0 to |segs|
        invariant align == if i == 0 then 0 else segs[0].align
        invariant forall k | 0 <= k < i :: Sane(segs[k], segs[0].align) && (k > 0 ==> After(segs[k - 1], segs[k]))
      {
        var s := segs[i];
        assert AllSane(segs) ==> Sane(segs[i], segs[0].align) && (i > 0 ==> After(segs[i - 1], segs[i]));
        if s.align < PAGE || End(s) >= TWO64 || s.filesz > s.memsz || s.offset % PAGE != s.vaddr % PAGE {
          return false;
        }
        if i > 0 && !After(segs[i - 1], s) {
          return false;
        }
        assert i > 0 ==> Sane(segs[0], segs[0].align);
        if align == 0 {
          align := s.align;
        }
        if align != s.align {
          return false;
        }
      }
      return true;
    }

    /** The list up to i is what the originals up to |owner| have become, and no assert has failed. */
    ghost predicate Progress(orig: seq<Segment>, owner: seq<nat>, i: nat, and: (nat, nat) -> nat)
      reads this
    {
      && 1 <= i <= |segs| && 1 <= |owner| <= |orig| && segs[i..] == orig[|owner|..] && Image(segs[..i], orig, owner)
      && segs[i - 1].offset - segs[i - 1].vaddr == Shift(orig, |owner| - 1)
      && RemapsOk(segs[..i], orig, owner, and) && Exact(segs[..i], orig, owner)
      && forall t | 1 <= t < |owner| :: !RefusedAt(orig, and, t)
    }

    /** Case 1: the segment at i shares a page with the one before. */
    method Merge(i: nat, mask: nat, and: (nat, nat) -> nat, ghost orig: seq<Segment>, ghost owner: seq<nat>) returns (ok: bool)
      requires AllSane(orig) && Progress(orig, owner, i, and) && i < |segs| && mask == orig[0].align - 1
      requires RoundDown(segs[i].vaddr) < End(segs[i - 1])
      modifies this
      ensures if ok then Progress(orig, owner + [i - 1], i, and) else RefusedAt(orig, and, |owner|)
    {
      hide Image, Shift, RemapsOk, Exact;
      var s, prev := segs[i], segs[i - 1];
      ghost var r := segs[..i];
      assert s == orig[|owner|];
      LastTail(r, orig, owner);
      ShiftStep(orig, |owner|);
      if and(s.vaddr, mask) != and(s.offset, mask) || prev.memsz != prev.filesz {
        return false;
      }
      ImageMerge(r, orig, owner);
      ImageOwners(r, orig, owner);
      RemapsMerge(r, orig, owner, and, Merged(prev, s));
      ExactMerge(r, orig, owner);
      segs := segs[..i - 1] + [Merged(prev, s)] + segs[i + 1..];
      assert segs[..i] == r[i - 1 := Merged(prev, s)];
      assert segs[i..] == orig[|owner|..][1..];
      return true;
    }

    /** Case 2, and the alignment of a segment that starts on a page of its own. */
    method Align(i: nat, mask: nat, and: (nat, nat) -> nat, ghost orig: seq<Segment>, ghost owner: seq<nat>) returns (ok: bool)
      requires AllSane(orig) && Progress(orig, owner, i, and) && i < |segs| && mask == orig[0].align - 1
      requires RoundDown(segs[i].vaddr) >= End(segs[i - 1])
      modifies this
      ensures if ok then Progress(orig, owner + [i], i + 1, and) else RefusedAt(orig, and, |owner|)
    {
      hide Image, Shift, RemapsOk, Exact;
      var s, prev := segs[i], segs[i - 1];
      ghost var r := segs[..i];
      assert s == orig[|owner|];
      LastTail(r, orig, owner);
      ShiftStep(orig, |owner|);
      var remapped := s.remapped;
      if and(s.offset, mask) != 0 && RoundDown(s.offset) < (prev.offset + prev.filesz) % TWO64 {
        if s.flags & PF_W == 0 {
          return false;
        }
        remapped := true;
      }
      ImageAlign(r, orig, owner, remapped);
      ImageOwners(r, orig, owner);
      RemapsAlign(r, orig, owner, and, PageAligned(s, remapped));
      assert Sane(s, orig[0].align);
      ExactAlign(r, orig, owner, remapped);
      segs := segs[i := PageAligned(s, remapped)];
      assert segs[..i + 1] == r + [PageAligned(s, remapped)];
      assert segs[i + 1..] == orig[|owner|..][1..];
      return true;
    }

    /** adjust_segments(): false stands for a failed assert. */
    method AdjustSegments(and: (nat, nat) -> nat) returns (ok: bool, ghost owner: seq<nat>)
      modifies this
      ensures ok <==> AllSane(old(segs)) && !Refused(old(segs), and)
      ensures ok ==> |owner| == |old(segs)| && Image(segs, old(segs), owner) && RemapsOk(segs, old(segs), owner, and)
      ensures ok ==> Exact(segs, old(segs), owner)
    {
      hide Image, Shift, RefusedAt, RemapsOk, Exact;
      owner := [];
      ok := SanityCheck();
      if !ok {
        return;
      }
      ghost var orig := segs;
      if segs == [] {
        ImageEmpty(and);
        return;
      }
      assert Sane(orig[0], orig[0].align);
      var mask := segs[0].align - 1;
      var i := 1;
      owner := [0];
      ImageStart(orig);
      RemapsStart(orig, and);
      ExactStart(orig);
      ShiftStep(orig, 0);
      assert segs[..1] == [orig[0]];
      while i < |segs|
        invariant Progress(orig, owner, i, and)
        decreases |orig| - |owner|
      {
        if RoundDown(segs[i].vaddr) < End(segs[i - 1]) {
          ok := Merge(i, mask, and, orig, owner);
          if !ok {
            return;
          }
          owner := owner + [i - 1];
        } else {
          ok := Align(i, mask, and, orig, owner);
          if !ok {
            return;
          }
          owner := owner + [i];
          i := i + 1;
        }
      }
      assert segs[..i] == segs;
      return true, owner;
    }
  }

  lemma ShiftStep(orig: seq<Segment>, t: nat)
    requires t < |orig| && AllSane(orig)
    ensures t > 0 && SharesPage(orig, t) ==> Shift(orig, t) == Shift(orig, t - 1)
    ensures !(t > 0 && SharesPage(orig, t)) ==> Shift(orig, t) == orig[t].offset - orig[t].vaddr
    ensures RoundDown(orig[t].offset) - RoundDown(orig[t].vaddr) == orig[t].offset - orig[t].vaddr
  {
    assert Sane(orig[t], orig[0].align);
  }

  lemma LastTail(r: seq<Segment>, orig: seq<Segment>, owner: seq<nat>)
    requires Image(r, orig, owner) && |owner| > 0
    ensures r != [] && SameTail(r[|r| - 1], orig[|owner| - 1])
  {
  }

  lemma ImageEmpty(and: (nat, nat) -> nat)
    ensures Image([], [], []) && RemapsOk([], [], [], and) && Exact([], [], [])
  {
  }

  /** A list that passes every assert although the second segment does not keep its place in the file. */
  method MisplacedMerge() returns (elf: Elf, second: Segment)
    ensures |elf.segs| == 1 && Contains(elf.segs[0], second) && !SameShift(elf.segs[0], second)
  {
    var first := Segment(0, 0, 0x1100, 0x1100, 5, PAGE, false);
    second := Segment(0x3200, 0x1200, 0x100, 0x100, 6, PAGE, false);
    elf := new Elf([first, second]);
    var ok, owner := elf.AdjustSegments((x, m) => x % (m + 1));
    assert ok;
  }

  /** A second segment that starts on a later page than the first one ends on. */
  lemma TwoResults(r: seq<Segment>, orig: seq<Segment>, owner: seq<nat>, and: (nat, nat) -> nat)
    requires |orig| == 2 == |owner| && AllSane(orig) && RoundDown(orig[1].vaddr) >= End(orig[0])
    requires Image(r, orig, owner) && Exact(r, orig, owner) && RemapsOk(r, orig, owner, and)
    ensures r == [orig[0], PageAligned(orig[1], orig[1].remapped || MappedTwice(orig, and, 1))]
  {
    hide Image, Exact, RemapsOk, MappedTwice, PageAligned;
    var remapped := orig[1].remapped || MappedTwice(orig, and, 1);
    var m := PageAligned(orig[1], remapped);
    assert Sane(orig[1], orig[0].align);
    assert [orig[0]] + [m] == [orig[0], m] && [0] + [1] == [0, 1];
    ImageStart(orig);
    ImageAlign([orig[0]], orig, [0], remapped);
    ExactStart(orig);
    ExactAlign([orig[0]], orig, [0], remapped);
    RemapsStart(orig, and);
    AlignedMark(orig[1], remapped);
    RemapsAlign([orig[0]], orig, [0], and, m);
    ResultUnique(r, [orig[0], m], orig, owner, [0, 1], and);
  }

  lemma AlignedMark(s: Segment, remapped: bool)
    ensures PageAligned(s, remapped).remapped == remapped
  {
  }

  /** Two segments on pages of their own, with a page of the file in common. */
  function SharedFile(flags: bv32): seq<Segment> {
    [Segment(0, 0, 0x1100, 0x1100, 5, 4096, false), Segment(0x1200, 0x2200, 0x100, 0x100, flags, 4096, false)]
  }

  function Low(): (nat, nat) -> nat {
    (x, m) => x % (m + 1)
  }

  lemma SharedFileFacts(flags: bv32)
    ensures AllSane(SharedFile(flags)) && MappedTwice(SharedFile(flags), Low(), 1)
    ensures Refused(SharedFile(flags), Low()) <==> flags & 2 == 0
  {
    var orig := SharedFile(flags);
    assert Shift(orig, 0) == 0 && !SharesPage(orig, 1);
    assert MappedTwice(orig, Low(), 1);
    assert RefusedAt(orig, Low(), 1) <==> flags & 2 == 0;
  }

  /** The second is mapped from the start of that page and marked for remapping, if it is writeable. */
  method SharedFilePage(flags: bv32) returns (ok: bool, elf: Elf)
    ensures ok <==> flags & 2 != 0
    ensures ok ==> elf.segs == [Segment(0, 0, 0x1100, 0x1100, 5, 4096, false), Segment(0x1000, 0x2000, 0x300, 0x300, flags, 4096, true)]
  {
    hide Image, Exact, RemapsOk, AllSane, Refused, MappedTwice;
    elf := new Elf(SharedFile(flags));
    ghost var owner: seq<nat>;
    ok, owner := elf.AdjustSegments(Low());
    SharedFileFacts(flags);
    if ok {
      TwoResults(elf.segs, SharedFile(flags), owner, Low());
    }
  }

  /** Two segments on one page, with k pages more between them in the file than in memory. */
  function Apart(k: nat): seq<Segment> {
    [Segment(0, 0, 0x1100, 0x1100, 5, 0x10000, false), Segment(0x1200 + 0x1000 * k, 0x1200, 0x100, 0x100, 6, 0x10000, false)]
  }

  lemma ApartFacts(k: nat)
    ensures AllSane(Apart(k)) && (Refused(Apart(k), Low()) <==> k % 16 != 0)
  {
    var orig := Apart(k);
    assert SharesPage(orig, 1);
    LowBits(k);
    assert RefusedAt(orig, Low(), 1) <==> k % 16 != 0;
  }

  lemma LowBits(k: nat)
    ensures (0x1200 + 0x1000 * k) % 0x10000 == 0x1200 <==> k % 16 == 0
  {
    assert 0x1000 * k == 0x10000 * (k / 16) + 0x1000 * (k % 16);
    assert (0x1200 + 0x1000 * k) % 0x10000 == (0x1200 + 0x1000 * (k % 16)) % 0x10000;
  }

  /** They are merged if and only if these are whole multiples of the 64 KiB alignment. */
  method LowBitsDecide(k: nat) returns (ok: bool)
    ensures ok <==> k % 16 == 0
  {
    hide AllSane, Refused;
    var elf := new Elf(Apart(k));
    ghost var owner: seq<nat>;
    ok, owner := elf.AdjustSegments(Low());
    ApartFacts(k);
  }
}

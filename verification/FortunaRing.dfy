/** The event ring of core/crypto/rng_fortuna.c as interleaved atomic steps.

    Writers hold a spinlock, so at most one is between its steps; the reader holds a mutex. The
    two sides meet only in the indices begin and end, and in the eight slots. */
module FortunaRing {

  const SLOTS: nat := 8
  const DATA_SIZE: nat := 4

  datatype Event = Event(snum: nat, pnum: nat, data: seq<bv8>)

  /** The slot that is there from the start. */
  const ZERO_EVENT: Event := Event(0, 0, [])

  /** Only the first four bytes of an event fit. */
  function Truncated(e: Event): Event {
    if |e.data| <= DATA_SIZE then e else e.(data := e.data[..DATA_SIZE])
  }

  /** Where push_ring_buffer() is, and drain_ring_buffer() with pop_ring_buffer() inside it. */
  datatype Writer = WIdle | WFilling(event: Event) | WFilled(event: Event)
  datatype Reader = RIdle | RDraining | RReading | RRead(event: Event)

  /** accepted and popped are histories; drains is the history of popped, one list for each drain. */
  datatype Ring = Ring(elem: seq<Event>, begin: nat, end: nat, writer: Writer, reader: Reader,
                       accepted: seq<Event>, popped: seq<Event>, drains: seq<seq<Event>>)

  predicate Init(r: Ring) {
    && |r.elem| == SLOTS && (forall i | 0 <= i < SLOTS :: r.elem[i] == ZERO_EVENT)
    && r.begin == 0 == r.end && r.writer == WIdle && r.reader == RIdle && r.accepted == [] == r.popped && r.drains == []
  }

  function NextBegin(r: Ring): nat {
    (r.begin + 1) % SLOTS
  }

  /** The writer loads end and gives up when the ring is full. */
  predicate WriterStart(r: Ring, r': Ring, e: Event) {
    r.writer == WIdle && r' == if NextBegin(r) == r.end then r else r.(writer := WFilling(Truncated(e)))
  }

  /** The writer stores some of the fields: the slot may hold anything meanwhile. */
  predicate WriterTears(r: Ring, r': Ring, garbage: Event) {
    r.writer.WFilling? && |r.elem| == SLOTS && r' == r.(elem := r.elem[NextBegin(r) := garbage])
  }

  predicate WriterFills(r: Ring, r': Ring) {
    && r.writer.WFilling? && |r.elem| == SLOTS
    && r' == r.(elem := r.elem[NextBegin(r) := r.writer.event], writer := WFilled(r.writer.event))
  }

  /** The atomic store to begin publishes the event. */
  predicate WriterPublishes(r: Ring, r': Ring) {
    r.writer.WFilled? && r' == r.(begin := NextBegin(r), writer := WIdle, accepted := r.accepted + [r.writer.event])
  }

  predicate ReaderBegins(r: Ring, r': Ring) {
    r.reader == RIdle && r' == r.(reader := RDraining, drains := r.drains + [[]])
  }

  /** The reader loads begin, and the drain ends when there is nothing to pop. */
  predicate ReaderStart(r: Ring, r': Ring) {
    r.reader == RDraining && r' == if r.begin == r.end then r.(reader := RIdle) else r.(reader := RReading)
  }

  predicate ReaderReads(r: Ring, r': Ring) {
    r.reader == RReading && r.end < |r.elem| && r' == r.(reader := RRead(r.elem[r.end]))
  }

  function AppendToLast(ds: seq<seq<Event>>, e: Event): seq<seq<Event>>
    requires ds != []
  {
    ds[..|ds| - 1] + [ds[|ds| - 1] + [e]]
  }

  /** The slot is given back. The drain ends when the event is empty, or when add_event() fails on it. */
  predicate ReaderAdvances(r: Ring, r': Ring, failed: bool) {
    && r.reader.RRead? && r.drains != []
    && r' == r.(end := (r.end + 1) % SLOTS, popped := r.popped + [r.reader.event],
                reader := if r.reader.event.data == [] || failed then RIdle else RDraining,
                drains := AppendToLast(r.drains, r.reader.event))
  }

  ghost predicate Next(r: Ring, r': Ring) {
    || (exists e :: WriterStart(r, r', e))
    || (exists e :: WriterTears(r, r', e))
    || WriterFills(r, r') || WriterPublishes(r, r')
    || ReaderBegins(r, r') || ReaderStart(r, r') || ReaderReads(r, r') || (exists failed :: ReaderAdvances(r, r', failed))
  }

  // ---------- the invariant ----------

  /** The number of unread slots, end to begin inclusive. */
  function Unread(r: Ring): nat
    requires r.begin < SLOTS && r.end < SLOTS
  {
    (r.begin + SLOTS - r.end) % SLOTS + 1
  }

  /** Everything that ever was at the front of the queue: the zero slot, then the accepted events. */
  function History(r: Ring): seq<Event> {
    [ZERO_EVENT] + r.accepted
  }

  /** The i-th unread slot. */
  function Slot(elem: seq<Event>, end: nat, i: nat): Event
    requires |elem| == SLOTS
  {
    elem[(end + i) % SLOTS]
  }

  ghost predicate SlotsHold(r: Ring)
    requires |r.elem| == SLOTS && r.begin < SLOTS && r.end < SLOTS
    requires |r.popped| + Unread(r) == |History(r)|
  {
    forall i | 0 <= i < Unread(r) :: Slot(r.elem, r.end, i) == History(r)[|r.popped| + i]
  }

  function Flatten(ds: seq<seq<Event>>): seq<Event> {
    if ds == [] then [] else Flatten(ds[..|ds| - 1]) + ds[|ds| - 1]
  }

  /** Only the last event of a drain can be empty. */
  ghost predicate OneDrain(d: seq<Event>) {
    forall j | 0 <= j < |d| - 1 :: d[j].data != []
  }

  ghost predicate AllFilled(d: seq<Event>) {
    forall j | 0 <= j < |d| :: d[j].data != []
  }

  ghost predicate DrainsOk(r: Ring) {
    && Flatten(r.drains) == r.popped
    && (forall i | 0 <= i < |r.drains| :: OneDrain(r.drains[i]))
    && (r.reader != RIdle ==> r.drains != [] && AllFilled(r.drains[|r.drains| - 1]))
  }

  ghost predicate Inv(r: Ring) {
    QueueInv(r) && DrainsOk(r)
  }

  ghost predicate QueueInv(r: Ring) {
    && |r.elem| == SLOTS && r.begin < SLOTS && r.end < SLOTS
    && |r.popped| + Unread(r) == |History(r)|
    && r.popped <= History(r)
    && SlotsHold(r)
    && (r.writer != WIdle ==> NextBegin(r) != r.end)
    && (r.writer.WFilled? ==> r.elem[NextBegin(r)] == r.writer.event)
    && (r.reader == RReading || r.reader.RRead? ==> r.begin != r.end)
    && (r.reader.RRead? ==> r.reader.event == r.elem[r.end])
  }

  lemma InitInv(r: Ring)
    requires Init(r)
    ensures Inv(r)
  {
  }

  /** The slot that a writer owns is none of the unread ones. */
  lemma WriterSlotIsFree(r: Ring, i: nat)
    requires r.begin < SLOTS && r.end < SLOTS && NextBegin(r) != r.end && i < Unread(r)
    ensures (r.end + i) % SLOTS != NextBegin(r) && Unread(r) < SLOTS
  {
  }

  lemma WriterStoreKeeps(r: Ring, e: Event)
    requires QueueInv(r) && r.writer != WIdle
    ensures QueueInv(r.(elem := r.elem[NextBegin(r) := e], writer := WFilling(e)))
    ensures QueueInv(r.(elem := r.elem[NextBegin(r) := e], writer := WFilled(e)))
  {
    var elem' := r.elem[NextBegin(r) := e];
    forall i | 0 <= i < Unread(r)
      ensures Slot(elem', r.end, i) == Slot(r.elem, r.end, i)
    {
      WriterSlotIsFree(r, i);
    }
    WriterSlotIsFree(r, 0);
  }

  lemma UnreadGrows(begin: nat, end: nat)
    requires begin < SLOTS && end < SLOTS && (begin + 1) % SLOTS != end
    ensures ((begin + 1) % SLOTS + SLOTS - end) % SLOTS == (begin + SLOTS - end) % SLOTS + 1
    ensures (end + ((begin + SLOTS - end) % SLOTS + 1)) % SLOTS == (begin + 1) % SLOTS
  {
  }

  lemma UnreadShrinks(begin: nat, end: nat)
    requires begin < SLOTS && end < SLOTS && begin != end
    ensures (begin + SLOTS - (end + 1) % SLOTS) % SLOTS == (begin + SLOTS - end) % SLOTS - 1
  {
  }

  lemma SlotAfter(elem: seq<Event>, end: nat, i: nat)
    requires |elem| == SLOTS
    ensures Slot(elem, (end + 1) % SLOTS, i) == Slot(elem, end, i + 1)
  {
    SlotIndex(end + 1, i);
  }

  lemma SlotIndex(m: nat, i: nat)
    ensures (m % SLOTS + i) % SLOTS == (m + i) % SLOTS
  {
    var q := (m % SLOTS + i) / SLOTS;
    assert m + i == (m / SLOTS + q) * SLOTS + (m % SLOTS + i) % SLOTS;
  }

  lemma PublishKeeps(r: Ring, r': Ring)
    requires QueueInv(r) && WriterPublishes(r, r')
    ensures QueueInv(r')
  {
    hide Slot;
    UnreadGrows(r.begin, r.end);
    assert SlotsHold(r') by {
      forall i | 0 <= i < Unread(r')
        ensures Slot(r'.elem, r'.end, i) == History(r')[|r'.popped| + i]
      {
        if i < Unread(r) {
          assert Slot(r.elem, r.end, i) == History(r)[|r.popped| + i];
        } else {
          SlotIs(r.elem, r.end, i);
        }
      }
    }
  }

  lemma SlotIs(elem: seq<Event>, end: nat, i: nat)
    requires |elem| == SLOTS
    ensures Slot(elem, end, i) == elem[(end + i) % SLOTS]
  {
  }

  lemma AdvanceKeeps(r: Ring, r': Ring, failed: bool)
    requires QueueInv(r) && ReaderAdvances(r, r', failed)
    ensures QueueInv(r')
  {
    hide Slot;
    UnreadShrinks(r.begin, r.end);
    SlotIs(r.elem, r.end, 0);
    assert Slot(r.elem, r.end, 0) == History(r)[|r.popped| + 0];
    assert SlotsHold(r') by {
      forall i | 0 <= i < Unread(r')
        ensures Slot(r'.elem, r'.end, i) == History(r')[|r'.popped| + i]
      {
        SlotAfter(r.elem, r.end, i);
        assert Slot(r.elem, r.end, i + 1) == History(r)[|r.popped| + (i + 1)];
      }
    }
  }

  lemma StartKeeps(r: Ring, r': Ring, e: Event)
    requires QueueInv(r) && WriterStart(r, r', e)
    ensures QueueInv(r')
  {
    hide Slot;
  }

  lemma TearsKeeps(r: Ring, r': Ring, e: Event)
    requires QueueInv(r) && WriterTears(r, r', e)
    ensures QueueInv(r')
  {
    hide Slot;
    WriterStoreKeeps(r, e);
  }

  lemma FillsKeeps(r: Ring, r': Ring)
    requires QueueInv(r) && WriterFills(r, r')
    ensures QueueInv(r')
  {
    WriterStoreKeeps(r, r.writer.event);
  }

  lemma ReaderKeeps(r: Ring, r': Ring)
    requires QueueInv(r) && (ReaderBegins(r, r') || ReaderStart(r, r') || ReaderReads(r, r'))
    ensures QueueInv(r')
  {
    hide Slot;
  }

  lemma FlattenAppend(ds: seq<seq<Event>>, e: Event)
    requires ds != []
    ensures Flatten(AppendToLast(ds, e)) == Flatten(ds) + [e]
  {
    var n := |ds| - 1;
    assert AppendToLast(ds, e)[..n] == ds[..n];
    assert Flatten(ds[..n]) + (ds[n] + [e]) == Flatten(ds[..n]) + ds[n] + [e];
  }

  lemma FlattenNew(ds: seq<seq<Event>>)
    ensures Flatten(ds + [[]]) == Flatten(ds)
  {
    assert (ds + [[]])[..|ds|] == ds;
  }

  /** What the reader does to the record of its drains. */
  lemma DrainsKept(r: Ring, r': Ring)
    requires DrainsOk(r) && (ReaderBegins(r, r') || ReaderStart(r, r') || ReaderReads(r, r') || exists failed :: ReaderAdvances(r, r', failed))
    ensures DrainsOk(r')
  {
    hide Flatten;
    FlattenNew(r.drains);
    if r.drains != [] && r.reader.RRead? {
      FlattenAppend(r.drains, r.reader.event);
    }
  }

  /** Every atomic step keeps the invariant: unread slots are never written. */
  lemma NextInv(r: Ring, r': Ring)
    requires Inv(r) && Next(r, r')
    ensures Inv(r')
    ensures r.accepted <= r'.accepted && r.popped <= r'.popped
  {
    hide QueueInv, Flatten, OneDrain, AllFilled;
    if e :| WriterStart(r, r', e) {
      StartKeeps(r, r', e);
    } else if e :| WriterTears(r, r', e) {
      TearsKeeps(r, r', e);
    } else if WriterFills(r, r') {
      FillsKeeps(r, r');
    } else if WriterPublishes(r, r') {
      PublishKeeps(r, r');
    } else if failed :| ReaderAdvances(r, r', failed) {
      AdvanceKeeps(r, r', failed);
      DrainsKept(r, r');
    } else {
      ReaderKeeps(r, r');
      DrainsKept(r, r');
    }
  }

  ghost predicate Run(rs: seq<Ring>) {
    |rs| > 0 && Init(rs[0]) && forall i | 0 <= i < |rs| - 1 :: Next(rs[i], rs[i + 1])
  }

  /** In every state of every run: one to eight slots are unread, they hold the accepted events that
      were not popped yet, and what was popped is a prefix of the zero slot followed by the accepted
      events, each once and in order. */
  lemma {:induction false} RunSafe(rs: seq<Ring>, n: nat)
    requires Run(rs) && n < |rs|
    ensures Inv(rs[n])
    ensures 1 <= Unread(rs[n]) <= SLOTS
    ensures rs[n].popped + QueueOf(rs[n]) == [ZERO_EVENT] + rs[n].accepted
    decreases n
  {
    if n == 0 {
      InitInv(rs[0]);
    } else {
      RunSafe(rs, n - 1);
      assert Next(rs[n - 1], rs[n - 1 + 1]);
      NextInv(rs[n - 1], rs[n]);
    }
    QueueIsRest(rs[n]);
  }

  /** The unread slots in order. */
  function QueueOf(r: Ring): seq<Event>
    requires |r.elem| == SLOTS && r.begin < SLOTS && r.end < SLOTS
  {
    seq(Unread(r), i requires 0 <= i < Unread(r) => Slot(r.elem, r.end, i))
  }

  lemma QueueIsRest(r: Ring)
    requires QueueInv(r)
    ensures r.popped + QueueOf(r) == History(r)
  {
    var q := r.popped + QueueOf(r);
    forall i | 0 <= i < |q|
      ensures q[i] == History(r)[i]
    {
      if |r.popped| <= i {
        assert Slot(r.elem, r.end, i - |r.popped|) == History(r)[|r.popped| + (i - |r.popped|)];
      }
    }
  }

  // ---------- what the drains hand on ----------

  /** The events of a drain that go to add_event(): those before the first empty one. */
  function Taken(d: seq<Event>): seq<Event>
    decreases d
  {
    if d == [] || d[0].data == [] then [] else [d[0]] + Taken(d[1..])
  }

  function TakenAll(ds: seq<seq<Event>>): seq<Event> {
    if ds == [] then [] else TakenAll(ds[..|ds| - 1]) + Taken(ds[|ds| - 1])
  }

  function NonEmpty(es: seq<Event>): seq<Event> {
    if es == [] then []
    else NonEmpty(es[..|es| - 1]) + if es[|es| - 1].data == [] then [] else [es[|es| - 1]]
  }

  lemma {:induction false} NonEmptySplit(a: seq<Event>, b: seq<Event>)
    ensures NonEmpty(a + b) == NonEmpty(a) + NonEmpty(b)
    decreases |b|
  {
    if b == [] {
      assert a + b == a;
    } else {
      var n := |b| - 1;
      assert (a + b)[..|a + b| - 1] == a + b[..n];
      NonEmptySplit(a, b[..n]);
    }
  }

  lemma {:induction false} TakenIs(d: seq<Event>)
    requires OneDrain(d)
    ensures Taken(d) == NonEmpty(d)
    decreases |d|
  {
    if d != [] {
      assert d == [d[0]] + d[1..] && [d[0]][..0] == [];
      NonEmptySplit([d[0]], d[1..]);
      assert NonEmpty([d[0]]) == if d[0].data == [] then [] else [d[0]];
      if |d| > 1 {
        TakenIs(d[1..]);
      }
    }
  }

  lemma {:induction false} TakenAllIs(ds: seq<seq<Event>>)
    requires forall i | 0 <= i < |ds| :: OneDrain(ds[i])
    ensures TakenAll(ds) == NonEmpty(Flatten(ds))
  {
    if ds != [] {
      var n := |ds| - 1;
      TakenAllIs(ds[..n]);
      TakenIs(ds[n]);
      NonEmptySplit(Flatten(ds[..n]), ds[n]);
    }
  }

  /** In every state of every run the drains together have handed on the non-empty accepted events, in order and
      without a gap, up to where the reader is. */
  lemma RunDelivers(rs: seq<Ring>, n: nat)
    requires Run(rs) && n < |rs|
    ensures TakenAll(rs[n].drains) == NonEmpty(rs[n].popped)
    ensures TakenAll(rs[n].drains) <= NonEmpty(rs[n].accepted)
  {
    hide SlotsHold, Slot, Run;
    RunSafe(rs, n);
    var r := rs[n];
    TakenAllIs(r.drains);
    var queue := QueueOf(r);
    NonEmptySplit(r.popped, queue);
    NonEmptySplit([ZERO_EVENT], r.accepted);
    assert [ZERO_EVENT][..0] == [];
    assert NonEmpty([ZERO_EVENT]) == [];
    assert [] + NonEmpty(r.accepted) == NonEmpty(r.accepted);
  }

  lemma {:induction false} FlattenEmpty(ds: seq<seq<Event>>, i: nat)
    requires i < |ds| && forall k | 0 <= k < i :: ds[k] == []
    ensures ds[i] <= Flatten(ds)
    decreases |ds|
  {
    var n := |ds| - 1;
    if i < n {
      FlattenEmpty(ds[..n], i);
    } else {
      FlattenNone(ds[..n]);
    }
  }

  lemma {:induction false} FlattenNone(ds: seq<seq<Event>>)
    requires forall k | 0 <= k < |ds| :: ds[k] == []
    ensures Flatten(ds) == []
  {
    if ds != [] {
      FlattenNone(ds[..|ds| - 1]);
    }
  }

  /** The first drain that pops anything pops the all-zero slot, ends there and hands nothing on, whatever
      else is in the ring. */
  lemma FirstDrainStops(rs: seq<Ring>, n: nat, i: nat)
    requires Run(rs) && n < |rs| && i < |rs[n].drains| && rs[n].drains[i] != []
    requires forall k | 0 <= k < i :: rs[n].drains[k] == []
    ensures rs[n].drains[i] == [ZERO_EVENT] && Taken(rs[n].drains[i]) == []
  {
    hide Run, SlotsHold;
    RunSafe(rs, n);
    var r := rs[n];
    FlattenEmpty(r.drains, i);
    var d := r.drains[i];
    assert d[0] == r.popped[0] == History(r)[0];
    assert OneDrain(d);
  }
}

/** What a push and a pop do to the event ring of core/crypto/rng_fortuna.c: when they take place, what they carry, and
    which pushes the accepted events come from. */
module FortunaQueue {
  import opened FortunaRing

  // ---------- push ----------

  /** t is e with no more than its first four bytes. */
  ghost predicate Carries(t: Event, e: Event) {
    && t.snum == e.snum && t.pnum == e.pnum
    && |t.data| == (if |e.data| < 4 then |e.data| else 4)
    && forall i | 0 <= i < |t.data| :: t.data[i] == e.data[i]
  }

  /** A push gives up if and only if all eight slots are unread, and then changes nothing; otherwise it goes on
      with the source, the pool and the first bytes that it was given. */
  lemma PushTakes(r: Ring, r': Ring, e: Event)
    requires QueueInv(r) && WriterStart(r, r', e)
    ensures r'.writer == WIdle <==> Unread(r) == 8
    ensures Unread(r) < 8 ==> r'.writer.WFilling? && Carries(r'.writer.event, e)
    ensures r'.(writer := WIdle) == r
  {
    hide SlotsHold;
  }

  /** Publishing puts that event, and nothing else, at the end of the queue. */
  lemma PublishAppends(r: Ring, r': Ring)
    requires QueueInv(r) && WriterPublishes(r, r')
    ensures QueueInv(r') && Unread(r') == Unread(r) + 1
    ensures r'.accepted == r.accepted + [r.writer.event] && QueueOf(r') == QueueOf(r) + [r.writer.event]
    ensures r'.popped == r.popped && r'.reader == r.reader && r'.writer == WIdle
  {
    PublishKeeps(r, r');
    UnreadGrows(r.begin, r.end);
    QueueEnd(r, r');
  }

  lemma QueueEnd(r: Ring, r': Ring)
    requires QueueInv(r) && QueueInv(r') && r'.popped == r.popped && r.writer != WIdle
    requires r'.accepted == r.accepted + [r.writer.event]
    ensures QueueOf(r') == QueueOf(r) + [r.writer.event]
  {
    hide QueueOf, SlotsHold;
    QueueIsRest(r);
    QueueIsRest(r');
    var n := |r.popped|;
    assert QueueOf(r) == History(r)[n..];
    assert History(r') == History(r) + [r.writer.event];
    assert QueueOf(r') == History(r')[n..];
  }

  /** From every state with an idle writer and a slot to spare, a push that nobody interrupts gets its event into
      the queue. */
  lemma Push(r: Ring, e: Event) returns (r1: Ring, r2: Ring, r3: Ring)
    requires QueueInv(r) && r.writer == WIdle && Unread(r) < 8
    ensures WriterStart(r, r1, e) && WriterFills(r1, r2) && WriterPublishes(r2, r3)
    ensures Next(r, r1) && Next(r1, r2) && Next(r2, r3)
    ensures |r3.accepted| == |r.accepted| + 1 && r.accepted <= r3.accepted && Carries(r3.accepted[|r.accepted|], e)
    ensures QueueOf(r3) == QueueOf(r) + [r3.accepted[|r.accepted|]]
  {
    hide QueueInv, SlotsHold, QueueOf;
    r1 := Started(r, e);
    PushTakes(r, r1, e);
    StartKeeps(r, r1, e);
    r2 := Filled(r1);
    FillsKeeps(r1, r2);
    r3 := r2.(begin := NextBegin(r2), writer := WIdle, accepted := r2.accepted + [r2.writer.event]);
    PublishAppends(r2, r3);
    SameQueue(r, r2);
  }

  lemma Started(r: Ring, e: Event) returns (r': Ring)
    requires r.writer == WIdle
    ensures WriterStart(r, r', e)
  {
    r' := if NextBegin(r) == r.end then r else r.(writer := WFilling(Truncated(e)));
  }

  lemma Filled(r: Ring) returns (r': Ring)
    requires QueueInv(r) && r.writer.WFilling?
    ensures WriterFills(r, r')
  {
    r' := r.(elem := r.elem[NextBegin(r) := r.writer.event], writer := WFilled(r.writer.event));
  }

  lemma SameQueue(r: Ring, r': Ring)
    requires QueueInv(r) && QueueInv(r') && r'.popped == r.popped && r'.accepted == r.accepted
    ensures QueueOf(r') == QueueOf(r)
  {
    hide QueueOf, SlotsHold;
    QueueIsRest(r);
    QueueIsRest(r');
    var n := |r.popped|;
    assert QueueOf(r) == History(r)[n..] && QueueOf(r') == History(r')[n..];
  }

  // ---------- pushes among other steps ----------

  /** The event of a writer that is under way is either still to come or the next one accepted. */
  ghost predicate Comes(r: Ring, r': Ring, e: Event) {
    || (r'.accepted == r.accepted && r'.writer != WIdle && r'.writer.event == e)
    || r.accepted + [e] <= r'.accepted
  }

  lemma ComesStep(r: Ring, r': Ring, r'': Ring, e: Event)
    requires Comes(r, r', e) && Next(r', r'')
    ensures Comes(r, r'', e)
  {
  }

  /** Whatever the reader does meanwhile, a push under way is published before any other, with its own event. */
  lemma {:induction false} PendingComes(rs: seq<Ring>, m: nat, n: nat)
    requires Run(rs) && m <= n < |rs| && rs[m].writer != WIdle
    ensures Comes(rs[m], rs[n], rs[m].writer.event)
    decreases n
  {
    hide Comes, Next;
    if m < n {
      PendingComes(rs, m, n - 1);
      assert Next(rs[n - 1], rs[n - 1 + 1]);
      ComesStep(rs[m], rs[n - 1], rs[n], rs[m].writer.event);
    } else {
      ComesNow(rs[m]);
    }
  }

  lemma ComesNow(r: Ring)
    requires r.writer != WIdle
    ensures Comes(r, r, r.writer.event)
  {
  }

  /** Step k is a push of e into a ring with a slot to spare. */
  ghost predicate PushedAt(rs: seq<Ring>, k: nat, e: Event) {
    k + 1 < |rs| && WriterStart(rs[k], rs[k + 1], e) && NextBegin(rs[k]) != rs[k].end
  }

  ghost predicate Pushed(rs: seq<Ring>, n: nat, t: Event) {
    exists k: nat, e | k < n && PushedAt(rs, k, e) :: Carries(t, e)
  }

  lemma PushedLater(rs: seq<Ring>, m: nat, n: nat, t: Event)
    requires m <= n && Pushed(rs, m, t)
    ensures Pushed(rs, n, t)
  {
    hide Carries, PushedAt;
  }

  /** Every accepted event comes from an earlier push, and so does the one under way. */
  lemma {:induction false} AcceptedWasPushed(rs: seq<Ring>, n: nat)
    requires Run(rs) && n < |rs|
    ensures forall i | 0 <= i < |rs[n].accepted| :: Pushed(rs, n, rs[n].accepted[i])
    ensures rs[n].writer != WIdle ==> Pushed(rs, n, rs[n].writer.event)
    decreases n
  {
    hide Pushed, Run, Next;
    if n == 0 {
      Starts(rs);
    } else {
      AcceptedWasPushed(rs, n - 1);
      StepOf(rs, n - 1);
      var r, r' := rs[n - 1], rs[n];
      NewlyPending(rs, n - 1);
      NewlyAccepted(r, r');
      forall i | 0 <= i < |r'.accepted|
        ensures Pushed(rs, n, r'.accepted[i])
      {
        PushedLater(rs, n - 1, n, r'.accepted[i]);
      }
      if r.writer != WIdle && r'.writer != WIdle {
        PushedLater(rs, n - 1, n, r'.writer.event);
      }
    }
  }

  lemma Starts(rs: seq<Ring>)
    requires Run(rs)
    ensures rs[0].accepted == [] && rs[0].writer == WIdle
  {
  }

  lemma StepOf(rs: seq<Ring>, n: nat)
    requires Run(rs) && n + 1 < |rs|
    ensures Next(rs[n], rs[n + 1])
  {
  }

  lemma NewlyPending(rs: seq<Ring>, n: nat)
    requires n + 1 < |rs| && Next(rs[n], rs[n + 1])
    ensures rs[n].writer == WIdle && rs[n + 1].writer != WIdle ==> Pushed(rs, n + 1, rs[n + 1].writer.event)
  {
    if rs[n].writer == WIdle && rs[n + 1].writer != WIdle {
      var e :| WriterStart(rs[n], rs[n + 1], e);
      assert PushedAt(rs, n, e);
      assert Carries(rs[n + 1].writer.event, e);
    }
  }

  lemma NewlyAccepted(r: Ring, r': Ring)
    requires Next(r, r')
    ensures r'.accepted == r.accepted || (r.writer != WIdle && r'.accepted == r.accepted + [r.writer.event])
    ensures r.writer != WIdle && r'.writer != WIdle ==> r'.writer.event == r.writer.event
  {
  }

  // ---------- pop ----------

  /** A drain looks again, and stops if and only if a single slot is unread. */
  lemma PopTakes(r: Ring, r': Ring)
    requires QueueInv(r) && ReaderStart(r, r')
    ensures r'.reader == RIdle <==> Unread(r) == 1
    ensures r'.reader == RReading <==> Unread(r) > 1
    ensures r'.(reader := r.reader) == r
  {
    hide SlotsHold;
  }

  /** What it pops is the first event of the queue, and it goes on unless that is empty or was not taken. */
  lemma PopRemoves(r: Ring, r': Ring, failed: bool)
    requires QueueInv(r) && ReaderAdvances(r, r', failed)
    ensures QueueInv(r') && Unread(r) > 1 && Unread(r') == Unread(r) - 1
    ensures r'.popped == r.popped + [QueueOf(r)[0]] && QueueOf(r) == [QueueOf(r)[0]] + QueueOf(r')
    ensures r'.accepted == r.accepted && r'.writer == r.writer && r'.begin == r.begin
    ensures r'.reader == if |QueueOf(r)[0].data| == 0 || failed then RIdle else RDraining
  {
    AdvanceKeeps(r, r', failed);
    UnreadShrinks(r.begin, r.end);
    FirstInQueue(r);
    QueueRest(r, r');
  }

  lemma FirstInQueue(r: Ring)
    requires QueueInv(r) && r.reader.RRead?
    ensures |QueueOf(r)| == Unread(r) > 1 && QueueOf(r)[0] == r.reader.event
  {
  }

  lemma QueueRest(r: Ring, r': Ring)
    requires QueueInv(r) && QueueInv(r') && r.reader.RRead?
    requires r'.accepted == r.accepted && r'.popped == r.popped + [r.reader.event]
    ensures QueueOf(r) == [QueueOf(r)[0]] + QueueOf(r')
  {
    hide QueueOf, SlotsHold;
    QueueIsRest(r);
    QueueIsRest(r');
    FirstInQueue(r);
    var n := |r.popped|;
    assert QueueOf(r) == History(r)[n..] && QueueOf(r') == History(r)[n + 1..];
  }

  /** From every state in which a drain looks at a ring with begin != end, it pops. */
  lemma Pop(r: Ring, failed: bool) returns (r1: Ring, r2: Ring, r3: Ring)
    requires QueueInv(r) && r.reader == RDraining && r.drains != [] && r.begin != r.end
    ensures ReaderStart(r, r1) && ReaderReads(r1, r2) && ReaderAdvances(r2, r3, failed)
    ensures Next(r, r1) && Next(r1, r2) && Next(r2, r3)
    ensures |QueueOf(r)| > 1 && r3.popped == r.popped + [QueueOf(r)[0]] && QueueOf(r3) == QueueOf(r)[1..]
  {
    hide QueueInv, SlotsHold, QueueOf;
    r1 := r.(reader := RReading);
    ReaderKeeps(r, r1);
    r2 := Looked(r1);
    ReaderKeeps(r1, r2);
    r3 := Advanced(r2, failed);
    PopRemoves(r2, r3, failed);
    SameQueue(r, r2);
    FirstInQueue(r2);
    assert ([QueueOf(r)[0]] + QueueOf(r3))[1..] == QueueOf(r3);
  }

  lemma Looked(r: Ring) returns (r': Ring)
    requires QueueInv(r) && r.reader == RReading
    ensures ReaderReads(r, r')
  {
    r' := r.(reader := RRead(r.elem[r.end]));
  }

  lemma Advanced(r: Ring, failed: bool) returns (r': Ring)
    requires r.reader.RRead? && r.drains != []
    ensures ReaderAdvances(r, r', failed)
  {
    r' := r.(end := (r.end + 1) % SLOTS, popped := r.popped + [r.reader.event],
             reader := if r.reader.event.data == [] || failed then RIdle else RDraining,
             drains := AppendToLast(r.drains, r.reader.event));
  }
}

/** What the log files lack and what they hold more than once. */
module LogRepeats {
  import opened Wrappers
  import opened LogDrain

  // ---- Live records are known by their boot and their s ----------------------

  predicate SameRec(a: Rec, b: Rec) {
    a.origin == b.origin && a.s == b.s ==> a == b
  }

  predicate Consecutive(recs: seq<Rec>) {
    forall i :: 0 <= i < |recs| ==> recs[i].s == recs[0].s + i
  }

  /** A record of the running boot is the one the device made under that s. */
  predicate OfDevice(dev: Ring, r: Rec) {
    r.origin == dev.boot ==> 1 <= r.s <= |dev.data| && dev.data[r.s - 1] == r
  }

  predicate LinesKnown(s: System) {
    && (forall l :: l in s.lines && l.live ==> l.rec.origin in s.boots && OfDevice(s.dev, l.rec))
    && (forall l, m :: l in s.lines && m in s.lines && l.live && m.live ==> SameRec(l.rec, m.rec))
  }

  predicate BatchKnown(s: System) {
    s.reply.Some? && s.reply.value.Batch? ==>
      var recs := s.reply.value.recs;
      && s.reply.value.boot in s.boots && Consecutive(recs)
      && (forall r :: r in recs ==> OfDevice(s.dev, r))
      && (forall l, r :: l in s.lines && l.live && r in recs ==> SameRec(l.rec, r))
  }

  /** The records of a slot are the ones its boot made. */
  predicate SlotKnown(s: System, p: Slot) {
    && (forall l, r :: l in s.lines && l.live && r in p.recs ==> SameRec(l.rec, r))
    && (s.reply.Some? && s.reply.value.Batch? ==> forall r, b :: r in p.recs && b in s.reply.value.recs ==> SameRec(b, r))
  }

  predicate SlotsKnown(s: System) {
    && (s.slot.Some? ==> SlotKnown(s, s.slot.value))
    && (s.reply.Some? && s.reply.value.Prev? && s.reply.value.slot.Some? ==> SlotKnown(s, s.reply.value.slot.value))
  }

  /** Stored by the present session, or evicted. */
  predicate Has(s: System, q: int) {
    q < s.dev.first || exists l :: l in s.lines && Mine(s, l) && l.file == s.dev.boot && l.rec.s == q
  }

  /** Up to the cursor nothing of the running boot is missing that could still be read. */
  predicate Complete(s: System) {
    Begun(s) && OrZero(s.bootId) == s.dev.boot ==> forall q :: 1 <= q <= s.lastSeq ==> Has(s, q)
  }

  predicate BatchNext(s: System) {
    s.reply.Some? && s.reply.value.Batch? && s.reply.value.boot == s.dev.boot && s.reply.value.recs != [] ==>
      s.reply.value.recs[0].s <= s.lastSeq + 1 || s.reply.value.recs[0].s <= s.dev.first
  }

  predicate Traced(s: System) {
    Inv(s) && LinesKnown(s) && BatchKnown(s) && SlotsKnown(s) && Complete(s) && BatchNext(s)
  }

  lemma ServeConsecutive(dev: Ring, since: nat)
    requires dev.Valid()
    ensures var recs := dev.Serve(since);
            && Consecutive(recs) && (forall r :: r in recs ==> r.origin == dev.boot && OfDevice(dev, r))
            && (recs != [] ==> recs[0].s <= since + 1 || recs[0].s <= dev.first)
  {
    Served(dev, since);
    var recs, lo := dev.Serve(since), if since + 1 < dev.first then dev.first else since + 1;
    forall i | 0 <= i < |recs| ensures recs[i].s == lo + i && recs[i].origin == dev.boot && OfDevice(dev, recs[i]) {
      assert recs[i] == dev.data[lo - 1 + i];
    }
  }

  /** Steps that leave the poller's position alone keep what is complete. */
  lemma StaysComplete(s: System, t: System)
    requires Complete(s)
    requires t.dev.boot == s.dev.boot && s.dev.first <= t.dev.first
    requires t.session == s.session && t.bootId == s.bootId && t.lastSeq == s.lastSeq
    requires forall l :: l in s.lines ==> l in t.lines
    ensures Complete(t)
  {
    if Begun(t) && OrZero(t.bootId) == t.dev.boot {
      forall q | 1 <= q <= t.lastSeq ensures Has(t, q) {
        assert Has(s, q);
      }
    }
  }

  lemma AppendTraced(s: System, e: Event)
    requires Traced(s) && e.Append?
    ensures Traced(Step(s, e))
  {
    AppendKeeps(s, e);
    StaysComplete(s, Step(s, e));
  }

  lemma RebootTraced(s: System, e: Event)
    requires Traced(s) && e.Reboot?
    ensures Traced(Step(s, e))
  {
    RebootKeeps(s, e);
    if Step(s, e) != s {
      SavedKnown(s, e.saved);
      if Begun(s) {
        CursorBoot(s);
      }
    }
  }

  lemma SavedKnown(s: System, saved: seq<Rec>)
    requires Traced(s) && forall r :: r in saved ==> r in s.dev.data
    ensures SlotKnown(s, Slot(s.dev.boot, saved))
  {
    forall r | r in saved ensures r.origin == s.dev.boot && OfDevice(s.dev, r) {
      var k :| 0 <= k < |s.dev.data| && s.dev.data[k] == r;
    }
  }

  lemma CursorBoot(s: System)
    requires Inv(s) && Begun(s)
    ensures OrZero(s.bootId) in s.boots
  {
    if OrZero(s.bootId) != s.dev.boot {
      EarlierDiffers(s.boots, OrZero(s.bootId), s.dev.boot);
    }
  }

  lemma ServedKnown(s: System, recs: seq<Rec>)
    requires LinesKnown(s) && forall r :: r in recs ==> r.origin == s.dev.boot && OfDevice(s.dev, r)
    ensures forall l, r :: l in s.lines && l.live && r in recs ==> SameRec(l.rec, r)
  {
  }

  /** The slot is of an earlier boot. */
  lemma ServedSlot(s: System, recs: seq<Rec>)
    requires Inv(s) && s.slot.Some? && forall r :: r in recs ==> r.origin == s.dev.boot
    ensures forall r, b :: r in s.slot.value.recs && b in recs ==> SameRec(b, r)
  {
    EarlierDiffers(s.boots, s.slot.value.boot, s.dev.boot);
  }

  lemma ServeReadTraced(s: System)
    requires Traced(s)
    ensures Traced(Step(s, ServeRead))
  {
    ServeReadKeeps(s);
    StaysComplete(s, Step(s, ServeRead));
    if s.phase == WaitRead && s.reply.None? {
      ServeConsecutive(s.dev, s.lastSeq);
      ServedKnown(s, s.dev.Serve(s.lastSeq));
      if s.slot.Some? {
        ServedSlot(s, s.dev.Serve(s.lastSeq));
      }
    }
  }

  lemma TakeReadTraced(s: System)
    requires Traced(s)
    ensures Traced(Step(s, TakeRead))
  {
    TakeReadKeeps(s);
    if s.phase == WaitRead && s.reply.Some? && s.reply.value.Batch? && !IsNewBoot(s.bootId, s.reply.value.boot) {
      StoreKnown(s, s.reply.value.boot, s.reply.value.recs);
      StoreSlot(s, s.reply.value.boot, s.reply.value.recs);
      StoreComplete(s, s.reply.value.boot, s.reply.value.recs);
    }
  }

  lemma StoreKnown(s: System, boot: int, recs: seq<Rec>)
    requires Traced(s) && s.phase == WaitRead && s.reply == Some(Batch(boot, recs)) && !IsNewBoot(s.bootId, boot)
    ensures LinesKnown(s.(lines := s.lines + Lines(OrZero(s.bootId), recs, true, s.session)))
  {
    var more := Lines(OrZero(s.bootId), recs, true, s.session);
    assert forall l :: l in s.lines + more <==> l in s.lines || l in more;
    assert forall l :: l in more ==> l.rec in recs && l.rec.origin == boot;
    assert forall a, b :: a in recs && b in recs ==> SameRec(a, b);
  }

  lemma StoreSlot(s: System, boot: int, recs: seq<Rec>)
    requires Traced(s) && s.phase == WaitRead && s.reply == Some(Batch(boot, recs))
    ensures s.slot.Some? ==> SlotKnown(s.(lines := s.lines + Lines(OrZero(s.bootId), recs, true, s.session), reply := None), s.slot.value)
  {
    var more := Lines(OrZero(s.bootId), recs, true, s.session);
    assert forall l :: l in s.lines + more <==> l in s.lines || l in more;
    assert forall l :: l in more ==> l.rec in recs;
  }

  lemma StoreComplete(s: System, boot: int, recs: seq<Rec>)
    requires Traced(s) && s.phase == WaitRead && s.reply == Some(Batch(boot, recs)) && !IsNewBoot(s.bootId, boot)
    ensures Complete(s.(lines := s.lines + Lines(OrZero(s.bootId), recs, true, s.session),
                        lastSeq := NextCursor(s.lastSeq, recs), phase := Idle, reply := None))
  {
    var file := OrZero(s.bootId);
    var more := Lines(file, recs, true, s.session);
    var t := s.(lines := s.lines + more, lastSeq := NextCursor(s.lastSeq, recs), phase := Idle, reply := None);
    if recs != [] {
      MaxIsLast(recs);
    }
    if Begun(t) && file == s.dev.boot {
      SameBoot(s, boot, recs);
      forall q | 1 <= q <= t.lastSeq ensures Has(t, q) {
        if q <= s.lastSeq {
          assert Has(s, q);
        } else if q >= recs[0].s {
          assert more[q - recs[0].s] in t.lines && Mine(t, more[q - recs[0].s]);
        }
      }
    }
  }

  /** What goes to the running boot's file comes from the running boot. */
  lemma SameBoot(s: System, boot: int, recs: seq<Rec>)
    requires Inv(s) && s.reply == Some(Batch(boot, recs)) && !IsNewBoot(s.bootId, boot) && OrZero(s.bootId) == s.dev.boot
    ensures boot == s.dev.boot
  {
    if boot != s.dev.boot {
      EarlierDiffers(s.boots, boot, s.dev.boot);
    }
  }

  lemma TakePrevTraced(s: System)
    requires Traced(s)
    ensures Traced(Step(s, TakePrev))
  {
    TakePrevKeeps(s);
    var t := Step(s, TakePrev);
    if s.phase == WaitPrev && s.reply.Some? && s.reply.value.Prev? && s.reply.value.slot.Some? {
      var p := s.reply.value.slot.value;
      var more := Lines(p.boot, p.recs, false, s.session);
      assert forall l :: l in t.lines <==> l in s.lines || l in more;
    }
    StaysComplete(s, t);
  }

  lemma QuietTraced(s: System, e: Event)
    requires Traced(s) && (e.SendRead? || e.ServePrev? || e.DeliverAck? || e.TakeAck? || e.Fail?)
    ensures Traced(Step(s, e))
  {
    StepKeeps(s, e);
    StaysComplete(s, Step(s, e));
    StaysKnown(s, Step(s, e));
  }

  lemma StaysKnown(s: System, t: System)
    requires LinesKnown(s) && BatchKnown(s) && BatchNext(s) && SlotsKnown(s)
    requires t.dev == s.dev && t.boots == s.boots && t.lines == s.lines && t.lastSeq == s.lastSeq
    requires t.reply == s.reply || t.reply.None? || t.reply == Some(Prev(s.slot))
    requires t.slot == s.slot || t.slot.None?
    ensures LinesKnown(t) && BatchKnown(t) && BatchNext(t) && SlotsKnown(t)
  {
  }

  lemma StepTraced(s: System, e: Event)
    requires Traced(s)
    ensures Traced(Step(s, e))
  {
    match e
    case Append(_, _) => AppendTraced(s, e);
    case Reboot(_, _) => RebootTraced(s, e);
    case Connect => ConnectKeeps(s);
    case ServeRead => ServeReadTraced(s);
    case TakeRead => TakeReadTraced(s);
    case TakePrev => TakePrevTraced(s);
    case _ => QuietTraced(s, e);
  }

  lemma {:induction false} TracedFrom(s: System, es: seq<Event>)
    requires Traced(s)
    ensures Traced(Run(s, es))
    decreases |es|
  {
    if es != [] {
      StepTraced(s, es[0]);
      TracedFrom(Step(s, es[0]), es[1..]);
    }
  }

  lemma RunTraced(boot: int, es: seq<Event>)
    ensures Traced(Run(Start(boot), es))
  {
    StartInv(boot);
    TracedFrom(Start(boot), es);
  }

  // ---- What is missing -------------------------------------------------------

  /** A record of the running boot below the session's cursor was stored by this
      session, unless the ring has evicted it. */
  lemma SkippedIsEvicted(boot: int, es: seq<Event>, q: int)
    requires var s := Run(Start(boot), es); Begun(s) && OrZero(s.bootId) == s.dev.boot && s.dev.first <= q <= s.lastSeq
    ensures var s := Run(Start(boot), es);
            exists l :: l in s.lines && Mine(s, l) && l.file == s.dev.boot && l.rec.s == q
  {
    RunTraced(boot, es);
    assert Has(Run(Start(boot), es), q);
  }

  /** A previous log that cannot be fetched or acknowledged does not stop the poller: it
      goes on with the live records. */
  lemma GoesOn(s: System)
    requires s.dev.Valid() && (s.phase == WaitPrev || s.phase == WaitAck) && s.bootId == Some(s.dev.boot)
    ensures ReadOnce(Step(s, Fail)).lines == s.lines + Lines(s.dev.boot, s.dev.Serve(s.lastSeq), true, s.session)
    ensures ReadOnce(Step(s, Fail)).phase == Idle
  {
  }

  /** A read that fails ends the session's poller: until the next session nothing is written. */
  lemma {:induction false} EndsThere(s: System, es: seq<Event>)
    requires s.dev.Valid() && s.phase == WaitRead && forall e :: e in es ==> e != Connect
    ensures Run(Step(s, Fail), es).lines == s.lines
  {
    EndedSilent(Step(s, Fail), es);
  }

  lemma {:induction false} EndedSilent(s: System, es: seq<Event>)
    requires s.dev.Valid() && s.phase == Ended && forall e :: e in es ==> e != Connect
    ensures Run(s, es).lines == s.lines
    decreases |es|
  {
    if es != [] {
      assert es[0] in es && forall e :: e in es[1..] ==> e in es;
      EndedSilent(Step(s, es[0]), es[1..]);
    }
  }

  // ---- What is there more than once: live records ----------------------------

  /** A live line of this file has this record. */
  predicate LiveIn(lines: seq<Line>, file: int, r: Rec) {
    exists l :: l in lines && l.live && l.file == file && l.rec == r
  }

  /** In every run, storing a batch repeats a live record if and only if a live
      line of that file is from the batch's boot and has its s between the first
      and the last of the batch; and such a line is an earlier session's. */
  lemma LiveRepeatExact(boot: int, es: seq<Event>, b: int, recs: seq<Rec>)
    requires var s := Run(Start(boot), es);
             s.phase == WaitRead && s.reply == Some(Batch(b, recs)) && !IsNewBoot(s.bootId, b) && recs != []
    ensures var s := Run(Start(boot), es);
            var file := OrZero(s.bootId);
            (exists r :: r in recs && LiveIn(s.lines, file, r)) <==>
            exists l :: l in s.lines && l.live && l.file == file && l.rec.origin == b
                        && recs[0].s <= l.rec.s <= recs[|recs| - 1].s
    ensures var s := Run(Start(boot), es);
            forall l :: l in s.lines && l.live && l.file == OrZero(s.bootId) && recs[0].s <= l.rec.s ==> l.session < s.session
  {
    RunTraced(boot, es);
    var s := Run(Start(boot), es);
    var file := OrZero(s.bootId);
    if r :| r in recs && LiveIn(s.lines, file, r) {
      var l :| l in s.lines && l.live && l.file == file && l.rec == r;
      var i :| 0 <= i < |recs| && recs[i] == r;
      assert l.rec.s == recs[0].s + i;
    }
    if l :| l in s.lines && l.live && l.file == file && l.rec.origin == b && recs[0].s <= l.rec.s <= recs[|recs| - 1].s {
      var r := recs[l.rec.s - recs[0].s];
      assert r in recs && SameRec(l.rec, r);
      assert LiveIn(s.lines, file, r);
    }
  }

  /** One session up to its first live records, no previous log being available: read;
      unless the boot id is 0, change of boot, previous log, read again from 0. */
  function Reconnected(s: System): System
    requires s.dev.Valid()
  {
    var read := ReadOnce(Step(s, Connect));
    if s.dev.boot == 0 then read else ReadOnce(NoPrev(read))
  }

  function ReadOnce(s: System): (t: System)
    requires s.dev.Valid()
    ensures t.dev.Valid()
  {
    Step(Step(Step(s, SendRead), ServeRead), TakeRead)
  }

  function NoPrev(s: System): (t: System)
    requires s.dev.Valid()
    ensures t.dev.Valid()
  {
    Step(Step(s, ServePrev), TakePrev)
  }

  /** What a reconnect stores when no previous log is available, whatever the boot id:
      the oldest 64 records in the ring. */
  lemma ReconnectReads(s: System)
    requires s.dev.Valid() && s.slot.None?
    ensures Reconnected(s) == s.(session := s.session + 1, linked := true, phase := Idle, reply := None,
                                 bootId := if s.dev.boot == 0 then None else Some(s.dev.boot),
                                 lastSeq := NextCursor(0, s.dev.Serve(0)),
                                 lines := s.lines + Lines(s.dev.boot, s.dev.Serve(0), true, s.session + 1))
  {
    if s.dev.boot != 0 {
      var a := ReadOnce(Step(s, Connect));
      assert a == s.(session := s.session + 1, linked := true, phase := WaitPrev, bootId := Some(s.dev.boot), lastSeq := 0, reply := None);
      assert NoPrev(a) == a.(phase := Idle);
    }
  }

  /** After any run, the records a reconnect reads hold one that is stored live
      already if and only if a live line of the running boot is among the oldest
      64 records still in the ring. */
  lemma ReconnectRepeatExact(boot: int, es: seq<Event>)
    ensures var s := Run(Start(boot), es);
            (exists r :: r in s.dev.Serve(0) && LiveIn(s.lines, s.dev.boot, r)) <==>
            exists l :: l in s.lines && l.live && l.file == s.dev.boot && l.rec.origin == s.dev.boot
                        && s.dev.first <= l.rec.s < s.dev.first + 64
  {
    RunTraced(boot, es);
    OldestStored(Run(Start(boot), es));
  }

  lemma OldestStored(s: System)
    requires Traced(s)
    ensures (exists r :: r in s.dev.Serve(0) && LiveIn(s.lines, s.dev.boot, r)) <==>
            exists l :: l in s.lines && l.live && l.file == s.dev.boot && l.rec.origin == s.dev.boot
                        && s.dev.first <= l.rec.s < s.dev.first + 64
  {
    ServeConsecutive(s.dev, 0);
    OldestRange(s.dev);
    if l :| l in s.lines && l.live && l.file == s.dev.boot && l.rec.origin == s.dev.boot
            && s.dev.first <= l.rec.s < s.dev.first + 64
    {
      OldestHit(s, l);
    }
  }

  lemma OldestHit(s: System, l: Line)
    requires LinesKnown(s) && s.dev.Valid() && l in s.lines && l.live && l.file == l.rec.origin == s.dev.boot
    requires s.dev.first <= l.rec.s < s.dev.first + 64
    ensures l.rec in s.dev.Serve(0) && LiveIn(s.lines, s.dev.boot, l.rec)
  {
    OldestRange(s.dev);
    assert l.rec == s.dev.data[l.rec.s - 1];
  }

  lemma OldestRange(dev: Ring)
    requires dev.Valid()
    ensures forall r :: r in dev.Serve(0) ==> dev.first <= r.s < dev.first + 64
    ensures forall i :: dev.first - 1 <= i < dev.first - 1 + 64 && i < |dev.data| ==> dev.data[i] in dev.Serve(0)
  {
    var recs := dev.Serve(0);
    forall i | dev.first - 1 <= i < dev.first - 1 + 64 && i < |dev.data| ensures dev.data[i] in recs {
      assert recs[i - (dev.first - 1)] == dev.data[i];
    }
  }

  /** So two reconnects in a row store the oldest 64 records of the ring twice. */
  lemma ReconnectRepeats(s: System)
    requires s.dev.Valid() && s.slot.None?
    ensures Reconnected(Reconnected(s)).lines
         == s.lines + Lines(s.dev.boot, s.dev.Serve(0), true, s.session + 1)
                    + Lines(s.dev.boot, s.dev.Serve(0), true, s.session + 2)
  {
    ReconnectReads(s);
    ReconnectReads(Reconnected(s));
  }

  // ---- What is there more than once: the slot --------------------------------

  /** A line of this file was written from the slot of its boot. */
  predicate SlotIn(lines: seq<Line>, slot: Slot, r: Rec) {
    exists l :: l in lines && !l.live && l.file == slot.boot && l.rec == r
  }

  function TakenSlot(s: System): System
    requires s.dev.Valid()
  {
    Step(Step(s, ServePrev), TakePrev)
  }

  predicate InFile(lines: seq<Line>, file: int, r: Rec) {
    exists l :: l in lines && l.file == file && l.rec == r
  }

  /** A record with this s is in the slot. */
  predicate HasS(p: Slot, q: int) {
    exists r :: r in p.recs && r.s == q
  }

  /** In every run, fetching the slot writes a record that is in its file already if
      and only if the slot was acknowledged before, or one of its records was
      stored live. In the first case it writes all of them again, and the device
      has received none of the acknowledgements. */
  lemma SlotRepeatExact(boot: int, es: seq<Event>)
    requires var s := Run(Start(boot), es); s.phase == WaitPrev && s.reply.None? && s.slot.Some?
    ensures var s := Run(Start(boot), es);
            var p := s.slot.value;
            && TakenSlot(s).lines == s.lines + Lines(p.boot, p.recs, false, s.session)
            && ((exists r :: r in p.recs && InFile(s.lines, p.boot, r)) <==>
                || Acked(s.acks, p.boot)
                || exists l :: l in s.lines && l.live && l.file == p.boot && l.rec.origin == p.boot && HasS(p, l.rec.s))
            && ((exists r :: r in p.recs && SlotIn(s.lines, p, r)) <==> Acked(s.acks, p.boot))
            && (Acked(s.acks, p.boot) ==> forall r :: r in p.recs ==> SlotIn(s.lines, p, r))
            && (forall x :: x in s.released ==> x.boot != p.boot)
  {
    RunTraced(boot, es);
    var s := Run(Start(boot), es);
    var p := s.slot.value;
    WrittenIffAcknowledged(s);
    SlotLines(s, p);
  }

  lemma SlotLines(s: System, p: Slot)
    requires Traced(s) && s.slot == Some(p) && (Acked(s.acks, p.boot) ==> Stored(s.lines, p))
    ensures (exists r :: r in p.recs && SlotIn(s.lines, p, r)) <==> Acked(s.acks, p.boot)
    ensures Acked(s.acks, p.boot) ==> forall r :: r in p.recs ==> SlotIn(s.lines, p, r)
    ensures (exists r :: r in p.recs && InFile(s.lines, p.boot, r)) <==>
            || Acked(s.acks, p.boot)
            || exists l :: l in s.lines && l.live && l.file == p.boot && l.rec.origin == p.boot && HasS(p, l.rec.s)
  {
    assert p.recs[0] in p.recs;
    if r :| r in p.recs && InFile(s.lines, p.boot, r) {
      var l :| l in s.lines && l.file == p.boot && l.rec == r;
      assert HasS(p, l.rec.s);
    }
    if l :| l in s.lines && l.live && l.file == p.boot && l.rec.origin == p.boot && HasS(p, l.rec.s) {
      var r :| r in p.recs && r.s == l.rec.s;
      assert SameRec(l.rec, r);
      assert InFile(s.lines, p.boot, r);
    }
    if Acked(s.acks, p.boot) {
      assert SlotIn(s.lines, p, p.recs[0]);
      assert InFile(s.lines, p.boot, p.recs[0]);
    }
  }

  /** A session up to the writing of the slot; its acknowledgement is on the way. */
  function SlotFetched(s: System): (t: System)
    requires s.dev.Valid()
    ensures t.dev.Valid()
  {
    NoPrev(ReadOnce(Step(s, Connect)))
  }

  lemma FetchesSlot(s: System)
    requires s.dev.Valid() && s.dev.boot != 0 && s.slot.Some?
    ensures SlotFetched(s) == s.(session := s.session + 1, linked := true, bootId := Some(s.dev.boot), lastSeq := 0,
                                 reply := None, phase := WaitAck,
                                 lines := s.lines + Lines(s.slot.value.boot, s.slot.value.recs, false, s.session + 1),
                                 acks := s.acks + [Ack(s.session + 1, s.slot.value.boot)])
  {
    var a := ReadOnce(Step(s, Connect));
    assert a == s.(session := s.session + 1, linked := true, phase := WaitPrev, bootId := Some(s.dev.boot), lastSeq := 0, reply := None);
  }

  /** When the acknowledgement arrives in its session, the device gives the slot up. */
  lemma SlotGivenUp(s: System)
    requires s.dev.Valid() && s.dev.boot != 0 && s.slot.Some?
    ensures var t := Step(SlotFetched(s), DeliverAck(s.slot.value.boot));
            t.slot == None && t.released == s.released + [s.slot.value] && t.lines == SlotFetched(s).lines
  {
    FetchesSlot(s);
  }

  /** The connection breaks before the acknowledgement arrives: the next session
      writes the slot once more. */
  lemma SlotTwice(s: System)
    requires s.dev.Valid() && s.dev.boot != 0 && s.slot.Some?
    ensures var p := s.slot.value;
            SlotFetched(SlotFetched(s)).lines
            == s.lines + Lines(p.boot, p.recs, false, s.session + 1) + Lines(p.boot, p.recs, false, s.session + 2)
  {
    FetchesSlot(s);
    FetchesSlot(SlotFetched(s));
  }

  // ---- Runs ------------------------------------------------------------------

  lemma {:induction false} RunThen(s: System, es: seq<Event>, e: Event)
    requires s.dev.Valid()
    ensures Run(s, es + [e]) == Step(Run(s, es), e)
    decreases |es|
  {
    if es == [] {
      assert [] + [e] == [e] && [e][1..] == [];
    } else {
      assert (es + [e])[1..] == es[1..] + [e];
      RunThen(Step(s, es[0]), es[1..], e);
    }
  }

  lemma RunReads(s: System, es: seq<Event>) returns (more: seq<Event>)
    requires s.dev.Valid()
    ensures Run(s, more) == ReadOnce(Run(s, es))
  {
    RunThen(s, es, SendRead);
    RunThen(s, es + [SendRead], ServeRead);
    RunThen(s, es + [SendRead] + [ServeRead], TakeRead);
    more := es + [SendRead] + [ServeRead] + [TakeRead];
  }

  lemma RunNoPrev(s: System, es: seq<Event>) returns (more: seq<Event>)
    requires s.dev.Valid()
    ensures Run(s, more) == NoPrev(Run(s, es))
  {
    RunThen(s, es, ServePrev);
    RunThen(s, es + [ServePrev], TakePrev);
    more := es + [ServePrev] + [TakePrev];
  }

  /** A record of boot 7 is stored live; the flash keeps it over a reboot; the slot brings it again. */
  lemma LiveThenSlot() returns (es: seq<Event>)
    ensures Run(Start(7), es).lines == [Line(7, Rec(1, 7, 5), true, 1), Line(7, Rec(1, 7, 5), false, 2)]
  {
    es := StoredThenSaved();
    var s := Start(7);
    var t := Run(s, es);
    FetchesSlot(t);
    RunThen(s, es, Connect);
    es := RunReads(s, es + [Connect]);
    es := RunNoPrev(s, es);
    assert Run(s, es) == SlotFetched(t);
    assert Lines(7, t.slot.value.recs, false, 2) == [Line(7, Rec(1, 7, 5), false, 2)];
  }

  lemma StoredThenSaved() returns (es: seq<Event>)
    ensures var r := Rec(1, 7, 5);
            Run(Start(7), es) == System(Ring(8, 1, []), [7, 8], Some(Slot(7, [r])), 1, false, Idle, Some(7), 1, None, [],
                                        [Line(7, r, true, 1)], [])
  {
    var s, r := Start(7), Rec(1, 7, 5);
    es := OneStored();
    RunThen(s, es, Reboot(8, [r]));
    es := es + [Reboot(8, [r])];
  }

  lemma OneStored() returns (es: seq<Event>)
    ensures Run(Start(7), es) == System(Ring(7, 1, [Rec(1, 7, 5)]), [7], None, 1, true, Idle, Some(7), 1, None, [],
                                        [Line(7, Rec(1, 7, 5), true, 1)], [])
  {
    var s, r := Start(7), Rec(1, 7, 5);
    RunThen(s, [], Append(5, 1));
    es := [] + [Append(5, 1)];
    var t := Run(s, es);
    assert t == System(Ring(7, 1, [r]), [7], None, 0, false, Ended, None, 0, None, [], [], []);
    RunThen(s, es, Connect);
    es := RunReads(s, es + [Connect]);
    es := RunNoPrev(s, es);
    es := RunReads(s, es);
    assert t.dev.Serve(0) == [r];
    ReconnectReads(t);
    assert Lines(7, [r], true, 1) == [Line(7, r, true, 1)];
  }

  // ---- A batch with boot id 0 ------------------------------------------------

  /** What the poller does with a batch: its records go to the file of the batch's boot
      if and only if it does not, naming boot 0, come while another boot's id is held. */
  lemma MisfiledBatch(h: Held, session: nat, boot: int, recs: seq<Rec>)
    requires !IsNewBoot(h.bootId, boot) && recs != [] && h.bootId != Some(0)
    ensures AfterBatch(h, session, boot, recs).lines == h.lines + Lines(boot, recs, true, session)
            <==> !(boot == 0 && h.bootId.Some?)
  {
    var a, b := Lines(OrZero(h.bootId), recs, true, session), Lines(boot, recs, true, session);
    assert (h.lines + a)[|h.lines|] == a[0] && (h.lines + b)[|h.lines|] == b[0];
  }

  lemma BootSeven() returns (es: seq<Event>)
    ensures Run(Start(7), es) == System(Ring(7, 1, []), [7], None, 1, true, Idle, Some(7), 0, None, [], [], [])
  {
    var s := Start(7);
    RunThen(s, [], Connect);
    es := RunReads(s, [] + [Connect]);
    es := RunNoPrev(s, es);
    es := RunReads(s, es);
    ReconnectReads(s);
  }

  /** A run in which the server gets such a batch: a device that would not check the
      session of a request answers as boot 0 inside a session of boot 7. */
  lemma MisfiledRun() returns (es: seq<Event>)
    ensures !RightFiles(Run(Start(7), es)) && !NeverMisfiles(Start(7), es) && !Checked(Start(7), es)
  {
    var s := Start(7);
    es := BootSeven();
    RunThen(s, es, Reboot(0, []));
    es := es + [Reboot(0, [])];
    RunThen(s, es, Append(5, 1));
    es := es + [Append(5, 1)];
    var t := Run(s, es);
    assert t == System(Ring(0, 1, [Rec(1, 0, 5)]), [7, 0], None, 1, false, Idle, Some(7), 0, None, [], [], []);
    es := RunReads(s, es);
    Misfiled(t);
    RightFile(7, es);
    if Checked(s, es) {
      CheckedFiles(7, es);
    }
  }

  lemma Misfiled(t: System)
    requires t == System(Ring(0, 1, [Rec(1, 0, 5)]), [7, 0], None, 1, false, Idle, Some(7), 0, None, [], [], [])
    ensures !RightFiles(ReadOnce(t))
  {
    var l := Line(7, Rec(1, 0, 5), true, 1);
    assert t.dev.Serve(0) == [Rec(1, 0, 5)];
    assert ReadOnce(t).lines == [l];
    assert l in ReadOnce(t).lines;
  }
}

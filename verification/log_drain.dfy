/** Pulling the device's log: the live ring by cursor, the previous boot's slot with an acknowledgement. */
module LogDrain {
  import opened Wrappers

  const LIMIT: nat := 64        // max_records of log_read
  const SHADOW: nat := 200      // records kept for the UI

  /** s counts the records of a boot; origin is the boot that made the record (not on the wire). */
  datatype Rec = Rec(s: int, origin: int, text: int)

  // ---- The device ------------------------------------------------------------

  /** data holds every record of this boot, s = 1 first; those before first are evicted. */
  datatype Ring = Ring(boot: int, first: nat, data: seq<Rec>) {
    predicate Valid() {
      && 1 <= first <= |data| + 1
      && forall k :: 0 <= k < |data| ==> data[k].s == k + 1 && data[k].origin == boot
    }

    /** The records newer than since that are still there. */
    function Newer(since: nat): seq<Rec>
      requires Valid()
    {
      var lo := if since + 1 < first then first else since + 1;
      if lo > |data| then [] else data[lo - 1..]
    }

    function Serve(since: nat): seq<Rec>
      requires Valid()
    {
      Front(Newer(since), LIMIT)
    }
  }

  function Front(recs: seq<Rec>, n: nat): seq<Rec> {
    if |recs| <= n then recs else recs[..n]
  }

  /** The flash slot with the log of an earlier boot; log_read_prev returns all of it. */
  datatype Slot = Slot(boot: int, recs: seq<Rec>)

  // ---- The run ---------------------------------------------------------------

  /** One line appended to the file of a boot; live lines come from log_read. */
  datatype Line = Line(file: int, rec: Rec, live: bool, session: nat)

  datatype Reply = Batch(boot: int, recs: seq<Rec>) | Prev(slot: Option<Slot>)

  /** An acknowledgement is signed for one session. */
  datatype Ack = Ack(session: nat, boot: int)

  datatype Phase = Idle | WaitRead | WaitPrev | WaitAck | Ended

  datatype System = System(
    dev: Ring,
    boots: seq<int>,
    slot: Option<Slot>,
    session: nat,
    linked: bool,            // the device has not rebooted since the session was opened
    phase: Phase,
    bootId: Option<int>,
    lastSeq: nat,
    reply: Option<Reply>,    // made by the device, not yet received
    acks: seq<Ack>,          // every acknowledgement sent; each may arrive at any time, or never
    lines: seq<Line>,        // all files, in the order of writing
    released: seq<Slot>)     // slots the device gave up

  datatype Event =
    | Append(text: int, first: nat)
    | Reboot(boot: int, saved: seq<Rec>)    // saved: what the flash keeps of the old boot's records
    | Connect                               // a new session starts its own poller
    | SendRead
    | ServeRead
    | TakeRead
    | ServePrev
    | TakePrev
    | DeliverAck(boot: int)
    | TakeAck
    | Fail                                  // timeout or disconnect at an await

  function Lines(file: int, recs: seq<Rec>, live: bool, session: nat): seq<Line> {
    seq(|recs|, i requires 0 <= i < |recs| => Line(file, recs[i], live, session))
  }

  function MaxS(recs: seq<Rec>): int
    requires recs != []
  {
    if |recs| == 1 then recs[0].s else
      var m := MaxS(recs[..|recs| - 1]);
      if recs[|recs| - 1].s > m then recs[|recs| - 1].s else m
  }

  /** max(...) over the records, as an unsigned cursor. */
  function NextCursor(lastSeq: nat, recs: seq<Rec>): nat {
    if recs == [] then lastSeq else if MaxS(recs) < 0 then 0 else MaxS(recs)
  }

  function OrZero(b: Option<int>): int {
    if b.Some? then b.value else 0
  }

  /** What the poller holds between rounds, with the files it writes. */
  datatype Held = Held(bootId: Option<int>, lastSeq: nat, lines: seq<Line>)

  predicate IsNewBoot(bootId: Option<int>, boot: int) {
    boot != 0 && Some(boot) != bootId
  }

  /** A batch of a new boot is discarded and the cursor restarts; any other is stored. */
  function AfterBatch(h: Held, session: nat, boot: int, recs: seq<Rec>): Held {
    if IsNewBoot(h.bootId, boot) then Held(Some(boot), 0, h.lines)
    else Held(h.bootId, NextCursor(h.lastSeq, recs), h.lines + Lines(OrZero(h.bootId), recs, true, session))
  }

  /** Somewhere an acknowledgement of the slot of this boot was sent. */
  predicate Acked(acks: seq<Ack>, boot: int) {
    exists a :: a in acks && a.boot == boot
  }

  /** The device gives its slot up: the acknowledgement verifies, as it was signed for the
      session the device is in, and names the slot's boot or 0. */
  predicate Releases(s: System, e: Event) {
    && e.DeliverAck? && s.linked && Ack(s.session, e.boot) in s.acks
    && s.slot.Some? && (e.boot == 0 || e.boot == s.slot.value.boot)
  }

  function Step(s: System, e: Event): (t: System)
    requires s.dev.Valid()
    ensures t.dev.Valid()
  {
    match e
    case Append(text, first) =>
      if s.dev.first <= first <= |s.dev.data| + 1
      then s.(dev := Ring(s.dev.boot, first, s.dev.data + [Rec(|s.dev.data| + 1, s.dev.boot, text)])) else s
    case Reboot(boot, saved) =>
      if boot in s.boots || exists r :: r in saved && r !in s.dev.data then s
      else s.(dev := Ring(boot, 1, []), boots := s.boots + [boot], linked := false,
              slot := if saved == [] then s.slot else Some(Slot(s.dev.boot, saved)))
    case Connect => s.(session := s.session + 1, linked := true, phase := Idle, bootId := None, lastSeq := 0, reply := None)
    case SendRead => if s.phase == Idle then s.(phase := WaitRead, reply := None) else s
    case ServeRead =>
      if s.phase == WaitRead && s.reply.None?
      then s.(reply := Some(Batch(s.dev.boot, s.dev.Serve(s.lastSeq)))) else s
    case TakeRead =>
      if s.phase != WaitRead || s.reply.None? || !s.reply.value.Batch? then s else
        var b := s.reply.value;
        var h := AfterBatch(Held(s.bootId, s.lastSeq, s.lines), s.session, b.boot, b.recs);
        s.(bootId := h.bootId, lastSeq := h.lastSeq, lines := h.lines,
           phase := if IsNewBoot(s.bootId, b.boot) then WaitPrev else Idle, reply := None)
    case ServePrev => if s.phase == WaitPrev && s.reply.None? then s.(reply := Some(Prev(s.slot))) else s
    case TakePrev =>
      if s.phase != WaitPrev || s.reply.None? || !s.reply.value.Prev? then s
      else if s.reply.value.slot.None? then s.(phase := Idle, reply := None)
      else
        var p := s.reply.value.slot.value;
        s.(lines := s.lines + Lines(p.boot, p.recs, false, s.session), acks := s.acks + [Ack(s.session, p.boot)],
           phase := WaitAck, reply := None)
    case DeliverAck(_) =>
      if Releases(s, e) then s.(slot := None, released := s.released + [s.slot.value]) else s
    case TakeAck => if s.phase == WaitAck then s.(phase := Idle) else s
    case Fail =>
      if s.phase == WaitRead then s.(phase := Ended, reply := None)
      else if s.phase == WaitPrev || s.phase == WaitAck then s.(phase := Idle, reply := None)
      else s
  }

  function Start(boot: int): System {
    System(Ring(boot, 1, []), [boot], None, 0, false, Ended, None, 0, None, [], [], [])
  }

  function Run(s: System, es: seq<Event>): (t: System)
    requires s.dev.Valid()
    ensures t.dev.Valid()
    decreases |es|
  {
    if es == [] then s else Run(Step(s, es[0]), es[1..])
  }

  // ---- What every step keeps -------------------------------------------------

  predicate Distinct(boots: seq<int>) {
    forall i, j :: 0 <= i < j < |boots| ==> boots[i] != boots[j]
  }

  predicate Earlier(boots: seq<int>, a: int, b: int) {
    exists i, j :: 0 <= i < j < |boots| && boots[i] == a && boots[j] == b
  }

  predicate DeviceOk(s: System) {
    && s.dev.Valid() && s.boots != [] && Distinct(s.boots) && s.boots[|s.boots| - 1] == s.dev.boot
    && (s.slot.Some? ==> Earlier(s.boots, s.slot.value.boot, s.dev.boot) && SlotOk(s.slot.value))
    && (forall a :: a in s.acks ==> Earlier(s.boots, a.boot, s.dev.boot) && a.session <= s.session)
  }

  /** Since the session was opened the device's slot has been one and the same, or given up. */
  predicate LinkOk(s: System) {
    s.linked && s.slot.Some? ==>
      && (forall a :: a in s.acks && a.session == s.session ==> a.boot == s.slot.value.boot)
      && (s.reply.Some? && s.reply.value.Prev? ==> s.reply.value.slot == s.slot)
  }

  predicate SlotOk(slot: Slot) {
    slot.recs != [] && forall r :: r in slot.recs ==> r.origin == slot.boot
  }

  /** The cursor counts records of boot OrZero(bootId). */
  predicate Begun(s: System) {
    s.bootId.Some? || s.lastSeq > 0
  }

  /** An answer on its way fits the poller's present cursor. */
  predicate ReplyOk(s: System) {
    s.reply.Some? ==>
      match s.reply.value
      case Batch(boot, recs) =>
        && s.phase == WaitRead
        && (boot == s.dev.boot || Earlier(s.boots, boot, s.dev.boot))
        && (Begun(s) ==> OrZero(s.bootId) == boot || Earlier(s.boots, OrZero(s.bootId), boot))
        && (forall i :: 0 <= i < |recs| ==> recs[i].origin == boot && recs[i].s > s.lastSeq)
        && (forall i, j :: 0 <= i < j < |recs| ==> recs[i].s < recs[j].s)
      case Prev(slot) =>
        && s.phase == WaitPrev
        && (slot.Some? ==>
             && Earlier(s.boots, slot.value.boot, s.dev.boot) && SlotOk(slot.value)
             && (s.slot.Some? && s.slot.value.boot == slot.value.boot ==> s.slot == slot))
  }

  predicate Mine(s: System, l: Line) {
    l.live && l.session == s.session
  }

  /** The present session's live lines are in the file of the cursor's boot, up to
      the cursor, or in files of earlier boots. */
  predicate CursorOk(s: System) {
    && (s.bootId.Some? ==> s.bootId.value != 0)
    && (Begun(s) ==> OrZero(s.bootId) == s.dev.boot || Earlier(s.boots, OrZero(s.bootId), s.dev.boot))
    && (forall l :: l in s.lines ==> l.session <= s.session)
    && (forall l :: l in s.lines && Mine(s, l) ==>
         Begun(s) && if l.file == OrZero(s.bootId) then l.rec.s <= s.lastSeq else Earlier(s.boots, l.file, OrZero(s.bootId)))
  }

  predicate SameStream(l: Line, m: Line) {
    l.live && m.live && l.session == m.session && l.file == m.file
  }

  /** Within a session, the live lines of a file have strictly increasing s. */
  predicate Increasing(lines: seq<Line>) {
    forall i, j :: 0 <= i < j < |lines| && SameStream(lines[i], lines[j]) ==> lines[i].rec.s < lines[j].rec.s
  }

  /** The records of the slot were written as such to its boot's file. */
  predicate Stored(lines: seq<Line>, slot: Slot) {
    forall r :: r in slot.recs ==> exists l :: l in lines && !l.live && l.file == slot.boot && l.rec == r
  }

  /** Slots are written and acknowledged together, in this order. */
  predicate AcksOk(s: System) {
    && (s.slot.Some? && Acked(s.acks, s.slot.value.boot) ==> Stored(s.lines, s.slot.value))
    && (s.reply.Some? && s.reply.value.Prev? && s.reply.value.slot.Some? && Acked(s.acks, s.reply.value.slot.value.boot) ==>
         Stored(s.lines, s.reply.value.slot.value))
    && (forall l :: l in s.lines && !l.live ==> Acked(s.acks, l.file))
  }

  /** What was given up is stored, and is not the present slot. */
  predicate ReleasedOk(s: System) {
    forall x :: x in s.released ==>
      && Stored(s.lines, x) && Earlier(s.boots, x.boot, s.dev.boot)
      && (s.slot.Some? ==> s.slot.value.boot != x.boot)
  }

  predicate Inv(s: System) {
    DeviceOk(s) && LinkOk(s) && ReplyOk(s) && CursorOk(s) && Increasing(s.lines) && AcksOk(s) && ReleasedOk(s)
  }

  lemma StoredMore(lines: seq<Line>, more: seq<Line>, slot: Slot)
    requires Stored(lines, slot)
    ensures Stored(lines + more, slot)
  {
    forall r | r in slot.recs ensures exists l :: l in lines + more && !l.live && l.file == slot.boot && l.rec == r {
      var l :| l in lines && !l.live && l.file == slot.boot && l.rec == r;
      assert l in lines + more;
    }
  }

  lemma StoredNow(lines: seq<Line>, slot: Slot, session: nat)
    ensures Stored(lines + Lines(slot.boot, slot.recs, false, session), slot)
  {
    var more := Lines(slot.boot, slot.recs, false, session);
    forall r | r in slot.recs ensures exists l :: l in lines + more && !l.live && l.file == slot.boot && l.rec == r {
      var i :| 0 <= i < |slot.recs| && slot.recs[i] == r;
      assert more[i] in lines + more;
    }
  }

  lemma EarlierMore(boots: seq<int>, more: int, a: int, b: int)
    requires Earlier(boots, a, b)
    ensures Earlier(boots + [more], a, b) && Earlier(boots + [more], a, more)
  {
    var i, j :| 0 <= i < j < |boots| && boots[i] == a && boots[j] == b;
    var all := boots + [more];
    assert all[i] == a && all[j] == b && all[|boots|] == more;
  }

  lemma EarlierTrans(boots: seq<int>, a: int, b: int, c: int)
    requires Distinct(boots) && Earlier(boots, a, b) && Earlier(boots, b, c)
    ensures Earlier(boots, a, c)
  {
    var i, j :| 0 <= i < j < |boots| && boots[i] == a && boots[j] == b;
    var k, l :| 0 <= k < l < |boots| && boots[k] == b && boots[l] == c;
    assert j == k;
  }

  lemma EarlierDiffers(boots: seq<int>, a: int, b: int)
    requires Distinct(boots) && Earlier(boots, a, b)
    ensures a != b && a in boots && b in boots && !Earlier(boots, b, a)
  {
    var i, j :| 0 <= i < j < |boots| && boots[i] == a && boots[j] == b;
  }

  lemma AppendKeeps(s: System, e: Event)
    requires Inv(s) && e.Append?
    ensures Inv(Step(s, e))
  {
  }

  lemma RebootKeeps(s: System, e: Event)
    requires Inv(s) && e.Reboot?
    ensures Inv(Step(s, e))
  {
    var t := Step(s, e);
    if t != s {
      forall a, b | Earlier(s.boots, a, b) ensures Earlier(t.boots, a, b) && Earlier(t.boots, a, e.boot) {
        EarlierMore(s.boots, e.boot, a, b);
      }
      assert Earlier(t.boots, s.dev.boot, e.boot) by {
        assert t.boots[|s.boots| - 1] == s.dev.boot && t.boots[|s.boots|] == e.boot;
      }
      forall b | Earlier(s.boots, b, s.dev.boot) ensures b != s.dev.boot {
        EarlierDiffers(s.boots, b, s.dev.boot);
      }
    }
  }

  lemma ConnectKeeps(s: System)
    requires Inv(s)
    ensures Inv(Step(s, Connect))
  {
  }

  /** What is served starts behind since, or at the oldest record. */
  lemma Served(dev: Ring, since: nat)
    requires dev.Valid()
    ensures var recs, lo := dev.Serve(since), if since + 1 < dev.first then dev.first else since + 1;
            |recs| <= |dev.data| && forall i :: 0 <= i < |recs| ==> lo - 1 + i < |dev.data| && recs[i] == dev.data[lo - 1 + i]
  {
  }

  lemma ServeShape(dev: Ring, since: nat)
    requires dev.Valid()
    ensures var recs := dev.Serve(since);
            && (forall i :: 0 <= i < |recs| ==> recs[i].origin == dev.boot && recs[i].s > since)
            && (forall i, j :: 0 <= i < j < |recs| ==> recs[i].s < recs[j].s)
  {
  }

  lemma ServeReadKeeps(s: System)
    requires Inv(s)
    ensures Inv(Step(s, ServeRead))
  {
    ServeShape(s.dev, s.lastSeq);
  }

  lemma {:induction false} MaxIsLast(recs: seq<Rec>)
    requires recs != [] && forall i, j :: 0 <= i < j < |recs| ==> recs[i].s < recs[j].s
    ensures MaxS(recs) == recs[|recs| - 1].s
  {
    if |recs| > 1 {
      MaxIsLast(recs[..|recs| - 1]);
    }
  }

  lemma TakeReadKeeps(s: System)
    requires Inv(s)
    ensures Inv(Step(s, TakeRead))
  {
    if s.phase == WaitRead && s.reply.Some? && s.reply.value.Batch? {
      var b := s.reply.value;
      if IsNewBoot(s.bootId, b.boot) {
        NewBoot(s, b.boot, b.recs);
      } else {
        StoreBatch(s, b.boot, b.recs);
      }
    }
  }

  lemma NewBoot(s: System, boot: int, recs: seq<Rec>)
    requires Inv(s) && s.phase == WaitRead && s.reply == Some(Batch(boot, recs)) && IsNewBoot(s.bootId, boot)
    ensures Inv(s.(bootId := Some(boot), lastSeq := 0, phase := WaitPrev, reply := None))
  {
    forall l | l in s.lines && Mine(s, l) ensures l.file != boot && Earlier(s.boots, l.file, boot) {
      if l.file != OrZero(s.bootId) {
        EarlierTrans(s.boots, l.file, OrZero(s.bootId), boot);
      }
      EarlierDiffers(s.boots, l.file, boot);
    }
  }

  /** Any other batch extends the lines of the session in order. */
  lemma StoreBatch(s: System, boot: int, recs: seq<Rec>)
    requires Inv(s) && s.phase == WaitRead && s.reply == Some(Batch(boot, recs)) && !IsNewBoot(s.bootId, boot)
    ensures Inv(s.(lines := s.lines + Lines(OrZero(s.bootId), recs, true, s.session),
                   lastSeq := NextCursor(s.lastSeq, recs), phase := Idle, reply := None))
  {
    var file := OrZero(s.bootId);
    var more := Lines(file, recs, true, s.session);
    var t := s.(lines := s.lines + more, lastSeq := NextCursor(s.lastSeq, recs), phase := Idle, reply := None);
    if recs != [] {
      MaxIsLast(recs);
    }
    assert forall l :: l in t.lines <==> l in s.lines || l in more;
    IncreasingMore(s, file, recs);
    AcksMore(s, more);
    if Earlier(s.boots, file, file) { EarlierDiffers(s.boots, file, file); }
  }

  lemma IncreasingMore(s: System, file: int, recs: seq<Rec>)
    requires CursorOk(s) && Increasing(s.lines) && file == OrZero(s.bootId)
    requires forall i :: 0 <= i < |recs| ==> recs[i].s > s.lastSeq
    requires forall i, j :: 0 <= i < j < |recs| ==> recs[i].s < recs[j].s
    ensures Increasing(s.lines + Lines(file, recs, true, s.session))
  {
    var more := Lines(file, recs, true, s.session);
    var all := s.lines + more;
    forall i, j | 0 <= i < j < |all| && SameStream(all[i], all[j]) ensures all[i].rec.s < all[j].rec.s {
      if j >= |s.lines| {
        assert all[j] == more[j - |s.lines|];
        if i >= |s.lines| {
          assert all[i] == more[i - |s.lines|];
        } else {
          assert all[i] in s.lines && Mine(s, all[i]);
        }
      }
    }
  }

  lemma AcksMore(s: System, more: seq<Line>)
    requires AcksOk(s) && forall l :: l in more ==> l.live
    ensures AcksOk(s.(lines := s.lines + more))
  {
    forall x | Stored(s.lines, x) ensures Stored(s.lines + more, x) {
      StoredMore(s.lines, more, x);
    }
  }

  lemma TakePrevKeeps(s: System)
    requires Inv(s)
    ensures Inv(Step(s, TakePrev))
  {
    if s.phase == WaitPrev && s.reply.Some? && s.reply.value.Prev? && s.reply.value.slot.Some? {
      WriteSlot(s, s.reply.value.slot.value);
    }
  }

  lemma WriteSlot(s: System, p: Slot)
    requires Inv(s) && s.phase == WaitPrev && s.reply == Some(Prev(Some(p)))
    ensures Inv(s.(lines := s.lines + Lines(p.boot, p.recs, false, s.session), acks := s.acks + [Ack(s.session, p.boot)],
                   phase := WaitAck, reply := None))
  {
    var more := Lines(p.boot, p.recs, false, s.session);
    forall x | Stored(s.lines, x) ensures Stored(s.lines + more, x) {
      StoredMore(s.lines, more, x);
    }
    StoredNow(s.lines, p, s.session);
    assert forall l :: l in s.lines + more <==> l in s.lines || l in more;
    NotLive(s.lines, more);
  }

  lemma NotLive(lines: seq<Line>, more: seq<Line>)
    requires Increasing(lines) && forall l :: l in more ==> !l.live
    ensures Increasing(lines + more)
  {
    var all := lines + more;
    forall i, j | 0 <= i < j < |all| && SameStream(all[i], all[j]) ensures all[i].rec.s < all[j].rec.s {
      assert forall k :: |lines| <= k < |all| ==> all[k] == more[k - |lines|];
    }
  }

  /** In the session an acknowledgement was signed for, it can only hit the slot it was sent for. */
  lemma OwnSlot(s: System, e: Event)
    requires Inv(s) && Releases(s, e)
    ensures e.boot == s.slot.value.boot && Stored(s.lines, s.slot.value)
  {
    assert Acked(s.acks, e.boot);
  }

  lemma DeliverAckKeeps(s: System, e: Event)
    requires Inv(s) && e.DeliverAck?
    ensures Inv(Step(s, e))
  {
    if Releases(s, e) {
      OwnSlot(s, e);
    }
  }

  lemma StepKeeps(s: System, e: Event)
    requires Inv(s)
    ensures Inv(Step(s, e))
  {
    match e
    case Append(_, _) => AppendKeeps(s, e);
    case Reboot(_, _) => RebootKeeps(s, e);
    case Connect => ConnectKeeps(s);
    case ServeRead => ServeReadKeeps(s);
    case TakeRead => TakeReadKeeps(s);
    case TakePrev => TakePrevKeeps(s);
    case DeliverAck(_) => DeliverAckKeeps(s, e);
    case _ =>
  }

  lemma {:induction false} RunKeeps(s: System, es: seq<Event>)
    requires Inv(s)
    ensures Inv(Run(s, es))
    decreases |es|
  {
    if es != [] {
      StepKeeps(s, es[0]);
      RunKeeps(Step(s, es[0]), es[1..]);
    }
  }

  lemma StartInv(boot: int)
    ensures Inv(Start(boot))
  {
  }

  // ---- Results about all runs ------------------------------------------------

  lemma RunInv(boot: int, es: seq<Event>)
    ensures Inv(Run(Start(boot), es))
  {
    StartInv(boot);
    RunKeeps(Start(boot), es);
  }

  /** Every record sits in the file of the boot that made it. */
  predicate RightFiles(s: System) {
    forall l :: l in s.lines ==> l.file == l.rec.origin
  }

  /** Records of a boot with id 0 are taken while another boot's id is held. */
  predicate Misfiles(s: System, e: Event) {
    && e.TakeRead? && s.phase == WaitRead && s.reply.Some? && s.reply.value.Batch?
    && s.reply.value.boot == 0 && s.reply.value.recs != [] && s.bootId.Some?
  }

  predicate NeverMisfiles(s: System, es: seq<Event>)
    requires s.dev.Valid()
    decreases |es|
  {
    es != [] ==> !Misfiles(s, es[0]) && NeverMisfiles(Step(s, es[0]), es[1..])
  }

  lemma StepFiles(s: System, e: Event)
    requires Inv(s)
    ensures RightFiles(Step(s, e)) <==> RightFiles(s) && !Misfiles(s, e)
  {
    if e.TakeRead? && s.phase == WaitRead && s.reply.Some? && s.reply.value.Batch? && !IsNewBoot(s.bootId, s.reply.value.boot) {
      BatchFiles(s.lines, OrZero(s.bootId), s.reply.value.boot, s.reply.value.recs, true, s.session);
    } else if e.TakePrev? && s.phase == WaitPrev && s.reply.Some? && s.reply.value.Prev? && s.reply.value.slot.Some? {
      var p := s.reply.value.slot.value;
      BatchFiles(s.lines, p.boot, p.boot, p.recs, false, s.session);
    }
  }

  lemma BatchFiles(lines: seq<Line>, file: int, boot: int, recs: seq<Rec>, live: bool, session: nat)
    requires forall r :: r in recs ==> r.origin == boot
    ensures (forall l :: l in lines + Lines(file, recs, live, session) ==> l.file == l.rec.origin)
       <==> (forall l :: l in lines ==> l.file == l.rec.origin) && (recs != [] ==> file == boot)
  {
    var more := Lines(file, recs, live, session);
    assert forall l :: l in lines + more <==> l in lines || l in more;
    assert forall i :: 0 <= i < |recs| ==> recs[i] in recs && more[i].rec.origin == boot;
    assert recs != [] ==> more[0] in more;
  }

  lemma {:induction false} FilesFrom(s: System, es: seq<Event>)
    requires Inv(s)
    ensures RightFiles(Run(s, es)) <==> RightFiles(s) && NeverMisfiles(s, es)
    decreases |es|
  {
    if es != [] {
      StepKeeps(s, es[0]);
      StepFiles(s, es[0]);
      FilesFrom(Step(s, es[0]), es[1..]);
    }
  }

  /** Every stored record is in the file of the boot that made it, whatever
      reboots, timeouts and reconnects the run has, if and only if no records of
      a boot with id 0 are taken while another boot's id is held. */
  lemma RightFile(boot: int, es: seq<Event>)
    ensures RightFiles(Run(Start(boot), es)) <==> NeverMisfiles(Start(boot), es)
  {
    StartInv(boot);
    FilesFrom(Start(boot), es);
  }

  /** Within a session the live lines of a file are strictly increasing in s: none
      is stored twice, although every change of boot starts over at 0. */
  lemma SessionIncreasing(boot: int, es: seq<Event>, i: nat, j: nat)
    requires var lines := Run(Start(boot), es).lines; i < j < |lines| && SameStream(lines[i], lines[j])
    ensures Run(Start(boot), es).lines[i].rec.s < Run(Start(boot), es).lines[j].rec.s
  {
    RunInv(boot, es);
  }

  lemma WrittenIffAcknowledged(s: System)
    requires Inv(s) && s.slot.Some?
    ensures Stored(s.lines, s.slot.value) <==> Acked(s.acks, s.slot.value.boot)
  {
    assert s.slot.value.recs[0] in s.slot.value.recs;
  }

  /** When an acknowledgement makes the device give up a slot, however late it arrives,
      it is the one sent for that slot, and all the slot's records are in its
      boot's file already. */
  lemma StoredBeforeReleased(boot: int, es: seq<Event>, ack: int)
    requires Releases(Run(Start(boot), es), DeliverAck(ack))
    ensures var s := Run(Start(boot), es);
            var t := Step(s, DeliverAck(ack));
            && t.slot.None? && t.released == s.released + [s.slot.value]
            && ack == s.slot.value.boot && Stored(s.lines, s.slot.value)
  {
    RunInv(boot, es);
    OwnSlot(Run(Start(boot), es), DeliverAck(ack));
  }

  /** Every slot is written before it is given up. */
  predicate StoredFirst(s: System, es: seq<Event>)
    requires s.dev.Valid()
    decreases |es|
  {
    es != [] ==>
      && (Releases(s, es[0]) ==> Stored(s.lines, s.slot.value))
      && StoredFirst(Step(s, es[0]), es[1..])
  }

  lemma {:induction false} StoredFirstFrom(s: System, es: seq<Event>)
    requires Inv(s)
    ensures StoredFirst(s, es)
    decreases |es|
  {
    if es != [] {
      if Releases(s, es[0]) {
        OwnSlot(s, es[0]);
      }
      StepKeeps(s, es[0]);
      StoredFirstFrom(Step(s, es[0]), es[1..]);
    }
  }

  /** In every run every slot is in its file before the device gives it up. */
  lemma StoreBeforeAck(boot: int, es: seq<Event>)
    ensures StoredFirst(Start(boot), es)
  {
    StartInv(boot);
    StoredFirstFrom(Start(boot), es);
  }

  predicate AllKept(s: System) {
    forall x :: x in s.released ==> Stored(s.lines, x)
  }

  /** In every run nothing that a given-up slot held is ever missing from the files. */
  lemma ReleasedKept(boot: int, es: seq<Event>)
    ensures AllKept(Run(Start(boot), es))
  {
    RunInv(boot, es);
  }

  lemma {:induction false} BootsGrow(s: System, es: seq<Event>)
    requires s.dev.Valid()
    ensures forall b :: b in s.boots ==> b in Run(s, es).boots
    decreases |es|
  {
    if es != [] {
      BootsGrow(Step(s, es[0]), es[1..]);
    }
  }

  lemma {:induction false} NonZeroFrom(s: System, es: seq<Event>)
    requires Inv(s) && 0 !in Run(s, es).boots
    ensures NeverMisfiles(s, es)
    decreases |es|
  {
    BootsGrow(s, es);
    if es != [] {
      StepKeeps(s, es[0]);
      NonZeroFrom(Step(s, es[0]), es[1..]);
      forall b | Earlier(s.boots, b, s.dev.boot) ensures b != 0 {
        EarlierDiffers(s.boots, b, s.dev.boot);
      }
    }
  }

  /** A device that never uses 0 as a boot id meets the condition. */
  lemma NonZeroBoots(boot: int, es: seq<Event>)
    requires 0 !in Run(Start(boot), es).boots
    ensures NeverMisfiles(Start(boot), es)
  {
    StartInv(boot);
    NonZeroFrom(Start(boot), es);
  }

  /** The device serves only requests signed for a session opened since its last reboot. */
  predicate Checked(s: System, es: seq<Event>)
    requires s.dev.Valid()
    decreases |es|
  {
    es != [] ==>
      && (es[0].ServeRead? || es[0].ServePrev? ==> s.linked)
      && Checked(Step(s, es[0]), es[1..])
  }

  /** Then a session never sees a change of boot. */
  predicate OneBoot(s: System) {
    && (s.reply.Some? && s.reply.value.Batch? && s.bootId.Some? ==> s.bootId.value == s.reply.value.boot)
    && (s.linked && s.bootId.Some? ==> s.bootId.value == s.dev.boot)
    && (s.linked && s.reply.Some? && s.reply.value.Batch? ==> s.reply.value.boot == s.dev.boot)
  }

  lemma {:induction false} CheckedFrom(s: System, es: seq<Event>)
    requires Inv(s) && OneBoot(s) && Checked(s, es)
    ensures NeverMisfiles(s, es)
    decreases |es|
  {
    if es != [] {
      StepKeeps(s, es[0]);
      CheckedStep(s, es[0]);
      CheckedFrom(Step(s, es[0]), es[1..]);
    }
  }

  lemma CheckedStep(s: System, e: Event)
    requires OneBoot(s) && s.dev.Valid() && (e.ServeRead? || e.ServePrev? ==> s.linked)
    ensures OneBoot(Step(s, e))
  {
  }

  /** In every run with a device that checks so, all records are in the right files,
      boots with id 0 included. */
  lemma CheckedFiles(boot: int, es: seq<Event>)
    requires Checked(Start(boot), es)
    ensures RightFiles(Run(Start(boot), es))
  {
    StartInv(boot);
    CheckedFrom(Start(boot), es);
    RightFile(boot, es);
  }

  // ---- The poller's state ----------------------------------------------------

  /** The last SHADOW elements. */
  function Tail(lines: seq<Line>): seq<Line> {
    if |lines| <= SHADOW then lines else lines[|lines| - SHADOW..]
  }

  lemma TailMore(lines: seq<Line>, more: seq<Line>)
    ensures Tail(Tail(lines) + more) == Tail(lines + more)
  {
    if |lines| > SHADOW {
      assert lines + more == lines[..|lines| - SHADOW] + (Tail(lines) + more);
    }
  }

  /** The UI list is the last 200 lines written. */
  lemma TailShape(lines: seq<Line>)
    ensures |Tail(lines)| == if |lines| <= 200 then |lines| else 200
    ensures forall i :: 0 <= i < |Tail(lines)| ==> Tail(lines)[i] == lines[|lines| - |Tail(lines)| + i]
  {
  }

  lemma LastLine(lines: seq<Line>, more: seq<Line>)
    requires more != []
    ensures Tail(lines + more) != [] && Tail(lines + more)[|Tail(lines + more)| - 1] == more[|more| - 1]
  {
  }

  class LogPoller {
    const session: nat
    var bootId: Option<int>
    var lastSeq: nat
    var lines: seq<Line>    // the files, in the order of writing
    var logs: seq<Line>     // the UI shadow

    predicate Valid()
      reads this
    {
      logs == Tail(lines)
    }

    function View(): Held
      reads this
    {
      Held(bootId, lastSeq, lines)
    }

    constructor (session: nat, lines: seq<Line>)
      ensures Valid() && this.session == session && this.lines == lines && bootId == None && lastSeq == 0
    {
      this.session, this.lines, this.logs := session, lines, Tail(lines);
      bootId, lastSeq := None, 0;
    }

    method LogStore(file: int, recs: seq<Rec>, live: bool)
      requires Valid()
      modifies this`lines, this`logs
      ensures Valid() && lines == old(lines) + Lines(file, recs, live, session)
      ensures recs != [] ==> logs != [] && logs[|logs| - 1] == Line(file, recs[|recs| - 1], live, session)
    {
      if recs != [] {
        Write(Lines(file, recs, live, session));
      } else {
        assert lines + Lines(file, recs, live, session) == lines;
      }
    }

    method Write(more: seq<Line>)
      requires Valid() && more != []
      modifies this`lines, this`logs
      ensures Valid() && lines == old(lines) + more && logs != [] && logs[|logs| - 1] == more[|more| - 1]
    {
      TailMore(lines, more);
      LastLine(lines, more);
      lines := lines + more;
      logs := logs + more;
      if |logs| > SHADOW {
        logs := logs[|logs| - SHADOW..];
      }
    }

    /** What a log batch makes the poller do: newBoot asks for the previous boot's log next. */
    method OnBatch(boot: int, recs: seq<Rec>) returns (newBoot: bool)
      requires Valid()
      modifies this
      ensures Valid()
      ensures newBoot <==> IsNewBoot(old(bootId), boot)
      ensures View() == AfterBatch(old(View()), session, boot, recs)
    {
      newBoot := IsNewBoot(bootId, boot);
      if newBoot {
        bootId, lastSeq := Some(boot), 0;
        return;
      }
      LogStore(OrZero(bootId), recs, true);
      if recs != [] {
        lastSeq := if MaxS(recs) < 0 then 0 else MaxS(recs);
      }
    }

    /** Stores an available previous log; ack is what to acknowledge, after storing. */
    method OnPrev(slot: Option<Slot>) returns (ack: Option<int>)
      requires Valid()
      modifies this`lines, this`logs
      ensures Valid()
      ensures slot.None? ==> ack.None? && lines == old(lines)
      ensures slot.Some? ==> ack == Some(slot.value.boot) && Stored(lines, slot.value)
      ensures slot.Some? ==> lines == old(lines) + Lines(slot.value.boot, slot.value.recs, false, session)
    {
      if slot.None? {
        return None;
      }
      StoredNow(lines, slot.value, session);
      LogStore(slot.value.boot, slot.value.recs, false);
      ack := Some(slot.value.boot);
    }

    /** What is stored and what of the ring is still to come. */
    ghost function Total(dev: Ring): seq<Line>
      requires dev.Valid()
      reads this
    {
      lines + Lines(dev.boot, dev.Newer(lastSeq), true, session)
    }

    /** The batches of this device go to its own file. */
    predicate Reads(dev: Ring)
      reads this
    {
      OrZero(bootId) == dev.boot && !IsNewBoot(bootId, dev.boot)
    }

    /** One round of the loop; more says that the next one follows without delay. */
    method Round(dev: Ring) returns (more: bool)
      requires Valid() && dev.Valid() && Reads(dev) && lastSeq <= |dev.data|
      modifies this
      ensures Valid() && bootId == old(bootId) && old(lastSeq) <= lastSeq <= |dev.data|
      ensures Total(dev) == old(Total(dev))
      ensures if more then lastSeq > old(lastSeq) else dev.Newer(lastSeq) == []
    {
      var recs := dev.Serve(lastSeq);
      NextRound(dev, lastSeq);
      ghost var next := NextCursor(lastSeq, recs);
      Extend(lines, dev.boot, recs, dev.Newer(next), session);
      var newBoot := OnBatch(dev.boot, recs);
      more := |recs| >= LIMIT;
    }

    /** The undelayed rounds while nothing is appended: full batches are followed
        at once by the next read, until the ring is drained. */
    method Drain(dev: Ring)
      requires Valid() && dev.Valid() && Reads(dev) && lastSeq <= |dev.data|
      modifies this
      ensures Valid() && bootId == old(bootId)
      ensures lines == old(lines) + Lines(dev.boot, dev.Newer(old(lastSeq)), true, session)
      ensures dev.Newer(lastSeq) == []
    {
      var more := true;
      while more
        invariant Valid() && bootId == old(bootId) && Reads(dev) && lastSeq <= |dev.data|
        invariant Total(dev) == old(Total(dev))
        invariant !more ==> dev.Newer(lastSeq) == []
        decreases |dev.data| - lastSeq, more
      {
        more := Round(dev);
      }
      assert Total(dev) == lines + [];
    }
  }

  lemma Extend(lines: seq<Line>, file: int, a: seq<Rec>, b: seq<Rec>, session: nat)
    ensures (lines + Lines(file, a, true, session)) + Lines(file, b, true, session)
         == lines + Lines(file, a + b, true, session)
  {
    assert Lines(file, a, true, session) + Lines(file, b, true, session) == Lines(file, a + b, true, session);
  }

  /** Where the records after since start, counted from 0. */
  function Offset(dev: Ring, since: nat): nat
    requires dev.Valid()
  {
    if since + 1 < dev.first then dev.first - 1 else since
  }

  lemma NewerIs(dev: Ring, since: nat)
    requires dev.Valid() && since <= |dev.data|
    ensures Offset(dev, since) <= |dev.data| && dev.Newer(since) == dev.data[Offset(dev, since)..]
  {
  }

  lemma NextIs(dev: Ring, since: nat)
    requires dev.Valid() && since <= |dev.data| && dev.Serve(since) != []
    ensures var recs := dev.Serve(since);
            NextCursor(since, recs) == Offset(dev, since) + |recs| <= |dev.data|
  {
    var recs := dev.Serve(since);
    Served(dev, since);
    ServeShape(dev, since);
    MaxIsLast(recs);
    assert recs[|recs| - 1] == dev.data[Offset(dev, since) + (|recs| - 1)];
  }

  /** The cursor moves past exactly what was served. */
  lemma NextRound(dev: Ring, since: nat)
    requires dev.Valid() && since <= |dev.data|
    ensures var recs := dev.Serve(since);
            var next := NextCursor(since, recs);
            && recs + dev.Newer(next) == dev.Newer(since)
            && (recs != [] ==> since < next <= |dev.data|)
            && (|recs| < LIMIT ==> dev.Newer(next) == [])
  {
    NewerIs(dev, since);
    var recs, k := dev.Serve(since), Offset(dev, since);
    if recs != [] {
      NextIs(dev, since);
      NewerIs(dev, k + |recs|);
      FrontRest(dev.data, k, LIMIT);
    }
  }

  lemma FrontRest(data: seq<Rec>, k: nat, n: nat)
    requires k <= |data|
    ensures var recs := Front(data[k..], n);
            && recs + data[k + |recs|..] == data[k..]
            && (|recs| < n ==> data[k + |recs|..] == [])
  {
  }
}

/** Reading the device's pressure ring by cursor, across evictions, reboots and reconnects. */
module HistoryPoll {
  import opened Wrappers
  import opened History

  const LIMIT: nat := 100   // max_samples of a request

  datatype Row = Row(seqNo: int, tsMs: int, mbar: int) | Malformed

  datatype Batch = Batch(boot: int, nextSeq: int, firstAvail: int, nowMs: int, rows: seq<Row>)

  // ---- The server's half -----------------------------------------------------

  datatype Cursor = Cursor(boot: Option<int>, seqNo: nat)

  /** What the server makes of the seqs of a boot, in order. */
  datatype Item = Got(boot: int, seqNo: int) | Gap(boot: int, lo: int, hi: int)

  function Rebase(c: Cursor, b: Batch): Cursor {
    if c.boot != Some(b.boot) || b.nextSeq <= c.seqNo then Cursor(Some(b.boot), 0) else c
  }

  predicate IsNew(cursor: nat, row: Row) {
    row.Row? && row.seqNo > cursor
  }

  /** The cursor after these rows. */
  function EndCursor(cursor: nat, rows: seq<Row>): nat {
    if rows == [] then cursor else
      var k, row := EndCursor(cursor, rows[..|rows| - 1]), rows[|rows| - 1];
      if IsNew(k, row) then row.seqNo else k
  }

  function NewRows(cursor: nat, boot: int, rows: seq<Row>): seq<Item> {
    if rows == [] then [] else
      var init, row := rows[..|rows| - 1], rows[|rows| - 1];
      NewRows(cursor, boot, init) + if IsNew(EndCursor(cursor, init), row) then [Got(boot, row.seqNo)] else []
  }

  function Announced(cursor: nat, b: Batch): seq<Item> {
    if cursor != 0 && b.firstAvail > cursor + 1 then [Gap(b.boot, cursor + 1, b.firstAvail - 1)] else []
  }

  function Ingest(c: Cursor, b: Batch): (Cursor, seq<Item>) {
    var k := Rebase(c, b);
    (Cursor(k.boot, EndCursor(k.seqNo, b.rows)), Announced(k.seqNo, b) + NewRows(k.seqNo, b.boot, b.rows))
  }

  // ---- The device's half -----------------------------------------------------

  /** data holds every sample of this boot, seq 1 first; those before seq first are evicted. */
  datatype Device = Device(boot: int, first: nat, data: seq<(int, int)>) {
    function NextSeq(): nat { |data| + 1 }

    /** A ring that has held a sample always holds one. */
    predicate Valid() {
      1 <= first <= NextSeq() && (data != [] ==> first <= |data|)
    }

    function Lo(since: nat): nat {
      if since + 1 < first then first else since + 1
    }

    function Count(since: nat): nat {
      if Lo(since) >= NextSeq() then 0
      else if NextSeq() - Lo(since) > LIMIT then LIMIT else NextSeq() - Lo(since)
    }

    /** The first LIMIT samples newer than since. */
    function Serve(since: nat, nowMs: int): Batch
      requires Valid()
    {
      Batch(boot, NextSeq(), first, nowMs,
        seq(Count(since), i requires 0 <= i < Count(since) =>
          Row(Lo(since) + i, data[Lo(since) + i - 1].0, data[Lo(since) + i - 1].1)))
    }
  }

  // ---- The run of both -------------------------------------------------------

  datatype System = System(
    dev: Device,
    boots: seq<int>,            // every boot id so far
    cur: Cursor,                // survives reconnects
    inflight: Option<Batch>,    // built by the device, not yet received
    seen: int,                  // next_seq of the last batch received
    trail: seq<Item>)

  datatype Event =
    | Sample(tsMs: int, mbar: int, first: nat)   // takes a sample, evicting up to first
    | Reboot(boot: int)
    | Handle(nowMs: int)    // the device answers a request made with the present cursor
    | Lose                  // timeout or disconnect: the answer never counts
    | Receive

  function Step(s: System, e: Event): System
    requires s.dev.Valid()
  {
    match e
    case Sample(ts, mbar, first) =>
      if s.dev.first <= first <= s.dev.NextSeq()
      then s.(dev := Device(s.dev.boot, first, s.dev.data + [(ts, mbar)])) else s
    case Reboot(boot) =>
      if boot in s.boots then s else s.(dev := Device(boot, 1, []), boots := s.boots + [boot])
    case Handle(nowMs) => if s.inflight.None? then s.(inflight := Some(s.dev.Serve(s.cur.seqNo, nowMs))) else s
    case Lose => s.(inflight := None)
    case Receive =>
      if s.inflight.None? then s else
        var b := s.inflight.value;
        var (cur, items) := Ingest(s.cur, b);
        s.(cur := cur, inflight := None, seen := b.nextSeq, trail := s.trail + items)
  }

  function Start(boot: int): System {
    System(Device(boot, 1, []), [boot], Cursor(None, 0), None, 0, [])
  }

  function Run(boot: int, es: seq<Event>): (s: System)
    ensures s.dev.Valid()
  {
    if es == [] then Start(boot) else Step(Run(boot, es[..|es| - 1]), es[|es| - 1])
  }

  // ---- What every step keeps -------------------------------------------------

  /** Position of a boot id among all boots so far. */
  function At(boots: seq<int>, boot: int): (i: nat)
    requires boot in boots
    ensures i < |boots| && boots[i] == boot
  {
    if boots[0] == boot then 0 else 1 + At(boots[1..], boot)
  }

  lemma {:induction false} AtAppend(boots: seq<int>, more: int, boot: int)
    requires boot in boots
    ensures At(boots + [more], boot) == At(boots, boot)
  {
    if boots[0] != boot {
      assert (boots + [more])[1..] == boots[1..] + [more];
      AtAppend(boots[1..], more, boot);
    }
  }

  function Lowest(x: Item): int {
    if x.Got? then x.seqNo else x.lo
  }

  function Highest(x: Item): int {
    if x.Got? then x.seqNo else x.hi
  }

  /** Neighbours in the trail: the next seq of the same boot, or the first received of a later one. */
  predicate Follows(boots: seq<int>, x: Item, y: Item) {
    && x.boot in boots && y.boot in boots
    && (x.boot == y.boot ==> Lowest(y) == Highest(x) + 1)
    && (x.boot != y.boot ==> y.Got? && At(boots, x.boot) < At(boots, y.boot))
  }

  predicate Tiled(boots: seq<int>, trail: seq<Item>) {
    && (forall i :: 0 <= i < |trail| ==> trail[i].boot in boots && Lowest(trail[i]) <= Highest(trail[i]))
    && (forall i :: 0 <= i < |trail| - 1 ==> Follows(boots, trail[i], trail[i + 1]))
    && (trail != [] ==> trail[0].Got?)
  }

  predicate BootsOk(s: System) {
    && s.boots != [] && s.dev.boot == s.boots[|s.boots| - 1]
    && (forall i, j :: 0 <= i < j < |s.boots| ==> s.boots[i] != s.boots[j])
  }

  /** The cursor is where the trail ends, and within what the device has produced. */
  predicate CursorOk(s: System) {
    && (s.cur.boot.None? ==> s.cur.seqNo == 0 && s.trail == [])
    && (s.cur.boot.Some? ==>
         && s.cur.boot.value in s.boots
         && (s.cur.boot.value == s.dev.boot ==> s.cur.seqNo < s.dev.NextSeq())
         && (s.cur.seqNo > 0 ==> s.trail != [] && Last(s.trail).boot == s.cur.boot.value && Highest(Last(s.trail)) == s.cur.seqNo)
         && (s.cur.seqNo == 0 && s.trail != [] ==>
              Last(s.trail).boot in s.boots && At(s.boots, Last(s.trail).boot) < At(s.boots, s.cur.boot.value)))
  }

  function Last(trail: seq<Item>): Item
    requires trail != []
  {
    trail[|trail| - 1]
  }

  /** rows are consecutive samples from lo on. */
  predicate Consecutive(rows: seq<Row>, lo: nat) {
    forall i :: 0 <= i < |rows| ==> rows[i].Row? && rows[i].seqNo == lo + i
  }

  /** A batch on its way was built with the present cursor, in the cursor's boot or a later one. */
  predicate BatchOk(s: System, b: Batch) {
    && b.boot in s.boots && 1 <= b.firstAvail <= b.nextSeq
    && (b.nextSeq > 1 ==> b.firstAvail < b.nextSeq)
    && (b.boot == s.dev.boot ==> b.nextSeq <= s.dev.NextSeq() && b.firstAvail <= s.dev.first)
    && (s.cur.boot.Some? ==> s.cur.boot.value in s.boots && At(s.boots, s.cur.boot.value) <= At(s.boots, b.boot))
    && (s.cur.boot == Some(b.boot) ==> s.cur.seqNo < b.nextSeq)
    && (var lo := BatchLo(s, b);
        && Consecutive(b.rows, lo) && (b.rows == [] <==> lo >= b.nextSeq)
        && lo + |b.rows| <= (if lo >= b.nextSeq then lo else b.nextSeq))
  }

  function BatchLo(s: System, b: Batch): nat
    requires b.firstAvail >= 1
  {
    if s.cur.seqNo + 1 < b.firstAvail then b.firstAvail else s.cur.seqNo + 1
  }

  /** Announced gaps of the running boot name evicted seqs only. */
  predicate GapsOk(s: System) {
    forall x :: x in s.trail && x.Gap? && x.boot == s.dev.boot ==> x.hi < s.dev.first
  }

  predicate Inv(s: System) {
    && s.dev.Valid() && BootsOk(s) && CursorOk(s) && GapsOk(s) && Tiled(s.boots, s.trail)
    && (s.inflight.Some? ==> BatchOk(s, s.inflight.value))
  }

  lemma SampleKeeps(s: System, e: Event)
    requires Inv(s) && e.Sample?
    ensures Inv(Step(s, e))
  {
  }

  lemma RebootKeeps(s: System, e: Event)
    requires Inv(s) && e.Reboot?
    ensures Inv(Step(s, e))
  {
    if e.boot !in s.boots {
      forall b | b in s.boots ensures At(s.boots + [e.boot], b) == At(s.boots, b) {
        AtAppend(s.boots, e.boot, b);
      }
      TiledMore(s.boots, e.boot, s.trail);
      assert GapsOk(Step(s, e)) by {
        assert forall x :: x in s.trail ==> x.boot in s.boots;
      }
    }
  }

  lemma TiledMore(boots: seq<int>, more: int, trail: seq<Item>)
    requires Tiled(boots, trail)
    ensures Tiled(boots + [more], trail)
  {
    forall i | 0 <= i < |trail| - 1 ensures Follows(boots + [more], trail[i], trail[i + 1]) {
      assert Follows(boots, trail[i], trail[i + 1]);
      AtAppend(boots, more, trail[i].boot);
      AtAppend(boots, more, trail[i + 1].boot);
    }
  }

  lemma HandleKeeps(s: System, e: Event)
    requires Inv(s) && e.Handle?
    ensures Inv(Step(s, e))
  {
    if s.inflight.None? {
      AtLast(s.boots);
    }
  }

  lemma AtLast(boots: seq<int>)
    requires boots != [] && forall i, j :: 0 <= i < j < |boots| ==> boots[i] != boots[j]
    ensures At(boots, boots[|boots| - 1]) == |boots| - 1
  {
    assert forall i :: 0 <= i < |boots| - 1 ==> boots[i] != boots[|boots| - 1];
  }

  /** What the device answers: its boot, the next seq, the first one it still has and its
      clock, with exactly the first 100 of its samples that are newer than the cursor. */
  lemma AnswerIs(s: System, nowMs: int, q: int)
    requires s.dev.Valid() && s.inflight.None?
    ensures var b := Step(s, Handle(nowMs)).inflight.value;
            var lo := if s.cur.seqNo + 1 < s.dev.first then s.dev.first else s.cur.seqNo + 1;
            && b.boot == s.dev.boot && b.nextSeq == |s.dev.data| + 1 && b.firstAvail == s.dev.first && b.nowMs == nowMs
            && ((exists i :: 0 <= i < |b.rows| && b.rows[i].Row? && b.rows[i].seqNo == q) <==>
                  lo <= q <= |s.dev.data| && q < lo + 100)
  {
    var b := s.dev.Serve(s.cur.seqNo, nowMs);
    var lo := s.dev.Lo(s.cur.seqNo);
    assert forall i :: 0 <= i < |b.rows| ==> b.rows[i].seqNo == lo + i;
    if lo <= q <= |s.dev.data| && q < lo + 100 {
      assert b.rows[q - lo].seqNo == q;
    }
  }

  lemma {:induction false} AllNew(cursor: nat, boot: int, rows: seq<Row>, lo: nat)
    requires Consecutive(rows, lo) && cursor < lo
    ensures EndCursor(cursor, rows) == if rows == [] then cursor else lo + |rows| - 1
    ensures NewRows(cursor, boot, rows) == Straight(boot, lo, |rows|)
  {
    if rows != [] {
      AllNew(cursor, boot, rows[..|rows| - 1], lo);
    }
  }

  function Straight(boot: int, lo: int, n: nat): seq<Item> {
    seq(n, i requires 0 <= i < n => Got(boot, lo + i))
  }

  /** Within a boot the reset test never fires, so the cursor restarts exactly on a new boot. */
  lemma ResetExact(s: System)
    requires Inv(s) && s.inflight.Some?
    ensures Rebase(s.cur, s.inflight.value) == if s.cur.boot == Some(s.inflight.value.boot) then s.cur
                                               else Cursor(Some(s.inflight.value.boot), 0)
  {
  }

  /** A device that starts over under the same boot id shows in its next_seq: the cursor
      restarts and every row is new, while a batch that goes on from the cursor leaves it. */
  lemma RestartExact(c: Cursor, b: Batch, lo: nat)
    requires Consecutive(b.rows, lo) && lo >= 1
    ensures c.boot == Some(b.boot) && b.nextSeq <= c.seqNo ==>
              Ingest(c, b).1 == Straight(b.boot, lo, |b.rows|)
    ensures c.boot == Some(b.boot) && b.nextSeq > c.seqNo && lo == c.seqNo + 1 && b.firstAvail <= lo ==>
              Ingest(c, b).1 == Straight(b.boot, lo, |b.rows|)
              && Ingest(c, b).0.seqNo == c.seqNo + |b.rows|
  {
    AllNew(0, b.boot, b.rows, lo);
    if lo == c.seqNo + 1 {
      AllNew(c.seqNo, b.boot, b.rows, lo);
    }
  }

  /** What the batch on its way will add: perhaps a gap, then all of its rows. */
  lemma Arrival(s: System)
    requires Inv(s) && s.inflight.Some?
    ensures var b := s.inflight.value;
            var k, lo := Rebase(s.cur, b).seqNo, BatchLo(s, b);
            && Ingest(s.cur, b).1 == Announced(k, b) + Straight(b.boot, lo, |b.rows|)
            && Ingest(s.cur, b).0 == Cursor(Some(b.boot), if b.rows == [] then k else lo + |b.rows| - 1)
            && k < lo
            && (Announced(k, b) != [] ==> b.rows != [] && lo == b.firstAvail)
            && (Announced(k, b) == [] && k > 0 && b.rows != [] ==> lo == k + 1)
            && (b.rows != [] ==> lo + |b.rows| <= b.nextSeq)
  {
    var b := s.inflight.value;
    ResetExact(s);
    AllNew(Rebase(s.cur, b).seqNo, b.boot, b.rows, BatchLo(s, b));
  }

  /** One batch continues the tiling of its boot. */
  lemma ItemsTile(s: System)
    requires Inv(s) && s.inflight.Some?
    ensures Tiled(s.boots, s.trail + Ingest(s.cur, s.inflight.value).1)
  {
    var b := s.inflight.value;
    var gap, news := Announced(Rebase(s.cur, b).seqNo, b), Straight(b.boot, BatchLo(s, b), |b.rows|);
    Arrival(s);
    GapTiles(s, gap);
    FitsBehind(s, gap, news);
    TileAppend(s.boots, s.trail + gap, news);
    assert (s.trail + gap) + news == s.trail + (gap + news);
  }

  lemma GapTiles(s: System, gap: seq<Item>)
    requires Inv(s) && s.inflight.Some?
    requires gap == Announced(Rebase(s.cur, s.inflight.value).seqNo, s.inflight.value)
    ensures Tiled(s.boots, s.trail + gap)
  {
    ResetExact(s);
    TileAppend(s.boots, s.trail, gap);
  }

  /** The new items are of the batch's boot, end at the new cursor, and name evicted seqs in the gap only. */
  lemma ItemsShape(s: System)
    requires Inv(s) && s.inflight.Some?
    ensures var b := s.inflight.value;
            var (cur, items) := Ingest(s.cur, b);
            && (items == [] ==> cur.seqNo == Rebase(s.cur, b).seqNo)
            && (items != [] ==> Last(items).boot == b.boot && Highest(Last(items)) == cur.seqNo && 0 < cur.seqNo < b.nextSeq)
            && (forall x :: x in items ==> x.boot == b.boot && (x.Gap? ==> x.hi < b.firstAvail))
  {
    Arrival(s);
  }

  lemma FitsBehind(s: System, gap: seq<Item>, news: seq<Item>)
    requires Inv(s) && s.inflight.Some?
    requires var b := s.inflight.value;
             gap == Announced(Rebase(s.cur, b).seqNo, b) && news == Straight(b.boot, BatchLo(s, b), |b.rows|)
    ensures news != [] ==>
              if s.trail + gap == [] then news[0].Got? else Follows(s.boots, Last(s.trail + gap), news[0])
  {
    Arrival(s);
    ResetExact(s);
    assert gap != [] ==> Last(s.trail + gap) == gap[0];
    assert gap == [] ==> s.trail + gap == s.trail;
  }

  /** Appending a tiled piece that fits behind the last item. */
  lemma TileAppend(boots: seq<int>, trail: seq<Item>, items: seq<Item>)
    requires Tiled(boots, trail)
    requires forall i :: 0 <= i < |items| ==> items[i].boot in boots && Lowest(items[i]) <= Highest(items[i])
    requires forall i :: 0 <= i < |items| - 1 ==> Follows(boots, items[i], items[i + 1])
    requires items != [] ==> if trail == [] then items[0].Got? else Follows(boots, Last(trail), items[0])
    ensures Tiled(boots, trail + items)
  {
    var all := trail + items;
    forall i | 0 <= i < |all| - 1 ensures Follows(boots, all[i], all[i + 1]) {
      if i < |trail| - 1 {
        assert all[i] == trail[i] && all[i + 1] == trail[i + 1];
      } else if i == |trail| - 1 {
        assert all[i] == Last(trail) && all[i + 1] == items[0];
      } else {
        assert all[i] == items[i - |trail|] && all[i + 1] == items[i - |trail| + 1];
      }
    }
  }

  lemma ReceiveKeeps(s: System, e: Event)
    requires Inv(s) && e.Receive?
    ensures Inv(Step(s, e))
  {
    if s.inflight.Some? {
      var t, b := Step(s, e), s.inflight.value;
      var items := Ingest(s.cur, b).1;
      ItemsTile(s);
      ItemsShape(s);
      ResetExact(s);
      if items != [] {
        assert Last(t.trail) == Last(items);
      } else {
        assert t.trail == s.trail;
      }
    }
  }

  lemma StepInv(s: System, e: Event)
    requires Inv(s)
    ensures Inv(Step(s, e))
  {
    match e
    case Sample(_, _, _) => SampleKeeps(s, e);
    case Reboot(_) => RebootKeeps(s, e);
    case Handle(_) => HandleKeeps(s, e);
    case Lose =>
    case Receive => ReceiveKeeps(s, e);
  }

  lemma {:induction false} RunInv(boot: int, es: seq<Event>)
    ensures Inv(Run(boot, es))
  {
    if es != [] {
      RunInv(boot, es[..|es| - 1]);
      StepInv(Run(boot, es[..|es| - 1]), es[|es| - 1]);
    }
  }

  // ---- Results about all runs ------------------------------------------------

  predicate Covers(x: Item, boot: int, q: int) {
    x.boot == boot && Lowest(x) <= q <= Highest(x)
  }

  /** Along the trail boots only advance, and within a boot seqs only grow. */
  lemma {:induction false} Chain(boots: seq<int>, trail: seq<Item>, i: nat, j: nat)
    requires Tiled(boots, trail) && i < j < |trail|
    ensures At(boots, trail[i].boot) <= At(boots, trail[j].boot)
    ensures trail[i].boot == trail[j].boot ==> Highest(trail[i]) < Lowest(trail[j])
    ensures trail[i].boot == trail[j].boot ==> trail[j - 1].boot == trail[j].boot
    decreases j - i
  {
    assert Follows(boots, trail[j - 1], trail[j - 1 + 1]);
    if i < j - 1 {
      Chain(boots, trail, i, j - 1);
    }
  }

  lemma {:induction false} Covered(boots: seq<int>, trail: seq<Item>, i: nat, j: nat, q: int) returns (k: nat)
    requires Tiled(boots, trail) && i <= j < |trail| && trail[i].boot == trail[j].boot
    requires Lowest(trail[i]) <= q <= Highest(trail[j])
    ensures i <= k <= j && Covers(trail[k], trail[i].boot, q)
    decreases j - i
  {
    if q >= Lowest(trail[j]) {
      k := j;
    } else {
      Chain(boots, trail, i, j);
      assert Follows(boots, trail[j - 1], trail[j - 1 + 1]);
      k := Covered(boots, trail, i, j - 1, q);
    }
  }

  /** Between any two seqs of a boot the server has dealt with, every seq is
      either received or in an announced gap: exactly one of the two, exactly once. */
  lemma RingPartition(boot: int, es: seq<Event>, i: nat, j: nat, q: int)
    requires var trail := Run(boot, es).trail;
             i <= j < |trail| && trail[i].boot == trail[j].boot && Lowest(trail[i]) <= q <= Highest(trail[j])
    ensures var trail := Run(boot, es).trail;
            exists k :: 0 <= k < |trail| && Covers(trail[k], trail[i].boot, q)
              && forall l :: 0 <= l < |trail| && l != k ==> !Covers(trail[l], trail[i].boot, q)
  {
    var s := Run(boot, es);
    RunInv(boot, es);
    var k := Covered(s.boots, s.trail, i, j, q);
    forall l | 0 <= l < |s.trail| && l != k ensures !Covers(s.trail[l], s.trail[i].boot, q) {
      Chain(s.boots, s.trail, if l < k then l else k, if l < k then k else l);
    }
  }

  /** Over the whole run, reboots and reconnects included, the seqs received from
      each boot are strictly increasing, and boots are received in order. */
  lemma AtMostOnce(boot: int, es: seq<Event>, i: nat, j: nat)
    requires i < j < |Run(boot, es).trail|
    ensures var s := Run(boot, es);
            var x, y := s.trail[i], s.trail[j];
            && x.boot in s.boots && y.boot in s.boots && At(s.boots, x.boot) <= At(s.boots, y.boot)
            && (x.boot == y.boot ==> Highest(x) < Lowest(y))
  {
    RunInv(boot, es);
    Chain(Run(boot, es).boots, Run(boot, es).trail, i, j);
  }

  /** A gap is announced only for seqs the device no longer has. */
  lemma GapsEvicted(boot: int, es: seq<Event>, x: Item, q: int)
    requires x in Run(boot, es).trail && x.Gap? && x.lo <= q <= x.hi
    ensures x.boot != Run(boot, es).dev.boot || q < Run(boot, es).dev.first
  {
    RunInv(boot, es);
  }

  /** In every run the cursor restarts on a batch if and only if it is from another boot. */
  lemma NoFalseReset(boot: int, es: seq<Event>)
    requires Run(boot, es).inflight.Some?
    ensures var s := Run(boot, es);
            Rebase(s.cur, s.inflight.value) != s.cur <==> s.cur.boot != Some(s.inflight.value.boot)
  {
    RunInv(boot, es);
    ResetExact(Run(boot, es));
  }

  // ---- What is lost without a gap message ------------------------------------

  /** Receiving the batch takes the cursor past q, but neither delivers nor announces it. */
  ghost predicate Lost(c: Cursor, b: Batch, q: int) {
    var (cur, items) := Ingest(c, b);
    Rebase(c, b).seqNo < q <= cur.seqNo && forall x :: x in items ==> !Covers(x, b.boot, q)
  }

  /** With a cursor of 0 no gap is announced: what lies before the first row is lost. */
  lemma LostIs(s: System, q: int)
    requires Inv(s) && s.inflight.Some?
    ensures var b := s.inflight.value;
            Lost(s.cur, b, q) <==> Rebase(s.cur, b).seqNo == 0 && b.rows != [] && 1 <= q < BatchLo(s, b)
  {
    var b := s.inflight.value;
    var k, lo := Rebase(s.cur, b).seqNo, BatchLo(s, b);
    var gap, news := Announced(k, b), Straight(b.boot, lo, |b.rows|);
    Arrival(s);
    InStraight(b.boot, lo, |b.rows|, q);
    assert Got(b.boot, q) in news ==> Got(b.boot, q) in gap + news;
    assert gap != [] ==> gap[0] in gap + news;
  }

  /** In every run: receiving a batch loses exactly the seqs before its first row, if
      the batch is not of the cursor's boot or the cursor is 0, and some row
      arrives. So something is lost if and only if, then, the boot has got beyond
      the cursor the batch was requested with, and that cursor was positive or
      samples were evicted already. */
  lemma SilentLossExact(boot: int, es: seq<Event>)
    requires Run(boot, es).inflight.Some?
    ensures var s := Run(boot, es);
            var b := s.inflight.value;
            && b.firstAvail >= 1
            && (forall q :: Lost(s.cur, b, q) <==>
                  Rebase(s.cur, b).seqNo == 0 && b.rows != [] && 1 <= q < BatchLo(s, b))
            && ((exists q :: Lost(s.cur, b, q)) <==>
                  && (s.cur.boot != Some(b.boot) || s.cur.seqNo == 0)
                  && s.cur.seqNo < b.nextSeq - 1 && (s.cur.seqNo >= 1 || b.firstAvail > 1))
  {
    var s := Run(boot, es);
    RunInv(boot, es);
    ResetExact(s);
    forall q ensures Lost(s.cur, s.inflight.value, q) <==>
      Rebase(s.cur, s.inflight.value).seqNo == 0 && s.inflight.value.rows != [] && 1 <= q < BatchLo(s, s.inflight.value)
    {
      LostIs(s, q);
    }
    SomethingLost(s);
  }

  lemma SomethingLost(s: System)
    requires Inv(s) && s.inflight.Some?
    requires var b := s.inflight.value;
             forall q :: Lost(s.cur, b, q) <==> Rebase(s.cur, b).seqNo == 0 && b.rows != [] && 1 <= q < BatchLo(s, b)
    ensures var b := s.inflight.value;
            (exists q :: Lost(s.cur, b, q)) <==>
              && (s.cur.boot != Some(b.boot) || s.cur.seqNo == 0)
              && s.cur.seqNo < b.nextSeq - 1 && (s.cur.seqNo >= 1 || b.firstAvail > 1)
  {
    var b := s.inflight.value;
    ResetExact(s);
    if Rebase(s.cur, b).seqNo == 0 && b.rows != [] && 1 < BatchLo(s, b) {
      assert Lost(s.cur, b, 1);
    }
  }

  lemma InStraight(boot: int, lo: nat, n: nat, q: int)
    ensures lo <= q < lo + n ==> Got(boot, q) in Straight(boot, lo, n)
  {
    if lo <= q < lo + n {
      assert Straight(boot, lo, n)[q - lo] == Got(boot, q);
    }
  }

  lemma {:induction false} TrailGrows(boot: int, es: seq<Event>, more: seq<Event>)
    ensures |Run(boot, es).trail| <= |Run(boot, es + more).trail|
    ensures Run(boot, es + more).trail[..|Run(boot, es).trail|] == Run(boot, es).trail
    decreases |more|
  {
    if more == [] {
      assert es + more == es;
    } else {
      var init := more[..|more| - 1];
      assert (es + more)[..|es + more| - 1] == es + init;
      TrailGrows(boot, es, init);
    }
  }

  // Two such runs: two samples are read, the device reboots and takes four before the
  // next request; or a device has evicted samples before the server first reads it.

  const TICK: Event := Event.Sample(0, 2400, 1)

  function Taken(n: nat): seq<(int, int)> {
    seq(n, _ => (0, 2400))
  }

  lemma Then(boot: int, es: seq<Event>, e: Event)
    ensures Run(boot, es + [e]) == Step(Run(boot, es), e)
  {
  }

  lemma Ticks(boot: int, es: seq<Event>, n: nat)
    requires var s := Run(boot, es); s.dev.first == 1 && s.dev.data == Taken(n)
    ensures Run(boot, es + [TICK]) == Run(boot, es).(dev := Device(Run(boot, es).dev.boot, 1, Taken(n + 1)))
  {
    Then(boot, es, TICK);
    assert Taken(n) + [(0, 2400)] == Taken(n + 1);
  }

  lemma FirstBoot() returns (es: seq<Event>)
    ensures Run(7, es) == System(Device(7, 1, Taken(2)), [7], Cursor(Some(7), 2), None, 3, [Got(7, 1), Got(7, 2)])
  {
    Ticks(7, [], 0);
    Ticks(7, [] + [TICK], 1);
    es := [] + [TICK] + [TICK];
    Then(7, es, Handle(0));
    es := es + [Handle(0)];
    Then(7, es, Receive);
    RunInv(7, es);
    Arrival(Run(7, es));
    es := es + [Receive];
  }

  lemma SilentLoss() returns (es: seq<Event>)
    ensures var s := Run(7, es);
            && s.inflight.Some? && s.cur == Cursor(Some(7), 2) && s.inflight.value.boot == 8
            && Lost(s.cur, s.inflight.value, 1)
  {
    es := FirstBoot();
    Then(7, es, Reboot(8));
    es := es + [Reboot(8)];
    for n := 0 to 4
      invariant Run(7, es) == System(Device(8, 1, Taken(n)), [7, 8], Cursor(Some(7), 2), None, 3, [Got(7, 1), Got(7, 2)])
    {
      Ticks(7, es, n);
      es := es + [TICK];
    }
    Then(7, es, Handle(0));
    es := es + [Handle(0)];
    RunInv(7, es);
    Arrival(Run(7, es));
  }

  lemma EvictedLoss() returns (es: seq<Event>)
    ensures var s := Run(7, es);
            && s.inflight.Some? && s.cur == Cursor(None, 0) && s.inflight.value.firstAvail == 2
            && Lost(s.cur, s.inflight.value, 1)
  {
    Ticks(7, [], 0);
    es := [] + [TICK];
    Then(7, es, Event.Sample(0, 2400, 2));
    es := es + [Event.Sample(0, 2400, 2)];
    Then(7, es, Handle(0));
    es := es + [Handle(0)];
    RunInv(7, es);
    LostIs(Run(7, es), 1);
  }

  /** Nothing later in the run makes up for it. */
  lemma LostForever(boot: int, es: seq<Event>, more: seq<Event>, q: int, x: Item)
    requires Run(boot, es).inflight.Some? && Lost(Run(boot, es).cur, Run(boot, es).inflight.value, q)
    requires x in Run(boot, es + [Receive] + more).trail
    ensures !Covers(x, Run(boot, es).inflight.value.boot, q)
  {
    var s, received, fin := Run(boot, es), es + [Receive], Run(boot, es + [Receive] + more);
    assert received[..|received| - 1] == es;
    RunInv(boot, es);
    ItemsShape(s);
    LostIs(s, q);
    RunInv(boot, received + more);
    TrailGrows(boot, received, more);
    forall k | 0 <= k < |s.trail| ensures s.trail[k].boot != s.inflight.value.boot {
      OldBoot(s, k);
    }
    NotCovered(fin.boots, fin.trail, s.trail, Ingest(s.cur, s.inflight.value).1, s.inflight.value.boot, q, x);
  }

  /** A trail whose items of a boot start with ones that leave q behind never covers it. */
  lemma NotCovered(boots: seq<int>, trail: seq<Item>, pre: seq<Item>, items: seq<Item>, boot: int, q: int, x: Item)
    requires Tiled(boots, trail) && |pre + items| <= |trail| && trail[..|pre + items|] == pre + items && x in trail
    requires forall k :: 0 <= k < |pre| ==> pre[k].boot != boot
    requires items != [] && Last(items).boot == boot && q <= Highest(Last(items))
    requires forall y :: y in items ==> !Covers(y, boot, q)
    ensures !Covers(x, boot, q)
  {
    var last := |pre + items| - 1;
    assert trail[last] == (pre + items)[last] == Last(items);
    var k :| 0 <= k < |trail| && trail[k] == x;
    if k > last {
      Chain(boots, trail, last, k);
    } else {
      assert x == (pre + items)[k];
      assert k >= |pre| ==> x == items[k - |pre|];
    }
  }

  lemma OldBoot(s: System, k: nat)
    requires Inv(s) && s.inflight.Some? && Rebase(s.cur, s.inflight.value).seqNo == 0 && k < |s.trail|
    ensures s.trail[k].boot != s.inflight.value.boot
  {
    if k < |s.trail| - 1 {
      Chain(s.boots, s.trail, k, |s.trail| - 1);
    }
  }

  // ---- Polling fast enough loses nothing -------------------------------------

  /** The ring holds exactly the last 100 samples. */
  predicate FullRing(dev: Device) {
    dev.first == if |dev.data| <= 100 then 1 else |dev.data| - 100 + 1
  }

  /** At most 100 samples are taken between successive batches of one boot. */
  predicate Prompt(boot: int, es: seq<Event>) {
    es != [] ==>
      var s, e := Run(boot, es[..|es| - 1]), es[|es| - 1];
      && Prompt(boot, es[..|es| - 1])
      && FullRing(Step(s, e).dev)
      && (e.Handle? && s.cur.boot == Some(s.dev.boot) ==> s.dev.NextSeq() - s.seen <= 100)
  }

  predicate NoGap(trail: seq<Item>) {
    forall x :: x in trail ==> x.Got?
  }

  predicate CaughtUp(s: System) {
    && FullRing(s.dev) && NoGap(s.trail)
    && (s.cur.boot.Some? && s.cur.seqNo > 0 ==> s.cur.seqNo == s.seen - 1)
    && (s.inflight.Some? ==>
          var b := s.inflight.value;
          && b.firstAvail >= 1
          && (b.rows != [] ==> BatchLo(s, b) + |b.rows| == b.nextSeq)
          && (s.cur.boot == Some(b.boot) && s.cur.seqNo > 0 ==> b.firstAvail <= s.cur.seqNo + 1))
  }

  lemma ReceiveCaughtUp(s: System)
    requires Inv(s) && s.inflight.Some? && CaughtUp(s)
    ensures CaughtUp(Step(s, Receive))
  {
    var b := s.inflight.value;
    var k := Rebase(s.cur, b);
    ResetExact(s);
    Arrival(s);
    assert Announced(k.seqNo, b) == [];
  }

  lemma {:induction false} PromptCaughtUp(boot: int, es: seq<Event>)
    requires Prompt(boot, es)
    ensures CaughtUp(Run(boot, es))
  {
    if es != [] {
      var s, e := Run(boot, es[..|es| - 1]), es[|es| - 1];
      PromptCaughtUp(boot, es[..|es| - 1]);
      RunInv(boot, es[..|es| - 1]);
      if e.Receive? && s.inflight.Some? {
        ReceiveCaughtUp(s);
      }
    }
  }

  /** Then no gap is ever announced, neighbouring seqs of a boot are consecutive, and
      what was received of the cursor's boot ends where its last batch ended. */
  lemma PromptLosesNothing(boot: int, es: seq<Event>)
    requires Prompt(boot, es)
    ensures var trail := Run(boot, es).trail;
            && NoGap(trail)
            && forall i :: 0 <= i < |trail| - 1 && trail[i].boot == trail[i + 1].boot ==> trail[i + 1].seqNo == trail[i].seqNo + 1
    ensures var s := Run(boot, es);
            s.cur.boot.Some? && s.cur.seqNo > 0 ==>
              && s.cur.seqNo == s.seen - 1
              && s.trail != [] && Last(s.trail) == Got(s.cur.boot.value, s.cur.seqNo)
  {
    PromptCaughtUp(boot, es);
    RunInv(boot, es);
    var s := Run(boot, es);
    forall i | 0 <= i < |s.trail| - 1 && s.trail[i].boot == s.trail[i + 1].boot
      ensures s.trail[i + 1].seqNo == s.trail[i].seqNo + 1
    {
      assert Follows(s.boots, s.trail[i], s.trail[i + 1]);
      assert s.trail[i] in s.trail && s.trail[i + 1] in s.trail;
    }
  }

  // ---- The poller's state ----------------------------------------------------

  function Max0(n: int): int {
    if n < 0 then 0 else n
  }

  /** What one row adds to the chart history, i being the insertion id it would get. */
  function PlacedRow(cursor: nat, b: Batch, row: Row, i: nat, wallMs: int, relay: int): seq<History.Sample> {
    if IsNew(cursor, row)
    then [History.Sample(i, wallMs - Max0(b.nowMs - row.tsMs), Some(row.mbar), relay, Some(row.seqNo))]
    else []
  }

  /** The samples a batch adds to the chart history, i being the last insertion id. */
  function Placed(cursor: nat, b: Batch, rows: seq<Row>, i: nat, wallMs: int, relay: int): seq<History.Sample> {
    if rows == [] then [] else
      var init, row := rows[..|rows| - 1], rows[|rows| - 1];
      var before := Placed(cursor, b, init, i, wallMs, relay);
      before + PlacedRow(EndCursor(cursor, init), b, row, i + |before| + 1, wallMs, relay)
  }

  lemma PlacedNext(cursor: nat, b: Batch, n: nat, i: nat, wallMs: int, relay: int)
    requires n < |b.rows|
    ensures var init, row := b.rows[..n], b.rows[n];
            var k, before := EndCursor(cursor, init), Placed(cursor, b, init, i, wallMs, relay);
            && Placed(cursor, b, b.rows[..n + 1], i, wallMs, relay) == before + PlacedRow(k, b, row, i + |before| + 1, wallMs, relay)
            && EndCursor(cursor, b.rows[..n + 1]) == (if IsNew(k, row) then row.seqNo else k)
            && NewRows(cursor, b.boot, b.rows[..n + 1])
               == NewRows(cursor, b.boot, init) + if IsNew(k, row) then [Got(b.boot, row.seqNo)] else []
  {
    assert b.rows[..n + 1][..n] == b.rows[..n];
  }

  lemma Regroup<T>(a: seq<T>, b: seq<T>, c: seq<T>)
    ensures (a + b) + c == a + (b + c)
  {
  }

  class DeviceState {
    const store: DeviceHistory
    var histBoot: Option<int>
    var histSeq: nat
    ghost var trail: seq<Item>

    function Pos(): Cursor
      reads this
    {
      Cursor(histBoot, histSeq)
    }

    constructor (store: DeviceHistory)
      ensures this.store == store && Pos() == Cursor(None, 0) && trail == []
    {
      this.store := store;
      histBoot, histSeq, trail := None, 0, [];
    }

    /** The part of the poll loop behind the await: batch b has arrived. */
    method Absorb(b: Batch, wallMs: int, relay: int)
      requires store.Valid()
      modifies this, store
      ensures store.Valid()
      ensures Pos() == Ingest(old(Pos()), b).0
      ensures trail == old(trail) + Ingest(old(Pos()), b).1
      ensures store.log == old(store.log)
                + Placed(Rebase(old(Pos()), b).seqNo, b, b.rows, |old(store.log)|, wallMs, relay)
    {
      if histBoot != Some(b.boot) || b.nextSeq <= histSeq {
        histBoot, histSeq := Some(b.boot), 0;
      }
      if histSeq != 0 && b.firstAvail > histSeq + 1 {
        trail := trail + [Gap(b.boot, histSeq + 1, b.firstAvail - 1)];
      }
      ghost var k := histSeq;
      AddRows(b, wallMs, relay);
      assert trail == old(trail) + (Announced(k, b) + NewRows(k, b.boot, b.rows));
    }

    /** One pass of that loop: a malformed or known row is skipped. */
    method AddRow(cursor: nat, b: Batch, row: Row, wallMs: int, relay: int) returns (next: nat)
      requires store.Valid()
      modifies this`trail, store
      ensures store.Valid()
      ensures next == if IsNew(cursor, row) then row.seqNo else cursor
      ensures trail == old(trail) + if IsNew(cursor, row) then [Got(b.boot, row.seqNo)] else []
      ensures store.log == old(store.log) + PlacedRow(cursor, b, row, |old(store.log)| + 1, wallMs, relay)
    {
      if row.Malformed? || row.seqNo <= cursor {
        return cursor;
      }
      next := row.seqNo;
      trail := trail + [Got(b.boot, row.seqNo)];
      store.HistAdd(wallMs - Max0(b.nowMs - row.tsMs), Some(row.mbar), relay, Some(row.seqNo));
    }

    /** The loop over the samples of the batch. */
    method AddRows(b: Batch, wallMs: int, relay: int)
      requires store.Valid()
      modifies this`histSeq, this`trail, store
      ensures store.Valid()
      ensures histSeq == EndCursor(old(histSeq), b.rows)
      ensures trail == old(trail) + NewRows(old(histSeq), b.boot, b.rows)
      ensures store.log == old(store.log) + Placed(old(histSeq), b, b.rows, |old(store.log)|, wallMs, relay)
    {
      var cursor: nat := histSeq;
      ghost var from: nat, log0, trail0 := histSeq, store.log, trail;
      var n := 0;
      while n < |b.rows|
        invariant 0 <= n <= |b.rows| && store.Valid() && cursor == EndCursor(from, b.rows[..n])
        invariant trail == trail0 + NewRows(from, b.boot, b.rows[..n])
        invariant store.log == log0 + Placed(from, b, b.rows[..n], |log0|, wallMs, relay)
      {
        ghost var added, got := Placed(from, b, b.rows[..n], |log0|, wallMs, relay), NewRows(from, b.boot, b.rows[..n]);
        ghost var row, k, i := b.rows[n], cursor, |log0| + |added| + 1;
        PlacedNext(from, b, n, |log0|, wallMs, relay);
        cursor := AddRow(cursor, b, b.rows[n], wallMs, relay);
        Regroup(log0, added, PlacedRow(k, b, row, i, wallMs, relay));
        Regroup(trail0, got, if IsNew(k, row) then [Got(b.boot, row.seqNo)] else []);
        n := n + 1;
      }
      assert b.rows[..n] == b.rows;
      histSeq := cursor;
    }
  }
}

/**
 The ring between one producer and one reader that run at the same time, in one
 open session.  `write_to_ring` and `pval_file_read_iter` are cut into the steps
 that touch shared memory: the producer tests for room, stores the four fields of
 the slot one by one and publishes `head`; the reader takes a snapshot of what is
 available, copies the four fields of a slot one by one and publishes `tail`.
 Any sequence of steps is an interleaving; a step that is not enabled does nothing.
 */
module RingProtocol {
  import opened Bytes
  import opened Ring

  /** `stored` fields of the slot at `head` have been written for `packet`. */
  datatype Producer = Idle | Filling(packet: Packet, stored: nat)

  /** `left` slots remain of the snapshot; `copied` fields of the slot at `tail` are in `buffer`. */
  datatype Reader = Waiting | Reading(left: nat, copied: nat, buffer: Slot)

  /** Shared memory, both program counters, and the history of the session. */
  datatype State = State(head: nat, tail: nat, slots: seq<Slot>, producer: Producer, reader: Reader,
                         accepted: seq<Entry>, delivered: seq<Entry>)

  datatype Step = Test(packet: Packet) | StoreField | PublishHead | Snapshot(count: nat, buffer: Slot) | CopyField | PublishTail

  predicate Shape(s: State) {
    && s.head < SLOT_NUM && s.tail < SLOT_NUM && |s.slots| == SLOT_NUM
    && (forall x :: x in s.slots ==> Whole(x))
    && (s.producer.Filling? ==> s.producer.packet.CopyLength() <= |s.producer.packet.octets|)
    && (s.reader.Reading? ==> Whole(s.reader.buffer))
  }

  function Unread(s: State): seq<Slot>
    requires Shape(s)
  {
    Occupied(s.slots, s.head, s.tail)
  }

  /** The `k`-th store of `write_to_ring`. */
  function Fill(slot: Slot, p: Packet, k: nat): (r: Slot)
    requires Whole(slot) && p.CopyLength() <= |p.octets|
    ensures Whole(r)
  {
    var n := p.CopyLength();
    if k == 0 then slot.(len := n)
    else if k == 1 then slot.(pktlen := p.Length())
    else if k == 2 then slot.(tstamp := p.tstamp)
    else slot.(pkt := p.octets[..n] + slot.pkt[n..])
  }

  /** The `k`-th part of a slot copied to the reader's buffer. */
  function Fetch(buffer: Slot, slot: Slot, k: nat): (r: Slot)
    requires Whole(buffer) && Whole(slot)
    ensures Whole(r)
  {
    if k == 0 then buffer.(len := slot.len)
    else if k == 1 then buffer.(pktlen := slot.pktlen)
    else if k == 2 then buffer.(tstamp := slot.tstamp)
    else buffer.(pkt := slot.pkt)
  }

  function Apply(s: State, step: Step): (t: State)
    requires Shape(s)
    ensures Shape(t)
  {
    match step
    case Test(p) =>
      if s.producer.Idle? && p.CopyLength() <= |p.octets| && Next(s.head) != s.tail
      then s.(producer := Filling(p, 0)) else s
    case StoreField =>
      if s.producer.Filling? && s.producer.stored < 4 then
        s.(slots := s.slots[s.head := Fill(s.slots[s.head], s.producer.packet, s.producer.stored)],
           producer := s.producer.(stored := s.producer.stored + 1))
      else s
    case PublishHead =>
      if s.producer.Filling? && s.producer.stored == 4 then
        s.(head := Next(s.head), producer := Idle, accepted := s.accepted + [EntryFor(s.producer.packet)])
      else s
    case Snapshot(count, buffer) =>
      if s.reader.Waiting? && Whole(buffer) then s.(reader := Reading(Min(|Unread(s)|, count), 0, buffer)) else s
    case CopyField =>
      if s.reader.Reading? && s.reader.left > 0 && s.reader.copied < 4 then
        s.(reader := s.reader.(copied := s.reader.copied + 1,
                               buffer := Fetch(s.reader.buffer, s.slots[s.tail], s.reader.copied)))
      else s
    case PublishTail =>
      if s.reader.Reading? && s.reader.left == 0 then s.(reader := Waiting)
      else if s.reader.Reading? && s.reader.copied == 4 then
        s.(tail := Next(s.tail), delivered := s.delivered + [EntryOf(s.reader.buffer)],
           reader := s.reader.(left := s.reader.left - 1, copied := 0))
      else s
  }

  /** The first `k` fields of the slot hold the packet. */
  predicate Filled(slot: Slot, p: Packet, k: nat)
    requires Whole(slot) && p.CopyLength() <= |p.octets|
  {
    && (k > 0 ==> slot.len == p.CopyLength())
    && (k > 1 ==> slot.pktlen == p.Length())
    && (k > 2 ==> slot.tstamp == p.tstamp)
    && (k > 3 ==> slot.pkt[..p.CopyLength()] == p.octets[..p.CopyLength()])
  }

  predicate Fetched(buffer: Slot, slot: Slot, k: nat) {
    && (k > 0 ==> buffer.len == slot.len)
    && (k > 1 ==> buffer.pktlen == slot.pktlen)
    && (k > 2 ==> buffer.tstamp == slot.tstamp)
    && (k > 3 ==> buffer.pkt == slot.pkt)
  }

  ghost predicate Inv(s: State) {
    && Shape(s)
    && (forall x :: x in Unread(s) ==> Whole(x))
    && s.accepted == s.delivered + Entries(Unread(s))
    && (s.producer.Filling? ==>
        && s.producer.stored <= 4 && Next(s.head) != s.tail
        && Whole(s.slots[s.head])
        && Filled(s.slots[s.head], s.producer.packet, s.producer.stored))
    && (s.reader.Reading? ==>
        && s.reader.left <= |Unread(s)| && s.reader.copied <= 4
        && (s.reader.left == 0 ==> s.reader.copied == 0)
        && Fetched(s.reader.buffer, s.slots[s.tail], s.reader.copied))
  }

  lemma StoreKeeps(s: State)
    requires Inv(s) && s.producer.Filling? && s.producer.stored < 4
    ensures Inv(Apply(s, StoreField)) && Unread(Apply(s, StoreField)) == Unread(s)
  {
    hide Occupied, Entries, Fill;
    var x := Fill(s.slots[s.head], s.producer.packet, s.producer.stored);
    FillAdvances(s.slots[s.head], s.producer.packet, s.producer.stored);
    UnoccupiedHidden(s.slots, s.head, s.tail, x);
    if s.reader.Reading? && s.reader.copied > 0 {
      assert s.head != s.tail;
    }
  }

  lemma FillAdvances(slot: Slot, p: Packet, k: nat)
    requires Whole(slot) && p.CopyLength() <= |p.octets| && k < 4 && Filled(slot, p, k)
    ensures Filled(Fill(slot, p, k), p, k + 1)
  {
    var n := p.CopyLength();
    if k == 3 {
      assert (p.octets[..n] + slot.pkt[n..])[..n] == p.octets[..n];
    }
  }

  lemma PublishHeadKeeps(s: State)
    requires Inv(s) && s.producer.Filling? && s.producer.stored == 4
    ensures Inv(Apply(s, PublishHead)) && Unread(Apply(s, PublishHead)) == Unread(s) + [s.slots[s.head]]
  {
    hide Occupied, Entries;
    var x := s.slots[s.head];
    assert s.slots[s.head := x] == s.slots;
    PushExtends(s.slots, s.head, s.tail, x);
    EntriesAppend(Unread(s), x);
    assert EntryOf(x) == EntryFor(s.producer.packet);
  }

  lemma EntriesAppend(q: seq<Slot>, x: Slot)
    requires Whole(x) && forall y :: y in q ==> Whole(y)
    ensures Entries(q + [x]) == Entries(q) + [EntryOf(x)]
  {
    assert (q + [x])[..|q|] == q;
  }

  lemma EntriesDrop(q: seq<Slot>)
    requires q != [] && forall y :: y in q ==> Whole(y)
    ensures Entries(q) == [EntryOf(q[0])] + Entries(q[1..])
  {
    hide Entries, Whole;
    EntriesAt(q);
    EntriesAt(q[1..]);
  }

  lemma PublishTailKeeps(s: State)
    requires Inv(s) && s.reader.Reading? && s.reader.left > 0 && s.reader.copied == 4
    ensures Inv(Apply(s, PublishTail)) && Unread(s) == [s.reader.buffer] + Unread(Apply(s, PublishTail))
  {
    hide Occupied, Entries;
    var q := Unread(s);
    assert s.head != s.tail;
    PopDrops(s.slots, s.head, s.tail);
    assert s.reader.buffer == s.slots[s.tail] == q[0];
    EntriesDrop(q);
    assert q == [q[0]] + q[1..];
  }

  lemma QuietStepsKeep(s: State, step: Step)
    requires Inv(s) && (step.Snapshot? || step.CopyField? || step.Test?)
    ensures Inv(Apply(s, step)) && Unread(Apply(s, step)) == Unread(s)
  {
    hide Occupied, Entries;
  }

  /**
   No step overwrites an unread slot: the unread slots are left as they are,
   extended at the end, or relieved of the oldest.
   */
  lemma StepKeeps(s: State, step: Step)
    requires Inv(s)
    ensures Inv(Apply(s, step))
    ensures var before, after := Unread(s), Unread(Apply(s, step));
      || after == before
      || (after != [] && after[..|after| - 1] == before)
      || (before != [] && after == before[1..])
  {
    match step
    case Test(_) => QuietStepsKeep(s, step);
    case Snapshot(_, _) => QuietStepsKeep(s, step);
    case CopyField => QuietStepsKeep(s, step);
    case StoreField =>
      if s.producer.Filling? && s.producer.stored < 4 { StoreKeeps(s); }
    case PublishHead =>
      if s.producer.Filling? && s.producer.stored == 4 { PublishHeadKeeps(s); }
    case PublishTail =>
      if s.reader.Reading? && s.reader.left > 0 && s.reader.copied == 4 { PublishTailKeeps(s); }
  }

  function Exec(s: State, steps: seq<Step>): State
    requires Shape(s)
    decreases steps
  {
    if steps == [] then s else Exec(Apply(s, steps[0]), steps[1..])
  }

  /** A session as `pval_file_open` starts it, over whatever the slots held before. */
  function Opened(slots: seq<Slot>): State {
    State(0, 0, slots, Idle, Waiting, [], [])
  }

  lemma {:induction false} ExecKeeps(s: State, steps: seq<Step>)
    requires Inv(s)
    ensures Inv(Exec(s, steps))
    decreases steps
  {
    hide Inv, Apply;
    InvHasShape(s);
    if steps != [] {
      StepKeeps(s, steps[0]);
      ExecKeeps(Apply(s, steps[0]), steps[1..]);
    }
  }

  /**
   Under every interleaving the reader has received a prefix of what the producer
   has accepted, the rest is waiting in the ring in order, and it is at most 1023.
   */
  lemma DeliveredIsPrefix(slots: seq<Slot>, steps: seq<Step>)
    requires |slots| == SLOT_NUM && forall x :: x in slots ==> Whole(x)
    ensures var s := Exec(Opened(slots), steps);
      && Shape(s) && (forall x :: x in Unread(s) ==> Whole(x))
      && s.accepted == s.delivered + Entries(Unread(s))
      && s.delivered <= s.accepted
      && |s.accepted| - |s.delivered| <= SLOT_NUM - 1
  {
    ExecKeeps(Opened(slots), steps);
  }

  // ---- The steps of one call, with no one in between ----

  /** The six steps of `write_to_ring` alone: nothing when full, otherwise the packet is the newest unread one. */
  lemma SoloWrite(s: State, p: Packet)
    requires Inv(s) && s.producer.Idle? && p.CopyLength() <= |p.octets|
    ensures var a := Apply(Apply(Apply(s, Test(p)), StoreField), StoreField);
      var t := Apply(Apply(Apply(a, StoreField), StoreField), PublishHead);
      if |Unread(s)| == SLOT_NUM - 1 then t == s
      else
        && t.producer.Idle? && t.tail == s.tail && t.reader == s.reader && t.delivered == s.delivered
        && t.accepted == s.accepted + [EntryFor(p)]
        && |Unread(t)| == |Unread(s)| + 1 && Unread(t)[..|Unread(s)|] == Unread(s)
        && Whole(Unread(t)[|Unread(s)|]) && EntryOf(Unread(t)[|Unread(s)|]) == EntryFor(p)
  {
    hide Inv, Occupied, Fill;
    InvHasShape(s);
    FullMeansFull(s);
    if Next(s.head) != s.tail {
      var a := Apply(s, Test(p));
      QuietStepsKeep(s, Test(p));
      var b := Apply(a, StoreField);
      StoreKeeps(a);
      var c := Apply(b, StoreField);
      StoreKeeps(b);
      var d := Apply(c, StoreField);
      StoreKeeps(c);
      var e := Apply(d, StoreField);
      StoreKeeps(d);
      PublishHeadKeeps(e);
      FilledIsPacket(e, p);
      InvHasShape(Apply(e, PublishHead));
    }
  }

  lemma FilledIsPacket(s: State, p: Packet)
    requires Inv(s) && s.producer == Filling(p, 4)
    ensures Whole(s.slots[s.head]) && EntryOf(s.slots[s.head]) == EntryFor(p)
  {
    hide Occupied, Entries, Fetched;
  }

  lemma InvHasShape(s: State)
    requires Inv(s)
    ensures Shape(s) && forall x :: x in Unread(s) ==> Whole(x)
  {}

  lemma FullMeansFull(s: State)
    requires Inv(s)
    ensures |Unread(s)| == SLOT_NUM - 1 <==> Next(s.head) == s.tail
  {
    hide Entries, Filled, Fetched;
    FullAtCapacity(s.head, s.tail);
  }

  /** The five steps that read one slot alone deliver the oldest unread packet. */
  lemma SoloRead(s: State)
    requires Inv(s) && s.reader.Reading? && s.reader.left > 0 && s.reader.copied == 0
    ensures var a := Apply(Apply(s, CopyField), CopyField);
      var t := Apply(Apply(Apply(a, CopyField), CopyField), PublishTail);
      && t.head == s.head && t.slots == s.slots && t.accepted == s.accepted
      && Unread(s) != [] && Unread(t) == Unread(s)[1..] && Whole(Unread(s)[0])
      && t.delivered == s.delivered + [EntryOf(Unread(s)[0])]
  {
    hide Inv, Occupied;
    InvHasShape(s);
    var a := Apply(s, CopyField);
    QuietStepsKeep(s, CopyField);
    var b := Apply(a, CopyField);
    QuietStepsKeep(a, CopyField);
    var c := Apply(b, CopyField);
    QuietStepsKeep(b, CopyField);
    var d := Apply(c, CopyField);
    QuietStepsKeep(c, CopyField);
    PublishTailKeeps(d);
  }
}

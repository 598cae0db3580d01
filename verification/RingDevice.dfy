/**
 The character device around a receive ring: open, the receive handler, bulk read
 and release.  Every run of these refines a FIFO of capacity 1023.
 */
module RingDevice {
  import opened Bytes
  import opened Ring

  // ---- What a reader can decode ----

  /** How an application reads a buffer that had room for a whole `struct pval_slot`. */
  function Decode(b: seq<Byte>): Option<Entry> {
    if |b| < SLOT_SIZE || LeValue(b[..4]) > PKT_LEN then None
    else Some(Entry(LeValue(b[4..8]) % 0x1_0000_0000, LeValue(b[8..16]) % 0x1_0000_0000_0000_0000, b[16..16 + LeValue(b[..4])]))
  }

  lemma WidthsFit()
    ensures Pow256(4) == 0x1_0000_0000 && Pow256(8) == 0x1_0000_0000_0000_0000
  {
    assert Pow256(4) == 0x1_0000_0000;
    assert Pow256(8) == 256 * 256 * 256 * 256 * Pow256(4);
  }

  lemma SlotParts(s: Slot)
    requires Whole(s)
    ensures var b := SlotBytes(s);
      && b[..4] == LeBytes(s.len, 4) && b[4..8] == LeBytes(s.pktlen, 4)
      && b[8..16] == LeBytes(s.tstamp, 8) && b[16..] == s.pkt
  {
    hide LeBytes;
  }

  /** The stale octets behind a short packet do not reach a reader that honours `len`. */
  lemma DecodeSlot(s: Slot)
    requires Whole(s)
    ensures Decode(SlotBytes(s)) == Some(EntryOf(s))
  {
    hide LeBytes, LeValue, Pow256, SlotBytes;
    var b := SlotBytes(s);
    SlotParts(s);
    WidthsFit();
    LeRoundTrip(s.len, 4);
    LeRoundTrip(s.pktlen, 4);
    LeRoundTrip(s.tstamp, 8);
    assert b[16..16 + s.len] == b[16..][..s.len];
  }

  // ---- The bounded FIFO every run must look like ----

  /** `rxcopy` is the switch as it stands when the frame arrives. */
  datatype Op = Open | Release | Frame(rxcopy: bool, packet: Packet) | Read(iovLens: seq<nat>)

  datatype Seen = Done | Busy | NoFile | Copied(octets: nat) | Got(entries: seq<Option<Entry>>)

  datatype Fifo = Fifo(isOpen: bool, queue: seq<Entry>)

  predicate Readable(op: Op) {
    op.Frame? ==> op.packet.CopyLength() <= |op.packet.octets|
  }

  /** What `readv` shows of a queue: whole buffers give the entry, short ones only a part of it. */
  function Shown(queue: seq<Entry>, iovLens: seq<nat>): seq<Option<Entry>> {
    seq(Min(|queue|, |iovLens|), n requires 0 <= n < Min(|queue|, |iovLens|) =>
      if iovLens[n] >= SLOT_SIZE then Some(queue[n]) else None)
  }

  function Step(f: Fifo, op: Op): (Fifo, Seen)
    requires Readable(op)
  {
    match op
    case Open => if f.isOpen then (f, Busy) else (Fifo(true, []), Done)
    case Release => if f.isOpen then (Fifo(false, []), Done) else (f, NoFile)
    case Frame(rxcopy, p) =>
      if rxcopy && f.isOpen && |f.queue| < SLOT_NUM - 1
      then (f.(queue := f.queue + [EntryFor(p)]), Copied(p.CopyLength()))
      else (f, Copied(0))
    case Read(iovLens) =>
      if f.isOpen then (f.(queue := f.queue[Min(|f.queue|, |iovLens|)..]), Got(Shown(f.queue, iovLens)))
      else (f, NoFile)
  }

  function Run(f: Fifo, ops: seq<Op>): (Fifo, seq<Seen>)
    requires forall op :: op in ops ==> Readable(op)
  {
    if ops == [] then (f, [])
    else
      var (g, seen) := Run(f, ops[..|ops| - 1]);
      var (h, last) := Step(g, ops[|ops| - 1]);
      (h, seen + [last])
  }

  // ---- Conservation, over every run ----

  /** The entries accepted since the last open or release, one operation later. */
  function AcceptedAfter(g: Fifo, op: Op, accepted: seq<Entry>): seq<Entry>
    requires Readable(op)
  {
    match op
    case Open => if g.isOpen then accepted else []
    case Release => if g.isOpen then [] else accepted
    case Frame(rxcopy, p) => if rxcopy && g.isOpen && |g.queue| < SLOT_NUM - 1 then accepted + [EntryFor(p)] else accepted
    case Read(_) => accepted
  }

  /** The entries handed to the reader since the last open or release, one operation later. */
  function DeliveredAfter(g: Fifo, op: Op, delivered: seq<Entry>): seq<Entry> {
    match op
    case Open => if g.isOpen then delivered else []
    case Release => if g.isOpen then [] else delivered
    case Frame(_, _) => delivered
    case Read(iovLens) => if g.isOpen then delivered + g.queue[..Min(|g.queue|, |iovLens|)] else delivered
  }

  function Accepted(f: Fifo, ops: seq<Op>): seq<Entry>
    requires forall op :: op in ops ==> Readable(op)
  {
    if ops == [] then f.queue
    else
      var front := ops[..|ops| - 1];
      AcceptedAfter(Run(f, front).0, ops[|ops| - 1], Accepted(f, front))
  }

  function Delivered(f: Fifo, ops: seq<Op>): seq<Entry>
    requires forall op :: op in ops ==> Readable(op)
  {
    if ops == [] then []
    else
      var front := ops[..|ops| - 1];
      DeliveredAfter(Run(f, front).0, ops[|ops| - 1], Delivered(f, front))
  }

  lemma StepConserves(g: Fifo, op: Op, accepted: seq<Entry>, delivered: seq<Entry>)
    requires Readable(op) && accepted == delivered + g.queue && |g.queue| <= SLOT_NUM - 1
    ensures AcceptedAfter(g, op, accepted) == DeliveredAfter(g, op, delivered) + Step(g, op).0.queue
    ensures |Step(g, op).0.queue| <= SLOT_NUM - 1
  {
    hide Shown, EntryFor;
    if op.Read? && g.isOpen {
      var k := Min(|g.queue|, |op.iovLens|);
      assert g.queue == g.queue[..k] + g.queue[k..];
    }
  }

  /** No loss, no duplication, no reordering inside a session, and never more than 1023 waiting. */
  lemma {:induction false} Conservation(f: Fifo, ops: seq<Op>)
    requires forall op :: op in ops ==> Readable(op)
    requires |f.queue| <= SLOT_NUM - 1
    ensures Accepted(f, ops) == Delivered(f, ops) + Run(f, ops).0.queue
    ensures |Run(f, ops).0.queue| <= SLOT_NUM - 1
  {
    hide Step, AcceptedAfter, DeliveredAfter;
    if ops == [] {
      assert [] + f.queue == f.queue;
    } else {
      var front, op := ops[..|ops| - 1], ops[|ops| - 1];
      Conservation(f, front);
      StepConserves(Run(f, front).0, op, Accepted(f, front), Delivered(f, front));
    }
  }

  // ---- The device ----

  /** The application's side of a bulk read. */
  method DecodeAll(ghost was: seq<Slot>, iovLens: seq<nat>, buffers: seq<seq<Byte>>) returns (got: seq<Option<Entry>>)
    requires forall x :: x in was ==> Whole(x)
    requires |buffers| == Min(|was|, |iovLens|)
    requires forall n :: 0 <= n < |buffers| ==> buffers[n] == SlotBytes(was[n])[..Min(SLOT_SIZE, iovLens[n])]
    ensures got == Shown(Entries(was), iovLens)
  {
    hide SlotBytes, Decode, Entries;
    EntriesAt(was);
    got := [];
    for n := 0 to |buffers|
      invariant |got| == n
      invariant forall i :: 0 <= i < n ==> got[i] == if iovLens[i] >= SLOT_SIZE then Some(EntryOf(was[i])) else None
    {
      if iovLens[n] >= SLOT_SIZE {
        DecodeSlot(was[n]);
        assert buffers[n] == SlotBytes(was[n]);
        got := got + [Decode(buffers[n])];
      } else {
        got := got + [None];
      }
    }
  }

  class PvalMdev {
    const ring: PvalRing
    var isOpen: bool

    ghost predicate Valid()
      reads this, ring, ring.slots
    {
      ring.Valid() && (!isOpen ==> ring.Slots() == [])
    }

    ghost function Abstract(): Fifo
      requires Valid()
      reads this, ring, ring.slots
    {
      Fifo(isOpen, Entries(ring.Slots()))
    }

    constructor (zero: Slot)
      requires Whole(zero)
      ensures Valid() && fresh(ring) && fresh(ring.slots) && Abstract() == Fifo(false, [])
    {
      ring := new PvalRing(zero);
      isOpen := false;
    }

    /** `pval_file_open`, once the device has been found. */
    method Open() returns (seen: Seen)
      requires Valid()
      modifies this, ring
      ensures Valid() && (Abstract(), seen) == Step(old(Abstract()), Op.Open)
    {
      if isOpen {
        return Busy;
      }
      isOpen := true;
      ring.Zero();
      seen := Done;
    }

    method Release() returns (seen: Seen)
      requires Valid()
      modifies this, ring
      ensures Valid() && (Abstract(), seen) == Step(old(Abstract()), Op.Release)
    {
      if !isOpen {
        return NoFile;
      }
      ring.Zero();
      isOpen := false;
      seen := Done;
    }

    /** The copying part of `pdev_handle_frame`. */
    method HandleFrame(rxcopy: bool, p: Packet) returns (seen: Seen)
      requires Valid() && Readable(Frame(rxcopy, p))
      modifies ring, ring.slots
      ensures Valid() && (Abstract(), seen) == Step(old(Abstract()), Frame(rxcopy, p))
    {
      hide Entries, Whole;
      ghost var was := ring.Slots();
      var n := 0;
      if rxcopy && isOpen {
        n := ring.Write(p);
        EntriesAt(was);
        EntriesAt(ring.Slots());
        assert |was| < SLOT_NUM - 1 ==> Entries(ring.Slots()) == Entries(was) + [EntryFor(p)];
      }
      seen := Copied(n);
    }

    method ReadV(iovLens: seq<nat>) returns (seen: Seen)
      requires Valid()
      modifies ring
      ensures Valid() && (Abstract(), seen) == Step(old(Abstract()), Read(iovLens))
    {
      hide Entries, Whole;
      if !isOpen {
        return NoFile;
      }
      ghost var was := ring.Slots();
      var ret, buffers := ring.ReadIter(iovLens);
      var got := DecodeAll(was, iovLens, buffers);
      EntriesAt(was);
      EntriesAt(ring.Slots());
      assert Entries(ring.Slots()) == Entries(was)[ret..];
      seen := Got(got);
    }

    /** Whole runs: whatever the sequence of calls, the device shows what the FIFO shows. */
    method Drive(ops: seq<Op>) returns (seen: seq<Seen>)
      requires Valid() && forall op :: op in ops ==> Readable(op)
      modifies this, ring, ring.slots
      ensures Valid() && (Abstract(), seen) == Run(old(Abstract()), ops)
    {
      seen := [];
      var k := 0;
      assert ops[..0] == [];
      while k < |ops|
        invariant 0 <= k <= |ops| && Valid()
        invariant (Abstract(), seen) == Run(old(Abstract()), ops[..k])
      {
        assert ops[..k + 1][..k] == ops[..k];
        var one: Seen;
        match ops[k] {
          case Open => one := Open();
          case Release => one := Release();
          case Frame(rxcopy, p) => one := HandleFrame(rxcopy, p);
          case Read(iovLens) => one := ReadV(iovLens);
        }
        seen := seen + [one];
        k := k + 1;
      }
      assert ops[..k] == ops;
    }
  }
}

/**
 The per-CPU packet ring of the pval device (kmod/pval_main.c): 1024 slots, one
 left empty to tell full from empty, read in bulk through `readv`.
 */
module Ring {
  import opened Bytes

  const SLOT_NUM := 1024
  const PKT_LEN := 256
  const SLOT_SIZE := 272

  /** `struct pval_slot`: the copied length, the true length, the time stamp and a fixed buffer. */
  datatype Slot = Slot(len: nat, pktlen: U32, tstamp: U64, pkt: seq<Byte>)

  predicate Whole(s: Slot) {
    s.len <= PKT_LEN && |s.pkt| == PKT_LEN
  }

  /** The octets `copy_to_user` sends for one slot (little-endian host, packed structure). */
  function SlotBytes(s: Slot): (b: seq<Byte>)
    requires Whole(s)
    ensures |b| == SLOT_SIZE
  {
    LeBytes(s.len, 4) + LeBytes(s.pktlen, 4) + LeBytes(s.tstamp, 8) + s.pkt
  }

  /** A packet as `write_to_ring` sees it: the octets from the MAC header on, and the two length fields. */
  datatype Packet = Packet(octets: seq<Byte>, macLen: U32, len: U32, tstamp: U64) {
    function Length(): U32 {
      (macLen as int + len) % 0x1_0000_0000
    }

    function CopyLength(): nat {
      if Length() > PKT_LEN then PKT_LEN else Length()
    }
  }

  /** What the reader can tell about a queued packet. */
  datatype Entry = Entry(pktlen: U32, tstamp: U64, data: seq<Byte>)

  function EntryOf(s: Slot): Entry
    requires Whole(s)
  {
    Entry(s.pktlen, s.tstamp, s.pkt[..s.len])
  }

  function EntryFor(p: Packet): Entry
    requires p.CopyLength() <= |p.octets|
  {
    Entry(p.Length(), p.tstamp, p.octets[..p.CopyLength()])
  }

  function Min(a: nat, b: nat): nat {
    if a < b then a else b
  }

  /** One step round the ring: `(x + 1) & mask`. */
  function Next(x: nat): (y: nat)
    requires x < SLOT_NUM
    ensures y == (x + 1) % SLOT_NUM
  {
    if x + 1 == SLOT_NUM then 0 else x + 1
  }

  /** The occupied part of a ring, oldest first. */
  function Occupied<T>(s: seq<T>, head: nat, tail: nat): (q: seq<T>)
    requires |s| == SLOT_NUM && head < SLOT_NUM && tail < SLOT_NUM
    ensures |q| == if tail <= head then head - tail else head - tail + SLOT_NUM
  {
    if tail <= head then s[tail..head] else s[tail..] + s[..head]
  }

  /** Filling the slot at `head` and publishing it appends one element. */
  lemma PushExtends<T>(s: seq<T>, head: nat, tail: nat, x: T)
    requires |s| == SLOT_NUM && head < SLOT_NUM && tail < SLOT_NUM && Next(head) != tail
    ensures Occupied(s[head := x], Next(head), tail) == Occupied(s, head, tail) + [x]
  {
    var t := s[head := x];
    if tail <= head {
      assert t[tail..head] == s[tail..head];
      if head + 1 == SLOT_NUM {
        assert t[tail..] == s[tail..head] + [x];
        assert t[..0] == [];
      } else {
        assert t[tail..head + 1] == s[tail..head] + [x];
      }
    } else {
      assert t[tail..] == s[tail..];
      assert t[..head + 1] == s[..head] + [x];
    }
  }

  /** Releasing the slot at `tail` drops the oldest element. */
  lemma PopDrops<T>(s: seq<T>, head: nat, tail: nat)
    requires |s| == SLOT_NUM && head < SLOT_NUM && tail < SLOT_NUM && head != tail
    ensures Occupied(s, head, tail)[0] == s[tail]
    ensures Occupied(s, head, Next(tail)) == Occupied(s, head, tail)[1..]
  {
    if tail < head {
      assert s[tail..head][1..] == s[tail + 1..head];
    } else if tail + 1 == SLOT_NUM {
      assert s[tail..] == [s[tail]];
      assert ([s[tail]] + s[..head])[1..] == s[..head] == s[0..head];
    } else {
      assert (s[tail..] + s[..head])[1..] == s[tail + 1..] + s[..head];
    }
  }

  /** A write outside the occupied part does not show. */
  lemma UnoccupiedHidden<T>(s: seq<T>, head: nat, tail: nat, x: T)
    requires |s| == SLOT_NUM && head < SLOT_NUM && tail < SLOT_NUM
    ensures Occupied(s[head := x], head, tail) == Occupied(s, head, tail)
  {}

  lemma FullAtCapacity(head: nat, tail: nat)
    requires head < SLOT_NUM && tail < SLOT_NUM
    ensures (head + 1) % SLOT_NUM == tail <==>
      (if tail <= head then head - tail else head - tail + SLOT_NUM) == SLOT_NUM - 1
  {
    assert Next(head) == (head + 1) % SLOT_NUM;
  }

  /** What the reader can tell about slots. */
  ghost function Entries(q: seq<Slot>): (e: seq<Entry>)
    requires forall x :: x in q ==> Whole(x)
    ensures |e| == |q|
  {
    if q == [] then [] else Entries(q[..|q| - 1]) + [EntryOf(q[|q| - 1])]
  }

  lemma {:induction false} EntriesAt(q: seq<Slot>)
    requires forall x :: x in q ==> Whole(x)
    ensures forall i :: 0 <= i < |q| ==> Entries(q)[i] == EntryOf(q[i])
  {
    if q != [] {
      EntriesAt(q[..|q| - 1]);
    }
  }

  class PvalRing {
    var head: U32
    var tail: U32
    const mask: U32
    const slots: array<Slot>

    ghost predicate Valid()
      reads this, slots
    {
      && mask == SLOT_NUM - 1 && slots.Length == SLOT_NUM
      && head < SLOT_NUM && tail < SLOT_NUM
      && forall s :: s in slots[..] ==> Whole(s)
    }

    ghost function Slots(): (q: seq<Slot>)
      requires Valid()
      reads this, slots
      ensures forall s :: s in q ==> Whole(s)
    {
      Occupied(slots[..], head, tail)
    }

    constructor (zero: Slot)
      requires Whole(zero)
      ensures Valid() && fresh(slots) && Slots() == []
    {
      head, tail, mask := 0, 0, SLOT_NUM - 1;
      slots := new Slot[SLOT_NUM](_ => zero);
    }

    predicate Empty()
      reads this
    {
      head == tail
    }

    /** `& mask`, for a mask one less than a power of two. */
    function Masked(x: nat): nat {
      x % (mask + 1)
    }

    predicate Full()
      reads this
    {
      Masked(head + 1) == tail
    }

    function ReadAvail(): U32
      reads this
      requires head <= mask && tail <= mask
    {
      if head > tail then head - tail
      else if tail > head then mask - tail + head + 1
      else 0
    }

    method Zero()
      requires Valid()
      modifies `head, `tail
      ensures Valid() && Slots() == []
    {
      head, tail := 0, 0;
    }

    /** The tests read exactly the queue: it is empty, full at 1023, or as long as `ReadAvail` says. */
    lemma TestsAreExact()
      requires Valid()
      ensures Empty() <==> |Slots()| == 0
      ensures Full() <==> |Slots()| == SLOT_NUM - 1
      ensures ReadAvail() == |Slots()|
    {
      hide Occupied, Whole;
      FullAtCapacity(head, tail);
    }

    /** `write_to_ring`: drops when full, otherwise fills the slot at `head` over what it last held. */
    method Write(p: Packet) returns (copied: nat)
      requires Valid() && p.CopyLength() <= |p.octets|
      modifies `head, slots
      ensures Valid() && tail == old(tail)
      ensures old(|Slots()|) == SLOT_NUM - 1 ==> copied == 0 && Slots() == old(Slots())
      ensures old(|Slots()|) < SLOT_NUM - 1 ==>
        && copied == p.CopyLength()
        && |Slots()| == old(|Slots()|) + 1
        && Slots()[..|Slots()| - 1] == old(Slots())
        && EntryOf(Slots()[|Slots()| - 1]) == EntryFor(p)
    {
      TestsAreExact();
      if Full() {
        return 0;
      }
      ghost var was := slots[..];
      var n := p.CopyLength();
      var s := slots[head];
      assert Whole(s) by { assert s in was; }
      s := s.(len := n);
      s := s.(pktlen := p.Length());
      s := s.(tstamp := p.tstamp);
      s := s.(pkt := p.octets[..n] + s.pkt[n..]);
      assert s.pkt[..n] == p.octets[..n];
      PushExtends(was, head, tail, s);
      hide Occupied;
      slots[head] := s;
      assert slots[..] == was[head := s];
      head := Masked(head + 1);
      copied := n;
    }

    /** One turn of the bulk read: copy the slot at `tail`, then release it. */
    method ReadOne(iovLen: nat) returns (buffer: seq<Byte>)
      requires Valid() && |Slots()| > 0
      modifies `tail
      ensures Valid() && head == old(head)
      ensures Slots() == old(Slots())[1..]
      ensures buffer == SlotBytes(old(Slots())[0])[..Min(SLOT_SIZE, iovLen)]
    {
      PopDrops(slots[..], head, tail);
      hide SlotBytes, Occupied;
      assert slots[tail] in slots[..];
      buffer := SlotBytes(slots[tail])[..if SLOT_SIZE > iovLen then iovLen else SLOT_SIZE];
      tail := Masked(tail + 1);
    }

    /** `pval_file_read_iter`: as many of the oldest slots as there are buffers, in order, cut to each buffer. */
    method ReadIter(iovLens: seq<nat>) returns (ret: nat, buffers: seq<seq<Byte>>)
      requires Valid()
      modifies `tail
      ensures Valid() && head == old(head)
      ensures ret == |buffers| == Min(old(|Slots()|), |iovLens|)
      ensures Slots() == old(Slots())[ret..]
      ensures forall n :: 0 <= n < ret ==> buffers[n] == SlotBytes(old(Slots())[n])[..Min(SLOT_SIZE, iovLens[n])]
    {
      hide SlotBytes, Occupied;
      ret, buffers := 0, [];
      ghost var was := Slots();
      TestsAreExact();
      if Empty() {
        return;
      }
      var avail := ReadAvail();
      var copynum := if avail > |iovLens| then |iovLens| else avail;
      while ret < copynum
        invariant Valid() && head == old(head)
        invariant 0 <= ret <= copynum && ret == |buffers|
        invariant Slots() == was[ret..]
        invariant forall n :: 0 <= n < ret ==> buffers[n] == SlotBytes(was[n])[..Min(SLOT_SIZE, iovLens[n])]
      {
        var b := ReadOne(iovLens[ret]);
        buffers := buffers + [b];
        ret := ret + 1;
      }
    }
  }
}

/**
 * The name caches of tcpdump/addrtoname.c: hash tables of chained nodes. Each chain ends in an empty node that the
 * next insertion fills. Memory is a sequence of nodes; the static tables are its first cells, and nodes of the
 * small kind come from blocks of 64.
 */
module NameCache {
  import opened Bytes
  import AddrText
  import Addrtostr

  // ---- Keys and buckets ----

  /** What is looked up, one constructor for each table. */
  datatype AnyKey =
    | Host(addr: seq<Byte>) | TcpPort(port: U16) | UdpPort(port: U16)
    | Ether(mac: seq<Byte>) | ByteString(octets: seq<Byte>) | Nsap(nsap: seq<Byte>) | ProtoId(id: seq<Byte>)

  predicate Proper(k: AnyKey) {
    match k
    case Host(a) => |a| == 4
    case Ether(a) => |a| == 6
    case ProtoId(a) => |a| == 5
    case Nsap(s) => |s| < 256
    case _ => true
  }

  type Key = k: AnyKey | Proper(k) witness TcpPort(0)

  const SIZE := 4096
  const BUCKETS := 7 * SIZE

  /** The tables whose nodes come from `newhnamemem` and get their name at once. */
  predicate Small(k: Key) {
    k.Host? || k.TcpPort? || k.UdpPort?
  }

  function Pow2(n: nat): nat {
    if n == 0 then 1 else 2 * Pow2(n - 1)
  }

  /** The low `n` bits of the exclusive or. */
  function XorLow(i: nat, j: nat, n: nat): (x: nat)
    ensures x < Pow2(n)
  {
    if n == 0 then 0 else 2 * XorLow(i / 2, j / 2, n - 1) + (i + j) % 2
  }

  function Pair(s: seq<Byte>, at: nat): nat
    requires at + 2 <= |s|
  {
    256 * s[at] as int + s[at + 1]
  }

  /** The words i, j and k that an address of any length is hashed and compared by. */
  datatype Words = Words(i: nat, j: nat, k: nat)

  function SixWords(s: seq<Byte>): Words
    requires |s| == 6
  {
    Words(Pair(s, 4), Pair(s, 2), Pair(s, 0))
  }

  function WordsOf(k: Key): Words {
    match k
    case Ether(a) => SixWords(a)
    case ByteString(s) =>
      if |s| >= 6 then SixWords(s[..6]) else if |s| >= 4 then Words(0, Pair(s, 2), Pair(s, 0)) else Words(0, 0, 0)
    case Nsap(s) => if |s| > 6 then SixWords(s[|s| - 6..]) else Words(0, 0, 0)
    case ProtoId(a) => Words((256 * a[0] as int + a[1]) * 256 + a[2], Pair(a, 3), 0)
    case _ => Words(0, 0, 0)
  }

  function Hash(k: Key): (h: nat)
    ensures h < SIZE
  {
    assert Pow2(12) == SIZE by { Pow2Twelve(); }
    match k
    case Host(a) => LeValue(a) % SIZE
    case TcpPort(p) => p % SIZE
    case UdpPort(p) => p % SIZE
    case _ => XorLow(WordsOf(k).i, WordsOf(k).j, 12)
  }

  lemma Pow2Twelve()
    ensures Pow2(12) == 4096
  {
    assert Pow2(4) == 16;
    assert Pow2(8) == 256;
  }

  function Table(k: Key): nat {
    match k
    case Host(_) => 0
    case TcpPort(_) => 1
    case UdpPort(_) => 2
    case Ether(_) => 3
    case ByteString(_) => 4
    case Nsap(_) => 5
    case ProtoId(_) => 6
  }

  function Bucket(k: Key): (b: nat)
    ensures b < BUCKETS
  {
    Table(k) * SIZE + Hash(k)
  }

  /** The comparison made at a node, within one table. */
  predicate Matches(node: Key, k: Key) {
    match k
    case Host(a) => node.Host? && LeValue(node.addr) == LeValue(a)
    case TcpPort(p) => node == k
    case UdpPort(p) => node == k
    case Ether(_) => node.Ether? && WordsOf(node) == WordsOf(k)
    case ByteString(s) => node.ByteString? && |s| == |node.octets| && WordsOf(node) == WordsOf(k) && s == node.octets
    case Nsap(s) => node.Nsap? && |s| == |node.nsap| && WordsOf(node) == WordsOf(k) && s == node.nsap
    case ProtoId(_) => node.ProtoId? && WordsOf(node) == WordsOf(k)
  }

  lemma PairDecides(a: seq<Byte>, b: seq<Byte>, at: nat)
    requires at + 2 <= |a| && at + 2 <= |b| && Pair(a, at) == Pair(b, at)
    ensures a[at] == b[at] && a[at + 1] == b[at + 1]
  {}

  lemma OuiDecides(a: Byte, b: Byte, c: Byte, d: Byte, e: Byte, f: Byte)
    requires (256 * a as int + b) * 256 + c == (256 * d as int + e) * 256 + f
    ensures a == d && b == e && c == f
  {}

  lemma LeDecides(a: seq<Byte>, b: seq<Byte>)
    requires |a| == |b| && LeValue(a) == LeValue(b)
    ensures a == b
  {
    if a != [] {
      LeDecides(a[1..], b[1..]);
    }
  }

  /** The words compared decide the address, so a node matches exactly its own key. */
  lemma MatchesIsEquality(node: Key, k: Key)
    ensures Matches(node, k) <==> node == k
  {
    if Matches(node, k) {
      match k
      case Host(a) => LeDecides(node.addr, a);
      case Ether(a) =>
        PairDecides(node.mac, a, 0);
        PairDecides(node.mac, a, 2);
        PairDecides(node.mac, a, 4);
        assert node.mac == a;
      case ProtoId(a) =>
        OuiDecides(node.id[0], node.id[1], node.id[2], a[0], a[1], a[2]);
        PairDecides(node.id, a, 3);
        assert node.id == a;
      case _ =>
    }
  }

  // ---- Memory and chains ----

  /** A node as allocated: all zero until it is filled. */
  datatype Node = Node(key: Key, name: Option<string>, nxt: Option<nat>)

  const ZERO := Node(TcpPort(0), None, None)

  datatype Entry = Entry(key: Key, name: Option<string>)

  function Cell(mem: seq<Node>, n: nat): Node {
    if n < |mem| then mem[n] else ZERO
  }

  /** The nodes of each bucket in order, and the place of each cell: its bucket, or -1, and its position there. */
  datatype Shape = Shape(chains: seq<seq<nat>>, owner: seq<int>, pos: seq<nat>)

  function EntryOf(n: Node): Entry {
    Entry(n.key, n.name)
  }

  /** The filled nodes of a chain. */
  ghost function Entries(mem: seq<Node>, chain: seq<nat>): (es: seq<Entry>)
    ensures chain != [] ==> |es| == |chain| - 1
    ensures forall k :: 0 <= k < |es| ==> k < |chain| && es[k] == EntryOf(Cell(mem, chain[k]))
  {
    if chain == [] then []
    else seq(|chain| - 1, k requires 0 <= k < |chain| - 1 => EntryOf(Cell(mem, chain[k])))
  }

  ghost predicate Filled(n: Node, b: nat) {
    Bucket(n.key) == b && (Small(n.key) ==> n.name.Some?)
  }

  /** A chain starts in its table cell, links each node to the next, and ends in one empty node. */
  ghost predicate ChainOk(mem: seq<Node>, sh: Shape, b: nat)
    requires b < |sh.chains| && |sh.owner| == |mem| && |sh.pos| == |mem|
  {
    var chain := sh.chains[b];
    && chain != [] && chain[0] == b
    && (forall k :: 0 <= k < |chain| ==> chain[k] < |mem| && sh.owner[chain[k]] == b && sh.pos[chain[k]] == k)
    && (forall k :: 0 <= k < |chain| - 1 ==> mem[chain[k]].nxt == Some(chain[k + 1]) && Filled(mem[chain[k]], b))
    && mem[chain[|chain| - 1]] == ZERO
  }

  ghost predicate Sound(mem: seq<Node>, sh: Shape) {
    && |sh.chains| == BUCKETS && |sh.owner| == |mem| && |sh.pos| == |mem|
    && forall b :: 0 <= b < BUCKETS ==> ChainOk(mem, sh, b)
  }

  /** Chains are acyclic and share no node, and no spare cell is in one. */
  lemma ChainsAreDisjoint(mem: seq<Node>, sh: Shape, b: nat, i: nat, c: nat, j: nat)
    requires Sound(mem, sh) && b < BUCKETS && c < BUCKETS && i < |sh.chains[b]| && j < |sh.chains[c]|
    ensures sh.chains[b][i] == sh.chains[c][j] ==> b == c && i == j
    ensures !Spare(mem, sh, sh.chains[b][i])
  {
    hide Filled;
    assert ChainOk(mem, sh, b) && ChainOk(mem, sh, c);
    assert sh.pos[sh.chains[b][i]] == i && sh.pos[sh.chains[c][j]] == j;
  }

  /** A cell that was never given out is in no chain. */
  ghost predicate Spare(mem: seq<Node>, sh: Shape, n: nat) {
    n < |mem| && |sh.owner| == |mem| && sh.owner[n] == -1 && mem[n] == ZERO
  }

  ghost function Contents(mem: seq<Node>, sh: Shape): (t: seq<seq<Entry>>)
    requires Sound(mem, sh)
    ensures |t| == BUCKETS && forall b :: 0 <= b < BUCKETS ==> t[b] == Entries(mem, sh.chains[b])
  {
    seq(BUCKETS, b requires 0 <= b < BUCKETS => Entries(mem, sh.chains[b]))
  }

  /** The chain of `b` with its empty node filled and `q` as the new empty node. */
  ghost function Grown(sh: Shape, b: nat, q: nat): Shape
    requires b < |sh.chains| && q < |sh.owner| == |sh.pos|
  {
    Shape(sh.chains[b := sh.chains[b] + [q]], sh.owner[q := b], sh.pos[q := |sh.chains[b]|])
  }

  lemma GrownElsewhere(mem: seq<Node>, sh: Shape, b: nat, q: nat, n: Node, c: nat)
    requires Sound(mem, sh) && b < BUCKETS && Spare(mem, sh, q) && c < BUCKETS && c != b
    ensures sh.chains[b] != [] && sh.chains[c] != [] && sh.chains[b][|sh.chains[b]| - 1] < |mem|
    ensures var last := sh.chains[b][|sh.chains[b]| - 1];
      ChainOk(mem[last := n], Grown(sh, b, q), c) && Entries(mem[last := n], sh.chains[c]) == Entries(mem, sh.chains[c])
  {
    hide Filled, Entries;
    assert ChainOk(mem, sh, b) && ChainOk(mem, sh, c);
    var last := sh.chains[b][|sh.chains[b]| - 1];
    assert sh.owner[last] == b;
    var chain := sh.chains[c];
    assert forall k :: 0 <= k < |chain| ==> chain[k] != last && chain[k] != q;
  }

  lemma GrownHere(mem: seq<Node>, sh: Shape, b: nat, q: nat, n: Node)
    requires Sound(mem, sh) && b < BUCKETS && Spare(mem, sh, q) && Filled(n, b) && n.nxt == Some(q)
    ensures sh.chains[b] != [] && sh.chains[b][|sh.chains[b]| - 1] < |mem|
    ensures var last := sh.chains[b][|sh.chains[b]| - 1];
      && ChainOk(mem[last := n], Grown(sh, b, q), b)
      && Entries(mem[last := n], sh.chains[b] + [q]) == Entries(mem, sh.chains[b]) + [EntryOf(n)]
  {
    hide Filled, Entries;
    assert ChainOk(mem, sh, b);
    var chain := sh.chains[b];
    var last := chain[|chain| - 1];
    assert forall k :: 0 <= k < |chain| ==> chain[k] != q;
    assert forall k :: 0 <= k < |chain| - 1 ==> chain[k] != last by {
      forall k | 0 <= k < |chain| - 1 ensures chain[k] != last {
        assert sh.pos[chain[k]] == k;
      }
    }
  }

  lemma LastIsOwned(mem: seq<Node>, sh: Shape, b: nat)
    requires Sound(mem, sh) && b < BUCKETS
    ensures ChainOk(mem, sh, b)
    ensures var last := sh.chains[b][|sh.chains[b]| - 1]; last < |mem| && sh.owner[last] == b
  {
    hide Filled;
  }

  /** Filling the empty node of one chain appends to that chain and changes no other. */
  lemma GrownIsSound(mem: seq<Node>, sh: Shape, b: nat, q: nat, n: Node)
    requires Sound(mem, sh) && b < BUCKETS && Spare(mem, sh, q) && Filled(n, b) && n.nxt == Some(q)
    ensures ChainOk(mem, sh, b)
    ensures var last := sh.chains[b][|sh.chains[b]| - 1];
      && sh.owner[last] == b
      && Sound(mem[last := n], Grown(sh, b, q))
      && Contents(mem[last := n], Grown(sh, b, q))
         == Contents(mem, sh)[b := Contents(mem, sh)[b] + [EntryOf(n)]]
  {
    hide ChainOk, Entries, Filled;
    GrownHere(mem, sh, b, q, n);
    assert ChainOk(mem, sh, b);
    LastIsOwned(mem, sh, b);
    var last := sh.chains[b][|sh.chains[b]| - 1];
    var mem', sh' := mem[last := n], Grown(sh, b, q);
    forall c | 0 <= c < BUCKETS
      ensures ChainOk(mem', sh', c)
      ensures c != b ==> sh.chains[c] != [] && Entries(mem', sh'.chains[c]) == Entries(mem, sh.chains[c])
    {
      if c != b {
        GrownElsewhere(mem, sh, b, q, n, c);
      }
    }
  }

  // ---- The caches as tables of entries ----

  /** The first entry of a key. */
  function First(es: seq<Entry>, k: Key): Option<Entry> {
    if es == [] then None else if es[0].key == k then Some(es[0]) else First(es[1..], k)
  }

  /** Where the first entry of a key is, or the number of entries. */
  function FirstAt(es: seq<Entry>, k: Key): (i: nat)
    ensures i <= |es|
    ensures First(es, k) == if i < |es| then Some(es[i]) else None
    ensures i < |es| ==> es[i].key == k
  {
    if es == [] || es[0].key == k then 0 else 1 + FirstAt(es[1..], k)
  }

  type Tables = t: seq<seq<Entry>> | |t| == BUCKETS witness seq(BUCKETS, _ => [])

  /** A query: the entry is found, or added at the end of its bucket. */
  function Queried(t: Tables, k: Key, name: Option<string>): Tables {
    if First(t[Bucket(k)], k).Some? then t else Added(t, k, name)
  }

  function Added(t: Tables, k: Key, name: Option<string>): Tables {
    t[Bucket(k) := t[Bucket(k)] + [Entry(k, name)]]
  }

  /** A name stored over the one the key has. */
  function Replaced(t: Tables, k: Key, name: string): Tables {
    var es := t[Bucket(k)];
    var i := FirstAt(es, k);
    if i < |es| then t[Bucket(k) := es[i := Entry(k, Some(name))]] else t
  }

  /** The name a key has in the tables. */
  function NameOf(t: Tables, k: Key): Option<string> {
    var e := First(t[Bucket(k)], k);
    if e == None then None else e.value.name
  }

  predicate AllNamed(t: Tables) {
    forall b, i :: 0 <= b < BUCKETS && 0 <= i < |t[b]| ==> t[b][i].name.Some?
  }

  // ---- The tables in memory ----

  /** Chains only grow at their ends. */
  ghost predicate Extends(was: Shape, sh: Shape) {
    |was.chains| == |sh.chains| && forall b :: 0 <= b < |sh.chains| ==> was.chains[b] <= sh.chains[b]
  }

  /** More zeroed cells leave every chain as it is. */
  ghost function Extended(sh: Shape, n: nat): Shape {
    sh.(owner := sh.owner + seq(n, _ => -1), pos := sh.pos + seq(n, _ => 0))
  }

  function Calloc(n: nat): seq<Node> {
    seq(n, _ => ZERO)
  }

  lemma ExtendedIsSound(mem: seq<Node>, sh: Shape, n: nat)
    requires Sound(mem, sh)
    ensures Sound(mem + Calloc(n), Extended(sh, n))
    ensures Contents(mem + Calloc(n), Extended(sh, n)) == Contents(mem, sh)
    ensures forall k :: |mem| <= k < |mem| + n ==> Spare(mem + Calloc(n), Extended(sh, n), k)
    ensures forall k :: Spare(mem, sh, k) ==> Spare(mem + Calloc(n), Extended(sh, n), k)
  {
    hide Filled, Entries;
    var mem', sh' := mem + Calloc(n), Extended(sh, n);
    forall c | 0 <= c < BUCKETS
      ensures ChainOk(mem', sh', c) && Entries(mem', sh'.chains[c]) == Entries(mem, sh.chains[c])
    {
      assert ChainOk(mem, sh, c);
      assert forall k :: 0 <= k < |mem| ==> mem'[k] == mem[k];
    }
  }

  lemma EmptyIsSound()
    ensures Sound(Calloc(BUCKETS), Shape(seq(BUCKETS, b => [b]), seq(BUCKETS, b => b), seq(BUCKETS, _ => 0)))
    ensures Contents(Calloc(BUCKETS), Shape(seq(BUCKETS, b => [b]), seq(BUCKETS, b => b), seq(BUCKETS, _ => 0)))
         == seq(BUCKETS, _ => [])
  {
    hide Filled;
  }

  lemma OneTable(a: Key, b: Key)
    requires Bucket(a) == Bucket(b)
    ensures Table(a) == Table(b) && Small(a) == Small(b)
  {
    hide Hash;
  }

  lemma FirstAtSkips(es: seq<Entry>, i: nat, k: Key)
    requires i < |es|
    ensures FirstAt(es[i..], k) == if es[i].key == k then 0 else 1 + FirstAt(es[i + 1..], k)
  {
    assert es[i..][1..] == es[i + 1..];
  }

  /** Naming a filled node changes that entry and nothing else. */
  lemma RenamedIsSound(mem: seq<Node>, sh: Shape, b: nat, i: nat, name: string)
    requires Sound(mem, sh) && b < BUCKETS && i < |sh.chains[b]| - 1
    ensures ChainOk(mem, sh, b)
    ensures var p := sh.chains[b][i];
      var n := mem[p].(name := Some(name));
      && Sound(mem[p := n], sh)
      && Contents(mem[p := n], sh) == Contents(mem, sh)[b := Contents(mem, sh)[b][i := EntryOf(n)]]
      && (forall k :: Spare(mem, sh, k) ==> Spare(mem[p := n], sh, k))
  {
    assert ChainOk(mem, sh, b);
    var p := sh.chains[b][i];
    var mem' := mem[p := mem[p].(name := Some(name))];
    forall c | 0 <= c < BUCKETS
      ensures ChainOk(mem', sh, c)
      ensures Entries(mem', sh.chains[c])
           == if c == b then Entries(mem, sh.chains[c])[i := EntryOf(mem'[p])] else Entries(mem, sh.chains[c])
    {
      RenamedChain(mem, sh, b, i, name, c);
    }
    assert sh.owner[p] == b;
  }

  lemma RenamedChain(mem: seq<Node>, sh: Shape, b: nat, i: nat, name: string, c: nat)
    requires Sound(mem, sh) && b < BUCKETS && i < |sh.chains[b]| - 1 && c < BUCKETS
    ensures ChainOk(mem, sh, b)
    ensures var p := sh.chains[b][i];
      var mem' := mem[p := mem[p].(name := Some(name))];
      && ChainOk(mem', sh, c)
      && Entries(mem', sh.chains[c])
         == if c == b then Entries(mem, sh.chains[c])[i := EntryOf(mem'[p])] else Entries(mem, sh.chains[c])
  {
    hide Bucket, Small;
    assert ChainOk(mem, sh, b) && ChainOk(mem, sh, c);
    var p, chain := sh.chains[b][i], sh.chains[c];
    forall k | 0 <= k < |chain| ensures chain[k] == p <==> c == b && k == i {
      ChainsAreDisjoint(mem, sh, b, i, c, k);
    }
  }

  lemma NextInChain(mem: seq<Node>, sh: Shape, b: nat, k: nat)
    requires Sound(mem, sh) && b < BUCKETS && k < |sh.chains[b]|
    ensures sh.chains[b][k] < |mem|
    ensures mem[sh.chains[b][k]].nxt == if k < |sh.chains[b]| - 1 then Some(sh.chains[b][k + 1]) else None
  {
    hide Filled;
    assert ChainOk(mem, sh, b);
  }

  /** `strdup` of a text that stands in a buffer. */
  method Strdup(buf: array<char>, at: nat, ghost text: string) returns (r: string)
    requires Addrtostr.Stands(buf, at, text) && '\0' !in text
    ensures r == text
  {
    var end := at;
    while buf[end] != '\0'
      invariant at <= end <= at + |text|
      decreases at + |text| - end
    {
      assert end < at + |text|;
      end := end + 1;
    }
    r := buf[at..end];
  }

  class NameTables {
    var memory: seq<Node>
    var ptr: nat
    var num: nat
    ghost var shape: Shape

    /** Chains and pool are as they should be. */
    ghost predicate Linked()
      reads this
    {
      && Sound(memory, shape)
      && ptr + num <= |memory| && forall n :: ptr <= n < ptr + num ==> Spare(memory, shape, n)
    }

    /** Between calls, every node in use has its name as well. */
    ghost predicate Valid()
      reads this
    {
      Linked() && AllNamed(View())
    }

    ghost function View(): Tables
      reads this
      requires Linked()
    {
      Contents(memory, shape)
    }

    constructor ()
      ensures Valid() && View() == seq(BUCKETS, _ => [])
    {
      memory := Calloc(BUCKETS);
      ptr, num := 0, 0;
      shape := Shape(seq(BUCKETS, b => [b]), seq(BUCKETS, b => b), seq(BUCKETS, _ => 0));
      EmptyIsSound();
    }

    /** A cell that is in no chain and not in the pool. */
    ghost predicate Unused(q: nat)
      reads this
    {
      Spare(memory, shape, q) && !(ptr <= q < ptr + num)
    }

    /** `newhnamemem`: nodes are handed out of a block of 64. */
    method NewSmallNode() returns (q: nat)
      requires Linked()
      modifies this
      ensures Linked() && View() == old(View()) && Unused(q)
      ensures shape.chains == old(shape.chains) && |old(memory)| <= |memory|
    {
      hide Sound, Spare, Contents;
      if num <= 0 {
        num := 64;
        ptr := |memory|;
        ExtendedIsSound(memory, shape, 64);
        memory := memory + Calloc(64);
        shape := Extended(shape, 64);
      }
      num := num - 1;
      q := ptr;
      ptr := ptr + 1;
    }

    /** `calloc` of a single node. */
    method NewNode() returns (q: nat)
      requires Linked()
      modifies this
      ensures Linked() && View() == old(View()) && Unused(q)
      ensures shape.chains == old(shape.chains) && |old(memory)| <= |memory|
    {
      hide Sound, Spare, Contents;
      q := |memory|;
      ExtendedIsSound(memory, shape, 1);
      memory := memory + Calloc(1);
      shape := Extended(shape, 1);
    }

    ghost function LastOf(b: nat): nat
      reads this
      requires Linked() && b < BUCKETS
    {
      assert ChainOk(memory, shape, b);
      shape.chains[b][|shape.chains[b]| - 1]
    }

    /** The walk of every lookup: to the node of the key, or to the empty node that ends its chain. */
    method Walk(key: Key) returns (p: nat, found: bool)
      requires Linked()
      ensures p < |memory|
      ensures var es, chain := View()[Bucket(key)], shape.chains[Bucket(key)];
        && |es| == |chain| - 1 && p == chain[FirstAt(es, key)]
        && (found <==> FirstAt(es, key) < |es|)
        && (found ==> EntryOf(memory[p]) == es[FirstAt(es, key)])
      ensures !found ==> p == LastOf(Bucket(key))
    {
      hide Bucket, Matches, Filled, First;
      ghost var b := Bucket(key);
      ghost var es, chain := View()[b], shape.chains[b];
      assert ChainOk(memory, shape, b);
      p := Bucket(key);
      ghost var k := 0;
      assert es[0..] == es;
      NextInChain(memory, shape, b, 0);
      while memory[p].nxt.Some?
        invariant 0 <= k < |chain| && p == chain[k]
        invariant memory[p].nxt == if k < |chain| - 1 then Some(chain[k + 1]) else None
        invariant FirstAt(es, key) == k + FirstAt(es[k..], key)
        decreases |chain| - k
      {
        FirstAtSkips(es, k, key);
        MatchesIsEquality(memory[p].key, key);
        if Matches(memory[p].key, key) {
          return p, true;
        }
        p := memory[p].nxt.value;
        k := k + 1;
        NextInChain(memory, shape, b, k);
      }
      assert es[k..] == [];
      found := false;
    }

    /** The walk of `init_servarray`, which looks for a node without a name. */
    method WalkToUnnamed(key: Key) returns (p: nat)
      requires Linked() && Small(key)
      ensures p == LastOf(Bucket(key))
    {
      hide Bucket, Small;
      ghost var b := Bucket(key);
      ghost var chain := shape.chains[b];
      assert ChainOk(memory, shape, b);
      p := Bucket(key);
      ghost var k := 0;
      while memory[p].name.Some?
        invariant 0 <= k < |chain| && p == chain[k]
        decreases |chain| - k
      {
        assert memory[chain[|chain| - 1]].name == None;
        assert k < |chain| - 1 && memory[chain[k]].nxt == Some(chain[k + 1]);
        p := memory[p].nxt.value;
        k := k + 1;
      }
      if k < |chain| - 1 {
        OneTable(memory[p].key, key);
      }
    }

    /** Filling the empty node that ends the chain of a key. */
    method Fill(p: nat, key: Key, name: Option<string>, q: nat)
      requires Linked() && p == LastOf(Bucket(key)) && Unused(q) && (Small(key) ==> name.Some?)
      modifies this
      ensures Linked() && View() == Added(old(View()), key, name)
      ensures p < |old(memory)| && memory == old(memory)[p := Node(key, name, Some(q))]
      ensures Extends(old(shape), shape) && shape.chains[Bucket(key)] == old(shape.chains[Bucket(key)]) + [q]
    {
      hide ChainOk, Bucket, Contents, Small;
      ghost var b := Bucket(key);
      LastIsOwned(memory, shape, b);
      GrownIsSound(memory, shape, b, q, Node(key, name, Some(q)));
      ghost var was := memory;
      memory := memory[p := Node(key, name, Some(q))];
      shape := Grown(shape, b, q);
      FillKeepsSpare(was, old(shape), b, q, p, memory[p]);
      forall n | ptr <= n < ptr + num ensures Spare(memory, shape, n) {
        assert Spare(was, old(shape), n);
      }
    }

    /** A lookup in a table of small nodes: the name stored first for the key, `name` if there was none. */
    method Query(key: Key, name: string) returns (r: string)
      requires Valid() && Small(key)
      modifies this
      ensures Valid() && View() == Queried(old(View()), key, Some(name)) && Extends(old(shape), shape)
      ensures NameOf(View(), key) == Some(r)
    {
      hide Sound, Bucket, Small, Contents, AllNamed;
      ApplyKeepsNamed(View(), Lookup(key, name));
      var p, found := Walk(key);
      if found {
        NamedInBucket(memory, shape, Bucket(key), key);
        return memory[p].name.value;
      }
      var q := NewSmallNode();
      Fill(p, key, Some(name), q);
      FirstOfAdded(old(View()), key, Some(name));
      r := name;
    }

    /** `lookup_emem`, `lookup_bytestring`, `lookup_nsap` and `lookup_protoid`: the node of the key, made if need be. */
    method LookupNode(key: Key) returns (p: nat)
      requires Linked() && !Small(key)
      modifies this
      ensures Linked() && View() == Queried(old(View()), key, None) && Extends(old(shape), shape)
      ensures var es, chain := View()[Bucket(key)], shape.chains[Bucket(key)];
        FirstAt(es, key) < |es| == |chain| - 1 && p == chain[FirstAt(es, key)]
      ensures p < |memory| && First(View()[Bucket(key)], key) == Some(EntryOf(memory[p])) && memory[p].key == key
    {
      hide Sound, Bucket, Small, Contents, First;
      var found;
      p, found := Walk(key);
      if found {
        return p;
      }
      var q := NewNode();
      assert p == LastOf(Bucket(key));
      Fill(p, key, None, q);
      FirstOfAdded(old(View()), key, None);
      FirstAtAppend(old(View()[Bucket(key)]), Entry(key, None), key);
    }

    /** A name stored in the node a lookup gave. */
    method SetName(p: nat, key: Key, name: string)
      requires Linked() && p < |memory|
      requires var es, chain := View()[Bucket(key)], shape.chains[Bucket(key)];
        FirstAt(es, key) < |es| == |chain| - 1 && p == chain[FirstAt(es, key)] && memory[p].key == key
      modifies this
      ensures Linked() && View() == Replaced(old(View()), key, name) && shape == old(shape)
    {
      hide Sound, Bucket, Contents, Spare;
      RenamedIsSound(memory, shape, Bucket(key), FirstAt(View()[Bucket(key)], key), name);
      ghost var was := memory;
      memory := memory[p := memory[p].(name := Some(name))];
      forall n | ptr <= n < ptr + num ensures Spare(memory, shape, n) {
        assert Spare(was, shape, n);
      }
    }

    /**
     * The way all callers name these nodes: the name the node has, or else the text its formatter makes, which is
     * stored.
     */
    method NodeString(key: Key, text: string) returns (r: string)
      requires Valid() && !Small(key)
      modifies this
      ensures Valid() && View() == Queried(old(View()), key, Some(text)) && Extends(old(shape), shape)
      ensures NameOf(View(), key) == Some(r)
    {
      hide Sound, Bucket, Small, Contents, First, Extends, AllNamed;
      NamedAfterLookup(View(), key, text);
      ApplyKeepsNamed(View(), Lookup(key, text));
      var p := LookupNode(key);
      if memory[p].name.Some? {
        return memory[p].name.value;
      }
      SetName(p, key, text);
      r := text;
    }

    /** The start-up lists that store a name over any other: EtherTypes as protocol identifiers, and the ethers file. */
    method ReplaceString(key: Key, name: string)
      requires Valid() && !Small(key)
      modifies this
      ensures Valid() && Extends(old(shape), shape)
      ensures View() == Replaced(Queried(old(View()), key, Some(name)), key, name)
    {
      hide Sound, Bucket, Small, Contents, First, Extends, AllNamed, Replaced;
      NamedAfterLookup(View(), key, name);
      ApplyKeepsNamed(View(), Replace(key, name));
      var p := LookupNode(key);
      SetName(p, key, name);
    }

    /** One service of `init_servarray`: always a new entry, even for a port that has one. */
    method AddService(key: Key, name: string)
      requires Valid() && Small(key)
      modifies this
      ensures Valid() && View() == Added(old(View()), key, Some(name)) && Extends(old(shape), shape)
    {
      hide Sound, Bucket, Small, Contents, AllNamed;
      ApplyKeepsNamed(View(), Insert(key, name));
      var p := WalkToUnnamed(key);
      var q := NewSmallNode();
      Fill(p, key, Some(name), q);
    }

    /** `init_servarray`, over the services that `getservent` gives. */
    method InitServarray(services: seq<Service>, nflag: bool)
      requires Valid()
      modifies this
      ensures Valid() && View() == WithServices(old(View()), services, nflag)
    {
      hide Sound, Contents, Added;
      assert services[..0] == [];
      for i := 0 to |services|
        invariant Valid() && View() == WithServices(old(View()), services[..i], nflag)
      {
        var sv := services[i];
        assert services[..i + 1][..i] == services[..i];
        if sv.proto == "tcp" {
          AddService(TcpPort(sv.port), if nflag then PortText(sv.port) else sv.name);
        } else if sv.proto == "udp" {
          AddService(UdpPort(sv.port), if nflag then PortText(sv.port) else sv.name);
        }
      }
      assert services[..|services|] == services;
    }

    /** `tcpport_string`; `udpport_string` differs in the table only. */
    method TcpportString(port: U16) returns (r: string)
      requires Valid()
      modifies this
      ensures Valid() && View() == Queried(old(View()), TcpPort(port), Some(PortText(port)))
      ensures NameOf(View(), TcpPort(port)) == Some(r)
    {
      r := Query(TcpPort(port), PortText(port));
    }

    /** `etheraddr_string`; `resolved` is what `ether_ntohost` gives and `oui` the name of the maker. */
    method EtheraddrString(ep: seq<Byte>, nflag: bool, resolved: Option<string>, oui: string) returns (r: string)
      requires Valid() && |ep| == 6
      modifies this
      ensures Valid() && View() == Queried(old(View()), Ether(ep), Some(EtherName(ep, nflag, resolved, oui)))
      ensures NameOf(View(), Ether(ep)) == Some(r)
    {
      hide HexPairs, Sound, Contents, First, Queried, Extends, AllNamed;
      var text := FormatPairs(ep);
      assert text + "" == text;
      text := if !nflag && resolved.Some? then resolved.value else text + if nflag then "" else " (oui " + oui + ")";
      r := NodeString(Ether(ep), text);
    }

    /** `le64addr_string`. */
    method Le64addrString(ep: seq<Byte>) returns (r: string)
      requires Valid() && |ep| == 8
      modifies this
      ensures Valid() && View() == Queried(old(View()), ByteString(ep), Some(HexPairs(Reverse(ep))))
      ensures NameOf(View(), ByteString(ep)) == Some(r)
    {
      hide HexPairs, Sound, Contents, First, Queried, Extends, AllNamed;
      var text := FormatBackwards(ep);
      r := NodeString(ByteString(ep), text);
    }

    /** `linkaddr_string`, for link types other than Frame Relay. */
    method LinkaddrString(ep: seq<Byte>, ether: bool, nflag: bool, resolved: Option<string>, oui: string) returns (r: string)
      requires Valid()
      modifies this
      ensures Valid()
      ensures ep == [] ==> r == "<empty>" && View() == old(View())
      ensures ep != [] && ether && |ep| == 6 ==>
        View() == Queried(old(View()), Ether(ep), Some(EtherName(ep, nflag, resolved, oui))) && NameOf(View(), Ether(ep)) == Some(r)
      ensures ep != [] && !(ether && |ep| == 6) ==>
        View() == Queried(old(View()), ByteString(ep), Some(HexPairs(ep))) && NameOf(View(), ByteString(ep)) == Some(r)
    {
      hide HexPairs, Sound, Contents, First, Queried, Extends, AllNamed, EtherName;
      if |ep| == 0 {
        return "<empty>";
      }
      if ether && |ep| == 6 {
        r := EtheraddrString(ep, nflag, resolved, oui);
        return;
      }
      var text := FormatPairs(ep);
      r := NodeString(ByteString(ep), text);
    }

    /** `isonsap_string`. */
    method IsonsapString(nsap: seq<Byte>) returns (r: string)
      requires Valid()
      modifies this
      ensures Valid()
      ensures if 1 <= |nsap| <= 20
        then View() == Queried(old(View()), Nsap(nsap), Some(NsapText(nsap))) && NameOf(View(), Nsap(nsap)) == Some(r)
        else View() == old(View()) && r == "isonsap_string: illegal length"
    {
      hide NsapText, Sound, Contents, First, Queried, Extends, AllNamed;
      if |nsap| < 1 || |nsap| > 20 {
        return "isonsap_string: illegal length";
      }
      var text := FormatNsap(nsap);
      r := NodeString(Nsap(nsap), text);
    }

    /** Whole runs: whatever the sequence of operations, the tables in memory are those of the run, and so are the answers. */
    method Drive(ops: seq<Op>) returns (answers: seq<Option<string>>)
      requires Valid() && forall op :: op in ops ==> Possible(op)
      modifies this
      ensures Valid() && View() == Run(old(View()), ops) && answers == Answers(old(View()), ops)
      ensures Extends(old(shape), shape)
    {
      hide Sound, Contents, AllNamed, Apply, NameOf, Small;
      answers := [];
      assert ops[..0] == [];
      for k := 0 to |ops|
        invariant Valid()
        invariant View() == Run(old(View()), ops[..k]) && answers == Answers(old(View()), ops[..k])
        invariant Extends(old(shape), shape)
      {
        assert ops[..k + 1][..k] == ops[..k];
        ApplyKeepsNamed(View(), ops[k]);
        var one := Perform(ops[k]);
        answers := answers + [one];
      }
      assert ops[..|ops|] == ops;
    }

    method Perform(op: Op) returns (answer: Option<string>)
      requires Valid() && Possible(op)
      modifies this
      ensures Valid() && View() == Apply(old(View()), op) && Extends(old(shape), shape)
      ensures answer == if op.Lookup? then NameOf(View(), op.key) else None
    {
      hide Sound, Contents, AllNamed, NameOf, Queried, Added, Replaced, Extends;
      answer := None;
      match op {
        case Lookup(key, name) =>
          var r;
          if Small(key) {
            r := Query(key, name);
          } else {
            r := NodeString(key, name);
          }
          answer := Some(r);
        case Insert(key, name) => AddService(key, name);
        case Replace(key, name) => ReplaceString(key, name);
      }
    }

    /**
     * `ipaddr_string`. `local` is the comparison with the network of `-f`, `resolved` what `gethostbyaddr` gives.
     */
    method IpaddrString(ap: seq<Byte>, nflag: bool, local: bool, shorten: bool, resolved: Option<string>)
      returns (r: string)
      requires Valid() && |ap| == 4
      modifies this
      ensures Valid()
      ensures View() == Queried(old(View()), Host(ap), Some(HostName(ap, nflag, local, shorten, resolved)))
      ensures NameOf(View(), Host(ap)) == Some(r)
      ensures nflag && Numeric(old(View())) ==> r == AddrText.Dotted(ap) && Numeric(View())
    {
      hide Sound, Bucket, Contents, First, AllNamed, FirstAt, Numeric, Added;
      var key: Key := Host(ap);
      ghost var name := HostName(ap, nflag, local, shorten, resolved);
      NumericQueried(View(), key, Some(name));
      ApplyKeepsNamed(View(), Lookup(key, name));
      var p, found := Walk(key);
      if found {
        NamedInBucket(memory, shape, Bucket(key), key);
        return memory[p].name.value;
      }
      var q := NewSmallNode();
      assert p == LastOf(Bucket(key));
      if !nflag && local && resolved.Some? {
        r := if shorten then UpToDot(resolved.value) else resolved.value;
      } else {
        var buf := new char[17];
        var at := Addrtostr.Intoa(ap, buf);
        Addrtostr.DottedHasNoNul(ap);
        r := Strdup(buf, at, AddrText.Dotted(ap));
      }
      Fill(p, key, Some(r), q);
      FirstOfAdded(old(View()), key, Some(r));
    }
  }

  // ---- The texts the formatters make ----

  /** Two hexadecimal digits. */
  function HexByte(b: Byte): string {
    [AddrText.Digit(b / 16), AddrText.Digit(b % 16)]
  }

  /** Octets as pairs of digits with colons between them. */
  function HexPairs(s: seq<Byte>): string {
    if s == [] then [] else HexPairs(s[..|s| - 1]) + (if |s| > 1 then ":" else "") + HexByte(s[|s| - 1])
  }

  /** Octets as pairs of digits, a dot before every second one. */
  function NsapText(s: seq<Byte>): string {
    if s == [] then [] else NsapText(s[..|s| - 1]) + (if |s| % 2 == 0 then "." else "") + HexByte(s[|s| - 1])
  }

  function Reverse(s: seq<Byte>): (r: seq<Byte>)
    ensures |r| == |s| && forall i :: 0 <= i < |s| ==> r[i] == s[|s| - 1 - i]
  {
    if s == [] then [] else [s[|s| - 1]] + Reverse(s[..|s| - 1])
  }

  /** The loop of `etheraddr_string` and `linkaddr_string`. */
  method FormatPairs(ep: seq<Byte>) returns (text: string)
    requires ep != []
    ensures text == HexPairs(ep)
  {
    hide HexByte;
    text := HexByte(ep[0]);
    assert ep[..1][..0] == [] && HexPairs(ep[..1]) == HexByte(ep[0]);
    for i := 1 to |ep|
      invariant text == HexPairs(ep[..i])
    {
      assert ep[..i + 1][..i] == ep[..i];
      text := text + ":" + HexByte(ep[i]);
    }
    assert ep[..|ep|] == ep;
  }

  /** The loop of `le64addr_string`, from the last octet to the first, whose last colon is taken back. */
  method FormatBackwards(ep: seq<Byte>) returns (text: string)
    requires ep != []
    ensures text == HexPairs(Reverse(ep))
  {
    hide HexByte, HexPairs, Reverse;
    ghost var back := Reverse(ep);
    text := [];
    var i := |ep|;
    while i > 0
      invariant 0 <= i <= |ep|
      invariant text == if i == |ep| then [] else HexPairs(back[..|ep| - i]) + ":"
    {
      ghost var k := |ep| - i;
      OnePairMore(back[..k + 1]);
      assert back[..k + 1][..k] == back[..k] && back[k] == ep[i - 1];
      text := text + HexByte(ep[i - 1]) + ":";
      i := i - 1;
    }
    assert back[..|ep|] == back;
    text := text[..|text| - 1];
  }

  lemma OnePairMore(s: seq<Byte>)
    requires s != []
    ensures HexPairs(s) == if |s| == 1 then HexByte(s[0]) else HexPairs(s[..|s| - 1]) + ":" + HexByte(s[|s| - 1])
  {
    hide HexByte;
    if |s| == 1 {
      assert HexPairs(s[..0]) == [];
    }
  }

  /** The loop of `isonsap_string`. */
  method FormatNsap(nsap: seq<Byte>) returns (text: string)
    ensures text == NsapText(nsap)
  {
    hide HexByte;
    text := [];
    for i := 0 to |nsap|
      invariant text == NsapText(nsap[..i]) + (if 0 < i < |nsap| && i % 2 == 1 then "." else "")
    {
      assert nsap[..i + 1][..i] == nsap[..i];
      text := text + HexByte(nsap[i]);
      if i % 2 == 0 && i + 1 < |nsap| {
        text := text + ".";
      }
    }
    assert nsap[..|nsap|] == nsap;
  }

  /** What `etheraddr_string` stores: the name service's answer, or the octets and, without `-n`, their maker. */
  function EtherName(ep: seq<Byte>, nflag: bool, resolved: Option<string>, oui: string): string {
    if !nflag && resolved.Some? then resolved.value
    else HexPairs(ep) + if nflag then "" else " (oui " + oui + ")"
  }

  /** The decimal text of a port. */
  function PortText(n: nat): string {
    if n < 10 then [AddrText.Digit(n)] else PortText(n / 10) + [AddrText.Digit(n % 10)]
  }

  datatype Service = Service(port: U16, name: string, proto: string)

  /** Each tcp and udp service adds an entry; others add none. */
  function WithServices(t: Tables, services: seq<Service>, nflag: bool): Tables {
    if services == [] then t
    else
      var sv := services[|services| - 1];
      var before := WithServices(t, services[..|services| - 1], nflag);
      var name := Some(if nflag then PortText(sv.port) else sv.name);
      if sv.proto == "tcp" then Added(before, TcpPort(sv.port), name)
      else if sv.proto == "udp" then Added(before, UdpPort(sv.port), name)
      else before
  }

  /** The part of a name before its first dot. */
  function UpToDot(s: string): string {
    if s == [] || s[0] == '.' then [] else [s[0]] + UpToDot(s[1..])
  }

  function HostName(ap: seq<Byte>, nflag: bool, local: bool, shorten: bool, resolved: Option<string>): string
    requires |ap| == 4
  {
    if !nflag && local && resolved.Some? then if shorten then UpToDot(resolved.value) else resolved.value
    else AddrText.Dotted(ap)
  }

  /** Every host is stored under its dotted form. */
  predicate Numeric(t: Tables) {
    forall b, i :: 0 <= b < BUCKETS && 0 <= i < |t[b]| && t[b][i].key.Host? ==>
      t[b][i].name == Some(AddrText.Dotted(t[b][i].key.addr))
  }

  lemma NumericQueried(t: Tables, k: Key, name: Option<string>)
    requires k.Host?
    ensures Numeric(t) && name == Some(AddrText.Dotted(k.addr)) ==>
      Numeric(Queried(t, k, name)) && First(Queried(t, k, name)[Bucket(k)], k) == Some(Entry(k, name))
  {
    hide Bucket;
    if Numeric(t) && name == Some(AddrText.Dotted(k.addr)) {
      FirstIsIn(t[Bucket(k)], k);
      if First(t[Bucket(k)], k) == None {
        FirstOfAdded(t, k, name);
      }
    }
  }

  lemma FillKeepsSpare(mem: seq<Node>, sh: Shape, b: nat, q: nat, p: nat, n: Node)
    requires Sound(mem, sh) && b < BUCKETS && q < |mem| && p < |mem| && sh.owner[p] != -1
    ensures forall k :: Spare(mem, sh, k) && k != q ==> Spare(mem[p := n], Grown(sh, b, q), k)
  {
    hide ChainOk;
  }

  /** What a lookup leaves for naming: a named entry, or one at the end that naming completes. */
  lemma NamedAfterLookup(t: Tables, k: Key, text: string)
    requires AllNamed(t)
    ensures var u := Queried(t, k, None);
      && NameOf(Queried(t, k, Some(text)), k).Some?
      && (NameOf(u, k).Some? ==> u == t == Queried(t, k, Some(text)) && NameOf(u, k) == NameOf(t, k))
      && (NameOf(u, k) == None ==>
          Replaced(u, k, text) == Queried(t, k, Some(text)) && NameOf(Queried(t, k, Some(text)), k) == Some(text))
      && Replaced(u, k, text) == Replaced(Queried(t, k, Some(text)), k, text)
  {
    hide Bucket;
    var b := Bucket(k);
    var es := t[b];
    FirstIsIn(es, k);
    if First(es, k) == None {
      FirstAtAppend(es, Entry(k, None), k);
      FirstAtAppend(es, Entry(k, Some(text)), k);
      var i := |es|;
      assert (es + [Entry(k, None)])[i := Entry(k, Some(text))] == es + [Entry(k, Some(text))];
      assert (es + [Entry(k, Some(text))])[i := Entry(k, Some(text))] == es + [Entry(k, Some(text))];
      assert Replaced(Queried(t, k, None), k, text) == Queried(t, k, Some(text));
    }
  }

  lemma {:induction false} FirstAtAppend(es: seq<Entry>, e: Entry, k: Key)
    requires FirstAt(es, k) == |es| && e.key == k
    ensures FirstAt(es + [e], k) == |es|
  {
    if es != [] {
      FirstAtAppend(es[1..], e, k);
      assert (es + [e])[1..] == es[1..] + [e];
    }
  }

  lemma FirstOfAdded(t: Tables, k: Key, name: Option<string>)
    requires First(t[Bucket(k)], k) == None
    ensures First(Added(t, k, name)[Bucket(k)], k) == Some(Entry(k, name))
  {
    hide Bucket;
    FirstAppend(t[Bucket(k)], Entry(k, name), k);
  }

  lemma {:induction false} FirstAppend(es: seq<Entry>, e: Entry, k: Key)
    ensures First(es + [e], k) == if First(es, k).Some? then First(es, k) else if e.key == k then Some(e) else None
  {
    if es == [] {
      assert es + [e] == [e] && [e][1..] == [];
    } else {
      FirstAppend(es[1..], e, k);
      assert (es + [e])[1..] == es[1..] + [e];
    }
  }

  /** Every entry of a small table has a name. */
  lemma NamedInBucket(mem: seq<Node>, sh: Shape, b: nat, k: Key)
    requires Sound(mem, sh) && Small(k) && b == Bucket(k)
    ensures var r := First(Contents(mem, sh)[b], k); r.Some? ==> r.value.name.Some?
  {
    hide Bucket, Small;
    assert ChainOk(mem, sh, b);
    FirstIsIn(Contents(mem, sh)[b], k);
  }

  lemma {:induction false} FirstIsIn(es: seq<Entry>, k: Key)
    ensures var r := First(es, k); r.Some? ==> r.value in es && r.value.key == k
  {
    if es != [] {
      FirstIsIn(es[1..], k);
    }
  }

  // ---- Runs of lookups and insertions ----

  /**
   * A lookup that names its key if it has no name, the insertion of a service, and a name stored over any other; the
   * last two are made at start-up only.
   */
  datatype Op = Lookup(key: Key, name: string) | Insert(key: Key, name: string) | Replace(key: Key, name: string)

  predicate Possible(op: Op) {
    (op.Insert? ==> Small(op.key)) && (op.Replace? ==> !Small(op.key))
  }

  function Apply(t: Tables, op: Op): Tables {
    match op
    case Lookup(k, name) => Queried(t, k, Some(name))
    case Insert(k, name) => Added(t, k, Some(name))
    case Replace(k, name) => Replaced(Queried(t, k, Some(name)), k, name)
  }

  function Run(t: Tables, ops: seq<Op>): Tables {
    if ops == [] then t else Apply(Run(t, ops[..|ops| - 1]), ops[|ops| - 1])
  }

  /** What each operation of a run answers: a lookup the name its key then has. */
  function Answers(t: Tables, ops: seq<Op>): seq<Option<string>> {
    if ops == [] then []
    else
      var op := ops[|ops| - 1];
      Answers(t, ops[..|ops| - 1]) + [if op.Lookup? then NameOf(Run(t, ops), op.key) else None]
  }

  lemma {:induction false} FirstAtKeeps(es: seq<Entry>, e: Entry, k: Key)
    requires FirstAt(es, k) < |es|
    ensures FirstAt(es + [e], k) == FirstAt(es, k)
  {
    if es[0].key != k {
      FirstAtKeeps(es[1..], e, k);
      assert (es + [e])[1..] == es[1..] + [e];
    }
  }

  lemma {:induction false} FirstAtSameKeys(es: seq<Entry>, fs: seq<Entry>, k: Key)
    requires |es| == |fs| && forall i :: 0 <= i < |es| ==> es[i].key == fs[i].key
    ensures FirstAt(es, k) == FirstAt(fs, k)
  {
    if es != [] {
      FirstAtSameKeys(es[1..], fs[1..], k);
    }
  }

  lemma AddedKeepsFirst(t: Tables, k: Key, name: Option<string>, other: Key)
    requires FirstAt(t[Bucket(other)], other) < |t[Bucket(other)]|
    ensures FirstAt(Added(t, k, name)[Bucket(other)], other) == FirstAt(t[Bucket(other)], other)
    ensures NameOf(Added(t, k, name), other) == NameOf(t, other)
  {
    hide Bucket;
    if Bucket(k) == Bucket(other) {
      FirstAtKeeps(t[Bucket(k)], Entry(k, name), other);
    }
  }

  lemma RenamedEntry(es: seq<Entry>, k: Key, name: string, other: Key)
    requires FirstAt(es, k) < |es|
    ensures var fs := es[FirstAt(es, k) := Entry(k, Some(name))];
      && FirstAt(fs, other) == FirstAt(es, other)
      && First(fs, other) == if other == k then Some(Entry(k, Some(name))) else First(es, other)
  {
    hide FirstAt, First;
    FirstAtSameKeys(es, es[FirstAt(es, k) := Entry(k, Some(name))], other);
  }

  lemma ReplacedKeepsFirst(t: Tables, k: Key, name: string, other: Key)
    requires FirstAt(t[Bucket(k)], k) < |t[Bucket(k)]|
    ensures |Replaced(t, k, name)[Bucket(other)]| == |t[Bucket(other)]|
    ensures FirstAt(Replaced(t, k, name)[Bucket(other)], other) == FirstAt(t[Bucket(other)], other)
    ensures NameOf(Replaced(t, k, name), other) == if other == k then Some(name) else NameOf(t, other)
  {
    hide Bucket, FirstAt, First;
    RenamedEntry(t[Bucket(k)], k, name, other);
  }

  /** One operation: an entry stays the first of its key, and its name changes only when it is replaced. */
  lemma ApplyKeepsFirst(t: Tables, op: Op, k: Key)
    requires FirstAt(t[Bucket(k)], k) < |t[Bucket(k)]|
    ensures FirstAt(Apply(t, op)[Bucket(k)], k) == FirstAt(t[Bucket(k)], k) < |Apply(t, op)[Bucket(k)]|
    ensures NameOf(Apply(t, op), k) == if op == Replace(k, op.name) then Some(op.name) else NameOf(t, k)
  {
    hide Bucket, FirstAt, First;
    AddedKeepsFirst(t, op.key, Some(op.name), k);
    var u := Queried(t, op.key, Some(op.name));
    if op.Replace? {
      QueriedHas(t, op.key, Some(op.name));
      ReplacedKeepsFirst(u, op.key, op.name, k);
      GrowsOrStays(t, op.key, Some(op.name), k);
    } else {
      GrowsOrStays(t, op.key, Some(op.name), k);
    }
  }

  lemma QueriedHas(t: Tables, k: Key, name: Option<string>)
    ensures FirstAt(Queried(t, k, name)[Bucket(k)], k) < |Queried(t, k, name)[Bucket(k)]|
    ensures NameOf(Queried(t, k, name), k) == if First(t[Bucket(k)], k) == None then name else NameOf(t, k)
  {
    hide Bucket, FirstAt;
    if First(t[Bucket(k)], k) == None {
      FirstOfAdded(t, k, name);
    }
  }

  lemma GrowsOrStays(t: Tables, k: Key, name: Option<string>, other: Key)
    ensures |t[Bucket(other)]| <= |Queried(t, k, name)[Bucket(other)]|
    ensures |t[Bucket(other)]| <= |Added(t, k, name)[Bucket(other)]|
  {
    hide Bucket, First;
  }

  /** The name last stored over a key's, or else the one it had. */
  function LastReplaced(ops: seq<Op>, k: Key, start: Option<string>): Option<string> {
    if ops == [] then start
    else
      var op := ops[|ops| - 1];
      if op == Replace(k, op.name) then Some(op.name) else LastReplaced(ops[..|ops| - 1], k, start)
  }

  /** Over every run an entry stays the first of its key and keeps its name until it is replaced. */
  lemma {:induction false} RunKeepsFirst(t: Tables, ops: seq<Op>, k: Key)
    requires FirstAt(t[Bucket(k)], k) < |t[Bucket(k)]|
    ensures FirstAt(Run(t, ops)[Bucket(k)], k) == FirstAt(t[Bucket(k)], k) < |Run(t, ops)[Bucket(k)]|
    ensures NameOf(Run(t, ops), k) == LastReplaced(ops, k, NameOf(t, k))
  {
    hide Bucket, FirstAt, Apply, NameOf;
    if ops != [] {
      var n := |ops| - 1;
      RunKeepsFirst(t, ops[..n], k);
      ApplyKeepsFirst(Run(t, ops[..n]), ops[n], k);
    }
  }

  /**
   * A repeated lookup answers as the first did, whatever was looked up or inserted in between, unless the name was
   * replaced; then it answers with the last replacement.
   */
  lemma RepeatedLookup(t: Tables, k: Key, name: string, ops: seq<Op>, later: string)
    ensures var first := Apply(t, Lookup(k, name));
      && NameOf(first, k) == (if First(t[Bucket(k)], k) == None then Some(name) else NameOf(t, k))
      && NameOf(Apply(Run(first, ops), Lookup(k, later)), k) == LastReplaced(ops, k, NameOf(first, k))
  {
    hide Bucket, FirstAt, NameOf, Run;
    var first := Apply(t, Lookup(k, name));
    QueriedHas(t, k, Some(name));
    RunKeepsFirst(first, ops, k);
    ApplyKeepsFirst(Run(first, ops), Lookup(k, later), k);
  }

  predicate AtHome(t: Tables) {
    forall b, i :: 0 <= b < BUCKETS && 0 <= i < |t[b]| ==> Bucket(t[b][i].key) == b
  }

  /** At most one entry of a key. */
  predicate Once(t: Tables, k: Key) {
    var es := t[Bucket(k)];
    forall i, j :: 0 <= i < j < |es| ==> es[i].key != k || es[j].key != k
  }

  lemma {:induction false} FirstIfAny(es: seq<Entry>, k: Key)
    ensures First(es, k) == None <==> forall i :: 0 <= i < |es| ==> es[i].key != k
  {
    if es != [] {
      FirstIfAny(es[1..], k);
      assert forall i :: 1 <= i < |es| ==> es[i] == es[1..][i - 1];
    }
  }

  lemma AddedKeepsOnce(t: Tables, k: Key, name: Option<string>, other: Key)
    requires AtHome(t) && Once(t, other)
    ensures AtHome(Added(t, k, name))
    ensures k != other || First(t[Bucket(k)], k) == None ==> Once(Added(t, k, name), other)
  {
    hide Bucket, First;
    FirstIfAny(t[Bucket(k)], k);
  }

  lemma ReplacedKeepsOnce(t: Tables, k: Key, name: string, other: Key)
    requires AtHome(t) && Once(t, other)
    ensures AtHome(Replaced(t, k, name)) && Once(Replaced(t, k, name), other)
  {
    hide Bucket, First;
  }

  lemma ApplyKeepsOnce(t: Tables, op: Op, k: Key)
    requires AtHome(t) && Once(t, k)
    ensures AtHome(Apply(t, op)) && (op != Insert(k, op.name) ==> Once(Apply(t, op), k))
  {
    hide AtHome, Once, Bucket, First, Added, Replaced;
    AddedKeepsOnce(t, op.key, Some(op.name), k);
    if op.Replace? {
      ReplacedKeepsOnce(Queried(t, op.key, Some(op.name)), op.key, op.name, k);
    }
  }

  /** From empty tables every key stays in its own bucket, and a key that no service has appears once. */
  lemma {:induction false} RunKeepsOnce(t: Tables, ops: seq<Op>, k: Key)
    requires AtHome(t) && Once(t, k) && forall op :: op in ops && op.Insert? ==> op.key != k
    ensures AtHome(Run(t, ops)) && Once(Run(t, ops), k)
  {
    hide AtHome, Once, Apply;
    if ops != [] {
      var n := |ops| - 1;
      RunKeepsOnce(t, ops[..n], k);
      ApplyKeepsOnce(Run(t, ops[..n]), ops[n], k);
    }
  }

  lemma ApplyKeepsNamed(t: Tables, op: Op)
    requires AllNamed(t)
    ensures AllNamed(Apply(t, op))
  {
    hide Bucket, First;
  }

  /** With `-n` every host lookup of a run answers the dotted form. */
  lemma {:induction false} NumericRun(t: Tables, ops: seq<Op>, a: seq<Byte>)
    requires |a| == 4 && Numeric(t)
    requires forall op :: op in ops && op.key.Host? ==> op.Lookup? && op.name == AddrText.Dotted(op.key.addr)
    ensures Numeric(Run(t, ops))
    ensures NameOf(Apply(Run(t, ops), Lookup(Host(a), AddrText.Dotted(a))), Host(a)) == Some(AddrText.Dotted(a))
  {
    hide Bucket, First, AddrText.Dotted, FirstAt;
    if ops != [] {
      var n := |ops| - 1;
      NumericRun(t, ops[..n], a);
      var op := ops[n];
      if op.key.Host? {
        NumericQueried(Run(t, ops[..n]), op.key, Some(op.name));
      } else {
        OthersStayNumeric(Run(t, ops[..n]), op);
      }
    }
    NumericQueried(Run(t, ops), Host(a), Some(AddrText.Dotted(a)));
  }

  lemma OthersStayNumeric(t: Tables, op: Op)
    requires Numeric(t) && !op.key.Host?
    ensures Numeric(Apply(t, op))
  {
    hide Bucket, First, AddrText.Dotted;
  }

  /** The services at start-up may give a port several entries; the first is the one looked up. */
  lemma DuplicateService(p: U16, first: string, second: string, t: Tables)
    requires First(t[Bucket(TcpPort(p))], TcpPort(p)) == None
    ensures var r := Added(Added(t, TcpPort(p), Some(first)), TcpPort(p), Some(second));
      !Once(r, TcpPort(p)) && NameOf(r, TcpPort(p)) == Some(first)
  {
    hide Bucket, First;
    var k: Key := TcpPort(p);
    var once := Added(t, k, Some(first));
    var r := Added(once, k, Some(second));
    FirstOfAdded(t, k, Some(first));
    FirstAppend(once[Bucket(k)], Entry(k, Some(second)), k);
    var n := |t[Bucket(k)]|;
    assert r[Bucket(k)][n].key == k && r[Bucket(k)][n + 1].key == k;
  }

  /** A key found once is found in the same node after every run. */
  lemma SameNode(was: Shape, sh: Shape, t: Tables, ops: seq<Op>, k: Key)
    requires Extends(was, sh) && |was.chains| == BUCKETS
    requires FirstAt(t[Bucket(k)], k) < |t[Bucket(k)]| < |was.chains[Bucket(k)]|
    ensures var i := FirstAt(Run(t, ops)[Bucket(k)], k);
      i < |sh.chains[Bucket(k)]| && sh.chains[Bucket(k)][i] == was.chains[Bucket(k)][FirstAt(t[Bucket(k)], k)]
  {
    hide Bucket, FirstAt, Run;
    RunKeepsFirst(t, ops, k);
  }

  /** Two texts that end in a separator or none and a pair of digits, with fronts of one length. */
  lemma SameEnds(front: string, sep: string, a: Byte, front': string, b: Byte)
    requires |front| == |front'| && front + sep + HexByte(a) == front' + sep + HexByte(b)
    ensures front == front' && a == b
  {
    hide HexByte;
    var n := |front|;
    var text, text' := front + sep + HexByte(a), front' + sep + HexByte(b);
    assert front == text[..n] && front' == text'[..n];
    assert HexByte(a) == text[n + |sep|..] && HexByte(b) == text'[n + |sep|..];
    HexByteDecides(a, b);
  }

  /** Pairs of digits tell the octets apart. */
  lemma {:induction false} PairsDecide(s: seq<Byte>, r: seq<Byte>)
    requires |s| == |r| && HexPairs(s) == HexPairs(r)
    ensures s == r
  {
    if s != [] {
      hide HexByte;
      var n := |s| - 1;
      PairsLength(s[..n]);
      PairsLength(r[..n]);
      SameEnds(HexPairs(s[..n]), if n > 0 then ":" else "", s[n], HexPairs(r[..n]), r[n]);
      PairsDecide(s[..n], r[..n]);
      assert s == s[..n] + [s[n]] && r == r[..n] + [r[n]];
    }
  }

  lemma {:induction false} NsapLength(s: seq<Byte>)
    ensures |NsapText(s)| == 2 * |s| + |s| / 2
  {
    if s != [] {
      NsapLength(s[..|s| - 1]);
    }
  }

  /** The text of an NSAP tells its octets apart. */
  lemma {:induction false} NsapDecides(s: seq<Byte>, r: seq<Byte>)
    requires |s| == |r| && NsapText(s) == NsapText(r)
    ensures s == r
  {
    if s != [] {
      hide HexByte;
      var n := |s| - 1;
      NsapLength(s[..n]);
      NsapLength(r[..n]);
      SameEnds(NsapText(s[..n]), if |s| % 2 == 0 then "." else "", s[n], NsapText(r[..n]), r[n]);
      NsapDecides(s[..n], r[..n]);
      assert s == s[..n] + [s[n]] && r == r[..n] + [r[n]];
    }
  }

  /** The text of a port is its decimal numeral. */
  lemma {:induction false} PortTextIsDecimal(n: nat)
    ensures AddrText.NumeralValue(PortText(n), 10) == Some(n)
    ensures |PortText(n)| > 1 ==> PortText(n)[0] != '0'
  {
    hide AddrText.NumeralValue, AddrText.Digit;
    if n < 10 {
      AddrText.OneDigit(n, 10);
    } else {
      PortTextIsDecimal(n / 10);
      AddrText.AppendDigit(PortText(n / 10), n / 10, n % 10, 10);
      AddrText.OnlyZeroIsZero();
    }
  }

  lemma {:induction false} PairsLength(s: seq<Byte>)
    ensures |HexPairs(s)| == if s == [] then 0 else 3 * |s| - 1
  {
    if s != [] {
      PairsLength(s[..|s| - 1]);
    }
  }

  lemma HexByteDecides(a: Byte, b: Byte)
    requires HexByte(a) == HexByte(b)
    ensures a == b
  {
    AddrText.DigitRoundTrip(a / 16);
    AddrText.DigitRoundTrip(b / 16);
    AddrText.DigitRoundTrip(a % 16);
    AddrText.DigitRoundTrip(b % 16);
    assert HexByte(a)[0] == HexByte(b)[0] && HexByte(a)[1] == HexByte(b)[1];
  }

  /**
   * `le64addr_string` and `linkaddr_string` share a table: after the first, the second shows eight octets backwards,
   * which is its own text exactly when they read the same both ways.
   */
  lemma SharedByteStrings(t: Tables, ep: seq<Byte>)
    requires |ep| == 8 && First(t[Bucket(ByteString(ep))], ByteString(ep)) == None
    ensures var k := ByteString(ep);
      var shown := NameOf(Queried(Queried(t, k, Some(HexPairs(Reverse(ep)))), k, Some(HexPairs(ep))), k);
      shown == Some(HexPairs(Reverse(ep))) && (shown == Some(HexPairs(ep)) <==> Reverse(ep) == ep)
  {
    hide Bucket, FirstAt, First, HexPairs, Reverse;
    QueriedHas(t, ByteString(ep), Some(HexPairs(Reverse(ep))));
    if HexPairs(Reverse(ep)) == HexPairs(ep) {
      PairsDecide(Reverse(ep), ep);
    }
  }
}

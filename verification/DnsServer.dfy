/** The store as it runs (dnsserver/server.go): a map and a doubly linked list with a sentinel, kept in agreement. */
module DnsServer {
  import opened Bytes
  import opened DnsRecords

  class StoredPacket {
    const keyLabel: string
    const payload: seq<Byte>
    const packet: Packet
    const storedAt: int
    var prev: StoredPacket?
    var next: StoredPacket?

    constructor (keyLabel: string, payload: seq<Byte>, packet: Packet, storedAt: int)
      ensures Rec() == Record(keyLabel, payload, packet, storedAt) && prev == null && next == null
    {
      this.keyLabel, this.payload, this.packet, this.storedAt := keyLabel, payload, packet, storedAt;
      prev, next := null, null;
    }

    function Rec(): (r: Record)
    {
      Record(keyLabel, payload, packet, storedAt)
    }
  }

  // ----- the ring of links

  /** The sentinel at both ends, every other node once. */
  ghost predicate IsRing(ring: seq<StoredPacket>)
  {
    && |ring| >= 2 && ring[0] == ring[|ring| - 1]
    && (forall i, j :: 0 <= i < j < |ring| && ring[i] == ring[j] ==> i == 0 && j == |ring| - 1)
  }

  ghost predicate Linked(ring: seq<StoredPacket>)
    reads ring
  {
    && (forall i {:trigger ring[i].next} :: 0 <= i < |ring| - 1 ==> ring[i].next == ring[i + 1])
    && (forall i {:trigger ring[i].prev} :: 0 < i < |ring| ==> ring[i].prev == ring[i - 1])
  }

  /** Takes a node out of the ring. */
  method Unlink(stored: StoredPacket, ghost ring: seq<StoredPacket>, ghost k: nat)
    requires IsRing(ring) && Linked(ring) && 0 < k < |ring| - 1 && ring[k] == stored
    modifies ring
    ensures Linked(ring[..k] + ring[k + 1..]) && stored.prev == null && stored.next == null
  {
    assert stored.prev == ring[k - 1] && stored.next == ring[k + 1] by {
      assert ring[k - 1].next == ring[k] && ring[k].next == ring[k + 1];
    }
    stored.prev.next := stored.next;
    stored.next.prev := stored.prev;
    stored.prev, stored.next := null, null;
    ghost var rest := ring[..k] + ring[k + 1..];
    forall j | 0 <= j < |rest| - 1
      ensures rest[j].next == rest[j + 1]
    {
      ghost var i := if j < k then j else j + 1;
      assert rest[j] == ring[i] && rest[j + 1] == if j + 1 < k then ring[j + 1] else ring[j + 2];
      assert i != k - 1 ==> ring[i] != ring[k - 1] && ring[i] != stored && old(ring[i].next) == ring[i + 1];
    }
    forall j | 0 < j < |rest|
      ensures rest[j].prev == rest[j - 1]
    {
      ghost var i := if j < k then j else j + 1;
      assert rest[j] == ring[i] && rest[j - 1] == if j - 1 < k then ring[j - 1] else ring[j];
      assert i != k + 1 ==> ring[i] != ring[k + 1] && ring[i] != stored && old(ring[i].prev) == ring[i - 1];
    }
  }

  /** Puts a node in before the end of the ring. */
  method Link(stored: StoredPacket, order: StoredPacket, ghost ring: seq<StoredPacket>)
    requires IsRing(ring) && Linked(ring) && stored !in ring && order == ring[0]
    modifies ring, stored
    ensures Linked(ring[..|ring| - 1] + [stored, order])
  {
    ghost var n := |ring| - 1;
    assert ring[n - 1].next == ring[n] && ring[n].prev == ring[n - 1];
    stored.prev := order.prev;
    stored.next := order;
    stored.prev.next := stored;
    order.prev := stored;
    ghost var more := ring[..n] + [stored, order];
    assert forall j :: 0 <= j < n ==> more[j] == ring[j];
  }

  // ----- lists of nodes and their records

  ghost predicate AreRecords(nodes: seq<StoredPacket>, rs: seq<Record>)
  {
    |rs| == |nodes| && forall i :: 0 <= i < |nodes| ==> rs[i] == nodes[i].Rec()
  }

  ghost function RecordsOf(nodes: seq<StoredPacket>): (rs: seq<Record>)
    ensures AreRecords(nodes, rs)
  {
    assert AreRecords(nodes, seq(|nodes|, i requires 0 <= i < |nodes| => nodes[i].Rec()));
    var rs :| AreRecords(nodes, rs);
    rs
  }

  lemma RecordsAre(nodes: seq<StoredPacket>, rs: seq<Record>)
    requires AreRecords(nodes, rs)
    ensures RecordsOf(nodes) == rs
  {
  }

  /** The map holds exactly the nodes, under their keys. */
  ghost predicate Indexed(store: map<string, StoredPacket>, nodes: seq<StoredPacket>)
  {
    && (forall n :: n in nodes ==> n.keyLabel in store && store[n.keyLabel] == n)
    && (forall k :: k in store ==> store[k] in nodes && store[k].keyLabel == k)
  }

  lemma {:induction false} IndexedSize(store: map<string, StoredPacket>, nodes: seq<StoredPacket>)
    requires Indexed(store, nodes) && Distinct(nodes)
    ensures |store| == |nodes|
    decreases |nodes|
  {
    if nodes == [] {
      assert store == map[];
    } else {
      var front, last := nodes[..|nodes| - 1], nodes[|nodes| - 1];
      assert nodes == front + [last];
      IndexedDrop(store, front, last);
      IndexedSize(store - {last.keyLabel}, front);
      assert store.Keys == (store - {last.keyLabel}).Keys + {last.keyLabel};
    }
  }

  lemma IndexedDrop(store: map<string, StoredPacket>, front: seq<StoredPacket>, last: StoredPacket)
    requires Indexed(store, front + [last]) && last !in front
    ensures Indexed(store - {last.keyLabel}, front)
  {
    var nodes := front + [last];
    forall i | 0 <= i < |front|
      ensures front[i].keyLabel in store - {last.keyLabel} && store[front[i].keyLabel] == front[i]
    {
      assert nodes[i] == front[i] && nodes[|front|] == last;
    }
  }

  ghost predicate Distinct(nodes: seq<StoredPacket>)
  {
    forall i, j :: 0 <= i < j < |nodes| ==> nodes[i] != nodes[j]
  }

  ghost function Ring(order: StoredPacket, nodes: seq<StoredPacket>): (ring: seq<StoredPacket>)
    ensures |ring| == |nodes| + 2 && ring[0] == ring[|nodes| + 1] == order
    ensures forall i :: 0 <= i < |nodes| ==> ring[i + 1] == nodes[i]
  {
    [order] + nodes + [order]
  }

  lemma RingIsRing(order: StoredPacket, nodes: seq<StoredPacket>)
    requires order !in nodes && Distinct(nodes)
    ensures IsRing(Ring(order, nodes))
  {
    var ring := Ring(order, nodes);
    assert forall k :: 0 < k <= |nodes| ==> ring[k] == nodes[k - 1];
  }

  /** From the sentinel, the links lead through the nodes, each once, and back. */
  ghost predicate Listed(order: StoredPacket, nodes: seq<StoredPacket>)
    reads order, nodes
  {
    order !in nodes && Distinct(nodes) && Linked(Ring(order, nodes))
  }

  /** Takes node i out of the list. */
  method Detach(stored: StoredPacket, ghost order: StoredPacket, ghost nodes: seq<StoredPacket>, ghost i: nat)
    requires Listed(order, nodes) && i < |nodes| && nodes[i] == stored
    modifies order, nodes
    ensures Listed(order, nodes[..i] + nodes[i + 1..])
  {
    RingIsRing(order, nodes);
    GapInNodes(order, nodes, i);
    Unlink(stored, Ring(order, nodes), i + 1);
  }

  /** Puts a node at the end of the list. */
  method Attach(stored: StoredPacket, order: StoredPacket, ghost nodes: seq<StoredPacket>)
    requires Listed(order, nodes) && stored != order && stored !in nodes
    modifies order, nodes, stored
    ensures Listed(order, nodes + [stored])
  {
    ghost var ring := Ring(order, nodes);
    RingIsRing(order, nodes);
    assert ring[..|nodes| + 1] + [stored, order] == Ring(order, nodes + [stored]);
    Link(stored, order, ring);
  }

  class Server {
    var store: map<string, StoredPacket>
    const order: StoredPacket
    const maxPackets: int
    const retention: int
    /** The nodes from the sentinel on, least recently stored first. */
    ghost var nodes: seq<StoredPacket>
    /** The sentinel and every node there ever was. */
    ghost var repr: set<StoredPacket>

    /** The list runs through the records of the map, each once. */
    ghost predicate Valid()
      reads this, repr
    {
      && maxPackets >= 1 && retention > 0
      && order in repr && (forall n :: n in nodes ==> n in repr)
      && Listed(order, nodes) && Indexed(store, nodes)
    }

    constructor New()
      ensures Valid() && nodes == [] && fresh(repr)
      ensures maxPackets == 10_000 && retention == 7 * 24 * 3600 * 1_000_000_000
    {
      store := map[];
      order := new StoredPacket("", [], Packet(0, []), 0);
      maxPackets, retention := 10_000, 7 * 24 * 3600 * 1_000_000_000;
      nodes, repr := [], {order};
      new;
      order.prev := order;
      order.next := order;
      assert Ring(order, nodes) == [order, order];
    }

    method Unindex(stored: StoredPacket, ghost i: nat)
      requires Indexed(store, nodes) && Distinct(nodes) && i < |nodes| && nodes[i] == stored
      modifies `store, `nodes
      ensures Indexed(store, nodes) && nodes == old(nodes)[..i] + old(nodes)[i + 1..]
      ensures store == old(store) - {stored.keyLabel}
    {
      IndexedWithout(store, nodes, i);
      store := store - {stored.keyLabel};
      nodes := nodes[..i] + nodes[i + 1..];
    }

    /** Unlinks a record and takes it out of the map. */
    method Remove(stored: StoredPacket, ghost i: nat)
      requires Valid() && i < |nodes| && nodes[i] == stored
      modifies `store, `nodes, repr
      ensures Valid() && nodes == old(nodes)[..i] + old(nodes)[i + 1..]
      ensures store == old(store) - {stored.keyLabel}
    {
      Detach(stored, order, nodes, i);
      Unindex(stored, i);
    }

    ghost function Records(): (rs: seq<Record>)
      reads `nodes
    {
      RecordsOf(nodes)
    }

    /** Removes a record and nothing else. */
    method Drop(stored: StoredPacket, ghost i: nat)
      requires Valid() && i < |nodes| && nodes[i] == stored
      modifies `store, `nodes, repr
      ensures Valid() && |nodes| == |old(nodes)| - 1 && nodes == old(nodes)[..i] + old(nodes)[i + 1..]
      ensures store == old(store) - {stored.keyLabel} && Records() == DropKey(old(Records()), stored.keyLabel)
    {
      IndexedOneEach(store, nodes);
      DropKeyAt(Records(), i);
      RecordsGap(nodes, i);
      Remove(stored, i);
    }

    /** Removes the record of a key. */
    method DropStored(keyLabel: string)
      requires Valid() && keyLabel in store
      modifies `store, `nodes, repr
      ensures Valid() && keyLabel !in store
      ensures Records() == DropKey(old(Records()), keyLabel)
    {
      var stored := store[keyLabel];
      ghost var i :| 0 <= i < |nodes| && nodes[i] == stored;
      Drop(stored, i);
    }

    /** The oldest node, or the sentinel if there is none. */
    method First() returns (oldest: StoredPacket)
      requires Valid()
      ensures oldest == if nodes == [] then order else nodes[0]
    {
      assert Linked(Ring(order, nodes));
      assert Ring(order, nodes)[0].next == Ring(order, nodes)[1];
      oldest := order.next;
    }

    /** Serves a record that has not expired; an expired one is removed. */
    method Get(keyLabel: string, now: int) returns (payload: Option<seq<Byte>>)
      requires Valid()
      modifies `store, `nodes, repr
      ensures Valid() && Records() == AfterGet(old(Records()), keyLabel, now, retention)
      ensures payload == Served(old(Records()), keyLabel, now, retention)
    {
      IndexedLookup(store, nodes, keyLabel);
      if keyLabel !in store {
        return None;
      }
      var stored := store[keyLabel];
      if Expired(stored.Rec(), now, retention) {
        DropStored(keyLabel);
        return None;
      }
      payload := Some(stored.payload);
    }

    /** Removes the oldest records for as long as they are expired. */
    method DropExpiredFront(now: int)
      requires Valid()
      modifies `store, `nodes, repr
      ensures Valid() && store.Keys <= old(store).Keys
      ensures Records() == DropExpired(old(Records()), now, retention)
    {
      var oldest := First();
      while oldest != order && Expired(oldest.Rec(), now, retention)
        invariant Valid() && store.Keys <= old(store).Keys
        invariant oldest == if nodes == [] then order else nodes[0]
        invariant DropExpired(Records(), now, retention) == DropExpired(old(Records()), now, retention)
        decreases |nodes|
      {
        oldest := Advance(oldest);
      }
    }

    method Advance(oldest: StoredPacket) returns (next: StoredPacket)
      requires Valid() && nodes != [] && oldest == nodes[0]
      modifies `store, `nodes, repr
      ensures Valid() && |nodes| == |old(nodes)| - 1 && store.Keys <= old(store).Keys
      ensures next == if nodes == [] then order else nodes[0]
      ensures Records() == old(Records())[1..]
    {
      DropFront(oldest);
      next := First();
    }

    method DropFront(oldest: StoredPacket)
      requires Valid() && nodes != [] && oldest == nodes[0]
      modifies `store, `nodes, repr
      ensures Valid() && nodes == old(nodes)[1..] && store == old(store) - {oldest.keyLabel}
      ensures Records() == old(Records())[1..]
    {
      FrontGap(nodes);
      Remove(oldest, 0);
    }

    /** Makes room for one more record. */
    method DropOldestIfFull()
      requires Valid()
      modifies `store, `nodes, repr
      ensures Valid() && store.Keys <= old(store).Keys
      ensures Records() == DnsRecords.MakeRoom(old(Records()), maxPackets)
    {
      var n := Size();
      if n >= maxPackets {
        DropOldest();
      }
    }

    method Size() returns (n: nat)
      requires Valid()
      ensures n == |nodes|
    {
      IndexedSize(store, nodes);
      n := |store|;
    }

    method DropOldest()
      requires Valid() && nodes != []
      modifies `store, `nodes, repr
      ensures Valid() && store.Keys <= old(store).Keys && Records() == old(Records())[1..]
    {
      var oldest := First();
      DropFront(oldest);
    }

    method Append(keyLabel: string, payload: seq<Byte>, packet: Packet, now: int)
      requires Valid() && keyLabel !in store
      modifies this, repr
      ensures Valid() && fresh(repr - old(repr))
      ensures Records() == old(Records()) + [Record(keyLabel, payload, packet, now)]
    {
      var stored := new StoredPacket(keyLabel, payload, packet, now);
      Attach(stored, order, nodes);
      IndexedWith(store, nodes, stored);
      RecordsAppend(nodes, stored);
      store := store[keyLabel := stored];
      nodes, repr := nodes + [stored], repr + {stored};
    }

    /** Stores a packet unless it is stale. */
    method Put(keyLabel: string, payload: seq<Byte>, packet: Packet, now: int) returns (ok: bool)
      requires Valid()
      modifies this, repr
      ensures Valid() && fresh(repr - old(repr))
      ensures ok == Accepts(old(Records()), Record(keyLabel, payload, packet, now), retention)
      ensures Records() == AfterPut(old(Records()), Record(keyLabel, payload, packet, now), maxPackets, retention)
    {
      var cutoff := (now - retention) / 1000;
      if cutoff > 0 && packet.timestamp < cutoff {
        return false;
      }
      IndexedLookup(store, nodes, keyLabel);
      if keyLabel in store && MoreRecentThan(store[keyLabel].packet, packet) {
        return false;
      }
      Replace(keyLabel, payload, packet, now);
      ok := true;
    }

    method Replace(keyLabel: string, payload: seq<Byte>, packet: Packet, now: int)
      requires Valid()
      modifies this, repr
      ensures Valid() && fresh(repr - old(repr))
      ensures Records() == DnsRecords.Put(old(Records()), Record(keyLabel, payload, packet, now), maxPackets, retention)
    {
      Purge(keyLabel, now);
      DropOldestIfFull();
      Append(keyLabel, payload, packet, now);
    }

    method Purge(keyLabel: string, now: int)
      requires Valid()
      modifies `store, `nodes, repr
      ensures Valid() && keyLabel !in store
      ensures Records() == DropExpired(DropKey(old(Records()), keyLabel), now, retention)
    {
      Clear(keyLabel);
      DropExpiredFront(now);
    }

    method Clear(keyLabel: string)
      requires Valid()
      modifies `store, `nodes, repr
      ensures Valid() && keyLabel !in store
      ensures Records() == DropKey(old(Records()), keyLabel)
    {
      IndexedStranger(store, nodes, keyLabel);
      if keyLabel in store {
        DropStored(keyLabel);
      }
    }

    /** Over every run the list is what the operations make of it. */
    method Run(ops: seq<Op>)
      requires Valid()
      modifies this, repr
      ensures Valid() && fresh(repr - old(repr))
      ensures Records() == After(old(Records()), ops, maxPackets, retention)
      ensures old(Records()) == [] ==> |store| <= maxPackets && (ClockKeepsOn(ops) ==> InOrder(Records()))
    {
      for i := 0 to |ops|
        invariant Valid() && fresh(repr - old(repr))
        invariant Records() == After(old(Records()), ops[..i], maxPackets, retention)
      {
        assert ops[..i + 1][..i] == ops[..i];
        match ops[i] {
          case PutOp(r) => var ok := Put(r.keyLabel, r.payload, r.packet, r.storedAt);
          case GetOp(key, now) => var payload := Get(key, now);
        }
      }
      assert ops[..|ops|] == ops;
      if old(Records()) == [] {
        RunOk(ops, maxPackets, retention);
        IndexedSize(store, nodes);
      }
    }
  }

  lemma GapInNodes(order: StoredPacket, nodes: seq<StoredPacket>, i: nat)
    requires order !in nodes && Distinct(nodes) && i < |nodes|
    ensures var rest := nodes[..i] + nodes[i + 1..];
            && order !in rest && Distinct(rest)
            && Ring(order, nodes)[..i + 1] + Ring(order, nodes)[i + 2..] == Ring(order, rest)
  {
    RingGap(order, nodes, i);
    DistinctGap(nodes, i);
  }

  lemma RingGap(order: StoredPacket, nodes: seq<StoredPacket>, i: nat)
    requires i < |nodes|
    ensures Ring(order, nodes)[..i + 1] + Ring(order, nodes)[i + 2..] == Ring(order, nodes[..i] + nodes[i + 1..])
  {
    assert ([order] + nodes + [order])[..i + 1] == [order] + nodes[..i];
    assert ([order] + nodes + [order])[i + 2..] == nodes[i + 1..] + [order];
  }

  lemma DistinctGap(nodes: seq<StoredPacket>, i: nat)
    requires Distinct(nodes) && i < |nodes|
    ensures Distinct(nodes[..i] + nodes[i + 1..])
  {
    var rest := nodes[..i] + nodes[i + 1..];
    assert forall j :: 0 <= j < |rest| ==> rest[j] == if j < i then nodes[j] else nodes[j + 1];
  }

  lemma IndexedWithout(store: map<string, StoredPacket>, nodes: seq<StoredPacket>, i: nat)
    requires Indexed(store, nodes) && i < |nodes| && Distinct(nodes)
    ensures Indexed(store - {nodes[i].keyLabel}, nodes[..i] + nodes[i + 1..])
  {
    var rest := nodes[..i] + nodes[i + 1..];
    forall n | n in rest
      ensures n.keyLabel in store - {nodes[i].keyLabel} && store[n.keyLabel] == n
    {
      var j :| 0 <= j < |rest| && rest[j] == n;
      assert n == nodes[if j < i then j else j + 1] && n in nodes && nodes[i] in nodes;
    }
    forall k | k in store - {nodes[i].keyLabel}
      ensures store[k] in rest
    {
      var j :| 0 <= j < |nodes| && nodes[j] == store[k];
      assert j != i;
      assert rest[if j < i then j else j - 1] == store[k];
    }
  }

  lemma IndexedOneEach(store: map<string, StoredPacket>, nodes: seq<StoredPacket>)
    requires Indexed(store, nodes) && Distinct(nodes)
    ensures OneEach(RecordsOf(nodes))
  {
    forall i, j | 0 <= i < j < |nodes|
      ensures nodes[i].keyLabel != nodes[j].keyLabel
    {
      assert nodes[i] in nodes && nodes[j] in nodes;
    }
  }

  /** The map finds what the list holds. */
  lemma IndexedLookup(store: map<string, StoredPacket>, nodes: seq<StoredPacket>, key: string)
    requires Indexed(store, nodes) && Distinct(nodes)
    ensures Lookup(RecordsOf(nodes), key) == if key in store then Some(store[key].Rec()) else None
  {
    IndexedOneEach(store, nodes);
    if key in store {
      var i :| 0 <= i < |nodes| && nodes[i] == store[key];
      LookupAt(RecordsOf(nodes), i);
    } else {
      assert forall i :: 0 <= i < |nodes| ==> nodes[i] in nodes && nodes[i].keyLabel in store;
      LookupStranger(RecordsOf(nodes), key);
    }
  }

  lemma FrontGap(nodes: seq<StoredPacket>)
    requires nodes != []
    ensures nodes[..0] + nodes[0 + 1..] == nodes[1..]
    ensures RecordsOf(nodes[1..]) == RecordsOf(nodes)[1..]
  {
    RecordsAre(nodes[1..], RecordsOf(nodes)[1..]);
  }

  lemma RecordsGap(nodes: seq<StoredPacket>, i: nat)
    requires i < |nodes|
    ensures RecordsOf(nodes[..i] + nodes[i + 1..]) == RecordsOf(nodes)[..i] + RecordsOf(nodes)[i + 1..]
  {
    RecordsAre(nodes[..i] + nodes[i + 1..], RecordsOf(nodes)[..i] + RecordsOf(nodes)[i + 1..]);
  }

  lemma IndexedStranger(store: map<string, StoredPacket>, nodes: seq<StoredPacket>, key: string)
    requires Indexed(store, nodes) && Distinct(nodes)
    ensures key !in store ==> DropKey(RecordsOf(nodes), key) == RecordsOf(nodes)
  {
    if key !in store {
      assert forall i :: 0 <= i < |nodes| ==> nodes[i] in nodes && nodes[i].keyLabel in store;
      DropKeyOfStranger(RecordsOf(nodes), key);
    }
  }

  lemma IndexedWith(store: map<string, StoredPacket>, nodes: seq<StoredPacket>, stored: StoredPacket)
    requires Indexed(store, nodes) && stored.keyLabel !in store
    ensures Indexed(store[stored.keyLabel := stored], nodes + [stored])
  {
    forall n | n in nodes + [stored]
      ensures n in nodes || n == stored
    {
    }
    assert (nodes + [stored])[|nodes|] == stored;
  }

  lemma RecordsAppend(nodes: seq<StoredPacket>, stored: StoredPacket)
    ensures RecordsOf(nodes + [stored]) == RecordsOf(nodes) + [stored.Rec()]
  {
    RecordsAre(nodes + [stored], RecordsOf(nodes) + [stored.Rec()]);
  }
}

/** The bounded, expiring record store of the DNS server (dnsserver/server.go) as a list of records, oldest first. */
module DnsRecords {
  import opened Bytes

  /** What orders two packets of one key: the timestamp in microseconds, then the encoded DNS packet. */
  datatype Packet = Packet(timestamp: nat, encoded: seq<Byte>)

  datatype Record = Record(keyLabel: string, payload: seq<Byte>, packet: Packet, storedAt: int)

  predicate MoreRecentThan(p: Packet, q: Packet)
  {
    if p.timestamp == q.timestamp then Compare(p.encoded, q.encoded) > 0 else p.timestamp > q.timestamp
  }

  /** Recency is a strict total order. */
  lemma RecencyIsOrder(p: Packet, q: Packet, r: Packet)
    ensures !MoreRecentThan(p, p)
    ensures p == q || MoreRecentThan(p, q) || MoreRecentThan(q, p)
    ensures !(MoreRecentThan(p, q) && MoreRecentThan(q, p))
    ensures MoreRecentThan(p, q) && MoreRecentThan(q, r) ==> MoreRecentThan(p, r)
  {
    CompareIsOrder(p.encoded, p.encoded);
    CompareIsOrder(p.encoded, q.encoded);
    CompareIsOrder(q.encoded, r.encoded);
    CompareIsOrder(p.encoded, r.encoded);
    if MoreRecentThan(p, q) && MoreRecentThan(q, r) && p.timestamp == q.timestamp == r.timestamp {
      CompareTransitive(r.encoded, q.encoded, p.encoded);
    }
  }

  predicate Expired(r: Record, now: int, retention: int)
  {
    now - r.storedAt >= retention
  }

  predicate OneEach(rs: seq<Record>)
  {
    forall i, j :: 0 <= i < j < |rs| ==> rs[i].keyLabel != rs[j].keyLabel
  }

  predicate InOrder(rs: seq<Record>)
  {
    forall i, j :: 0 <= i < j < |rs| ==> rs[i].storedAt <= rs[j].storedAt
  }

  predicate Holds(rs: seq<Record>, key: string)
  {
    exists i :: 0 <= i < |rs| && rs[i].keyLabel == key
  }

  function Lookup(rs: seq<Record>, key: string): (r: Option<Record>)
  {
    if rs == [] then None
    else if rs[0].keyLabel == key then Some(rs[0])
    else Lookup(rs[1..], key)
  }

  lemma {:induction false} LookupAt(rs: seq<Record>, i: nat)
    requires OneEach(rs) && i < |rs|
    ensures Lookup(rs, rs[i].keyLabel) == Some(rs[i])
    decreases |rs|
  {
    if i > 0 {
      assert rs[1..][i - 1] == rs[i];
      LookupAt(rs[1..], i - 1);
    }
  }

  lemma {:induction false} LookupStranger(rs: seq<Record>, key: string)
    requires !Holds(rs, key)
    ensures Lookup(rs, key) == None
    decreases |rs|
  {
    if rs != [] {
      assert rs[0].keyLabel != key;
      assert forall i :: 0 <= i < |rs[1..]| ==> rs[1..][i] == rs[i + 1];
      LookupStranger(rs[1..], key);
    }
  }

  // ----- what get and put do to the list

  function Served(rs: seq<Record>, key: string, now: int, retention: int): (payload: Option<seq<Byte>>)
  {
    var r := Lookup(rs, key);
    if r.Some? && !Expired(r.value, now, retention) then Some(r.value.payload) else None
  }

  function AfterGet(rs: seq<Record>, key: string, now: int, retention: int): (s: seq<Record>)
  {
    var r := Lookup(rs, key);
    if r.Some? && Expired(r.value, now, retention) then DropKey(rs, key) else rs
  }

  /** Stale packets are refused: older than the retention, or than the stored packet of the key. */
  predicate Accepts(rs: seq<Record>, r: Record, retention: int)
  {
    var cutoff, held := (r.storedAt - retention) / 1000, Lookup(rs, r.keyLabel);
    && !(cutoff > 0 && r.packet.timestamp < cutoff)
    && !(held.Some? && MoreRecentThan(held.value.packet, r.packet))
  }

  function AfterPut(rs: seq<Record>, r: Record, max: int, retention: int): (s: seq<Record>)
  {
    if Accepts(rs, r, retention) then Put(rs, r, max, retention) else rs
  }

  function DropKey(rs: seq<Record>, key: string): (r: seq<Record>)
  {
    if rs == [] then []
    else if rs[0].keyLabel == key then rs[1..]
    else [rs[0]] + DropKey(rs[1..], key)
  }

  function DropExpired(rs: seq<Record>, now: int, retention: int): (r: seq<Record>)
  {
    if rs != [] && Expired(rs[0], now, retention) then DropExpired(rs[1..], now, retention) else rs
  }

  function MakeRoom(rs: seq<Record>, max: int): (r: seq<Record>)
  {
    if |rs| >= max && rs != [] then rs[1..] else rs
  }

  function Put(rs: seq<Record>, r: Record, max: int, retention: int): (s: seq<Record>)
  {
    MakeRoom(DropExpired(DropKey(rs, r.keyLabel), r.storedAt, retention), max) + [r]
  }

  // ----- properties

  lemma TailGap(rs: seq<Record>, i: nat)
    requires 0 < i < |rs|
    ensures [rs[0]] + (rs[1..][..i - 1] + rs[1..][i..]) == rs[..i] + rs[i + 1..]
  {
  }

  lemma {:induction false} DropKeyAt(rs: seq<Record>, i: nat)
    requires OneEach(rs) && i < |rs|
    ensures DropKey(rs, rs[i].keyLabel) == rs[..i] + rs[i + 1..]
    decreases |rs|
  {
    if i > 0 {
      assert rs[1..][i - 1] == rs[i];
      DropKeyAt(rs[1..], i - 1);
      TailGap(rs, i);
    }
  }

  lemma {:induction false} DropKeyOfStranger(rs: seq<Record>, key: string)
    requires !Holds(rs, key)
    ensures DropKey(rs, key) == rs
    decreases |rs|
  {
    if rs != [] {
      assert rs[0].keyLabel != key;
      assert forall i :: 0 <= i < |rs[1..]| ==> rs[1..][i] == rs[i + 1];
      DropKeyOfStranger(rs[1..], key);
    }
  }

  /** Without its key, the list has the same other records in the same order. */
  lemma DropKeyOk(rs: seq<Record>, key: string)
    requires OneEach(rs)
    ensures OneEach(DropKey(rs, key)) && !Holds(DropKey(rs, key), key) && |DropKey(rs, key)| <= |rs|
    ensures InOrder(rs) ==> InOrder(DropKey(rs, key))
    ensures forall r :: r in DropKey(rs, key) <==> r in rs && r.keyLabel != key
  {
    if i :| 0 <= i < |rs| && rs[i].keyLabel == key {
      DropKeyAt(rs, i);
      GapOk(rs, i);
      GapHolds(rs, i);
    } else {
      DropKeyOfStranger(rs, key);
    }
  }

  lemma GapOk(rs: seq<Record>, i: nat)
    requires OneEach(rs) && i < |rs|
    ensures OneEach(rs[..i] + rs[i + 1..]) && !Holds(rs[..i] + rs[i + 1..], rs[i].keyLabel)
    ensures InOrder(rs) ==> InOrder(rs[..i] + rs[i + 1..])
  {
    var r := rs[..i] + rs[i + 1..];
    assert forall j :: 0 <= j < |r| ==> r[j] == if j < i then rs[j] else rs[j + 1];
  }

  lemma GapHolds(rs: seq<Record>, i: nat)
    requires OneEach(rs) && i < |rs|
    ensures forall r :: r in rs[..i] + rs[i + 1..] <==> r in rs && r.keyLabel != rs[i].keyLabel
  {
    assert rs == rs[..i] + [rs[i]] + rs[i + 1..];
    forall r | r in rs[..i] + rs[i + 1..]
      ensures r.keyLabel != rs[i].keyLabel
    {
      if r in rs[..i] {
        var j :| 0 <= j < i && rs[..i][j] == r;
        assert rs[j] == r;
      } else {
        var j :| 0 <= j < |rs| - i - 1 && rs[i + 1..][j] == r;
        assert rs[i + 1 + j] == r;
      }
    }
  }

  /** Only expired records are dropped, from the front. */
  lemma {:induction false} DropExpiredPrefix(rs: seq<Record>, now: int, retention: int) returns (k: nat)
    ensures k <= |rs| && DropExpired(rs, now, retention) == rs[k..]
    ensures forall i :: 0 <= i < k ==> Expired(rs[i], now, retention)
    ensures k < |rs| ==> !Expired(rs[k], now, retention)
    decreases |rs|
  {
    if rs != [] && Expired(rs[0], now, retention) {
      var m := DropExpiredPrefix(rs[1..], now, retention);
      k := m + 1;
      assert rs[1..][m..] == rs[k..];
      assert forall i :: 0 < i < k ==> rs[i] == rs[1..][i - 1];
    } else {
      k := 0;
    }
  }

  /** In a list in order, that drops them all. */
  lemma DropExpiredOk(rs: seq<Record>, now: int, retention: int)
    requires InOrder(rs)
    ensures forall r :: r in DropExpired(rs, now, retention) ==> !Expired(r, now, retention)
  {
    var k := DropExpiredPrefix(rs, now, retention);
    forall r | r in rs[k..]
      ensures !Expired(r, now, retention)
    {
      var i :| 0 <= i < |rs[k..]| && rs[k..][i] == r;
      assert rs[k + i] == r;
    }
  }

  /**
   Storing keeps one record to a key, the order by time when the clock does not go back, and the limit.
   Afterwards no record is expired and the new one is the youngest.
   */
  lemma PutOk(rs: seq<Record>, r: Record, max: int, retention: int)
    requires OneEach(rs) && max >= 1 && |rs| <= max
    ensures OneEach(Put(rs, r, max, retention)) && |Put(rs, r, max, retention)| <= max
    ensures InOrder(rs) && (forall x :: x in rs ==> x.storedAt <= r.storedAt) ==> InOrder(Put(rs, r, max, retention))
    ensures InOrder(rs) && retention > 0 ==>
              forall x :: x in Put(rs, r, max, retention) ==> !Expired(x, r.storedAt, retention)
    ensures forall x :: x in Put(rs, r, max, retention) ==> x == r || (x in rs && x.keyLabel != r.keyLabel)
  {
    var a := DropKey(rs, r.keyLabel);
    DropKeyOk(rs, r.keyLabel);
    var k := DropExpiredPrefix(a, r.storedAt, retention);
    if InOrder(a) {
      DropExpiredOk(a, r.storedAt, retention);
    }
    SuffixPut(a, k, r, max);
  }

  /** What is left of the others is a suffix of them. */
  lemma SuffixPut(a: seq<Record>, k: nat, r: Record, max: int)
    requires k <= |a| <= max && max >= 1 && OneEach(a) && !Holds(a, r.keyLabel)
    ensures var s := MakeRoom(a[k..], max) + [r];
            && |s| <= max && OneEach(s)
            && (InOrder(a) && (forall x :: x in a ==> x.storedAt <= r.storedAt) ==> InOrder(s))
            && (forall x :: x in s ==> x == r || x in a[k..])
  {
    var m := if |a[k..]| >= max then k + 1 else k;
    assert MakeRoom(a[k..], max) == a[m..];
    SuffixJoin(a, m, r);
    assert forall x :: x in a[m..] ==> x in a[k..];
  }

  lemma SuffixJoin(a: seq<Record>, m: nat, r: Record)
    requires m <= |a| && OneEach(a) && !Holds(a, r.keyLabel)
    ensures OneEach(a[m..] + [r])
    ensures InOrder(a) && (forall x :: x in a ==> x.storedAt <= r.storedAt) ==> InOrder(a[m..] + [r])
  {
    var s := a[m..] + [r];
    assert forall i :: 0 <= i < |s| - 1 ==> s[i] == a[m + i] && a[m + i] in a;
  }

  /** A put drops only what it replaces, what has expired and, from a full store, the record stored first. */
  lemma PutKeeps(rs: seq<Record>, r: Record, max: int, retention: int, x: Record)
    requires OneEach(rs) && max >= 1 && |rs| <= max
    requires x in rs && x.keyLabel != r.keyLabel && !Expired(x, r.storedAt, retention)
    ensures x in Put(rs, r, max, retention) || (|rs| == max && x == rs[0])
  {
    var a := DropKey(rs, r.keyLabel);
    DropKeyOk(rs, r.keyLabel);
    var k := DropExpiredPrefix(a, r.storedAt, retention);
    var i :| 0 <= i < |a| && a[i] == x;
    assert a[k..][i - k] == x;
    if |a[k..]| >= max {
      FullMeansAll(rs, r.keyLabel);
      if i > 0 {
        assert a[k..][1..][i - 1] == x;
      }
    }
  }

  lemma FullMeansAll(rs: seq<Record>, key: string)
    requires OneEach(rs) && |DropKey(rs, key)| == |rs|
    ensures DropKey(rs, key) == rs
  {
    if i :| 0 <= i < |rs| && rs[i].keyLabel == key {
      DropKeyAt(rs, i);
      assert false;
    }
    DropKeyOfStranger(rs, key);
  }

  // ----- runs

  datatype Op = PutOp(record: Record) | GetOp(keyLabel: string, now: int)

  function Time(op: Op): (t: int) { if op.PutOp? then op.record.storedAt else op.now }

  function Apply(rs: seq<Record>, op: Op, max: int, retention: int): (s: seq<Record>)
  {
    if op.PutOp? then AfterPut(rs, op.record, max, retention) else AfterGet(rs, op.keyLabel, op.now, retention)
  }

  function After(rs: seq<Record>, ops: seq<Op>, max: int, retention: int): (s: seq<Record>)
  {
    if ops == [] then rs else Apply(After(rs, ops[..|ops| - 1], max, retention), ops[|ops| - 1], max, retention)
  }

  predicate ClockKeepsOn(ops: seq<Op>)
  {
    forall i, j :: 0 <= i < j < |ops| ==> Time(ops[i]) <= Time(ops[j])
  }

  /** In order of time, and nothing from the future. */
  predicate Timely(rs: seq<Record>, now: int)
  {
    InOrder(rs) && forall r :: r in rs ==> r.storedAt <= now
  }

  lemma ApplyOk(rs: seq<Record>, op: Op, max: int, retention: int)
    requires OneEach(rs) && max >= 1 && |rs| <= max
    ensures OneEach(Apply(rs, op, max, retention)) && |Apply(rs, op, max, retention)| <= max
    ensures Timely(rs, Time(op)) ==> Timely(Apply(rs, op, max, retention), Time(op))
  {
    match op {
      case PutOp(r) => PutOk(rs, r, max, retention);
      case GetOp(key, _) => DropKeyOk(rs, key);
    }
  }

  /** Every run keeps one record to a key and the limit and, if the clock keeps on, the order of time. */
  lemma {:induction false} RunOk(ops: seq<Op>, max: int, retention: int)
    requires max >= 1
    ensures OneEach(After([], ops, max, retention)) && |After([], ops, max, retention)| <= max
    ensures ClockKeepsOn(ops) && ops != [] ==> Timely(After([], ops, max, retention), Time(ops[|ops| - 1]))
    decreases |ops|
  {
    if ops != [] {
      var front, last := ops[..|ops| - 1], ops[|ops| - 1];
      RunOk(front, max, retention);
      if ClockKeepsOn(ops) && front != [] {
        assert front[|front| - 1] == ops[|ops| - 2];
        assert Timely(After([], front, max, retention), Time(last));
      }
      ApplyOk(After([], front, max, retention), last, max, retention);
    }
  }

  /** After an accepted put in such a run nothing stored has expired. */
  lemma PutLeavesNoExpired(ops: seq<Op>, r: Record, max: int, retention: int)
    requires max >= 1 && retention > 0 && ClockKeepsOn(ops + [PutOp(r)])
    requires Accepts(After([], ops, max, retention), r, retention)
    ensures forall x :: x in After([], ops + [PutOp(r)], max, retention) ==> !Expired(x, r.storedAt, retention)
  {
    assert (ops + [PutOp(r)])[..|ops|] == ops;
    assert forall i :: 0 <= i < |ops| ==> (ops + [PutOp(r)])[i] == ops[i];
    RunOk(ops, max, retention);
    if ops == [] {
      assert After([], ops, max, retention) == [];
    }
    PutOk(After([], ops, max, retention), r, max, retention);
  }

  /** One step: a key that stays stored does not go back to a less recent packet. */
  lemma StepKeepsRecency(rs: seq<Record>, op: Op, max: int, retention: int, key: string)
    requires OneEach(rs) && max >= 1 && |rs| <= max
    requires Lookup(rs, key).Some? && Lookup(Apply(rs, op, max, retention), key).Some?
    ensures !MoreRecentThan(Lookup(rs, key).value.packet, Lookup(Apply(rs, op, max, retention), key).value.packet)
  {
    var s := Apply(rs, op, max, retention);
    var before, later := Lookup(rs, key).value, Lookup(s, key).value;
    ApplyOk(rs, op, max, retention);
    LookupFinds(rs, key);
    LookupFinds(s, key);
    RecencyIsOrder(before.packet, before.packet, before.packet);
    if later in rs {
      SameKeySameRecord(rs, before, later);
    } else {
      StepAddsOnlyIts(rs, op, max, retention, later);
    }
  }

  lemma {:induction false} LookupFinds(rs: seq<Record>, key: string)
    requires Lookup(rs, key).Some?
    ensures Lookup(rs, key).value in rs && Lookup(rs, key).value.keyLabel == key
    decreases |rs|
  {
    if rs[0].keyLabel != key {
      LookupFinds(rs[1..], key);
    }
  }

  lemma SameKeySameRecord(rs: seq<Record>, a: Record, b: Record)
    requires OneEach(rs) && a in rs && b in rs && a.keyLabel == b.keyLabel
    ensures a == b
  {
  }

  /** What a step adds is the record it was asked to store. */
  lemma StepAddsOnlyIts(rs: seq<Record>, op: Op, max: int, retention: int, x: Record)
    requires OneEach(rs) && max >= 1 && |rs| <= max && x in Apply(rs, op, max, retention) && x !in rs
    ensures op.PutOp? && x == op.record && Accepts(rs, op.record, retention)
  {
    match op {
      case PutOp(r) => PutOk(rs, r, max, retention);
      case GetOp(key, _) => DropKeyOk(rs, key);
    }
  }

  /** Over any stretch of a run in which a key stays stored, its packet never goes back in recency. */
  lemma {:induction false} RunKeepsRecency(ops: seq<Op>, i: nat, j: nat, max: int, retention: int, key: string)
    requires max >= 1 && i <= j <= |ops|
    requires forall m :: i <= m <= j ==> Lookup(After([], ops[..m], max, retention), key).Some?
    ensures !MoreRecentThan(Lookup(After([], ops[..i], max, retention), key).value.packet,
                            Lookup(After([], ops[..j], max, retention), key).value.packet)
    decreases j
  {
    var first := Lookup(After([], ops[..i], max, retention), key).value.packet;
    RecencyIsOrder(first, first, first);
    if i < j {
      var mid := Lookup(After([], ops[..j - 1], max, retention), key).value.packet;
      var last := Lookup(After([], ops[..j], max, retention), key).value.packet;
      RunKeepsRecency(ops, i, j - 1, max, retention, key);
      RunOk(ops[..j - 1], max, retention);
      assert ops[..j][..j - 1] == ops[..j - 1];
      StepKeepsRecency(After([], ops[..j - 1], max, retention), ops[j - 1], max, retention, key);
      NotMoreRecent(first, mid, last);
    }
  }

  lemma NotMoreRecent(a: Packet, b: Packet, c: Packet)
    requires !MoreRecentThan(a, b) && !MoreRecentThan(b, c)
    ensures !MoreRecentThan(a, c)
  {
    RecencyIsOrder(a, b, c);
    RecencyIsOrder(b, c, a);
    RecencyIsOrder(a, c, b);
  }
}

/**
 The last-writer-wins set behind MemoryStore.putEntry (docs/store.go): an entry
 shadows every entry of the same author at or below its key whose record is not newer.
 */
module DocsCrdt {
  import opened DocsEntry

  predicate HasEntryPrefix(id: RecordIdentifier, prefix: RecordIdentifier)
  {
    id.namespace == prefix.namespace && id.author == prefix.author && prefix.key <= id.key
  }

  predicate Shadows(a: Entry, b: Entry)
  {
    HasEntryPrefix(b.id, a.id) && a.record.CompareTo(b.record) >= 0
  }

  /** What a store holds: no entry shadows another. */
  predicate Antichain(s: set<Entry>)
  {
    forall a, b :: a in s && b in s && Shadows(a, b) ==> a == b
  }

  type Store = s: set<Entry> | Antichain(s) witness {}

  /** The reference meaning of a history of offers. */
  function Maximal(s: set<Entry>): (m: Store)
  {
    set e | e in s && forall x :: x in s && Shadows(x, e) ==> x == e
  }

  predicate Shadowed(s: set<Entry>, e: Entry)
  {
    exists x :: x in s && Shadows(x, e)
  }

  function Insert(s: Store, e: Entry): (t: Store)
  {
    ShadowsOrderAll();
    if Shadowed(s, e) then s else (set x | x in s && !Shadows(e, x)) + {e}
  }

  function InsertAll(s: Store, offers: seq<Entry>): (t: Store)
  {
    if offers == [] then s else Insert(InsertAll(s, offers[..|offers| - 1]), offers[|offers| - 1])
  }

  /** Shadowing is a partial order. */
  lemma ShadowsIsPartialOrder(a: Entry, b: Entry, c: Entry)
    ensures Shadows(a, a)
    ensures Shadows(a, b) && Shadows(b, a) ==> a == b
    ensures Shadows(a, b) && Shadows(b, c) ==> Shadows(a, c)
  {
    RecordOrder(a.record, b.record, c.record);
    RecordOrder(a.record, a.record, a.record);
    RecordOrder(b.record, a.record, a.record);
  }

  lemma ShadowsOrderAll()
    ensures forall a :: Shadows(a, a)
    ensures forall a, b :: Shadows(a, b) && Shadows(b, a) ==> a == b
    ensures forall a, b, c :: Shadows(a, b) && Shadows(b, c) ==> Shadows(a, c)
  {
    forall a: Entry, b: Entry, c: Entry
      ensures Shadows(a, a)
      ensures Shadows(a, b) && Shadows(b, a) ==> a == b
      ensures Shadows(a, b) && Shadows(b, c) ==> Shadows(a, c)
    {
      ShadowsIsPartialOrder(a, b, c);
    }
  }

  /** Every offer is shadowed by a maximal one. */
  lemma {:induction false} ShadowedByMaximal(s: set<Entry>, e: Entry) returns (m: Entry)
    requires e in s
    ensures m in Maximal(s) && Shadows(m, e)
    decreases |s|
  {
    ShadowsOrderAll();
    m := e;
    if e !in Maximal(s) {
      var x :| x in s && Shadows(x, e) && x != e;
      var rest := s - {e};
      m := ShadowedByMaximal(rest, x);
      assert Shadows(m, e);
      assert m in Maximal(s);
    }
  }

  /** Inserting into the maximal elements is the same as taking the maximal elements afterwards. */
  lemma InsertIsMaximal(s: set<Entry>, e: Entry)
    ensures Insert(Maximal(s), e) == Maximal(s + {e})
  {
    ShadowsOrderAll();
    var m := Maximal(s);
    if Shadowed(m, e) {
      forall x | x in s + {e}
        ensures x in m <==> x in Maximal(s + {e})
      {
        if x in m && Shadows(e, x) {
          var y :| y in m && Shadows(y, e);
          assert Shadows(y, x);
        }
      }
    } else {
      if x :| x in s && Shadows(x, e) {
        var y := ShadowedByMaximal(s, x);
        assert false;
      }
    }
  }

  /**
   The store is a CRDT: whatever the order and repetition of the offers, the held
   set is the set of maximal offers.
   */
  lemma {:induction false} InsertAllIsMaximal(s: Store, offers: seq<Entry>)
    ensures InsertAll(s, offers) == Maximal(s + (set e | e in offers))
    decreases |offers|
  {
    if offers == [] {
      assert s + (set e | e in offers) == s;
    } else {
      var init, last := offers[..|offers| - 1], offers[|offers| - 1];
      InsertAllIsMaximal(s, init);
      InsertIsMaximal(s + (set e | e in init), last);
      assert offers == init + [last];
      assert s + (set e | e in offers) == s + (set e | e in init) + {last};
    }
  }

  /** Two replicas offered the same entries hold the same set. */
  lemma ReplicasAgree(offersA: seq<Entry>, offersB: seq<Entry>)
    requires (set e | e in offersA) == (set e | e in offersB)
    ensures InsertAll({}, offersA) == InsertAll({}, offersB)
  {
    InsertAllIsMaximal({}, offersA);
    InsertAllIsMaximal({}, offersB);
  }

  /** An accepted insert changes the size by one minus the number of entries it shadows. */
  lemma InsertSize(s: Store, e: Entry)
    requires !Shadowed(s, e)
    ensures |Insert(s, e)| == |s| + 1 - |set x | x in s && Shadows(e, x)|
  {
    ShadowsOrderAll();
    var dropped := set x | x in s && Shadows(e, x);
    assert (set x | x in s && !Shadows(e, x)) == s - dropped;
  }

  /** A held strict descendant is strictly newer than its held ancestors. */
  lemma DescendantsAreNewer(s: Store, ancestor: Entry, descendant: Entry)
    requires ancestor in s && descendant in s && ancestor != descendant
    requires HasEntryPrefix(descendant.id, ancestor.id)
    ensures descendant.record.CompareTo(ancestor.record) > 0
    ensures descendant.id != ancestor.id
  {
    RecordOrder(ancestor.record, descendant.record, descendant.record);
    if descendant.id == ancestor.id {
      assert Shadows(descendant, ancestor);
    }
  }
}

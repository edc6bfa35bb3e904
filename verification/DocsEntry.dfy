/** Document entries and their orders (docs/entry.go). */
module DocsEntry {
  import opened Bytes

  datatype RecordIdentifier = RecordIdentifier(namespace: Bytes32, author: Bytes32, key: seq<Byte>) {

    /** The wire form, which is also the store's map key. */
    function Bytes(): (b: seq<Byte>)
    {
      namespace + author + key
    }

    function CompareTo(other: RecordIdentifier): (c: int)
    {
      Compare(Bytes(), other.Bytes())
    }
  }

  /** Content length and signatures are left out: no comparison and no fingerprint sees them. */
  datatype Record = Record(hash: Bytes32, timestamp: nat) {

    function CompareTo(other: Record): (c: int)
    {
      if timestamp < other.timestamp then -1
      else if timestamp > other.timestamp then 1
      else Compare(hash, other.hash)
    }
  }

  datatype Entry = Entry(id: RecordIdentifier, record: Record)

  predicate Before(a: RecordIdentifier, b: RecordIdentifier)
  {
    a.CompareTo(b) < 0
  }

  /** The fixed-width fields make the wire form injective. */
  lemma BytesInjective(a: RecordIdentifier, b: RecordIdentifier)
    requires a.Bytes() == b.Bytes()
    ensures a == b
  {
    assert a.Bytes()[..32] == a.namespace && b.Bytes()[..32] == b.namespace;
    assert a.Bytes()[32..64] == a.author && b.Bytes()[32..64] == b.author;
    assert a.Bytes()[64..] == a.key && b.Bytes()[64..] == b.key;
  }

  /** Identifiers are totally ordered, and comparing equal means being equal. */
  lemma IdentifierOrder(a: RecordIdentifier, b: RecordIdentifier, c: RecordIdentifier)
    ensures a.CompareTo(b) == 0 <==> a == b
    ensures b.CompareTo(a) == -a.CompareTo(b)
    ensures Before(a, b) && Before(b, c) ==> Before(a, c)
  {
    CompareIsOrder(a.Bytes(), b.Bytes());
    if a.Bytes() == b.Bytes() {
      BytesInjective(a, b);
    }
    if Before(a, b) && Before(b, c) {
      CompareTransitive(a.Bytes(), b.Bytes(), c.Bytes());
    }
  }

  /** IdentifierOrder for every triple at once. */
  lemma IdentifierOrderAll()
    ensures forall a, b :: Before(a, b) <==> !Before(b, a) && a != b
    ensures forall a, b, c :: Before(a, b) && Before(b, c) ==> Before(a, c)
  {
    forall a: RecordIdentifier, b: RecordIdentifier, c: RecordIdentifier
      ensures Before(a, b) <==> !Before(b, a) && a != b
      ensures Before(a, b) && Before(b, c) ==> Before(a, c)
    {
      IdentifierOrder(a, b, c);
    }
  }

  /** Records are totally ordered by timestamp, then content hash. */
  lemma RecordOrder(a: Record, b: Record, c: Record)
    ensures a.CompareTo(b) == 0 <==> a == b
    ensures b.CompareTo(a) == -a.CompareTo(b)
    ensures a.CompareTo(b) >= 0 && b.CompareTo(c) >= 0 ==> a.CompareTo(c) >= 0
  {
    CompareIsOrder(a.hash, b.hash);
    CompareIsOrder(b.hash, c.hash);
    CompareIsOrder(a.hash, c.hash);
    if Compare(c.hash, b.hash) <= 0 && Compare(b.hash, a.hash) <= 0 {
      CompareTransitive(c.hash, b.hash, a.hash);
    }
  }
}

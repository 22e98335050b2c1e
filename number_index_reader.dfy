/**
 * The read side of the native numeric schema index: a reader that turns one
 * predicate into a pair of tree keys, opens a seek over the tree between them,
 * and keeps every cursor it opened in a set so that closing the reader closes
 * them all.
 *
 * The tree itself is a function `seek(from, to)` giving either the finite
 * sequence of hits between the two keys or an I/O failure. Property values are
 * of an abstract type `V`. The key setters `from`, `initAsLowest` and
 * `initAsHighest` change only what their names say: in particular none of them
 * touches `entityIdIsSpecialTieBreaker`, which only a range query assigns.
 */
module SchemaNumberIndex {
  import opened JavaPrimitives

  /** Whether a key holds an (entity id, values) position or is the lowest or highest possible key. */
  datatype Marker = Regular | Lowest | Highest

  /** A tree key, as the reader's two reusable key objects hold it. */
  datatype SchemaNumberKey<V> = SchemaNumberKey(
    entityId: Long,
    values: seq<V>,
    marker: Marker,
    entityIdIsSpecialTieBreaker: bool)

  /** key.from(entityId, values). */
  function From<V>(key: SchemaNumberKey<V>, entityId: Long, values: seq<V>): SchemaNumberKey<V>
  {
    key.(entityId := entityId, values := values, marker := Regular)
  }

  /** key.initAsLowest(). */
  function InitAsLowest<V>(key: SchemaNumberKey<V>): SchemaNumberKey<V>
  {
    key.(marker := Lowest)
  }

  /** key.initAsHighest(). */
  function InitAsHighest<V>(key: SchemaNumberKey<V>): SchemaNumberKey<V>
  {
    key.(marker := Highest)
  }

  /** One entry the tree yields during a seek; the payload beside the key is not used here. */
  datatype Hit<V> = Hit(key: SchemaNumberKey<V>)

  /** What a seek on the tree gives: the hits between the two keys, or an IOException. */
  datatype SeekResult<V> = Hits(hits: seq<Hit<V>>) | IOError

  /** The predicates a query may carry; OtherQuery is any other IndexQuery type. */
  datatype IndexQuery<V> =
    | Exists
    | Exact(value: V)
    | RangeNumeric(from: V, fromInclusive: bool, to: V, toInclusive: bool)
    | OtherQuery(queryType: string)

  /** The exceptions the reader raises. */
  datatype ReaderError =
    | UnsupportedOperation       // UnsupportedOperationException
    | IllegalArgument(message: string)  // IllegalArgumentException
    | UncheckedIO                // UncheckedIOException wrapping an IOException

  datatype Result<T> = Success(value: T) | Failure(error: ReaderError)

  datatype Outcome = Pass | Fail(error: ReaderError)

  /**
   * The (from, to) keys a supported predicate sets up, given the keys as they
   * were before the query: the specification of the field writes that
   * NativeSchemaNumberIndexReader.Query performs one setter at a time.
   */
  function KeyRange<V>(query: IndexQuery<V>, from: SchemaNumberKey<V>, to: SchemaNumberKey<V>)
    : (range: (SchemaNumberKey<V>, SchemaNumberKey<V>))
    requires !query.OtherQuery?
    // exists: everything from the lowest to the highest key
    ensures query.Exists? ==> range.0.marker == Lowest && range.1.marker == Highest
    // exact: the value alone, across the whole entity id range
    ensures query.Exact? ==>
      && range.0.marker == Regular && range.1.marker == Regular
      && range.0.values == [query.value] && range.1.values == [query.value]
      && range.0.entityId == MinLong && range.1.entityId == MaxLong
    // range: the bounds, with tie-breaking entity ids that include or exclude them
    ensures query.RangeNumeric? ==>
      && range.0.marker == Regular && range.1.marker == Regular
      && range.0.values == [query.from] && range.1.values == [query.to]
      && range.0.entityIdIsSpecialTieBreaker && range.1.entityIdIsSpecialTieBreaker
      && (range.0.entityId == MinLong <==> query.fromInclusive)
      && (range.0.entityId == MaxLong <==> !query.fromInclusive)
      && (range.1.entityId == MaxLong <==> query.toInclusive)
      && (range.1.entityId == MinLong <==> !query.toInclusive)
    // the tie-breaker flag is set by a range query and otherwise kept as it was
    ensures range.0.entityIdIsSpecialTieBreaker == (query.RangeNumeric? || from.entityIdIsSpecialTieBreaker)
    ensures range.1.entityIdIsSpecialTieBreaker == (query.RangeNumeric? || to.entityIdIsSpecialTieBreaker)
    // a non-extreme key keeps nothing of what the key held before but the flag
    ensures !query.Exists? ==> range.0.marker == Regular && range.1.marker == Regular
  {
    match query
    case Exists => (InitAsLowest(from), InitAsHighest(to))
    case Exact(value) => (From(from, MinLong, [value]), From(to, MaxLong, [value]))
    case RangeNumeric(lo, loInclusive, hi, hiInclusive) =>
      (From(from, if loInclusive then MinLong else MaxLong, [lo]).(entityIdIsSpecialTieBreaker := true),
       From(to, if hiInclusive then MaxLong else MinLong, [hi]).(entityIdIsSpecialTieBreaker := true))
  }

  /**
   * The number of hits whose key carries the given entity id.
   */
  function CountMatching<V>(hits: seq<Hit<V>>, nodeId: Long): (count: nat)
    ensures count <= |hits|
  {
    if hits == [] then 0
    else CountMatching(hits[..|hits| - 1], nodeId) + (if hits[|hits| - 1].key.entityId == nodeId then 1 else 0)
  }

  /** The count is 0 exactly when no hit matches, and the number of hits exactly when all of them match. */
  lemma {:induction false} CountMatchingExtremes<V>(hits: seq<Hit<V>>, nodeId: Long)
    ensures CountMatching(hits, nodeId) == 0 <==> forall i :: 0 <= i < |hits| ==> hits[i].key.entityId != nodeId
    ensures CountMatching(hits, nodeId) == |hits| <==> forall i :: 0 <= i < |hits| ==> hits[i].key.entityId == nodeId
  {
    if hits != [] {
      var prefix := hits[..|hits| - 1];
      CountMatchingExtremes(prefix, nodeId);
      assert forall i :: 0 <= i < |prefix| ==> prefix[i] == hits[i];
    }
  }

  /** An open cursor over the hits of one seek. */
  class Seeker<V> {
    const hits: seq<Hit<V>>
    /** How many times close() has been called on this cursor. */
    var closeCalls: nat

    constructor (hits: seq<Hit<V>>)
      ensures this.hits == hits && closeCalls == 0
    {
      this.hits := hits;
      closeCalls := 0;
    }
  }

  class NativeSchemaNumberIndexReader<V> {
    /** The tree's seek. */
    const seek: (SchemaNumberKey<V>, SchemaNumberKey<V>) -> SeekResult<V>
    var treeKeyFrom: SchemaNumberKey<V>
    var treeKeyTo: SchemaNumberKey<V>
    var openSeekers: set<Seeker<V>>
    /** Every cursor a query of this reader has issued. */
    ghost var issued: set<Seeker<V>>

    /** No cursor leaks: every cursor issued by a query is still registered or has been closed. */
    ghost predicate Valid()
      reads this, issued
    {
      && openSeekers <= issued
      && forall s :: s in issued && s !in openSeekers ==> s.closeCalls > 0
    }

    constructor (seek: (SchemaNumberKey<V>, SchemaNumberKey<V>) -> SeekResult<V>, newKey: SchemaNumberKey<V>)
      ensures Valid()
      ensures this.seek == seek && treeKeyFrom == newKey && treeKeyTo == newKey
      ensures openSeekers == {} && issued == {}
    {
      this.seek := seek;
      treeKeyFrom := newKey;
      treeKeyTo := newKey;
      openSeekers := {};
      issued := {};
    }

    /** close(): close every registered cursor. */
    method Close(ioFailures: set<Seeker<V>>) returns (r: Outcome)
      requires Valid()
      modifies this`openSeekers, openSeekers
      ensures Valid()
      ensures forall s :: s in old(openSeekers) ==> s.closeCalls == old(s.closeCalls) + 1
      ensures r == if old(openSeekers) * ioFailures == {} then Pass else Fail(UncheckedIO)
      ensures r.Pass? ==> openSeekers == {}
      ensures r.Fail? ==> openSeekers == old(openSeekers)
    {
      r := EnsureOpenSeekersClosed(ioFailures);
    }

    /** hasFullNumberPrecision(). */
    function HasFullNumberPrecision(): (r: bool)
      ensures r
    {
      true
    }

    /**
     * countIndexedNodes(nodeId, propertyValues): seek between two keys at this
     * node and these values, and count the hits whose entity id is the node's.
     * No cursor object is created or registered: the seek's hits are read once.
     */
    method CountIndexedNodes(nodeId: Long, propertyValues: seq<V>) returns (r: Result<nat>)
      requires Valid()
      modifies this`treeKeyFrom, this`treeKeyTo
      ensures Valid()
      ensures openSeekers == old(openSeekers)
      ensures treeKeyFrom == From(old(treeKeyFrom), nodeId, propertyValues)
      ensures treeKeyTo == From(old(treeKeyTo), nodeId, propertyValues)
      ensures seek(treeKeyFrom, treeKeyTo).Hits? ==>
        r == Success(CountMatching(seek(treeKeyFrom, treeKeyTo).hits, nodeId))
      ensures seek(treeKeyFrom, treeKeyTo).IOError? ==> r == Failure(UncheckedIO)
    {
      treeKeyFrom := From(treeKeyFrom, nodeId, propertyValues);
      treeKeyTo := From(treeKeyTo, nodeId, propertyValues);
      var seeker := seek(treeKeyFrom, treeKeyTo);
      if seeker.IOError? {
        return Failure(UncheckedIO);
      }
      var hits := seeker.hits;
      var count := 0;
      var i := 0;
      while i < |hits|
        invariant 0 <= i <= |hits|
        invariant count == CountMatching(hits[..i], nodeId)
      {
        if hits[i].key.entityId == nodeId {
          count := count + 1;
        }
        assert hits[..i + 1][..i] == hits[..i];
        i := i + 1;
      }
      assert hits[..|hits|] == hits;
      r := Success(count);
    }

    /**
     * query(predicates): exactly one predicate of a supported type sets up the
     * two keys and opens a registered seek between them.
     */
    method Query(predicates: seq<IndexQuery<V>>) returns (r: Result<Seeker<V>>)
      requires Valid()
      modifies this
      ensures Valid()
      ensures |predicates| != 1 ==> r == Failure(UnsupportedOperation) && unchanged(this)
      ensures |predicates| == 1 && predicates[0].OtherQuery? ==>
        && r == Failure(IllegalArgument("IndexQuery of type " + predicates[0].queryType + " is not supported."))
        && unchanged(this)
      ensures |predicates| == 1 && !predicates[0].OtherQuery? ==>
        (treeKeyFrom, treeKeyTo) == KeyRange(predicates[0], old(treeKeyFrom), old(treeKeyTo))
      ensures r.Success? <==>
        |predicates| == 1 && !predicates[0].OtherQuery? && seek(treeKeyFrom, treeKeyTo).Hits?
      ensures r.Success? ==>
        && fresh(r.value)
        && r.value.hits == seek(treeKeyFrom, treeKeyTo).hits
        && r.value.closeCalls == 0
        && openSeekers == old(openSeekers) + {r.value}
        && issued == old(issued) + {r.value}
      ensures |predicates| == 1 && !predicates[0].OtherQuery? && seek(treeKeyFrom, treeKeyTo).IOError? ==>
        r == Failure(UncheckedIO)
      ensures r.Failure? ==> openSeekers == old(openSeekers) && issued == old(issued)
    {
      if |predicates| != 1 {
        return Failure(UnsupportedOperation);
      }
      var query := predicates[0];
      match query
      case Exists =>
        treeKeyFrom := InitAsLowest(treeKeyFrom);
        treeKeyTo := InitAsHighest(treeKeyTo);
        r := StartSeekForInitializedRange();
      case Exact(value) =>
        var values := [value];
        treeKeyFrom := From(treeKeyFrom, MinLong, values);
        treeKeyTo := From(treeKeyTo, MaxLong, values);
        r := StartSeekForInitializedRange();
      case RangeNumeric(from, fromInclusive, to, toInclusive) =>
        treeKeyFrom := From(treeKeyFrom, if fromInclusive then MinLong else MaxLong, [from]);
        treeKeyFrom := treeKeyFrom.(entityIdIsSpecialTieBreaker := true);
        treeKeyTo := From(treeKeyTo, if toInclusive then MaxLong else MinLong, [to]);
        treeKeyTo := treeKeyTo.(entityIdIsSpecialTieBreaker := true);
        r := StartSeekForInitializedRange();
      case OtherQuery(queryType) =>
        r := Failure(IllegalArgument("IndexQuery of type " + queryType + " is not supported."));
    }

    /** startSeekForInitializedRange(): seek between the current keys and register the cursor. */
    method StartSeekForInitializedRange() returns (r: Result<Seeker<V>>)
      requires Valid()
      modifies this`openSeekers, this`issued
      ensures Valid()
      ensures seek(treeKeyFrom, treeKeyTo).Hits? ==>
        && r.Success? && fresh(r.value)
        && r.value.hits == seek(treeKeyFrom, treeKeyTo).hits
        && r.value.closeCalls == 0
        && openSeekers == old(openSeekers) + {r.value}
        && issued == old(issued) + {r.value}
      ensures seek(treeKeyFrom, treeKeyTo).IOError? ==>
        r == Failure(UncheckedIO) && openSeekers == old(openSeekers) && issued == old(issued)
    {
      var found := seek(treeKeyFrom, treeKeyTo);
      if found.IOError? {
        return Failure(UncheckedIO);
      }
      var seeker := new Seeker(found.hits);
      openSeekers := openSeekers + {seeker};
      issued := issued + {seeker};
      r := Success(seeker);
    }

    /**
     * ensureOpenSeekersClosed(): close every registered cursor, even after one
     * of them fails, then forget them all; a failure skips the clearing.
     * `ioFailures` are the cursors whose close throws an IOException.
     */
    method EnsureOpenSeekersClosed(ioFailures: set<Seeker<V>>) returns (r: Outcome)
      requires Valid()
      modifies this`openSeekers, openSeekers
      ensures Valid()
      ensures forall s :: s in old(openSeekers) ==> s.closeCalls == old(s.closeCalls) + 1
      ensures r == if old(openSeekers) * ioFailures == {} then Pass else Fail(UncheckedIO)
      ensures r.Pass? ==> openSeekers == {}
      ensures r.Fail? ==> openSeekers == old(openSeekers)
    {
      var remaining := openSeekers;
      var failed := false;
      while remaining != {}
        invariant remaining <= openSeekers
        invariant openSeekers == old(openSeekers)
        invariant forall s :: s in openSeekers && s !in remaining ==> s.closeCalls == old(s.closeCalls) + 1
        invariant forall s :: s in remaining ==> s.closeCalls == old(s.closeCalls)
        invariant failed <==> exists s :: s in openSeekers && s !in remaining && s in ioFailures
        decreases remaining
      {
        var seeker :| seeker in remaining;
        seeker.closeCalls := seeker.closeCalls + 1;
        failed := failed || seeker in ioFailures;
        remaining := remaining - {seeker};
      }
      if failed {
        assert exists s :: s in openSeekers && s in ioFailures;
        r := Fail(UncheckedIO);
      } else {
        openSeekers := {};
        r := Pass;
      }
    }
  }

  /**
   * Closing a reader twice with no I/O failure closes each cursor exactly once:
   * the second close finds nothing registered.
   */
  method CloseTwice<V>(reader: NativeSchemaNumberIndexReader<V>) returns (first: Outcome, second: Outcome)
    requires reader.Valid()
    modifies reader, reader.openSeekers
    ensures reader.Valid()
    ensures first == Pass && second == Pass
    ensures reader.openSeekers == {}
    ensures forall s :: s in old(reader.openSeekers) ==> s.closeCalls == old(s.closeCalls) + 1
  {
    first := reader.Close({});
    second := reader.Close({});
  }

  /**
   * A close that fails keeps every cursor registered, the ones that closed
   * cleanly included, so the next close closes each of them a second time.
   */
  method CloseAfterFailedClose<V>(reader: NativeSchemaNumberIndexReader<V>, failing: Seeker<V>)
    returns (first: Outcome, second: Outcome)
    requires reader.Valid()
    requires failing in reader.openSeekers
    modifies reader, reader.openSeekers
    ensures first == Fail(UncheckedIO) && second == Pass
    ensures reader.openSeekers == {}
    ensures forall s :: s in old(reader.openSeekers) ==> s.closeCalls == old(s.closeCalls) + 2
  {
    first := reader.Close({failing});
    second := reader.Close({});
  }
}

/**
 * Index ranges over the Raft log and their translation to ranges over sled
 * keys (`transform_range_bound` and `serialize_bound` in
 * Storage/src/store/mod.rs). sled compares keys byte by byte; a range over
 * `u64` indices is turned into a range over their big-endian encodings.
 */
module LogRange {
  import opened Common
  import opened BigEndian

  datatype Bound<+T> = Included(v: T) | Excluded(v: T) | Unbounded

  /**
   * One end of an index range as a key bound: the same kind of bound, on
   * the eight bytes that decode back to the index.
   */
  function SerializeBound(b: Bound<u64>): (r: Bound<Bytes>)
    ensures r.Included? <==> b.Included?
    ensures r.Excluded? <==> b.Excluded?
    ensures r.Unbounded? <==> b.Unbounded?
    ensures !b.Unbounded? ==> |r.v| == 8 && BeValue(r.v) == b.v
  {
    match b
    case Included(v) =>
      assert Pow256(8) == U64_LIMIT;
      BeRoundTrip(v, 8);
      Included(KeyOf(v))
    case Excluded(v) =>
      assert Pow256(8) == U64_LIMIT;
      BeRoundTrip(v, 8);
      Excluded(KeyOf(v))
    case Unbounded => Unbounded
  }

  function TransformRangeBound(start: Bound<u64>, end: Bound<u64>): (Bound<Bytes>, Bound<Bytes>) {
    (SerializeBound(start), SerializeBound(end))
  }

  /** `RangeBounds::contains` on indices. */
  predicate InIndexRange(i: u64, start: Bound<u64>, end: Bound<u64>) {
    && (match start
        case Included(s) => s <= i
        case Excluded(s) => s < i
        case Unbounded => true)
    && (match end
        case Included(e) => i <= e
        case Excluded(e) => i < e
        case Unbounded => true)
  }

  /** Membership of a key in a sled range, under sled's byte order. */
  predicate InKeyRange(k: Bytes, start: Bound<Bytes>, end: Bound<Bytes>) {
    && (match start
        case Included(s) => !LexLess(k, s)
        case Excluded(s) => LexLess(s, k)
        case Unbounded => true)
    && (match end
        case Included(e) => !LexLess(e, k)
        case Excluded(e) => LexLess(k, e)
        case Unbounded => true)
  }

  /**
   * The key of an index falls in the transformed range exactly when the
   * index falls in the original range.
   */
  lemma KeyRangeMatchesIndexRange(i: u64, start: Bound<u64>, end: Bound<u64>)
    ensures var (lo, hi) := TransformRangeBound(start, end);
            InKeyRange(KeyOf(i), lo, hi) <==> InIndexRange(i, start, end)
  {
    if !start.Unbounded? {
      KeyOrder(i, start.v);
      KeyOrder(start.v, i);
    }
    if !end.Unbounded? {
      KeyOrder(i, end.v);
      KeyOrder(end.v, i);
    }
  }
}

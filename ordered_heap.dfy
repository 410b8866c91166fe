/**
 * A named, score-ordered heap of serialized values kept in one Redis sorted
 * set. Values are stored as their serialized bytes with an integer score
 * (the caller's timestamp truncated to whole seconds); reads hand back the
 * deserialized values.
 */
module OrderedHeaps {
  import opened Wrappers
  import opened SortedSet

  /** The default LIMIT of the range reads. */
  const NO_LIMIT := 1_000_000

  /** The serializer's promise: what is dumped loads back equal. */
  ghost predicate RoundTrips<V(!new)>(dump: V -> Bytes, load: Bytes -> V)
  {
    forall v :: load(dump(v)) == v
  }

  /** Every member of the set is the dump of a value, namely of the value it loads as. */
  ghost predicate Encodes<V>(dump: V -> Bytes, load: Bytes -> V, s: seq<Member>)
  {
    forall m | m in s :: dump(load(m.data)) == m.data
  }

  /** The values a sequence of members deserializes to, in the same order. */
  function Decoded<V>(load: Bytes -> V, ms: seq<Member>): seq<V>
  {
    seq(|ms|, i requires 0 <= i < |ms| => load(ms[i].data))
  }

  class OrderedHeap<V(!new)> {
    /** The key of the sorted set in Redis. */
    const name: Option<string>
    const dump: V -> Bytes
    const load: Bytes -> V
    /** The sorted set stored under `name`. */
    var zset: seq<Member>

    ghost predicate Valid()
      reads this
    {
      && SortedSet.Valid(zset)
      && RoundTrips(dump, load)
      && Encodes(dump, load, zset)
    }

    /** Attaches to the sorted set `stored` already held under `name`. */
    constructor (name: Option<string>, dump: V -> Bytes, load: Bytes -> V, stored: seq<Member>)
      requires SortedSet.Valid(stored) && RoundTrips(dump, load) && Encodes(dump, load, stored)
      ensures Valid()
      ensures this.name == name && this.dump == dump && this.load == load
      ensures zset == stored
    {
      this.name := name;
      this.dump := dump;
      this.load := load;
      zset := stored;
    }

    /** ZCARD: the number of distinct values stored. */
    function Count(): (c: nat)
      reads this
      requires Valid()
      ensures c == |Datas(zset)|
    {
      CardIsDistinctMembers(zset);
      |zset|
    }

    /**
     * ZADD of the serialized value at `score`; `added` is ZADD's reply, true
     * when the value was not stored before (otherwise it only moves).
     */
    method Add(score: int, value: V) returns (added: bool)
      requires Valid()
      modifies this
      ensures Valid()
      ensures zset == ZAdd(old(zset), score, dump(value))
      ensures added <==> dump(value) !in Datas(old(zset))
      ensures Count() == if added then old(Count()) + 1 else old(Count())
    {
      added := dump(value) !in Datas(zset);
      ghost var before := zset;
      ZAddSpec(zset, score, dump(value));
      zset := ZAdd(zset, score, dump(value));
      CardIsDistinctMembers(before);
      CardIsDistinctMembers(zset);
      forall m | m in zset ensures dump(load(m.data)) == m.data {
        if m.data == dump(value) {
          assert load(dump(value)) == value;
        } else {
          assert m in before;
        }
      }
    }

    /**
     * ZRANGEBYSCORE name lo hi LIMIT 0 limit, deserialized. It reads only:
     * two reads in a row return the same values.
     */
    method Range(lo: int, hi: int, limit: int := NO_LIMIT) returns (r: seq<V>)
      requires Valid()
      ensures r == Decoded(load, RangeByScore(zset, lo, hi, limit))
      ensures 0 <= limit ==> |r| <= limit
      ensures forall v | v in r :: dump(v) in Datas(Matching(zset, lo, hi))
    {
      var t := RangeByScore(zset, lo, hi, limit);
      RangeByScoreSpec(zset, lo, hi, limit);
      r := Decoded(load, t);
      forall v | v in r ensures dump(v) in Datas(Matching(zset, lo, hi)) {
        var i :| 0 <= i < |r| && r[i] == v;
        assert t[i] in zset;
        assert t[i] in Matching(zset, lo, hi);
      }
    }

    /**
     * `range!`: the range read, then ZREM of exactly the members it returned
     * (no ZREM at all when it returned nothing).
     */
    method RangeExtract(lo: int, hi: int, limit: int := NO_LIMIT) returns (r: seq<V>)
      requires Valid()
      modifies this
      ensures Valid()
      ensures r == Decoded(load, RangeByScore(old(zset), lo, hi, limit))
      ensures zset == Extracted(old(zset), lo, hi, limit)
      ensures Count() == old(Count()) - |r|
    {
      var result := RangeByScore(zset, lo, hi, limit);
      ghost var before := zset;
      ExtractSpec(zset, lo, hi, limit);
      if |result| > 0 {
        zset := Without(zset, Datas(result));
      } else {
        ExtractNothing(zset, lo, hi, limit);
      }
      r := Decoded(load, result);
      CardIsDistinctMembers(before);
      CardIsDistinctMembers(zset);
      assert forall m | m in zset :: m in before;
    }

    /** Extracts every value stored at exactly `score`. */
    method Remove(score: int) returns (r: seq<V>)
      requires Valid()
      modifies this
      ensures Valid()
      ensures r == Decoded(load, RangeByScore(old(zset), score, score, NO_LIMIT))
      ensures zset == Extracted(old(zset), score, score, NO_LIMIT)
      ensures Count() == old(Count()) - |r|
    {
      r := RangeExtract(score, score);
    }

    /** ZREMRANGEBYRANK name 0 -1: empties the set and replies how many members went. */
    method Purge() returns (removed: nat)
      requires Valid()
      modifies this
      ensures Valid()
      ensures zset == [] && Count() == 0
      ensures removed == old(Count())
    {
      removed := |zset|;
      CardIsDistinctMembers(zset);
      zset := [];
      assert Datas([]) == {};
    }
  }

  /**
   * The round trip through the heap: a value added at a score inside [lo, hi]
   * comes back, equal, from a range read of [lo, hi], provided the set held
   * fewer members than the limit.
   */
  lemma AddedValueReadBack<V(!new)>(dump: V -> Bytes, load: Bytes -> V, s: seq<Member>,
                                    score: int, v: V, lo: int, hi: int, limit: int)
    requires SortedSet.Valid(s) && RoundTrips(dump, load)
    requires lo <= score <= hi && (limit < 0 || |s| < limit)
    ensures v in Decoded(load, RangeByScore(ZAdd(s, score, dump(v)), lo, hi, limit))
  {
    var z := ZAdd(s, score, dump(v));
    ZAddSpec(s, score, dump(v));
    var all := Matching(z, lo, hi);
    assert RangeByScore(z, lo, hi, limit) == all;
    assert Member(score, dump(v)) in all;
    var i :| 0 <= i < |all| && all[i] == Member(score, dump(v));
    assert Decoded(load, all)[i] == load(dump(v));
  }
}

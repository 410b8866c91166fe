/**
 * The Redis sorted set behind an ordered heap, as the heap uses it: a set of
 * members (serialized payloads), each with an integer score, kept in Redis's
 * order (ascending score, members of equal score compared byte by byte), and
 * the commands the heap sends: ZADD, ZRANGEBYSCORE key lo hi LIMIT 0 n, ZREM,
 * ZREMRANGEBYRANK key 0 -1 and ZCARD.
 */
module SortedSet {

  newtype byte = b: int | 0 <= b < 256
  type Bytes = seq<byte>

  datatype Member = Member(score: int, data: Bytes)

  /*
   * Orders
   */

  /** memcmp order on member bytes; a proper prefix sorts first. */
  predicate LexLess(a: Bytes, b: Bytes)
    decreases |a|
  {
    |b| > 0 && (|a| == 0 || a[0] < b[0] || (a[0] == b[0] && LexLess(a[1..], b[1..])))
  }

  lemma {:induction false} LexLessIrreflexive(a: Bytes)
    ensures !LexLess(a, a)
    decreases |a|
  {
    if |a| > 0 {
      LexLessIrreflexive(a[1..]);
    }
  }

  lemma {:induction false} LexLessTransitive(a: Bytes, b: Bytes, c: Bytes)
    requires LexLess(a, b) && LexLess(b, c)
    ensures LexLess(a, c)
    decreases |a|
  {
    if |a| > 0 && a[0] == b[0] && b[0] == c[0] {
      LexLessTransitive(a[1..], b[1..], c[1..]);
    }
  }

  lemma {:induction false} LexLessTotal(a: Bytes, b: Bytes)
    ensures a == b || LexLess(a, b) || LexLess(b, a)
    decreases |a|
  {
    if |a| > 0 && |b| > 0 && a[0] == b[0] {
      LexLessTotal(a[1..], b[1..]);
      if a[1..] == b[1..] {
        assert a == [a[0]] + a[1..] && b == [b[0]] + b[1..];
      }
    }
  }

  /** `m` comes before `n` in a sorted set. */
  predicate Precedes(m: Member, n: Member)
  {
    m.score < n.score || (m.score == n.score && LexLess(m.data, n.data))
  }

  lemma PrecedesTransitive(m: Member, n: Member, k: Member)
    requires Precedes(m, n) && Precedes(n, k)
    ensures Precedes(m, k)
  {
    if m.score == n.score == k.score {
      LexLessTransitive(m.data, n.data, k.data);
    }
  }

  /** Two different members are always ordered one way or the other. */
  lemma PrecedesTotal(m: Member, n: Member)
    requires m.data != n.data
    ensures Precedes(m, n) || Precedes(n, m)
  {
    LexLessTotal(m.data, n.data);
  }

  /** `m` is before `n` and is another member. */
  predicate Below(m: Member, n: Member)
  {
    Precedes(m, n) && m.data != n.data
  }

  /** What Redis keeps true of a sorted set: members unique, in sorted order. */
  ghost predicate Valid(s: seq<Member>)
  {
    forall i, j | 0 <= i < j < |s| :: Below(s[i], s[j])
  }

  /** The members (payloads) of a sorted set, without their scores. */
  function Datas(s: seq<Member>): set<Bytes>
  {
    set m | m in s :: m.data
  }

  lemma ValidTail(s: seq<Member>)
    requires Valid(s) && |s| > 0
    ensures Valid(s[1..])
    ensures forall n | n in s[1..] :: Below(s[0], n)
  {
    forall n | n in s[1..] ensures Below(s[0], n) {
      var k :| 0 <= k < |s[1..]| && s[1..][k] == n;
      assert s[k + 1] == n;
    }
  }

  lemma ValidCons(x: Member, r: seq<Member>)
    requires Valid(r)
    requires forall n | n in r :: Below(x, n)
    ensures Valid([x] + r)
  {
    var s := [x] + r;
    forall i, j | 0 <= i < j < |s| ensures Below(s[i], s[j]) {
      if i == 0 {
        assert s[j] == r[j - 1];
      } else {
        assert s[i] == r[i - 1] && s[j] == r[j - 1];
      }
    }
  }

  /** In a valid sorted set a payload occurs once, with one score. */
  lemma ValidUnique(s: seq<Member>, m: Member, n: Member)
    requires Valid(s) && m in s && n in s && m.data == n.data
    ensures m == n
  {
    var i :| 0 <= i < |s| && s[i] == m;
    var j :| 0 <= j < |s| && s[j] == n;
  }

  /** ZCARD counts members: a valid sorted set holds as many entries as distinct payloads. */
  lemma {:induction false} CardIsDistinctMembers(s: seq<Member>)
    requires Valid(s)
    ensures |Datas(s)| == |s|
  {
    if s != [] {
      ValidTail(s);
      CardIsDistinctMembers(s[1..]);
      assert s == [s[0]] + s[1..];
      assert Datas(s) == {s[0].data} + Datas(s[1..]);
      assert s[0].data !in Datas(s[1..]);
    }
  }

  /*
   * ZREM and ZADD
   */

  /** ZREM of the payloads `ds`: the set without every member whose payload is in `ds`. */
  function Without(s: seq<Member>, ds: set<Bytes>): (r: seq<Member>)
    ensures forall m {:trigger m in r} :: m in r <==> m in s && m.data !in ds
    ensures |r| <= |s|
  {
    if s == [] then []
    else (if s[0].data in ds then [] else [s[0]]) + Without(s[1..], ds)
  }

  lemma {:induction false} WithoutValid(s: seq<Member>, ds: set<Bytes>)
    requires Valid(s)
    ensures Valid(Without(s, ds))
  {
    if s != [] {
      ValidTail(s);
      WithoutValid(s[1..], ds);
      if s[0].data !in ds {
        ValidCons(s[0], Without(s[1..], ds));
      }
    }
  }

  /** Removing payloads that are not members, or the same members named twice, changes nothing. */
  lemma {:induction false} WithoutCongruent(s: seq<Member>, a: set<Bytes>, b: set<Bytes>)
    requires forall m | m in s :: m.data in a <==> m.data in b
    ensures Without(s, a) == Without(s, b)
  {
    if s != [] {
      WithoutCongruent(s[1..], a, b);
    }
  }

  lemma WithoutNothing(s: seq<Member>)
    ensures Without(s, {}) == s
  {
    if s != [] {
      WithoutNothing(s[1..]);
    }
  }

  /** Removing one payload from a valid sorted set drops exactly one entry when it is a member. */
  lemma {:induction false} WithoutOne(s: seq<Member>, d: Bytes)
    requires Valid(s)
    ensures |Without(s, {d})| == if d in Datas(s) then |s| - 1 else |s|
  {
    if s != [] {
      ValidTail(s);
      WithoutOne(s[1..], d);
      assert s == [s[0]] + s[1..];
      assert Datas(s) == {s[0].data} + Datas(s[1..]);
      if s[0].data == d {
        assert d !in Datas(s[1..]);
      }
    }
  }

  /** Places a member with a fresh payload at its sorted position. */
  function Insert(s: seq<Member>, m: Member): (r: seq<Member>)
    ensures forall n {:trigger n in r} :: n in r <==> n in s || n == m
    ensures |r| == |s| + 1
  {
    if s == [] then [m]
    else if Precedes(s[0], m) then [s[0]] + Insert(s[1..], m)
    else [m] + s
  }

  lemma {:induction false} InsertValid(s: seq<Member>, m: Member)
    requires Valid(s) && m.data !in Datas(s)
    ensures Valid(Insert(s, m))
  {
    if s != [] {
      ValidTail(s);
      if Precedes(s[0], m) {
        InsertValid(s[1..], m);
        ValidCons(s[0], Insert(s[1..], m));
      } else {
        PrecedesTotal(s[0], m);
        forall n | n in s ensures Below(m, n) {
          if n != s[0] {
            assert n in s[1..] by { assert s == [s[0]] + s[1..]; }
            PrecedesTransitive(m, s[0], n);
          }
        }
        ValidCons(m, s);
      }
    }
  }

  /** ZADD key score d: `d` becomes a member with that score; an existing member `d` moves. */
  function ZAdd(s: seq<Member>, score: int, d: Bytes): seq<Member>
  {
    Insert(Without(s, {d}), Member(score, d))
  }

  lemma ZAddSpec(s: seq<Member>, score: int, d: Bytes)
    requires Valid(s)
    ensures Valid(ZAdd(s, score, d))
    ensures forall m {:trigger m in ZAdd(s, score, d)} :: m in ZAdd(s, score, d) <==> m == Member(score, d) || (m in s && m.data != d)
    ensures |ZAdd(s, score, d)| == if d in Datas(s) then |s| else |s| + 1
    ensures Datas(ZAdd(s, score, d)) == Datas(s) + {d}
  {
    WithoutValid(s, {d});
    InsertValid(Without(s, {d}), Member(score, d));
    WithoutOne(s, d);
    var r := ZAdd(s, score, d);
    assert Member(score, d) in r;
    forall e | e in Datas(s) + {d} ensures e in Datas(r) {
      if e != d {
        var m :| m in s && m.data == e;
        assert m in r;
      }
    }
  }

  /*
   * ZRANGEBYSCORE
   */

  /** The members whose score lies in [lo, hi], in set order. */
  function Matching(s: seq<Member>, lo: int, hi: int): (r: seq<Member>)
    ensures forall m {:trigger m in r} :: m in r <==> m in s && lo <= m.score <= hi
    ensures |r| <= |s|
  {
    if s == [] then []
    else (if lo <= s[0].score <= hi then [s[0]] else []) + Matching(s[1..], lo, hi)
  }

  lemma {:induction false} MatchingValid(s: seq<Member>, lo: int, hi: int)
    requires Valid(s)
    ensures Valid(Matching(s, lo, hi))
  {
    if s != [] {
      ValidTail(s);
      MatchingValid(s[1..], lo, hi);
      if lo <= s[0].score <= hi {
        ValidCons(s[0], Matching(s[1..], lo, hi));
      }
    }
  }

  /** LIMIT 0 n: the first n entries; a negative n means all of them. */
  function Take(s: seq<Member>, limit: int): (r: seq<Member>)
  {
    if limit < 0 || |s| <= limit then s else s[..limit]
  }

  /** ZRANGEBYSCORE key lo hi LIMIT 0 limit. */
  function RangeByScore(s: seq<Member>, lo: int, hi: int, limit: int): seq<Member>
  {
    Take(Matching(s, lo, hi), limit)
  }

  /**
   * A range read returns members of the set scored within [lo, hi], in
   * ascending order, at most `limit` of them, and the first ones: every
   * matching member it leaves out comes after everything it returns, and it
   * leaves some out only when the limit was reached.
   */
  lemma RangeByScoreSpec(s: seq<Member>, lo: int, hi: int, limit: int)
    requires Valid(s)
    ensures var r := RangeByScore(s, lo, hi, limit);
      && Valid(r)
      && (forall m | m in r :: m in s && lo <= m.score <= hi)
      && (forall i, j | 0 <= i < j < |r| :: r[i].score <= r[j].score)
      && (0 <= limit ==> |r| <= limit)
      && (forall m | m in s && lo <= m.score <= hi && m !in r :: |r| == limit)
      && (forall m, i | m in s && lo <= m.score <= hi && m !in r && 0 <= i < |r| :: Precedes(r[i], m))
  {
    var all := Matching(s, lo, hi);
    var r := RangeByScore(s, lo, hi, limit);
    MatchingValid(s, lo, hi);
    assert r == all[..|r|];
    forall i, j | 0 <= i < j < |r| ensures Below(r[i], r[j]) {
      assert r[i] == all[i] && r[j] == all[j];
    }
    forall m | m in r ensures m in s && lo <= m.score <= hi {
      assert m in all;
    }
    forall m | m in s && lo <= m.score <= hi && m !in r ensures |r| == limit {
      assert m in all;
    }
    forall m, i | m in s && lo <= m.score <= hi && m !in r && 0 <= i < |r| ensures Precedes(r[i], m) {
      assert m in all;
      var k :| 0 <= k < |all| && all[k] == m;
      assert Below(all[i], all[k]);
    }
  }

  /*
   * ZRANGEBYSCORE followed by ZREM of what it returned
   */

  /**
   * One pass over the set that splits it into the entries a limited range
   * read returns and the entries left behind. It is a proof device: the heap
   * itself reads and then removes.
   */
  ghost function Split(s: seq<Member>, lo: int, hi: int, limit: int): (seq<Member>, seq<Member>)
    decreases |s|
  {
    if s == [] || limit == 0 then ([], s)
    else
      var matches := lo <= s[0].score <= hi;
      var rest := Split(s[1..], lo, hi, if matches then limit - 1 else limit);
      if matches then ([s[0]] + rest.0, rest.1) else (rest.0, [s[0]] + rest.1)
  }

  lemma {:induction false} SplitParts(s: seq<Member>, lo: int, hi: int, limit: int)
    ensures |Split(s, lo, hi, limit).0| + |Split(s, lo, hi, limit).1| == |s|
    ensures forall m | m in Split(s, lo, hi, limit).0 :: m in s
    decreases |s|
  {
    if s != [] && limit != 0 {
      SplitParts(s[1..], lo, hi, if lo <= s[0].score <= hi then limit - 1 else limit);
    }
  }

  /** The entries the pass sets apart are the ones a limited range read returns. */
  lemma {:induction false} SplitTaken(s: seq<Member>, lo: int, hi: int, limit: int)
    ensures Split(s, lo, hi, limit).0 == RangeByScore(s, lo, hi, limit)
    decreases |s|
  {
    if s != [] && limit != 0 {
      var matches := lo <= s[0].score <= hi;
      var limit' := if matches then limit - 1 else limit;
      SplitTaken(s[1..], lo, hi, limit');
      var m' := Matching(s[1..], lo, hi);
      if matches {
        assert Matching(s, lo, hi) == [s[0]] + m';
        if limit < 0 || |m'| + 1 <= limit {
          assert Take(m', limit') == m';
        } else {
          assert Take(m', limit') == m'[..limit - 1];
          assert ([s[0]] + m')[..limit] == [s[0]] + m'[..limit - 1];
        }
      } else {
        assert Matching(s, lo, hi) == m';
      }
    } else if s != [] {
      assert Matching(s, lo, hi)[..0] == [];
    }
  }

  /** What still matches after the pass is what came after the entries set apart. */
  lemma {:induction false} SplitDrain(s: seq<Member>, lo: int, hi: int, limit: int)
    ensures |Split(s, lo, hi, limit).0| <= |Matching(s, lo, hi)|
    ensures Matching(Split(s, lo, hi, limit).1, lo, hi) == Matching(s, lo, hi)[|Split(s, lo, hi, limit).0|..]
    decreases |s|
  {
    SplitTaken(s, lo, hi, limit);
    if s != [] && limit != 0 {
      var matches := lo <= s[0].score <= hi;
      var q := Split(s[1..], lo, hi, if matches then limit - 1 else limit);
      SplitDrain(s[1..], lo, hi, if matches then limit - 1 else limit);
      if matches {
        assert Matching(s, lo, hi) == [s[0]] + Matching(s[1..], lo, hi);
      } else {
        assert Matching([s[0]] + q.1, lo, hi) == Matching(q.1, lo, hi) by {
          assert ([s[0]] + q.1)[1..] == q.1;
        }
      }
    }
  }

  lemma {:induction false} SplitRest(s: seq<Member>, lo: int, hi: int, limit: int)
    requires Valid(s)
    ensures Split(s, lo, hi, limit).1 == Without(s, Datas(Split(s, lo, hi, limit).0))
    decreases |s|
  {
    var p := Split(s, lo, hi, limit);
    if s == [] {
    } else if limit == 0 {
      assert Datas(p.0) == {};
      WithoutNothing(s);
    } else {
      var matches := lo <= s[0].score <= hi;
      var limit' := if matches then limit - 1 else limit;
      var q := Split(s[1..], lo, hi, limit');
      ValidTail(s);
      SplitRest(s[1..], lo, hi, limit');
      SplitParts(s[1..], lo, hi, limit');
      forall n | n in q.0 ensures n.data != s[0].data {
        assert Below(s[0], n);
      }
      assert s[0].data !in Datas(q.0);
      if matches {
        WithoutCongruent(s[1..], Datas(p.0), Datas(q.0));
      } else {
        assert Datas(p.0) == Datas(q.0);
      }
    }
  }

  /**
   * The heap's destructive range read: what ZRANGEBYSCORE returned is removed
   * with ZREM and nothing else is. The set stays valid, its size falls by the
   * number of entries read, and the entries still matching are exactly those
   * that came after the ones read.
   */
  lemma ExtractSpec(s: seq<Member>, lo: int, hi: int, limit: int)
    requires Valid(s)
    ensures var t := RangeByScore(s, lo, hi, limit);
      var r := Without(s, Datas(t));
      && Valid(r)
      && (forall m :: m in r <==> m in s && m !in t)
      && |r| == |s| - |t|
      && Matching(r, lo, hi) == Matching(s, lo, hi)[|t|..]
  {
    var t := RangeByScore(s, lo, hi, limit);
    var r := Without(s, Datas(t));
    SplitParts(s, lo, hi, limit);
    SplitTaken(s, lo, hi, limit);
    SplitDrain(s, lo, hi, limit);
    SplitRest(s, lo, hi, limit);
    WithoutValid(s, Datas(t));
    forall m | m in s && m.data in Datas(t) ensures m in t {
      var n :| n in t && n.data == m.data;
      ValidUnique(s, m, n);
    }
  }

  /** When nothing is read, nothing is removed; with limit 0 nothing is read. */
  lemma ExtractNothing(s: seq<Member>, lo: int, hi: int, limit: int)
    requires RangeByScore(s, lo, hi, limit) == [] || limit == 0
    ensures RangeByScore(s, lo, hi, limit) == []
    ensures Without(s, Datas(RangeByScore(s, lo, hi, limit))) == s
  {
    if limit == 0 {
      assert Matching(s, lo, hi)[..0] == [];
    }
    assert Datas([]) == {};
    WithoutNothing(s);
  }

  /*
   * Draining a range with repeated limited extractions
   */

  function Min(a: int, b: int): int
  {
    if a <= b then a else b
  }

  /** The set after one destructive read of [lo, hi]: ZRANGEBYSCORE, then ZREM of what it returned. */
  ghost function Extracted(s: seq<Member>, lo: int, hi: int, limit: int): seq<Member>
  {
    Without(s, Datas(RangeByScore(s, lo, hi, limit)))
  }

  /** The set after `k` destructive reads of [lo, hi] with the same limit. */
  ghost function Drained(s: seq<Member>, lo: int, hi: int, limit: int, k: nat): seq<Member>
  {
    if k == 0 then s else Extracted(Drained(s, lo, hi, limit, k - 1), lo, hi, limit)
  }

  /** One destructive read on a set whose matching entries are `all[a..]` hands out the next chunk. */
  lemma DrainStep(s: seq<Member>, lo: int, hi: int, limit: int, all: seq<Member>, a: int)
    requires Valid(s) && 0 < limit && 0 <= a <= |all|
    requires Matching(s, lo, hi) == all[a..]
    ensures RangeByScore(s, lo, hi, limit) == all[a..Min(a + limit, |all|)]
    ensures Valid(Extracted(s, lo, hi, limit))
    ensures Matching(Extracted(s, lo, hi, limit), lo, hi) == all[Min(a + limit, |all|)..]
  {
    var m := all[a..];
    var t := RangeByScore(s, lo, hi, limit);
    var e := Min(a + limit, |all|);
    assert t == Take(m, limit);
    if |m| <= limit {
      assert t == m;
    } else {
      assert t == m[..limit];
    }
    assert t == all[a..e] && |t| == e - a;
    ExtractSpec(s, lo, hi, limit);
    assert m[|t|..] == all[e..];
  }

  /** `k * limit`, counted up one read at a time. */
  function Offset(k: nat, limit: nat): nat
  {
    if k == 0 then 0 else Offset(k - 1, limit) + limit
  }

  lemma {:induction false} OffsetIsProduct(k: nat, limit: nat)
    ensures Offset(k, limit) == k * limit
  {
    if k > 0 {
      OffsetIsProduct(k - 1, limit);
    }
  }

  /** Destructive reads keep the set well formed. */
  lemma {:induction false} DrainedValid(s: seq<Member>, lo: int, hi: int, limit: int, k: nat)
    requires Valid(s)
    ensures Valid(Drained(s, lo, hi, limit, k))
  {
    if k > 0 {
      var before := Drained(s, lo, hi, limit, k - 1);
      DrainedValid(s, lo, hi, limit, k - 1);
      WithoutValid(before, Datas(RangeByScore(before, lo, hi, limit)));
    }
  }

  /** After k destructive reads what still matches is `all` without its first k * limit members. */
  lemma {:induction false} DrainFromStart(s: seq<Member>, lo: int, hi: int, limit: nat, k: nat, all: seq<Member>)
    requires Valid(s) && 0 < limit && Matching(s, lo, hi) == all
    ensures Matching(Drained(s, lo, hi, limit, k), lo, hi) == all[Min(Offset(k, limit), |all|)..]
  {
    if k == 0 {
      assert all[0..] == all;
    } else {
      DrainFromStart(s, lo, hi, limit, k - 1, all);
      var before := Drained(s, lo, hi, limit, k - 1);
      var a := Min(Offset(k - 1, limit), |all|);
      assert Min(a + limit, |all|) == Min(Offset(k, limit), |all|);
      assert Matching(Extracted(before, lo, hi, limit), lo, hi) == all[Min(a + limit, |all|)..] by {
        DrainedValid(s, lo, hi, limit, k - 1);
        DrainStep(before, lo, hi, limit, all, a);
      }
    }
  }

  /**
   * Repeated destructive reads with limit L hand out the matching members in
   * ascending chunks: the read that follows k others returns positions k*L up
   * to (k+1)*L of `all`, the sequence that matched at the start.
   */
  lemma DrainChunks(s: seq<Member>, lo: int, hi: int, limit: nat, k: nat, all: seq<Member>)
    requires Valid(s) && 0 < limit && Matching(s, lo, hi) == all
    ensures RangeByScore(Drained(s, lo, hi, limit, k), lo, hi, limit)
         == all[Min(Offset(k, limit), |all|)..Min(Offset(k, limit) + limit, |all|)]
  {
    DrainFromStart(s, lo, hi, limit, k, all);
    DrainedValid(s, lo, hi, limit, k);
    var here := Min(Offset(k, limit), |all|);
    DrainStep(Drained(s, lo, hi, limit, k), lo, hi, limit, all, here);
    assert Min(here + limit, |all|) == Min(Offset(k, limit) + limit, |all|);
  }

  /** ceil(n / L) destructive reads with limit L leave nothing in the range. */
  lemma DrainEmpties(s: seq<Member>, lo: int, hi: int, limit: nat, k: nat, all: seq<Member>)
    requires Valid(s) && 0 < limit && Matching(s, lo, hi) == all && |all| <= k * limit
    ensures Matching(Drained(s, lo, hi, limit, k), lo, hi) == []
  {
    OffsetIsProduct(k, limit);
    DrainFromStart(s, lo, hi, limit, k, all);
  }
}

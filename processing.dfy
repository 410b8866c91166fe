/**
 * What handling one queue entry does, as a function of the entry and of the
 * outside world: whether the session is asked to index or remove something,
 * whether that fails, and how a failed entry is rescheduled. The client's
 * methods are proved against these definitions.
 */
module Processing {
  import opened Wrappers
  import opened Clock
  import opened SortedSet
  import opened Entries

  /** A request sent to the search session. */
  datatype Call =
    | IndexCall(obj: DomainObject)
    | RemoveByIdCall(className: Option<string>, id: Option<int>)

  /** How handling an entry ends. */
  datatype Outcome =
    | Skipped                            // attempts exhausted: nothing is sent, the entry is dropped
    | Done(call: Call)                   // the session accepted the request
    | Failed(attempted: Option<Call>)    // something raised: the lookup (no call) or the session call

  /** The inputs one `process` run gets from outside, per extracted entry in order. */
  datatype World = World(resolve: Resolver, succeeds: nat -> bool, clock: nat -> Time)

  /** The session request an entry leads to; None when looking its record up raises. */
  function Request(a: Attributes, resolve: Resolver): Option<Call>
  {
    if a.toRemove then Some(RemoveByIdCall(a.objectClassName, a.objectId))
    else match resolve(a.objectClassName, a.objectId)
      case None => None
      case Some(o) => Some(IndexCall(o))
  }

  /**
   * `process_entry` on attributes `a`, with at most `max` attempts, where
   * `ok` says whether the session call, if one is made, returns normally.
   */
  function Handle(a: Attributes, max: int, resolve: Resolver, ok: bool): (r: Outcome)
    ensures r.Skipped? <==> max <= a.attemptsCount
    ensures r.Done? <==> a.attemptsCount < max && ok && Request(a, resolve).Some?
  {
    if max <= a.attemptsCount then Skipped
    else match Request(a, resolve)
      case None => Failed(None)
      case Some(c) => if ok then Done(c) else Failed(Some(c))
  }

  /** The requests actually sent to the session while handling, in order. */
  function Sent(r: Outcome): seq<Call>
  {
    match r
    case Skipped => []
    case Done(c) => [c]
    case Failed(attempted) => if attempted.Some? then [attempted.value] else []
  }

  /**
   * Routing: a removal entry sends `remove_by_id(class name, id)`; any other
   * entry sends `index` of the record its class name and id look up, and
   * sends nothing when that lookup fails. An exhausted entry sends nothing.
   */
  lemma HandleRoutes(a: Attributes, max: int, resolve: Resolver, ok: bool)
    ensures var r := Handle(a, max, resolve, ok);
      && (max <= a.attemptsCount ==> Sent(r) == [])
      && (a.attemptsCount < max && a.toRemove ==> Sent(r) == [RemoveByIdCall(a.objectClassName, a.objectId)])
      && (a.attemptsCount < max && !a.toRemove ==>
            match resolve(a.objectClassName, a.objectId)
            case None => r == Failed(None) && Sent(r) == []
            case Some(o) => Sent(r) == [IndexCall(o)] && (r.Done? <==> ok))
  {
  }

  /** The attributes of an entry after a failure at `now`: due `retry` seconds later, one more attempt counted. */
  function Retried(a: Attributes, now: Time, retry: int): (b: Attributes)
    ensures b.attemptsCount == a.attemptsCount + 1
    ensures b.runAt.ToI() == now.ToI() + retry
    ensures b.objectId == a.objectId && b.objectClassName == a.objectClassName && b.toRemove == a.toRemove
  {
    a.(runAt := now.Plus(retry), attemptsCount := a.attemptsCount + 1)
  }

  /** The attributes an entry holds after it was handled as the i-th: retried when that failed, as they were otherwise. */
  function Settled(a: Attributes, i: nat, max: int, retry: int, w: World): Attributes
  {
    if Handle(a, max, w.resolve, w.succeeds(i)).Failed? then Retried(a, w.clock(i), retry) else a
  }

  /** An entry that can still be handled stays within the bound once retried. */
  lemma RetryKeepsBound(a: Attributes, max: int, resolve: Resolver, ok: bool, now: Time, retry: int)
    requires a.attemptsCount <= max
    requires Handle(a, max, resolve, ok).Failed?
    ensures Retried(a, now, retry).attemptsCount <= max
  {
  }

  /** The attributes after failing at each instant of `times` in turn. */
  function FailedAt(a: Attributes, times: seq<Time>, retry: int): Attributes
  {
    if times == [] then a else Retried(FailedAt(a, times[..|times| - 1], retry), times[|times| - 1], retry)
  }

  /**
   * The retry life cycle: after n failures an entry has n more attempts on
   * record and is due `retry` seconds after the last one; it is handled again
   * (and may be sent to the session) only while attempts < max. So an entry
   * created with no attempts reaches the session at most `max` times, and the
   * failure at attempt max - 1 is still re-queued, to be dropped unsent the
   * next time it is extracted.
   */
  lemma {:induction false} FailureChain(a: Attributes, times: seq<Time>, retry: int, max: int, resolve: Resolver, ok: bool)
    ensures FailedAt(a, times, retry).attemptsCount == a.attemptsCount + |times|
    ensures times != [] ==> FailedAt(a, times, retry).runAt.ToI() == times[|times| - 1].ToI() + retry
    ensures Handle(FailedAt(a, times, retry), max, resolve, ok).Skipped? <==> max <= a.attemptsCount + |times|
  {
    if times != [] {
      FailureChain(a, times[..|times| - 1], retry, max, resolve, ok);
    }
  }

  /** The attributes re-queued while handling `vals` in order, entry i seeing `w.succeeds(i)` and `w.clock(i)`. */
  function Requeued(vals: seq<Attributes>, max: int, retry: int, w: World): (r: seq<Attributes>)
    ensures |r| <= |vals|
  {
    if vals == [] then []
    else
      var i := |vals| - 1;
      var a := vals[i];
      Requeued(vals[..i], max, retry, w)
        + (if Handle(a, max, w.resolve, w.succeeds(i)).Failed? then [Retried(a, w.clock(i), retry)] else [])
  }

  /** The requests sent to the session while handling `vals` in order. */
  function Dispatches(vals: seq<Attributes>, max: int, w: World): seq<Call>
  {
    if vals == [] then []
    else
      var i := |vals| - 1;
      Dispatches(vals[..i], max, w) + Sent(Handle(vals[i], max, w.resolve, w.succeeds(i)))
  }

  /** The first i + 1 entries are the first i and then the i-th. */
  lemma PrefixSnoc(vals: seq<Attributes>, i: nat)
    requires i < |vals|
    ensures vals[..i + 1] == vals[..i] + [vals[i]]
  {
  }

  /** Handling one more entry, the i-th, after a log `log` of earlier calls, sends what that entry sends. */
  lemma DispatchesStep(log: seq<Call>, done: seq<Attributes>, a: Attributes, i: nat, max: int, w: World)
    requires |done| == i
    ensures log + Dispatches(done + [a], max, w) == (log + Dispatches(done, max, w)) + Sent(Handle(a, max, w.resolve, w.succeeds(i)))
  {
    assert (done + [a])[..i] == done;
  }

  /** Handling one more entry, the i-th, re-adds that entry, retried, when it fails, and nothing otherwise. */
  lemma RequeuedStep(dump: Attributes -> Bytes, s: seq<Member>, done: seq<Attributes>, a: Attributes,
                     i: nat, max: int, retry: int, w: World)
    requires |done| == i
    ensures AddAll(dump, s, Requeued(done + [a], max, retry, w))
         == if Handle(a, max, w.resolve, w.succeeds(i)).Failed?
            then ZAdd(AddAll(dump, s, Requeued(done, max, retry, w)), Retried(a, w.clock(i), retry).runAt.ToI(), dump(Retried(a, w.clock(i), retry)))
            else AddAll(dump, s, Requeued(done, max, retry, w))
  {
    var p := Requeued(done, max, retry, w);
    assert (done + [a])[..i] == done;
    if Handle(a, max, w.resolve, w.succeeds(i)).Failed? {
      var b := Retried(a, w.clock(i), retry);
      assert Requeued(done + [a], max, retry, w) == p + [b];
      assert (p + [b])[..|p|] == p;
    } else {
      assert Requeued(done + [a], max, retry, w) == p + [];
      assert p + [] == p;
    }
  }

  /** Every re-queued entry is a failed one, retried: one attempt more, within the bound if it was. */
  lemma {:induction false} RequeuedSpec(vals: seq<Attributes>, max: int, retry: int, w: World)
    ensures forall b | b in Requeued(vals, max, retry, w) ::
      exists i | 0 <= i < |vals| :: Handle(vals[i], max, w.resolve, w.succeeds(i)).Failed?
                                 && b == Retried(vals[i], w.clock(i), retry)
    ensures forall b | b in Requeued(vals, max, retry, w) :: b.attemptsCount <= max
  {
    if vals != [] {
      var i := |vals| - 1;
      RequeuedSpec(vals[..i], max, retry, w);
      forall b | b in Requeued(vals, max, retry, w)
        ensures exists j | 0 <= j < |vals| :: Handle(vals[j], max, w.resolve, w.succeeds(j)).Failed?
                                           && b == Retried(vals[j], w.clock(j), retry)
      {
        if b in Requeued(vals[..i], max, retry, w) {
          var j :| 0 <= j < i && Handle(vals[..i][j], max, w.resolve, w.succeeds(j)).Failed?
                                && b == Retried(vals[..i][j], w.clock(j), retry);
          assert vals[..i][j] == vals[j];
        }
      }
    }
  }

  /** Conversely, every entry whose handling fails is re-queued, retried at its own failure time. */
  lemma {:induction false} FailedIsRequeued(vals: seq<Attributes>, max: int, retry: int, w: World)
    ensures forall i | 0 <= i < |vals| && Handle(vals[i], max, w.resolve, w.succeeds(i)).Failed? ::
      Retried(vals[i], w.clock(i), retry) in Requeued(vals, max, retry, w)
  {
    if vals != [] {
      var i := |vals| - 1;
      var init := vals[..i];
      FailedIsRequeued(init, max, retry, w);
      forall j | 0 <= j < i && Handle(vals[j], max, w.resolve, w.succeeds(j)).Failed?
        ensures Retried(vals[j], w.clock(j), retry) in Requeued(vals, max, retry, w)
      {
        assert init[j] == vals[j];
      }
    }
  }

  /** The positions of the entries among `vals` whose handling fails. */
  function FailedIndices(vals: seq<Attributes>, max: int, w: World): set<nat>
  {
    set i: nat | i < |vals| && Handle(vals[i], max, w.resolve, w.succeeds(i)).Failed?
  }

  /** Exactly one entry is re-queued per failure. */
  lemma {:induction false} RequeuedCount(vals: seq<Attributes>, max: int, retry: int, w: World)
    ensures |Requeued(vals, max, retry, w)| == |FailedIndices(vals, max, w)|
  {
    if vals != [] {
      var i := |vals| - 1;
      var init := vals[..i];
      RequeuedCount(init, max, retry, w);
      var failed := Handle(vals[i], max, w.resolve, w.succeeds(i)).Failed?;
      var before := FailedIndices(init, max, w);
      var after := FailedIndices(vals, max, w);
      forall j: nat ensures j in after <==> j in before || (failed && j == i) {
        if j < i {
          assert init[j] == vals[j];
        }
      }
      assert after == before + (if failed then {i} else {});
      assert i !in before;
    }
  }

  /** Entries skipped for exhausted attempts send nothing and are not re-queued. */
  lemma {:induction false} ExhaustedLeaveNoTrace(vals: seq<Attributes>, max: int, retry: int, w: World)
    requires forall a | a in vals :: max <= a.attemptsCount
    ensures Requeued(vals, max, retry, w) == []
    ensures Dispatches(vals, max, w) == []
  {
    if vals != [] {
      var i := |vals| - 1;
      assert vals[i] in vals;
      assert forall a | a in vals[..i] :: a in vals;
      ExhaustedLeaveNoTrace(vals[..i], max, retry, w);
    }
  }

  /** ZADD of each attribute set in turn, at its due time. */
  function AddAll(dump: Attributes -> Bytes, s: seq<Member>, bs: seq<Attributes>): seq<Member>
  {
    if bs == [] then s
    else
      var b := bs[|bs| - 1];
      ZAdd(AddAll(dump, s, bs[..|bs| - 1]), b.runAt.ToI(), dump(b))
  }

  /** The serialized forms of some attribute sets. */
  function Dumps(dump: Attributes -> Bytes, bs: seq<Attributes>): set<Bytes>
  {
    set b | b in bs :: dump(b)
  }

  /**
   * Adding entries one after the other keeps the set well formed and leaves
   * it holding exactly what it held plus the added entries (an entry whose
   * serialized form is already there moves instead of doubling).
   */
  lemma {:induction false} AddAllSpec(dump: Attributes -> Bytes, s: seq<Member>, bs: seq<Attributes>)
    requires Valid(s)
    ensures Valid(AddAll(dump, s, bs))
    ensures Datas(AddAll(dump, s, bs)) == Datas(s) + Dumps(dump, bs)
    ensures |s| <= |AddAll(dump, s, bs)| <= |s| + |bs|
  {
    if bs != [] {
      var init := bs[..|bs| - 1];
      var b := bs[|bs| - 1];
      var p := AddAll(dump, s, init);
      var z := AddAll(dump, s, bs);
      AddAllSpec(dump, s, init);
      assert z == ZAdd(p, b.runAt.ToI(), dump(b));
      assert Valid(z) && Datas(z) == Datas(p) + {dump(b)} && |p| <= |z| <= |p| + 1 by {
        ZAddSpec(p, b.runAt.ToI(), dump(b));
      }
      assert Dumps(dump, bs) == Dumps(dump, init) + {dump(b)} by {
        assert bs == init + [b];
        DumpsSnoc(dump, init, b);
      }
    }
  }

  lemma DumpsSnoc(dump: Attributes -> Bytes, init: seq<Attributes>, b: Attributes)
    ensures Dumps(dump, init + [b]) == Dumps(dump, init) + {dump(b)}
  {
    assert forall c | c in init + [b] :: c in init || c == b;
  }
}

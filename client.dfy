/**
 * The index queue client: it turns records into entries, schedules them in
 * the ordered heap by due time, and later takes the due entries out and
 * hands them to the search session, re-queueing an entry whose handling
 * raised until it has used up its attempts.
 */
module Clients {
  import opened Wrappers
  import opened Clock
  import opened SortedSet
  import OrderedHeaps
  import opened Entries
  import opened Processing

  /** The default limit of `get`. */
  const NO_LIMIT := 1_000_000
  /** The default limit of `process`. */
  const PROCESS_LIMIT := 10

  /*
   * Options
   */

  /** One `key => value` pair of the options hash given to the client. */
  datatype Setting =
    | Host(host: string)
    | Port(port: int)
    | Password(password: Option<string>)
    | SunspotIndexQueueName(sunspotIndexQueueName: Option<string>)
    | QueueName(queueName: Option<string>)
    | RetryInterval(retryInterval: int)
    | MaxAttemptsCount(maxAttemptsCount: int)
    | IndexDelay(indexDelay: int)

  /** The client's options hash. */
  datatype Options = Options(
    host: string,
    port: int,
    password: Option<string>,
    sunspotIndexQueueName: Option<string>,
    queueName: Option<string>,
    retryInterval: int,
    maxAttemptsCount: int,
    indexDelay: int)

  /** `default_options`; no `queue_name` key is set. */
  function DefaultOptions(): Options
  {
    Options("localhost", 6379, None, Some("sunspot_index_queue"), None, 300, 5, 0)
  }

  function Override(o: Options, g: Setting): Options
  {
    match g
    case Host(h) => o.(host := h)
    case Port(p) => o.(port := p)
    case Password(p) => o.(password := p)
    case SunspotIndexQueueName(n) => o.(sunspotIndexQueueName := n)
    case QueueName(n) => o.(queueName := n)
    case RetryInterval(r) => o.(retryInterval := r)
    case MaxAttemptsCount(m) => o.(maxAttemptsCount := m)
    case IndexDelay(d) => o.(indexDelay := d)
  }

  /** `o.merge(given)`: the pairs of `given` written over `o` one after the other. */
  function MergedOptions(o: Options, given: seq<Setting>): Options
  {
    if given == [] then o else Override(MergedOptions(o, given[..|given| - 1]), given[|given| - 1])
  }

  /** The last value `pick` finds in `given`: the one the merged hash keeps. */
  function LastGiven<T>(given: seq<Setting>, pick: Setting -> Option<T>): Option<T>
  {
    if given == [] then None
    else if pick(given[|given| - 1]).Some? then pick(given[|given| - 1])
    else LastGiven(given[..|given| - 1], pick)
  }

  function RetryIntervalIn(g: Setting): Option<int>
  {
    if g.RetryInterval? then Some(g.retryInterval) else None
  }

  function MaxAttemptsCountIn(g: Setting): Option<int>
  {
    if g.MaxAttemptsCount? then Some(g.maxAttemptsCount) else None
  }

  function IndexDelayIn(g: Setting): Option<int>
  {
    if g.IndexDelay? then Some(g.indexDelay) else None
  }

  function SunspotIndexQueueNameIn(g: Setting): Option<Option<string>>
  {
    if g.SunspotIndexQueueName? then Some(g.sunspotIndexQueueName) else None
  }

  function QueueNameIn(g: Setting): Option<Option<string>>
  {
    if g.QueueName? then Some(g.queueName) else None
  }

  /** `sunspot_index_queue_name || queue_name`. */
  function QueueNameOf(o: Options): Option<string>
  {
    if o.sunspotIndexQueueName.Some? then o.sunspotIndexQueueName else o.queueName
  }

  /** After a merge, each option the queue reads holds the last value given for it, or its old value. */
  lemma {:induction false} MergedOptionsSpec(o: Options, given: seq<Setting>)
    ensures var m := MergedOptions(o, given);
      && m.retryInterval == LastGiven(given, RetryIntervalIn).GetOr(o.retryInterval)
      && m.maxAttemptsCount == LastGiven(given, MaxAttemptsCountIn).GetOr(o.maxAttemptsCount)
      && m.indexDelay == LastGiven(given, IndexDelayIn).GetOr(o.indexDelay)
      && m.sunspotIndexQueueName == LastGiven(given, SunspotIndexQueueNameIn).GetOr(o.sunspotIndexQueueName)
      && m.queueName == LastGiven(given, QueueNameIn).GetOr(o.queueName)
  {
    if given != [] {
      MergedOptionsSpec(o, given[..|given| - 1]);
    }
  }

  /**
   * The options a client built from `given` reads: each the last value given,
   * else 300 seconds between retries, 5 attempts, no index delay; the queue
   * is "sunspot_index_queue" unless a queue name key says otherwise, and a
   * nil `sunspot_index_queue_name` falls back to `queue_name`.
   */
  lemma ConfiguredOptions(given: seq<Setting>)
    ensures var m := MergedOptions(DefaultOptions(), given);
      && m.retryInterval == LastGiven(given, RetryIntervalIn).GetOr(300)
      && m.maxAttemptsCount == LastGiven(given, MaxAttemptsCountIn).GetOr(5)
      && m.indexDelay == LastGiven(given, IndexDelayIn).GetOr(0)
      && QueueNameOf(m) == (var named := LastGiven(given, SunspotIndexQueueNameIn);
                            if named.None? then Some("sunspot_index_queue")
                            else if named.value.Some? then named.value
                            else LastGiven(given, QueueNameIn).GetOr(None))
  {
    MergedOptionsSpec(DefaultOptions(), given);
  }

  /*
   * New entries
   */

  /** The attributes `new_entry_for_object(obj, extra)` builds at the instant `now`, with index delay `delay`. */
  function NewEntryAttributes(obj: DomainObject, extra: seq<Attr>, now: Time, delay: int): Attributes
  {
    Built([ObjectId(Some(obj.id)), ObjectClassName(Some(obj.className)), RunAt(now.Plus(delay))] + extra, now)
  }

  /**
   * The entries `index` and `remove` queue: the record's id and class name,
   * no attempts yet, due `delay` seconds from now; only `remove`'s is a removal.
   */
  lemma NewEntrySpec(obj: DomainObject, now: Time, delay: int)
    ensures NewEntryAttributes(obj, [], now, delay)
         == Attributes(Some(obj.id), Some(obj.className), false, 0, now.Plus(delay))
    ensures NewEntryAttributes(obj, [ToRemove(true)], now, delay)
         == Attributes(Some(obj.id), Some(obj.className), true, 0, now.Plus(delay))
  {
    var base := [ObjectId(Some(obj.id)), ObjectClassName(Some(obj.className)), RunAt(now.Plus(delay))];
    var removal := base + [ToRemove(true)];
    var indexed := Attributes(Some(obj.id), Some(obj.className), false, 0, now.Plus(delay));
    assert base + [] == base;
    assert Built(base, now) == indexed by {
      BuiltSpec(base, now);
      forall k ensures Lookup(Built(base, now), k) == Lookup(indexed, k) {
        LastOfThree(base[0], base[1], base[2], k);
        assert base == [base[0], base[1], base[2]];
      }
      LookupDetermines(Built(base, now), indexed);
    }
    assert Built(removal, now) == indexed.(toRemove := true) by {
      assert removal[..3] == base;
      BuiltSpec(removal, now);
      forall k ensures Lookup(Built(removal, now), k) == Lookup(indexed.(toRemove := true), k) {
        LastOfThree(base[0], base[1], base[2], k);
        assert base == [base[0], base[1], base[2]];
      }
      LookupDetermines(Built(removal, now), indexed.(toRemove := true));
    }
  }

  /**
   * With an index delay D > 0 the entry `index` or `remove` queues is not
   * yet due: a read up to now does not return it, a read up to now + D does.
   */
  lemma IndexDelayDefers(dump: Attributes -> Bytes, load: Bytes -> Attributes, s: seq<Member>,
                         obj: DomainObject, toRemove: bool, now: Time, delay: int)
    requires SortedSet.Valid(s) && OrderedHeaps.RoundTrips(dump, load) && OrderedHeaps.Encodes(dump, load, s)
    requires 0 < delay && 0 <= now.ToI() && |s| < NO_LIMIT
    ensures var a := NewEntryAttributes(obj, if toRemove then [ToRemove(true)] else [], now, delay);
      var z := ZAdd(s, a.runAt.ToI(), dump(a));
      && a !in OrderedHeaps.Decoded(load, RangeByScore(z, 0, now.ToI(), NO_LIMIT))
      && a in OrderedHeaps.Decoded(load, RangeByScore(z, 0, now.ToI() + delay, NO_LIMIT))
  {
    var a := NewEntryAttributes(obj, if toRemove then [ToRemove(true)] else [], now, delay);
    assert a.runAt == now.Plus(delay) by {
      NewEntrySpec(obj, now, delay);
    }
    DueAfterDelay(dump, load, s, a, now.ToI());
  }

  /** An entry due after `hi` is left out of a read up to `hi` and returned by one up to its due time. */
  lemma DueAfterDelay(dump: Attributes -> Bytes, load: Bytes -> Attributes, s: seq<Member>, a: Attributes, hi: int)
    requires SortedSet.Valid(s) && OrderedHeaps.RoundTrips(dump, load) && OrderedHeaps.Encodes(dump, load, s)
    requires 0 <= hi < a.runAt.ToI() && |s| < NO_LIMIT
    ensures var z := ZAdd(s, a.runAt.ToI(), dump(a));
      && a !in OrderedHeaps.Decoded(load, RangeByScore(z, 0, hi, NO_LIMIT))
      && a in OrderedHeaps.Decoded(load, RangeByScore(z, 0, a.runAt.ToI(), NO_LIMIT))
  {
    NotDueBefore(dump, load, s, a, hi);
    OrderedHeaps.AddedValueReadBack(dump, load, s, a.runAt.ToI(), a, 0, a.runAt.ToI(), NO_LIMIT);
  }

  /** A value added at a score after `hi` is not among what a read up to `hi` returns. */
  lemma NotDueBefore(dump: Attributes -> Bytes, load: Bytes -> Attributes, s: seq<Member>, a: Attributes, hi: int)
    requires SortedSet.Valid(s) && OrderedHeaps.RoundTrips(dump, load) && OrderedHeaps.Encodes(dump, load, s)
    requires hi < a.runAt.ToI()
    ensures a !in OrderedHeaps.Decoded(load, RangeByScore(ZAdd(s, a.runAt.ToI(), dump(a)), 0, hi, NO_LIMIT))
  {
    var z := ZAdd(s, a.runAt.ToI(), dump(a));
    ZAddSpec(s, a.runAt.ToI(), dump(a));
    var t := RangeByScore(z, 0, hi, NO_LIMIT);
    RangeByScoreSpec(z, 0, hi, NO_LIMIT);
    forall i | 0 <= i < |t| ensures OrderedHeaps.Decoded(load, t)[i] != a {
      assert t[i] in z && t[i].score <= hi;
      assert t[i] in s && t[i].data != dump(a);
      assert dump(load(t[i].data)) == t[i].data;
    }
  }

  /*
   * Store bookkeeping
   */

  /** Every stored entry has used at most `max` attempts. */
  ghost predicate AttemptsBounded(load: Bytes -> Attributes, s: seq<Member>, max: int)
  {
    forall d | d in Datas(s) :: load(d).attemptsCount <= max
  }

  /**
   * What `process` leaves in the store, counted: the old count, less the
   * entries taken out, plus at most one per re-queued entry (exactly one each
   * when the re-queued entries serialize differently from each other and
   * from everything left in the store).
   */
  lemma ProcessCount(dump: Attributes -> Bytes, s: seq<Member>, lo: int, hi: int, limit: int, bs: seq<Attributes>)
    requires SortedSet.Valid(s)
    ensures var t := RangeByScore(s, lo, hi, limit);
      var z := AddAll(dump, Extracted(s, lo, hi, limit), bs);
      && |s| - |t| <= |Datas(z)| <= |s| - |t| + |bs|
      && ((Dumps(dump, bs) !! Datas(Extracted(s, lo, hi, limit)) && |Dumps(dump, bs)| == |bs|)
          ==> |Datas(z)| == |s| - |t| + |bs|)
  {
    var x := Extracted(s, lo, hi, limit);
    ExtractSpec(s, lo, hi, limit);
    AddAllSpec(dump, x, bs);
    CardIsDistinctMembers(x);
    CardIsDistinctMembers(AddAll(dump, x, bs));
  }

  /**
   * The same count in terms of the entries handled: at most one entry more
   * per entry whose handling failed.
   */
  lemma ProcessCountByFailures(dump: Attributes -> Bytes, s: seq<Member>, lo: int, hi: int, limit: int,
                               vals: seq<Attributes>, max: int, retry: int, w: World)
    requires SortedSet.Valid(s)
    ensures var t := RangeByScore(s, lo, hi, limit);
      var z := AddAll(dump, Extracted(s, lo, hi, limit), Requeued(vals, max, retry, w));
      |s| - |t| <= |Datas(z)| <= |s| - |t| + |FailedIndices(vals, max, w)|
  {
    ProcessCount(dump, s, lo, hi, limit, Requeued(vals, max, retry, w));
    RequeuedCount(vals, max, retry, w);
  }

  /**
   * `process` keeps every stored entry within `max` attempts: what stays was
   * there before, and a re-queued entry failed below `max` and gained one.
   */
  lemma ProcessKeepsAttemptsBound(dump: Attributes -> Bytes, load: Bytes -> Attributes, s: seq<Member>,
                                  lo: int, hi: int, limit: int, vals: seq<Attributes>, max: int, retry: int, w: World)
    requires SortedSet.Valid(s) && OrderedHeaps.RoundTrips(dump, load) && AttemptsBounded(load, s, max)
    ensures AttemptsBounded(load, AddAll(dump, Extracted(s, lo, hi, limit), Requeued(vals, max, retry, w)), max)
  {
    var x := Extracted(s, lo, hi, limit);
    var bs := Requeued(vals, max, retry, w);
    ExtractSpec(s, lo, hi, limit);
    AddAllSpec(dump, x, bs);
    RequeuedSpec(vals, max, retry, w);
    forall d | d in Datas(x) ensures d in Datas(s) {
      var m :| m in x && m.data == d;
      assert m in s;
    }
    forall d | d in Dumps(dump, bs) ensures load(d).attemptsCount <= max {
      var b :| b in bs && dump(b) == d;
      assert load(dump(b)) == b;
    }
  }

  /*
   * The search session
   */

  /** The search session the client hands entries to; it records the requests it receives. */
  class Session {
    var calls: seq<Call>

    constructor ()
      ensures calls == []
    {
      calls := [];
    }

    method Index(obj: DomainObject)
      modifies this
      ensures calls == old(calls) + [IndexCall(obj)]
    {
      calls := calls + [IndexCall(obj)];
    }

    method RemoveById(className: Option<string>, id: Option<int>)
      modifies this
      ensures calls == old(calls) + [RemoveByIdCall(className, id)]
    {
      calls := calls + [RemoveByIdCall(className, id)];
    }
  }

  /** Rebuilds one new Entry object from each set of serialized attributes, in order. */
  method LoadEntries(vals: seq<Attributes>) returns (es: seq<Entry>)
    ensures |es| == |vals|
    ensures forall i | 0 <= i < |es| :: es[i].attributes == vals[i] && fresh(es[i])
    ensures forall i, j | 0 <= i < j < |es| :: es[i] != es[j]
  {
    es := [];
    var i := 0;
    while i < |vals|
      invariant 0 <= i <= |vals| && |es| == i
      invariant forall j | 0 <= j < i :: es[j].attributes == vals[j] && fresh(es[j])
      invariant forall j, k | 0 <= j < k < i :: es[j] != es[k]
    {
      var e := new Entry.Load(vals[i]);
      es := es + [e];
      i := i + 1;
    }
  }

  /*
   * The client
   */

  class Client {
    const session: Session
    const heap: OrderedHeaps.OrderedHeap<Attributes>
    const options: Options

    ghost predicate Valid()
      reads this, heap
    {
      heap.Valid() && heap.name == QueueName()
    }

    /**
     * A client over the session, with `given` merged over the default
     * options, attached to the heap named by the queue name, which holds
     * `stored`. `dump` and `load` are the entry serializer.
     */
    constructor (session: Session, given: seq<Setting>, dump: Attributes -> Bytes, load: Bytes -> Attributes, stored: seq<Member>)
      requires SortedSet.Valid(stored) && OrderedHeaps.RoundTrips(dump, load) && OrderedHeaps.Encodes(dump, load, stored)
      ensures Valid() && fresh(heap)
      ensures this.session == session && options == MergedOptions(DefaultOptions(), given)
      ensures heap.dump == dump && heap.load == load && heap.zset == stored
    {
      var o := MergedOptions(DefaultOptions(), given);
      this.session := session;
      options := o;
      heap := new OrderedHeaps.OrderedHeap(QueueNameOf(o), dump, load, stored);
    }

    function MaxAttemptsCount(): int
    {
      options.maxAttemptsCount
    }

    function RetryInterval(): int
    {
      options.retryInterval
    }

    function QueueName(): Option<string>
    {
      QueueNameOf(options)
    }

    function IndexDelay(): int
    {
      options.indexDelay
    }

    /** The number of pending entries. */
    function Count(): (c: nat)
      reads this, heap
      requires Valid()
      ensures c == |Datas(heap.zset)|
    {
      heap.Count()
    }

    /** `new_entry_for_object(obj, extra)` at the instant `now`. */
    method NewEntryForObject(obj: DomainObject, extra: seq<Attr>, now: Time) returns (e: Entry)
      ensures fresh(e)
      ensures e.attributes == NewEntryAttributes(obj, extra, now, IndexDelay())
    {
      e := new Entry([ObjectId(Some(obj.id)), ObjectClassName(Some(obj.className)), RunAt(now.Plus(IndexDelay()))] + extra, now);
    }

    /** Schedules the entry at its due time; true when the heap did not hold it yet. */
    method Add(e: Entry) returns (added: bool)
      requires Valid()
      modifies heap
      ensures Valid()
      ensures heap.zset == ZAdd(old(heap.zset), e.attributes.runAt.ToI(), heap.dump(e.attributes))
      ensures added <==> heap.dump(e.attributes) !in Datas(old(heap.zset))
      ensures Count() == if added then old(Count()) + 1 else old(Count())
    {
      added := heap.Add(e.attributes.runAt.ToI(), e.attributes);
    }

    /** Queues `obj` for indexing, due `IndexDelay()` seconds after `now`. */
    method Index(obj: DomainObject, now: Time) returns (added: bool)
      requires Valid()
      modifies heap
      ensures Valid()
      ensures var a := NewEntryAttributes(obj, [], now, IndexDelay());
        && heap.zset == ZAdd(old(heap.zset), a.runAt.ToI(), heap.dump(a))
        && (added <==> heap.dump(a) !in Datas(old(heap.zset)))
      ensures Count() == if added then old(Count()) + 1 else old(Count())
    {
      var e := NewEntryForObject(obj, [], now);
      added := Add(e);
    }

    /** Queues `obj` for removal from the index, due `IndexDelay()` seconds after `now`. */
    method Remove(obj: DomainObject, now: Time) returns (added: bool)
      requires Valid()
      modifies heap
      ensures Valid()
      ensures var a := NewEntryAttributes(obj, [ToRemove(true)], now, IndexDelay());
        && heap.zset == ZAdd(old(heap.zset), a.runAt.ToI(), heap.dump(a))
        && (added <==> heap.dump(a) !in Datas(old(heap.zset)))
      ensures Count() == if added then old(Count()) + 1 else old(Count())
    {
      var e := NewEntryForObject(obj, [ToRemove(true)], now);
      added := Add(e);
    }

    /** Takes out the entries due in [lo, hi] (at most `limit`), each rebuilt as a new Entry. */
    method Get(lo: Time, hi: Time, limit: int := NO_LIMIT) returns (es: seq<Entry>)
      requires Valid()
      modifies heap
      ensures Valid()
      ensures var vals := OrderedHeaps.Decoded(heap.load, RangeByScore(old(heap.zset), lo.ToI(), hi.ToI(), limit));
        && |es| == |vals|
        && forall i | 0 <= i < |es| :: es[i].attributes == vals[i]
      ensures forall i | 0 <= i < |es| :: fresh(es[i])
      ensures forall i, j | 0 <= i < j < |es| :: es[i] != es[j]
      ensures heap.zset == Extracted(old(heap.zset), lo.ToI(), hi.ToI(), limit)
      ensures Count() == old(Count()) - |es|
    {
      var vals := heap.RangeExtract(lo.ToI(), hi.ToI(), limit);
      es := LoadEntries(vals);
    }

    /** Empties the queue. */
    method Purge() returns (removed: nat)
      requires Valid()
      modifies heap
      ensures Valid()
      ensures heap.zset == [] && Count() == 0
      ensures removed == old(Count())
    {
      removed := heap.Purge();
    }

    /**
     * `process_entry` at the instant `now`: hands the entry to the session
     * unless its attempts are used up; when that raises (the record lookup
     * or the session call, as `resolve` and `ok` say) the entry is pushed
     * back `RetryInterval()` seconds later with one more attempt counted.
     */
    method ProcessEntry(e: Entry, now: Time, resolve: Resolver, ok: bool) returns (outcome: Outcome)
      requires Valid()
      modifies e, heap, session
      ensures Valid()
      ensures outcome == Handle(old(e.attributes), MaxAttemptsCount(), resolve, ok)
      ensures session.calls == old(session.calls) + Sent(outcome)
      ensures e.attributes == if outcome.Failed? then Retried(old(e.attributes), now, RetryInterval()) else old(e.attributes)
      ensures heap.zset == if outcome.Failed? then ZAdd(old(heap.zset), e.attributes.runAt.ToI(), heap.dump(e.attributes))
                           else old(heap.zset)
      ensures Count() == if outcome.Failed? && heap.dump(e.attributes) !in Datas(old(heap.zset)) then old(Count()) + 1
                         else old(Count())
    {
      if e.attributes.attemptsCount < MaxAttemptsCount() {
        if e.attributes.toRemove {
          var call := RemoveByIdCall(e.attributes.objectClassName, e.attributes.objectId);
          session.RemoveById(e.attributes.objectClassName, e.attributes.objectId);
          outcome := if ok then Done(call) else Failed(Some(call));
        } else {
          var obj := e.Object(resolve);
          if obj.None? {
            outcome := Failed(None);
          } else {
            session.Index(obj.value);
            outcome := if ok then Done(IndexCall(obj.value)) else Failed(Some(IndexCall(obj.value)));
          }
        }
      } else {
        outcome := Skipped;
      }
      if outcome.Failed? {
        e.Set(RunAt(now.Plus(RetryInterval())));
        e.Set(AttemptsCount(e.attributes.attemptsCount + 1));
        var _ := Add(e);
      }
    }

    /**
     * Handles the i-th entry, after those whose attributes were `done`: the heap
     * and the session log move on from what handling `done` left them as.
     */
    method ProcessNext(e: Entry, i: nat, ghost done: seq<Attributes>, w: World, ghost base: seq<Member>, ghost calls0: seq<Call>)
      requires Valid() && |done| == i
      requires heap.zset == AddAll(heap.dump, base, Requeued(done, MaxAttemptsCount(), RetryInterval(), w))
      requires session.calls == calls0 + Dispatches(done, MaxAttemptsCount(), w)
      modifies e, heap, session
      ensures Valid()
      ensures heap.zset == AddAll(heap.dump, base, Requeued(done + [old(e.attributes)], MaxAttemptsCount(), RetryInterval(), w))
      ensures session.calls == calls0 + Dispatches(done + [old(e.attributes)], MaxAttemptsCount(), w)
      ensures e.attributes == Settled(old(e.attributes), i, MaxAttemptsCount(), RetryInterval(), w)
    {
      DispatchesStep(calls0, done, e.attributes, i, MaxAttemptsCount(), w);
      RequeuedStep(heap.dump, base, done, e.attributes, i, MaxAttemptsCount(), RetryInterval(), w);
      var _ := ProcessEntry(e, w.clock(i), w.resolve, w.succeeds(i));
    }

    /**
     * `process(limit)` at the instant `now`: takes out up to `limit` entries
     * due by now, handles them in order (entry i meeting `w.resolve`,
     * `w.succeeds(i)` and the instant `w.clock(i)`), and answers how many
     * were taken out, whatever became of them.
     */
    method Process(now: Time, w: World, limit: int := PROCESS_LIMIT) returns (n: nat)
      requires Valid()
      modifies heap, session
      ensures Valid()
      ensures var vals := OrderedHeaps.Decoded(heap.load, RangeByScore(old(heap.zset), 0, now.ToI(), limit));
        && n == |vals|
        && heap.zset == AddAll(heap.dump, Extracted(old(heap.zset), 0, now.ToI(), limit),
                               Requeued(vals, MaxAttemptsCount(), RetryInterval(), w))
        && session.calls == old(session.calls) + Dispatches(vals, MaxAttemptsCount(), w)
      ensures 0 <= limit ==> n <= limit
    {
      ghost var vals := OrderedHeaps.Decoded(heap.load, RangeByScore(heap.zset, 0, now.ToI(), limit));
      RangeByScoreSpec(heap.zset, 0, now.ToI(), limit);
      var es := Get(At(0), now, limit);
      HandleAll(es, vals, w);
      n := |es|;
    }

    /** The `each` loop of `process`: handles the extracted entries `es`, whose attributes were `vals`, in order. */
    method HandleAll(es: seq<Entry>, ghost vals: seq<Attributes>, w: World)
      requires Valid() && |es| == |vals|
      requires forall i | 0 <= i < |es| :: es[i].attributes == vals[i]
      requires forall i, j | 0 <= i < j < |es| :: es[i] != es[j]
      modifies heap, session, set i | 0 <= i < |es| :: es[i]
      ensures Valid()
      ensures heap.zset == AddAll(heap.dump, old(heap.zset), Requeued(vals, MaxAttemptsCount(), RetryInterval(), w))
      ensures session.calls == old(session.calls) + Dispatches(vals, MaxAttemptsCount(), w)
      ensures forall i | 0 <= i < |es| :: es[i].attributes == Settled(vals[i], i, MaxAttemptsCount(), RetryInterval(), w)
    {
      ghost var base := heap.zset;
      ghost var calls0 := session.calls;
      var i := 0;
      assert vals[..0] == [];
      while i < |es|
        invariant 0 <= i <= |es| && Valid()
        invariant forall j | 0 <= j < |es| ::
          es[j].attributes == if j < i then Settled(vals[j], j, MaxAttemptsCount(), RetryInterval(), w) else vals[j]
        invariant heap.zset == AddAll(heap.dump, base, Requeued(vals[..i], MaxAttemptsCount(), RetryInterval(), w))
        invariant session.calls == calls0 + Dispatches(vals[..i], MaxAttemptsCount(), w)
      {
        PrefixSnoc(vals, i);
        ProcessNext(es[i], i, vals[..i], w, base, calls0);
        i := i + 1;
      }
      assert vals[..|es|] == vals;
    }
  }
}

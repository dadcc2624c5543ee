/**
 captureMap and the alarm callback that feeds it. The map counts how often each
 whole 32-slot key was sampled; its counters are uint32_t, so an increment past
 0xFFFFFFFF wraps to zero.
 */
module Aggregator {
  import opened Words
  import opened StackWalker

  /** The contents of captureMap. */
  type Counts = map<Key, nat>

  /** 2^32: the range of a uint32_t counter. */
  const CounterLimit: nat := 0x1_0000_0000

  predicate CountersFit(c: Counts)
  {
    forall k :: k in c ==> c[k] < CounterLimit
  }

  /** What `captureMap[k]` would read: a missing key reads as a zero counter. */
  function CountOf(c: Counts, k: Key): nat
  {
    if k in c then c[k] else 0
  }

  /** `captureMap[callStack]++`: operator[] value-initialises a missing entry,
      then the uint32_t counter is incremented modulo 2^32. */
  function Record(c: Counts, k: Key): (r: Counts)
    ensures r.Keys == c.Keys + {k}
    ensures CountOf(c, k) < CounterLimit - 1 ==> r[k] == CountOf(c, k) + 1
    ensures CountOf(c, k) == CounterLimit - 1 ==> r[k] == 0
    ensures forall k' :: k' != k ==> CountOf(r, k') == CountOf(c, k')
    ensures CountersFit(c) ==> CountersFit(r)
  {
    c[k := (CountOf(c, k) + 1) % CounterLimit]
  }

  /** The sum of all counters, read as unbounded naturals. */
  ghost function Total(c: Counts): nat
    decreases |c|
  {
    if c == map[] then 0
    else
      var k :| k in c;
      c[k] + Total(c - {k})
  }

  lemma {:induction false} TotalRemove(c: Counts, k: Key)
    requires k in c
    ensures Total(c) == c[k] + Total(c - {k})
    decreases |c|
  {
    var k0 :| k0 in c && Total(c) == c[k0] + Total(c - {k0});
    if k0 != k {
      var c0 := c - {k0};
      var ck := c - {k};
      TotalRemove(c0, k);
      TotalRemove(ck, k0);
      assert c0 - {k} == ck - {k0};
    }
  }

  /** Recording a sample raises the sum of all counters by exactly one, unless the
      key's counter was about to wrap. */
  lemma RecordAddsOne(c: Counts, k: Key)
    requires CountOf(c, k) < CounterLimit - 1
    ensures Total(Record(c, k)) == Total(c) + 1
  {
    var r := Record(c, k);
    TotalRemove(r, k);
    assert r - {k} == c - {k};
    if k in c {
      TotalRemove(c, k);
    } else {
      assert c - {k} == c;
    }
  }

  /** CaptureCallback: no main thread or an invalid frame discards the sample;
      otherwise the walked key is recorded. `mainThread` is the r1 register of
      OSGetDefaultThread(1), or None when there is no such thread. */
  function CaptureCallback(c: Counts, mainThread: Option<bv32>, m: Machine): Counts
  {
    match mainThread
    case None => c
    case Some(r1) =>
      match Walk(m, r1)
      case InvalidFrame => c
      case Stack(k) => Record(c, k)
  }

  /** An aborted sample records nothing: with no main thread, or with any frame
      of the chain failing the validity oracle, the counts are unchanged. */
  lemma AbortedSampleRecordsNothing(c: Counts, mainThread: Option<bv32>, m: Machine)
    requires mainThread.None? ||
             !AllValid(m, mainThread.value, ChainLength(m, mainThread.value, Depth + 1))
    ensures CaptureCallback(c, mainThread, m) == c
  {
    if mainThread.Some? {
      WalkFollowsChain(m, mainThread.value);
    }
  }

  /** A successful sample counts the walked key once more and nothing else: the
      key is the one whose slots follow the frame chain, and the sum of all
      counters rises by one. */
  lemma SampleCountsWalkedKey(c: Counts, r1: bv32, m: Machine)
    requires AllValid(m, r1, ChainLength(m, r1, Depth + 1))
    requires Walk(m, r1).Stack? ==> CountOf(c, Walk(m, r1).key) < CounterLimit - 1
    ensures Walk(m, r1).Stack?
    ensures var r := CaptureCallback(c, Some(r1), m);
            var k := Walk(m, r1).key;
            && CountOf(r, k) == CountOf(c, k) + 1
            && (forall k' :: k' != k ==> CountOf(r, k') == CountOf(c, k'))
            && Total(r) == Total(c) + 1
  {
    WalkFollowsChain(m, r1);
    RecordAddsOne(c, Walk(m, r1).key);
  }

  /** After captureMap.clear() a sampled key starts again at one. */
  lemma RecordAfterClear(k: Key)
    ensures Record(map[], k) == map[k := 1]
    ensures Total(Record(map[], k)) == 1
  {
    RecordAddsOne(map[], k);
    assert Total(map[]) == 0;
  }
}

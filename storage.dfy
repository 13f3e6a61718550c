/**
  The day-keyed cache of article day counts: an ever-growing in-memory table
  from a day to the list of counts recorded for that day.

  Every key handed to Put or Get is first truncated to a multiple of
  TRUNCATE_TO_DAY (24 hours) counted from Go's zero time, so all instants of
  one UTC day address one slot, whatever their location.  Put overwrites that slot, Get reports the slot's
  list and whether it exists, and nothing is ever removed.  The list type is
  left abstract (the type parameter T).
 */
module Storage {
  import opened Time

  /** TRUNCATE_TO_DAY: every key is truncated to this duration. */
  const TruncateToDay: Duration := 24 * Hour

  /** The table's contents: day key to the list stored for that day. */
  type Table<T> = map<Instant, seq<T>>

  datatype Option<T> = None | Some(value: T)

  /** The key under which an instant is stored: the start of its day. */
  function DayKey(t: Instant): (k: Instant)
    ensures k <= t < k + TruncateToDay
    ensures k % TruncateToDay == 0
  {
    Truncate(t, TruncateToDay)
  }

  /** A key that truncation leaves where it is: the start of a day. */
  predicate IsDayKey(k: Instant) {
    k % TruncateToDay == 0
  }

  /** Two instants fall on the same day: the same number of whole days since the zero time. */
  predicate SameDay(s: Instant, t: Instant) {
    s / TruncateToDay == t / TruncateToDay
  }

  /** Every key of the table is the start of a day. */
  ghost predicate Normalised<T>(m: Table<T>) {
    forall k :: k in m ==> IsDayKey(k)
  }

  /** What Get reports for key on table m: the stored list and true, or nil and false. */
  function Lookup<T>(m: Table<T>, key: Instant): (seq<T>, bool) {
    var k := DayKey(key);
    if k in m then (m[k], true) else ([], false)
  }

  /** The table after Put(key, value). */
  function Stored<T>(m: Table<T>, key: Instant, value: seq<T>): Table<T> {
    m[DayKey(key) := value]
  }

  // ---------------------------------------------------------------------------
  // Key normalisation

  /** Two instants share a key exactly when they fall on the same day. */
  lemma DayKeyIffSameDay(s: Instant, t: Instant)
    ensures DayKey(s) == DayKey(t) <==> SameDay(s, t)
  {
  }

  /** A day key is a fixed point of the normalisation, and every normalised key is a day key. */
  lemma DayKeyIdempotent(t: Instant)
    ensures DayKey(DayKey(t)) == DayKey(t)
    ensures IsDayKey(t) <==> DayKey(t) == t
  {
  }

  /** Consecutive days have consecutive keys. */
  lemma DayKeyShift(t: Instant, n: int)
    ensures DayKey(t + n * TruncateToDay) == DayKey(t) + n * TruncateToDay
  {
  }

  // ---------------------------------------------------------------------------
  // Single operations on the table

  /** A fresh table reports every day as absent. */
  lemma LookupEmpty<T>(t: Instant)
    ensures Lookup<T>(map[], t) == ([], false)
  {
  }

  /** Get answers the same for every instant of one day. */
  lemma LookupSameDay<T>(m: Table<T>, s: Instant, t: Instant)
    requires SameDay(s, t)
    ensures Lookup(m, s) == Lookup(m, t)
  {
  }

  /** Get on the start of a day answers as on any instant of that day. */
  lemma LookupOnBoundary<T>(m: Table<T>, t: Instant)
    ensures Lookup(m, DayKey(t)) == Lookup(m, t)
  {
  }

  /** Put on the start of a day writes the same slot as Put on any instant of that day. */
  lemma PutOnBoundary<T>(m: Table<T>, t: Instant, v: seq<T>)
    ensures Stored(m, DayKey(t), v) == Stored(m, t, v)
  {
  }

  /** In a normalised table every held entry is reachable: Get on its key finds it. */
  lemma NormalisedReachable<T>(m: Table<T>, k: Instant)
    requires Normalised(m) && k in m
    ensures Lookup(m, k) == (m[k], true)
  {
    DayKeyIdempotent(k);
  }

  /** After Put(t, v), Get(t') gives (v, true) on t's day and the earlier answer on every other day. */
  lemma PutThenGet<T>(m: Table<T>, t: Instant, v: seq<T>, t': Instant)
    ensures Lookup(Stored(m, t, v), t') == if SameDay(t, t') then (v, true) else Lookup(m, t')
  {
  }

  /** A second Put to the same day replaces the first one entirely. */
  lemma PutOverwrites<T>(m: Table<T>, t: Instant, v: seq<T>, t': Instant, v': seq<T>)
    requires SameDay(t, t')
    ensures Stored(Stored(m, t, v), t', v') == Stored(m, t', v')
  {
  }

  /** Put leaves every other key's presence and value as they were. */
  lemma PutFrame<T>(m: Table<T>, t: Instant, v: seq<T>, k: Instant)
    requires k != DayKey(t)
    ensures k in Stored(m, t, v) <==> k in m
    ensures k in m ==> Stored(m, t, v)[k] == m[k]
  {
  }

  /** Put grows the table by one exactly when the day was new, and otherwise not at all. */
  lemma PutSize<T>(m: Table<T>, t: Instant, v: seq<T>)
    ensures |Stored(m, t, v)| == |m| + (if DayKey(t) in m then 0 else 1)
  {
  }

  /** Put keeps every key a day key. */
  lemma PutKeepsNormalised<T>(m: Table<T>, t: Instant, v: seq<T>)
    requires Normalised(m)
    ensures Normalised(Stored(m, t, v))
  {
  }

  // ---------------------------------------------------------------------------
  // Histories: each method call is one atomic step (the lock serialises them),
  // so any concurrent run is some sequence of calls.

  datatype Call<T> = Put(key: Instant, value: seq<T>) | Get(key: Instant) | Size

  /** The table after the calls, in order, starting from m; Get and Size change nothing. */
  function Run<T>(m: Table<T>, calls: seq<Call<T>>): Table<T>
    decreases |calls|
  {
    if calls == [] then m
    else
      var before := Run(m, calls[..|calls| - 1]);
      match calls[|calls| - 1]
      case Put(key, value) => Stored(before, key, value)
      case Get(_) => before
      case Size => before
  }

  /** The value of the latest Put among the calls whose key falls on day, if any. */
  function LastPut<T>(calls: seq<Call<T>>, day: Instant): Option<seq<T>>
    decreases |calls|
  {
    if calls == [] then None
    else
      var c := calls[|calls| - 1];
      if c.Put? && DayKey(c.key) == day then Some(c.value)
      else LastPut(calls[..|calls| - 1], day)
  }

  /** The days some Put among the calls wrote to. */
  function PutDays<T>(calls: seq<Call<T>>): set<Instant> {
    set i | 0 <= i < |calls| && calls[i].Put? :: DayKey(calls[i].key)
  }

  /** Last write wins: Get after a history returns the latest Put to that day, else the starting answer. */
  lemma {:induction false} RunLookup<T>(m: Table<T>, calls: seq<Call<T>>, t: Instant)
    ensures Lookup(Run(m, calls), t) ==
              match LastPut(calls, DayKey(t))
              case Some(v) => (v, true)
              case None => Lookup(m, t)
    decreases |calls|
  {
    if calls != [] {
      var prefix := calls[..|calls| - 1];
      RunLookup(m, prefix, t);
      var c := calls[|calls| - 1];
      if c.Put? {
        PutThenGet(Run(m, prefix), c.key, c.value, t);
        DayKeyIffSameDay(c.key, t);
      }
    }
  }

  /** The keys after a history are the starting keys and the days that were Put, no more. */
  lemma {:induction false} RunKeys<T>(m: Table<T>, calls: seq<Call<T>>)
    ensures Run(m, calls).Keys == m.Keys + PutDays(calls)
    decreases |calls|
  {
    if calls != [] {
      var prefix := calls[..|calls| - 1];
      var c := calls[|calls| - 1];
      RunKeys(m, prefix);
      assert calls == prefix + [c];
      assert PutDays(calls) == PutDays(prefix) + (if c.Put? then {DayKey(c.key)} else {});
    }
  }

  /** Which days are present does not depend on the order in which the calls were serialised. */
  lemma RunKeysOrderFree<T>(m: Table<T>, calls: seq<Call<T>>, calls': seq<Call<T>>)
    requires multiset(calls) == multiset(calls')
    ensures Run(m, calls).Keys == Run(m, calls').Keys
  {
    RunKeys(m, calls);
    RunKeys(m, calls');
    forall day | day in PutDays(calls) ensures day in PutDays(calls') {
      var i :| 0 <= i < |calls| && calls[i].Put? && DayKey(calls[i].key) == day;
      assert calls[i] in multiset(calls');
      var j :| 0 <= j < |calls'| && calls'[j] == calls[i];
    }
    forall day | day in PutDays(calls') ensures day in PutDays(calls) {
      var j :| 0 <= j < |calls'| && calls'[j].Put? && DayKey(calls'[j].key) == day;
      assert calls'[j] in multiset(calls);
      var i :| 0 <= i < |calls| && calls[i] == calls'[j];
    }
  }

  /** Get on a day that no Put touched reports not-found on a table that started empty. */
  lemma NeverPutNotFound<T>(calls: seq<Call<T>>, t: Instant)
    requires DayKey(t) !in PutDays(calls)
    ensures Lookup(Run(map[], calls), t) == ([], false)
  {
  }

  /** size() after a history from the empty table counts the distinct days that were Put. */
  lemma RunSize<T>(calls: seq<Call<T>>)
    ensures |Run(map[], calls)| == |PutDays(calls)|
  {
    RunKeys(map[], calls);
    assert Run(map[], calls).Keys == PutDays(calls);
  }

  /** There is no removal: size() never decreases along a history. */
  lemma {:induction false} RunSizeMonotone<T>(m: Table<T>, calls: seq<Call<T>>, i: nat)
    requires i <= |calls|
    ensures |Run(m, calls[..i])| <= |Run(m, calls)|
    decreases |calls|
  {
    if i < |calls| {
      var prefix := calls[..|calls| - 1];
      assert calls[..i] == prefix[..i];
      RunSizeMonotone(m, prefix, i);
      var c := calls[|calls| - 1];
      if c.Put? {
        PutSize(Run(m, prefix), c.key, c.value);
      }
    } else {
      assert calls[..i] == calls;
    }
  }

  /** No two Puts among the calls write to the same day, as in the load test. */
  predicate DistinctPutDays<T>(calls: seq<Call<T>>) {
    forall i, j :: 0 <= i < j < |calls| && calls[i].Put? && calls[j].Put? ==>
      DayKey(calls[i].key) != DayKey(calls[j].key)
  }

  /** With Puts to pairwise distinct days, the latest Put to a Put's day is that Put. */
  lemma {:induction false} LastPutDistinct<T>(calls: seq<Call<T>>, i: nat)
    requires i < |calls| && calls[i].Put? && DistinctPutDays(calls)
    ensures LastPut(calls, DayKey(calls[i].key)) == Some(calls[i].value)
    decreases |calls|
  {
    if i < |calls| - 1 {
      var prefix := calls[..|calls| - 1];
      assert prefix[i] == calls[i];
      assert DistinctPutDays(prefix) by {
        forall a, b | 0 <= a < b < |prefix| && prefix[a].Put? && prefix[b].Put?
          ensures DayKey(prefix[a].key) != DayKey(prefix[b].key)
        {
          assert prefix[a] == calls[a] && prefix[b] == calls[b];
        }
      }
      LastPutDistinct(prefix, i);
    }
  }

  /**
    With Puts to pairwise distinct days, every Put's value is what Get returns afterwards,
    in whatever order the calls were serialised.
   */
  lemma RunDistinctPuts<T>(calls: seq<Call<T>>, i: nat)
    requires i < |calls| && calls[i].Put? && DistinctPutDays(calls)
    ensures Lookup(Run(map[], calls), calls[i].key) == (calls[i].value, true)
  {
    LastPutDistinct(calls, i);
    RunLookup(map[], calls, calls[i].key);
  }

  /** Every table reached from a normalised one holds day keys only. */
  lemma {:induction false} RunKeepsNormalised<T>(m: Table<T>, calls: seq<Call<T>>)
    requires Normalised(m)
    ensures Normalised(Run(m, calls))
    decreases |calls|
  {
    if calls != [] {
      var prefix := calls[..|calls| - 1];
      RunKeepsNormalised(m, prefix);
      var c := calls[|calls| - 1];
      if c.Put? {
        PutKeepsNormalised(Run(m, prefix), c.key, c.value);
      }
    }
  }

  // ---------------------------------------------------------------------------
  // The store itself

  /** LocalMapStorage: the table behind a reader/writer lock; each method is one atomic step on this value. */
  class LocalMapStorage<T> {
    var internal: Table<T>

    /** Every key held is the start of a day. */
    ghost predicate Valid()
      reads this
    {
      Normalised(internal)
    }

    /** StorageImpl is built with an empty map. */
    constructor ()
      ensures Valid()
      ensures internal == map[]
      ensures forall t :: Lookup(internal, t) == ([], false)
    {
      internal := map[];
    }

    /** Put: store value under the day of key, replacing what that day held. */
    method Put(key: Instant, value: seq<T>)
      requires Valid()
      modifies this
      ensures internal == Stored(old(internal), key, value)
      ensures DayKey(key) in internal && internal[DayKey(key)] == value
      ensures forall k :: k != DayKey(key) ==>
                (k in internal <==> k in old(internal)) &&
                (k in internal ==> internal[k] == old(internal)[k])
      ensures |internal| == |old(internal)| + (if DayKey(key) in old(internal) then 0 else 1)
      ensures Valid()
    {
      var k := DayKey(key);
      PutSize(internal, key, value);
      internal := internal[k := value];
    }

    /** Get: the list stored for the day of key and true, or nil and false; the table is untouched. */
    method Get(key: Instant) returns (obj: seq<T>, ok: bool)
      requires Valid()
      ensures ok <==> DayKey(key) in internal
      ensures ok ==> obj == internal[DayKey(key)]
      ensures !ok ==> obj == []
      ensures (obj, ok) == Lookup(internal, key)
    {
      var k := DayKey(key);
      if k in internal {
        obj, ok := internal[k], true;
      } else {
        obj, ok := [], false;
      }
    }

    /** size: the number of distinct day keys held, each of them a day that Get finds. */
    method Size() returns (n: nat)
      requires Valid()
      ensures n == |internal|
      ensures forall k {:trigger Lookup(internal, k)} :: k in internal ==> Lookup(internal, k) == (internal[k], true)
    {
      n := |internal|;
      forall k | k in internal
        ensures Lookup(internal, k) == (internal[k], true)
      {
        NormalisedReachable(internal, k);
      }
    }
  }
}

/**
  The store's own load test, serialised: Put one payload for each of
  10000 consecutive days starting at an arbitrary instant, then Get every one
  of those instants back.  The test runs the Puts concurrently; under the lock
  each is one atomic step.  The lemmas on histories in module Storage say that
  which days are found does not depend on the order of the calls, and that with
  Puts to pairwise distinct days, as here, neither do the lists Get returns.
 */
module StorageTest {
  import opened Time
  import opened Storage

  /** The number of consecutive days the test loads. */
  const TestDays: nat := 10000

  /** Every one of the TestDays days from now on holds payload under its day key. */
  ghost predicate HoldsEveryDay<T>(m: Table<T>, now: Instant, payload: seq<T>) {
    forall j :: 0 <= j < TestDays ==>
      DayKey(now) + j * TruncateToDay in m && m[DayKey(now) + j * TruncateToDay] == payload
  }

  /** Loads TestDays days from now on into a fresh store, then reads them back. */
  method LoadThenGetAll<T(==)>(now: Instant, payload: seq<T>) returns (allFound: bool, size: nat)
    ensures allFound
    ensures size == TestDays
  {
    var store := new LocalMapStorage<T>();
    LoadDays(store, now, payload);
    size := store.Size();
    allFound := GetAllDays(store, now, payload);
  }

  /** The loading half: one Put per day, each to a day not held before. */
  method LoadDays<T>(store: LocalMapStorage<T>, now: Instant, payload: seq<T>)
    requires store.Valid() && store.internal == map[]
    modifies store
    ensures store.Valid()
    ensures |store.internal| == TestDays
    ensures HoldsEveryDay(store.internal, now, payload)
  {
    var base := DayKey(now);
    var future := now + TestDays * TruncateToDay;
    var d, i := now, 0;
    while d < future
      invariant 0 <= i <= TestDays
      invariant d == now + i * TruncateToDay
      invariant store.Valid()
      invariant |store.internal| == i
      invariant forall j :: 0 <= j < i ==>
                  base + j * TruncateToDay in store.internal &&
                  store.internal[base + j * TruncateToDay] == payload
      invariant forall k :: k in store.internal ==> k < base + i * TruncateToDay
    {
      DayKeyShift(now, i);
      store.Put(d, payload);
      d, i := d + TruncateToDay, i + 1;
    }
  }

  /** The checking half: Get on every loaded day finds it with its payload. */
  method GetAllDays<T(==)>(store: LocalMapStorage<T>, now: Instant, payload: seq<T>) returns (allFound: bool)
    requires store.Valid()
    requires HoldsEveryDay(store.internal, now, payload)
    ensures allFound
  {
    var future := now + TestDays * TruncateToDay;
    allFound := true;
    var d, i := now, 0;
    while d < future
      invariant 0 <= i <= TestDays
      invariant d == now + i * TruncateToDay
      invariant allFound
    {
      DayKeyShift(now, i);
      var obj, found := store.Get(d);
      allFound := allFound && found && obj == payload;
      d, i := d + TruncateToDay, i + 1;
    }
  }
}

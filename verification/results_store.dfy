/** `ResultsStore` of lib/results-store.ts: an in-memory map of task
    results whose only removal, besides `delete` and `clear`, is the cleanup
    timer each `set` schedules ten minutes ahead. The timers are a queue that
    `FireTimer` runs in scheduling order. The clock is not modelled, so when
    a timer fires is left unconstrained: every property below holds whatever
    the time at which each timer fires. */
module ResultsStore {
  import opened Optional

  /** The entries, each the task's `StoredResult` (status, results and
      timestamp, of type `D` here), and the task ids of the pending timers in
      scheduling order. */
  datatype Store<D> = Store(entries: map<string, D>, timers: seq<string>)

  datatype DeleteResult<D> = DeleteResult(store: Store<D>, removed: bool)

  function Fresh<D>(): Store<D> {
    Store(map[], [])
  }

  /** `set(taskId, data)`: stores or overwrites the entry and schedules one
      more cleanup of the task. */
  function Set<D>(st: Store<D>, id: string, data: D): (r: Store<D>)
    ensures r.entries.Keys == st.entries.Keys + {id}
    ensures r.entries[id] == data
    ensures forall k :: k in st.entries && k != id ==> r.entries[k] == st.entries[k]
    ensures r.timers == st.timers + [id]
  {
    Store(st.entries[id := data], st.timers + [id])
  }

  /** `get(taskId)`: the stored entry, with no expiry check. */
  function Get<D>(st: Store<D>, id: string): (r: Option<D>)
    ensures r.Some? <==> id in st.entries
    ensures r.Some? ==> r.value == st.entries[id]
  {
    if id in st.entries then Some(st.entries[id]) else None
  }

  /** `delete(taskId)`: `Map.prototype.delete`, true exactly when the entry
      was present. */
  function Delete<D>(st: Store<D>, id: string): (r: DeleteResult<D>)
    ensures r.removed <==> id in st.entries
    ensures r.store.entries == st.entries - {id}
    ensures r.store.timers == st.timers
  {
    DeleteResult(Store(st.entries - {id}, st.timers), id in st.entries)
  }

  function Has<D>(st: Store<D>, id: string): (b: bool)
    ensures b <==> Get(st, id).Some?
  {
    id in st.entries
  }

  /** `clear()`: every entry goes; pending timers stay scheduled. */
  function Clear<D>(st: Store<D>): (r: Store<D>)
    ensures forall id :: !Has(r, id)
    ensures r.timers == st.timers
  {
    Store(map[], st.timers)
  }

  /** The earliest pending timer fires and deletes its task. */
  function FireTimer<D>(st: Store<D>): (r: Store<D>)
    requires |st.timers| > 0
    ensures !Has(r, st.timers[0])
    ensures r.timers == st.timers[1..]
  {
    Store(Delete(st, st.timers[0]).store.entries, st.timers[1..])
  }

  /** `get` after `set` returns the stored data, and a later `set` of the
      same task overwrites it. */
  lemma GetAfterSet<D>(st: Store<D>, id: string, d1: D, d2: D)
    ensures Get(Set(st, id, d1), id) == Some(d1)
    ensures Get(Set(Set(st, id, d1), id, d2), id) == Some(d2)
  {
  }

  /** The stored data survives any operation on other tasks and any timer of
      another task; only `delete`, `clear` or a timer of the same task
      removes it. */
  lemma EntrySurvivesOtherOperations<D>(st: Store<D>, id: string, other: string, d: D)
    requires id in st.entries && other != id
    ensures Get(Set(st, other, d), id) == Get(st, id)
    ensures Get(Delete(st, other).store, id) == Get(st, id)
    ensures |st.timers| > 0 && st.timers[0] != id ==> Get(FireTimer(st), id) == Get(st, id)
  {
  }

  /** After `delete` the task is absent, and a repeated `delete` is harmless:
      it reports false and changes nothing. */
  lemma DeleteThenAbsent<D>(st: Store<D>, id: string)
    ensures var s := Delete(st, id).store;
      && !Has(s, id)
      && !Delete(s, id).removed
      && Delete(s, id).store == s
  {
  }

  /** Entries never expire by themselves: with no pending timer for the task,
      any number of timers firing leaves it in place. */
  lemma {:induction false} NoTimerNoExpiry<D>(st: Store<D>, id: string, n: nat)
    requires id in st.entries
    requires n <= |st.timers|
    requires forall k :: 0 <= k < n ==> st.timers[k] != id
    ensures id in FireTimers(st, n).entries && FireTimers(st, n).entries[id] == st.entries[id]
    decreases n
  {
    if n > 0 {
      var s := FireTimer(st);
      assert s.entries[id] == st.entries[id];
      forall k | 0 <= k < n - 1
        ensures s.timers[k] != id
      {
        assert s.timers[k] == st.timers[k + 1];
      }
      NoTimerNoExpiry(s, id, n - 1);
    }
  }

  /** `n` timers firing in a row. */
  function FireTimers<D>(st: Store<D>, n: nat): (r: Store<D>)
    requires n <= |st.timers|
    ensures r.timers == st.timers[n..]
    ensures r.entries.Keys <= st.entries.Keys
    decreases n
  {
    if n == 0 then st else FireTimers(FireTimer(st), n - 1)
  }

  /** The timer of an earlier `set` removes a later `set` of the same task,
      ten minutes after the first `set` rather than after the second. */
  lemma EarlierTimerCutsLaterSet<D>(id: string, d1: D, d2: D)
    ensures var s := Set(Set(Fresh<D>(), id, d1), id, d2);
      && Get(s, id) == Some(d2)
      && Get(FireTimer(s), id) == None
  {
  }
}

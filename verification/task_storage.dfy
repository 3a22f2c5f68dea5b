/** `FileSystemStore` of lib/storage.ts: task results kept in a memory map
    and mirrored in one JSON file per task, both stamped with an expiry ten
    minutes after they were stored. The clock (`Date.now()`) is the `now`
    argument, the file system is a second map whose writes and removals may
    fail (the `writeOk`, `unlinkOk` and `dirOk` arguments), and the cleanup
    timers `set` schedules are a queue that `FireTimer` runs once the
    clock has reached the head timer's due time. */
module TaskStorage {
  import opened Optional

  /** Ten minutes, in milliseconds. */
  const Ttl: int := 600000

  /** A `StoredResult`: the stored data with its expiry time. */
  datatype Record<D> = Record(data: D, expiresAt: int)

  /** A pending cleanup timer, calling `delete(id)` at time `due`. */
  datatype Timer = Timer(id: string, due: int)

  /** The memory cache, the task files keyed by task id, and the pending
      timers in scheduling order. */
  datatype Store<D> = Store(memory: map<string, Record<D>>, files: map<string, Record<D>>, timers: seq<Timer>)

  datatype GetResult<D> = GetResult(store: Store<D>, value: Option<Record<D>>)

  datatype DeleteResult<D> = DeleteResult(store: Store<D>, removed: bool)

  function Fresh<D>(): Store<D> {
    Store(map[], map[], [])
  }

  /** `set(taskId, data)` at time `now`: the memory entry is written first and
      kept whatever happens to the file; a cleanup timer is scheduled only
      after a successful file write. */
  function Set<D>(st: Store<D>, id: string, data: D, now: int, writeOk: bool): (r: Store<D>)
    ensures id in r.memory && r.memory[id] == Record(data, now + Ttl)
    ensures forall k :: k != id ==> (k in r.memory <==> k in st.memory)
    ensures forall k :: k != id && k in st.memory ==> r.memory[k] == st.memory[k]
    ensures writeOk ==> id in r.files && r.files[id] == Record(data, now + Ttl)
    ensures writeOk ==> r.timers == st.timers + [Timer(id, now + Ttl)]
    ensures !writeOk ==> r.files == st.files && r.timers == st.timers
    ensures forall k :: k != id ==> (k in r.files <==> k in st.files)
    ensures forall k :: k != id && k in st.files ==> r.files[k] == st.files[k]
  {
    var rec := Record(data, now + Ttl);
    var mem := st.memory[id := rec];
    if writeOk then Store(mem, st.files[id := rec], st.timers + [Timer(id, now + Ttl)])
    else Store(mem, st.files, st.timers)
  }

  /** `delete(taskId)`: the memory entry always goes; the result is true
      exactly when the file existed and its removal succeeded. */
  function Delete<D>(st: Store<D>, id: string, unlinkOk: bool): (r: DeleteResult<D>)
    ensures id !in r.store.memory
    ensures r.removed <==> id in st.files && unlinkOk
    ensures r.removed ==> id !in r.store.files
    ensures !r.removed ==> r.store.files == st.files
    ensures r.store.memory == st.memory - {id}
    ensures r.store.timers == st.timers
  {
    var mem := st.memory - {id};
    if id in st.files && unlinkOk then DeleteResult(Store(mem, st.files - {id}, st.timers), true)
    else DeleteResult(Store(mem, st.files, st.timers), false)
  }

  /** `get(taskId)` at time `now`: a memory entry that has not expired
      (strictly later expiry) is returned as it is; otherwise the file is
      read, and a read or parse failure (`readOk` false, or no file at all)
      yields nothing. A file that was read counts as expired when its expiry
      is at or before `now` and is then deleted from both layers, and is
      otherwise copied back into memory. */
  function Get<D>(st: Store<D>, id: string, now: int, unlinkOk: bool, readOk: bool): (r: GetResult<D>)
    ensures r.value.Some? ==> r.value.value.expiresAt > now
    ensures r.value.Some? ==> id in r.store.memory && r.store.memory[id] == r.value.value
    ensures r.value.Some? <==>
      (id in st.memory && st.memory[id].expiresAt > now)
      || (readOk && id in st.files && st.files[id].expiresAt > now)
    ensures id in st.memory && st.memory[id].expiresAt > now ==>
      r.value == Some(st.memory[id]) && r.store == st
    ensures !(id in st.memory && st.memory[id].expiresAt > now) && !readOk ==>
      r.value == None && r.store == st
  {
    if id in st.memory && st.memory[id].expiresAt > now then GetResult(st, Some(st.memory[id]))
    else if !readOk || id !in st.files then GetResult(st, None)
    else if st.files[id].expiresAt <= now then GetResult(Delete(st, id, unlinkOk).store, None)
    else GetResult(st.(memory := st.memory[id := st.files[id]]), Some(st.files[id]))
  }

  /** `has(taskId)`: present in memory, expired or not; otherwise present
      when `fs.access` on the file succeeds, which needs the file to exist
      and the access check not to fail (`accessOk`). */
  function Has<D>(st: Store<D>, id: string, accessOk: bool): (b: bool)
    ensures b <==> id in st.memory || (accessOk && id in st.files)
    ensures !accessOk ==> (b <==> id in st.memory)
  {
    id in st.memory || (accessOk && id in st.files)
  }

  /** `clear()`: the memory is emptied; the task files are removed when the
      directory can be listed, and otherwise left in place. Pending timers
      are not cancelled. */
  function Clear<D>(st: Store<D>, dirOk: bool): (r: Store<D>)
    ensures r.memory == map[]
    ensures dirOk ==> r.files == map[]
    ensures !dirOk ==> r.files == st.files
    ensures r.timers == st.timers
  {
    Store(map[], if dirOk then map[] else st.files, st.timers)
  }

  /** At time `now`, once it is due, the earliest pending timer fires and
      runs `delete` on its task: the memory entry goes, the file goes when
      it can be unlinked, and every other task is left as it was. */
  function FireTimer<D>(st: Store<D>, now: int, unlinkOk: bool): (r: Store<D>)
    requires |st.timers| > 0 && st.timers[0].due <= now
    ensures r.timers == st.timers[1..]
    ensures r.memory == st.memory - {st.timers[0].id}
    ensures unlinkOk ==> r.files == st.files - {st.timers[0].id}
    ensures !unlinkOk ==> r.files == st.files
  {
    var d := Delete(st, st.timers[0].id, unlinkOk).store;
    d.(timers := st.timers[1..])
  }

  /** Every stored record expires at most `Ttl` after `now`: the state of a
      store whose records were all written at or before `now`. */
  ghost predicate WellTimed<D>(st: Store<D>, now: int) {
    && (forall k :: k in st.memory ==> st.memory[k].expiresAt <= now + Ttl)
    && (forall k :: k in st.files ==> st.files[k].expiresAt <= now + Ttl)
  }

  /** Every operation keeps the store well timed, and time passing does too. */
  lemma WellTimedPreserved<D>(st: Store<D>, now: int, later: int, id: string, data: D, ok: bool, readOk: bool)
    requires WellTimed(st, now) && now <= later
    ensures WellTimed(st, later)
    ensures WellTimed(Set(st, id, data, later, ok), later)
    ensures WellTimed(Get(st, id, later, ok, readOk).store, later)
    ensures WellTimed(Delete(st, id, ok).store, later)
    ensures WellTimed(Clear(st, ok), later)
    ensures |st.timers| > 0 && st.timers[0].due <= later ==> WellTimed(FireTimer(st, later, ok), later)
  {
  }

  /** The expiry law: a record stored at time `t0` in a well-timed store is
      returned by `get` at every time before `t0 + Ttl` and at no time from
      `t0 + Ttl` on, whether or not its file write succeeded and whether or
      not a file read would succeed. */
  lemma ExpiryLaw<D>(st: Store<D>, id: string, data: D, t0: int, writeOk: bool, t: int, unlinkOk: bool, readOk: bool)
    requires WellTimed(st, t0)
    ensures var s := Set(st, id, data, t0, writeOk);
      && (t < t0 + Ttl ==> Get(s, id, t, unlinkOk, readOk).value == Some(Record(data, t0 + Ttl)))
      && (t >= t0 + Ttl ==> Get(s, id, t, unlinkOk, readOk).value == None)
  {
  }

  /** On the file path an expired record is removed from both layers when
      the file can be unlinked; an unexpired one is copied back into memory;
      a file that cannot be read or parsed yields nothing and changes
      nothing, even when it holds an unexpired record. */
  lemma FilePathBehaviour<D>(st: Store<D>, id: string, now: int, unlinkOk: bool, readOk: bool)
    requires id in st.files
    requires id !in st.memory || st.memory[id].expiresAt <= now
    ensures var r := Get(st, id, now, unlinkOk, readOk);
      && (readOk && st.files[id].expiresAt <= now ==>
            r.value == None && id !in r.store.memory && (unlinkOk ==> id !in r.store.files))
      && (readOk && st.files[id].expiresAt > now ==>
            r.value == Some(st.files[id]) && r.store.memory == st.memory[id := st.files[id]]
            && r.store.files == st.files)
      && (!readOk ==> r.value == None && r.store == st)
  {
  }

  /** A failed file write leaves the memory entry readable until it expires,
      and schedules no cleanup. */
  lemma WriteFailureKeepsMemory<D>(st: Store<D>, id: string, data: D, t0: int, t: int, unlinkOk: bool, readOk: bool)
    requires t < t0 + Ttl
    ensures var s := Set(st, id, data, t0, false);
      && Get(s, id, t, unlinkOk, readOk).value == Some(Record(data, t0 + Ttl))
      && s.timers == st.timers
      && s.files == st.files
  {
  }

  /** A second `delete` of the same task reports false, since the first one
      already removed both the entry and the file. */
  lemma SecondDeleteReturnsFalse<D>(st: Store<D>, id: string, ok1: bool, ok2: bool)
    ensures var first := Delete(st, id, ok1);
      first.removed ==> !Delete(first.store, id, ok2).removed
  {
  }

  /** `has` performs no expiry check: an expired entry left in memory still
      counts as present, although `get` no longer returns it. */
  lemma HasIgnoresExpiry<D>(st: Store<D>, id: string, now: int, unlinkOk: bool, readOk: bool, accessOk: bool)
    requires id in st.memory && st.memory[id].expiresAt <= now && id !in st.files
    ensures Has(st, id, accessOk)
    ensures Get(st, id, now, unlinkOk, readOk).value == None
    ensures Has(Get(st, id, now, unlinkOk, readOk).store, id, accessOk)
  {
  }

  /** Operations on one task leave every other task as `get` and `has` see it. */
  lemma OtherTasksUnaffected<D>(st: Store<D>, id: string, other: string, data: D, now: int, t: int,
                                ok: bool, ok2: bool, readOk: bool, readOk2: bool, accessOk: bool)
    requires other != id
    ensures Get(Set(st, id, data, now, ok), other, t, ok2, readOk2).value == Get(st, other, t, ok2, readOk2).value
    ensures Get(Delete(st, id, ok).store, other, t, ok2, readOk2).value == Get(st, other, t, ok2, readOk2).value
    ensures Get(Get(st, id, now, ok, readOk).store, other, t, ok2, readOk2).value == Get(st, other, t, ok2, readOk2).value
    ensures Has(Set(st, id, data, now, ok), other, accessOk) == Has(st, other, accessOk)
    ensures Has(Delete(st, id, ok).store, other, accessOk) == Has(st, other, accessOk)
  {
  }

  /** A firing timer leaves every task other than its own as `get` and
      `has` see it. */
  lemma TimerSparesOtherTasks<D>(st: Store<D>, now: int, other: string, t: int,
                                 ok: bool, ok2: bool, readOk: bool, accessOk: bool)
    requires |st.timers| > 0 && st.timers[0].due <= now && st.timers[0].id != other
    ensures Get(FireTimer(st, now, ok), other, t, ok2, readOk).value == Get(st, other, t, ok2, readOk).value
    ensures Has(FireTimer(st, now, ok), other, accessOk) == Has(st, other, accessOk)
  {
  }

  /** After a successful `clear` nothing is present or retrievable. */
  lemma ClearEmpties<D>(st: Store<D>, id: string, now: int, ok: bool, readOk: bool, accessOk: bool)
    ensures !Has(Clear(st, true), id, accessOk)
    ensures Get(Clear(st, true), id, now, ok, readOk).value == None
  {
  }

  /** The cleanup timer of an earlier `set` also deletes a later `set` of the
      same task: when it fires, that later record is still readable and
      unexpired. Afterwards it is gone from memory, so when the timer also
      unlinked the file, `get` returns nothing until the later record would
      have expired; when the unlink failed, `get` reloads it from the file
      as long as the file can be read. */
  lemma EarlierTimerCutsLaterSet<D>(id: string, d1: D, d2: D, t1: int, t2: int, t: int,
                                    unlinkOk: bool, ok: bool, readOk: bool)
    requires t1 < t2
    ensures var s := Set(Set(Fresh<D>(), id, d1, t1, true), id, d2, t2, true);
      && s.timers[0] == Timer(id, t1 + Ttl)
      && s.memory[id].expiresAt > t1 + Ttl
      && Get(s, id, t1 + Ttl, unlinkOk, readOk).value == Some(Record(d2, t2 + Ttl))
      && id !in FireTimer(s, t1 + Ttl, unlinkOk).memory
      && (t1 + Ttl <= t < t2 + Ttl && unlinkOk ==>
            Get(FireTimer(s, t1 + Ttl, unlinkOk), id, t, ok, readOk).value == None)
      && (t1 + Ttl <= t < t2 + Ttl && !unlinkOk && readOk ==>
            Get(FireTimer(s, t1 + Ttl, unlinkOk), id, t, ok, readOk).value == Some(Record(d2, t2 + Ttl)))
  {
  }
}

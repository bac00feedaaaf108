/** The per-browser session id (`getOrCreateSessionId` in
    src/lib/sessionUtils.ts): a read-through cache over the browser's local
    storage. The storage is a string-to-string map; whether a `window`
    exists (false during server-side rendering) is a flag; the random UUID
    the source would generate is passed in. Every storage access is logged,
    so that the reads and writes a call performs can be stated. */
module SessionIdentity {
  import opened Sequences

  const StorageKey := "ai_recruiter_session_id"

  /** One access of local storage. */
  datatype Access = Read(key: string) | Write(key: string, value: string)

  /** The environment a call runs in. */
  datatype Env = Env(hasWindow: bool, store: map<string, string>)

  /** The id returned, the storage afterwards, and the accesses made. */
  datatype Lookup = Lookup(id: string, store: map<string, string>, log: seq<Access>)

  /** `localStorage.getItem(key)` is truthy: present and not empty. */
  predicate HoldsId(store: map<string, string>) {
    StorageKey in store && store[StorageKey] != ""
  }

  predicate IsWrite(a: Access) {
    a.Write?
  }

  /** The writes among the accesses, in order. */
  function Writes(log: seq<Access>): seq<Access> {
    Filter(log, IsWrite)
  }

  /** `getOrCreateSessionId`. Without a window it returns "" and touches
      nothing. With one it reads the key once; a non-empty stored id is
      returned as is, otherwise `freshId` is written under the key and
      returned. */
  function GetOrCreateSessionId(env: Env, freshId: string): (r: Lookup)
    // server side: nothing is read or written
    ensures !env.hasWindow ==> r.id == "" && r.store == env.store && r.log == []
    // with a window: the key is read first and, afterwards, holds the returned id
    ensures env.hasWindow ==> |r.log| > 0 && r.log[0] == Read(StorageKey)
    ensures env.hasWindow ==> StorageKey in r.store && r.store[StorageKey] == r.id
    // a stored id is returned unchanged and nothing is written
    ensures env.hasWindow && HoldsId(env.store) ==>
              r.id == env.store[StorageKey] && r.store == env.store && Writes(r.log) == []
    // otherwise the fresh id is the one value written, under the key only
    ensures env.hasWindow && !HoldsId(env.store) ==>
              r.id == freshId && Writes(r.log) == [Write(StorageKey, freshId)]
    // no other key is added, removed or changed
    ensures r.store.Keys <= env.store.Keys + {StorageKey}
    ensures forall k :: k in env.store && k != StorageKey ==> k in r.store && r.store[k] == env.store[k]
  {
    if !env.hasWindow then Lookup("", env.store, [])
    else if HoldsId(env.store) then Lookup(env.store[StorageKey], env.store, [Read(StorageKey)])
    else
      var log := [Read(StorageKey), Write(StorageKey, freshId)];
      assert Writes(log) == [Write(StorageKey, freshId)] by {
        FilterCons(Read(StorageKey), [Write(StorageKey, freshId)], IsWrite);
        FilterCons(Write(StorageKey, freshId), [], IsWrite);
        assert [Write(StorageKey, freshId)] + [] == [Write(StorageKey, freshId)];
      }
      Lookup(freshId, env.store[StorageKey := freshId], log)
  }

  /** Once an id is stored, every later call returns it, whatever id the
      generator would have produced, and writes nothing. Because the
      generator never produces an empty id, the first call already leaves one
      stored, so a second call returns the first call's id and leaves the
      storage as the first call left it. */
  lemma Idempotent(env: Env, freshId: string, laterId: string)
    requires freshId != ""
    ensures var first := GetOrCreateSessionId(env, freshId);
            var second := GetOrCreateSessionId(Env(env.hasWindow, first.store), laterId);
            && second.id == first.id
            && second.store == first.store
            && Writes(second.log) == []
  {
  }

  /** With a window, the returned id is never empty. */
  lemma IdNonEmptyWithWindow(env: Env, freshId: string)
    requires env.hasWindow && freshId != ""
    ensures GetOrCreateSessionId(env, freshId).id != ""
  {
  }

  /** Only a fresh browser profile (no usable id stored) consumes a
      generated id; otherwise the result does not depend on the generator. */
  lemma GeneratorUsedOnlyWhenMissing(env: Env, id1: string, id2: string)
    requires !(env.hasWindow && !HoldsId(env.store))
    ensures GetOrCreateSessionId(env, id1) == GetOrCreateSessionId(env, id2)
  {
  }
}

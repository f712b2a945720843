/** The key-value settings store (core/src/db/settings.rs) over the
    `settings` table, keyed by its PRIMARY KEY `key`; `CURRENT_TIMESTAMP`
    is the logical clock `now`. */
module SettingsRepo {
  import opened Wrappers

  /** A row: the value and its two timestamps. */
  datatype Setting = Setting(value: string, createdAt: string, updatedAt: string)

  type Settings = map<string, Setting>

  function Empty(): (t: Settings)
    ensures forall key :: key !in t
  {
    map[]
  }

  /** `get`: `SELECT value … WHERE key = ?`. */
  function Get(t: Settings, key: string): (r: Option<string>)
    ensures r.Some? <==> key in t
    ensures r.Some? ==> r.value == t[key].value
  {
    if key in t then Some(t[key].value) else None
  }

  /** `set`: insert the key, or on conflict replace its value; either way
      `updated_at` is now, and a new row's `created_at` defaults to now. */
  function Set(t: Settings, key: string, value: string, now: string): (r: Settings)
    ensures r.Keys == t.Keys + {key}
    ensures r[key].value == value && r[key].updatedAt == now
    ensures r[key].createdAt == if key in t then t[key].createdAt else now
    ensures forall k :: k in t && k != key ==> r[k] == t[k]
  {
    if key in t then t[key := t[key].(value := value, updatedAt := now)]
    else t[key := Setting(value, now, now)]
  }

  /** `delete`: whether a row went, and the store without it. */
  function Delete(t: Settings, key: string): (r: (bool, Settings))
    ensures r.0 <==> key in t
    ensures key !in r.1
    ensures forall k :: k != key ==> (k in r.1 <==> k in t)
    ensures forall k :: k in r.1 ==> r.1[k] == t[k]
  {
    (key in t, t - {key})
  }

  /** A value set is the value read back. */
  lemma GetAfterSet(t: Settings, key: string, value: string, now: string)
    ensures Get(Set(t, key, value, now), key) == Some(value)
  {
  }

  /** A second `set` of the same key wins, and the key was created once. */
  lemma SetOverwrites(t: Settings, key: string, v1: string, v2: string, now1: string, now2: string)
    ensures Get(Set(Set(t, key, v1, now1), key, v2, now2), key) == Some(v2)
    ensures Set(Set(t, key, v1, now1), key, v2, now2)[key].createdAt == Set(t, key, v1, now1)[key].createdAt
  {
  }

  /** After a delete the key reads as absent. */
  lemma GetAfterDelete(t: Settings, key: string)
    ensures Get(Delete(t, key).1, key).None?
  {
  }

  /** Reading, writing or deleting a key leaves every other key as it was. */
  lemma OtherKeysUnaffected(t: Settings, key: string, other: string, value: string, now: string)
    requires other != key
    ensures Get(Set(t, key, value, now), other) == Get(t, other)
    ensures Get(Delete(t, key).1, other) == Get(t, other)
  {
  }

  /** Deleting is idempotent: the second delete of a key removes nothing. */
  lemma DeleteTwice(t: Settings, key: string)
    ensures !Delete(Delete(t, key).1, key).0
    ensures Delete(Delete(t, key).1, key).1 == Delete(t, key).1
  {
  }

  /** The sequence of calls in the repository's own test: set, get, set
      again, get, delete, get. */
  lemma CrudSequence(now1: string, now2: string)
    ensures var t1 := Set(Empty(), "test_key", "test_value", now1);
      var t2 := Set(t1, "test_key", "new_value", now2);
      var (deleted, t3) := Delete(t2, "test_key");
      && Get(t1, "test_key") == Some("test_value")
      && Get(t2, "test_key") == Some("new_value")
      && deleted && Get(t3, "test_key").None?
  {
  }
}

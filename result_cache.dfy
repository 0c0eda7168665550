/**
 * The Redis client as an abstract key -> value store with Get and Set
 * (expiry recorded, no clock). Any single call may fail: the model does
 * not decide when, so every caller must cope with both outcomes.
 */
module ResultCache {
  import opened Wrappers
  import opened Json

  /** time.Hour*24, in seconds. */
  const DayTtl: nat := 24 * 60 * 60

  /** A stored value and the expiry it was written with. */
  datatype Entry = Entry(value: Json, ttlSeconds: nat)

  class KeyValueStore {
    var entries: map<string, Entry>

    /** An empty store, as a fresh server holds; callers state their effects against the prior entries. */
    constructor ()
      ensures entries == map[]
    {
      entries := map[];
    }

    /**
     * Get(ctx, key).Result(): a hit returns the stored value; a missing
     * key is a miss (redis.Nil), and any call may also miss on a
     * connection error.
     */
    method Get(key: string) returns (v: Option<Json>)
      ensures v.Some? ==> key in entries && v.value == entries[key].value
      ensures key !in entries ==> v.None?
    {
      var answered: bool :| true;
      if answered && key in entries {
        v := Some(entries[key].value);
      } else {
        v := None;
      }
    }

    /** Set(ctx, key, value, ttl).Err(): overwrites the key, or fails and changes nothing. */
    method Set(key: string, value: Json, ttlSeconds: nat) returns (ok: bool)
      modifies this
      ensures ok ==> entries == old(entries)[key := Entry(value, ttlSeconds)]
      ensures !ok ==> entries == old(entries)
    {
      ok :| true;
      if ok {
        entries := entries[key := Entry(value, ttlSeconds)];
      }
    }
  }
}

/**
 The Redis instance as the bot uses it: string values under string keys, each
 with an expiry instant, read against an explicit clock (whole seconds).
 */
module TtlStore {
  import opened Wrappers

  /** A stored value and the instant at which it expires. */
  datatype Entry = Entry(value: string, expiresAt: int)

  /** The key space and the current time. */
  datatype Store = Store(entries: map<string, Entry>, now: int)

  /** `key` holds a value that has not yet expired. */
  predicate Live(st: Store, key: string) {
    key in st.entries && st.now < st.entries[key].expiresAt
  }

  /** `GET key`: an expired key reads exactly like one never written. */
  function Get(st: Store, key: string): (r: Option<string>)
    ensures r.Some? ==> key in st.entries && r.value == st.entries[key].value
    ensures r.None? <==> key !in st.entries || st.entries[key].expiresAt <= st.now
  {
    if Live(st, key) then Some(st.entries[key].value) else None
  }

  /** `SETEX key ttl value`: overwrites `key`, whatever it held, with a value
      that expires `ttl` seconds from now; no other key is touched. */
  function SetEx(st: Store, key: string, ttl: nat, value: string): (r: Store)
    requires ttl > 0
    ensures Get(r, key) == Some(value)
    ensures key in r.entries && r.entries[key].expiresAt == st.now + ttl
    ensures r.now == st.now
    ensures forall k :: k != key ==> Get(r, k) == Get(st, k)
    ensures r.entries - {key} == st.entries - {key}
  {
    st.(entries := st.entries[key := Entry(value, st.now + ttl)])
  }

  /** The clock moving forward by `seconds`; no entry changes. */
  function Advance(st: Store, seconds: nat): (r: Store)
    ensures r.entries == st.entries
    ensures r.now == st.now + seconds
  {
    st.(now := st.now + seconds)
  }

  /** A value written with `SETEX` reads back for exactly `ttl` seconds and
      is absent from then on. */
  lemma ReadableForTtl(st: Store, key: string, ttl: nat, value: string, elapsed: nat)
    requires ttl > 0
    ensures Get(Advance(SetEx(st, key, ttl, value), elapsed), key) == if elapsed < ttl then Some(value) else None
  {
  }

  /** Absence is permanent until the next write: time passing never brings
      back an expired or missing key. */
  lemma AbsentStaysAbsent(st: Store, key: string, elapsed: nat)
    requires Get(st, key) == None
    ensures Get(Advance(st, elapsed), key) == None
  {
  }
}

/**
  The store commands run against, as plain sequential maps: a string table,
  a hash table of field maps, and a set table of member sets. The sharded
  concurrent containers behind it are not modelled; each operation is the
  effect one command has on one key once it holds that key's lock.
*/
module Backend {
  import opened Bytes
  import opened Frames

  datatype Store = Store(
    strings: map<Bytes, Frame>,
    hashes: map<Bytes, map<Bytes, Frame>>,
    sets: map<Bytes, set<Bytes>>)

  /** A freshly created backend holds nothing. */
  const EMPTY: Store := Store(map[], map[], map[])

  /** The value stored under `key` in the string table. */
  function GetString(st: Store, key: Bytes): (r: Option<Frame>)
    ensures r.Some? <==> key in st.strings
    ensures r.Some? ==> r.value == st.strings[key]
  {
    if key in st.strings then Some(st.strings[key]) else None
  }

  /** Upsert into the string table. */
  function SetString(st: Store, key: Bytes, v: Frame): (r: Store)
    ensures r.strings.Keys == st.strings.Keys + {key}
    ensures r.hashes == st.hashes && r.sets == st.sets
  {
    st.(strings := st.strings[key := v])
  }

  /** The field map of `key`, empty when the key holds no hash. */
  function FieldsOf(st: Store, key: Bytes): (r: map<Bytes, Frame>)
    ensures key !in st.hashes ==> r == map[]
  {
    if key in st.hashes then st.hashes[key] else map[]
  }

  /** The value of `field` in the hash under `key`. */
  function GetField(st: Store, key: Bytes, field: Bytes): (r: Option<Frame>)
    ensures r.Some? <==> key in st.hashes && field in st.hashes[key]
    ensures r.Some? ==> r.value == st.hashes[key][field]
  {
    var fields := FieldsOf(st, key);
    if field in fields then Some(fields[field]) else None
  }

  /** Upsert of one field of the hash under `key`, creating the hash if needed. */
  function SetField(st: Store, key: Bytes, field: Bytes, v: Frame): (r: Store)
    ensures r.hashes.Keys == st.hashes.Keys + {key}
    ensures r.hashes[key].Keys == FieldsOf(st, key).Keys + {field}
    ensures r.strings == st.strings && r.sets == st.sets
  {
    st.(hashes := st.hashes[key := FieldsOf(st, key)[field := v]])
  }

  /** The member set of `key`, empty when the key holds no set. */
  function MembersOf(st: Store, key: Bytes): (r: set<Bytes>)
    ensures key !in st.sets ==> r == {}
  {
    if key in st.sets then st.sets[key] else {}
  }

  /** Adds `member` to the set under `key`, creating the set if needed. */
  function AddToSet(st: Store, key: Bytes, member: Bytes): (r: Store)
    ensures r.sets.Keys == st.sets.Keys + {key}
    ensures r.sets[key] == MembersOf(st, key) + {member}
    ensures r.strings == st.strings && r.hashes == st.hashes
  {
    st.(sets := st.sets[key := MembersOf(st, key) + {member}])
  }

  // ---------------------------------------------------------------------
  // Reads after writes

  /** A string written is read back, and no other key changes. */
  lemma SetThenGet(st: Store, key: Bytes, v: Frame, other: Bytes)
    ensures GetString(SetString(st, key, v), key) == Some(v)
    ensures other != key ==> GetString(SetString(st, key, v), other) == GetString(st, other)
  {
  }

  /** A field written is read back; every other key and field reads as before. */
  lemma SetFieldThenGet(st: Store, key: Bytes, field: Bytes, v: Frame, k: Bytes, f: Bytes)
    ensures GetField(SetField(st, key, field, v), key, field) == Some(v)
    ensures (k, f) != (key, field) ==> GetField(SetField(st, key, field, v), k, f) == GetField(st, k, f)
  {
  }

  /** After an add the member is in the set, and the sets of other keys are as before. */
  lemma AddThenMember(st: Store, key: Bytes, member: Bytes, other: Bytes)
    ensures member in MembersOf(AddToSet(st, key, member), key)
    ensures MembersOf(st, key) <= MembersOf(AddToSet(st, key, member), key)
    ensures other != key ==> MembersOf(AddToSet(st, key, member), other) == MembersOf(st, other)
  {
  }
}

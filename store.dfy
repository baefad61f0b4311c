/** The Spin key-value store (`spin_sdk::key_value::Store`) as the code uses
    it: a map from store key to value, opened, read and written by calls that
    may fail. Whether a call fails is decided by the environment, so it is an
    input of the model. */
module Store {
  import opened Prelude

  /** Which store calls fail, with the text of the error each reports:
      `Store::open_default()`, and the read or write that follows it. */
  datatype Faults = Faults(openError: Option<string>, accessError: Option<string>) {
    const openFails: bool := openError.Some?
    const accessFails: bool := accessError.Some?
  }

  const NoFaults := Faults(None, None)

  /** The default store with raw byte values, written by `set_json`. */
  class KeyValueStore {
    var entries: map<string, seq<byte>>

    constructor (initial: map<string, seq<byte>>)
      ensures entries == initial
    {
      entries := initial;
    }

    /** `set(key, value)`: on success the store holds `value` at `key` and is
        otherwise unchanged; on failure nothing changes. */
    method Set(key: string, value: seq<byte>, fails: bool) returns (ok: bool)
      modifies this
      ensures ok == !fails
      ensures entries == if ok then old(entries)[key := value] else old(entries)
    {
      ok := !fails;
      if ok {
        entries := entries[key := value];
      }
    }
  }
}

/**
 The three containers of package async_tools: the unsynchronised table
 `internalMap[T]` and the two locked containers `SyncMap[T]` and `RWMap[T]`
 that own one and forward every call to it. The locks are not modelled, so
 each container method is the table method it forwards to, and its contract
 says so by stating the same effect on the same contents.
 */
module AsyncTools {
  import opened Table

  /** `internalMap[T]`: a lazily created Go `map[string]*T`. */
  class InternalMap<T> {
    /** The Go map: `None` is the nil map of a zero-value table. */
    var dirty: Option<map<string, T>>

    /** What the table holds; a nil map holds nothing. */
    function Contents(): map<string, T>
      reads this
    {
      if dirty.Some? then dirty.value else map[]
    }

    /** The zero value `internalMap[T]{}`: nil map, empty contents. */
    constructor ()
      ensures dirty == None && Contents() == map[]
    {
      dirty := None;
    }

    /** `init`: creates an empty map when there is none and otherwise leaves
        the map as it is, so the contents never change and a second call
        does nothing. */
    method Init()
      modifies this
      ensures dirty == Some(old(Contents()))
      ensures old(dirty).Some? ==> dirty == old(dirty)
    {
      if dirty == None {
        dirty := Some(map[]);
      }
    }

    /** `Load`: the stored value and true when `key` is present, nil and
        false otherwise; the contents are untouched. */
    method Load(key: string) returns (value: Option<T>, ok: bool)
      modifies this
      ensures dirty == Some(old(Contents()))
      ensures (value, ok) == Lookup(old(Contents()), key)
    {
      Init();
      var m := dirty.value;
      if key in m {
        value, ok := Some(m[key]), true;
      } else {
        value, ok := None, false;
      }
    }

    /** `Store`: sets `key` to `value`, overwriting unconditionally. */
    method Store(key: string, value: T)
      modifies this
      ensures dirty == Some(Put(old(Contents()), key, value))
    {
      Init();
      dirty := Some(dirty.value[key := value]);
    }

    /** `LoadAndDelete`: removes `key`, returning the value it had and
        whether it was present. */
    method LoadAndDelete(key: string) returns (value: Option<T>, loaded: bool)
      modifies this
      ensures var (after, v, l) := LoadAndDeleteStep(old(Contents()), key);
              dirty == Some(after) && value == v && loaded == l
    {
      Init();
      var m := dirty.value;
      var t: Option<T> := if key in m then Some(m[key]) else None;
      var ok := key in m;
      dirty := Some(m - {key});
      if !ok {
        return None, false;
      }
      return t, ok;
    }

    /** `Delete`: removes `key`; nothing happens when it is absent. */
    method Delete(key: string)
      modifies this
      ensures dirty == Some(Without(old(Contents()), key))
    {
      Init();
      dirty := Some(dirty.value - {key});
    }

    /** `LoadOrStore`: the value already stored for `key` with true, or else
        stores `value` and returns it with false. */
    method LoadOrStore(key: string, value: T) returns (actual: T, loaded: bool)
      modifies this
      ensures var (after, a, l) := LoadOrStoreStep(old(Contents()), key, value);
              dirty == Some(after) && actual == a && loaded == l
    {
      Init();
      var m := dirty.value;
      if key in m {
        return m[key], true;
      }
      dirty := Some(m[key := value]);
      return value, false;
    }

    /** `Range`: calls `f` on the entries one by one, in an order the map
        chooses, and stops after the first call that returns false. `calls`
        is the sequence of calls made; `order` is an order of all entries
        that the calls follow. */
    method Range(f: (string, T) -> bool) returns (calls: seq<(string, T)>, ghost order: seq<(string, T)>)
      modifies this
      ensures dirty == Some(old(Contents()))
      ensures IsEnumeration(order, Contents())
      ensures calls == Trace(order, f)
    {
      Init();
      var m := dirty.value;
      var remaining := m.Keys;
      calls := [];
      while remaining != {}
        invariant dirty == Some(m)
        invariant remaining <= m.Keys
        invariant IsEnumeration(calls, m - remaining)
        invariant Trace(calls, f) == calls && !Stopped(calls, f)
        decreases remaining
      {
        var k :| k in remaining;
        RangeStep(m, calls, remaining, k, f);
        calls := calls + [(k, m[k])];
        remaining := remaining - {k};
        if !f(k, m[k]) {
          break;
        }
      }
      RangeFinish(m, calls, remaining, f);
      order := calls + Enumerate(m - (m.Keys - remaining));
    }
  }

  /** `SyncMap[T]`: a table behind one `sync.Mutex`. */
  class SyncMap<T> {
    /** The owned table (the Go field `dirty internalMap[T]`). */
    const dirty: InternalMap<T>

    function Contents(): map<string, T>
      reads this, dirty
    {
      dirty.Contents()
    }

    /** The zero value `SyncMap[T]{}`: an empty, not yet initialised table. */
    constructor ()
      ensures fresh(dirty) && dirty.dirty == None && Contents() == map[]
    {
      dirty := new InternalMap<T>();
    }

    method Load(key: string) returns (value: Option<T>, ok: bool)
      modifies dirty
      ensures dirty.dirty == Some(old(Contents()))
      ensures (value, ok) == Lookup(old(Contents()), key)
    {
      value, ok := dirty.Load(key);
    }

    method Store(key: string, value: T)
      modifies dirty
      ensures dirty.dirty == Some(Put(old(Contents()), key, value))
    {
      dirty.Store(key, value);
    }

    method LoadAndDelete(key: string) returns (value: Option<T>, loaded: bool)
      modifies dirty
      ensures var (after, v, l) := LoadAndDeleteStep(old(Contents()), key);
              dirty.dirty == Some(after) && value == v && loaded == l
    {
      value, loaded := dirty.LoadAndDelete(key);
    }

    method Delete(key: string)
      modifies dirty
      ensures dirty.dirty == Some(Without(old(Contents()), key))
    {
      dirty.Delete(key);
    }

    method LoadOrStore(key: string, value: T) returns (actual: T, loaded: bool)
      modifies dirty
      ensures var (after, a, l) := LoadOrStoreStep(old(Contents()), key, value);
              dirty.dirty == Some(after) && actual == a && loaded == l
    {
      actual, loaded := dirty.LoadOrStore(key, value);
    }

    method Range(f: (string, T) -> bool) returns (calls: seq<(string, T)>, ghost order: seq<(string, T)>)
      modifies dirty
      ensures dirty.dirty == Some(old(Contents()))
      ensures IsEnumeration(order, Contents())
      ensures calls == Trace(order, f)
    {
      calls, order := dirty.Range(f);
    }
  }

  /** `RWMap[T]`: a table behind one `sync.RWMutex`; `Load` and `Range` take
      the shared lock, the others the exclusive one. */
  class RWMap<T> {
    /** The owned table (the Go field `dirty internalMap[T]`). */
    const dirty: InternalMap<T>

    function Contents(): map<string, T>
      reads this, dirty
    {
      dirty.Contents()
    }

    /** The zero value `RWMap[T]{}`: an empty, not yet initialised table. */
    constructor ()
      ensures fresh(dirty) && dirty.dirty == None && Contents() == map[]
    {
      dirty := new InternalMap<T>();
    }

    method Load(key: string) returns (value: Option<T>, ok: bool)
      modifies dirty
      ensures dirty.dirty == Some(old(Contents()))
      ensures (value, ok) == Lookup(old(Contents()), key)
    {
      value, ok := dirty.Load(key);
    }

    method Store(key: string, value: T)
      modifies dirty
      ensures dirty.dirty == Some(Put(old(Contents()), key, value))
    {
      dirty.Store(key, value);
    }

    method LoadAndDelete(key: string) returns (value: Option<T>, loaded: bool)
      modifies dirty
      ensures var (after, v, l) := LoadAndDeleteStep(old(Contents()), key);
              dirty.dirty == Some(after) && value == v && loaded == l
    {
      value, loaded := dirty.LoadAndDelete(key);
    }

    method Delete(key: string)
      modifies dirty
      ensures dirty.dirty == Some(Without(old(Contents()), key))
    {
      dirty.Delete(key);
    }

    method LoadOrStore(key: string, value: T) returns (actual: T, loaded: bool)
      modifies dirty
      ensures var (after, a, l) := LoadOrStoreStep(old(Contents()), key, value);
              dirty.dirty == Some(after) && actual == a && loaded == l
    {
      actual, loaded := dirty.LoadOrStore(key, value);
    }

    method Range(f: (string, T) -> bool) returns (calls: seq<(string, T)>, ghost order: seq<(string, T)>)
      modifies dirty
      ensures dirty.dirty == Some(old(Contents()))
      ensures IsEnumeration(order, Contents())
      ensures calls == Trace(order, f)
    {
      calls, order := dirty.Range(f);
    }
  }
}

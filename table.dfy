/**
 The abstract string-keyed table behind `internalMap[T]`, as values.

 Each operation of the table is a function from the contents before the call
 (a `map<string, T>`) to the contents after it and the results it returns.
 The classes in module AsyncTools are specified by these functions, and the
 properties the table promises are proved here, once, about them.
 */
module Table {

  /** A stored value or the Go `nil` pointer. */
  datatype Option<T> = None | Some(value: T)

  /** The table read at `key`: `(value, ok)`, with `ok` true exactly when
      `key` is present and `value` then the stored value; `(None, false)`
      otherwise. */
  function Lookup<T>(m: map<string, T>, key: string): (r: (Option<T>, bool))
    ensures r.1 == r.0.Some?
    ensures r.1 <==> key in m
    ensures r.0.Some? ==> m[key] == r.0.value
  {
    if key in m then (Some(m[key]), true) else (None, false)
  }

  /** `Store(key, value)`: `key` now reads `value`; every other key reads
      as before. */
  function Put<T>(m: map<string, T>, key: string, value: T): (r: map<string, T>)
    ensures Lookup(r, key) == (Some(value), true)
    ensures forall k :: k != key ==> Lookup(r, k) == Lookup(m, k)
    ensures r.Keys == m.Keys + {key}
  {
    m[key := value]
  }

  /** `Delete(key)`: `key` is absent afterwards; every other key reads as
      before; deleting an absent key leaves the table as it was. */
  function Without<T>(m: map<string, T>, key: string): (r: map<string, T>)
    ensures Lookup(r, key) == (None, false)
    ensures forall k :: k != key ==> Lookup(r, k) == Lookup(m, k)
    ensures key !in m ==> r == m
    ensures r.Keys == m.Keys - {key}
  {
    m - {key}
  }

  /** `LoadAndDelete(key)`: `(table after, value, loaded)`. It returns what a
      `Load` would have returned and leaves the table as a `Delete` would. */
  function LoadAndDeleteStep<T>(m: map<string, T>, key: string): (r: (map<string, T>, Option<T>, bool))
    ensures (r.1, r.2) == Lookup(m, key)
    ensures r.0 == Without(m, key)
    ensures r.2 ==> r.1 == Some(m[key]) && key !in r.0
    ensures !r.2 ==> r.1 == None && r.0 == m
  {
    var table := m - {key};
    if key !in m then (table, None, false) else (table, Some(m[key]), true)
  }

  /** `LoadOrStore(key, value)`: `(table after, actual, loaded)`. A present
      key keeps its value, which is returned with `loaded`; an absent key gets
      `value`, which is returned without `loaded`. Either way `key` then reads
      `actual`. */
  function LoadOrStoreStep<T>(m: map<string, T>, key: string, value: T): (r: (map<string, T>, T, bool))
    ensures r.2 <==> key in m
    ensures r.2 ==> r.0 == m && r.1 == m[key]
    ensures !r.2 ==> r.0 == Put(m, key, value) && r.1 == value
    ensures Lookup(r.0, key) == (Some(r.1), true)
    ensures forall k :: k != key ==> Lookup(r.0, k) == Lookup(m, k)
  {
    if key in m then (m, m[key], true) else (m[key := value], value, false)
  }

  /** The first call is never overwritten by a second `LoadOrStore` on the
      same key, whatever value the second one offers. */
  lemma LoadOrStoreKeepsFirst<T>(m: map<string, T>, key: string, v1: T, v2: T)
    requires key !in m
    ensures var (m1, a1, l1) := LoadOrStoreStep(m, key, v1);
            var (m2, a2, l2) := LoadOrStoreStep(m1, key, v2);
            a1 == v1 && !l1 && a2 == v1 && l2 && m2 == m1
  {
  }

  /** `order` lists every entry of `m` exactly once: an order in which a Go
      `for k, v := range m` loop may visit them. */
  ghost predicate IsEnumeration<T>(order: seq<(string, T)>, m: map<string, T>)
  {
    && (forall i, j :: 0 <= i < j < |order| ==> order[i].0 != order[j].0)
    && (forall i :: 0 <= i < |order| ==> order[i].0 in m && m[order[i].0] == order[i].1)
    && (forall k :: k in m ==> (k, m[k]) in order)
  }

  /** Some iteration order of `m`. */
  ghost function Enumerate<T>(m: map<string, T>): (order: seq<(string, T)>)
    ensures IsEnumeration(order, m)
    decreases m.Keys
  {
    if m == map[] then []
    else
      var k :| k in m;
      assert (m - {k}).Keys < m.Keys;
      var tail := Enumerate(m - {k});
      EnumerationCons(m, k, tail);
      [(k, m[k])] + tail
  }

  /** An entry of `m` followed by an order of the rest of `m` is an order
      of `m`. */
  lemma EnumerationCons<T>(m: map<string, T>, k: string, tail: seq<(string, T)>)
    requires k in m && IsEnumeration(tail, m - {k})
    ensures IsEnumeration([(k, m[k])] + tail, m)
  {
    var one := map[k := m[k]];
    assert IsEnumeration([(k, m[k])], one);
    EnumerationConcat([(k, m[k])], one, tail, m - {k});
    assert one + (m - {k}) == m;
  }

  lemma EnumerationConcat<T>(a: seq<(string, T)>, ma: map<string, T>, b: seq<(string, T)>, mb: map<string, T>)
    requires IsEnumeration(a, ma) && IsEnumeration(b, mb) && ma.Keys !! mb.Keys
    ensures IsEnumeration(a + b, ma + mb)
  {
    var ab, mab := a + b, ma + mb;
    forall k | k in mab
      ensures (k, mab[k]) in ab
    {
      if k in ma { assert (k, ma[k]) in a; } else { assert (k, mb[k]) in b; }
    }
    forall i, j | 0 <= i < j < |ab|
      ensures ab[i].0 != ab[j].0
    {
      if j < |a| {
        assert ab[i] == a[i] && ab[j] == a[j];
      } else if i >= |a| {
        assert ab[i] == b[i - |a|] && ab[j] == b[j - |a|];
      } else {
        assert ab[i] == a[i] && ab[j] == b[j - |a|];
      }
    }
    forall i | 0 <= i < |ab|
      ensures ab[i].0 in mab && mab[ab[i].0] == ab[i].1
    {
      if i < |a| { assert ab[i] == a[i]; } else { assert ab[i] == b[i - |a|]; }
    }
  }

  /** An iteration order is exactly as long as the table it lists. */
  lemma {:induction false} EnumerationSize<T>(order: seq<(string, T)>, m: map<string, T>)
    requires IsEnumeration(order, m)
    ensures |order| == |m|
  {
    if order != [] {
      var k := order[0].0;
      var rest := m - {k};
      var tail := order[1..];
      assert IsEnumeration(tail, rest) by {
        forall x | x in rest
          ensures (x, rest[x]) in tail
        {
          var i :| 0 <= i < |order| && order[i] == (x, m[x]);
          assert i != 0;
          assert tail[i - 1] == (x, rest[x]);
        }
        forall i | 0 <= i < |tail|
          ensures tail[i].0 in rest && rest[tail[i].0] == tail[i].1
        {
          assert tail[i] == order[i + 1];
        }
      }
      EnumerationSize(tail, rest);
      assert rest.Keys == m.Keys - {k};
    }
  }

  /** The calls `Range(f)` makes when the map is iterated in `order`: `f` is
      called on each entry in turn, and the call on which `f` returns false
      is the last one. */
  function Trace<T>(order: seq<(string, T)>, f: (string, T) -> bool): (calls: seq<(string, T)>)
    ensures |calls| <= |order|
  {
    if order == [] then []
    else if f(order[0].0, order[0].1) then [order[0]] + Trace(order[1..], f)
    else [order[0]]
  }

  /** The last call of `calls` was answered false, so iteration has ended. */
  predicate Stopped<T>(calls: seq<(string, T)>, f: (string, T) -> bool)
  {
    calls != [] && !f(calls[|calls| - 1].0, calls[|calls| - 1].1)
  }

  /** What the calls of `Trace` are: a prefix of `order` in which every call
      but the last returned true, and which falls short of `order` only when
      the last call returned false. */
  lemma {:induction false} TraceShape<T>(order: seq<(string, T)>, f: (string, T) -> bool)
    ensures var calls := Trace(order, f);
            && calls == order[..|calls|]
            && (forall i :: 0 <= i < |calls| - 1 ==> f(calls[i].0, calls[i].1))
            && (|calls| < |order| ==> Stopped(calls, f))
  {
    if order != [] && f(order[0].0, order[0].1) {
      var tail := order[1..];
      TraceShape(tail, f);
      var rest := Trace(tail, f);
      var calls := [order[0]] + rest;
      assert Trace(order, f) == calls;
      assert calls == order[..|calls|] by {
        assert order == [order[0]] + tail;
        assert rest == tail[..|rest|];
      }
      forall i | 1 <= i < |calls| - 1
        ensures f(calls[i].0, calls[i].1)
      {
        assert calls[i] == rest[i - 1];
      }
      if rest != [] {
        assert calls[|calls| - 1] == rest[|rest| - 1];
      }
    }
  }

  /** Iterating `p + q` makes the calls of `p` and, unless those ended the
      iteration, then the calls of `q`. */
  lemma {:induction false} TraceConcat<T>(p: seq<(string, T)>, q: seq<(string, T)>, f: (string, T) -> bool)
    ensures Trace(p + q, f) == if Stopped(Trace(p, f), f) then Trace(p, f) else Trace(p, f) + Trace(q, f)
  {
    if p == [] {
      assert p + q == q;
    } else {
      ConcatFront(p, q);
      if f(p[0].0, p[0].1) {
        TraceConcat(p[1..], q, f);
        TraceConcatCons(p[0], Trace(p[1..], f), Trace(q, f), Trace(p[1..] + q, f), f);
      }
    }
  }

  /** The front of `p + q`, for a non-empty `p`. */
  lemma ConcatFront<X>(p: seq<X>, q: seq<X>)
    requires p != []
    ensures (p + q)[0] == p[0] && (p + q)[1..] == p[1..] + q
  {
  }

  /** The inductive step of TraceConcat, over the calls alone: a first call
      that returned true, put in front of the calls of the rest. */
  lemma TraceConcatCons<T>(e: (string, T), t: seq<(string, T)>, tq: seq<(string, T)>, r: seq<(string, T)>, f: (string, T) -> bool)
    requires f(e.0, e.1)
    requires r == if Stopped(t, f) then t else t + tq
    ensures [e] + r == if Stopped([e] + t, f) then [e] + t else ([e] + t) + tq
  {
    if t != [] {
      assert ([e] + t)[|t|] == t[|t| - 1];
    }
    assert [e] + (t + tq) == ([e] + t) + tq;
  }

  /** One step of Range's loop: so far every call returned true; visiting
      the entry of `k`, not yet visited, extends the calls and the order by
      that entry. */
  lemma RangeStep<T>(m: map<string, T>, calls: seq<(string, T)>, remaining: set<string>, k: string, f: (string, T) -> bool)
    requires remaining <= m.Keys && k in remaining
    requires IsEnumeration(calls, m - remaining)
    requires Trace(calls, f) == calls && !Stopped(calls, f)
    ensures IsEnumeration(calls + [(k, m[k])], m - (remaining - {k}))
    ensures Trace(calls + [(k, m[k])], f) == calls + [(k, m[k])]
  {
    EnumerationStep(m, calls, remaining, k);
    TraceConcat(calls, [(k, m[k])], f);
  }

  lemma EnumerationStep<T>(m: map<string, T>, calls: seq<(string, T)>, remaining: set<string>, k: string)
    requires remaining <= m.Keys && k in remaining
    requires IsEnumeration(calls, m - remaining)
    ensures IsEnumeration(calls + [(k, m[k])], m - (remaining - {k}))
  {
    var one := map[k := m[k]];
    assert IsEnumeration([(k, m[k])], one);
    EnumerationConcat(calls, m - remaining, [(k, m[k])], one);
    MapSplit(m, remaining - {k}, {k});
    assert remaining - {k} + {k} == remaining;
  }

  /** Taking the keys of `b` out of `m` and putting back those of them `m`
      holds gives `m` without the keys of `a`. */
  lemma MapSplit<T>(m: map<string, T>, a: set<string>, b: set<string>)
    requires a !! b && b <= m.Keys
    ensures (m - (a + b)) + (m - (m.Keys - b)) == m - a
  {
  }

  /** The end of Range's loop: once every key is visited, or the last call
      returned false, the entries not visited can follow in any order
      without changing the calls. */
  lemma RangeFinish<T>(m: map<string, T>, calls: seq<(string, T)>, remaining: set<string>, f: (string, T) -> bool)
    requires remaining <= m.Keys
    requires IsEnumeration(calls, m - remaining)
    requires Trace(calls, f) == calls
    requires remaining == {} || Stopped(calls, f)
    ensures IsEnumeration(calls + Enumerate(m - (m.Keys - remaining)), m)
    ensures Trace(calls + Enumerate(m - (m.Keys - remaining)), f) == calls
  {
    var rest := Enumerate(m - (m.Keys - remaining));
    EnumerationFinish(m, calls, remaining);
    TraceConcat(calls, rest, f);
    if remaining == {} {
      EnumerationSize(rest, m - (m.Keys - remaining));
      assert calls + rest == calls;
    }
  }

  lemma EnumerationFinish<T>(m: map<string, T>, calls: seq<(string, T)>, remaining: set<string>)
    requires remaining <= m.Keys
    requires IsEnumeration(calls, m - remaining)
    ensures IsEnumeration(calls + Enumerate(m - (m.Keys - remaining)), m)
  {
    var left := m - (m.Keys - remaining);
    EnumerationConcat(calls, m - remaining, Enumerate(left), left);
    MapSplit(m, {}, remaining);
    assert m - {} == m;
    assert {} + remaining == remaining;
  }

  /** Range visits only entries that are present, with their stored values,
      and no key twice. */
  lemma {:induction false} RangeAtMostOnce<T>(m: map<string, T>, order: seq<(string, T)>, f: (string, T) -> bool)
    requires IsEnumeration(order, m)
    ensures var calls := Trace(order, f);
            && (forall i :: 0 <= i < |calls| ==> calls[i].0 in m && calls[i].1 == m[calls[i].0])
            && (forall i, j :: 0 <= i < j < |calls| ==> calls[i].0 != calls[j].0)
  {
    TraceShape(order, f);
    var calls := Trace(order, f);
    assert forall i :: 0 <= i < |calls| ==> calls[i] == order[i];
  }

  /** Range makes no call after the first one answered false: every call
      before the last returned true, and it stops short of the whole table
      only because the last call returned false. */
  lemma {:induction false} RangeStopsAtFirstFalse<T>(m: map<string, T>, order: seq<(string, T)>, f: (string, T) -> bool)
    requires IsEnumeration(order, m)
    ensures var calls := Trace(order, f);
            && (forall i :: 0 <= i < |calls| - 1 ==> f(calls[i].0, calls[i].1))
            && (|calls| < |m| ==> Stopped(calls, f))
  {
    TraceShape(order, f);
    EnumerationSize(order, m);
  }

  /** When `f` returns true on every entry, Range calls it exactly once on
      each entry of the table. */
  lemma {:induction false} RangeComplete<T>(m: map<string, T>, order: seq<(string, T)>, f: (string, T) -> bool)
    requires IsEnumeration(order, m)
    requires forall k :: k in m ==> f(k, m[k])
    ensures var calls := Trace(order, f);
            && |calls| == |m|
            && (forall k :: k in m ==> (k, m[k]) in calls)
  {
    var calls := Trace(order, f);
    TraceShape(order, f);
    EnumerationSize(order, m);
    assert calls == order;
  }
}

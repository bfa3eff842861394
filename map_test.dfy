/**
 The two tests of package async_tools as client methods: each starts from a
 zero-value container, stores four keys, reads each back, and ranges over
 the container checking every value it is handed. `passed` is false exactly
 where a Go test would call `t.Fatal`; the contracts prove it never is.
 */
module AsyncToolsTest {
  import opened Table
  import opened AsyncTools

  /** The tests' four entries, with distinct keys. */
  function TestData(): (data: seq<(string, int)>)
    ensures |data| == 4
    ensures forall i, j :: 0 <= i < j < |data| ==> data[i].0 != data[j].0
  {
    var data := [("1", 1), ("2", 2), ("3", 3), ("4", 4)];
    assert data[0].0[0] == '1' && data[1].0[0] == '2' && data[2].0[0] == '3' && data[3].0[0] == '4';
    data
  }

  /** `m` holds the value of each of `data[..n]` under its key. */
  ghost predicate HoldsFirst(m: map<string, int>, data: seq<(string, int)>, n: nat)
    requires n <= |data|
  {
    forall j :: 0 <= j < n ==> data[j].0 in m && m[data[j].0] == data[j].1
  }

  /** The callback's check: a call on one of the test keys carries that
      key's value. */
  predicate Consistent(data: seq<(string, int)>, key: string, value: int)
  {
    forall j :: 0 <= j < |data| && data[j].0 == key ==> data[j].1 == value
  }

  method TestSyncMap() returns (passed: bool)
    ensures passed
  {
    var cm := new SyncMap<int>();
    var data := TestData();
    for i := 0 to |data|
      invariant HoldsFirst(cm.Contents(), data, i)
    {
      cm.Store(data[i].0, data[i].1);
    }
    ghost var stored := cm.Contents();
    for i := 0 to |data|
      invariant cm.Contents() == stored
    {
      var value, ok := cm.Load(data[i].0);
      if !ok || value.value != data[i].1 {
        return false;
      }
    }
    var calls;
    ghost var order;
    calls, order := cm.Range((key: string, value: int) => true);
    TraceShape(order, (key: string, value: int) => true);
    for i := 0 to |calls| {
      if !Consistent(data, calls[i].0, calls[i].1) {
        return false;
      }
    }
    return true;
  }

  method TestRWMap() returns (passed: bool)
    ensures passed
  {
    var cm := new RWMap<int>();
    var data := TestData();
    for i := 0 to |data|
      invariant HoldsFirst(cm.Contents(), data, i)
    {
      cm.Store(data[i].0, data[i].1);
    }
    ghost var stored := cm.Contents();
    for i := 0 to |data|
      invariant cm.Contents() == stored
    {
      var value, ok := cm.Load(data[i].0);
      if !ok || value.value != data[i].1 {
        return false;
      }
    }
    var calls;
    ghost var order;
    calls, order := cm.Range((key: string, value: int) => true);
    TraceShape(order, (key: string, value: int) => true);
    for i := 0 to |calls| {
      if !Consistent(data, calls[i].0, calls[i].1) {
        return false;
      }
    }
    return true;
  }
}

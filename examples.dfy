/**
 * Client scenarios of the map, each with its outcome stated and proved from
 * the contracts of `OrderedMap.Map` alone.
 */
module Examples {
  import opened Wrappers
  import opened OrderedMap

  /** Inserting one key twice keeps a single entry holding the later value (main.cpp, lines 34-35). */
  method InsertTwice() returns (n: nat, r: Option<int>)
    ensures n == 1 && r == Some(30000)
  {
    var m := new Map<int>();
    m.Insert(7, 1);
    m.Insert(7, 30000);
    n := m.Size();
    r := m.Find(7);
  }

  /** Indexing a key that was never inserted fails with KeyNotFound; a stored key yields its value. */
  method IndexMissing(k: int) returns (hit: Result<int>, miss: Result<int>)
    requires k != 1
    ensures hit == Ok(10) && miss == Err(KeyNotFound)
  {
    var m := new Map<int>();
    m.Insert(1, 10);
    hit := m.Get(1);
    miss := m.Get(k);
  }

  /** A map built by inserting 5, then 3, then 8: a root with two children. */
  method ThreeEntries() returns (m: Map<int>)
    ensures fresh(m) && fresh(m.Repr) && m.Valid()
    ensures m.Entries() == map[5 := 50, 3 := 30, 8 := 80]
    ensures m.tree.Br? && m.tree.key == 5 && m.tree.left.Br? && m.tree.right.Br?
  {
    m := new Map<int>();
    m.Insert(5, 50);
    m.Insert(3, 30);
    m.Insert(8, 80);
  }

  /** Removing the root of that tree (the two-children case) loses exactly its key. */
  method RemoveRoot() returns (present: bool, n: nat, left: Option<int>, right: Option<int>)
    ensures !present && n == 2 && left == Some(30) && right == Some(80)
  {
    var m := ThreeEntries();
    m.Remove(5);
    assert m.Entries() == map[3 := 30, 8 := 80] by {
      assert map[5 := 50, 3 := 30, 8 := 80] - {5} == map[3 := 30, 8 := 80];
    }
    assert m.Entries().Keys == {3, 8};
    present := m.Contains(5);
    n := m.Size();
    left := m.Find(3);
    right := m.Find(8);
  }

  /** Removing a key that is not stored leaves the entries as they were. */
  method RemoveAbsent() returns (n: nat, r: Option<int>)
    ensures n == 1 && r == Some(10)
  {
    var m := new Map<int>();
    m.Insert(1, 10);
    m.Remove(2);
    n := m.Size();
    r := m.Find(1);
  }

  /** A copy owns its nodes: writing to the copy leaves the original as it was. */
  method CopyIsIndependent() returns (original: Option<int>, copied: Option<int>)
    ensures original == Some(10) && copied == Some(20)
  {
    var m := new Map<int>();
    m.Insert(1, 10);
    var c := new Map.CopyOf(m);
    c.Insert(1, 20);
    original := m.Find(1);
    copied := c.Find(1);
  }

  /** After `clear` nothing is stored. */
  method ClearEmpties() returns (n: nat, ks: set<int>)
    ensures n == 0 && ks == {}
  {
    var m := new Map<int>();
    m.Insert(1, 10);
    m.Insert(2, 20);
    m.Clear();
    n := m.Size();
    ks := m.Keys();
  }
}

/**
 A map from hashes to data, kept as an array sorted by hash: binary search, insertion and removal
 by moving the tail of the array, growth by 32 items.
 */
module HashList {
  import opened Wrappers

  type Hash = nat

  datatype Item<T> = Item(hash: Hash, data: T)

  // ---------------------------------------------------------------- sorted sequences as maps

  predicate Less<T>(s: seq<Item<T>>, i: nat, j: nat) {
    i < j < |s| ==> s[i].hash < s[j].hash
  }

  ghost predicate Sorted<T>(s: seq<Item<T>>) {
    forall i: nat, j: nat :: Less(s, i, j)
  }

  ghost predicate Entry<T>(s: seq<Item<T>>, m: map<Hash, T>, i: nat) {
    i < |s| ==> s[i].hash in m && m[s[i].hash] == s[i].data
  }

  predicate HasHash<T>(s: seq<Item<T>>, h: Hash) {
    exists i | 0 <= i < |s| :: s[i].hash == h
  }

  /** The sequence lists exactly the entries of the map. */
  ghost predicate Lists<T>(s: seq<Item<T>>, m: map<Hash, T>) {
    && (forall i: nat :: Entry(s, m, i))
    && (forall h | h in m :: HasHash(s, h))
  }

  /** What one comparison of a binary search tells about the rest of the array. */
  lemma Compared<T>(s: seq<Item<T>>, middle: nat, h: Hash)
    requires Sorted(s) && middle < |s|
    ensures s[middle].hash <= h ==> forall j | 0 <= j < middle :: s[j].hash < h
    ensures h <= s[middle].hash ==> forall j | middle < j < |s| :: h < s[j].hash
  {
    forall j: nat | j < middle ensures s[j].hash < s[middle].hash {
      assert Less(s, j, middle);
    }
    forall j: nat | middle < j < |s| ensures s[middle].hash < s[j].hash {
      assert Less(s, middle, j);
    }
  }

  /** i is where the hash stands, or where it would have to be inserted. */
  predicate InsertionPoint<T>(s: seq<Item<T>>, h: Hash, i: nat) {
    && i <= |s|
    && (forall j | 0 <= j < i :: s[j].hash < h)
    && (forall j | i <= j < |s| :: h <= s[j].hash)
  }

  predicate FoundAt<T>(s: seq<Item<T>>, h: Hash, i: nat) {
    i < |s| && s[i].hash == h
  }

  lemma FoundMeans<T>(s: seq<Item<T>>, m: map<Hash, T>, h: Hash, i: nat)
    requires Sorted(s) && Lists(s, m) && InsertionPoint(s, h, i)
    ensures h in m <==> FoundAt(s, h, i)
    ensures FoundAt(s, h, i) ==> m[h] == s[i].data
  {
    assert Entry(s, m, i);
    if h in m {
      var k: nat :| k < |s| && s[k].hash == h;
      assert Less(s, i, k);
    }
  }

  /** A binary search that ends without finding the hash has ruled out the whole array. */
  lemma AbsentMeans<T>(s: seq<Item<T>>, m: map<Hash, T>, h: Hash)
    requires Lists(s, m) && forall j | 0 <= j < |s| :: s[j].hash != h
    ensures h !in m
  {
    assert h in m ==> HasHash(s, h);
  }

  function Inserted<T>(s: seq<Item<T>>, i: nat, x: Item<T>): seq<Item<T>>
    requires i <= |s|
  {
    s[..i] + [x] + s[i..]
  }

  lemma InsertedSorted<T>(s: seq<Item<T>>, i: nat, x: Item<T>)
    requires Sorted(s) && InsertionPoint(s, x.hash, i) && !FoundAt(s, x.hash, i)
    ensures Sorted(Inserted(s, i, x))
  {
    var t := Inserted(s, i, x);
    forall j: nat, k: nat ensures Less(t, j, k) {
      if j < k < |t| {
        if k < i {
          assert Less(s, j, k);
        } else if k > i {
          assert Less(s, i, k - 1);
          assert j < i ==> Less(s, j, k - 1);
          assert j > i ==> Less(s, j - 1, k - 1);
        }
      }
    }
  }

  lemma InsertedLists<T>(s: seq<Item<T>>, m: map<Hash, T>, i: nat, x: Item<T>)
    requires Lists(s, m) && i <= |s| && x.hash !in m
    ensures Lists(Inserted(s, i, x), m[x.hash := x.data])
  {
    var t, m' := Inserted(s, i, x), m[x.hash := x.data];
    forall k: nat ensures Entry(t, m', k) {
      if k != i && k < |t| {
        assert Entry(s, m, if k < i then k else k - 1);
      }
    }
    forall h | h in m' ensures HasHash(t, h) {
      if h == x.hash {
        assert t[i].hash == h;
      } else {
        var k: nat :| k < |s| && s[k].hash == h;
        assert t[if k < i then k else k + 1] == s[k];
      }
    }
  }

  function Deleted<T>(s: seq<Item<T>>, i: nat): seq<Item<T>>
    requires i < |s|
  {
    s[..i] + s[i + 1..]
  }

  lemma DeletedSorted<T>(s: seq<Item<T>>, i: nat)
    requires Sorted(s) && i < |s|
    ensures Sorted(Deleted(s, i))
  {
    var t := Deleted(s, i);
    forall j: nat, k: nat ensures Less(t, j, k) {
      if j < k < |t| {
        assert Less(s, if j < i then j else j + 1, if k < i then k else k + 1);
      }
    }
  }

  lemma DeletedLists<T>(s: seq<Item<T>>, m: map<Hash, T>, i: nat)
    requires Sorted(s) && Lists(s, m) && i < |s|
    ensures Lists(Deleted(s, i), m - {s[i].hash})
  {
    var t, m' := Deleted(s, i), m - {s[i].hash};
    forall k: nat ensures Entry(t, m', k) {
      if k < |t| {
        var l := if k < i then k else k + 1;
        assert t[k] == s[l] && Entry(s, m, l) && Less(s, l, i) && Less(s, i, l);
      }
    }
    forall h | h in m' ensures HasHash(t, h) {
      var k: nat :| k < |s| && s[k].hash == h;
      assert t[if k < i then k else k - 1] == s[k];
    }
  }

  lemma {:induction false} ListedCount<T>(s: seq<Item<T>>, m: map<Hash, T>)
    requires Sorted(s) && Lists(s, m)
    ensures |m| == |s|
  {
    if s == [] {
      forall h ensures h !in m {
        assert h in m ==> HasHash(s, h);
      }
      assert m == map[];
    } else {
      var n := |s| - 1;
      assert Deleted(s, n) == s[..n] && Entry(s, m, n);
      DeletedSorted(s, n);
      DeletedLists(s, m, n);
      ListedCount(s[..n], m - {s[n].hash});
      assert m.Keys == (m - {s[n].hash}).Keys + {s[n].hash};
    }
  }

  lemma LastIsGreatest<T>(s: seq<Item<T>>, m: map<Hash, T>, h: Hash)
    requires Sorted(s) && Lists(s, m) && h in m
    ensures s != [] && h <= s[|s| - 1].hash
  {
    var k: nat :| k < |s| && s[k].hash == h;
    assert Less(s, k, |s| - 1);
  }

  /** A map is listed in order by one sequence only, so positions agree with the order of the hashes. */
  lemma {:induction false} OneListing<T>(s: seq<Item<T>>, t: seq<Item<T>>, m: map<Hash, T>)
    requires Sorted(s) && Sorted(t) && Lists(s, m) && Lists(t, m)
    ensures s == t
    decreases |s|
  {
    ListedCount(s, m);
    ListedCount(t, m);
    if s != [] {
      var n := |s| - 1;
      assert Entry(s, m, n) && Entry(t, m, n);
      LastIsGreatest(s, m, t[n].hash);
      LastIsGreatest(t, m, s[n].hash);
      assert Deleted(s, n) == s[..n] && Deleted(t, n) == t[..n];
      DeletedSorted(s, n);
      DeletedLists(s, m, n);
      DeletedSorted(t, n);
      DeletedLists(t, m, n);
      OneListing(s[..n], t[..n], m - {s[n].hash});
      assert s == s[..n] + [s[n]] && t == t[..n] + [t[n]];
    }
  }

  // ---------------------------------------------------------------- the list

  /** A new block that starts with the first n items of the old one. */
  method CopyOf<T(0)>(a: array<Item<T>>, n: nat, newSize: nat) returns (b: array<Item<T>>)
    requires n <= a.Length && 0 < newSize && n <= newSize
    ensures fresh(b) && b.Length == newSize && b[..n] == a[..n]
  {
    var filler: Item<T> := *;
    b := new Item<T>[newSize](_ => filler);
    forall k | 0 <= k < n { b[k] := a[k]; }
  }

  /** Moves items i, ..., n-1 up by one place. */
  method MoveUp<T>(a: array<Item<T>>, i: nat, n: nat)
    requires i <= n < a.Length
    modifies a
    ensures a[..i] == old(a[..i]) && a[i + 1..n + 1] == old(a[i..n])
  {
    forall k | i <= k < n { a[k + 1] := a[k]; }
  }

  /** Moves items i+1, ..., n down by one place. */
  method MoveDown<T>(a: array<Item<T>>, i: nat, n: nat)
    requires i <= n < a.Length
    modifies a
    ensures a[..i] == old(a[..i]) && a[i..n] == old(a[i + 1..n + 1])
  {
    forall k | i <= k < n { a[k] := a[k + 1]; }
  }

  /** Makes room at place i, unless that is the end, and puts the item there. */
  method PutAt<T>(a: array<Item<T>>, i: nat, n: nat, x: Item<T>)
    requires i <= n < a.Length
    modifies a
    ensures a[..n + 1] == Inserted(old(a[..n]), i, x)
  {
    if i != n {
      MoveUp(a, i, n);
    }
    a[i] := x;
    assert a[..n + 1] == a[..i] + [a[i]] + a[i + 1..n + 1];
  }

  /** Closes the gap at place i, unless that is the end. */
  method TakeFrom<T>(a: array<Item<T>>, i: nat, n: nat)
    requires i < n <= a.Length
    modifies a
    ensures a[..n - 1] == Deleted(old(a[..n]), i)
  {
    if i != n - 1 {
      MoveDown(a, i, n - 1);
    }
    assert a[..n - 1] == a[..i] + a[i..n - 1];
  }

  class List<T(0)> {
    var nItems: nat
    var maxItems: nat
    var items: array?<Item<T>>
    ghost var M: map<Hash, T>  // the map that the list stands for

    ghost predicate Valid()
      reads this, items
    {
      && nItems <= maxItems
      && (if items == null then maxItems == 0 else items.Length == maxItems)
      && Sorted(Used()) && Lists(Used(), M)
    }

    ghost function Used(): (s: seq<Item<T>>)
      requires nItems <= maxItems && (if items == null then maxItems == 0 else items.Length == maxItems)
      reads this, items
      ensures |s| == nItems
    {
      if items == null then [] else items[..nItems]
    }

    constructor ()
      ensures Valid() && M == map[] && items == null
    {
      nItems, maxItems, items := 0, 0, null;
      M := map[];
    }

    method FindIndexForHash(h: Hash) returns (index: nat)
      requires Valid()
      ensures InsertionPoint(Used(), h, index)
    {
      if nItems == 0 {
        return 0;
      }
      ghost var s := Used();
      var low, middle, high := 0, 0, nItems - 1;
      while low <= high
        invariant 0 <= low <= high + 1 <= nItems && 0 <= middle < nItems
        invariant forall j | 0 <= j < low :: s[j].hash < h
        invariant forall j | high < j < nItems :: h < s[j].hash
        invariant low > high ==> middle == low || middle == high
      {
        middle := (low + high) / 2;
        assert items[middle] == s[middle];
        Compared(s, middle, h);
        if items[middle].hash == h {
          return middle;
        }
        if items[middle].hash < h {
          low := middle + 1;
        } else {
          high := middle - 1;
        }
      }
      if items[middle].hash < h {
        middle := middle + 1;
      }
      return middle;
    }

    method ItemExists(h: Hash) returns (found: bool, index: nat)
      requires Valid()
      ensures found <==> h in M
      ensures found ==> FoundAt(Used(), h, index)
    {
      if nItems == 0 {
        AbsentMeans(Used(), M, h);
        return false, 0;
      }
      ghost var s := Used();
      var low, high := 0, nItems - 1;
      while low <= high
        invariant 0 <= low <= high + 1 <= nItems
        invariant forall j | 0 <= j < low :: s[j].hash < h
        invariant forall j | high < j < nItems :: h < s[j].hash
      {
        var middle := (low + high) / 2;
        assert items[middle] == s[middle];
        Compared(s, middle, h);
        if items[middle].hash == h {
          assert Entry(s, M, middle);
          return true, middle;
        }
        if items[middle].hash < h {
          low := middle + 1;
        } else {
          high := middle - 1;
        }
      }
      AbsentMeans(s, M, h);
      return false, 0;
    }

    method FindByHash(h: Hash) returns (data: Option<T>)
      requires Valid()
      ensures data == if h in M then Some(M[h]) else None
    {
      if nItems == 0 {
        AbsentMeans(Used(), M, h);
        return None;
      }
      ghost var s := Used();
      var low, high := 0, nItems - 1;
      while low <= high
        invariant 0 <= low <= high + 1 <= nItems
        invariant forall j | 0 <= j < low :: s[j].hash < h
        invariant forall j | high < j < nItems :: h < s[j].hash
      {
        var middle := (low + high) / 2;
        assert items[middle] == s[middle];
        Compared(s, middle, h);
        if items[middle].hash == h {
          assert Entry(s, M, middle);
          return Some(items[middle].data);
        }
        if items[middle].hash < h {
          low := middle + 1;
        } else {
          high := middle - 1;
        }
      }
      AbsentMeans(s, M, h);
      return None;
    }

    method FindByIndex(index: nat) returns (data: Option<T>)
      requires Valid()
      ensures |M| == |Used()|
      ensures data == if index < |M| then Some(Used()[index].data) else None
    {
      ListedCount(Used(), M);
      if index >= nItems {
        return None;
      }
      return Some(items[index].data);
    }

    method FindHashByIndex(index: nat) returns (h: Hash)
      requires Valid()
      ensures |M| == |Used()|
      ensures h == if index < |M| then Used()[index].hash else 0
    {
      ListedCount(Used(), M);
      if index >= nItems {
        return 0;
      }
      return items[index].hash;
    }

    /** Moves the used items to a block of the new size. */
    method Reallocate(newSize: nat)
      requires Valid() && newSize >= nItems && newSize > 0
      modifies this
      ensures Valid() && Used() == old(Used()) && nItems == old(nItems) && M == old(M)
      ensures maxItems == newSize && items != null && fresh(items)
    {
      ghost var s := Used();
      if items == null {
        var filler: Item<T> := *;
        items := new Item<T>[newSize](_ => filler);
      } else {
        items := CopyOf(items, nItems, newSize);
      }
      maxItems := newSize;
      assert Used() == s;
    }

    /** False, and no change, if the hash is already listed. */
    method AddByHash(h: Hash, data: T) returns (added: bool)
      requires Valid()
      modifies this, items
      ensures Valid() && (items == old(items) || fresh(items))
      ensures added <==> h !in old(M)
      ensures M == if added then old(M)[h := data] else old(M)
      ensures maxItems == if added && old(nItems) == old(maxItems) then old(maxItems) + 32 else old(maxItems)
    {
      var toIndex := FindIndexForHash(h);
      ghost var s := Used();
      FoundMeans(s, M, h, toIndex);
      if toIndex != nItems && items[toIndex].hash == h {
        return false;
      }
      if nItems == maxItems {
        Reallocate(maxItems + 32);
      }
      InsertAt(toIndex, Item(h, data));
      return true;
    }

    /** Makes a hole in the array and puts the item there. */
    method InsertAt(toIndex: nat, x: Item<T>)
      requires Valid() && nItems < maxItems
      requires InsertionPoint(Used(), x.hash, toIndex) && x.hash !in M
      modifies this, items
      ensures Valid() && items == old(items) && maxItems == old(maxItems)
      ensures M == old(M)[x.hash := x.data]
    {
      ghost var s := Used();
      FoundMeans(s, M, x.hash, toIndex);
      InsertedSorted(s, toIndex, x);
      InsertedLists(s, M, toIndex, x);
      PutAt(items, toIndex, nItems, x);
      nItems := nItems + 1;
      M := M[x.hash := x.data];
    }

    method RemoveByHash(h: Hash) returns (removed: bool)
      requires Valid()
      modifies this, items
      ensures Valid() && items == old(items) && maxItems == old(maxItems)
      ensures removed <==> h in old(M)
      ensures M == old(M) - {h}
    {
      var toIndex := FindIndexForHash(h);
      FoundMeans(Used(), M, h, toIndex);
      if toIndex == nItems || items[toIndex].hash != h {
        assert M - {h} == M;
        return false;
      }
      RemoveAt(toIndex);
      return true;
    }

    /** Closes the hole that the item leaves. */
    method RemoveAt(toIndex: nat)
      requires Valid() && toIndex < nItems
      modifies this, items
      ensures Valid() && items == old(items) && maxItems == old(maxItems)
      ensures M == old(M) - {old(items[toIndex].hash)}
    {
      ghost var s := Used();
      DeletedSorted(s, toIndex);
      DeletedLists(s, M, toIndex);
      M := M - {items[toIndex].hash};
      TakeFrom(items, toIndex, nItems);
      nItems := nItems - 1;
    }

    /** Only ever enlarges the block. */
    method Resize(newSize: nat)
      requires Valid()
      modifies this
      ensures Valid() && M == old(M) && (items == old(items) || fresh(items))
      ensures maxItems == if newSize > old(maxItems) then newSize else old(maxItems)
    {
      if newSize > maxItems {
        Reallocate(newSize);
      }
    }

    method Clear(freeMemory: bool)
      requires Valid()
      modifies this
      ensures Valid() && M == map[]
      ensures maxItems == if freeMemory then 0 else old(maxItems)
      ensures items == if freeMemory then null else old(items)
    {
      nItems := 0;
      M := map[];
      if freeMemory && items != null {
        maxItems := 0;
        items := null;
      }
    }
  }

  // ---------------------------------------------------------------- any sequence of calls

  datatype Op<T> = Add(h: Hash, data: T) | Remove(h: Hash) | Resize(n: nat) | Clear(freeMemory: bool)

  /** The same calls on a map. */
  ghost function OnMap<T>(m: map<Hash, T>, op: Op<T>): map<Hash, T> {
    match op
    case Add(h, data) => if h in m then m else m[h := data]
    case Remove(h) => m - {h}
    case Resize(_) => m
    case Clear(_) => map[]
  }

  ghost function AllOnMap<T>(ops: seq<Op<T>>): map<Hash, T> {
    if ops == [] then map[] else OnMap(AllOnMap(ops[..|ops| - 1]), ops[|ops| - 1])
  }

  /** Whatever was called, the list agrees with the map on which the same was done. */
  method Run<T(0)>(ops: seq<Op<T>>) returns (list: List<T>)
    ensures list.Valid() && list.M == AllOnMap(ops)
  {
    list := new List<T>();
    var i := 0;
    while i < |ops|
      invariant 0 <= i <= |ops| && fresh(list) && (list.items == null || fresh(list.items))
      invariant list.Valid() && list.M == AllOnMap(ops[..i])
    {
      assert ops[..i + 1][..i] == ops[..i];
      match ops[i] {
        case Add(h, data) => var _ := list.AddByHash(h, data);
        case Remove(h) => var _ := list.RemoveByHash(h);
        case Resize(n) => list.Resize(n);
        case Clear(freeMemory) => list.Clear(freeMemory);
      }
      i := i + 1;
    }
    assert ops[..i] == ops;
  }
}

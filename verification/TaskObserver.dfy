/**
 The observer that counts running tasks of each type for each user, keyed by the hash of the
 user's e-mail, on top of the sorted hash list.
 */
module TaskObserver {
  import StringHash
  import opened Wrappers
  import opened HashList

  const TASK_OBSERVER_COUNT := 4

  type TaskType = t: nat | t < TASK_OBSERVER_COUNT

  // ---------------------------------------------------------------- counters as values

  datatype EntryView = EntryView(email: string, counts: seq<int>)

  type View = map<Hash, EntryView>

  function Fresh(email: string): EntryView {
    EntryView(email, seq(TASK_OBSERVER_COUNT, _ => 0))
  }

  /** Entries have no negative counter, and at least one positive one. */
  ghost predicate Sound(v: View) {
    forall h | h in v :: SoundEntry(v[h].counts)
  }

  ghost predicate SoundEntry(counts: seq<int>) {
    && |counts| == TASK_OBSERVER_COUNT
    && (forall t | 0 <= t < TASK_OBSERVER_COUNT :: counts[t] >= 0)
    && (exists t :: 0 <= t < TASK_OBSERVER_COUNT && counts[t] > 0)
  }

  function CountOf(v: View, h: Hash, t: TaskType): int {
    if h in v && |v[h].counts| == TASK_OBSERVER_COUNT then v[h].counts[t] else 0
  }

  function Bump(e: EntryView, t: TaskType, step: int): EntryView
    requires |e.counts| == TASK_OBSERVER_COUNT
  {
    e.(counts := e.counts[t := e.counts[t] + step])
  }

  function AddedById(v: View, h: Hash, t: TaskType): View
    requires h in v ==> |v[h].counts| == TASK_OBSERVER_COUNT
  {
    v[h := Bump(if h in v then v[h] else Fresh(""), t, 1)]
  }

  /** An entry that was made without an e-mail takes the first one that comes. */
  function AddedByEmail(v: View, h: Hash, email: string, t: TaskType): View
    requires h in v ==> |v[h].counts| == TASK_OBSERVER_COUNT
  {
    var e := if h in v then v[h] else Fresh(email);
    v[h := Bump(if e.email == "" then e.(email := email) else e, t, 1)]
  }

  /** The entry goes when the count of this one type reaches zero, whatever its other counts are. */
  function Removed(v: View, h: Hash, t: TaskType): View
    requires h in v ==> |v[h].counts| == TASK_OBSERVER_COUNT
  {
    if h !in v then v
    else
      var e := if v[h].counts[t] > 0 then Bump(v[h], t, -1) else v[h];
      if e.counts[t] != 0 then v[h := e] else v - {h}
  }

  lemma SoundAdded(v: View, h: Hash, email: string, t: TaskType)
    requires Sound(v)
    ensures Sound(AddedById(v, h, t)) && Sound(AddedByEmail(v, h, email, t))
  {
    assert AddedById(v, h, t)[h].counts[t] > 0;
    assert AddedByEmail(v, h, email, t)[h].counts[t] > 0;
  }

  lemma SoundRemoved(v: View, h: Hash, t: TaskType)
    requires Sound(v)
    ensures Sound(Removed(v, h, t))
  {
    if h in Removed(v, h, t) {
      assert Removed(v, h, t)[h].counts[t] > 0;
    }
  }

  lemma RemovedBy(v: View, h: Hash, t: TaskType)
    requires h in v && |v[h].counts| == TASK_OBSERVER_COUNT
    ensures var e := Bump(v[h], t, -1);
            Removed(v, h, t) == if v[h].counts[t] <= 0 then if v[h].counts[t] != 0 then v else v - {h}
                                else if e.counts[t] != 0 then v[h := e] else v[h := e] - {h}
  {
  }

  // ---------------------------------------------------------------- the observer

  /** The address of an entry. Zero is the null pointer. */
  type Pointer = nat

  ghost predicate Apart(m: map<Hash, Pointer>, g: Hash, h: Hash) {
    g in m && h in m && g != h ==> m[g] != m[h]
  }

  /** The list's data point to allocated entries, and different hashes to different ones. */
  ghost predicate Linked(m: map<Hash, Pointer>, entries: map<Pointer, EntryView>) {
    && (forall h | h in m :: m[h] in entries)
    && (forall g, h :: Apart(m, g, h))
  }

  ghost function ViewOf(m: map<Hash, Pointer>, entries: map<Pointer, EntryView>): View
    requires Linked(m, entries)
  {
    map h | h in m :: entries[m[h]]
  }

  lemma Overwritten<K, V>(m: map<K, V>, k: K, v: V, w: V)
    ensures m[k := v][k := w] == m[k := w]
  {
  }

  lemma WriteThrough(m: map<Hash, Pointer>, entries: map<Pointer, EntryView>, h: Hash, e: EntryView)
    requires Linked(m, entries) && h in m
    ensures Linked(m, entries[m[h] := e])
    ensures ViewOf(m, entries[m[h] := e]) == ViewOf(m, entries)[h := e]
  {
    forall g | g in m && g != h ensures m[g] != m[h] {
      assert Apart(m, g, h);
    }
  }

  lemma LinkNew(m: map<Hash, Pointer>, entries: map<Pointer, EntryView>, h: Hash, p: Pointer, e: EntryView)
    requires Linked(m, entries) && h !in m && p !in entries
    ensures Linked(m[h := p], entries[p := e])
    ensures ViewOf(m[h := p], entries[p := e]) == ViewOf(m, entries)[h := e]
  {
    var n := m[h := p];
    forall f, g ensures Apart(n, f, g) {
      assert Apart(m, f, g);
    }
  }

  lemma Unlink(m: map<Hash, Pointer>, entries: map<Pointer, EntryView>, h: Hash)
    requires Linked(m, entries) && h in m
    ensures Linked(m - {h}, entries - {m[h]})
    ensures ViewOf(m - {h}, entries - {m[h]}) == ViewOf(m, entries) - {h}
  {
    forall g | g in m && g != h ensures m[g] != m[h] {
      assert Apart(m, g, h);
    }
    var n := m - {h};
    forall f, g ensures Apart(n, f, g) {
      assert Apart(m, f, g);
    }
  }

  class Observer {
    const list: List<Pointer>
    const makeHash: string -> Hash
    var entries: map<Pointer, EntryView>  // the entries that are allocated
    var nextAddress: Pointer              // no entry lies at this address or above

    /** The list and the allocated entries fit together. */
    ghost predicate Attached()
      reads this, list, list.items
    {
      list.Valid() && Linked(list.M, entries) && forall p | p in entries :: p < nextAddress
    }

    ghost predicate Valid()
      reads this, list, list.items
    {
      Attached() && Sound(V())
    }

    ghost function V(): View
      requires Linked(list.M, entries)
      reads this, list
    {
      ViewOf(list.M, entries)
    }

    constructor (makeHash: string -> Hash)
      ensures Valid() && V() == map[] && this.makeHash == makeHash
      ensures fresh(list) && list.items == null
    {
      list := new List<Pointer>();
      entries, nextAddress := map[], 1;
      this.makeHash := makeHash;
    }

    /** The entry of the hash, made on the spot if there is none. */
    method EntryFor(id: Hash, email: string) returns (entry: Pointer)
      requires Valid()
      modifies this, list, list.items
      ensures Attached() && id in list.M && list.M[id] == entry
      ensures V() == old(V())[id := if id in old(V()) then old(V())[id] else Fresh(email)]
      ensures list.items == old(list.items) || fresh(list.items)
    {
      var found := list.FindByHash(id);
      if found.None? {
        LinkNew(list.M, entries, id, nextAddress, Fresh(email));
        entry := nextAddress;
        entries, nextAddress := entries[entry := Fresh(email)], nextAddress + 1;
        var added := list.AddByHash(id, entry);
      } else {
        entry := found.value;
        assert V()[id] == entries[entry];
      }
    }

    method WriteEntry(ghost id: Hash, entry: Pointer, e: EntryView)
      requires Attached() && id in list.M && list.M[id] == entry
      modifies this`entries
      ensures Attached() && V() == old(V())[id := e]
      ensures entries == old(entries)[entry := e]
    {
      WriteThrough(list.M, entries, id, e);
      entries := entries[entry := e];
    }

    method AddTaskById(id: Hash, t: TaskType)
      requires Valid()
      modifies this, list, list.items
      ensures Valid() && V() == AddedById(old(V()), id, t)
      ensures list.items == old(list.items) || fresh(list.items)
    {
      ghost var before := V();
      SoundAdded(before, id, "", t);
      var entry := EntryFor(id, "");
      var e := entries[entry];
      assert e == V()[id];
      WriteEntry(id, entry, Bump(e, t, 1));
      Overwritten(before, id, e, Bump(e, t, 1));
    }

    /** Collision: the entry belongs to another e-mail with the same hash, which is reported. */
    method AddTask(email: string, t: TaskType) returns (collision: bool)
      requires Valid()
      modifies this, list, list.items
      ensures Valid() && V() == AddedByEmail(old(V()), makeHash(email), email, t)
      ensures collision <==> makeHash(email) in old(V()) && old(V())[makeHash(email)].email !in {"", email}
      ensures list.items == old(list.items) || fresh(list.items)
    {
      var id := makeHash(email);
      ghost var before := V();
      SoundAdded(before, id, email, t);
      var entry := EntryFor(id, email);
      var e := entries[entry];
      assert e == V()[id];
      collision := e.email != "" && e.email != email;
      var named := if e.email == "" then e.(email := email) else e;
      WriteEntry(id, entry, Bump(named, t, 1));
      Overwritten(before, id, e, Bump(named, t, 1));
    }

    /** Whether the counter is not zero, asked once for every type. */
    method AnyCountLeft(entry: Pointer, t: TaskType) returns (oneIsNotZero: bool)
      requires entry in entries && |entries[entry].counts| == TASK_OBSERVER_COUNT
      ensures oneIsNotZero == (entries[entry].counts[t] != 0)
    {
      oneIsNotZero := false;
      var i := 0;
      while i < TASK_OBSERVER_COUNT
        invariant 0 <= i <= TASK_OBSERVER_COUNT
        invariant oneIsNotZero == (i > 0 && entries[entry].counts[t] != 0)
      {
        if entries[entry].counts[t] != 0 {
          oneIsNotZero := true;
        }
        i := i + 1;
      }
    }

    method DeleteEntry(id: Hash, entry: Pointer)
      requires Attached() && id in list.M && list.M[id] == entry
      modifies this`entries, list, list.items
      ensures Attached() && V() == old(V()) - {id}
      ensures list.items == old(list.items)
    {
      Unlink(list.M, entries, id);
      var removed := list.RemoveByHash(id);
      entries := entries - {entry};
    }

    /** Excess: there was no task of the type to remove, which is reported. */
    method RemoveTaskById(id: Hash, t: TaskType) returns (excess: bool)
      requires Valid()
      modifies this, list, list.items
      ensures Valid() && V() == Removed(old(V()), id, t)
      ensures excess <==> CountOf(old(V()), id, t) == 0
      ensures list.items == old(list.items)
    {
      ghost var before := V();
      SoundRemoved(before, id, t);
      var found := list.FindByHash(id);
      if found.None? {
        return true;
      }
      var entry := found.value;
      assert before[id] == entries[entry];
      RemovedBy(before, id, t);
      excess := !(entries[entry].counts[t] > 0);
      if entries[entry].counts[t] > 0 {
        WriteEntry(id, entry, Bump(entries[entry], t, -1));
      }
      var oneIsNotZero := AnyCountLeft(entry, t);
      if !oneIsNotZero {
        DeleteEntry(id, entry);
      }
    }

    method RemoveTask(email: string, t: TaskType) returns (excess: bool)
      requires Valid()
      modifies this, list, list.items
      ensures Valid() && V() == Removed(old(V()), makeHash(email), t)
      ensures excess <==> CountOf(old(V()), makeHash(email), t) == 0
      ensures list.items == old(list.items)
    {
      excess := RemoveTaskById(makeHash(email), t);
    }

    method GetTaskCountById(id: Hash, t: TaskType) returns (count: int)
      requires Valid()
      ensures count == if id in V() then CountOf(V(), id, t) else -1
    {
      var found := list.FindByHash(id);
      if found.None? {
        return -1;
      }
      assert V()[id] == entries[found.value];
      return entries[found.value].counts[t];
    }

    /** An entry of another e-mail with the same hash does not count. */
    method GetTaskCount(email: string, t: TaskType) returns (count: int)
      requires Valid()
      ensures var id := makeHash(email);
              count == if id in V() && V()[id].email in {"", email} then CountOf(V(), id, t) else -1
    {
      var id := makeHash(email);
      var found := list.FindByHash(id);
      assert found.Some? ==> V()[id] == entries[found.value];
      if found.None? || (entries[found.value].email != "" && entries[found.value].email != email) {
        return -1;
      }
      return entries[found.value].counts[t];
    }

    /** The sum of the counters of one type over all entries. */
    method GetTasksCount(t: TaskType) returns (sum: int)
      requires Valid()
      ensures sum == Total(V(), t)
    {
      ghost var s := list.Used();
      sum := 0;
      var i := 0;
      while i < list.nItems
        invariant 0 <= i <= list.nItems
        invariant sum == Shown(s[..i], entries, t)
      {
        var found := list.FindByIndex(i);
        ItemLinked(s, i, list.M, entries);
        assert s[..i + 1][..i] == s[..i];
        sum := sum + entries[found.value].counts[t];
        i := i + 1;
      }
      assert s[..i] == s;
      ShownIsTotal(s, list.M, entries, t);
    }
  }

  // ---------------------------------------------------------------- sums over entries

  /** The sum of one counter over all entries of the map. */
  ghost function Total(v: View, t: TaskType): int
    decreases |v|
  {
    if v == map[] then 0
    else
      var h :| h in v;
      CountOf(v, h, t) + Total(v - {h}, t)
  }

  /** The sum does not depend on the order in which entries are taken. */
  lemma {:induction false} TotalWithout(v: View, h: Hash, t: TaskType)
    requires h in v
    ensures Total(v, t) == CountOf(v, h, t) + Total(v - {h}, t)
    decreases |v|
  {
    var g :| g in v && Total(v, t) == CountOf(v, g, t) + Total(v - {g}, t);
    if g != h {
      TotalWithout(v - {g}, h, t);
      TotalWithout(v - {h}, g, t);
      assert v - {g} - {h} == v - {h} - {g};
      assert CountOf(v - {g}, h, t) == CountOf(v, h, t) && CountOf(v - {h}, g, t) == CountOf(v, g, t);
    }
  }

  function CountAt(entries: map<Pointer, EntryView>, p: Pointer, t: TaskType): int {
    if p in entries && |entries[p].counts| == TASK_OBSERVER_COUNT then entries[p].counts[t] else 0
  }

  /** The sum over the items of a list, in their order. */
  ghost function Shown(s: seq<Item<Pointer>>, entries: map<Pointer, EntryView>, t: TaskType): int {
    if s == [] then 0 else Shown(s[..|s| - 1], entries, t) + CountAt(entries, s[|s| - 1].data, t)
  }

  lemma ItemLinked(s: seq<Item<Pointer>>, i: nat, m: map<Hash, Pointer>, entries: map<Pointer, EntryView>)
    requires Lists(s, m) && i < |s| && Linked(m, entries) && Sound(ViewOf(m, entries))
    ensures s[i].hash in m && m[s[i].hash] == s[i].data
    ensures s[i].data in entries && |entries[s[i].data].counts| == TASK_OBSERVER_COUNT
  {
    assert Entry(s, m, i);
    assert SoundEntry(ViewOf(m, entries)[s[i].hash].counts);
  }

  lemma {:induction false} ShownIsTotal(s: seq<Item<Pointer>>, m: map<Hash, Pointer>, entries: map<Pointer, EntryView>, t: TaskType)
    requires Sorted(s) && Lists(s, m) && Linked(m, entries) && Sound(ViewOf(m, entries))
    ensures Shown(s, entries, t) == Total(ViewOf(m, entries), t)
    decreases |s|
  {
    ListedCount(s, m);
    var v := ViewOf(m, entries);
    if s == [] {
      assert v == map[];
    } else {
      var n := |s| - 1;
      var h, m' := s[n].hash, m - {s[n].hash};
      ItemLinked(s, n, m, entries);
      DeletedSorted(s, n);
      DeletedLists(s, m, n);
      assert Deleted(s, n) == s[..n];
      LinkedWithout(m, entries, h);
      ShownIsTotal(s[..n], m', entries, t);
      TotalWithout(v, h, t);
    }
  }

  lemma LinkedWithout(m: map<Hash, Pointer>, entries: map<Pointer, EntryView>, h: Hash)
    requires Linked(m, entries)
    ensures Linked(m - {h}, entries) && ViewOf(m - {h}, entries) == ViewOf(m, entries) - {h}
  {
    var n := m - {h};
    forall f, g ensures Apart(n, f, g) {
      assert Apart(m, f, g);
    }
  }

  // ---------------------------------------------------------------- any sequence of calls

  datatype Call =
    | AddId(id: Hash, t: TaskType)
    | AddEmail(email: string, t: TaskType)
    | RemoveId(id: Hash, t: TaskType)
    | RemoveEmail(email: string, t: TaskType)
  {
    predicate Adds() {
      AddId? || AddEmail?
    }

    function Key(makeHash: string -> Hash): Hash {
      if AddId? || RemoveId? then id else makeHash(email)
    }
  }

  function Effect(v: View, c: Call, makeHash: string -> Hash): View
    requires Sound(v)
  {
    match c
    case AddId(id, t) => AddedById(v, id, t)
    case AddEmail(email, t) => AddedByEmail(v, makeHash(email), email, t)
    case RemoveId(id, t) => Removed(v, id, t)
    case RemoveEmail(email, t) => Removed(v, makeHash(email), t)
  }

  lemma SoundEffect(v: View, c: Call, makeHash: string -> Hash)
    requires Sound(v)
    ensures Sound(Effect(v, c, makeHash))
  {
    match c {
      case AddId(id, t) => SoundAdded(v, id, "", t);
      case AddEmail(email, t) => SoundAdded(v, makeHash(email), email, t);
      case RemoveId(id, t) => SoundRemoved(v, id, t);
      case RemoveEmail(email, t) => SoundRemoved(v, makeHash(email), t);
    }
  }

  /** What the observer holds after the calls. */
  ghost function After(calls: seq<Call>, makeHash: string -> Hash): (v: View)
    ensures Sound(v)
  {
    if calls == [] then map[]
    else
      var v := After(calls[..|calls| - 1], makeHash);
      SoundEffect(v, calls[|calls| - 1], makeHash);
      Effect(v, calls[|calls| - 1], makeHash)
  }

  lemma AfterNext(calls: seq<Call>, i: nat, makeHash: string -> Hash)
    requires i < |calls|
    ensures After(calls[..i + 1], makeHash) == Effect(After(calls[..i], makeHash), calls[i], makeHash)
  {
    assert calls[..i + 1][..i] == calls[..i];
  }

  method Perform(o: Observer, c: Call)
    requires o.Valid()
    modifies o, o.list, o.list.items
    ensures o.Valid() && o.V() == Effect(old(o.V()), c, o.makeHash)
    ensures o.list.items == old(o.list.items) || fresh(o.list.items)
  {
    match c
    case AddId(id, t) => o.AddTaskById(id, t);
    case AddEmail(email, t) => var _ := o.AddTask(email, t);
    case RemoveId(id, t) => var _ := o.RemoveTaskById(id, t);
    case RemoveEmail(email, t) => var _ := o.RemoveTask(email, t);
  }

  method Play(calls: seq<Call>, makeHash: string -> Hash) returns (o: Observer)
    ensures o.Valid() && o.makeHash == makeHash && o.V() == After(calls, makeHash)
  {
    o := new Observer(makeHash);
    var i := 0;
    while i < |calls|
      invariant 0 <= i <= |calls|
      invariant fresh(o) && fresh(o.list) && (o.list.items == null || fresh(o.list.items))
      invariant o.Valid() && o.makeHash == makeHash && o.V() == After(calls[..i], makeHash)
    {
      AfterNext(calls, i, makeHash);
      Perform(o, calls[i]);
      i := i + 1;
    }
    assert calls[..i] == calls;
  }

  /** One call changes one counter, except that a remove which leaves its counter at zero clears them all. */
  lemma CountAfter(v: View, c: Call, makeHash: string -> Hash, h: Hash, t: TaskType)
    requires Sound(v)
    ensures CountOf(Effect(v, c, makeHash), h, t) ==
            if c.Key(makeHash) != h then CountOf(v, h, t)
            else if c.Adds() then CountOf(v, h, t) + if c.t == t then 1 else 0
            else if CountOf(v, h, c.t) <= 1 then 0
            else CountOf(v, h, t) - if c.t == t then 1 else 0
  {
    match c {
      case AddId(_, _) =>
      case AddEmail(_, _) =>
      case RemoveId(_, _) =>
      case RemoveEmail(_, _) =>
    }
  }

  /** The e-mail by which an entry goes: the first one that a task was added with since the entry was made. */
  ghost function NameOf(calls: seq<Call>, makeHash: string -> Hash, h: Hash): string {
    if calls == [] then ""
    else
      var c, before := calls[|calls| - 1], calls[..|calls| - 1];
      var known := if h in After(before, makeHash) then NameOf(before, makeHash, h) else "";
      if c.AddEmail? && makeHash(c.email) == h && known == "" then c.email else known
  }

  lemma {:induction false} NameExactly(calls: seq<Call>, makeHash: string -> Hash, h: Hash)
    requires h in After(calls, makeHash)
    ensures After(calls, makeHash)[h].email == NameOf(calls, makeHash, h)
  {
    var c, before := calls[|calls| - 1], calls[..|calls| - 1];
    if h in After(before, makeHash) {
      NameExactly(before, makeHash, h);
    }
  }

  /** An entry is there exactly as long as one of its counters is positive. */
  lemma PresentExactly(calls: seq<Call>, makeHash: string -> Hash, h: Hash)
    ensures h in After(calls, makeHash) <==> exists t: TaskType :: CountOf(After(calls, makeHash), h, t) > 0
  {
    var v := After(calls, makeHash);
    if h in v {
      assert SoundEntry(v[h].counts);
      var t :| 0 <= t < TASK_OBSERVER_COUNT && v[h].counts[t] > 0;
      var u: TaskType := t;
      assert CountOf(v, h, u) > 0;
    }
  }

  /** Tasks of the type that were added for the hash and not yet removed. */
  ghost function Outstanding(calls: seq<Call>, makeHash: string -> Hash, h: Hash, t: TaskType): int {
    if calls == [] then 0
    else
      var c, before := calls[|calls| - 1], Outstanding(calls[..|calls| - 1], makeHash, h, t);
      if c.Key(makeHash) != h || c.t != t then before else if c.Adds() then before + 1 else before - 1
  }

  /** Every remove has a task to remove. */
  ghost predicate Matched(calls: seq<Call>, makeHash: string -> Hash) {
    calls != [] ==>
      var c, before := calls[|calls| - 1], calls[..|calls| - 1];
      && Matched(before, makeHash)
      && (!c.Adds() ==> Outstanding(before, makeHash, c.Key(makeHash), c.t) > 0)
  }

  ghost predicate Idle(calls: seq<Call>, makeHash: string -> Hash, h: Hash) {
    forall t: TaskType :: Outstanding(calls, makeHash, h, t) == 0
  }

  /**
   The last task of one type was removed while tasks of another type were outstanding, and since
   then there was always some task outstanding.
   */
  ghost predicate Lost(calls: seq<Call>, makeHash: string -> Hash, h: Hash) {
    && calls != []
    && !Idle(calls, makeHash, h)
    && var c, before := calls[|calls| - 1], calls[..|calls| - 1];
       || Lost(before, makeHash, h)
       || (c.Key(makeHash) == h && !c.Adds() && Outstanding(calls, makeHash, h, c.t) == 0)
  }

  ghost predicate Exact(calls: seq<Call>, makeHash: string -> Hash, h: Hash) {
    forall t: TaskType :: CountOf(After(calls, makeHash), h, t) == Outstanding(calls, makeHash, h, t)
  }

  lemma {:induction false} NeverExceeds(calls: seq<Call>, makeHash: string -> Hash, h: Hash, t: TaskType)
    requires Matched(calls, makeHash)
    ensures 0 <= CountOf(After(calls, makeHash), h, t) <= Outstanding(calls, makeHash, h, t)
  {
    if calls != [] {
      var c, before := calls[|calls| - 1], calls[..|calls| - 1];
      NeverExceeds(before, makeHash, h, t);
      CountAfter(After(before, makeHash), c, makeHash, h, t);
    }
  }

  ghost predicate Short(calls: seq<Call>, makeHash: string -> Hash, h: Hash, t: TaskType) {
    CountOf(After(calls, makeHash), h, t) < Outstanding(calls, makeHash, h, t)
  }

  /** A counter that was lost stays too small, or takes another one with it, until nothing is outstanding. */
  lemma StaysShort(calls: seq<Call>, makeHash: string -> Hash, h: Hash, t: TaskType, u: TaskType)
    requires Matched(calls, makeHash) && calls != [] && Short(calls[..|calls| - 1], makeHash, h, t)
    requires Outstanding(calls, makeHash, h, u) != 0
    ensures Short(calls, makeHash, h, t) || Short(calls, makeHash, h, u)
  {
    var c, before := calls[|calls| - 1], calls[..|calls| - 1];
    CountAfter(After(before, makeHash), c, makeHash, h, t);
    CountAfter(After(before, makeHash), c, makeHash, h, u);
    NeverExceeds(calls, makeHash, h, u);
    NeverExceeds(before, makeHash, h, t);
  }

  lemma StaysExact(calls: seq<Call>, makeHash: string -> Hash, h: Hash)
    requires Matched(calls, makeHash) && calls != [] && Exact(calls[..|calls| - 1], makeHash, h)
    requires var c := calls[|calls| - 1];
             c.Key(makeHash) == h && !c.Adds() ==> Outstanding(calls, makeHash, h, c.t) != 0
    ensures Exact(calls, makeHash, h)
  {
    var c, before := calls[|calls| - 1], calls[..|calls| - 1];
    forall t: TaskType
      ensures CountOf(After(calls, makeHash), h, t) == Outstanding(calls, makeHash, h, t)
    {
      CountAfter(After(before, makeHash), c, makeHash, h, t);
      assert CountOf(After(before, makeHash), h, c.t) == Outstanding(before, makeHash, h, c.t);
    }
  }

  lemma LosesOne(calls: seq<Call>, makeHash: string -> Hash, h: Hash, u: TaskType)
    requires Matched(calls, makeHash) && calls != [] && Outstanding(calls, makeHash, h, u) != 0
    requires var c := calls[|calls| - 1];
             c.Key(makeHash) == h && !c.Adds() && Outstanding(calls, makeHash, h, c.t) == 0
    ensures Short(calls, makeHash, h, u)
  {
    var c, before := calls[|calls| - 1], calls[..|calls| - 1];
    NeverExceeds(before, makeHash, h, c.t);
    NeverExceeds(calls, makeHash, h, u);
    CountAfter(After(before, makeHash), c, makeHash, h, u);
  }

  /** The counters of a user are right exactly as long as none was lost. */
  lemma {:induction false} ExactUnlessLost(calls: seq<Call>, makeHash: string -> Hash, h: Hash)
    requires Matched(calls, makeHash)
    ensures Exact(calls, makeHash, h) <==> !Lost(calls, makeHash, h)
  {
    if calls == [] {
    } else if Idle(calls, makeHash, h) {
      forall t: TaskType
        ensures CountOf(After(calls, makeHash), h, t) == Outstanding(calls, makeHash, h, t)
      {
        NeverExceeds(calls, makeHash, h, t);
      }
    } else {
      var c, before := calls[|calls| - 1], calls[..|calls| - 1];
      var u: TaskType :| Outstanding(calls, makeHash, h, u) != 0;
      ExactUnlessLost(before, makeHash, h);
      if Lost(before, makeHash, h) {
        var t: TaskType :| CountOf(After(before, makeHash), h, t) != Outstanding(before, makeHash, h, t);
        NeverExceeds(before, makeHash, h, t);
        StaysShort(calls, makeHash, h, t, u);
      } else if c.Key(makeHash) == h && !c.Adds() && Outstanding(calls, makeHash, h, c.t) == 0 {
        LosesOne(calls, makeHash, h, u);
      } else {
        StaysExact(calls, makeHash, h);
      }
    }
  }

  /** Counters do get lost: two tasks of different types are added and one of them is removed. */
  lemma LossHappens(makeHash: string -> Hash, h: Hash)
    ensures var calls := [AddId(h, 0), AddId(h, 1)] + [RemoveId(h, 0)];
            && Matched(calls, makeHash) && Lost(calls, makeHash, h)
            && CountOf(After(calls, makeHash), h, 1) == 0 && Outstanding(calls, makeHash, h, 1) == 1
  {
    var one, two := [AddId(h, 0)], [AddId(h, 0), AddId(h, 1)];
    var three := two + [RemoveId(h, 0)];
    assert one[..0] == [] && two[..1] == one && three[..2] == two;
    assert Outstanding([], makeHash, h, 0) == 0 && Outstanding([], makeHash, h, 1) == 0;
    assert Outstanding(one, makeHash, h, 0) == 1 && Outstanding(one, makeHash, h, 1) == 0;
    assert Outstanding(two, makeHash, h, 0) == 1 && Outstanding(two, makeHash, h, 1) == 1;
    assert Outstanding(three, makeHash, h, 0) == 0 && Outstanding(three, makeHash, h, 1) == 1;
    assert Matched([], makeHash) && Matched(one, makeHash) && Matched(two, makeHash);
    CountAfter(After(two, makeHash), RemoveId(h, 0), makeHash, h, 1);
    NeverExceeds(two, makeHash, h, 0);
  }

  ghost predicate OneType(calls: seq<Call>, makeHash: string -> Hash, h: Hash) {
    forall t: TaskType, u: TaskType ::
      t != u ==> Outstanding(calls, makeHash, h, t) == 0 || Outstanding(calls, makeHash, h, u) == 0
  }

  /** Nothing is lost while a user never has tasks of two types at once. */
  lemma {:induction false} ExactWhileOneType(calls: seq<Call>, makeHash: string -> Hash, h: Hash)
    requires Matched(calls, makeHash)
    requires forall k | 0 <= k <= |calls| :: OneType(calls[..k], makeHash, h)
    ensures Exact(calls, makeHash, h)
  {
    NeverLost(calls, makeHash, h);
    ExactUnlessLost(calls, makeHash, h);
  }

  lemma {:induction false} NeverLost(calls: seq<Call>, makeHash: string -> Hash, h: Hash)
    requires Matched(calls, makeHash)
    requires forall k | 0 <= k <= |calls| :: OneType(calls[..k], makeHash, h)
    ensures !Lost(calls, makeHash, h)
  {
    if calls != [] {
      var c, before := calls[|calls| - 1], calls[..|calls| - 1];
      assert forall k | 0 <= k <= |before| :: before[..k] == calls[..k];
      NeverLost(before, makeHash, h);
      assert before == calls[..|before|];
      assert OneType(before, makeHash, h);
      if c.Key(makeHash) == h && !c.Adds() && Outstanding(calls, makeHash, h, c.t) == 0 {
        forall t: TaskType ensures Outstanding(calls, makeHash, h, t) == 0 {
          if t != c.t {
            assert Outstanding(before, makeHash, h, t) == 0 || Outstanding(before, makeHash, h, c.t) == 0;
          }
        }
      }
    }
  }

  /** A task that was added by hash is counted for every e-mail with that hash, unless the entry goes by another one. */
  method AskAfterAddById(o: Observer, email: string, t: TaskType) returns (before: int, after: int)
    requires o.Valid()
    modifies o, o.list, o.list.items
    ensures o.Valid()
    ensures var h := o.makeHash(email);
            && (before == -1 <==> h !in old(o.V()) || old(o.V())[h].email !in {"", email})
            && after == (if h !in old(o.V()) then 1 else if before == -1 then -1 else before + 1)
  {
    before := o.GetTaskCount(email, t);
    CountNatural(o.V(), o.makeHash(email), t);
    o.AddTaskById(o.makeHash(email), t);
    after := o.GetTaskCount(email, t);
  }

  lemma CountNatural(v: View, h: Hash, t: TaskType)
    requires Sound(v)
    ensures CountOf(v, h, t) >= 0
  {
    assert h in v ==> SoundEntry(v[h].counts);
  }

  // ---------------------------------------------------------------- the hash in use

  function EmailHash(email: string): Hash {
    StringHash.Hash(StringHash.Bytes(email)) as nat
  }

  /** Adds under the hash that is taken of the e-mail as a C string. */
  method AddByTerminatedHash(o: Observer, email: string, t: TaskType)
    requires o.Valid() && o.makeHash == EmailHash && StringHash.NUL !in StringHash.Bytes(email)
    modifies o, o.list, o.list.items
    ensures o.Valid() && o.V() == AddedById(old(o.V()), o.makeHash(email), t)
    ensures o.list.items == old(o.list.items) || fresh(o.list.items)
  {
    var terminated, sized := StringHash.BothHashes(StringHash.Bytes(email));
    o.AddTaskById(terminated as nat, t);
  }

  /** For an e-mail without zeros both ways of adding reach one entry. */
  method AddBothWays(o: Observer, email: string, t: TaskType)
    requires o.Valid() && o.makeHash == EmailHash && StringHash.NUL !in StringHash.Bytes(email)
    modifies o, o.list, o.list.items
    ensures o.Valid()
    ensures CountOf(o.V(), EmailHash(email), t) == CountOf(old(o.V()), EmailHash(email), t) + 2
    ensures o.V() - {EmailHash(email)} == old(o.V()) - {EmailHash(email)}
  {
    BothAdds(o.V(), EmailHash(email), email, t);
    AddByTerminatedHash(o, email, t);
    var _ := o.AddTask(email, t);
  }

  lemma BothAdds(v: View, h: Hash, email: string, t: TaskType)
    requires Sound(v)
    ensures Sound(AddedById(v, h, t))
    ensures var w := AddedByEmail(AddedById(v, h, t), h, email, t);
            CountOf(w, h, t) == CountOf(v, h, t) + 2 && w - {h} == v - {h}
  {
    SoundAdded(v, h, email, t);
  }
}

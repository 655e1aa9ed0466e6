/**
 The shared_ptr of the smart pointer library. Handles, counters and pointees live at addresses; several handles may
 hold the same pointee and counter, and every operation updates them in place. Addresses are never reused, so an
 address in a deletion log names one allocation. The handles here live outside the pointees; module Ownership is about
 those inside.
 */
module SharedPtr {
  import opened Sets
  import opened Wrappers

  /** The two fields of a handle; None is nullptr. */
  datatype Fields = Fields(ptr: Option<nat>, count: Option<nat>)

  const EMPTY := Fields(None, None)

  type Handles = map<nat, Fields>

  /** Who holds what: all a user of the handles can see. */
  function View(hs: Handles): map<nat, Option<nat>> {
    map h | h in hs :: hs[h].ptr
  }

  lemma ViewSet(hs: Handles, h: nat, f: Fields)
    ensures View(hs[h := f]) == View(hs)[h := f.ptr]
  {
  }

  lemma ViewDrop(hs: Handles, h: nat)
    ensures View(hs - {h}) == View(hs) - {h}
  {
  }

  lemma ViewAt(hs: Handles, h: nat)
    requires h in hs
    ensures h in View(hs) && View(hs)[h] == hs[h].ptr
  {
  }

  function Sharers(hs: Handles, c: nat): set<nat> {
    set h | h in hs && hs[h].count == Some(c)
  }

  /** Some handle holds the pointee. */
  ghost predicate Owned(hs: Handles, o: nat) {
    exists h :: h in hs && hs[h].ptr == Some(o)
  }

  ghost predicate Holding(hs: Handles, counters: map<nat, nat>, objects: set<nat>) {
    && (forall h :: h in hs ==> (hs[h].ptr.Some? <==> hs[h].count.Some?))
    && (forall h :: h in hs && hs[h].count.Some? ==> hs[h].count.value in counters && hs[h].ptr.value in objects)
    && (forall h, k :: h in hs && k in hs && hs[h].count.Some? && hs[k].count.Some? ==>
          (hs[h].count == hs[k].count <==> hs[h].ptr == hs[k].ptr))
  }

  ghost predicate Exact(hs: Handles, counters: map<nat, nat>) {
    forall c :: c in counters ==> counters[c] == |Sharers(hs, c)| && counters[c] > 0
  }

  /** What the handles hold is alive, and each counter says how many handles hold it. */
  ghost predicate Counted(hs: Handles, counters: map<nat, nat>, objects: set<nat>) {
    Holding(hs, counters, objects) && Exact(hs, counters)
  }

  ghost predicate Distinct(log: seq<nat>) {
    forall i, j :: 0 <= i < j < |log| ==> log[i] != log[j]
  }

  lemma SharersSet(hs: Handles, h: nat, f: Fields, c: nat)
    ensures Sharers(hs[h := f], c) == (if f.count == Some(c) then Sharers(hs, c) + {h} else Sharers(hs, c) - {h})
  {
  }

  lemma SharersDrop(hs: Handles, h: nat, c: nat)
    ensures Sharers(hs - {h}, c) == Sharers(hs, c) - {h}
  {
  }

  /** A handle that is the only one counted is the only one to hold the pointee. */
  lemma SoleOwner(hs: Handles, counters: map<nat, nat>, objects: set<nat>, h: nat, k: nat)
    requires Counted(hs, counters, objects) && h in hs && k in hs && k != h
    requires hs[h].count.Some? && counters[hs[h].count.value] == 1
    ensures hs[k].ptr != hs[h].ptr && hs[k].count != hs[h].count
  {
    var c := hs[h].count.value;
    var both := {h, k};
    assert |both| == 2;
    if hs[k].count == Some(c) {
      SubsetSize(both, Sharers(hs, c));
    }
  }

  /** Fewer handles hold what they held as long as it is there. */
  lemma HoldingLess(hs: Handles, counters: map<nat, nat>, objects: set<nat>, h: nat,
                    counters': map<nat, nat>, objects': set<nat>)
    requires Holding(hs, counters, objects)
    requires forall k :: k in hs && k != h && hs[k].count.Some? ==>
               hs[k].count.value in counters' && hs[k].ptr.value in objects'
    ensures Holding(hs - {h}, counters', objects')
  {
  }

  lemma SharersLess(hs: Handles, h: nat)
    requires h in hs
    ensures forall c: nat :: |Sharers(hs - {h}, c)| == |Sharers(hs, c)| - (if hs[h].count == Some(c) then 1 else 0)
  {
    forall c: nat ensures |Sharers(hs - {h}, c)| == |Sharers(hs, c)| - (if hs[h].count == Some(c) then 1 else 0) {
      SharersDrop(hs, h, c);
    }
  }

  /** One handle fewer, one count less. */
  lemma CountedWithout(hs: Handles, counters: map<nat, nat>, objects: set<nat>, h: nat)
    requires Counted(hs, counters, objects) && h in hs && hs[h].count.Some? && counters[hs[h].count.value] > 1
    ensures var c := hs[h].count.value; Counted(hs - {h}, counters[c := counters[c] - 1], objects)
  {
    var c := hs[h].count.value;
    HoldingLess(hs, counters, objects, h, counters[c := counters[c] - 1], objects);
    SharersLess(hs, h);
    hide Holding, Sharers;
  }

  /** The last handle, its counter and its pointee go together. */
  lemma CountedWithoutLast(hs: Handles, counters: map<nat, nat>, objects: set<nat>, h: nat)
    requires Counted(hs, counters, objects) && h in hs && hs[h].count.Some? && counters[hs[h].count.value] == 1
    ensures Counted(hs - {h}, counters - {hs[h].count.value}, objects - {hs[h].ptr.value})
  {
    forall k | k in hs && k != h ensures hs[k].ptr != hs[h].ptr && hs[k].count != hs[h].count {
      SoleOwner(hs, counters, objects, h, k);
    }
    HoldingLess(hs, counters, objects, h, counters - {hs[h].count.value}, objects - {hs[h].ptr.value});
    SharersLess(hs, h);
    hide Holding, Sharers;
  }

  lemma CountedWithoutNull(hs: Handles, counters: map<nat, nat>, objects: set<nat>, h: nat)
    requires Counted(hs, counters, objects) && h in hs && hs[h].count.None?
    ensures Counted(hs - {h}, counters, objects)
  {
    forall c | c in counters ensures |Sharers(hs - {h}, c)| == |Sharers(hs, c)| {
      SharersDrop(hs, h, c);
    }
    hide Sharers;
  }

  lemma CountedWithNull(hs: Handles, counters: map<nat, nat>, objects: set<nat>, h: nat)
    requires Counted(hs, counters, objects) && h !in hs
    ensures Counted(hs[h := EMPTY], counters, objects)
  {
    forall c | c in counters ensures |Sharers(hs[h := EMPTY], c)| == |Sharers(hs, c)| {
      SharersSet(hs, h, EMPTY, c);
    }
    hide Sharers;
  }

  /** A new handle that takes over another's fields adds one to the count. */
  lemma CountedWithCopy(hs: Handles, counters: map<nat, nat>, objects: set<nat>, h: nat, other: nat)
    requires Counted(hs, counters, objects) && h !in hs && other in hs && hs[other].count.Some?
    ensures var c := hs[other].count.value; Counted(hs[h := hs[other]], counters[c := counters[c] + 1], objects)
  {
    var f := hs[other];
    forall c | c in counters
      ensures |Sharers(hs[h := f], c)| == |Sharers(hs, c)| + if f.count == Some(c) then 1 else 0
    {
      SharersSet(hs, h, f, c);
    }
    hide Sharers;
  }

  /** Moving renames the holder and leaves every count alone. */
  lemma CountedWithMove(hs: Handles, counters: map<nat, nat>, objects: set<nat>, h: nat, other: nat)
    requires Counted(hs, counters, objects) && h !in hs && other in hs
    ensures Counted(hs[h := hs[other]][other := EMPTY], counters, objects)
  {
    var f := hs[other];
    var both := hs[h := f];
    if f.count.Some? {
      var c := f.count.value;
      CountedWithCopy(hs, counters, objects, h, other);
      CountedWithout(both, counters[c := counters[c] + 1], objects, other);
      assert counters[c := counters[c] + 1][c := counters[c]] == counters;
    } else {
      assert f == EMPTY;
      CountedWithNull(hs, counters, objects, h);
      CountedWithoutNull(both, counters, objects, other);
    }
    CountedWithNull(both - {other}, counters, objects, other);
    assert (both - {other})[other := EMPTY] == both[other := EMPTY];
  }

  lemma CountedWithFirst(hs: Handles, counters: map<nat, nat>, objects: set<nat>, h: nat, o: nat, c: nat)
    requires Counted(hs, counters, objects) && h !in hs && o in objects && !Owned(hs, o) && c !in counters
    ensures Counted(hs[h := Fields(Some(o), Some(c))], counters[c := 1], objects)
  {
    var f := Fields(Some(o), Some(c));
    forall d | d in counters ensures |Sharers(hs[h := f], d)| == |Sharers(hs, d)| {
      SharersSet(hs, h, f, d);
    }
    SharersSet(hs, h, f, c);
    assert Sharers(hs, c) == {};
  }

  // ----- the heap as a value

  datatype Heap = Heap(
    handles: Handles,
    counters: map<nat, nat>,
    objects: set<nat>,           // pointees alive
    next: nat,                   // the next address the allocator gives out
    deletedObjects: seq<nat>,    // every delete of a pointee
    deletedCounters: seq<nat>,   // every delete of a counter
    managed: set<nat>)           // pointees that have ever been given to a handle

  /** No address is deleted twice or used after its deletion; what was given to handles is held or deleted. */
  ghost predicate Logged(m: Heap, hs: Handles) {
    && Distinct(m.deletedObjects) && Distinct(m.deletedCounters)
    && (forall o :: o in m.deletedObjects ==> o !in m.objects && o < m.next)
    && (forall c :: c in m.deletedCounters ==> c !in m.counters && c < m.next)
    && (forall o :: o in m.objects ==> o < m.next)
    && (forall c :: c in m.counters ==> c < m.next)
    && (forall o :: o in m.managed <==> Owned(hs, o) || o in m.deletedObjects)
  }

  /** The heap is in order as far as these handles are concerned. */
  ghost predicate Consistent(m: Heap, hs: Handles) {
    Counted(hs, m.counters, m.objects) && Logged(m, hs)
  }

  ghost predicate Valid(m: Heap) { Consistent(m, m.handles) }

  function GetCount(m: Heap, h: nat): nat {
    if h in m.handles && m.handles[h].count.Some? && m.handles[h].count.value in m.counters
    then m.counters[m.handles[h].count.value] else 0
  }

  /** release() can run: it dereferences the counter. */
  predicate CanRelease(m: Heap, h: nat) {
    && h in m.handles
    && (m.handles[h].count.Some? ==>
          m.handles[h].ptr.Some? && m.handles[h].count.value in m.counters && GetCount(m, h) > 0)
  }

  /** The heap after release() of h. */
  function Released(m: Heap, h: nat): Heap
    requires CanRelease(m, h)
  {
    var f := m.handles[h];
    if f.count.None? then m
    else if GetCount(m, h) > 1 then m.(counters := m.counters[f.count.value := GetCount(m, h) - 1])
    else m.(handles := m.handles[h := EMPTY],
            counters := m.counters - {f.count.value}, deletedCounters := m.deletedCounters + [f.count.value],
            objects := m.objects - {f.ptr.value}, deletedObjects := m.deletedObjects + [f.ptr.value])
  }

  /** What is deleted when a handle on x goes and these remain: x, if nobody else holds it. */
  ghost function LetGo(x: Option<nat>, remaining: Handles): seq<nat> {
    if x.Some? && !Owned(remaining, x.value) then [x.value] else []
  }

  lemma OwnedWithout(hs: Handles, h: nat, o: nat)
    requires h in hs
    ensures Owned(hs, o) <==> Owned(hs - {h}, o) || hs[h].ptr == Some(o)
  {
    if k :| k in hs && hs[k].ptr == Some(o) && k != h {
      assert k in hs - {h} && (hs - {h})[k].ptr == Some(o);
    }
  }

  lemma OwnedAfterCopy(rest: Handles, h: nat, other: nat)
    requires h !in rest && other in rest
    ensures forall o :: Owned(rest[h := rest[other]], o) <==> Owned(rest, o)
  {
    var after := rest[h := rest[other]];
    forall o ensures Owned(after, o) <==> Owned(rest, o) {
      OwnedWithout(after, h, o);
      assert after - {h} == rest;
    }
  }

  lemma OwnedAfterMove(rest: Handles, h: nat, other: nat)
    requires h !in rest && other in rest
    ensures forall o :: Owned(rest[h := rest[other]][other := EMPTY], o) <==> Owned(rest, o)
  {
    var after := rest[h := rest[other]][other := EMPTY];
    forall o: nat ensures Owned(after, o) <==> Owned(rest, o) {
      if k :| k in rest && rest[k].ptr == Some(o) {
        var k' := if k == other then h else k;
        assert k' in after && after[k'].ptr == Some(o);
      }
      if k :| k in after && after[k].ptr == Some(o) {
        var k' := if k == h then other else k;
        assert k' in rest && rest[k'].ptr == Some(o);
      }
    }
  }

  /** A handle that is counted with others leaves them the pointee. */
  lemma SharedOwner(hs: Handles, counters: map<nat, nat>, objects: set<nat>, h: nat)
    requires Counted(hs, counters, objects) && h in hs && hs[h].count.Some? && counters[hs[h].count.value] > 1
    ensures Owned(hs - {h}, hs[h].ptr.value)
  {
    var c := hs[h].count.value;
    var rest := Sharers(hs, c) - {h};
    assert |Sharers(hs, c)| > 1 && h in Sharers(hs, c);
    assert |rest| == |Sharers(hs, c)| - 1;
    var k :| k in rest;
    assert k in hs - {h} && (hs - {h})[k].ptr == hs[h].ptr;
  }

  lemma LastGoes(m: Heap, h: nat)
    requires Valid(m) && h in m.handles && m.handles[h].count.Some? && GetCount(m, h) == 1
    ensures Consistent(Released(m, h), m.handles - {h}) && !Owned(m.handles - {h}, m.handles[h].ptr.value)
  {
    var f, r, rest := m.handles[h], Released(m, h), m.handles - {h};
    CountedWithoutLast(m.handles, m.counters, m.objects, h);
    forall k | k in rest ensures rest[k].ptr != f.ptr {
      SoleOwner(m.handles, m.counters, m.objects, h, k);
    }
    forall o ensures o in m.managed <==> Owned(rest, o) || o in r.deletedObjects {
      OwnedWithout(m.handles, h, o);
    }
  }

  /**
   After release the heap is in order for all handles but the released one, and the pointee has been deleted, once,
   exactly if none of them holds it.
   */
  lemma ReleaseForgets(m: Heap, h: nat)
    requires Valid(m) && h in m.handles
    ensures CanRelease(m, h)
    ensures var r := Released(m, h); var rest := m.handles - {h};
            && r.handles - {h} == rest && r.handles.Keys == m.handles.Keys && Consistent(r, rest)
            && (forall k :: k in rest ==> r.handles[k] == m.handles[k])
            && r.deletedObjects == m.deletedObjects + LetGo(m.handles[h].ptr, rest)
  {
    var f, r, rest := m.handles[h], Released(m, h), m.handles - {h};
    assert r.handles - {h} == rest;
    if f.count.None? {
      CountedWithoutNull(m.handles, m.counters, m.objects, h);
      forall o ensures Owned(m.handles, o) <==> Owned(rest, o) { OwnedWithout(m.handles, h, o); }
    } else if GetCount(m, h) > 1 {
      CountedWithout(m.handles, m.counters, m.objects, h);
      SharedOwner(m.handles, m.counters, m.objects, h);
      forall o ensures Owned(m.handles, o) <==> Owned(rest, o) { OwnedWithout(m.handles, h, o); }
    } else {
      LastGoes(m, h);
    }
  }

  // ----- a handle that holds nothing yet takes something

  lemma TakeNull(m: Heap, rest: Handles, h: nat)
    requires Consistent(m, rest) && h !in rest
    ensures Valid(m.(handles := rest[h := EMPTY]))
  {
    CountedWithNull(rest, m.counters, m.objects, h);
    forall o ensures Owned(rest[h := EMPTY], o) <==> Owned(rest, o) {
      OwnedWithout(rest[h := EMPTY], h, o);
      assert rest[h := EMPTY] - {h} == rest;
    }
  }

  /** The counters after one more handle with these fields. */
  function Incremented(counters: map<nat, nat>, f: Fields): map<nat, nat> {
    if f.count.Some? && f.count.value in counters
    then counters[f.count.value := counters[f.count.value] + 1]
    else counters
  }

  function Copied(m: Heap, rest: Handles, h: nat, s: nat): Heap
    requires s in rest
  {
    m.(handles := rest[h := rest[s]], counters := Incremented(m.counters, rest[s]))
  }

  function Moved(m: Heap, rest: Handles, h: nat, s: nat): Heap
    requires s in rest
  {
    m.(handles := rest[h := rest[s]][s := EMPTY])
  }

  lemma TakeCopy(m: Heap, rest: Handles, h: nat, s: nat)
    requires Consistent(m, rest) && h !in rest && s in rest
    ensures Valid(Copied(m, rest, h, s))
    ensures forall o :: Owned(Copied(m, rest, h, s).handles, o) <==> Owned(rest, o)
  {
    if rest[s].count.Some? {
      CountedWithCopy(rest, m.counters, m.objects, h, s);
    } else {
      assert rest[s] == EMPTY;
      CountedWithNull(rest, m.counters, m.objects, h);
    }
    OwnedAfterCopy(rest, h, s);
  }

  lemma TakeMove(m: Heap, rest: Handles, h: nat, s: nat)
    requires Consistent(m, rest) && h !in rest && s in rest
    ensures Valid(Moved(m, rest, h, s))
    ensures forall o :: Owned(Moved(m, rest, h, s).handles, o) <==> Owned(rest, o)
  {
    var after := rest[h := rest[s]][s := EMPTY];
    CountedWithMove(rest, m.counters, m.objects, h, s);
    OwnedAfterMove(rest, h, s);
  }

  /** new T */
  function Allocated(m: Heap): Heap {
    m.(objects := m.objects + {m.next}, next := m.next + 1)
  }

  /** A first handle on o, with a new counter. */
  function Counting(m: Heap, h: nat, o: nat): Heap {
    m.(handles := m.handles[h := Fields(Some(o), Some(m.next))], counters := m.counters[m.next := 1],
       next := m.next + 1, managed := m.managed + {o})
  }

  lemma TakeFirst(m: Heap, h: nat, o: nat)
    requires Valid(m) && h !in m.handles && o in m.objects && !Owned(m.handles, o)
    ensures Valid(Counting(m, h, o))
  {
    var f, rest := Fields(Some(o), Some(m.next)), m.handles;
    CountedWithFirst(rest, m.counters, m.objects, h, o, m.next);
    forall x ensures Owned(rest[h := f], x) <==> Owned(rest, x) || x == o {
      OwnedWithout(rest[h := f], h, x);
      assert rest[h := f] - {h} == rest;
    }
  }

  // ----- programs over handles

  datatype Op =
    | OpNew(handle: nat)                     // make_shared
    | OpNull(handle: nat)
    | OpCopy(handle: nat, other: nat)
    | OpMove(handle: nat, other: nat)
    | OpDestroy(handle: nat)
    | OpCopyAssign(handle: nat, other: nat)
    | OpMoveAssign(handle: nat, other: nat)
    | OpReset(handle: nat)

  /**
   An operation a program can perform here: the handles exist, or do not yet, and nobody else shares what is reset.
   */
  predicate Possible(m: Heap, op: Op) {
    match op
    case OpNew(h) => h !in m.handles
    case OpNull(h) => h !in m.handles
    case OpCopy(h, k) => h !in m.handles && k in m.handles
    case OpMove(h, k) => h !in m.handles && k in m.handles
    case OpDestroy(h) => CanRelease(m, h)
    case OpCopyAssign(h, k) => CanRelease(m, h) && k in m.handles
    case OpMoveAssign(h, k) => CanRelease(m, h) && k in m.handles
    case OpReset(h) => CanRelease(m, h) && GetCount(m, h) <= 1
  }

  /** In a heap in order, having the handles is all it takes, save for reset. */
  lemma PossibleIff(m: Heap, h: nat, k: nat)
    requires Valid(m)
    ensures Possible(m, OpDestroy(h)) <==> h in m.handles
    ensures Possible(m, OpCopyAssign(h, k)) <==> h in m.handles && k in m.handles
    ensures Possible(m, OpMoveAssign(h, k)) <==> h in m.handles && k in m.handles
    ensures Possible(m, OpReset(h)) <==> h in m.handles && GetCount(m, h) <= 1
  {
    if h in m.handles {
      ReleaseForgets(m, h);
    }
  }

  /** What an operation does to the heap. */
  function Apply(m: Heap, op: Op): Heap
    requires Possible(m, op)
  {
    match op
    case OpNew(h) => Counting(Allocated(m), h, m.next)
    case OpNull(h) => m.(handles := m.handles[h := EMPTY])
    case OpCopy(h, k) => Copied(m, m.handles, h, k)
    case OpMove(h, k) => Moved(m, m.handles, h, k)
    case OpDestroy(h) => var r := Released(m, h); r.(handles := r.handles - {h})
    case OpCopyAssign(h, k) => if h == k then m else var r := Released(m, h); Copied(r, r.handles, h, k)
    case OpMoveAssign(h, k) => if h == k then m else var r := Released(m, h); Moved(r, r.handles, h, k)
    case OpReset(h) => Released(m, h)
  }

  /** Ownership without counters: who holds what, what has been made, and what has been deleted. */
  datatype Ledger = Ledger(held: map<nat, Option<nat>>, next: nat, made: set<nat>, deleted: seq<nat>)

  function LedgerOf(m: Heap): Ledger {
    Ledger(View(m.handles), m.next, m.managed, m.deletedObjects)
  }

  ghost predicate Held(held: map<nat, Option<nat>>, o: nat) {
    exists h :: h in held && held[h] == Some(o)
  }

  /** When the holdings change and x is given up, x is deleted exactly if nobody holds it any more. */
  ghost function GiveUp(l: Ledger, x: Option<nat>, held: map<nat, Option<nat>>): Ledger {
    l.(held := held, deleted := l.deleted + if x.Some? && !Held(held, x.value) then [x.value] else [])
  }

  /** What an operation means to its user. */
  ghost function Meaning(l: Ledger, op: Op): Ledger {
    match op
    case OpNew(h) => l.(held := l.held[h := Some(l.next)], next := l.next + 2, made := l.made + {l.next})
    case OpNull(h) => l.(held := l.held[h := None])
    case OpCopy(h, k) => if k in l.held then l.(held := l.held[h := l.held[k]]) else l
    case OpMove(h, k) => if k in l.held then l.(held := l.held[h := l.held[k]][k := None]) else l
    case OpDestroy(h) => if h in l.held then GiveUp(l, l.held[h], l.held - {h}) else l
    case OpCopyAssign(h, k) => if h in l.held && k in l.held then GiveUp(l, l.held[h], l.held[h := l.held[k]]) else l
    case OpMoveAssign(h, k) =>
      if h in l.held && k in l.held && h != k then GiveUp(l, l.held[h], l.held[h := l.held[k]][k := None]) else l
    case OpReset(h) => if h in l.held then GiveUp(l, l.held[h], l.held[h := None]) else l
  }

  lemma HeldIffOwned(hs: Handles)
    ensures forall o: nat :: Held(View(hs), o) <==> Owned(hs, o)
  {
    forall o: nat ensures Held(View(hs), o) <==> Owned(hs, o) {
      if h :| h in hs && hs[h].ptr == Some(o) {
        assert h in View(hs) && View(hs)[h] == Some(o);
      }
    }
  }

  // ----- what the protocol of handles promises

  /** When no handle is left, no counter is, and everything ever managed has been deleted, once. */
  lemma NothingLeaks(m: Heap)
    requires Valid(m) && m.handles == map[]
    ensures m.counters == map[] && Distinct(m.deletedObjects)
    ensures forall o :: o in m.managed <==> o in m.deletedObjects
  {
    assert forall c :: c in m.counters ==> Sharers(m.handles, c) == {};
  }

  lemma ClearedHandle(m: Heap, h: nat)
    requires Valid(m) && h in m.handles && GetCount(m, h) <= 1 && CanRelease(m, h)
    ensures Released(m, h).handles == (m.handles - {h})[h := EMPTY]
  {
  }

  lemma ResetAlone(m: Heap, h: nat)
    requires Valid(m) && h in m.handles && GetCount(m, h) <= 1 && CanRelease(m, h)
    requires Consistent(Released(m, h), m.handles - {h})
    ensures Valid(Released(m, h))
  {
    hide Consistent;
    var r, rest := Released(m, h), m.handles - {h};
    TakeNull(r, rest, h);
    ClearedHandle(m, h);
    assert r == r.(handles := rest[h := EMPTY]);
  }

  /**
   reset() is release() without a destructor or an assignment to follow. It is safe exactly for a handle that is
   alone.
   */
  lemma ResetIff(m: Heap, h: nat)
    requires Valid(m) && h in m.handles
    ensures CanRelease(m, h)
    ensures Valid(Released(m, h)) <==> GetCount(m, h) <= 1
  {
    ReleaseForgets(m, h);
    if GetCount(m, h) <= 1 {
      ResetAlone(m, h);
    } else {
      var c := m.handles[h].count.value;
      assert Released(m, h).counters[c] != |Sharers(Released(m, h).handles, c)|;
    }
  }

  /** With two sharers, a reset handle takes the pointee away from the other one when it is destroyed. */
  lemma ResetThenDestroyDangles(m: Heap, h: nat, k: nat)
    requires Valid(m) && h in m.handles && k in m.handles && h != k
    requires m.handles[h].count.Some? && m.handles[h] == m.handles[k] && GetCount(m, h) == 2
    ensures CanRelease(m, h) && CanRelease(Released(m, h), h)
    ensures var d := Released(Released(m, h), h);
            && d.handles[k] == m.handles[k]
            && d.handles[k].ptr.value !in d.objects && d.handles[k].count.value !in d.counters
  {
    ReleaseForgets(m, h);
  }

  /** Whatever release has left in the handle, assigning to it overwrites. */
  lemma AssignedView(before: Handles, released: Handles, h: nat, f: Fields)
    requires h in before && released.Keys == before.Keys
    requires forall k :: k in before - {h} ==> released[k] == before[k]
    ensures released[h := f] == (before - {h})[h := f] == before[h := f]
    ensures View(released[h := f]) == View(before)[h := f.ptr]
  {
    assert forall k :: k in before && k != h ==> k in before - {h};
    ViewSet(before, h, f);
  }

  /** Assigning to a handle that has been released. */
  lemma AssignCopies(m: Heap, r: Heap, h: nat, other: nat)
    requires h in m.handles && other in m.handles && h != other && r.handles.Keys == m.handles.Keys
    requires Consistent(r, m.handles - {h}) && forall k :: k in m.handles - {h} ==> r.handles[k] == m.handles[k]
    ensures var f := r.handles[other];
            && (f.count.Some? ==> f.count.value in r.counters)
            && Valid(r.(handles := r.handles[h := f], counters := Incremented(r.counters, f)))
            && View(r.handles[h := f]) == View(m.handles)[h := View(m.handles)[other]]
            && LetGo(m.handles[h].ptr, r.handles[h := f]) == LetGo(m.handles[h].ptr, m.handles - {h})
  {
    var rest: Handles := m.handles - {h};
    assert other in rest;
    TakeCopy(r, rest, h, other);
    AssignedView(m.handles, r.handles, h, m.handles[other]);
  }

  // ----- counting refines ownership

  lemma AllocatedValid(m: Heap)
    requires Valid(m)
    ensures Valid(Allocated(m)) && !Owned(m.handles, m.next)
  {
  }

  lemma NewRefines(m: Heap, h: nat)
    requires Valid(m) && h !in m.handles
    ensures Valid(Apply(m, OpNew(h))) && LedgerOf(Apply(m, OpNew(h))) == Meaning(LedgerOf(m), OpNew(h))
  {
    AllocatedValid(m);
    TakeFirst(Allocated(m), h, m.next);
    ViewSet(m.handles, h, Fields(Some(m.next), Some(m.next + 1)));
  }

  /** Where nothing is released. */
  lemma TakingRefines(m: Heap, op: Op)
    requires Valid(m) && Possible(m, op) && (op.OpNull? || op.OpCopy? || op.OpMove?)
    ensures Valid(Apply(m, op)) && LedgerOf(Apply(m, op)) == Meaning(LedgerOf(m), op)
  {
    hide Consistent, View;
    match op
    case OpNull(h) =>
      TakeNull(m, m.handles, h);
      ViewSet(m.handles, h, EMPTY);
    case OpCopy(h, k) =>
      TakeCopy(m, m.handles, h, k);
      ViewSet(m.handles, h, m.handles[k]);
      ViewAt(m.handles, k);
    case OpMove(h, k) =>
      TakeMove(m, m.handles, h, k);
      ViewSet(m.handles, h, m.handles[k]);
      ViewSet(m.handles[h := m.handles[k]], k, EMPTY);
      ViewAt(m.handles, k);
  }

  lemma DestroyRefines(m: Heap, h: nat)
    requires Valid(m) && h in m.handles
    ensures Possible(m, OpDestroy(h))
    ensures var a := Apply(m, OpDestroy(h));
            Valid(a) && LedgerOf(a) == Meaning(LedgerOf(m), OpDestroy(h)) && a.handles == m.handles - {h}
  {
    ReleaseForgets(m, h);
    ViewDrop(m.handles, h);
    HeldIffOwned(m.handles - {h});
  }

  lemma OwnedAfterReset(hs: Handles, h: nat)
    requires h in hs
    ensures (hs - {h})[h := EMPTY] == hs[h := EMPTY]
    ensures forall o: nat :: Owned(hs[h := EMPTY], o) <==> Owned(hs - {h}, o)
  {
    forall o: nat ensures Owned(hs[h := EMPTY], o) <==> Owned(hs - {h}, o) {
      OwnedWithout(hs[h := EMPTY], h, o);
      assert hs[h := EMPTY] - {h} == hs - {h};
    }
  }

  lemma ResetRefines(m: Heap, h: nat)
    requires Valid(m) && h in m.handles && GetCount(m, h) <= 1
    ensures Possible(m, OpReset(h))
    ensures var a := Apply(m, OpReset(h)); Valid(a) && LedgerOf(a) == Meaning(LedgerOf(m), OpReset(h))
  {
    ReleaseForgets(m, h);
    ResetIff(m, h);
    hide Consistent;
    ClearedHandle(m, h);
    OwnedAfterReset(m.handles, h);
    hide Released;
    ViewSet(m.handles, h, EMPTY);
    HeldIffOwned(m.handles[h := EMPTY]);
  }

  lemma SelfAssignRefines(m: Heap, op: Op)
    requires Valid(m) && op.handle in m.handles
    requires (op == OpCopyAssign(op.handle, op.handle) || op == OpMoveAssign(op.handle, op.handle))
    ensures LedgerOf(m) == Meaning(LedgerOf(m), op)
  {
    HeldIffOwned(m.handles);
    ViewSet(m.handles, op.handle, m.handles[op.handle]);
    assert m.handles[op.handle := m.handles[op.handle]] == m.handles;
    assert m.handles[op.handle].ptr.Some? ==> Owned(m.handles, m.handles[op.handle].ptr.value);
  }

  lemma CopyAssignRefines(m: Heap, h: nat, k: nat)
    requires Valid(m) && h in m.handles && k in m.handles && h != k && CanRelease(m, h)
    ensures var a := Apply(m, OpCopyAssign(h, k)); Valid(a) && LedgerOf(a) == Meaning(LedgerOf(m), OpCopyAssign(h, k))
  {
    var r, rest: Handles := Released(m, h), m.handles - {h};
    ReleaseForgets(m, h);
    hide Consistent, Released;
    AssignedView(m.handles, r.handles, h, m.handles[k]);
    TakeCopy(r, rest, h, k);
    HeldIffOwned(r.handles[h := r.handles[k]]);
  }

  lemma MoveAssignRefines(m: Heap, h: nat, k: nat)
    requires Valid(m) && h in m.handles && k in m.handles && h != k && CanRelease(m, h)
    ensures var a := Apply(m, OpMoveAssign(h, k)); Valid(a) && LedgerOf(a) == Meaning(LedgerOf(m), OpMoveAssign(h, k))
  {
    var r, rest: Handles := Released(m, h), m.handles - {h};
    ReleaseForgets(m, h);
    hide Consistent, Released;
    AssignedView(m.handles, r.handles, h, m.handles[k]);
    TakeMove(r, rest, h, k);
    ViewSet(r.handles[h := m.handles[k]], k, EMPTY);
    HeldIffOwned(r.handles[h := r.handles[k]][k := EMPTY]);
  }

  lemma AssignRefines(m: Heap, op: Op)
    requires Valid(m) && Possible(m, op) && (op.OpCopyAssign? || op.OpMoveAssign?)
    ensures Valid(Apply(m, op)) && LedgerOf(Apply(m, op)) == Meaning(LedgerOf(m), op)
  {
    hide Valid, Meaning, Released;
    if op.handle == op.other {
      SelfAssignRefines(m, op);
    } else if op.OpCopyAssign? {
      CopyAssignRefines(m, op.handle, op.other);
    } else {
      MoveAssignRefines(m, op.handle, op.other);
    }
  }

  /** Counting keeps the heap in order and does to it what the operation means. */
  lemma ApplyRefines(m: Heap, op: Op)
    requires Valid(m) && Possible(m, op)
    ensures Valid(Apply(m, op)) && LedgerOf(Apply(m, op)) == Meaning(LedgerOf(m), op)
  {
    hide Valid, Apply, Meaning;
    match op
    case OpNew(h) => NewRefines(m, h);
    case OpDestroy(h) => DestroyRefines(m, h);
    case OpReset(h) => ResetRefines(m, h);
    case OpCopyAssign(_, _) => AssignRefines(m, op);
    case OpMoveAssign(_, _) => AssignRefines(m, op);
    case _ => TakingRefines(m, op);
  }

  /** The heap after a program, as far as it can be performed. */
  function Outcome(m: Heap, program: seq<Op>): Heap {
    if program == [] then m
    else
      var n := |program| - 1;
      var before := Outcome(m, program[..n]);
      if Possible(before, program[n]) then Apply(before, program[n]) else before
  }

  predicate IsProgram(m: Heap, program: seq<Op>) {
    program == [] ||
    var n := |program| - 1;
    IsProgram(m, program[..n]) && Possible(Outcome(m, program[..n]), program[n])
  }

  ghost function MeaningOf(l: Ledger, program: seq<Op>): Ledger {
    if program == [] then l else Meaning(MeaningOf(l, program[..|program| - 1]), program[|program| - 1])
  }

  /** Whatever it shares, moves and assigns, a program deletes just when ownership ends. */
  lemma {:induction false} ProgramRefines(m: Heap, program: seq<Op>)
    requires Valid(m) && IsProgram(m, program)
    ensures Valid(Outcome(m, program)) && LedgerOf(Outcome(m, program)) == MeaningOf(LedgerOf(m), program)
  {
    hide Valid, Apply, Meaning, Possible;
    if program != [] {
      var n := |program| - 1;
      ProgramRefines(m, program[..n]);
      ApplyRefines(Outcome(m, program[..n]), program[n]);
    }
  }

  const NEW_HEAP := Heap(map[], map[], {}, 0, [], [], {})

  lemma {:induction false} EveryObjectManaged(program: seq<Op>)
    requires IsProgram(NEW_HEAP, program)
    ensures Outcome(NEW_HEAP, program).objects <= Outcome(NEW_HEAP, program).managed
  {
    if program != [] {
      EveryObjectManaged(program[..|program| - 1]);
    }
  }

  /** A program that has let go of all its handles has deleted everything it has made, once, and all counters. */
  lemma ProgramLeaksNothing(program: seq<Op>)
    requires IsProgram(NEW_HEAP, program) && Outcome(NEW_HEAP, program).handles == map[]
    ensures var e := Outcome(NEW_HEAP, program);
            && e.counters == map[] && e.objects == {} && Distinct(e.deletedObjects) && Distinct(e.deletedCounters)
            && forall o :: o in e.managed <==> o in e.deletedObjects
  {
    assert Valid(NEW_HEAP);
    ProgramRefines(NEW_HEAP, program);
    NothingLeaks(Outcome(NEW_HEAP, program));
    EveryObjectManaged(program);
  }

  // ----- the operations, in place

  class Memory {
    var handles: Handles
    var counters: map<nat, nat>
    var objects: set<nat>
    var next: nat
    var deletedObjects: seq<nat>
    var deletedCounters: seq<nat>
    var managed: set<nat>

    function Now(): Heap
      reads this
    {
      Heap(handles, counters, objects, next, deletedObjects, deletedCounters, managed)
    }

    function Holdings(): map<nat, Option<nat>>
      reads this
    {
      View(handles)
    }

    constructor ()
      ensures Valid(Now()) && Now() == NEW_HEAP
    {
      handles, counters, objects, next := map[], map[], {}, 0;
      deletedObjects, deletedCounters, managed := [], [], {};
    }

    /** new T */
    method NewObject() returns (o: nat)
      requires Valid(Now())
      modifies this`objects, this`next
      ensures Valid(Now()) && o !in old(objects) && objects == old(objects) + {o} && !Owned(handles, o)
      ensures Now() == Allocated(old(Now())) && o == old(next)
    {
      AllocatedValid(Now());
      o := next;
      objects, next := objects + {o}, next + 1;
    }

    /** The private release. */
    method Release(h: nat)
      requires CanRelease(Now(), h)
      modifies this
      ensures Now() == Released(old(Now()), h)
    {
      var f := handles[h];
      if f.count.Some? {
        counters := counters[f.count.value := counters[f.count.value] - 1];
        if counters[f.count.value] == 0 {
          objects, deletedObjects := objects - {f.ptr.value}, deletedObjects + [f.ptr.value];
          counters, deletedCounters := counters - {f.count.value}, deletedCounters + [f.count.value];
          handles := handles[h := EMPTY];
        }
      }
    }

    /** The constructor from a raw pointer that no handle holds. */
    method Construct(h: nat, p: Option<nat>)
      requires Valid(Now()) && h !in handles
      requires p.Some? ==> p.value in objects && !Owned(handles, p.value)
      modifies this
      ensures Valid(Now()) && Holdings() == old(Holdings())[h := p]
      ensures GetCount(Now(), h) == if p.Some? then 1 else 0
      ensures deletedObjects == old(deletedObjects) && objects == old(objects)
      ensures managed == old(managed) + if p.Some? then {p.value} else {}
      ensures Now() == if p.Some? then Counting(old(Now()), h, p.value) else Apply(old(Now()), OpNull(h))
    {
      ghost var m := Now();
      if p.Some? {
        TakeFirst(m, h, p.value);
        ViewSet(handles, h, Fields(p, Some(next)));
        counters, handles := counters[next := 1], handles[h := Fields(p, Some(next))];
        next, managed := next + 1, managed + {p.value};
      } else {
        TakeNull(m, handles, h);
        ViewSet(handles, h, EMPTY);
        handles := handles[h := EMPTY];
      }
    }

    /** The tail that copy construction and copy assignment share: take over the fields, count the new holder. */
    method Adopt(h: nat, other: nat)
      requires other in handles && (handles[other].count.Some? ==> handles[other].count.value in counters)
      modifies this
      ensures Now() == Copied(old(Now()), old(handles), h, other)
    {
      handles := handles[h := handles[other]];
      if handles[h].count.Some? {
        counters := counters[handles[h].count.value := counters[handles[h].count.value] + 1];
      }
    }

    method CopyConstruct(h: nat, other: nat)
      requires Valid(Now()) && h !in handles && other in handles
      modifies this
      ensures Valid(Now()) && Holdings() == old(Holdings())[h := old(Holdings())[other]]
      ensures deletedObjects == old(deletedObjects) && objects == old(objects) && managed == old(managed)
      ensures old(Possible(Now(), OpCopy(h, other))) && Now() == Apply(old(Now()), OpCopy(h, other))
    {
      TakeCopy(Now(), handles, h, other);
      ViewSet(handles, h, handles[other]);
      Adopt(h, other);
    }

    method MoveConstruct(h: nat, other: nat)
      requires Valid(Now()) && h !in handles && other in handles
      modifies this
      ensures Valid(Now()) && Holdings() == old(Holdings())[h := old(Holdings())[other]][other := None]
      ensures deletedObjects == old(deletedObjects) && objects == old(objects) && managed == old(managed)
      ensures old(Possible(Now(), OpMove(h, other))) && Now() == Apply(old(Now()), OpMove(h, other))
    {
      ghost var goal := Moved(Now(), handles, h, other);
      TakeMove(Now(), handles, h, other);
      ViewSet(handles, h, handles[other]);
      ViewSet(handles[h := handles[other]], other, EMPTY);
      handles := handles[h := handles[other]];
      handles := handles[other := EMPTY];
      assert Now() == goal;
    }

    method Destroy(h: nat)
      requires Valid(Now()) && h in handles
      modifies this
      ensures Valid(Now()) && Holdings() == old(Holdings()) - {h}
      ensures deletedObjects == old(deletedObjects) + LetGo(old(handles[h].ptr), handles)
      ensures managed == old(managed)
      ensures old(Possible(Now(), OpDestroy(h))) && Now() == Apply(old(Now()), OpDestroy(h))
    {
      ViewDrop(handles, h);
      ReleaseForgets(Now(), h);
      Release(h);
      handles := handles - {h};
    }

    /** Also right when both handles hold the same pointee, and when they are the same handle. */
    method CopyAssign(h: nat, other: nat)
      requires Valid(Now()) && h in handles && other in handles
      modifies this
      ensures Valid(Now()) && Holdings() == old(Holdings())[h := old(Holdings())[other]]
      ensures deletedObjects == old(deletedObjects) + LetGo(old(handles[h].ptr), handles)
      ensures managed == old(managed)
      ensures old(Possible(Now(), OpCopyAssign(h, other))) && Now() == Apply(old(Now()), OpCopyAssign(h, other))
    {
      if h == other {
        return;
      }
      ghost var m := Now();
      ReleaseForgets(m, h);
      Release(h);
      ghost var r := Now();
      AssignCopies(m, r, h, other);
      Adopt(h, other);
    }

    method MoveAssign(h: nat, other: nat)
      requires Valid(Now()) && h in handles && other in handles
      modifies this
      ensures Valid(Now())
      ensures h == other ==> Holdings() == old(Holdings())
      ensures h != other ==> Holdings() == old(Holdings())[h := old(Holdings())[other]][other := None]
      ensures deletedObjects == old(deletedObjects) + LetGo(old(handles[h].ptr), handles)
      ensures managed == old(managed)
      ensures old(Possible(Now(), OpMoveAssign(h, other))) && Now() == Apply(old(Now()), OpMoveAssign(h, other))
    {
      if h == other {
        return;
      }
      ghost var rest: Handles := handles - {h};
      ReleaseForgets(Now(), h);
      Release(h);
      ghost var goal := Moved(Now(), rest, h, other);
      TakeMove(Now(), rest, h, other);
      AssignedView(old(handles), handles, h, handles[other]);
      ViewSet(handles[h := handles[other]], other, EMPTY);
      handles := handles[h := handles[other]];
      handles := handles[other := EMPTY];
      assert Now() == goal;
    }

    /** In order afterwards exactly if the handle was alone or empty. */
    method Reset(h: nat)
      requires Valid(Now()) && h in handles
      modifies this
      ensures Valid(Now()) <==> old(GetCount(Now(), h)) <= 1
      ensures old(GetCount(Now(), h)) <= 1 ==> Holdings() == old(Holdings())[h := None]
      ensures old(GetCount(Now(), h)) > 1 ==>
                handles == old(handles) && GetCount(Now(), h) == old(GetCount(Now(), h)) - 1
      ensures managed == old(managed) && old(deletedObjects) <= deletedObjects
      ensures old(CanRelease(Now(), h)) && Now() == Released(old(Now()), h)
    {
      ResetIff(Now(), h);
      ViewSet(handles, h, EMPTY);
      Release(h);
    }
  }

  /** One operation in place. */
  method Perform(memory: Memory, op: Op)
    requires Valid(memory.Now()) && Possible(memory.Now(), op)
    modifies memory
    ensures Valid(memory.Now()) && memory.Now() == Apply(old(memory.Now()), op)
  {
    match op {
      case OpNew(h) =>
        var o := memory.NewObject();
        memory.Construct(h, Some(o));
      case OpNull(h) => memory.Construct(h, None);
      case OpCopy(h, k) => memory.CopyConstruct(h, k);
      case OpMove(h, k) => memory.MoveConstruct(h, k);
      case OpDestroy(h) => memory.Destroy(h);
      case OpCopyAssign(h, k) => memory.CopyAssign(h, k);
      case OpMoveAssign(h, k) => memory.MoveAssign(h, k);
      case OpReset(h) => memory.Reset(h);
    }
  }

  /** Performs a program up to its end or its first impossible operation; what it does is what the program means. */
  method Run(memory: Memory, program: seq<Op>) returns (performed: nat)
    requires Valid(memory.Now())
    modifies memory
    ensures performed <= |program| && IsProgram(old(memory.Now()), program[..performed])
    ensures memory.Now() == Outcome(old(memory.Now()), program[..performed])
    ensures performed < |program| ==> !Possible(memory.Now(), program[performed])
    ensures Valid(memory.Now())
    ensures LedgerOf(memory.Now()) == MeaningOf(LedgerOf(old(memory.Now())), program[..performed])
  {
    hide Consistent, Apply, Meaning, MeaningOf;
    performed := 0;
    ghost var m := memory.Now();
    while performed < |program| && Possible(memory.Now(), program[performed])
      invariant Valid(memory.Now()) && performed <= |program|
      invariant IsProgram(m, program[..performed]) && memory.Now() == Outcome(m, program[..performed])
      decreases |program| - performed
    {
      ghost var more := program[..performed + 1];
      assert more[..performed] == program[..performed];
      Perform(memory, program[performed]);
      performed := performed + 1;
    }
    ProgramRefines(m, program[..performed]);
  }
}

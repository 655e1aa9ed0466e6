/**
 Shared pointers inside pointees: deleting a pointee destroys the handles that live in it, which may delete further
 pointees. The counters alone decide what is deleted; without cycles this is exactly what no path of handles from the
 stack leads to any more.
 */
module Ownership {
  import opened Sets
  import opened Wrappers

  /** Where a handle lives, None being the stack, and what it holds. */
  datatype Handle = Handle(home: Option<nat>, ptr: Option<nat>)

  type Handles = map<nat, Handle>

  function Holders(hs: Handles, o: nat): set<nat> {
    set h | h in hs && hs[h].ptr == Some(o)
  }

  function Members(hs: Handles, o: nat): set<nat> {
    set h | h in hs && hs[h].home == Some(o)
  }

  function Emptied(hs: Handles, h: nat): Handles
    requires h in hs
  {
    hs[h := hs[h].(ptr := None)]
  }

  /** Every handle holds what is alive and each count is exact. Only doomed handles live in what is being deleted. */
  ghost predicate Consistent(hs: Handles, counts: map<nat, nat>, doomed: set<nat>) {
    && doomed <= hs.Keys
    && (forall h :: h in hs && hs[h].ptr.Some? ==> hs[h].ptr.value in counts)
    && (forall h :: h in hs && hs[h].home.Some? ==> (hs[h].home.value in counts <==> h !in doomed))
    && (forall o :: o in counts ==> counts[o] == |Holders(hs, o)| > 0)
  }

  /** Nothing holds, even indirectly, what it lives in: pointees lie deeper than the handles on them. */
  ghost predicate Ranked(hs: Handles, depth: nat -> nat) {
    forall h :: h in hs && hs[h].home.Some? && hs[h].ptr.Some? ==> depth(hs[h].home.value) < depth(hs[h].ptr.value)
  }

  // ----- reachability

  /** A path of handles from the stack to b, each in the pointee of the one before. */
  predicate Path(hs: Handles, path: seq<nat>, b: nat)
    decreases |path|
  {
    && path != []
    && var k := path[|path| - 1];
       && k in hs && hs[k].ptr == Some(b)
       && if |path| == 1 then hs[k].home.None? else hs[k].home.Some? && Path(hs, path[..|path| - 1], hs[k].home.value)
  }

  ghost predicate Reachable(hs: Handles, b: nat) {
    exists path :: Path(hs, path, b)
  }

  lemma ReachedBy(hs: Handles, k: nat, b: nat)
    requires k in hs && hs[k].ptr == Some(b) && (hs[k].home.Some? ==> Reachable(hs, hs[k].home.value))
    ensures Reachable(hs, b)
  {
    var before: seq<nat> := [];
    if hs[k].home.Some? {
      before :| Path(hs, before, hs[k].home.value);
    }
    assert (before + [k])[..|before|] == before;
    assert Path(hs, before + [k], b);
  }

  lemma {:induction false} PathIsAlive(hs: Handles, counts: map<nat, nat>, path: seq<nat>, b: nat)
    requires Consistent(hs, counts, {}) && Path(hs, path, b)
    ensures b in counts
  {
  }

  lemma {:induction false} AliveIsReachable(hs: Handles, counts: map<nat, nat>, depth: nat -> nat, b: nat)
    requires Consistent(hs, counts, {}) && Ranked(hs, depth) && b in counts
    ensures Reachable(hs, b)
    decreases depth(b)
  {
    var k := SomeElement(Holders(hs, b));
    if hs[k].home.Some? {
      AliveIsReachable(hs, counts, depth, hs[k].home.value);
    }
    ReachedBy(hs, k, b);
  }

  /** Without cycles, counting is as good as tracing. */
  lemma AliveIffReachable(hs: Handles, counts: map<nat, nat>, depth: nat -> nat, b: nat)
    requires Consistent(hs, counts, {}) && Ranked(hs, depth)
    ensures b in counts <==> Reachable(hs, b)
  {
    if b in counts {
      AliveIsReachable(hs, counts, depth, b);
    }
    if path :| Path(hs, path, b) {
      PathIsAlive(hs, counts, path, b);
    }
  }

  /** Just the handles are gone that lived in pointees that are gone. */
  ghost predicate HandlesShrunk(hs: Handles, counts: map<nat, nat>, hs': Handles, counts': map<nat, nat>) {
    && hs'.Keys <= hs.Keys
    && (forall k :: k in hs' ==> hs'[k] == hs[k])
    && (forall k :: k in hs && k !in hs' ==>
          hs[k].home.Some? && hs[k].home.value in counts && hs[k].home.value !in counts')
  }

  /** Some pointees are gone, all at least this deep. */
  ghost predicate CountsShrunk(counts: map<nat, nat>, counts': map<nat, nat>, depth: nat -> nat, least: nat) {
    && counts'.Keys <= counts.Keys
    && forall b :: b in counts && b !in counts' ==> depth(b) >= least
  }

  /** What has become of the memory. */
  ghost predicate Shrunk(hs: Handles, counts: map<nat, nat>, hs': Handles, counts': map<nat, nat>,
                         depth: nat -> nat, least: nat)
  {
    HandlesShrunk(hs, counts, hs', counts') && CountsShrunk(counts, counts', depth, least)
  }

  lemma {:induction false} PathSurvives(hs: Handles, counts: map<nat, nat>, hs': Handles, counts': map<nat, nat>,
                                        depth: nat -> nat, least: nat, path: seq<nat>, b: nat)
    requires Shrunk(hs, counts, hs', counts', depth, least) && Consistent(hs', counts', {})
    requires Path(hs, path, b)
    ensures Path(hs', path, b) && b in counts'
    decreases |path|
  {
    if |path| > 1 {
      PathSurvives(hs, counts, hs', counts', depth, least, path[..|path| - 1], hs[path[|path| - 1]].home.value);
    }
  }

  lemma {:induction false} PathWasThere(hs: Handles, hs': Handles, path: seq<nat>, b: nat)
    requires hs'.Keys <= hs.Keys && (forall k :: k in hs' ==> hs'[k] == hs[k]) && Path(hs', path, b)
    ensures Path(hs, path, b)
    decreases |path|
  {
    if |path| > 1 {
      PathWasThere(hs, hs', path[..|path| - 1], hs'[path[|path| - 1]].home.value);
    }
  }

  /** What has been deleted is what cannot be reached, and the handles that are gone are those that lived in it. */
  lemma DeletedIffUnreachable(hs: Handles, counts: map<nat, nat>, hs': Handles, counts': map<nat, nat>,
                              depth: nat -> nat, least: nat)
    requires Shrunk(hs, counts, hs', counts', depth, least) && Consistent(hs', counts', {}) && Ranked(hs, depth)
    ensures forall b :: b in counts' <==> Reachable(hs, b)
    ensures forall k :: k in hs && (hs[k].home.Some? ==> hs[k].home.value in counts) ==>
              (k in hs' <==> hs[k].home.None? || Reachable(hs, hs[k].home.value))
  {
    forall b ensures b in counts' <==> Reachable(hs, b) {
      AliveIffReachable(hs', counts', depth, b);
      if path :| Path(hs', path, b) {
        PathWasThere(hs, hs', path, b);
      }
      if path :| Path(hs, path, b) {
        PathSurvives(hs, counts, hs', counts', depth, least, path, b);
      }
    }
  }

  // ----- what single steps keep

  lemma OneHolderFewer(hs: Handles, h: nat)
    requires h in hs
    ensures forall o: nat :: |Holders(Emptied(hs, h), o)| ==
              |Holders(hs, o)| - (if hs[h].ptr == Some(o) then 1 else 0)
  {
    forall o: nat ensures |Holders(Emptied(hs, h), o)| == |Holders(hs, o)| - (if hs[h].ptr == Some(o) then 1 else 0) {
      assert Holders(Emptied(hs, h), o) == Holders(hs, o) - {h};
    }
  }

  lemma DropEmpty(hs: Handles, counts: map<nat, nat>, doomed: set<nat>, h: nat)
    requires Consistent(hs, counts, doomed) && h in hs && hs[h].ptr.None?
    ensures Consistent(hs - {h}, counts, doomed - {h})
  {
    forall o ensures Holders(hs - {h}, o) == Holders(hs, o) {
    }
  }

  lemma HeldByNobody(hs: Handles, o: nat)
    requires |Holders(hs, o)| == 0
    ensures (forall k :: k in hs ==> hs[k].ptr != Some(o)) && !Reachable(hs, o)
  {
    forall k | k in hs ensures hs[k].ptr != Some(o) {
      assert k !in Holders(hs, o);
    }
  }

  /** When the last handle on a pointee is emptied the pointee may go, and the handles in it are doomed. */
  lemma LastHolderGone(hs: Handles, counts: map<nat, nat>, doomed: set<nat>, h: nat, o: nat)
    requires Consistent(hs, counts, doomed) && h in hs && hs[h].ptr == Some(o) && counts[o] == 1
    ensures Consistent(Emptied(hs, h), counts - {o}, doomed + Members(hs, o)) && Members(hs, o) !! doomed
  {
    OneHolderFewer(hs, h);
    HeldByNobody(Emptied(hs, h), o);
    hide Holders;
  }

  lemma OtherHolderLeft(hs: Handles, counts: map<nat, nat>, doomed: set<nat>, h: nat, o: nat)
    requires Consistent(hs, counts, doomed) && h in hs && hs[h].ptr == Some(o) && counts[o] > 1
    ensures Consistent(Emptied(hs, h), counts[o := counts[o] - 1], doomed)
  {
    OneHolderFewer(hs, h);
    hide Holders;
  }

  lemma EmptiedFrame(hs: Handles, h: nat, depth: nat -> nat, o: nat)
    requires h in hs && Ranked(hs, depth)
    ensures Ranked(Emptied(hs, h), depth) && Members(Emptied(hs, h), o) == Members(hs, o)
    ensures hs[h].ptr.None? ==> Emptied(hs, h) == hs
  {
  }

  lemma HolderKnown(hs: Handles, counts: map<nat, nat>, doomed: set<nat>, h: nat)
    requires Consistent(hs, counts, doomed) && h in hs && hs[h].ptr.Some?
    ensures hs[h].ptr.value in counts && counts[hs[h].ptr.value] > 0
  {
  }

  /** Shrinking is about which pointees are alive, not about their counts. */
  lemma ShrunkWhatever(hs: Handles, counts: map<nat, nat>, counts1: map<nat, nat>, hs': Handles,
                       counts': map<nat, nat>,
                       depth: nat -> nat, least: nat)
    requires counts.Keys == counts1.Keys && Shrunk(hs, counts1, hs', counts', depth, least)
    ensures Shrunk(hs, counts, hs', counts', depth, least)
  {
  }

  lemma NothingShrunk(hs: Handles, counts: map<nat, nat>, depth: nat -> nat, least: nat)
    ensures Shrunk(hs, counts, hs, counts, depth, least)
  {
  }

  /** How deep the pointee of a handle lies, or would lie at least. */
  function Depth(hs: Handles, h: nat, depth: nat -> nat): nat
    requires h in hs
  {
    if hs[h].ptr.Some? then depth(hs[h].ptr.value) else if hs[h].home.Some? then depth(hs[h].home.value) + 1 else 0
  }

  lemma HandlesShrinkOn(hs: Handles, counts: map<nat, nat>, hs1: Handles, counts1: map<nat, nat>, o: nat, k: nat,
                        hs2: Handles, counts2: map<nat, nat>)
    requires HandlesShrunk(hs, counts, hs1, counts1) && k in Members(hs, o) && o in counts && o !in counts1
    requires HandlesShrunk(hs1 - {k}, counts1, hs2, counts2) && counts2.Keys <= counts1.Keys <= counts.Keys
    ensures HandlesShrunk(hs, counts, hs2, counts2)
  {
  }

  lemma RankedStays(hs: Handles, hs': Handles, depth: nat -> nat)
    requires Ranked(hs, depth) && forall k :: k in hs' ==> k in hs && hs'[k] == hs[k]
    ensures Ranked(hs', depth)
  {
  }

  /** Destroying a handle k in the deleted pointee o goes on with the shrinking. */
  lemma MemberGone(hs: Handles, counts: map<nat, nat>, hs1: Handles, counts1: map<nat, nat>, o: nat, k: nat,
                   hs2: Handles, counts2: map<nat, nat>, depth: nat -> nat)
    requires Ranked(hs, depth) && Shrunk(hs, counts, hs1, counts1, depth, depth(o)) && o in counts && o !in counts1
    requires k in hs1 && k in Members(hs, o) && Shrunk(hs1 - {k}, counts1, hs2, counts2, depth, Depth(hs1, k, depth))
    ensures Shrunk(hs, counts, hs2, counts2, depth, depth(o)) && Ranked(hs2, depth)
    ensures |counts2| <= |counts1| && o !in counts2
  {
    assert depth(o) <= Depth(hs1, k, depth);
    hide Ranked, Depth;
    SubsetSize(counts2.Keys, counts1.Keys);
    HandlesShrinkOn(hs, counts, hs1, counts1, o, k, hs2, counts2);
    RankedStays(hs, hs2, depth);
  }

  lemma ShrunkByOne(hs: Handles, counts: map<nat, nat>, o: nat, depth: nat -> nat)
    requires o in counts
    ensures Shrunk(hs, counts, hs, counts - {o}, depth, depth(o)) && |counts - {o}| == |counts| - 1
  {
    assert (counts - {o}).Keys == counts.Keys - {o};
    assert |counts - {o}| == |(counts - {o}).Keys|;
  }

  lemma DoomedAreThere(hs: Handles, counts: map<nat, nat>, doomed: set<nat>)
    requires Consistent(hs, counts, doomed)
    ensures doomed <= hs.Keys
  {
  }

  lemma FewerDoomed(doomed: set<nat>, members: set<nat>, k: nat)
    requires k in members && members !! doomed
    ensures doomed + members - {k} == doomed + (members - {k}) && members - {k} !! doomed
  {
  }

  lemma NoneDoomed(doomed: set<nat>, members: set<nat>)
    requires members == {}
    ensures doomed + members == doomed
  {
  }

  /** The handle whose pointer is released outlives what its release deletes. */
  lemma ReleasedStays(hs: Handles, counts: map<nat, nat>, hs': Handles, counts': map<nat, nat>, depth: nat -> nat,
                      h: nat)
    requires Ranked(hs, depth) && h in hs && Shrunk(Emptied(hs, h), counts, hs', counts', depth, Depth(hs, h, depth))
    ensures h in hs'
  {
  }

  lemma HoldersWith(hs: Handles, h: nat, p: Option<nat>)
    requires h in hs && hs[h].ptr.None?
    ensures var hs' := hs[h := hs[h].(ptr := p)];
            forall o: nat :: |Holders(hs', o)| == |Holders(hs, o)| + (if p == Some(o) then 1 else 0)
  {
    var hs' := hs[h := hs[h].(ptr := p)];
    forall o: nat ensures |Holders(hs', o)| == |Holders(hs, o)| + (if p == Some(o) then 1 else 0) {
      assert Holders(hs', o) == if p == Some(o) then Holders(hs, o) + {h} else Holders(hs, o);
    }
  }

  lemma OneHolderMore(hs: Handles, counts: map<nat, nat>, h: nat, other: nat)
    requires Consistent(hs, counts, {}) && h in hs && other in hs && hs[h].ptr.None?
    ensures var p := hs[other].ptr;
            && (p.Some? ==> p.value in counts)
            && Consistent(hs[h := hs[h].(ptr := p)],
                          if p.Some? then counts[p.value := counts[p.value] + 1] else counts, {})
  {
    HoldersWith(hs, h, hs[other].ptr);
    hide Holders;
  }

  lemma AnotherHolder(hs: Handles, counts: map<nat, nat>, h: nat, other: nat)
    requires Consistent(hs, counts, {}) && h in hs && other in hs && h != other && hs[h].ptr.None?
    ensures Consistent(Emptied(hs[h := hs[h].(ptr := hs[other].ptr)], other), counts, {})
  {
    var hs', p := hs[h := hs[h].(ptr := hs[other].ptr)], hs[other].ptr;
    if p.Some? {
      OneHolderMore(hs, counts, h, other);
      OtherHolderLeft(hs', counts[p.value := counts[p.value] + 1], {}, other, p.value);
      assert counts[p.value := counts[p.value] + 1][p.value := counts[p.value]] == counts;
    } else {
      assert Emptied(hs', other) == hs;
    }
  }

  lemma NewEmpty(hs: Handles, counts: map<nat, nat>, k: nat, home: Option<nat>)
    requires Consistent(hs, counts, {}) && k !in hs && (home.Some? ==> home.value in counts)
    ensures Consistent(hs[k := Handle(home, None)], counts, {})
  {
    forall x: nat ensures Holders(hs[k := Handle(home, None)], x) == Holders(hs, x) {
    }
  }

  lemma NewPointee(hs: Handles, counts: map<nat, nat>, h: nat, o: nat)
    requires Consistent(hs, counts, {}) && h in hs && hs[h].ptr.None? && o !in counts
    ensures Consistent(hs[h := hs[h].(ptr := Some(o))], counts[o := 1], {})
  {
    HoldersWith(hs, h, Some(o));
    assert Holders(hs, o) == {};
    hide Holders;
  }

  /** While somebody else holds the pointee, emptying a handle cuts nothing off. */
  lemma NothingCutOff(hs: Handles, counts: map<nat, nat>, depth: nat -> nat, h: nat, b: nat)
    requires Consistent(hs, counts, {}) && Ranked(hs, depth) && h in hs && b in counts
    requires hs[h].ptr.None? || counts[hs[h].ptr.value] > 1
    ensures Reachable(Emptied(hs, h), b)
  {
    if hs[h].ptr.None? {
      assert Emptied(hs, h) == hs;
      AliveIffReachable(hs, counts, depth, b);
    } else {
      var o := hs[h].ptr.value;
      OtherHolderLeft(hs, counts, {}, h, o);
      AliveIffReachable(Emptied(hs, h), counts[o := counts[o] - 1], depth, b);
    }
  }

  /**
   For a handle in the pointee of h, as in p = p->next, the condition of the assignments is that h is not the sole
   owner.
   */
  lemma NextSurvivesIff(hs: Handles, counts: map<nat, nat>, depth: nat -> nat, h: nat, o: nat)
    requires Consistent(hs, counts, {}) && Ranked(hs, depth) && h in hs && hs[h].ptr == Some(o)
    ensures Reachable(Emptied(hs, h), o) <==> counts[o] > 1
  {
    if counts[o] > 1 {
      NothingCutOff(hs, counts, depth, h, o);
    } else {
      OneHolderFewer(hs, h);
      HeldByNobody(Emptied(hs, h), o);
    }
  }

  // ----- the operations

  /** Of the memory before, exactly the reachable pointees are left, and the handles on the stack and in these. */
  ghost predicate Remains(before: Handles, after: Handles, counts: map<nat, nat>) {
    && (forall b :: b in counts <==> Reachable(before, b))
    && (forall k :: k in after <==> k in before && (before[k].home.None? || Reachable(before, before[k].home.value)))
    && (forall k :: k in after ==> after[k] == before[k])
  }

  class Memory {
    var handles: Handles
    var counts: map<nat, nat>  // pointees alive, and their counters

    ghost predicate Valid()
      reads this
    {
      Consistent(handles, counts, {})
    }

    /**
     The private release. Every caller overwrites or destroys the released handle, so its pointer is dropped at once.
     doomed are the handles in pointees that are being deleted further up the call stack.
     */
    method Release(h: nat, ghost doomed: set<nat>, ghost depth: nat -> nat)
      requires Consistent(handles, counts, doomed) && Ranked(handles, depth) && h in handles
      modifies this
      ensures Consistent(handles, counts, doomed)
      ensures Shrunk(Emptied(old(handles), h), old(counts), handles, counts, depth, Depth(old(handles), h, depth))
      decreases |counts|, 1
    {
      hide Consistent, Ranked, Shrunk, Members, Emptied, Holders;
      ghost var hs, cs, least := Emptied(handles, h), counts, Depth(handles, h, depth);
      EmptiedFrame(handles, h, depth, 0);
      if handles[h].ptr.None? {
        NothingShrunk(hs, cs, depth, least);
        return;
      }
      var o := handles[h].ptr.value;
      EmptiedFrame(handles, h, depth, o);
      HolderKnown(handles, counts, doomed, h);
      if counts[o] == 1 {
        LastHolderGone(handles, counts, doomed, h, o);
      } else {
        OtherHolderLeft(handles, counts, doomed, h, o);
      }
      handles := Emptied(handles, h);
      counts := counts[o := counts[o] - 1];
      if counts[o] == 0 {
        assert counts - {o} == cs - {o};
        ghost var cs1 := counts;
        DeleteObject(o, doomed, depth);
        ShrunkWhatever(hs, cs, cs1, handles, counts, depth, least);
      } else {
        NothingShrunk(hs, counts, depth, least);
        ShrunkWhatever(hs, cs, counts, handles, counts, depth, least);
      }
    }

    /** delete of a pointee that nobody holds: the handles in it are destroyed, in some order. */
    method DeleteObject(o: nat, ghost doomed: set<nat>, ghost depth: nat -> nat)
      requires o in counts && Consistent(handles, counts - {o}, doomed + Members(handles, o))
      requires Ranked(handles, depth)
      requires Members(handles, o) !! doomed
      modifies this
      ensures Consistent(handles, counts, doomed)
      ensures Shrunk(old(handles), old(counts), handles, counts, depth, depth(o))
      decreases |counts|, 0
    {
      hide Shrunk, Ranked, Consistent, Members;
      var members := Members(handles, o);
      counts := counts - {o};
      ShrunkByOne(handles, old(counts), o, depth);
      while members != {}
        invariant Consistent(handles, counts, doomed + members) && Ranked(handles, depth)
        invariant members !! doomed && members <= Members(old(handles), o)
        invariant Shrunk(old(handles), old(counts), handles, counts, depth, depth(o))
        invariant |counts| < |old(counts)| && o !in counts
        decreases members
      {
        var k :| k in members;
        ghost var hs, cs := handles, counts;
        DoomedAreThere(handles, counts, doomed + members);
        Destroy(k, doomed + members, depth);
        MemberGone(old(handles), old(counts), hs, cs, o, k, handles, counts, depth);
        FewerDoomed(doomed, members, k);
        members := members - {k};
      }
      NoneDoomed(doomed, members);
    }

    /** The destructor. */
    method Destroy(h: nat, ghost doomed: set<nat>, ghost depth: nat -> nat)
      requires Consistent(handles, counts, doomed) && Ranked(handles, depth) && h in handles
      requires h in doomed || handles[h].home.None?
      modifies this
      ensures Consistent(handles, counts, doomed - {h})
      ensures Shrunk(old(handles) - {h}, old(counts), handles, counts, depth, Depth(old(handles), h, depth))
      decreases |counts|, 2
    {
      Release(h, doomed, depth);
      DropEmpty(handles, counts, doomed, h);
      handles := handles - {h};
    }

    constructor ()
      ensures Valid() && handles == map[] && counts == map[]
    {
      handles, counts := map[], map[];
    }

    /** A new handle that holds nothing, on the stack or as a part of a pointee. */
    method Construct(h: nat, home: Option<nat>)
      requires Valid() && h !in handles && (home.Some? ==> home.value in counts)
      modifies this
      ensures Valid() && counts == old(counts) && handles == old(handles)[h := Handle(home, None)]
    {
      NewEmpty(handles, counts, h, home);
      handles := handles[h := Handle(home, None)];
    }

    /** The handle is made the first on a new pointee. */
    method Adopt(h: nat, o: nat)
      requires Valid() && h in handles && handles[h].ptr.None? && o !in counts
      modifies this
      ensures Valid() && counts == old(counts)[o := 1]
      ensures handles == old(handles)[h := old(handles)[h].(ptr := Some(o))]
    {
      NewPointee(handles, counts, h, o);
      handles := handles[h := handles[h].(ptr := Some(o))];
      counts := counts[o := 1];
    }

    /**
     A handle on the stack goes: exactly what cannot be reached without it is deleted, and the handles in it with it.
     */
    method LeaveScope(h: nat, ghost depth: nat -> nat)
      requires Valid() && Ranked(handles, depth) && h in handles && handles[h].home.None?
      modifies this
      ensures Valid() && Remains(old(handles) - {h}, handles, counts)
    {
      Destroy(h, {}, depth);
      DeletedIffUnreachable(old(handles) - {h}, old(counts), handles, counts, depth, Depth(old(handles), h, depth));
    }

    /** The release with which an assignment begins. */
    method ReleaseFirst(h: nat, ghost depth: nat -> nat)
      requires Valid() && Ranked(handles, depth) && h in handles
      modifies this
      ensures Valid() && Remains(Emptied(old(handles), h), handles, counts)
      ensures h in handles && handles[h].ptr == None
    {
      Release(h, {}, depth);
      ReleasedStays(old(handles), old(counts), handles, counts, depth, h);
      DeletedIffUnreachable(Emptied(old(handles), h), old(counts), handles, counts, depth,
                            Depth(old(handles), h, depth));
    }

    /**
     Copy assignment of different handles. alive tells whether other still exists when it is read, which is after the
     release: it does exactly if it lives on the stack or where something leads without h.
     */
    method CopyAssign(h: nat, other: nat, ghost depth: nat -> nat) returns (alive: bool)
      requires Valid() && Ranked(handles, depth) && h in handles && other in handles && h != other
      modifies this
      ensures alive <==> old(handles[other].home.None? || Reachable(Emptied(handles, h), handles[other].home.value))
      ensures alive ==> Valid() && h in handles && handles[h].ptr == old(handles[other].ptr)
      ensures alive ==> Remains(Emptied(old(handles), h), Emptied(handles, h), counts)
    {
      hide Consistent, Reachable, Ranked;
      ReleaseFirst(h, depth);
      if other !in handles {
        return false;
      }
      ghost var hs := handles;
      OneHolderMore(handles, counts, h, other);
      handles := handles[h := handles[h].(ptr := handles[other].ptr)];
      if handles[h].ptr.Some? {
        counts := counts[handles[h].ptr.value := counts[handles[h].ptr.value] + 1];
      }
      assert Emptied(handles, h) == hs;
      return true;
    }

    /** Move assignment, under the same condition. */
    method MoveAssign(h: nat, other: nat, ghost depth: nat -> nat) returns (alive: bool)
      requires Valid() && Ranked(handles, depth) && h in handles && other in handles && h != other
      modifies this
      ensures alive <==> old(handles[other].home.None? || Reachable(Emptied(handles, h), handles[other].home.value))
      ensures alive ==> Valid() && h in handles && other in handles
      ensures alive ==> handles[h].ptr == old(handles[other].ptr)
      ensures alive ==> handles[other] == Handle(old(handles[other].home), None)
      ensures alive ==> Remains(Emptied(old(handles), h), Emptied(handles, h)[other := old(handles)[other]], counts)
    {
      hide Consistent, Reachable, Ranked;
      ReleaseFirst(h, depth);
      if other !in handles {
        return false;
      }
      ghost var hs := handles;
      AnotherHolder(handles, counts, h, other);
      handles := handles[h := handles[h].(ptr := handles[other].ptr)];
      handles := handles[other := handles[other].(ptr := None)];
      assert Emptied(handles, h)[other := old(handles)[other]] == hs;
      return true;
    }
  }

  /** A list of two nodes held by handle 0 alone: p = p->next reads the handle in the node it has just deleted. */
  lemma AdvancingAListDangles()
    ensures var hs := map[0 := Handle(None, Some(0)), 1 := Handle(Some(0), Some(1))];
            && Consistent(hs, map[0 := 1, 1 := 1], {}) && Ranked(hs, o => o)
            && !Reachable(Emptied(hs, 0), hs[1].home.value)
  {
    var hs := map[0 := Handle(None, Some(0)), 1 := Handle(Some(0), Some(1))];
    assert Holders(hs, 0) == {0} && Holders(hs, 1) == {1};
    NextSurvivesIff(hs, map[0 := 1, 1 := 1], o => o, 0, 0);
  }

  /** A handle in the very pointee it holds. */
  const SELF_CYCLE: Handles := map[0 := Handle(Some(0), Some(0))]

  lemma {:induction false} NoPathIntoCycle(path: seq<nat>)
    ensures !Path(SELF_CYCLE, path, 0)
    decreases |path|
  {
    if |path| > 1 {
      NoPathIntoCycle(path[..|path| - 1]);
    }
  }

  /** Cycles leak: the counts are in order, so nothing is deleted, and yet nothing leads to the pointee. */
  lemma CyclesLeak()
    ensures Consistent(SELF_CYCLE, map[0 := 1], {}) && !Reachable(SELF_CYCLE, 0)
    ensures forall depth: nat -> nat :: !Ranked(SELF_CYCLE, depth)
  {
    assert Holders(SELF_CYCLE, 0) == {0};
    forall path ensures !Path(SELF_CYCLE, path, 0) {
      NoPathIntoCycle(path);
    }
  }

  // ----- programs

  ghost predicate Acyclic(hs: Handles) {
    exists depth: nat -> nat :: Ranked(hs, depth)
  }

  /** A chain of handles from the pointee t to the pointee b. */
  predicate Chain(hs: Handles, path: seq<nat>, t: nat, b: nat)
    decreases |path|
  {
    if path == [] then t == b
    else
      var k := path[|path| - 1];
      k in hs && hs[k].ptr == Some(b) && hs[k].home.Some? && Chain(hs, path[..|path| - 1], t, hs[k].home.value)
  }

  ghost predicate LeadsTo(hs: Handles, t: nat, b: nat) {
    exists path :: Chain(hs, path, t, b)
  }

  lemma LeadsOn(hs: Handles, t: nat, k: nat)
    requires k in hs && hs[k].home.Some? && hs[k].ptr.Some? && LeadsTo(hs, t, hs[k].home.value)
    ensures LeadsTo(hs, t, hs[k].ptr.value)
  {
    var path :| Chain(hs, path, t, hs[k].home.value);
    assert (path + [k])[..|path|] == path;
    assert Chain(hs, path + [k], t, hs[k].ptr.value);
  }

  lemma {:induction false} ChainDeepens(hs: Handles, path: seq<nat>, t: nat, b: nat, depth: nat -> nat)
    requires Ranked(hs, depth) && Chain(hs, path, t, b)
    ensures depth(t) <= depth(b)
    decreases |path|
  {
    if path != [] {
      ChainDeepens(hs, path[..|path| - 1], t, hs[path[|path| - 1]].home.value, depth);
    }
  }

  /** Pointing h to p closes no cycle: from p nothing leads to where h lives. */
  ghost predicate ClosesNone(hs: Handles, h: nat, p: Option<nat>)
    requires h in hs
  {
    hs[h].home.Some? && p.Some? ==> !LeadsTo(hs, p.value, hs[h].home.value)
  }

  function Pointed(hs: Handles, h: nat, p: Option<nat>): Handles
    requires h in hs
  {
    hs[h := hs[h].(ptr := p)]
  }

  /** The depths after b has been put above t: all that t leads to sinks below b. */
  ghost function Sunk(hs: Handles, t: nat, b: nat, depth: nat -> nat): nat -> nat {
    (x: nat) => if LeadsTo(hs, t, x) then depth(x) + depth(b) + 1 else depth(x)
  }

  lemma SunkRanks(hs: Handles, h: nat, t: nat, depth: nat -> nat)
    requires Ranked(hs, depth) && h in hs && hs[h].ptr.None? && ClosesNone(hs, h, Some(t)) && hs[h].home.Some?
    ensures Ranked(Pointed(hs, h, Some(t)), Sunk(hs, t, hs[h].home.value, depth))
  {
    var b := hs[h].home.value;
    var sunk := Sunk(hs, t, b, depth);
    assert Chain(hs, [], t, t);
    forall k | k in hs && k != h && hs[k].home.Some? && hs[k].ptr.Some?
      ensures sunk(hs[k].home.value) < sunk(hs[k].ptr.value)
    {
      if LeadsTo(hs, t, hs[k].home.value) {
        LeadsOn(hs, t, k);
      }
    }
  }

  lemma RankedBefore(hs: Handles, h: nat, p: Option<nat>, depth: nat -> nat)
    requires h in hs && hs[h].ptr.None? && Ranked(Pointed(hs, h, p), depth)
    ensures Ranked(hs, depth)
    ensures hs[h].home.Some? && p.Some? ==> depth(hs[h].home.value) < depth(p.value)
  {
    assert forall k :: k in hs && hs[k].ptr.Some? ==> Pointed(hs, h, p)[k] == hs[k];
    assert h in Pointed(hs, h, p) && Pointed(hs, h, p)[h] == Handle(hs[h].home, p);
  }

  /** An assignment keeps the memory free of cycles exactly if it closes none. */
  lemma AcyclicIff(hs: Handles, h: nat, p: Option<nat>)
    requires Acyclic(hs) && h in hs && hs[h].ptr.None?
    ensures Acyclic(Pointed(hs, h, p)) <==> ClosesNone(hs, h, p)
  {
    var hs' := Pointed(hs, h, p);
    var depth: nat -> nat :| Ranked(hs, depth);
    if hs[h].home.None? || p.None? {
      assert Ranked(hs', depth);
    } else if ClosesNone(hs, h, p) {
      SunkRanks(hs, h, p.value, depth);
    } else {
      var path :| Chain(hs, path, p.value, hs[h].home.value);
      forall d: nat -> nat ensures !Ranked(hs', d) {
        if Ranked(hs', d) {
          RankedBefore(hs, h, p, d);
          ChainDeepens(hs, path, p.value, hs[h].home.value, d);
        }
      }
    }
  }

  lemma AcyclicPart(hs: Handles, hs': Handles)
    requires Acyclic(hs) && forall k :: k in hs' ==> hs'[k].ptr.None? || (k in hs && hs'[k] == hs[k])
    ensures Acyclic(hs')
  {
    var depth: nat -> nat :| Ranked(hs, depth);
    assert Ranked(hs', depth);
  }

  lemma {:induction false} PathStarts(hs: Handles, path: seq<nat>, b: nat)
    requires Path(hs, path, b)
    ensures exists k :: k in hs && hs[k].home.None?
    decreases |path|
  {
    var k := path[|path| - 1];
    if |path| > 1 {
      PathStarts(hs, path[..|path| - 1], hs[k].home.value);
    }
  }

  lemma NothingWithoutStack(hs: Handles, b: nat)
    requires forall k :: k in hs ==> hs[k].home.Some?
    ensures !Reachable(hs, b)
  {
    if path :| Path(hs, path, b) {
      PathStarts(hs, path, b);
    }
  }

  lemma CountedIsReachable(hs: Handles, counts: map<nat, nat>)
    requires Consistent(hs, counts, {}) && Acyclic(hs)
    ensures forall b :: b in counts <==> Reachable(hs, b)
    ensures (forall k :: k in hs ==> hs[k].home.Some?) ==> counts == map[]
  {
    hide Consistent, Reachable, Ranked;
    var depth: nat -> nat :| Ranked(hs, depth);
    forall b ensures b in counts <==> Reachable(hs, b) {
      AliveIffReachable(hs, counts, depth, b);
    }
    if forall k :: k in hs ==> hs[k].home.Some? {
      forall b | b in counts ensures false {
        NothingWithoutStack(hs, b);
      }
    }
  }

  /** What a tracing collector would leave: the handles on the stack and in what can be reached from there. */
  ghost function Collected(hs: Handles): Handles {
    map k | k in hs && (hs[k].home.None? || Reachable(hs, hs[k].home.value)) :: hs[k]
  }

  datatype Op =
    | OpNull(handle: nat)                     // an empty handle on the stack
    | OpMember(handle: nat, home: nat)        // an empty handle in a pointee
    | OpMake(handle: nat, pointee: nat)       // make_shared into an empty handle
    | OpLeave(handle: nat)                    // a handle on the stack goes out of scope
    | OpCopyAssign(handle: nat, other: nat)
    | OpMoveAssign(handle: nat, other: nat)

  /** The heap once the target of an assignment has been released. */
  ghost function Let(hs: Handles, h: nat): Handles
    requires h in hs
  {
    Collected(Emptied(hs, h))
  }

  /**
   An operation a program can perform: an assignment must find its source alive after the release, and close no cycle.
   */
  ghost predicate Possible(hs: Handles, op: Op) {
    match op
    case OpNull(h) => h !in hs
    case OpMember(h, b) => h !in hs && Reachable(hs, b)
    case OpMake(h, o) => h in hs && hs[h].ptr.None? && !Reachable(hs, o)
    case OpLeave(h) => h in hs && hs[h].home.None?
    case OpCopyAssign(h, k) =>
      && h in hs && k in hs
      && (h != k ==> h in Let(hs, h) && k in Let(hs, h) && ClosesNone(Let(hs, h), h, hs[k].ptr))
    case OpMoveAssign(h, k) =>
      && h in hs && k in hs
      && (h != k ==> h in Let(hs, h) && k in Let(hs, h) && ClosesNone(Emptied(Let(hs, h), k), h, hs[k].ptr))
  }

  /** What it does to the handles, told without any counts. */
  ghost function Meaning(hs: Handles, op: Op): Handles
    requires Possible(hs, op)
  {
    match op
    case OpNull(h) => hs[h := Handle(None, None)]
    case OpMember(h, b) => hs[h := Handle(Some(b), None)]
    case OpMake(h, o) => Pointed(hs, h, Some(o))
    case OpLeave(h) => Collected(hs - {h})
    case OpCopyAssign(h, k) => if h == k then hs else Pointed(Let(hs, h), h, hs[k].ptr)
    case OpMoveAssign(h, k) => if h == k then hs else Pointed(Emptied(Let(hs, h), k), h, hs[k].ptr)
  }

  lemma {:induction false} ShallowStays(hs: Handles, depth: nat -> nat, h: nat, path: seq<nat>, x: nat)
    requires Ranked(hs, depth) && h in hs && hs[h].home.Some? && Path(hs, path, x)
    requires depth(x) <= depth(hs[h].home.value)
    ensures Path(Emptied(hs, h), path, x)
    decreases |path|
  {
    if |path| > 1 {
      ShallowStays(hs, depth, h, path[..|path| - 1], hs[path[|path| - 1]].home.value);
    }
  }

  /** The target of an assignment outlives its release. */
  lemma TargetLives(hs: Handles, counts: map<nat, nat>, h: nat)
    requires Consistent(hs, counts, {}) && Acyclic(hs) && h in hs
    ensures h in Let(hs, h)
  {
    if hs[h].home.Some? {
      var depth: nat -> nat :| Ranked(hs, depth);
      var b := hs[h].home.value;
      assert b in counts;
      hide Consistent, Ranked, Path;
      AliveIsReachable(hs, counts, depth, b);
      var path :| Path(hs, path, b);
      ShallowStays(hs, depth, h, path, b);
      assert Reachable(Emptied(hs, h), b);
      hide Reachable;
    }
  }

  lemma LetStaysAcyclic(hs: Handles, h: nat)
    requires h in hs && Acyclic(hs)
    ensures Acyclic(Let(hs, h))
    ensures h in Let(hs, h) ==> Let(hs, h)[h].ptr.None?
    ensures forall k :: k in Let(hs, h) && k != h ==> k in hs && Let(hs, h)[k] == hs[k]
  {
    AcyclicPart(hs, Let(hs, h));
  }

  /** Assignments are possible exactly if the source is alive when it is read and the memory stays free of cycles. */
  lemma AssignPossibleIff(hs: Handles, counts: map<nat, nat>, h: nat, k: nat)
    requires Consistent(hs, counts, {}) && Acyclic(hs) && h in hs && k in hs && h != k
    ensures h in Let(hs, h)
    ensures Possible(hs, OpCopyAssign(h, k)) <==>
              && (hs[k].home.None? || Reachable(Emptied(hs, h), hs[k].home.value))
              && Acyclic(Pointed(Let(hs, h), h, hs[k].ptr))
    ensures Possible(hs, OpMoveAssign(h, k)) <==>
              && (hs[k].home.None? || Reachable(Emptied(hs, h), hs[k].home.value))
              && k in Let(hs, h) && Acyclic(Pointed(Emptied(Let(hs, h), k), h, hs[k].ptr))
  {
    TargetLives(hs, counts, h);
    LetStaysAcyclic(hs, h);
    assert k in Let(hs, h) <==> hs[k].home.None? || Reachable(Emptied(hs, h), hs[k].home.value);
    hide Collected, Acyclic, Reachable, LeadsTo, Consistent;
    AcyclicIff(Let(hs, h), h, hs[k].ptr);
    if k in Let(hs, h) {
      AcyclicPart(Let(hs, h), Emptied(Let(hs, h), k));
      AcyclicIff(Emptied(Let(hs, h), k), h, hs[k].ptr);
    }
  }

  lemma RemainsIsCollected(before: Handles, after: Handles, counts: map<nat, nat>)
    requires Remains(before, after, counts)
    ensures after == Collected(before)
  {
  }

  lemma MakeStaysAcyclic(hs: Handles, counts: map<nat, nat>, h: nat, o: nat)
    requires Consistent(hs, counts, {}) && Acyclic(hs) && h in hs && hs[h].ptr.None? && o !in counts
    ensures Acyclic(Pointed(hs, h, Some(o)))
  {
    var depth: nat -> nat :| Ranked(hs, depth);
    var above := if hs[h].home.Some? then depth(hs[h].home.value) else 0;
    var depth' := (x: nat) => if x == o then above + 1 else depth(x);
    assert Ranked(Pointed(hs, h, Some(o)), depth');
  }

  /** A possible assignment finds its source alive. */
  lemma SourceLives(hs: Handles, h: nat, k: nat)
    requires h in hs && k in hs && h != k && k in Let(hs, h)
    ensures hs[k].home.None? || Reachable(Emptied(hs, h), hs[k].home.value)
  {
  }

  lemma CopyMeant(hs: Handles, after: Handles, counts: map<nat, nat>, h: nat, k: nat)
    requires Acyclic(hs) && h != k && Possible(hs, OpCopyAssign(h, k))
    requires h in after && after[h].ptr == hs[k].ptr && Remains(Emptied(hs, h), Emptied(after, h), counts)
    ensures Acyclic(after) && after == Meaning(hs, OpCopyAssign(h, k))
  {
    RemainsIsCollected(Emptied(hs, h), Emptied(after, h), counts);
    LetStaysAcyclic(hs, h);
    hide Collected, Acyclic, Remains;
    AcyclicIff(Let(hs, h), h, hs[k].ptr);
    assert after == Pointed(Emptied(after, h), h, hs[k].ptr);
  }

  lemma MoveMeant(hs: Handles, after: Handles, counts: map<nat, nat>, h: nat, k: nat)
    requires Acyclic(hs) && h != k && Possible(hs, OpMoveAssign(h, k))
    requires h in after && k in after && after[h].ptr == hs[k].ptr && after[k] == Handle(hs[k].home, None)
    requires Remains(Emptied(hs, h), Emptied(after, h)[k := hs[k]], counts)
    ensures Acyclic(after) && after == Meaning(hs, OpMoveAssign(h, k))
  {
    RemainsIsCollected(Emptied(hs, h), Emptied(after, h)[k := hs[k]], counts);
    LetStaysAcyclic(hs, h);
    hide Collected, Remains;
    var emptied := Emptied(Let(hs, h), k);
    AcyclicPart(Let(hs, h), emptied);
    hide Acyclic;
    AcyclicIff(emptied, h, hs[k].ptr);
    assert after == Pointed(emptied, h, hs[k].ptr);
  }

  method Copy(memory: Memory, h: nat, k: nat)
    requires memory.Valid() && Acyclic(memory.handles) && h != k && Possible(memory.handles, OpCopyAssign(h, k))
    modifies memory
    ensures memory.Valid() && Acyclic(memory.handles)
    ensures memory.handles == Meaning(old(memory.handles), OpCopyAssign(h, k))
  {
    ghost var hs := memory.handles;
    ghost var depth: nat -> nat :| Ranked(hs, depth);
    hide Let, Collected, Ranked, Reachable, ClosesNone, Consistent, Acyclic, Remains;
    SourceLives(hs, h, k);
    var alive := memory.CopyAssign(h, k, depth);
    CopyMeant(hs, memory.handles, memory.counts, h, k);
  }

  method Move(memory: Memory, h: nat, k: nat)
    requires memory.Valid() && Acyclic(memory.handles) && h != k && Possible(memory.handles, OpMoveAssign(h, k))
    modifies memory
    ensures memory.Valid() && Acyclic(memory.handles)
    ensures memory.handles == Meaning(old(memory.handles), OpMoveAssign(h, k))
  {
    ghost var hs := memory.handles;
    ghost var depth: nat -> nat :| Ranked(hs, depth);
    hide Let, Collected, Ranked, Reachable, ClosesNone, Consistent, Acyclic, Remains;
    SourceLives(hs, h, k);
    var alive := memory.MoveAssign(h, k, depth);
    MoveMeant(hs, memory.handles, memory.counts, h, k);
  }

  /** One operation in place. */
  method Perform(memory: Memory, op: Op)
    requires memory.Valid() && Acyclic(memory.handles) && Possible(memory.handles, op)
    modifies memory
    ensures memory.Valid() && Acyclic(memory.handles)
    ensures memory.handles == Meaning(old(memory.handles), op)
  {
    ghost var hs := memory.handles;
    ghost var depth: nat -> nat :| Ranked(hs, depth);
    match op {
      case OpNull(h) =>
        memory.Construct(h, None);
        AcyclicPart(hs, memory.handles);
      case OpMember(h, b) =>
        AliveIffReachable(hs, memory.counts, depth, b);
        memory.Construct(h, Some(b));
        AcyclicPart(hs, memory.handles);
      case OpMake(h, o) =>
        AliveIffReachable(hs, memory.counts, depth, o);
        MakeStaysAcyclic(hs, memory.counts, h, o);
        memory.Adopt(h, o);
      case OpLeave(h) =>
        memory.LeaveScope(h, depth);
        RemainsIsCollected(hs - {h}, memory.handles, memory.counts);
        AcyclicPart(hs, memory.handles);
      case OpCopyAssign(h, k) =>
        if h != k {
          Copy(memory, h, k);
        }
      case OpMoveAssign(h, k) =>
        if h != k {
          Move(memory, h, k);
        }
    }
  }

  ghost predicate IsProgram(hs: Handles, program: seq<Op>)
    decreases |program|
  {
    program == [] || (Possible(hs, program[0]) && IsProgram(Meaning(hs, program[0]), program[1..]))
  }

  ghost function MeaningOf(hs: Handles, program: seq<Op>): Handles
    requires IsProgram(hs, program)
    decreases |program|
  {
    if program == [] then hs else MeaningOf(Meaning(hs, program[0]), program[1..])
  }

  /**
   Counting does the work of a tracing collector: over any program that closes no cycle, the handles are those of the
   description without counts, and at its end exactly what can be reached is alive; nothing, when the stack is empty.
   */
  method Run(memory: Memory, program: seq<Op>)
    requires memory.Valid() && Acyclic(memory.handles) && IsProgram(memory.handles, program)
    modifies memory
    ensures memory.Valid() && Acyclic(memory.handles)
    ensures memory.handles == MeaningOf(old(memory.handles), program)
    ensures forall b :: b in memory.counts <==> Reachable(memory.handles, b)
    ensures (forall k :: k in memory.handles ==> memory.handles[k].home.Some?) ==> memory.counts == map[]
  {
    hide Possible, Meaning, Consistent, Reachable, Acyclic;
    for i := 0 to |program|
      invariant memory.Valid() && Acyclic(memory.handles) && IsProgram(memory.handles, program[i..])
      invariant MeaningOf(memory.handles, program[i..]) == MeaningOf(old(memory.handles), program)
    {
      assert program[i..][0] == program[i] && program[i..][1..] == program[i + 1..];
      Perform(memory, program[i]);
    }
    CountedIsReachable(memory.handles, memory.counts);
  }
}

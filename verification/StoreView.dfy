/**
 What the store means: a map from keys to records.  A put sets one key, a delete removes one, a
 commit changes nothing; and a committed store, scanned from scratch, is the store.
 */
module StoreView {
  import opened Basics
  import opened Keys
  import opened Engine
  import opened Identity
  import opened Schema
  import opened Store
  import opened StoreProofs

  // ------------------------------------------------------------------ rebuilding

  /** Two indexes agree up to the order in which an entry lists its vectors. */
  ghost predicate SameIndex(a: Index, b: Index)
  {
    && a.Keys == b.Keys
    && forall k :: k in a ==>
         && a[k].frame == b[k].frame && a[k].committed == b[k].committed
         && multiset(a[k].vectors) == multiset(b[k].vectors)
  }

  lemma {:induction false} DistinctMultiset<T>(s: seq<T>)
    requires Distinct(s)
    ensures forall x :: multiset(s)[x] == if x in s then 1 else 0
  {
    if s != [] {
      var before := s[..|s| - 1];
      DistinctMultiset(before);
      assert s == before + [s[|s| - 1]];
    }
  }

  lemma SameMembersSameMultiset<T>(a: seq<T>, b: seq<T>)
    requires Distinct(a) && Distinct(b)
    requires forall x :: x in a <==> x in b
    ensures multiset(a) == multiset(b)
  {
    DistinctMultiset(a);
    DistinctMultiset(b);
  }

  lemma SameVectors(s: StoreState, k: KeyRef)
    requires Coherent(s) && s.file.flushedFrames == |s.file.frames| && k in s.index && k in RebuiltIndex(s.file)
    ensures multiset(RebuiltIndex(s.file)[k].vectors) == multiset(s.index[k].vectors)
  {
    RebuiltIsScan(s.file);
    var e := RebuiltIndex(s.file)[k];
    hide IsKey, RebuiltIndex, WellFormedFile, OwnersLive, SchemaFits, CollectionsFit, CommitStatus, StagedFits;
    forall p: (SpaceId, VectorId) ensures p in e.vectors <==> p in s.index[k].vectors {
      assert OwnedUnder(s.file, k, p) <==> RefMatches(s.file.vectors, s.index[k].frame, p);
    }
    SameMembersSameMultiset(e.vectors, s.index[k].vectors);
  }

  /** With everything flushed, being live under a key and being named by its entry are the same. */
  lemma LiveUnderIsIndexed(s: StoreState, i: FrameId, k: KeyRef)
    requires Coherent(s) && s.file.flushedFrames == |s.file.frames|
    ensures LiveUnder(s.file, i, k) <==> k in s.index && s.index[k].frame == i
  {
    hide IsKey, WellFormedFile, OwnersLive, SchemaFits, CollectionsFit, CommitStatus, StagedFits, EntriesListVectors;
  }

  ghost predicate SameEntry(a: Index, b: Index, k: KeyRef)
  {
    && (k in a <==> k in b)
    && (k in a ==>
       a[k].frame == b[k].frame && a[k].committed == b[k].committed && multiset(a[k].vectors) == multiset(b[k].vectors))
  }

  lemma SameEntries(a: Index, b: Index)
    requires forall k :: SameEntry(a, b, k)
    ensures SameIndex(a, b)
  {
    forall k | k in a.Keys + b.Keys ensures k in a && k in b { assert SameEntry(a, b, k); }
    forall k | k in a
      ensures a[k].frame == b[k].frame && a[k].committed == b[k].committed
              && multiset(a[k].vectors) == multiset(b[k].vectors)
    {
      assert SameEntry(a, b, k);
    }
  }

  lemma RebuiltFrame(s: StoreState, k: KeyRef)
    requires Coherent(s) && s.file.flushedFrames == |s.file.frames| && OwnersKnown(s.file)
    ensures k in RebuiltIndex(s.file) <==> k in s.index
    ensures k in s.index ==> RebuiltIndex(s.file)[k].frame == s.index[k].frame && RebuiltIndex(s.file)[k].committed
  {
    RebuiltIsScan(s.file);
    var m := RebuiltIndex(s.file);
    hide *;
    if k in s.index { LiveUnderIsIndexed(s, s.index[k].frame, k); }
    if k in m { LiveUnderIsIndexed(s, m[k].frame, k); }
  }

  /** Once everything is flushed and committed, the index rebuilt from the file is the live one. */
  lemma RebuildYieldsLiveIndex(s: StoreState)
    requires Coherent(s) && s.file.flushedFrames == |s.file.frames|
    requires forall k :: k in s.index ==> s.index[k].committed
    ensures SameIndex(RebuiltIndex(s.file), s.index)
  {
    assert OwnersKnown(s.file);
    hide *;
    forall k ensures SameEntry(RebuiltIndex(s.file), s.index, k) {
      RebuiltEntry(s, k);
    }
    SameEntries(RebuiltIndex(s.file), s.index);
  }

  lemma RebuiltEntry(s: StoreState, k: KeyRef)
    requires Coherent(s) && s.file.flushedFrames == |s.file.frames| && OwnersKnown(s.file)
    requires forall j :: j in s.index ==> s.index[j].committed
    ensures SameEntry(RebuiltIndex(s.file), s.index, k)
  {
    RebuiltFrame(s, k);
    hide Coherent, RebuiltIndex, OwnersKnown;
    if k in s.index { SameVectors(s, k); }
  }

  // ------------------------------------------------------------------ the meaning of a store

  /** A stored record.  Its vectors are named by space, whether already in the engine or still staged. */
  datatype Rec = Rec(
    role: Role,
    payload: Bytes,
    createdAt: int,
    parent: Option<Bytes>,
    vectors: multiset<NamedVector>)

  function SpaceName(spaces: seq<SpaceDesc>, id: SpaceId): string
  {
    if id < |spaces| then spaces[id].name else ""
  }

  function EngineVectors(vectors: seq<VectorRow>, spaces: seq<SpaceDesc>, owner: FrameId): multiset<NamedVector>
  {
    if vectors == [] then multiset{}
    else
      EngineVectors(vectors[..|vectors| - 1], spaces, owner) + OwnedRow(vectors[|vectors| - 1], spaces, owner)
  }

  function OwnedRow(row: VectorRow, spaces: seq<SpaceDesc>, owner: FrameId): multiset<NamedVector>
  {
    if row.active && row.owner == owner then multiset{(SpaceName(spaces, row.space), row.values)} else multiset{}
  }

  function StagedVectors(staged: seq<StagedVector>, owner: FrameId): multiset<NamedVector>
  {
    if staged == [] then multiset{}
    else
      StagedVectors(staged[..|staged| - 1], owner) + OwnedStaged(staged[|staged| - 1], owner)
  }

  function OwnedStaged(v: StagedVector, owner: FrameId): multiset<NamedVector>
  {
    if v.owner == owner then multiset{(v.space, v.values)} else multiset{}
  }

  function ParentKey(frames: seq<Frame>, parent: Option<FrameId>): Option<Bytes>
  {
    if parent.Some? && parent.value < |frames| then frames[parent.value].uri else None
  }

  function RecAt(s: StoreState, i: FrameId): Rec
    requires i < |s.file.frames|
  {
    var f := s.file.frames[i];
    Rec(f.role, f.payload, f.createdAt, ParentKey(s.file.frames, f.parent),
        EngineVectors(s.file.vectors, s.file.spaces, i) + StagedVectors(s.staged, i))
  }

  /** The newest active frame carrying `k`: a plain scan, without the index. */
  function FindLive(frames: seq<Frame>, k: KeyRef): (r: Option<FrameId>)
    ensures r.Some? ==> r.value < |frames| && LiveKey(frames[r.value]) == Some(k)
  {
    if frames == [] then None
    else if LiveKey(frames[|frames| - 1]) == Some(k) then Some(|frames| - 1)
    else FindLive(frames[..|frames| - 1], k)
  }

  /** The record a key stands for. */
  function Lookup(s: StoreState, k: KeyRef): Option<Rec>
  {
    var i := FindLive(s.file.frames, k);
    if i.Some? then Some(RecAt(s, i.value)) else None
  }

  lemma {:induction false} FindLiveUnique(frames: seq<Frame>, i: FrameId, k: KeyRef)
    requires i < |frames| && LiveKey(frames[i]) == Some(k)
    requires forall j :: 0 <= j < |frames| && LiveKey(frames[j]) == Some(k) ==> j == i
    ensures FindLive(frames, k) == Some(i)
  {
    if LiveKey(frames[|frames| - 1]) != Some(k) {
      FindLiveUnique(frames[..|frames| - 1], i, k);
    }
  }

  /** In a coherent store the scan finds exactly the frame the index names. */
  lemma LookupByIndex(s: StoreState, k: KeyRef)
    requires Coherent(s)
    ensures Lookup(s, k) == if k in s.index then Some(RecAt(s, s.index[k].frame)) else None
  {
    hide IsKey, WellFormedFile, EntriesListVectors, OwnersLive, SchemaFits, CollectionsFit, CommitStatus, StagedFits;
    if k in s.index {
      FindLiveUnique(s.file.frames, s.index[k].frame, k);
    }
  }

  /** Exactly one active frame per key. */
  lemma OneFramePerKey(s: StoreState, i: FrameId, j: FrameId)
    requires Coherent(s) && i < |s.file.frames| && j < |s.file.frames|
    requires LiveKey(s.file.frames[i]).Some? && LiveKey(s.file.frames[i]) == LiveKey(s.file.frames[j])
    ensures i == j
  {
  }

  // ------------------------------------------------------------------ vectors of one owner

  lemma {:induction false} EngineVectorsConcat(a: seq<VectorRow>, b: seq<VectorRow>, spaces: seq<SpaceDesc>,
      owner: FrameId)
    ensures EngineVectors(a + b, spaces, owner) == EngineVectors(a, spaces, owner) + EngineVectors(b, spaces, owner)
  {
    hide OwnedRow;
    if b == [] {
      assert a + b == a;
    } else {
      EngineVectorsConcat(a, b[..|b| - 1], spaces, owner);
      assert (a + b)[..|a + b| - 1] == a + b[..|b| - 1];
    }
  }

  lemma {:induction false} StagedVectorsConcat(a: seq<StagedVector>, b: seq<StagedVector>, owner: FrameId)
    ensures StagedVectors(a + b, owner) == StagedVectors(a, owner) + StagedVectors(b, owner)
  {
    hide OwnedStaged;
    if b == [] {
      assert a + b == a;
    } else {
      StagedVectorsConcat(a, b[..|b| - 1], owner);
      assert (a + b)[..|a + b| - 1] == a + b[..|b| - 1];
    }
  }

  /** Rows that agree on what `owner` owns, in spaces that kept their names, mean the same vectors. */
  lemma {:induction false} EngineVectorsSame(a: seq<VectorRow>, b: seq<VectorRow>, spaces: seq<SpaceDesc>,
      spaces': seq<SpaceDesc>, owner: FrameId)
    requires |a| == |b| && spaces <= spaces'
    requires forall v :: 0 <= v < |a| ==> a[v].space < |spaces|
    requires forall v :: 0 <= v < |a| ==> a[v] == b[v] || (a[v].owner != owner && b[v].owner != owner)
    ensures EngineVectors(a, spaces, owner) == EngineVectors(b, spaces', owner)
  {
    if a != [] {
      var n := |a| - 1;
      assert OwnedRow(a[n], spaces, owner) == OwnedRow(b[n], spaces', owner);
      hide OwnedRow;
      EngineVectorsSame(a[..n], b[..n], spaces, spaces', owner);
    }
  }

  lemma {:induction false} EngineVectorsNone(a: seq<VectorRow>, spaces: seq<SpaceDesc>, owner: FrameId)
    requires forall v :: 0 <= v < |a| ==> !(a[v].active && a[v].owner == owner)
    ensures EngineVectors(a, spaces, owner) == multiset{}
  {
    if a != [] {
      EngineVectorsNone(a[..|a| - 1], spaces, owner);
    }
  }

  lemma {:induction false} StagedVectorsNone(a: seq<StagedVector>, owner: FrameId)
    requires forall v :: 0 <= v < |a| ==> a[v].owner != owner
    ensures StagedVectors(a, owner) == multiset{}
  {
    if a != [] {
      StagedVectorsNone(a[..|a| - 1], owner);
    }
  }

  lemma {:induction false} StagedVectorsFiltered(a: seq<StagedVector>, gone: FrameId, owner: FrameId)
    requires gone != owner
    ensures StagedVectors(NotOwnedBy(a, gone), owner) == StagedVectors(a, owner)
  {
    if a != [] {
      var last := a[|a| - 1];
      StagedVectorsFiltered(a[..|a| - 1], gone, owner);
      StagedVectorsConcat(NotOwnedBy(a[..|a| - 1], gone), if last.owner != gone then [last] else [], owner);
    }
  }

  // ------------------------------------------------------------------ delete

  lemma DeleteKeepsVectorsOf(s: StoreState, k: KeyRef, i: FrameId)
    requires Coherent(s) && k in s.index && !Blocked(Prior(s, k)) && i != s.index[k].frame
    ensures EngineVectors(DeleteApplied(s, k).file.vectors, s.file.spaces, i) ==
            EngineVectors(s.file.vectors, s.file.spaces, i)
    ensures StagedVectors(DeleteApplied(s, k).staged, i) == StagedVectors(s.staged, i)
  {
    DeleteKillsOwned(s, k);
    DeleteShape(s, k);
    var t := DeleteApplied(s, k);
    hide LiveKey, EntriesListVectors, OwnersLive, SchemaFits, CollectionsFit, CommitStatus, StagedFits, DeleteApplied,
         IndexMatchesFrames,
         EngineVectors, StagedVectors;
    EngineVectorsSame(s.file.vectors, t.file.vectors, s.file.spaces, s.file.spaces, i);
    StagedVectorsFiltered(s.staged, s.index[k].frame, i);
  }

  lemma SameRec(s: StoreState, t: StoreState, i: FrameId)
    requires i < |s.file.frames| && |t.file.frames| == |s.file.frames| && t.file.frames[i] == s.file.frames[i]
    requires forall j :: 0 <= j < |s.file.frames| ==> t.file.frames[j].uri == s.file.frames[j].uri
    requires EngineVectors(t.file.vectors, t.file.spaces, i) == EngineVectors(s.file.vectors, s.file.spaces, i)
    requires StagedVectors(t.staged, i) == StagedVectors(s.staged, i)
    ensures RecAt(t, i) == RecAt(s, i)
  {
    hide EngineVectors, StagedVectors;
  }

  lemma DeleteKeepsRec(s: StoreState, k: KeyRef, i: FrameId)
    requires Coherent(s) && k in s.index && !Blocked(Prior(s, k))
    requires i < |s.file.frames| && i != s.index[k].frame
    ensures RecAt(DeleteApplied(s, k), i) == RecAt(s, i)
  {
    DeleteKeepsVectorsOf(s, k, i);
    DeleteShape(s, k);
    hide Coherent, DeleteApplied, EngineVectors, StagedVectors, LiveKey, Blocked, Prior, RecAt;
    SameRec(s, DeleteApplied(s, k), i);
  }

  /** A delete removes its key and leaves every other record as it was. */
  lemma DeleteMeaning(s: StoreState, k: KeyRef, j: KeyRef)
    requires Coherent(s) && k in s.index && !Blocked(Prior(s, k))
    ensures Lookup(DeleteApplied(s, k), j) == if j == k then None else Lookup(s, j)
  {
    DeleteCoherent(s, k);
    var t := DeleteApplied(s, k);
    LookupByIndex(s, j);
    LookupByIndex(t, j);
    DeleteShape(s, k);
    if j in s.index && j != k {
      assert s.index[j].frame != s.index[k].frame && s.index[j].frame < |s.file.frames| by {
        hide WellFormedFile, EntriesListVectors, OwnersLive, SchemaFits, CollectionsFit, CommitStatus, StagedFits,
             IsKey;
      }
      DeleteKeepsRec(s, k, s.index[j].frame);
    }
    hide Coherent, Lookup, RecAt, DeleteApplied;
  }

  // ------------------------------------------------------------------ put

  /** What a record means once stored under a shape. */
  function RecOf(shape: Shape, rec: Record, now: int): Rec
  {
    Rec(if rec.parent.Some? then Chunk else Document,
        if FirstText(rec.fields).Some? then FirstText(rec.fields).value else [],
        if rec.createdAt.Some? then rec.createdAt.value else now,
        if rec.parent.Some? then Some(Encode(rec.parent.value)) else None,
        multiset(NamedVectors(shape, rec.fields)))
  }

  lemma ReadyRowsSnoc(owner: FrameId, coll: CollectionId, ready: seq<(SpaceId, seq<real>)>, r: (SpaceId, seq<real>),
      spaces: seq<SpaceDesc>)
    ensures EngineVectors(ReadyRows(owner, coll, ready + [r]), spaces, owner) ==
            EngineVectors(ReadyRows(owner, coll, ready), spaces, owner) + multiset{(SpaceName(spaces, r.0), r.1)}
  {
    var rows := ReadyRows(owner, coll, ready + [r]);
    assert rows[..|ready|] == ReadyRows(owner, coll, ready);
  }

  lemma StagedRowsSnoc(k: KeyRef, owner: FrameId, deferred: seq<NamedVector>, d: NamedVector)
    ensures StagedVectors(StagedRows(k, owner, deferred + [d]), owner) ==
            StagedVectors(StagedRows(k, owner, deferred), owner) + multiset{d}
  {
    var rows := StagedRows(k, owner, deferred + [d]);
    assert rows[..|deferred|] == StagedRows(k, owner, deferred);
  }

  /** What one more vector adds to the ready rows and to the staged rows. */
  lemma SplitSnoc(reg: Registry, spaces: seq<SpaceDesc>, before: seq<NamedVector>, last: NamedVector, owner: FrameId,
      k: KeyRef)
    requires Registered(reg, before + [last]) && Registered(reg, before) && SchemaFits(reg, spaces)
             && last.0 in reg.vectorSpaces
    ensures var ready := reg.vectorSpaces[last.0].state.Ready?;
            && EngineVectors(ReadyRows(owner, k.0, ReadyPart(reg, before + [last])), spaces, owner) ==
               EngineVectors(ReadyRows(owner, k.0, ReadyPart(reg, before)), spaces, owner)
                   + (if ready then multiset{last} else multiset{})
            && StagedVectors(StagedRows(k, owner, DeferredPart(reg, before + [last])), owner) ==
               StagedVectors(StagedRows(k, owner, DeferredPart(reg, before)), owner)
                   + (if ready then multiset{} else multiset{last})
  {
    assert (before + [last])[..|before|] == before;
    var state := reg.vectorSpaces[last.0].state;
    assert state.Ready? ==> SpaceName(spaces, state.id) == last.0;
    hide SchemaFits, SpaceName;
    var ready, deferred := ReadyPart(reg, before), DeferredPart(reg, before);
    assert ReadyPart(reg, before + [last]) == ready + (if state.Ready? then [(state.id, last.1)] else []);
    assert DeferredPart(reg, before + [last]) == deferred + (if state.Ready? then [] else [last]);
    hide ReadyPart, DeferredPart, EngineVectors, StagedVectors, ReadyRows, StagedRows, Registered;
    if state.Ready? {
      ReadyRowsSnoc(owner, k.0, ready, (state.id, last.1), spaces);
      assert deferred + [] == deferred;
    } else {
      StagedRowsSnoc(k, owner, deferred, last);
      assert ready + [] == ready;
    }
  }

  /** Splitting a record's vectors into ready and deferred loses and invents nothing. */
  lemma {:induction false} SplitMeans(reg: Registry, spaces: seq<SpaceDesc>, vectors: seq<NamedVector>, owner: FrameId,
      k: KeyRef)
    requires Registered(reg, vectors) && SchemaFits(reg, spaces)
    ensures EngineVectors(ReadyRows(owner, k.0, ReadyPart(reg, vectors)), spaces, owner)
            + StagedVectors(StagedRows(k, owner, DeferredPart(reg, vectors)), owner)
            == multiset(vectors)
  {
    if vectors != [] {
      var before, last := vectors[..|vectors| - 1], vectors[|vectors| - 1];
      assert vectors == before + [last];
      assert last in vectors && Registered(reg, before) by { assert forall v :: v in before ==> v in vectors; }
      SplitMeans(reg, spaces, before, owner, k);
      SplitSnoc(reg, spaces, before, last, owner, k);
      hide SchemaFits, ReadyPart, DeferredPart, EngineVectors, StagedVectors, ReadyRows, StagedRows, Registered;
    }
  }

  /** The inserted frame's vectors are exactly the plan's. */
  lemma InsertVectorsOf(s: StoreState, plan: PutPlan, key: Bytes, rec: Record, parent: Option<FrameId>, now: int)
    requires Insertable(s, plan, key, parent)
    ensures var id := |s.file.frames|;
            var t := Inserted(s, plan, key, rec, parent, now);
            EngineVectors(t.file.vectors, t.file.spaces, id) + StagedVectors(t.staged, id) ==
            EngineVectors(ReadyRows(id, plan.coll, plan.ready), s.file.spaces, id)
            + StagedVectors(StagedRows((plan.coll, key), id, plan.deferred), id)
  {
    InsertShape(s, plan, key, rec, parent, now);
    var id := |s.file.frames|;
    hide LiveKey, Inserted, EngineVectors, StagedVectors, EntriesListVectors, OwnersLive, SchemaFits, CollectionsFit,
         CommitStatus, ReadyRows,
         StagedRows;
    EngineVectorsConcat(s.file.vectors, ReadyRows(id, plan.coll, plan.ready), s.file.spaces, id);
    StagedVectorsConcat(s.staged, StagedRows((plan.coll, key), id, plan.deferred), id);
    EngineVectorsNone(s.file.vectors, s.file.spaces, id);
    forall i | 0 <= i < |s.staged| ensures s.staged[i].owner != id {
      assert StagedFits(s, s.staged[i]);
    }
    StagedVectorsNone(s.staged, id);
  }

  lemma InsertKeepsVectorsOf(s: StoreState, plan: PutPlan, key: Bytes, rec: Record, parent: Option<FrameId>, now: int,
      i: FrameId)
    requires i < |s.file.frames|
    ensures var t := Inserted(s, plan, key, rec, parent, now);
            && EngineVectors(t.file.vectors, t.file.spaces, i) == EngineVectors(s.file.vectors, s.file.spaces, i)
            && StagedVectors(t.staged, i) == StagedVectors(s.staged, i)
  {
    InsertShape(s, plan, key, rec, parent, now);
    var id := |s.file.frames|;
    hide Inserted, EngineVectors, StagedVectors;
    EngineVectorsConcat(s.file.vectors, ReadyRows(id, plan.coll, plan.ready), s.file.spaces, i);
    StagedVectorsConcat(s.staged, StagedRows((plan.coll, key), id, plan.deferred), i);
    EngineVectorsNone(ReadyRows(id, plan.coll, plan.ready), s.file.spaces, i);
    StagedVectorsNone(StagedRows((plan.coll, key), id, plan.deferred), i);
  }

  lemma InsertKeepsRec(s: StoreState, plan: PutPlan, key: Bytes, rec: Record, parent: Option<FrameId>, now: int,
      i: FrameId)
    requires Insertable(s, plan, key, parent) && i < |s.file.frames|
    ensures RecAt(Inserted(s, plan, key, rec, parent, now), i) == RecAt(s, i)
  {
    InsertShape(s, plan, key, rec, parent, now);
    InsertKeepsVectorsOf(s, plan, key, rec, parent, now, i);
    assert s.file.frames[i].parent.Some? ==> s.file.frames[i].parent.value < i;
    hide Coherent, Inserted, EngineVectors, StagedVectors;
  }

  lemma InsertMeaning(s: StoreState, plan: PutPlan, key: Bytes, rec: Record, parent: Option<FrameId>, now: int,
      j: KeyRef)
    requires Insertable(s, plan, key, parent)
    ensures Lookup(Inserted(s, plan, key, rec, parent, now), j) ==
            if j == (plan.coll, key) then Some(RecAt(Inserted(s, plan, key, rec, parent, now), |s.file.frames|))
            else Lookup(s, j)
  {
    InsertCoherent(s, plan, key, rec, parent, now);
    InsertShape(s, plan, key, rec, parent, now);
    LookupByIndex(s, j);
    LookupByIndex(Inserted(s, plan, key, rec, parent, now), j);
    if j in s.index {
      assert s.index[j].frame < |s.file.frames| by {
        hide WellFormedFile, EntriesListVectors, OwnersLive, SchemaFits, CollectionsFit, CommitStatus, StagedFits,
             IsKey;
      }
      InsertKeepsRec(s, plan, key, rec, parent, now, s.index[j].frame);
    }
    hide Coherent, Inserted, Lookup, RecAt;
  }

  /** The record under a freshly inserted key is the one that was put. */
  lemma InsertedRec(s: StoreState, shape: Shape, plan: PutPlan, key: Bytes, rec: Record, parent: Option<FrameId>,
      now: int)
    requires Insertable(s, plan, key, parent)
    requires var vectors := NamedVectors(shape, rec.fields);
             Registered(s.reg, vectors) && plan.ready == ReadyPart(s.reg, vectors)
                 && plan.deferred == DeferredPart(s.reg, vectors)
    requires parent.Some? <==> rec.parent.Some?
    requires parent.Some? ==> s.file.frames[parent.value].uri == Some(Encode(rec.parent.value))
    ensures RecAt(Inserted(s, plan, key, rec, parent, now), |s.file.frames|) == RecOf(shape, rec, now)
  {
    InsertVectorsOf(s, plan, key, rec, parent, now);
    SplitMeans(s.reg, s.file.spaces, NamedVectors(shape, rec.fields), |s.file.frames|, (plan.coll, key));
    InsertShape(s, plan, key, rec, parent, now);
    hide Coherent, Inserted, EngineVectors, StagedVectors, ReadyPart, DeferredPart, NamedVectors, FirstText, PlanFits,
         Encode;
  }

  /** The plan is the split of what the record carries. */
  ghost predicate PlanOf(reg: Registry, shape: Shape, rec: Record, plan: PutPlan)
  {
    var vectors := NamedVectors(shape, rec.fields);
    Registered(reg, vectors) && plan.ready == ReadyPart(reg, vectors) && plan.deferred == DeferredPart(reg, vectors)
  }

  ghost predicate ParentCarries(frames: seq<Frame>, parent: Option<FrameId>, key: Option<Key>)
  {
    && (parent.Some? <==> key.Some?)
    && (parent.Some? ==> parent.value < |frames| && frames[parent.value].uri == Some(Encode(key.value)))
  }

  lemma FreshPutMeaning(s: StoreState, shape: Shape, plan: PutPlan, key: Bytes, rec: Record, parent: Option<FrameId>,
      now: int, j: KeyRef)
    requires Insertable(s, plan, key, parent) && PlanOf(s.reg, shape, rec, plan)
             && ParentCarries(s.file.frames, parent, rec.parent)
    ensures Lookup(Inserted(s, plan, key, rec, parent, now), j) ==
            if j == (plan.coll, key) then Some(RecOf(shape, rec, now)) else Lookup(s, j)
  {
    InsertMeaning(s, plan, key, rec, parent, now, j);
    InsertedRec(s, shape, plan, key, rec, parent, now);
    hide Insertable, PlanOf, ParentCarries, Lookup, RecAt, RecOf, Inserted;
  }

  /** The store a put inserts into: the current version of the key, if any, already removed. */
  function Cleared(s: StoreState, k: KeyRef): StoreState
    requires k in s.index ==> s.index[k].frame < |s.file.frames|
  {
    if k in s.index then DeleteApplied(s, k) else s
  }

  lemma PlanStillFits(s: StoreState, t: StoreState, plan: PutPlan)
    requires PlanFits(s, plan) && t.reg == s.reg && t.file.spaces == s.file.spaces
             && t.file.collections == s.file.collections
    ensures PlanFits(t, plan)
  {
  }

  /** A tombstoned frame keeps its uri, so it still names the key it was stored under. */
  lemma ParentStillCarries(frames: seq<Frame>, gone: FrameId, parent: Option<FrameId>, key: Option<Key>)
    requires gone < |frames| && ParentCarries(frames, parent, key)
    ensures ParentCarries(KilledFrame(frames, gone), parent, key)
  {
    hide Encode;
  }

  lemma ClearedInsertable(s: StoreState, plan: PutPlan, key: Bytes, rec: Record, parent: Option<FrameId>)
    requires Coherent(s) && PlanFits(s, plan) && IsKey(key) && !Blocked(Prior(s, (plan.coll, key)))
    requires ParentCarries(s.file.frames, parent, rec.parent)
    ensures var base := Cleared(s, (plan.coll, key));
            Insertable(base, plan, key, parent) && base.reg == s.reg
                && ParentCarries(base.file.frames, parent, rec.parent)
  {
    var k := (plan.coll, key);
    if k in s.index {
      DeleteCoherent(s, k);
      DeleteShape(s, k);
      hide Coherent, IsKey, Encode, DeleteApplied, NotOwnedBy, Blocked, CollectionsFit, PlanFits, ParentCarries,
           KilledFrame;
      PlanStillFits(s, DeleteApplied(s, k), plan);
      ParentStillCarries(s.file.frames, s.index[k].frame, parent, rec.parent);
    }
    hide Coherent, IsKey, Encode, PlanFits, ParentCarries, DeleteApplied, Blocked;
  }

  lemma ClearedMeaning(s: StoreState, k: KeyRef, j: KeyRef)
    requires Coherent(s) && !Blocked(Prior(s, k))
    ensures j != k ==> Lookup(Cleared(s, k), j) == Lookup(s, j)
  {
    if k in s.index {
      DeleteMeaning(s, k, j);
    }
  }

  lemma PutAppliedMeaning(s: StoreState, shape: Shape, plan: PutPlan, key: Bytes, rec: Record, parent: Option<FrameId>,
      now: int, j: KeyRef)
    requires Coherent(s) && PlanFits(s, plan) && IsKey(key) && !Blocked(Prior(s, (plan.coll, key)))
    requires PlanOf(s.reg, shape, rec, plan) && ParentCarries(s.file.frames, parent, rec.parent)
    ensures Lookup(PutApplied(s, plan, key, rec, parent, now), j) ==
            if j == (plan.coll, key) then Some(RecOf(shape, rec, now)) else Lookup(s, j)
  {
    ClearedInsertable(s, plan, key, rec, parent);
    ClearedMeaning(s, (plan.coll, key), j);
    hide Coherent, Insertable, PlanOf, ParentCarries, RecOf, Inserted, IsKey, PlanFits, Encode, Lookup, DeleteApplied;
    FreshPutMeaning(Cleared(s, (plan.coll, key)), shape, plan, key, rec, parent, now, j);
  }

  lemma ParentFound(s: StoreState, coll: CollectionId, parent: Option<Key>)
    requires Coherent(s) && ParentOf(s, coll, parent).Ok?
    ensures ParentCarries(s.file.frames, ParentOf(s, coll, parent).value, parent)
  {
    hide IsKey, Encode, WellFormedFile, EntriesListVectors, OwnersLive, SchemaFits, CollectionsFit, CommitStatus,
         StagedFits;
  }

  /** A put makes its key stand for exactly the record put, and leaves every other key as it was. */
  lemma PutMeaning(s: StoreState, coll: string, key: Key, rec: Record, now: int, j: KeyRef)
    requires Coherent(s) && WellFormed(key) && PutTo(s, coll, key, rec, now).Ok?
    ensures Lookup(PutTo(s, coll, key, rec, now).value, j) ==
            if j == (s.reg.collections[coll].id, Encode(key))
            then Some(RecOf(s.reg.collections[coll].shape.value, rec, now)) else Lookup(s, j)
  {
    DecodeEncode(key);
    PlanForFits(s, coll, rec);
    var plan := PlanFor(s.reg, coll, rec).value;
    ParentFound(s, plan.coll, rec.parent);
    hide Coherent, IsKey, Lookup, RecAt, RecOf, PutApplied, PlanFits, ReadyPart, DeferredPart, NamedVectors, Encode,
         ParentOf,
         ParentCarries;
    PutAppliedMeaning(s, s.reg.collections[coll].shape.value, plan, Encode(key), rec,
        ParentOf(s, plan.coll, rec.parent).value, now, j);
  }

  // ------------------------------------------------------------------ commit

  /** Flushing turns each staged vector into an engine vector of the same space and values. */
  lemma {:induction false} FlushedRowsMean(file: FileState, vs: map<string, VectorSpace>, spaces: seq<SpaceDesc>,
      staged: seq<StagedVector>, owner: FrameId)
    requires forall i :: 0 <= i < |staged| ==> staged[i].owner < |file.frames|
    requires forall i :: 0 <= i < |staged| ==> SpaceName(spaces, SpaceIdOf(vs, staged[i].space)) == staged[i].space
    ensures EngineVectors(FlushedRows(file, vs, staged), spaces, owner) == StagedVectors(staged, owner)
  {
    hide SpaceIdOf, SpaceName;
    if staged != [] {
      var n := |staged| - 1;
      var rows := FlushedRows(file, vs, staged);
      assert OwnedRow(rows[n], spaces, owner) == OwnedStaged(staged[n], owner);
      assert rows[..n] == FlushedRows(file, vs, staged[..n]);
      hide OwnedRow, OwnedStaged, FlushedRows;
      FlushedRowsMean(file, vs, spaces, staged[..n], owner);
    }
  }

  lemma FlushKeepsVectorsOf(s: StoreState, i: FrameId)
    requires Coherent(s)
    ensures EngineVectors(Flushed(s).file.vectors, Flushed(s).file.spaces, i) ==
            EngineVectors(s.file.vectors, s.file.spaces, i) + StagedVectors(s.staged, i)
  {
    FlushShape(s);
    CalibrationFacts(s);
    var c := CalibrationOf(s);
    var rows := FlushedRows(s.file, c.vectorSpaces, s.staged);
    hide LiveKey, EntriesListVectors, OwnersLive, SchemaFits, CollectionsFit, CommitStatus, StagedFits,
         IndexMatchesFrames, Flushed,
         CalibrationOf, EngineVectors, StagedVectors, FlushedRows;
    FlushedRowsMean(s.file, c.vectorSpaces, c.spaces, s.staged, i);
    EngineVectorsConcat(s.file.vectors, rows, c.spaces, i);
    EngineVectorsSame(s.file.vectors, s.file.vectors, s.file.spaces, c.spaces, i);
  }

  lemma FlushKeepsRec(s: StoreState, i: FrameId)
    requires Coherent(s) && i < |s.file.frames|
    ensures Flushed(s).file.frames == s.file.frames
    ensures RecAt(Flushed(s), i) == RecAt(s, i)
  {
    FlushCoherent(s);
    FlushKeepsVectorsOf(s, i);
    assert StagedVectors([], i) == multiset{};
    hide Coherent, EngineVectors, StagedVectors, Flushed, ParentKey;
  }

  /** A commit changes nothing a reader could see. */
  lemma CommitMeaning(s: StoreState, fsyncOk: bool, j: KeyRef)
    requires Coherent(s) && CommitOf(s, fsyncOk).Ok?
    ensures Lookup(CommitOf(s, fsyncOk).value, j) == Lookup(s, j)
  {
    FlushCoherent(s);
    var i := FindLive(s.file.frames, j);
    if i.Some? {
      FlushKeepsRec(s, i.value);
    }
    hide Coherent, Flushed, FindLive, EngineVectors, StagedVectors;
  }

  /** After a commit, the index rebuilt from the file is the live index. */
  lemma CommitRebuilds(s: StoreState, fsyncOk: bool)
    requires Coherent(s) && CommitOf(s, fsyncOk).Ok?
    ensures var t := CommitOf(s, fsyncOk).value;
            WellFormedFile(t.file) && SameIndex(RebuiltIndex(t.file), t.index)
  {
    CommitCoherent(s, fsyncOk);
    hide CommitOf;
    RebuildYieldsLiveIndex(CommitOf(s, fsyncOk).value);
  }
}

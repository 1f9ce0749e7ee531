/** What the store operations keep: every successful put, delete and commit preserves `Coherent`. */
module StoreProofs {
  import opened Basics
  import opened Keys
  import opened Engine
  import opened Identity
  import opened Schema
  import opened Store

  // ------------------------------------------------------------------ delete

  lemma TombstonedKeepsFile(file: FileState, e: Entry)
    requires WellFormedFile(file) && e.frame < |file.frames|
    ensures WellFormedFile(Tombstoned(file, e))
  {
  }

  lemma DeleteKeepsFile(s: StoreState, k: KeyRef)
    requires Coherent(s) && k in s.index
    ensures WellFormedFile(DeleteApplied(s, k).file)
  {
    hide LiveKey, WellFormedFile, Tombstoned, EntriesListVectors, OwnersLive, CommitStatus, SchemaFits, CollectionsFit,
         StagedFits;
    TombstonedKeepsFile(s.file, s.index[k]);
  }

  lemma DeleteKeepsIndex(s: StoreState, k: KeyRef)
    requires Coherent(s) && k in s.index
    ensures IndexMatchesFrames(DeleteApplied(s, k).file.frames, DeleteApplied(s, k).index)
  {
    hide IsKey, WellFormedFile, SchemaFits, EntriesListVectors, OwnersLive, CommitStatus, CollectionsFit, StagedFits;
  }

  /** Every active vector of the deleted frame is killed, and no other. */
  lemma DeleteKillsOwned(s: StoreState, k: KeyRef)
    requires Coherent(s) && k in s.index && !Blocked(Prior(s, k))
    ensures |DeleteApplied(s, k).file.vectors| == |s.file.vectors|
    ensures forall v :: 0 <= v < |s.file.vectors| ==>
              DeleteApplied(s, k).file.vectors[v] ==
              if s.file.vectors[v].owner == s.index[k].frame then s.file.vectors[v].(active := false)
                  else s.file.vectors[v]
  {
    hide LiveKey, WellFormedFile, SchemaFits, OwnersLive, CommitStatus, CollectionsFit, StagedFits;
    var e := s.index[k];
    forall v | 0 <= v < |s.file.vectors|
      ensures DeleteApplied(s, k).file.vectors[v] ==
              if s.file.vectors[v].owner == e.frame then s.file.vectors[v].(active := false) else s.file.vectors[v]
    {
      var row := s.file.vectors[v];
      var p := (row.space, v);
      if row.active {
        assert row.owner == e.frame <==>
          p in e.vectors by { assert RefMatches(s.file.vectors, e.frame, p) <==> row.owner == e.frame; }
      }
      if v in PriorVectors(e) {
        var q :| q in e.vectors && q.1 == v;
        assert RefMatches(s.file.vectors, e.frame, q);
      } else {
        assert p !in e.vectors;
      }
    }
  }

  lemma DeleteKeepsVectors(s: StoreState, k: KeyRef)
    requires Coherent(s) && k in s.index && !Blocked(Prior(s, k))
    ensures EntriesListVectors(DeleteApplied(s, k).file.vectors, DeleteApplied(s, k).index)
    ensures OwnersLive(DeleteApplied(s, k).file.frames, DeleteApplied(s, k).file.vectors)
  {
    DeleteKillsOwned(s, k);
    var t := DeleteApplied(s, k);
    hide IsKey, DeleteApplied, WellFormedFile, SchemaFits, CommitStatus, CollectionsFit, StagedFits;
    assert t.index == s.index - {k} && t.file.frames == KilledFrame(s.file.frames, s.index[k].frame) by {
      DeleteShape(s, k);
    }
    forall j, p: (SpaceId, VectorId) | j in t.index
      ensures RefMatches(t.file.vectors, t.index[j].frame, p) <==> RefMatches(s.file.vectors, s.index[j].frame, p)
    {
      assert s.index[j].frame != s.index[k].frame;
    }
  }

  lemma DeleteShape(s: StoreState, k: KeyRef)
    requires Coherent(s) && k in s.index
    ensures var t := DeleteApplied(s, k);
            && t.index == s.index - {k} && t.file.frames == KilledFrame(s.file.frames, s.index[k].frame)
            && t.dirty == s.dirty && t.reg == s.reg && t.file.flushedFrames == s.file.flushedFrames
            && t.file.flushedVectors == s.file.flushedVectors && t.file.spaces == s.file.spaces
            && t.file.collections == s.file.collections
            && t.staged == NotOwnedBy(s.staged, s.index[k].frame)
            && CollectionsFit(t.reg, t.file)
  {
  }

  lemma DeleteKeepsStaged(s: StoreState, k: KeyRef)
    requires Coherent(s) && k in s.index
    ensures forall i :: 0 <= i < |DeleteApplied(s, k).staged| ==>
            StagedFits(DeleteApplied(s, k), DeleteApplied(s, k).staged[i])
  {
    DeleteShape(s, k);
    var t := DeleteApplied(s, k);
    hide LiveKey, KilledFrame, WellFormedFile, EntriesListVectors, OwnersLive, DeleteApplied, NotOwnedBy, CommitStatus,
         SchemaFits, CollectionsFit, IndexMatchesFrames;
    forall i | 0 <= i < |t.staged| ensures StagedFits(t, t.staged[i]) {
      var v := t.staged[i];
      assert v in t.staged;
      assert v in s.staged && v.owner != s.index[k].frame;
      assert StagedFits(s, v) && v.key != k;
    }
  }

  lemma DeleteKeepsStatus(s: StoreState, k: KeyRef)
    requires Coherent(s) && k in s.index
    ensures var t := DeleteApplied(s, k);
            && CommitStatus(t.file, t.index, t.dirty) && SchemaFits(t.reg, t.file.spaces)
               && CollectionsFit(t.reg, t.file)
  {
    DeleteShape(s, k);
    hide LiveKey, KilledFrame, WellFormedFile, EntriesListVectors, OwnersLive, DeleteApplied, IndexMatchesFrames,
         StagedFits, SchemaFits;
  }

  /** Deleting a record that is not blocked keeps the store coherent. */
  lemma DeleteCoherent(s: StoreState, k: KeyRef)
    requires Coherent(s) && k in s.index && !Blocked(Prior(s, k))
    ensures Coherent(DeleteApplied(s, k))
  {
    DeleteKeepsFile(s, k);
    DeleteKeepsIndex(s, k);
    DeleteKeepsVectors(s, k);
    DeleteKeepsStaged(s, k);
    DeleteKeepsStatus(s, k);
    hide WellFormedFile, EntriesListVectors, OwnersLive, DeleteApplied, IndexMatchesFrames, CommitStatus, StagedFits,
         SchemaFits,
         CollectionsFit;
  }

  // ------------------------------------------------------------------ insert

  /** What `PlanFor` promises of a plan it returns. */
  ghost predicate PlanFits(s: StoreState, plan: PutPlan)
  {
    && plan.coll < |s.file.collections|
    && (forall i :: 0 <= i < |plan.ready| ==>
          plan.ready[i].0 < |s.file.spaces| && s.file.spaces[plan.ready[i].0].dim == |plan.ready[i].1|)
    && (forall i :: 0 <= i < |plan.deferred| ==>
          && plan.deferred[i].0 in s.reg.vectorSpaces
          && s.reg.vectorSpaces[plan.deferred[i].0].dim == |plan.deferred[i].1|)
  }

  ghost predicate Insertable(s: StoreState, plan: PutPlan, key: Bytes, parent: Option<FrameId>)
  {
    && Coherent(s) && PlanFits(s, plan) && IsKey(key) && (plan.coll, key) !in s.index
    && (parent.Some? ==> parent.value < |s.file.frames|)
  }

  lemma InsertShape(s: StoreState, plan: PutPlan, key: Bytes, rec: Record, parent: Option<FrameId>, now: int)
    ensures var t := Inserted(s, plan, key, rec, parent, now);
            var id := |s.file.frames|;
            && t.file.frames == s.file.frames + [NewFrame(plan, key, rec, parent, now)]
            && t.file.vectors == s.file.vectors + ReadyRows(id, plan.coll, plan.ready)
            && t.file.spaces == s.file.spaces && t.file.collections == s.file.collections
            && t.file.flushedVectors == s.file.flushedVectors
            && (t.file.flushedFrames == s.file.flushedFrames || t.file.flushedFrames == id + 1)
            && t.file.memberFrames == s.file.memberFrames && t.file.memberVectors == s.file.memberVectors
            && t.reg == s.reg
            && t.index == s.index[(plan.coll, key) := Entry(id, ReadyRefs(|s.file.vectors|, plan.ready), false)]
            && t.dirty == s.dirty + [(plan.coll, key)]
            && t.staged == s.staged + StagedRows((plan.coll, key), id, plan.deferred)
  {
  }

  lemma InsertKeepsFile(s: StoreState, plan: PutPlan, key: Bytes, rec: Record, parent: Option<FrameId>, now: int)
    requires Insertable(s, plan, key, parent)
    ensures WellFormedFile(Inserted(s, plan, key, rec, parent, now).file)
  {
    InsertShape(s, plan, key, rec, parent, now);
    hide Inserted, LiveKey, IsKey, SchemaFits, CollectionsFit, EntriesListVectors, OwnersLive, CommitStatus, StagedFits,
         IndexMatchesFrames;
  }

  lemma InsertKeepsIndex(s: StoreState, plan: PutPlan, key: Bytes, rec: Record, parent: Option<FrameId>, now: int)
    requires Insertable(s, plan, key, parent)
    ensures var t := Inserted(s, plan, key, rec, parent, now);
            IndexMatchesFrames(t.file.frames, t.index)
  {
    InsertShape(s, plan, key, rec, parent, now);
    hide Inserted, IsKey, SchemaFits, CollectionsFit, EntriesListVectors, OwnersLive, CommitStatus, StagedFits,
         WellFormedFile, PlanFits;
  }

  lemma InsertKeepsVectors(s: StoreState, plan: PutPlan, key: Bytes, rec: Record, parent: Option<FrameId>, now: int)
    requires Insertable(s, plan, key, parent)
    ensures var t := Inserted(s, plan, key, rec, parent, now);
            EntriesListVectors(t.file.vectors, t.index) && OwnersLive(t.file.frames, t.file.vectors)
  {
    InsertShape(s, plan, key, rec, parent, now);
    var t := Inserted(s, plan, key, rec, parent, now);
    var k, id, base := (plan.coll, key), |s.file.frames|, |s.file.vectors|;
    hide Inserted, IsKey, SchemaFits, CollectionsFit, CommitStatus, StagedFits, PlanFits;
    forall j | j in s.index ensures s.index[j].frame < id {
    }
    forall j, p: (SpaceId, VectorId) | j in s.index
      ensures RefMatches(t.file.vectors, s.index[j].frame, p) <==> RefMatches(s.file.vectors, s.index[j].frame, p)
    {
    }
    var refs := ReadyRefs(base, plan.ready);
    forall p: (SpaceId, VectorId) ensures p in refs <==> RefMatches(t.file.vectors, id, p) {
      if RefMatches(t.file.vectors, id, p) {
        assert p.1 >= base;
        assert refs[p.1 - base] == p;
      }
    }
  }

  lemma InsertKeepsStaged(s: StoreState, plan: PutPlan, key: Bytes, rec: Record, parent: Option<FrameId>, now: int)
    requires Insertable(s, plan, key, parent)
    ensures var t := Inserted(s, plan, key, rec, parent, now);
            forall i :: 0 <= i < |t.staged| ==> StagedFits(t, t.staged[i])
  {
    InsertShape(s, plan, key, rec, parent, now);
    var t := Inserted(s, plan, key, rec, parent, now);
    hide Inserted, IsKey, LiveKey, SchemaFits, CollectionsFit, CommitStatus, WellFormedFile, OwnersLive,
         EntriesListVectors,
         IndexMatchesFrames;
    forall i | 0 <= i < |t.staged| ensures StagedFits(t, t.staged[i]) {
      if i < |s.staged| {
        assert StagedFits(s, s.staged[i]);
      }
    }
  }

  lemma InsertKeepsStatus(s: StoreState, plan: PutPlan, key: Bytes, rec: Record, parent: Option<FrameId>, now: int)
    requires Insertable(s, plan, key, parent)
    ensures var t := Inserted(s, plan, key, rec, parent, now);
            CommitStatus(t.file, t.index, t.dirty) && SchemaFits(t.reg, t.file.spaces) && CollectionsFit(t.reg, t.file)
  {
    InsertShape(s, plan, key, rec, parent, now);
    hide Inserted, IsKey, LiveKey, OwnersLive, EntriesListVectors, IndexMatchesFrames, StagedFits, PlanFits;
  }

  lemma InsertCoherent(s: StoreState, plan: PutPlan, key: Bytes, rec: Record, parent: Option<FrameId>, now: int)
    requires Insertable(s, plan, key, parent)
    ensures Coherent(Inserted(s, plan, key, rec, parent, now))
  {
    InsertKeepsFile(s, plan, key, rec, parent, now);
    InsertKeepsIndex(s, plan, key, rec, parent, now);
    InsertKeepsVectors(s, plan, key, rec, parent, now);
    InsertKeepsStaged(s, plan, key, rec, parent, now);
    InsertKeepsStatus(s, plan, key, rec, parent, now);
    hide Inserted, SchemaFits, IndexMatchesFrames, EntriesListVectors, OwnersLive, CommitStatus, CollectionsFit,
         WellFormedFile,
         StagedFits;
  }

  // ------------------------------------------------------------------ put

  lemma {:induction false} FieldsFit(shape: Shape, fields: seq<(string, Value)>)
    requires FirstFieldError(shape, fields) == None
    ensures forall i :: 0 <= i < |fields| ==> FieldError(shape, fields[i].0, fields[i].1) == None
  {
    forall i | 0 <= i < |fields| ensures FieldError(shape, fields[i].0, fields[i].1) == None {
      NoErrorAt(shape, fields, i);
    }
  }

  ghost predicate AllFit(reg: Registry, vectors: seq<NamedVector>)
  {
    forall v :: v in vectors ==> v.0 in reg.vectorSpaces && reg.vectorSpaces[v.0].dim == |v.1|
  }

  lemma {:induction false} SplitFits(s: StoreState, vectors: seq<NamedVector>)
    requires SchemaFits(s.reg, s.file.spaces) && Registered(s.reg, vectors) && AllFit(s.reg, vectors)
    ensures forall r :: r in ReadyPart(s.reg, vectors) ==> r.0 < |s.file.spaces| && s.file.spaces[r.0].dim == |r.1|
    ensures AllFit(s.reg, DeferredPart(s.reg, vectors))
  {
    if vectors != [] {
      var before := vectors[..|vectors| - 1];
      assert forall v :: v in before ==> v in vectors;
      SplitFits(s, before);
      assert vectors[|vectors| - 1] in vectors;
    }
  }

  /** A plan that resolves names an existing collection, and only spaces of the right dimension. */
  lemma PlanForFits(s: StoreState, coll: string, rec: Record)
    requires Coherent(s) && PlanFor(s.reg, coll, rec).Ok?
    ensures PlanFits(s, PlanFor(s.reg, coll, rec).value)
  {
    hide WellFormedFile, IndexMatchesFrames, EntriesListVectors, OwnersLive, CommitStatus, StagedFits;
    var shape := s.reg.collections[coll].shape.value;
    var vectors := NamedVectors(shape, rec.fields);
    FieldsFit(shape, rec.fields);
    NamedVectorsFit(shape, rec.fields);
    assert AllFit(s.reg, vectors);
    SplitFits(s, vectors);
  }

  lemma PutAppliedCoherent(s: StoreState, plan: PutPlan, key: Bytes, rec: Record, parent: Option<FrameId>, now: int)
    requires Coherent(s) && PlanFits(s, plan) && IsKey(key) && !Blocked(Prior(s, (plan.coll, key)))
    requires parent.Some? ==> parent.value < |s.file.frames|
    ensures Coherent(PutApplied(s, plan, key, rec, parent, now))
  {
    var k := (plan.coll, key);
    if k in s.index {
      DeleteCoherent(s, k);
      hide Coherent, IsKey;
      assert PlanFits(DeleteApplied(s, k), plan);
      InsertCoherent(DeleteApplied(s, k), plan, key, rec, parent, now);
    } else {
      InsertCoherent(s, plan, key, rec, parent, now);
    }
  }

  /** A successful put keeps the store coherent, whatever the record and whatever the prior version. */
  lemma PutCoherent(s: StoreState, coll: string, key: Key, rec: Record, now: int)
    requires Coherent(s) && WellFormed(key) && PutTo(s, coll, key, rec, now).Ok?
    ensures Coherent(PutTo(s, coll, key, rec, now).value)
  {
    DecodeEncode(key);
    PlanForFits(s, coll, rec);
    var plan := PlanFor(s.reg, coll, rec).value;
    assert ParentOf(s, plan.coll, rec.parent).value.Some? ==>
      ParentOf(s, plan.coll, rec.parent).value.value < |s.file.frames|;
    PutAppliedCoherent(s, plan, Encode(key), rec, ParentOf(s, plan.coll, rec.parent).value, now);
  }

  // ------------------------------------------------------------------ commit

  ghost predicate ReadyFits(c: Calibration)
  {
    forall n :: n in c.vectorSpaces && c.vectorSpaces[n].state.Ready? ==>
      var id := c.vectorSpaces[n].state.id;
      id < |c.spaces| && c.spaces[id].name == n && c.spaces[id].dim == c.vectorSpaces[n].dim
  }

  /** Calibration only appends spaces and promotes deferred ones, and leaves every staged space ready. */
  lemma {:induction false} CalibrateAllKeeps(c: Calibration, staged: seq<StagedVector>, names: seq<string>)
    requires StagedRegistered(c.vectorSpaces, names) && ReadyFits(c)
    ensures var r := CalibrateAll(c, staged, names);
            && ReadyFits(r) && c.spaces <= r.spaces
            && (forall n :: n in c.vectorSpaces ==>
                  && r.vectorSpaces[n].dim == c.vectorSpaces[n].dim
                  && (r.vectorSpaces[n].state.Deferred? || c.vectorSpaces[n].state.Ready? ==>
                     r.vectorSpaces[n] == c.vectorSpaces[n]))
            && (forall n :: n in names ==> r.vectorSpaces[n].state.Ready?)
  {
    if names != [] {
      CalibrateAllKeeps(c, staged, names[..|names| - 1]);
    }
  }

  /** The vectors `PushAll` appends to the entry of `k`. */
  function PushedRefs(vectorSpaces: map<string, VectorSpace>, staged: seq<StagedVector>, k: KeyRef,
      base: nat): seq<(SpaceId, VectorId)>
  {
    if staged == [] then []
    else
      var n := |staged| - 1;
      PushedRefs(vectorSpaces, staged[..n], k, base)
      + (if staged[n].key == k then [(SpaceIdOf(vectorSpaces, staged[n].space), base + n)] else [])
  }

  lemma {:induction false} PushAllEntries(m: Index, vs: map<string, VectorSpace>, staged: seq<StagedVector>, base: nat)
    ensures PushAll(m, vs, staged, base).Keys == m.Keys
    ensures forall k :: k in m ==>
              PushAll(m, vs, staged, base)[k] == m[k].(vectors := m[k].vectors + PushedRefs(vs, staged, k, base))
  {
    if staged == [] {
      forall k | k in m ensures m[k].vectors + PushedRefs(vs, staged, k, base) == m[k].vectors {
      }
    } else {
      var n := |staged| - 1;
      PushAllEntries(m, vs, staged[..n], base);
      forall k | k in m
        ensures PushAll(m, vs, staged, base)[k] == m[k].(vectors := m[k].vectors + PushedRefs(vs, staged, k, base))
      {
        var ref := (SpaceIdOf(vs, staged[n].space), base + n);
        var before := PushedRefs(vs, staged[..n], k, base);
        assert (m[k].vectors + before) + [ref] == m[k].vectors + (before + [ref]);
        assert m[k].vectors + (before + []) == m[k].vectors + before;
      }
    }
  }

  lemma {:induction false} PushedRefsMembers(vs: map<string, VectorSpace>, staged: seq<StagedVector>, k: KeyRef,
      base: nat)
    ensures Distinct(PushedRefs(vs, staged, k, base))
    ensures forall p: (SpaceId, VectorId) {:trigger p in PushedRefs(vs, staged, k, base)} ::
              p in PushedRefs(vs, staged, k, base) <==>
              base <= p.1 < base + |staged| && staged[p.1 - base].key == k
                  && p.0 == SpaceIdOf(vs, staged[p.1 - base].space)
  {
    if staged != [] {
      var n := |staged| - 1;
      PushedRefsMembers(vs, staged[..n], k, base);
      hide SpaceIdOf;
      var before := PushedRefs(vs, staged[..n], k, base);
      var ref := (SpaceIdOf(vs, staged[n].space), base + n);
      assert ref !in before;
      forall p: (SpaceId, VectorId)
        ensures p in PushedRefs(vs, staged, k, base) <==>
                base <= p.1 < base + |staged| && staged[p.1 - base].key == k
                    && p.0 == SpaceIdOf(vs, staged[p.1 - base].space)
      {
        if base <= p.1 < base + n {
          assert staged[..n][p.1 - base] == staged[p.1 - base];
        }
      }
    }
  }

  /** The spaces and states after calibrating everything staged. */
  function CalibrationOf(s: StoreState): Calibration
    requires StagedRegistered(s.reg.vectorSpaces, StagedNames(s.staged))
  {
    CalibrateAll(Calibration(s.file.spaces, s.reg.vectorSpaces), s.staged, StagedNames(s.staged))
  }

  lemma CalibrationFacts(s: StoreState)
    requires Coherent(s)
    ensures StagedRegistered(s.reg.vectorSpaces, StagedNames(s.staged))
    ensures var c := CalibrationOf(s);
            && ReadyFits(c) && s.file.spaces <= c.spaces && c.vectorSpaces.Keys == s.reg.vectorSpaces.Keys
            && (forall n :: n in s.reg.vectorSpaces ==>
                  && c.vectorSpaces[n].dim == s.reg.vectorSpaces[n].dim
                  && (c.vectorSpaces[n].state.Deferred? || s.reg.vectorSpaces[n].state.Ready? ==>
                        c.vectorSpaces[n] == s.reg.vectorSpaces[n]))
            && (forall i :: 0 <= i < |s.staged| ==>
                  && s.staged[i].space in c.vectorSpaces && c.vectorSpaces[s.staged[i].space].state.Ready?
                  && c.vectorSpaces[s.staged[i].space].dim == |s.staged[i].values|)
  {
    hide WellFormedFile, IndexMatchesFrames, EntriesListVectors, OwnersLive, CommitStatus, CollectionsFit;
    StagedNamesKnown(s);
    StagedNamesMembers(s.staged);
    CalibrateAllKeeps(Calibration(s.file.spaces, s.reg.vectorSpaces), s.staged, StagedNames(s.staged));
  }

  lemma FlushShape(s: StoreState)
    requires Coherent(s)
    ensures StagedRegistered(s.reg.vectorSpaces, StagedNames(s.staged))
    ensures forall i :: 0 <= i < |s.staged| ==> s.staged[i].owner < |s.file.frames|
    ensures var c := CalibrationOf(s);
            Flushed(s) == StoreState(
              s.file.(spaces := c.spaces, vectors := s.file.vectors + FlushedRows(s.file, c.vectorSpaces, s.staged)),
              s.reg.(vectorSpaces := c.vectorSpaces),
              PushAll(s.index, c.vectorSpaces, s.staged, |s.file.vectors|),
              s.dirty, [])
  {
    CalibrationFacts(s);
  }

  lemma RowsKeepFile(file: FileState, spaces: seq<SpaceDesc>, rows: seq<VectorRow>)
    requires WellFormedFile(file) && file.spaces <= spaces
    requires forall i :: 0 <= i < |rows| ==>
               && rows[i].owner < |file.frames| && rows[i].coll == file.frames[rows[i].owner].coll
               && rows[i].space < |spaces| && |rows[i].values| == spaces[rows[i].space].dim
    ensures WellFormedFile(file.(spaces := spaces, vectors := file.vectors + rows))
  {
  }

  lemma FlushKeepsFile(s: StoreState)
    requires Coherent(s)
    ensures WellFormedFile(Flushed(s).file)
  {
    FlushShape(s);
    CalibrationFacts(s);
    var c := CalibrationOf(s);
    hide LiveKey, EntriesListVectors, OwnersLive, CommitStatus, IndexMatchesFrames, CalibrationOf, PushAll, Flushed,
         SchemaFits,
         CollectionsFit, WellFormedFile;
    RowsKeepFile(s.file, c.spaces, FlushedRows(s.file, c.vectorSpaces, s.staged));
  }

  lemma FlushKeepsSchema(s: StoreState)
    requires Coherent(s)
    ensures SchemaFits(Flushed(s).reg, Flushed(s).file.spaces) && CollectionsFit(Flushed(s).reg, Flushed(s).file)
  {
    FlushShape(s);
    CalibrationFacts(s);
    hide LiveKey, EntriesListVectors, OwnersLive, CommitStatus, IndexMatchesFrames, CalibrationOf, PushAll, Flushed,
         WellFormedFile,
         StagedFits;
  }

  lemma PushKeepsIndex(frames: seq<Frame>, m: Index, vs: map<string, VectorSpace>, staged: seq<StagedVector>, base: nat)
    requires IndexMatchesFrames(frames, m)
    ensures IndexMatchesFrames(frames, PushAll(m, vs, staged, base))
  {
    PushAllEntries(m, vs, staged, base);
    hide LiveKey, PushAll, PushedRefs;
  }

  /** Committed entries own no staged vectors, so a flush leaves them alone. */
  lemma {:induction false} PushKeepsCommitted(m: Index, vs: map<string, VectorSpace>, staged: seq<StagedVector>,
      base: nat)
    requires forall i :: 0 <= i < |staged| ==> staged[i].key in m && !m[staged[i].key].committed
    ensures PushAll(m, vs, staged, base).Keys == m.Keys
    ensures forall k :: k in m ==> PushAll(m, vs, staged, base)[k].committed == m[k].committed
    ensures forall k :: k in m && m[k].committed ==> PushAll(m, vs, staged, base)[k] == m[k]
  {
    if staged != [] {
      PushKeepsCommitted(m, vs, staged[..|staged| - 1], base);
    }
  }

  lemma FlushKeepsIndex(s: StoreState)
    requires Coherent(s)
    ensures IndexMatchesFrames(Flushed(s).file.frames, Flushed(s).index)
  {
    FlushShape(s);
    hide EntriesListVectors, OwnersLive, CalibrationOf, PushAll, Flushed, SchemaFits, WellFormedFile, CollectionsFit,
         CommitStatus,
         IndexMatchesFrames, StagedFits;
    PushKeepsIndex(s.file.frames, s.index, CalibrationOf(s).vectorSpaces, s.staged, |s.file.vectors|);
  }

  lemma StatusKept(file: FileState, file': FileState, m: Index, m': Index, dirty: seq<KeyRef>)
    requires CommitStatus(file, m, dirty) && m'.Keys == m.Keys
    requires file'.flushedFrames == file.flushedFrames && file'.flushedVectors == file.flushedVectors
    requires forall k :: k in m ==> m'[k].committed == m[k].committed
    requires forall k :: k in m && m[k].committed ==> m'[k] == m[k]
    ensures CommitStatus(file', m', dirty)
  {
  }

  lemma FlushKeepsStatus(s: StoreState)
    requires Coherent(s)
    ensures CommitStatus(Flushed(s).file, Flushed(s).index, Flushed(s).dirty)
  {
    FlushShape(s);
    hide LiveKey, EntriesListVectors, OwnersLive, CalibrationOf, PushAll, Flushed, SchemaFits, WellFormedFile,
         CollectionsFit,
         CommitStatus, IndexMatchesFrames;
    PushKeepsCommitted(s.index, CalibrationOf(s).vectorSpaces, s.staged, |s.file.vectors|);
    StatusKept(s.file, Flushed(s).file, s.index, Flushed(s).index, s.dirty);
  }

  /** Among staged vectors, the owner and the key say the same. */
  lemma StagedOwnerIsKey(s: StoreState, k: KeyRef)
    requires Coherent(s) && k in s.index
    ensures forall i :: 0 <= i < |s.staged| ==> (s.staged[i].owner == s.index[k].frame <==> s.staged[i].key == k)
  {
    hide IsKey, WellFormedFile, EntriesListVectors, OwnersLive, SchemaFits, CollectionsFit, CommitStatus;
    forall i | 0 <= i < |s.staged| ensures s.staged[i].owner == s.index[k].frame <==> s.staged[i].key == k {
      assert StagedFits(s, s.staged[i]);
    }
  }

  /** What an entry lists, and what it lists after the staged vectors of its key are pushed. */
  lemma FlushedEntry(file: FileState, staged: seq<StagedVector>, vs: map<string, VectorSpace>, k: KeyRef, e: Entry)
    requires forall i :: 0 <= i < |staged| ==> staged[i].owner < |file.frames|
    requires forall i :: 0 <= i < |staged| ==> (staged[i].owner == e.frame <==> staged[i].key == k)
    requires Distinct(e.vectors)
    requires forall p: (SpaceId, VectorId) {:trigger p in e.vectors} :: p in e.vectors <==>
             RefMatches(file.vectors, e.frame, p)
    ensures var refs := e.vectors + PushedRefs(vs, staged, k, |file.vectors|);
            && Distinct(refs)
            && forall p: (SpaceId, VectorId) {:trigger p in refs} ::
                 p in refs <==> RefMatches(file.vectors + FlushedRows(file, vs, staged), e.frame, p)
  {
    var base := |file.vectors|;
    var held, pushed := e.vectors, PushedRefs(vs, staged, k, base);
    var vectors := file.vectors + FlushedRows(file, vs, staged);
    PushedRefsMembers(vs, staged, k, base);
    hide PushedRefs, SpaceIdOf;
    forall p | p in held ensures p !in pushed {
      assert RefMatches(file.vectors, e.frame, p);
    }
    DistinctConcat(held, pushed);
    forall p: (SpaceId, VectorId) ensures p in held + pushed <==> RefMatches(vectors, e.frame, p) {
      assert p.1 < base ==> (RefMatches(vectors, e.frame, p) <==> RefMatches(file.vectors, e.frame, p));
      if base <= p.1 < |vectors| {
        assert vectors[p.1] == FlushedRows(file, vs, staged)[p.1 - base];
      }
    }
  }

  lemma FlushKeepsEntries(s: StoreState)
    requires Coherent(s)
    ensures EntriesListVectors(Flushed(s).file.vectors, Flushed(s).index)
  {
    FlushShape(s);
    var t, vs, base := Flushed(s), CalibrationOf(s).vectorSpaces, |s.file.vectors|;
    PushAllEntries(s.index, vs, s.staged, base);
    hide CalibrationOf, PushAll, Flushed, FlushedRows, SchemaFits, CollectionsFit, CommitStatus, IsKey, OwnersLive,
         WellFormedFile,
         IndexMatchesFrames, StagedFits, RefMatches, PushedRefs;
    forall k | k in s.index
      ensures Distinct(t.index[k].vectors)
      ensures forall p: (SpaceId, VectorId) :: p in t.index[k].vectors <==>
              RefMatches(t.file.vectors, t.index[k].frame, p)
    {
      StagedOwnerIsKey(s, k);
      FlushedEntry(s.file, s.staged, vs, k, s.index[k]);
      hide Coherent;
    }
  }

  lemma FlushKeepsOwners(s: StoreState)
    requires Coherent(s)
    ensures OwnersLive(Flushed(s).file.frames, Flushed(s).file.vectors)
  {
    FlushShape(s);
    var t, base := Flushed(s), |s.file.vectors|;
    hide CalibrationOf, PushAll, Flushed, SchemaFits, CollectionsFit, CommitStatus, IsKey, EntriesListVectors,
         WellFormedFile;
    forall v | base <= v < |t.file.vectors| ensures LiveKey(t.file.frames[t.file.vectors[v].owner]).Some? {
      assert StagedFits(s, s.staged[v - base]);
    }
  }

  /** Flushing keeps the store coherent, with nothing left staged. */
  lemma FlushCoherent(s: StoreState)
    requires Coherent(s)
    ensures Coherent(Flushed(s)) && Flushed(s).staged == [] && Flushed(s).file.frames == s.file.frames
    ensures Flushed(s).dirty == s.dirty
  {
    FlushKeepsFile(s);
    FlushKeepsSchema(s);
    FlushKeepsIndex(s);
    FlushKeepsStatus(s);
    FlushKeepsEntries(s);
    FlushKeepsOwners(s);
    FlushShape(s);
    hide LiveKey, EntriesListVectors, OwnersLive, IndexMatchesFrames, SchemaFits, WellFormedFile, CollectionsFit,
         CommitStatus,
         CalibrationOf, PushAll, Flushed, StagedFits;
  }

  /** A store with nothing pending: what every successful commit leaves. */
  ghost predicate Quiescent(s: StoreState)
  {
    && Coherent(s) && s.staged == [] && s.dirty == [] && Settled(s.file) && TimeOrdered(s.file.frames)
    && forall k :: k in s.index ==> s.index[k].committed
  }

  lemma MarkKeepsIndex(f: StoreState)
    requires Coherent(f)
    ensures var m := Marked(f.index, f.dirty);
            && IndexMatchesFrames(f.file.frames, m) && EntriesListVectors(f.file.vectors, m)
            && (forall k :: k in m ==>
               m[k].committed && m[k].frame == f.index[k].frame && m[k].vectors == f.index[k].vectors)
  {
    hide WellFormedFile, LiveKey, SchemaFits, CollectionsFit, OwnersLive, StagedFits, RefMatches;
  }

  lemma MarkStatus(f: StoreState)
    requires Coherent(f)
    ensures CommitStatus(CommittedFile(f.file), Marked(f.index, f.dirty), [])
  {
    MarkKeepsIndex(f);
    var m := Marked(f.index, f.dirty);
    hide WellFormedFile, LiveKey, SchemaFits, CollectionsFit, OwnersLive, StagedFits, Marked;
    forall k, p | k in m && p in m[k].vectors ensures p.1 < |f.file.vectors| {
      assert RefMatches(f.file.vectors, m[k].frame, p);
    }
  }

  lemma MarkCoherent(f: StoreState)
    requires Coherent(f) && f.staged == []
    ensures Coherent(f.(file := CommittedFile(f.file), index := Marked(f.index, f.dirty), dirty := []))
  {
    MarkKeepsIndex(f);
    MarkStatus(f);
    assert WellFormedFile(CommittedFile(f.file)) by {
      hide LiveKey, EntriesListVectors, OwnersLive, IndexMatchesFrames, SchemaFits;
    }
    hide WellFormedFile, IndexMatchesFrames, EntriesListVectors, OwnersLive, SchemaFits, CommitStatus, Marked,
         StagedFits;
  }

  /** A successful commit leaves a coherent store with nothing pending and every entry committed. */
  lemma CommitCoherent(s: StoreState, fsyncOk: bool)
    requires Coherent(s) && CommitOf(s, fsyncOk).Ok?
    ensures Quiescent(CommitOf(s, fsyncOk).value)
  {
    FlushCoherent(s);
    MarkCoherent(Flushed(s));
    MarkKeepsIndex(Flushed(s));
    hide Flushed, Coherent, Marked;
  }
}

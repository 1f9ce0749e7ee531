/**
 The single serialized writer (`src/db/writer.rs`).  Each method is proved to take the store from
 one coherent value to the next exactly as the functions of `Store` say; on the way it is proved
 that the engine never refuses any call the writer makes.
 */
module Writer {
  import opened Basics
  import opened Keys
  import opened Engine
  import opened Identity
  import opened Schema
  import opened Store
  import opened StoreProofs

  /** `vectors` with the first `n` of `ids` tombstoned. */
  ghost function KilledPrefix(vectors: seq<VectorRow>, refs: seq<(SpaceId, VectorId)>, n: nat): seq<VectorRow>
    requires n <= |refs|
  {
    KilledVectors(vectors, set i | 0 <= i < n :: refs[i].1)
  }

  /** The engine will accept the tombstoning of version `e`. */
  ghost predicate Deletable(fs: FileState, e: Entry)
  {
    && e.frame < |fs.frames| && fs.frames[e.frame].active
    && (forall p :: p in e.vectors ==> p.1 < |fs.vectors|)
    && (e.committed ==>
          && Distinct(e.vectors)
          && forall p :: p in e.vectors ==> p.1 < fs.flushedVectors && RefMatches(fs.vectors, e.frame, p))
  }

  /** The engine after a new version has been appended. */
  function WithVersion(fs: FileState, frame: Frame, ready: seq<(SpaceId, seq<real>)>): FileState
  {
    Appended(fs, frame).(vectors := fs.vectors + ReadyRows(|fs.frames|, frame.coll, ready))
  }

  class WriterCore {
    const file: ValiseFile
    const identity: IdentityIndex
    var reg: Registry
    var staged: seq<StagedVector>

    constructor (file: ValiseFile, identity: IdentityIndex, reg: Registry)
      ensures this.file == file && this.identity == identity && this.reg == reg && staged == []
    {
      this.file, this.identity, this.reg, staged := file, identity, reg, [];
    }

    ghost function State(): StoreState
      reads this, file, identity
    {
      StoreState(file.State(), reg, identity.entries, identity.uncommitted, staged)
    }

    /** Puts the vectors whose codec is ready; none can be refused. */
    method PutReady(owner: FrameId, ready: seq<(SpaceId, seq<real>)>) returns (refs: seq<(SpaceId, VectorId)>)
      requires owner < |file.frames| && file.frames[owner].active
      requires forall i :: 0 <= i < |ready| ==>
               ready[i].0 < |file.spaces| && file.spaces[ready[i].0].dim == |ready[i].1|
      modifies file
      ensures file.State() == old(file.State()).(vectors :=
                old(file.vectors) + ReadyRows(owner, old(file.frames)[owner].coll, ready))
      ensures refs == ReadyRefs(|old(file.vectors)|, ready)
    {
      refs := [];
      var coll := file.frames[owner].coll;
      assert ReadyRows(owner, coll, ready[..0]) == [];
      for i := 0 to |ready|
        invariant file.State() == old(file.State()).(vectors := old(file.vectors) + ReadyRows(owner, coll, ready[..i]))
        invariant refs == ReadyRefs(|old(file.vectors)|, ready[..i])
      {
        var r := file.PutVector(owner, ready[i].0, ready[i].1);
        assert r.Ok?;
        refs := refs + [(ready[i].0, r.value)];
        assert ReadyRows(owner, coll, ready[..i + 1]) ==
               ReadyRows(owner, coll, ready[..i]) + [VectorRow(owner, coll, ready[i].0, ready[i].1, true)];
      }
      assert ready[..|ready|] == ready;
    }

    /** Tombstones one version of a record: its vectors if committed, then its frame. */
    method TombstonePrior(prev: Entry)
      requires Deletable(file.State(), prev)
      modifies file
      ensures file.State() == Tombstoned(old(file.State()), prev)
    {
      ghost var vectors := file.vectors;
      KilledEnds(vectors, prev);
      if prev.committed {
        hide KilledPrefix, KilledVectors, PriorVectors;
        for i := 0 to |prev.vectors|
          invariant file.State() == old(file.State()).(vectors := KilledPrefix(vectors, prev.vectors, i))
        {
          RefStillActive(vectors, prev, i);
          var r := file.DeleteVector(prev.vectors[i].1);
          assert r.Ok?;
        }
      }
      var r := file.DeleteFrame(prev.frame);
      assert r.Ok?;
    }

    /** Create or update the record under `key`; every error is raised before anything changes. */
    method Put(coll: string, key: Key, rec: Record, now: int) returns (r: Result<()>)
      requires Coherent(State()) && WellFormed(key)
      modifies this, file, identity
      ensures PutTo(old(State()), coll, key, rec, now).Ok? ==>
                r == Ok(()) && State() == PutTo(old(State()), coll, key, rec, now).value
      ensures PutTo(old(State()), coll, key, rec, now).Err? ==>
                r == Err(PutTo(old(State()), coll, key, rec, now).error) && State() == old(State())
    {
      ghost var s := State();
      var plan := ResolvePlan(reg, coll, rec);
      if plan.Err? { return Err(plan.error); }
      PlanForFits(s, coll, rec);
      var k := (plan.value.coll, Encode(key));

      var existing := identity.Get(k);
      var parent: Option<FrameId> := None;
      if rec.parent.Some? {
        var p := identity.Get((plan.value.coll, Encode(rec.parent.value)));
        if p.None? { return Err(ParentNotFound); }
        parent := Some(p.value.frame);
      }
      if existing.Some? && !existing.value.committed && existing.value.vectors != [] {
        return Err(NotYetCommitted);
      }
      PutPlanned(plan.value, k.1, rec, existing, parent, now);
      r := Ok(());
    }

    /** The engine part of `put`: append the new version first, tombstone the old one last. */
    method ReplaceVersion(frame: Frame, ready: seq<(SpaceId, seq<real>)>, existing: Option<Entry>)
      returns (id: FrameId, refs: seq<(SpaceId, VectorId)>)
      requires frame.active && frame.coll < |file.collections|
      requires forall i :: 0 <= i < |ready| ==>
               ready[i].0 < |file.spaces| && file.spaces[ready[i].0].dim == |ready[i].1|
      requires existing.Some? ==> Deletable(file.State(), existing.value)
      modifies file
      ensures id == |old(file.frames)| && refs == ReadyRefs(|old(file.vectors)|, ready)
      ensures file.State() ==
              var filled := WithVersion(old(file.State()), frame, ready);
              if existing.Some? then Tombstoned(filled, existing.value) else filled
    {
      hide KilledFrame, KilledVectors, ReadyRefs;
      var r := file.PutFrame(frame);
      assert r.Ok?;
      id := r.value;
      refs := PutReady(id, ready);
      if existing.Some? {
        TombstonePrior(existing.value);
      }
    }

    /** The part of `put` that mutates: replace the version in the engine, restage, remap the key. */
    method PutPlanned(plan: PutPlan, key: Bytes, rec: Record, existing: Option<Entry>, parent: Option<FrameId>,
        now: int)
      requires Coherent(State()) && PlanFits(State(), plan)
      requires existing == Prior(State(), (plan.coll, key)) && !Blocked(existing)
      modifies this, file, identity
      ensures State() == PutApplied(old(State()), plan, key, rec, parent, now)
    {
      ghost var s := State();
      var k := (plan.coll, key);
      PriorIsDeletable(s, k);
      hide Coherent;
      AppendFirstAgrees(s, plan, key, rec, parent, now);
      FrameFields(plan, key, rec, parent, now);
      hide NewFrame, NotOwnedBy, ReadyRefs, StagedRows, Tombstoned, WithVersion, Appended, Deletable;
      var id, refs := ReplaceVersion(NewFrame(plan, key, rec, parent, now), plan.ready, existing);
      if existing.Some? {
        staged := NotOwnedBy(staged, existing.value.frame);
      }
      staged := staged + StagedRows(k, id, plan.deferred);
      identity.Insert(k, Entry(id, refs, false));
    }

    /** Tombstones the record under `key`; answers whether there was one. */
    method Delete(coll: string, key: Key) returns (r: Result<bool>)
      requires Coherent(State())
      modifies this, file, identity
      ensures DeleteFrom(old(State()), coll, key).Ok? ==>
                && r == Ok(DeleteFrom(old(State()), coll, key).value.1)
                && State() == DeleteFrom(old(State()), coll, key).value.0
      ensures DeleteFrom(old(State()), coll, key).Err? ==>
                r == Err(DeleteFrom(old(State()), coll, key).error) && State() == old(State())
    {
      if coll !in reg.collections { return Err(UnknownCollection); }
      var k := (reg.collections[coll].id, Encode(key));
      var entry := identity.Get(k);
      if entry.None? { return Ok(false); }
      if !entry.value.committed && entry.value.vectors != [] { return Err(NotYetCommitted); }
      hide Coherent, DeleteApplied;
      DeletePlanned(k, entry.value);
      r := Ok(true);
    }

    /** The part of `delete` that mutates. */
    method DeletePlanned(k: KeyRef, entry: Entry)
      requires Coherent(State()) && k in identity.entries && entry == identity.entries[k] && !Blocked(Some(entry))
      modifies this, file, identity
      ensures State() == DeleteApplied(old(State()), k)
    {
      PriorIsDeletable(State(), k);
      hide Coherent, Tombstoned, NotOwnedBy, Deletable, Blocked;
      TombstonePrior(entry);
      staged := NotOwnedBy(staged, entry.frame);
      var removed := identity.Remove(k);
    }

    // ---------------------------------------------------------------- commit

    /** Distinct space names of the staged vectors, first seen first. */
    method DistinctNames() returns (names: seq<string>)
      ensures names == StagedNames(staged)
    {
      names := [];
      for i := 0 to |staged|
        invariant names == StagedNames(staged[..i])
      {
        assert staged[..i + 1][..i] == staged[..i];
        if staged[i].space !in names {
          names := names + [staged[i].space];
        }
      }
      assert staged[..|staged|] == staged;
    }

    /** The first `limit` staged vectors of a space: what its codec is fitted on. */
    method TakeSample(name: string, limit: nat) returns (sample: seq<seq<real>>)
      ensures sample == SampleOf(staged, name, limit)
    {
      sample := [];
      for i := 0 to |staged|
        invariant sample == SampleOf(staged[..i], name, limit)
      {
        assert staged[..i + 1][..i] == staged[..i];
        if staged[i].space == name && |sample| < limit {
          sample := sample + [staged[i].values];
        }
      }
      assert staged[..|staged|] == staged;
    }

    /** Fits a codec for each deferred space and registers it; the sample is never empty. */
    method CalibrateSpaces(names: seq<string>) returns (vectorSpaces: map<string, VectorSpace>)
      requires names == StagedNames(staged) && StagedRegistered(reg.vectorSpaces, names)
               && TargetsPositive(reg.vectorSpaces)
      modifies file
      ensures var c := CalibrateAll(Calibration(old(file.spaces), reg.vectorSpaces), staged, names);
              file.State() == old(file.State()).(spaces := c.spaces) && vectorSpaces == c.vectorSpaces
    {
      vectorSpaces := reg.vectorSpaces;
      ghost var start := Calibration(file.spaces, reg.vectorSpaces);
      for i := 0 to |names|
        invariant StagedRegistered(reg.vectorSpaces, names[..i])
        invariant file.State() == old(file.State()).(spaces := file.spaces)
        invariant Calibration(file.spaces, vectorSpaces) == CalibrateAll(start, staged, names[..i])
        invariant vectorSpaces.Keys == reg.vectorSpaces.Keys && TargetsPositive(vectorSpaces)
      {
        assert names[..i + 1][..i] == names[..i];
        var name := names[i];
        assert name in names;
        match vectorSpaces[name].state
        case Ready(_) =>
        case Deferred(target) =>
          var sample := TakeSample(name, target);
          SampleNotEmpty(staged, name, target);
          assert sample != [];
          var id := file.RegisterSpace(SpaceDesc(name, vectorSpaces[name].dim, Fitted(sample)));
          vectorSpaces := vectorSpaces[name := vectorSpaces[name].(state := Ready(id))];
      }
      assert names[..|names|] == names;
    }

    /** Puts every staged vector; no owner has been tombstoned, so none is refused. */
    method PutStaged(vectorSpaces: map<string, VectorSpace>)
      requires forall i :: 0 <= i < |staged| ==>
                 && staged[i].owner < |file.frames| && file.frames[staged[i].owner].active
                 && SpaceIdOf(vectorSpaces, staged[i].space) < |file.spaces|
                 && file.spaces[SpaceIdOf(vectorSpaces, staged[i].space)].dim == |staged[i].values|
      modifies file
      ensures file.State() == old(file.State()).(vectors :=
                old(file.vectors) + FlushedRows(old(file.State()), vectorSpaces, staged))
    {
      ghost var fs := file.State();
      for i := 0 to |staged|
        invariant file.State() == fs.(vectors := fs.vectors + FlushedRows(fs, vectorSpaces, staged[..i]))
      {
        var v := staged[i];
        var id := SpaceIdOf(vectorSpaces, v.space);
        var r := file.PutVector(v.owner, id, v.values);
        assert r.Ok?;
        assert FlushedRows(fs, vectorSpaces, staged[..i + 1]) ==
               FlushedRows(fs, vectorSpaces, staged[..i])
                   + [VectorRow(v.owner, fs.frames[v.owner].coll, id, v.values, true)];
      }
      assert staged[..|staged|] == staged;
    }

    /** Attaches the new vector ids, which are consecutive, to their entries. */
    method AttachStaged(vectorSpaces: map<string, VectorSpace>, base: nat)
      modifies identity
      ensures identity.entries == PushAll(old(identity.entries), vectorSpaces, staged, base)
      ensures identity.uncommitted == old(identity.uncommitted)
    {
      for i := 0 to |staged|
        invariant identity.entries == PushAll(old(identity.entries), vectorSpaces, staged[..i], base)
        invariant identity.uncommitted == old(identity.uncommitted)
      {
        assert staged[..i + 1][..i] == staged[..i];
        identity.PushVector(staged[i].key, SpaceIdOf(vectorSpaces, staged[i].space), base + i);
      }
      assert staged[..|staged|] == staged;
    }

    /** Calibrates every deferred space with staged vectors, then puts all staged vectors. */
    method FlushDeferred()
      requires Coherent(State())
      modifies this, file, identity
      ensures State() == Flushed(old(State()))
    {
      ghost var s := State();
      FlushShape(s);
      StagedArePuttable(s);
      hide Coherent, Flushed, FlushedRows, PushAll, CalibrateAll;
      var base := |file.vectors|;
      var names := DistinctNames();
      var vectorSpaces := CalibrateSpaces(names);
      PutStaged(vectorSpaces);
      reg := reg.(vectorSpaces := vectorSpaces);
      AttachStaged(vectorSpaces, base);
      staged := [];
    }

    /** Flush, engine commit, mark.  After an error the batch must be discarded. */
    method Commit(fsyncOk: bool) returns (r: Result<()>)
      requires Coherent(State())
      modifies this, file, identity
      ensures CommitOf(old(State()), fsyncOk).Ok? ==> r == Ok(()) && State() == CommitOf(old(State()), fsyncOk).value
      ensures CommitOf(old(State()), fsyncOk).Err? ==> r == Err(CommitOf(old(State()), fsyncOk).error)
    {
      NothingToFlush(State());
      hide Coherent, Flushed;
      if staged != [] {
        FlushDeferred();
      }
      r := file.Commit(fsyncOk);
      if r.Err? { return; }
      identity.MarkAllCommitted();
    }
  }

  /** Tombstoning distinct vectors one by one never meets one already gone. */
  lemma RefStillActive(vectors: seq<VectorRow>, prev: Entry, i: nat)
    requires Distinct(prev.vectors) && i < |prev.vectors|
    requires forall p :: p in prev.vectors ==> RefMatches(vectors, prev.frame, p)
    ensures var v := prev.vectors[i].1;
            && v < |vectors| == |KilledPrefix(vectors, prev.vectors, i)|
            && KilledPrefix(vectors, prev.vectors, i)[v].active
            && KilledVectors(KilledPrefix(vectors, prev.vectors, i), {v}) == KilledPrefix(vectors, prev.vectors, i + 1)
    ensures prev.vectors[i] in prev.vectors
  {
    var v := prev.vectors[i].1;
    assert prev.vectors[i] in prev.vectors;
    forall j | 0 <= j < i ensures prev.vectors[j].1 != v {
      assert prev.vectors[j] in prev.vectors;
    }
    var before, after := (set j | 0 <= j < i :: prev.vectors[j].1), (set j | 0 <= j < i + 1 :: prev.vectors[j].1);
    assert after == before + {v};
  }

  lemma KilledEnds(vectors: seq<VectorRow>, prev: Entry)
    ensures KilledPrefix(vectors, prev.vectors, 0) == vectors
    ensures KilledPrefix(vectors, prev.vectors, |prev.vectors|) == KilledVectors(vectors, PriorVectors(prev))
  {
    assert (set i | 0 <= i < |prev.vectors| :: prev.vectors[i].1) == PriorVectors(prev);
  }

  /** In a coherent store, the current version of a record that is not blocked can be tombstoned. */
  lemma PriorIsDeletable(s: StoreState, k: KeyRef)
    requires Coherent(s) && !Blocked(Prior(s, k))
    ensures k in s.index ==> Deletable(s.file, s.index[k])
  {
    hide IsKey, WellFormedFile, SchemaFits, CollectionsFit, OwnersLive, StagedFits;
  }

  lemma FrameFields(plan: PutPlan, key: Bytes, rec: Record, parent: Option<FrameId>, now: int)
    ensures NewFrame(plan, key, rec, parent, now).active && NewFrame(plan, key, rec, parent, now).coll == plan.coll
  {
  }

  /** Appending before tombstoning ends in the same store as deleting and then inserting. */
  lemma AppendFirstAgrees(s: StoreState, plan: PutPlan, key: Bytes, rec: Record, parent: Option<FrameId>, now: int)
    requires var k := (plan.coll, key); k in s.index ==> Deletable(s.file, s.index[k])
    ensures var k := (plan.coll, key);
            var filled := WithVersion(s.file, NewFrame(plan, key, rec, parent, now), plan.ready);
            var t := PutApplied(s, plan, key, rec, parent, now);
            && t.file == (if k in s.index then Tombstoned(filled, s.index[k]) else filled)
            && t.reg == s.reg && t.dirty == s.dirty + [k]
            && t.index == s.index[k := Entry(|s.file.frames|, ReadyRefs(|s.file.vectors|, plan.ready), false)]
            && t.staged == (if k in s.index then NotOwnedBy(s.staged, s.index[k].frame) else s.staged)
                           + StagedRows(k, |s.file.frames|, plan.deferred)
  {
    var k := (plan.coll, key);
    FrameFields(plan, key, rec, parent, now);
    hide NewFrame, ReadyRows, ReadyRefs, StagedRows, NotOwnedBy;
    if k in s.index {
      var frame, rows := NewFrame(plan, key, rec, parent, now), ReadyRows(|s.file.frames|, plan.coll, plan.ready);
      assert KilledFrame(s.file.frames + [frame], s.index[k].frame) ==
        KilledFrame(s.file.frames, s.index[k].frame) + [frame];
      assert KilledVectors(s.file.vectors + rows, PriorVectors(s.index[k])) ==
             KilledVectors(s.file.vectors, PriorVectors(s.index[k])) + rows;
      var e := Entry(|s.file.frames|, ReadyRefs(|s.file.vectors|, plan.ready), false);
      assert (s.index - {k})[k := e] == s.index[k := e];
    }
  }

  lemma {:induction false} SampleNotEmpty(staged: seq<StagedVector>, name: string, limit: nat)
    requires name in StagedNames(staged) && limit > 0
    ensures SampleOf(staged, name, limit) != []
  {
    var n := |staged| - 1;
    if name in StagedNames(staged[..n]) {
      SampleNotEmpty(staged[..n], name, limit);
    }
  }

  lemma StagedOwnersActive(s: StoreState)
    requires Coherent(s)
    ensures forall i :: 0 <= i < |s.staged| ==>
            s.staged[i].owner < |s.file.frames| && s.file.frames[s.staged[i].owner].active
  {
    hide IsKey, WellFormedFile, CollectionsFit, OwnersLive, EntriesListVectors, CommitStatus, SchemaFits;
    forall i | 0 <= i < |s.staged| ensures s.staged[i].owner < |s.file.frames|
        && s.file.frames[s.staged[i].owner].active {
      assert StagedFits(s, s.staged[i]);
    }
  }

  lemma StagedArePuttable(s: StoreState)
    requires Coherent(s)
    ensures StagedRegistered(s.reg.vectorSpaces, StagedNames(s.staged)) && TargetsPositive(s.reg.vectorSpaces)
    ensures var c := CalibrationOf(s);
            forall i :: 0 <= i < |s.staged| ==>
              && s.staged[i].owner < |s.file.frames| && s.file.frames[s.staged[i].owner].active
              && SpaceIdOf(c.vectorSpaces, s.staged[i].space) < |c.spaces|
              && c.spaces[SpaceIdOf(c.vectorSpaces, s.staged[i].space)].dim == |s.staged[i].values|
  {
    CalibrationFacts(s);
    StagedOwnersActive(s);
    hide IsKey, WellFormedFile, CollectionsFit, OwnersLive, EntriesListVectors, CommitStatus, CalibrationOf,
         IndexMatchesFrames, StagedFits;
  }

  /** With nothing staged, a flush does nothing. */
  lemma NothingToFlush(s: StoreState)
    requires Coherent(s)
    ensures s.staged == [] ==> Flushed(s) == s
  {
    FlushShape(s);
  }
}

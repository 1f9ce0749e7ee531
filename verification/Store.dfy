/**
 The keyed store as a value: engine contents, schema, identity index and staged vectors, with one
 function per writer operation (`src/db/writer.rs`).  `Writer.dfy` proves the methods equal to
 these functions; `StoreProofs.dfy` proves what the functions promise.
 */
module Store {
  import opened Basics
  import opened Keys
  import opened Engine
  import opened Identity
  import opened Schema

  /** A vector held until its space is calibrated at commit. */
  datatype StagedVector = StagedVector(space: string, key: KeyRef, owner: FrameId, values: seq<real>)

  datatype StoreState = StoreState(
    file: FileState,
    reg: Registry,
    index: Index,
    dirty: seq<KeyRef>,
    staged: seq<StagedVector>)

  // ------------------------------------------------------------------ put

  function PriorVectors(e: Entry): set<VectorId>
  {
    set p | p in e.vectors :: p.1
  }

  function ReadyRows(owner: FrameId, coll: CollectionId, ready: seq<(SpaceId, seq<real>)>): (rows: seq<VectorRow>)
    ensures |rows| == |ready|
  {
    seq(|ready|, i requires 0 <= i < |ready| => VectorRow(owner, coll, ready[i].0, ready[i].1, true))
  }

  function ReadyRefs(base: nat, ready: seq<(SpaceId, seq<real>)>): (refs: seq<(SpaceId, VectorId)>)
    ensures |refs| == |ready|
  {
    seq(|ready|, i requires 0 <= i < |ready| => (ready[i].0, base + i))
  }

  function StagedRows(key: KeyRef, owner: FrameId, deferred: seq<NamedVector>): (rows: seq<StagedVector>)
    ensures |rows| == |deferred|
  {
    seq(|deferred|, i requires 0 <= i < |deferred| => StagedVector(deferred[i].0, key, owner, deferred[i].1))
  }

  /** Drops the staged vectors of a frame that has just been tombstoned. */
  function NotOwnedBy(staged: seq<StagedVector>, owner: FrameId): (r: seq<StagedVector>)
    ensures forall v :: v in r <==> v in staged && v.owner != owner
  {
    if staged == [] then []
    else
      var last := staged[|staged| - 1];
      NotOwnedBy(staged[..|staged| - 1], owner) + (if last.owner != owner then [last] else [])
  }

  function Prior(s: StoreState, k: KeyRef): Option<Entry>
  {
    if k in s.index then Some(s.index[k]) else None
  }

  /** An update or delete is refused while the key's own vectors are uncommitted. */
  predicate Blocked(e: Option<Entry>)
  {
    e.Some? && !e.value.committed && e.value.vectors != []
  }

  function NewFrame(plan: PutPlan, key: Bytes, rec: Record, parent: Option<FrameId>, now: int): Frame
  {
    Frame(plan.coll,
          if parent.Some? then Chunk else Document,
          Some(key),
          if FirstText(rec.fields).Some? then FirstText(rec.fields).value else [],
          if rec.createdAt.Some? then rec.createdAt.value else now,
          parent,
          true)
  }

  /** The engine after tombstoning one version of a record. */
  function Tombstoned(file: FileState, prev: Entry): FileState
    requires prev.frame < |file.frames|
  {
    file.(frames := KilledFrame(file.frames, prev.frame),
          vectors := if prev.committed then KilledVectors(file.vectors, PriorVectors(prev)) else file.vectors)
  }

  /** Adds a first version under a free key: a new frame, its ready vectors, its staged ones. */
  function Inserted(s: StoreState, plan: PutPlan, key: Bytes, rec: Record, parent: Option<FrameId>,
      now: int): StoreState
  {
    var k := (plan.coll, key);
    var id := |s.file.frames|;
    var appended := Appended(s.file, NewFrame(plan, key, rec, parent, now));
    StoreState(
      appended.(vectors := s.file.vectors + ReadyRows(id, plan.coll, plan.ready)),
      s.reg,
      s.index[k := Entry(id, ReadyRefs(|s.file.vectors|, plan.ready), false)],
      s.dirty + [k],
      s.staged + StagedRows(k, id, plan.deferred))
  }

  /** Removes the current version of `k`: its frame, its vectors, its entry, its staged vectors. */
  function DeleteApplied(s: StoreState, k: KeyRef): StoreState
    requires k in s.index && s.index[k].frame < |s.file.frames|
  {
    s.(file := Tombstoned(s.file, s.index[k]),
       index := s.index - {k},
       staged := NotOwnedBy(s.staged, s.index[k].frame))
  }

  /**
     A put that passed every check is a delete of the current version, if any, followed by an
     insertion.  The writer appends first and tombstones last, so that a failure in between leaves
     the old version intact; that the two orders agree is part of `WriterCore.Put`.
     */
  function PutApplied(s: StoreState, plan: PutPlan, key: Bytes, rec: Record, parent: Option<FrameId>,
      now: int): StoreState
    requires Prior(s, (plan.coll, key)).Some? ==> s.index[(plan.coll, key)].frame < |s.file.frames|
  {
    var k := (plan.coll, key);
    Inserted(if k in s.index then DeleteApplied(s, k) else s, plan, key, rec, parent, now)
  }

  function ParentOf(s: StoreState, coll: CollectionId, parent: Option<Key>): Result<Option<FrameId>>
  {
    if parent.None? then Ok(None)
    else if (coll, Encode(parent.value)) in s.index then Ok(Some(s.index[(coll, Encode(parent.value))].frame))
    else Err(ParentNotFound)
  }

  /** `put`: resolve the plan, look up parent and prior version, then append and tombstone. */
  function PutTo(s: StoreState, coll: string, key: Key, rec: Record, now: int): Result<StoreState>
    requires Coherent(s)
  {
    var plan := PlanFor(s.reg, coll, rec);
    if plan.Err? then Err(plan.error)
    else
      var k := (plan.value.coll, Encode(key));
      var parent := ParentOf(s, plan.value.coll, rec.parent);
      if parent.Err? then Err(parent.error)
      else if Blocked(Prior(s, k)) then Err(NotYetCommitted)
      else Ok(PutApplied(s, plan.value, k.1, rec, parent.value, now))
  }

  // ------------------------------------------------------------------ delete

  function DeleteFrom(s: StoreState, coll: string, key: Key): Result<(StoreState, bool)>
    requires Coherent(s)
  {
    if coll !in s.reg.collections then Err(UnknownCollection)
    else
      var k := (s.reg.collections[coll].id, Encode(key));
      var prev := Prior(s, k);
      if prev.None? then Ok((s, false))
      else if Blocked(prev) then Err(NotYetCommitted)
      else Ok((DeleteApplied(s, k), true))
  }

  // ------------------------------------------------------------------ commit

  /** Space names in first-seen order. */
  function StagedNames(staged: seq<StagedVector>): seq<string>
  {
    if staged == [] then []
    else
      var before := StagedNames(staged[..|staged| - 1]);
      var name := staged[|staged| - 1].space;
      if name in before then before else before + [name]
  }

  /** The calibration sample: the first `limit` staged vectors of the space. */
  function SampleOf(staged: seq<StagedVector>, name: string, limit: nat): seq<seq<real>>
  {
    if staged == [] then []
    else
      var before := SampleOf(staged[..|staged| - 1], name, limit);
      var last := staged[|staged| - 1];
      if last.space == name && |before| < limit then before + [last.values] else before
  }

  datatype Calibration = Calibration(spaces: seq<SpaceDesc>, vectorSpaces: map<string, VectorSpace>)

  /** Calibrates one space if it is still deferred: fit a codec, register the space, promote it. */
  function CalibrateOne(c: Calibration, staged: seq<StagedVector>, name: string): Calibration
    requires name in c.vectorSpaces
  {
    var space := c.vectorSpaces[name];
    match space.state
    case Ready(_) => c
    case Deferred(target) =>
      var desc := SpaceDesc(name, space.dim, Fitted(SampleOf(staged, name, target)));
      Calibration(c.spaces + [desc],
                  c.vectorSpaces[name := space.(state := Ready(|c.spaces|))])
  }

  predicate StagedRegistered(vectorSpaces: map<string, VectorSpace>, names: seq<string>)
  {
    forall n :: n in names ==> n in vectorSpaces
  }

  function CalibrateAll(c: Calibration, staged: seq<StagedVector>, names: seq<string>): (r: Calibration)
    requires StagedRegistered(c.vectorSpaces, names)
    ensures r.vectorSpaces.Keys == c.vectorSpaces.Keys
  {
    if names == [] then c
    else CalibrateOne(CalibrateAll(c, staged, names[..|names| - 1]), staged, names[|names| - 1])
  }

  function SpaceIdOf(vectorSpaces: map<string, VectorSpace>, name: string): SpaceId
  {
    if name in vectorSpaces && vectorSpaces[name].state.Ready? then vectorSpaces[name].state.id else 0
  }

  function FlushedRows(file: FileState, vectorSpaces: map<string, VectorSpace>,
      staged: seq<StagedVector>): (rows: seq<VectorRow>)
    requires forall i :: 0 <= i < |staged| ==> staged[i].owner < |file.frames|
    ensures |rows| == |staged|
  {
    seq(|staged|, i requires 0 <= i < |staged| =>
      VectorRow(staged[i].owner, file.frames[staged[i].owner].coll, SpaceIdOf(vectorSpaces, staged[i].space),
          staged[i].values, true))
  }

  /** Attaches the flushed vectors, numbered from `base`, to their entries. */
  function PushAll(m: Index, vectorSpaces: map<string, VectorSpace>, staged: seq<StagedVector>, base: nat): Index
  {
    if staged == [] then m
    else
      var n := |staged| - 1;
      Pushed(PushAll(m, vectorSpaces, staged[..n], base), staged[n].key,
             (SpaceIdOf(vectorSpaces, staged[n].space), base + n))
  }

  /** `flush_deferred`. */
  function Flushed(s: StoreState): StoreState
    requires Coherent(s)
  {
    StagedNamesKnown(s);
    var c := CalibrateAll(Calibration(s.file.spaces, s.reg.vectorSpaces), s.staged, StagedNames(s.staged));
    StoreState(
      s.file.(spaces := c.spaces, vectors := s.file.vectors + FlushedRows(s.file, c.vectorSpaces, s.staged)),
      s.reg.(vectorSpaces := c.vectorSpaces),
      PushAll(s.index, c.vectorSpaces, s.staged, |s.file.vectors|),
      s.dirty,
      [])
  }

  /** `commit`: calibrate and flush, engine commit, mark the batch committed. */
  function CommitOf(s: StoreState, fsyncOk: bool): Result<StoreState>
    requires Coherent(s)
  {
    var f := Flushed(s);
    if !TimeOrdered(f.file.frames) then Err(TimeOrder)
    else if !fsyncOk then Err(FsyncFailed)
    else Ok(f.(file := CommittedFile(f.file), index := Marked(f.index, f.dirty), dirty := []))
  }

  // ------------------------------------------------------------------ the invariant

  /** A deferred space wants at least one sample vector. */
  ghost predicate TargetsPositive(vectorSpaces: map<string, VectorSpace>)
  {
    forall n :: n in vectorSpaces && vectorSpaces[n].state.Deferred? ==> vectorSpaces[n].state.sampleTarget > 0
  }

  /** Ready spaces name a registered engine space of the same name and dimension. */
  ghost predicate SchemaFits(reg: Registry, spaces: seq<SpaceDesc>)
  {
    && TargetsPositive(reg.vectorSpaces)
    && (forall n :: n in reg.vectorSpaces && reg.vectorSpaces[n].state.Ready? ==>
          var id := reg.vectorSpaces[n].state.id;
          id < |spaces| && spaces[id].name == n && spaces[id].dim == reg.vectorSpaces[n].dim)
    && (forall c, f ::
          (c in reg.collections && reg.collections[c].shape.Some? && f in reg.collections[c].shape.value.fields
              && f.1.VectorField?) ==>
          f.1.space in reg.vectorSpaces && reg.vectorSpaces[f.1.space].dim == f.1.dim)
  }

  ghost predicate CollectionsFit(reg: Registry, file: FileState)
  {
    forall c :: c in reg.collections ==>
      reg.collections[c].id < |file.collections| && file.collections[reg.collections[c].id].name == c
  }

  /** The index and the active keyed frames are in one-to-one correspondence. */
  ghost predicate IndexMatchesFrames(frames: seq<Frame>, index: Index)
  {
    && (forall k :: k in index ==> index[k].frame < |frames| && LiveKey(frames[index[k].frame]) == Some(k))
    && (forall i :: 0 <= i < |frames| && LiveKey(frames[i]).Some? ==>
          LiveKey(frames[i]).value in index && index[LiveKey(frames[i]).value].frame == i)
  }

  ghost predicate RefMatches(vectors: seq<VectorRow>, owner: FrameId, p: (SpaceId, VectorId))
  {
    p.1 < |vectors| && vectors[p.1].active && vectors[p.1].owner == owner && vectors[p.1].space == p.0
  }

  /** Each entry lists exactly the active vectors its frame owns, each once. */
  ghost predicate EntriesListVectors(vectors: seq<VectorRow>, index: Index)
  {
    forall k :: k in index ==>
      && Distinct(index[k].vectors)
      && forall p: (SpaceId, VectorId) {:trigger p in index[k].vectors} :: p in index[k].vectors <==>
         RefMatches(vectors, index[k].frame, p)
  }

  /** No active vector is orphaned: its owner is the live frame of some key. */
  ghost predicate OwnersLive(frames: seq<Frame>, vectors: seq<VectorRow>)
  {
    forall v :: 0 <= v < |vectors| && vectors[v].active ==>
      vectors[v].owner < |frames| && LiveKey(frames[vectors[v].owner]).Some?
  }

  /** Committed entries are flushed and may be tombstoned; uncommitted ones are on the dirty list. */
  ghost predicate CommitStatus(file: FileState, index: Index, dirty: seq<KeyRef>)
  {
    && (forall k :: k in index && !index[k].committed ==> k in dirty)
    && (forall k :: k in index && index[k].committed ==>
          && index[k].frame < file.flushedFrames
          && forall p :: p in index[k].vectors ==> p.1 < file.flushedVectors)
  }

  /** A staged vector belongs to the uncommitted entry its key maps to. */
  ghost predicate StagedFits(s: StoreState, v: StagedVector)
  {
    && v.key in s.index && s.index[v.key].frame == v.owner && !s.index[v.key].committed
    && v.space in s.reg.vectorSpaces && s.reg.vectorSpaces[v.space].dim == |v.values|
  }

  /** What every operation keeps. */
  ghost predicate Coherent(s: StoreState)
  {
    && WellFormedFile(s.file)
    && SchemaFits(s.reg, s.file.spaces)
    && CollectionsFit(s.reg, s.file)
    && IndexMatchesFrames(s.file.frames, s.index)
    && EntriesListVectors(s.file.vectors, s.index)
    && OwnersLive(s.file.frames, s.file.vectors)
    && CommitStatus(s.file, s.index, s.dirty)
    && (forall i :: 0 <= i < |s.staged| ==> StagedFits(s, s.staged[i]))
  }

  lemma StagedNamesKnown(s: StoreState)
    requires forall i :: 0 <= i < |s.staged| ==> s.staged[i].space in s.reg.vectorSpaces
    ensures StagedRegistered(s.reg.vectorSpaces, StagedNames(s.staged))
  {
    StagedNamesMembers(s.staged);
  }

  lemma {:induction false} StagedNamesMembers(staged: seq<StagedVector>)
    ensures forall n :: n in StagedNames(staged) <==> exists i :: 0 <= i < |staged| && staged[i].space == n
  {
    if staged != [] {
      StagedNamesMembers(staged[..|staged| - 1]);
      var last := |staged| - 1;
      forall n | n in StagedNames(staged) ensures exists i :: 0 <= i < |staged| && staged[i].space == n {
        if n in StagedNames(staged[..last]) {
          var i :| 0 <= i < last && staged[..last][i].space == n;
          assert staged[i].space == n;
        } else {
          assert staged[last].space == n;
        }
      }
      forall i | 0 <= i < |staged| ensures staged[i].space in StagedNames(staged) {
        if i < last { assert staged[..last][i] == staged[i]; }
      }
    }
  }
}

/**
 Whole runs of the store: any sequence of definitions, declarations, puts, deletes, commits and
 compactions keeps the store coherent, and all but compaction act on it as on a plain map.
 */
module StoreRuns {
  import opened Basics
  import opened Keys
  import opened Engine
  import opened Identity
  import opened SchemaDoc
  import opened Schema
  import opened Store
  import opened StoreProofs
  import opened StoreView
  import opened Declare
  import opened Compact
  import CompactProofs

  /** Code the runs use but do not look into: JSON documents and vector decoding. */
  datatype Env = Env(read: DocReader, parse: SpecParser, decode: Decoder)

  datatype Op =
    | Define(space: string, dim: nat, spec: SpaceSpec)
    | Declare(coll: string, name: Bytes, shape: Shape, doc: Doc, payload: Bytes, now: int)
    | Put(coll: string, key: Key, rec: Record, now: int)
    | Delete(coll: string, key: Key)
    | Commit
    | Compact(recalibrate: bool)

  /** What the types of the caller's arguments guarantee: real keys, space handles of this store. */
  ghost predicate Legal(env: Env, s: StoreState, op: Op)
  {
    && KeepsLength(env.decode)
    && (op.Declare? ==> ShapeBound(s.reg, op.shape))
    && (op.Put? ==> WellFormed(op.key))
  }

  ghost function Step(env: Env, s: StoreState, op: Op): Result<StoreState>
    requires Coherent(s)
  {
    match op
    case Define(space, dim, spec) => DefineSpace(s, space, dim, spec)
    case Declare(coll, name, shape, doc, payload, now) =>
      DeclareTo(s, env.read, env.parse, coll, DocUri(name), shape, doc, payload, now)
    case Put(coll, key, rec, now) => PutTo(s, coll, key, rec, now)
    case Delete(coll, key) =>
      (match DeleteFrom(s, coll, key)
       case Ok(r) => Ok(r.0)
       case Err(e) => Err(e))
    case Commit => CommitOf(s, true)
    case Compact(recalibrate) => CompactOf(s, recalibrate, env.decode)
  }

  lemma StepCoherent(env: Env, s: StoreState, op: Op)
    requires Coherent(s) && Legal(env, s, op) && Step(env, s, op).Ok?
    ensures Coherent(Step(env, s, op).value)
  {
    hide Coherent, DefineSpace, DeclareTo, PutTo, CommitOf, CompactOf, DeleteApplied;
    match op
    case Define(space, dim, spec) => DefineCoherent(s, space, dim, spec);
    case Declare(coll, name, shape, doc, payload, now) =>
      DeclareCoherent(s, env.read, env.parse, coll, name, shape, doc, payload, now);
    case Put(coll, key, rec, now) => PutCoherent(s, coll, key, rec, now);
    case Delete(coll, key) =>
      var k := (s.reg.collections[coll].id, Encode(key));
      if k in s.index { DeleteCoherent(s, k); }
    case Commit => CommitCoherent(s, true);
    case Compact(recalibrate) => CompactProofs.CompactCoherent(s, recalibrate, env.decode);
  }

  /** `t` is reached from `s` by performing `ops`, all successful. */
  ghost predicate Reaches(env: Env, s: StoreState, ops: seq<Op>, t: StoreState)
    requires Coherent(s)
    decreases |ops|
  {
    if ops == [] then s == t
    else
      && Legal(env, s, ops[0]) && Step(env, s, ops[0]).Ok?
      && (StepCoherent(env, s, ops[0]); Reaches(env, Step(env, s, ops[0]).value, ops[1..], t))
  }

  lemma {:induction false} RunCoherent(env: Env, s: StoreState, ops: seq<Op>, t: StoreState)
    requires Coherent(s) && Reaches(env, s, ops, t)
    ensures Coherent(t)
    decreases |ops|
  {
    hide Coherent, Step, Legal;
    if ops != [] {
      StepCoherent(env, s, ops[0]);
      RunCoherent(env, Step(env, s, ops[0]).value, ops[1..], t);
    }
  }

  lemma EmptyStoreCoherent()
    ensures Coherent(StoreState(EMPTY_FILE, Registry(map[], {}, map[]), map[], [], []))
  {
  }

  // ------------------------------------------------------------------ the store is a map

  /** The store as its user thinks of it: a shape per collection, a record per collection and key. */
  datatype Abstract = Abstract(shapes: map<string, Option<Shape>>, recs: map<(string, Bytes), Rec>)

  function SpecStep(a: Abstract, op: Op): Abstract
  {
    match op
    case Declare(coll, _, shape, _, _, _) => a.(shapes := a.shapes[coll := Some(shape)])
    case Put(coll, key, rec, now) =>
      if coll in a.shapes && a.shapes[coll].Some?
      then a.(recs := a.recs[(coll, Encode(key)) := RecOf(a.shapes[coll].value, rec, now)]) else a
    case Delete(coll, key) => a.(recs := a.recs - {(coll, Encode(key))})
    case _ => a
  }

  function SpecRun(a: Abstract, ops: seq<Op>): Abstract
    decreases |ops|
  {
    if ops == [] then a else SpecRun(SpecStep(a, ops[0]), ops[1..])
  }

  /** The record stored under a collection's name and a key, found by scanning the frames. */
  function RecordIn(s: StoreState, coll: string, key: Bytes): Option<Rec>
  {
    if coll in s.reg.collections then Lookup(s, (s.reg.collections[coll].id, key)) else None
  }

  function AbstractIn(a: Abstract, coll: string, key: Bytes): Option<Rec>
  {
    if (coll, key) in a.recs then Some(a.recs[(coll, key)]) else None
  }

  ghost predicate Represents(s: StoreState, a: Abstract)
  {
    && a.shapes.Keys == s.reg.collections.Keys
    && (forall c :: c in a.shapes ==> a.shapes[c] == s.reg.collections[c].shape)
    && (forall c, b :: RecordIn(s, c, b) == AbstractIn(a, c, b))
  }

  lemma DistinctIds(s: StoreState, c: string)
    requires Coherent(s) && c in s.reg.collections
    ensures forall d :: d in s.reg.collections && d != c ==> s.reg.collections[c].id != s.reg.collections[d].id
  {
    hide IsKey, LiveKey, WellFormedFile, IndexMatchesFrames, EntriesListVectors, OwnersLive, SchemaFits, CommitStatus,
         StagedFits;
  }

  lemma FreshCollectionEmpty(s: StoreState, key: Bytes)
    requires Coherent(s)
    ensures Lookup(s, (|s.file.collections|, key)) == None
  {
    LookupByIndex(s, (|s.file.collections|, key));
    hide IsKey, EntriesListVectors, OwnersLive, SchemaFits, CollectionsFit, CommitStatus, StagedFits, Lookup, RecAt;
  }

  /** Same records, one collection possibly added or rebound. */
  lemma RebindRefines(s: StoreState, a: Abstract, t: StoreState, coll: string, shape: Option<Shape>)
    requires Represents(s, a)
    requires coll in t.reg.collections && t.reg.collections == s.reg.collections[coll := t.reg.collections[coll]]
    requires t.reg.collections[coll].shape == shape
    requires coll in s.reg.collections ==> t.reg.collections[coll].id == s.reg.collections[coll].id
    requires coll !in s.reg.collections ==> forall b :: Lookup(s, (t.reg.collections[coll].id, b)) == None
    requires forall k :: Lookup(t, k) == Lookup(s, k)
    ensures Represents(t, a.(shapes := a.shapes[coll := shape]))
  {
    hide Lookup;
    forall c, b ensures RecordIn(t, c, b) == AbstractIn(a, c, b) {
      assert RecordIn(s, c, b) == AbstractIn(a, c, b);
    }
    forall c, b ensures AbstractIn(a.(shapes := a.shapes[coll := shape]), c, b) == AbstractIn(a, c, b) {
    }
  }

  lemma SameRecords(s: StoreState, a: Abstract, t: StoreState)
    requires Represents(s, a) && t.reg.collections == s.reg.collections
    requires forall k :: Lookup(t, k) == Lookup(s, k)
    ensures Represents(t, a)
  {
    hide Lookup;
    forall c, b ensures RecordIn(t, c, b) == AbstractIn(a, c, b) {
      assert RecordIn(s, c, b) == AbstractIn(a, c, b);
    }
  }

  /** `recs` with the record under one key set or removed. */
  function Assigned(recs: map<(string, Bytes), Rec>, at: (string, Bytes), r: Option<Rec>): map<(string, Bytes), Rec>
  {
    if r.Some? then recs[at := r.value] else recs - {at}
  }

  /** Setting one key in the store is setting it in the map. */
  lemma AssignRefines(s: StoreState, a: Abstract, t: StoreState, coll: string, key: Bytes, r: Option<Rec>)
    requires Represents(s, a) && t.reg.collections == s.reg.collections && coll in s.reg.collections
    requires forall d :: d in s.reg.collections && d != coll ==> s.reg.collections[coll].id != s.reg.collections[d].id
    requires forall j :: Lookup(t, j) == if j == (s.reg.collections[coll].id, key) then r else Lookup(s, j)
    ensures Represents(t, a.(recs := Assigned(a.recs, (coll, key), r)))
  {
    var a' := a.(recs := Assigned(a.recs, (coll, key), r));
    hide Lookup;
    forall c, b ensures RecordIn(t, c, b) == AbstractIn(a', c, b) {
      assert RecordIn(s, c, b) == AbstractIn(a, c, b);
      if c in s.reg.collections {
        assert Lookup(t, (s.reg.collections[c].id, b)) ==
               if c == coll && b == key then r else Lookup(s, (s.reg.collections[c].id, b));
      }
    }
  }

  lemma PutKeepsCollections(s: StoreState, coll: string, key: Key, rec: Record, now: int)
    requires Coherent(s) && PutTo(s, coll, key, rec, now).Ok?
    ensures coll in s.reg.collections && s.reg.collections[coll].shape.Some?
    ensures PutTo(s, coll, key, rec, now).value.reg == s.reg
  {
    hide Coherent;
  }

  lemma PutRefines(s: StoreState, a: Abstract, coll: string, key: Key, rec: Record, now: int)
    requires Coherent(s) && Represents(s, a) && WellFormed(key) && PutTo(s, coll, key, rec, now).Ok?
    ensures Represents(PutTo(s, coll, key, rec, now).value, SpecStep(a, Put(coll, key, rec, now)))
  {
    PutKeepsCollections(s, coll, key, rec, now);
    var t := PutTo(s, coll, key, rec, now).value;
    var r := Some(RecOf(s.reg.collections[coll].shape.value, rec, now));
    assert SpecStep(a, Put(coll, key, rec, now)) == a.(recs := Assigned(a.recs, (coll, Encode(key)), r));
    DistinctIds(s, coll);
    hide *;
    forall j ensures Lookup(t, j) == if j == (s.reg.collections[coll].id, Encode(key)) then r else Lookup(s, j) {
      PutMeaning(s, coll, key, rec, now, j);
    }
    AssignRefines(s, a, t, coll, Encode(key), r);
  }

  lemma DeleteRefines(s: StoreState, a: Abstract, coll: string, key: Key)
    requires Coherent(s) && Represents(s, a) && DeleteFrom(s, coll, key).Ok?
    ensures Represents(DeleteFrom(s, coll, key).value.0, SpecStep(a, Delete(coll, key)))
  {
    var t := DeleteFrom(s, coll, key).value.0;
    var k := (s.reg.collections[coll].id, Encode(key));
    DeletedReg(s, coll, key);
    assert SpecStep(a, Delete(coll, key)) == a.(recs := Assigned(a.recs, (coll, Encode(key)), None));
    DistinctIds(s, coll);
    hide *;
    forall j ensures Lookup(t, j) == if j == k then None else Lookup(s, j) {
      if k in s.index { DeleteMeaning(s, k, j); } else { LookupByIndex(s, k); }
    }
    AssignRefines(s, a, t, coll, Encode(key), None);
  }

  lemma DeletedReg(s: StoreState, coll: string, key: Key)
    requires Coherent(s) && DeleteFrom(s, coll, key).Ok?
    ensures coll in s.reg.collections && DeleteFrom(s, coll, key).value.0.reg == s.reg
    ensures var k := (s.reg.collections[coll].id, Encode(key));
            && (k in s.index ==> !Blocked(Prior(s, k)) && s.index[k].frame < |s.file.frames|
                                 && DeleteFrom(s, coll, key).value.0 == DeleteApplied(s, k))
            && (k !in s.index ==> DeleteFrom(s, coll, key).value.0 == s)
  {
    hide IsKey, WellFormedFile, EntriesListVectors, OwnersLive, SchemaFits, CommitStatus, StagedFits, CollectionsFit;
  }

  lemma DeclareRefines(env: Env, s: StoreState, a: Abstract, coll: string, name: Bytes, shape: Shape, doc: Doc,
      payload: Bytes, now: int)
    requires Coherent(s) && Represents(s, a) && ShapeBound(s.reg, shape)
    requires DeclareTo(s, env.read, env.parse, coll, DocUri(name), shape, doc, payload, now).Ok?
    ensures Represents(DeclareTo(s, env.read, env.parse, coll, DocUri(name), shape, doc, payload, now).value,
                       SpecStep(a, Declare(coll, name, shape, doc, payload, now)))
  {
    DeclareShape(s, env.read, env.parse, coll, name, shape, doc, payload, now);
    var t := DeclareTo(s, env.read, env.parse, coll, DocUri(name), shape, doc, payload, now).value;
    BoundTo(s, coll, shape, doc);
    assert SpecStep(a, Declare(coll, name, shape, doc, payload, now)) == a.(shapes := a.shapes[coll := Some(shape)]);
    hide *;
    forall k ensures Lookup(t, k) == Lookup(s, k) {
      DeclareMeaning(s, env.read, env.parse, coll, name, shape, doc, payload, now, k);
    }
    if coll !in s.reg.collections {
      forall b ensures Lookup(s, (|s.file.collections|, b)) == None { FreshCollectionEmpty(s, b); }
    }
    RebindRefines(s, a, t, coll, Some(shape));
  }

  lemma BoundTo(s: StoreState, coll: string, shape: Shape, doc: Doc)
    ensures var cols := Bound(s, coll, shape, doc).collections;
            && cols == s.reg.collections[coll := CollectionRecord(CollectionIdFor(s, coll), Some(shape), Some(doc))]
            && CollectionIdFor(s, coll) == if coll in s.reg.collections then s.reg.collections[coll].id
               else |s.file.collections|
  {
  }

  /** Every step but compaction does to the records what it does to the map. */
  lemma StepRefines(env: Env, s: StoreState, a: Abstract, op: Op)
    requires Coherent(s) && Represents(s, a) && Legal(env, s, op) && Step(env, s, op).Ok? && !op.Compact?
    ensures Represents(Step(env, s, op).value, SpecStep(a, op))
  {
    hide Coherent, Represents, DeclareTo, PutTo, DeleteFrom, WellFormed, ShapeBound, SpecStep;
    match op
    case Define(space, dim, spec) =>
      forall k ensures Lookup(Step(env, s, op).value, k) == Lookup(s, k) { DefineMeaning(s, space, dim, spec, k); }
      assert SpecStep(a, op) == a by { NoRecordChanged(a, op); }
      SameRecords(s, a, Step(env, s, op).value);
    case Declare(coll, name, shape, doc, payload, now) => DeclareRefines(env, s, a, coll, name, shape, doc, payload,
        now);
    case Put(coll, key, rec, now) => PutRefines(s, a, coll, key, rec, now);
    case Delete(coll, key) => DeleteRefines(s, a, coll, key);
    case Commit =>
      forall k ensures Lookup(Step(env, s, op).value, k) == Lookup(s, k) { CommitMeaning(s, true, k); }
      assert SpecStep(a, op) == a by { NoRecordChanged(a, op); }
      SameRecords(s, a, Step(env, s, op).value);
  }

  lemma NoRecordChanged(a: Abstract, op: Op)
    requires op.Define? || op.Commit?
    ensures SpecStep(a, op) == a
  {
  }

  /** Over every run: whatever is staged, deferred, re-put or committed on the way, the records are the map's. */
  lemma {:induction false} RunRefines(env: Env, s: StoreState, a: Abstract, ops: seq<Op>, t: StoreState)
    requires Coherent(s) && Represents(s, a) && Reaches(env, s, ops, t)
    requires forall i :: 0 <= i < |ops| ==> !ops[i].Compact?
    ensures Represents(t, SpecRun(a, ops))
    decreases |ops|
  {
    hide Coherent, Represents, Legal, Step, SpecStep;
    if ops != [] {
      StepCoherent(env, s, ops[0]);
      StepRefines(env, s, a, ops[0]);
      RunRefines(env, Step(env, s, ops[0]).value, SpecStep(a, ops[0]), ops[1..], t);
    }
  }

  /** And once committed, a reopen rebuilds the very index the run ended with. */
  lemma RunThenCommit(env: Env, s: StoreState, a: Abstract, ops: seq<Op>, t: StoreState)
    requires Coherent(s) && Represents(s, a) && Reaches(env, s, ops, t)
    requires forall i :: 0 <= i < |ops| ==> !ops[i].Compact?
    requires Coherent(t) && CommitOf(t, true).Ok? && KeepsLength(env.decode)
    ensures var u := CommitOf(t, true).value;
            && Quiescent(u) && OwnersKnown(u.file) && SameIndex(RebuiltIndex(u.file), u.index)
            && Represents(u, SpecRun(a, ops))
  {
    NoRecordChanged(SpecRun(a, ops), Commit);
    assert Legal(env, t, Commit) && Step(env, t, Commit) == CommitOf(t, true);
    assert WellFormedFile(CommitOf(t, true).value.file) ==> OwnersKnown(CommitOf(t, true).value.file);
    hide *;
    RunRefines(env, s, a, ops, t);
    CommitCoherent(t, true);
    CommitRebuilds(t, true);
    StepRefines(env, t, SpecRun(a, ops), Commit);
  }

  // ------------------------------------------------------------------ time order over runs

  /** A put no earlier than anything active. */
  ghost predicate InTime(s: StoreState, op: Op)
  {
    op.Put? ==> forall i :: 0 <= i < |s.file.frames| && s.file.frames[i].active ==>
                  s.file.frames[i].createdAt <= (if op.rec.createdAt.Some? then op.rec.createdAt.value else op.now)
  }

  ghost predicate ReachesInTime(env: Env, s: StoreState, ops: seq<Op>, t: StoreState)
    requires Coherent(s)
    decreases |ops|
  {
    if ops == [] then s == t
    else
      && Legal(env, s, ops[0]) && InTime(s, ops[0]) && Step(env, s, ops[0]).Ok?
      && (StepCoherent(env, s, ops[0]); ReachesInTime(env, Step(env, s, ops[0]).value, ops[1..], t))
  }

  lemma KillKeepsTimeOrder(frames: seq<Frame>, i: FrameId)
    requires TimeOrdered(frames) && i < |frames|
    ensures TimeOrdered(KilledFrame(frames, i))
  {
  }

  /** A put appends one frame to the catalog, less the version it replaces. */
  lemma PutFrames(s: StoreState, coll: string, key: Key, rec: Record, now: int) returns (left: seq<Frame>, f: Frame)
    requires Coherent(s) && PutTo(s, coll, key, rec, now).Ok?
    ensures PutTo(s, coll, key, rec, now).value.file.frames == left + [f] && f.active
    ensures f.createdAt == if rec.createdAt.Some? then rec.createdAt.value else now
    ensures left == s.file.frames || exists i: nat :: i < |s.file.frames| && left == KilledFrame(s.file.frames, i)
  {
    var plan := PlanFor(s.reg, coll, rec).value;
    var k := (plan.coll, Encode(key));
    var parent := ParentOf(s, plan.coll, rec.parent).value;
    left := if k in s.index then KilledFrame(s.file.frames, s.index[k].frame) else s.file.frames;
    f := NewFrame(plan, k.1, rec, parent, now);
    assert f.createdAt == (if rec.createdAt.Some? then rec.createdAt.value else now) && f.active;
    hide Coherent, PlanFor, ParentOf, NewFrame, Encode, NotOwnedBy;
  }

  /** Putting a parent again tombstones the version its children link to: their links are dead, its key is not. */
  lemma RePutOrphans(s: StoreState, coll: string, key: Key, rec: Record, now: int, child: KeyRef)
    requires Coherent(s) && PutTo(s, coll, key, rec, now).Ok? && coll in s.reg.collections
    requires var k := (s.reg.collections[coll].id, Encode(key));
             && k in s.index && child in s.index && child != k
             && s.index[child].frame < |s.file.frames|
             && s.file.frames[s.index[child].frame].parent == Some(s.index[k].frame)
    ensures var k, t := (s.reg.collections[coll].id, Encode(key)), PutTo(s, coll, key, rec, now).value;
            k in t.index && child in t.index && !CompactProofs.ParentLive(t, child)
  {
    hide Coherent, PutTo, Encode;
    PutKills(s, coll, key, rec, now);
    var k, t := (s.reg.collections[coll].id, Encode(key)), PutTo(s, coll, key, rec, now).value;
    OldVersionDead(s.file.frames, t.file.frames, s.index[k].frame);
  }

  lemma OldVersionDead(before: seq<Frame>, after: seq<Frame>, i: FrameId)
    requires i < |before| < |after| && after[..|before|] == KilledFrame(before, i)
    ensures !after[i].active && forall j :: 0 <= j < |before| ==> after[j].parent == before[j].parent
  {
    forall j | 0 <= j < |before| ensures after[j] == KilledFrame(before, i)[j] {
      assert after[..|before|][j] == after[j];
    }
  }

  /** What a put over an existing version does to the old frame and to the other entries. */
  lemma PutKills(s: StoreState, coll: string, key: Key, rec: Record, now: int)
    requires Coherent(s) && PutTo(s, coll, key, rec, now).Ok? && coll in s.reg.collections
    requires (s.reg.collections[coll].id, Encode(key)) in s.index
    ensures var k, t := (s.reg.collections[coll].id, Encode(key)), PutTo(s, coll, key, rec, now).value;
            && s.index[k].frame < |s.file.frames| < |t.file.frames|
            && t.file.frames[..|s.file.frames|] == KilledFrame(s.file.frames, s.index[k].frame)
            && k in t.index && forall j :: j in s.index && j != k ==> j in t.index && t.index[j] == s.index[j]
  {
    var plan := PlanFor(s.reg, coll, rec).value;
    assert plan.coll == s.reg.collections[coll].id;
    assert s.index[(plan.coll, Encode(key))].frame < |s.file.frames| by {
      hide WellFormedFile, EntriesListVectors, OwnersLive, SchemaFits, CollectionsFit, CommitStatus, StagedFits, IsKey,
           Encode;
    }
    hide Coherent, PlanFor, ParentOf, NewFrame, Encode, NotOwnedBy;
  }

  lemma PutKeepsTimeOrder(s: StoreState, coll: string, key: Key, rec: Record, now: int)
    requires Coherent(s) && TimeOrdered(s.file.frames) && InTime(s, Put(coll, key, rec, now))
             && PutTo(s, coll, key, rec, now).Ok?
    ensures TimeOrdered(PutTo(s, coll, key, rec, now).value.file.frames)
  {
    var left, f := PutFrames(s, coll, key, rec, now);
    hide Coherent, PutTo;
    AdmissibleMeansOrdered(left, f);
  }

  lemma StepKeepsTimeOrder(env: Env, s: StoreState, op: Op)
    requires Coherent(s) && TimeOrdered(s.file.frames) && Legal(env, s, op) && InTime(s, op) && Step(env, s, op).Ok?
    ensures TimeOrdered(Step(env, s, op).value.file.frames)
  {
    assert forall k :: k in s.index ==> s.index[k].frame < |s.file.frames| by {
      hide WellFormedFile, EntriesListVectors, OwnersLive, SchemaFits, CollectionsFit, CommitStatus, StagedFits, Step;
    }
    hide Coherent, TimeOrdered, DeclareTo, PutTo, InTime, Flushed, NewFrames, NewVectors;
    match op
    case Define(space, dim, spec) =>
    case Declare(coll, name, shape, doc, payload, now) =>
      DeclareShape(s, env.read, env.parse, coll, name, shape, doc, payload, now);
    case Put(coll, key, rec, now) => PutKeepsTimeOrder(s, coll, key, rec, now);
    case Delete(coll, key) =>
      var k := (s.reg.collections[coll].id, Encode(key));
      if k in s.index { KillKeepsTimeOrder(s.file.frames, s.index[k].frame); }
    case Commit => FlushCoherent(s);
    case Compact(recalibrate) => CompactProofs.CompactedTimeOrdered(s.file);
  }

  /** Runs of declarations, time-ordered puts, deletes, commits and compactions stay in time order. */
  lemma {:induction false} RunKeepsTimeOrder(env: Env, s: StoreState, ops: seq<Op>, t: StoreState)
    requires Coherent(s) && TimeOrdered(s.file.frames) && ReachesInTime(env, s, ops, t)
    ensures Coherent(t) && TimeOrdered(t.file.frames) && CommitOf(t, true).Ok?
    decreases |ops|
  {
    hide TimeOrdered, Step, Legal, InTime;
    if ops != [] {
      hide Coherent;
      StepCoherent(env, s, ops[0]);
      StepKeepsTimeOrder(env, s, ops[0]);
      RunKeepsTimeOrder(env, Step(env, s, ops[0]).value, ops[1..], t);
    } else {
      FlushCoherent(s);
      hide Coherent, Flushed;
    }
  }
}

/**
 Declarations on a live store: defining a vector space, and binding a schema to a collection while
 staging its document (`src/db.rs`, `src/db/space.rs`, `src/db/schema_doc.rs`).
 */
module Declare {
  import opened Basics
  import opened Keys
  import opened Engine
  import opened Identity
  import opened SchemaDoc
  import opened Schema
  import opened Store
  import opened StoreView

  // ------------------------------------------------------------------ the operations, on values

  /** A codec fitted or given at definition, or one to be fitted on the first commit with vectors. */
  datatype SpaceSpec = Eager(codec: Codec) | Auto(sample: nat)

  /** Idempotent by name; the engine's sketches need a positive multiple of 64 dimensions. */
  function DefineSpace(s: StoreState, name: string, dim: nat, spec: SpaceSpec): Result<StoreState>
  {
    if name in s.reg.vectorSpaces then
      (if s.reg.vectorSpaces[name].dim == dim then Ok(s) else Err(DimensionMismatch))
    else if dim == 0 || dim % 64 != 0 then Err(BadDimension)
    else
      match spec
      case Eager(codec) =>
        Ok(s.(file := s.file.(spaces := s.file.spaces + [SpaceDesc(name, dim, codec)]),
              reg := s.reg.(vectorSpaces := s.reg.vectorSpaces[name := VectorSpace(dim, Ready(|s.file.spaces|))])))
      case Auto(sample) =>
        var target := if sample == 0 then 1 else sample;
        Ok(s.(reg := s.reg.(vectorSpaces := s.reg.vectorSpaces[name := VectorSpace(dim, Deferred(target))])))
  }

  /** Every vector field is bound to a space of this store with the dimension the field was given. */
  predicate ShapeBound(reg: Registry, shape: Shape)
  {
    forall i :: 0 <= i < |shape.fields| && shape.fields[i].1.VectorField? ==>
      shape.fields[i].1.space in reg.vectorSpaces && reg.vectorSpaces[shape.fields[i].1.space].dim ==
          shape.fields[i].1.dim
  }

  function CollectionIdFor(s: StoreState, coll: string): CollectionId
  {
    if coll in s.reg.collections then s.reg.collections[coll].id else |s.file.collections|
  }

  predicate NameTaken(fs: FileState, coll: string)
  {
    exists c :: 0 <= c < |fs.collections| && fs.collections[c].name == coll
  }

  function WithCollection(s: StoreState, coll: string, now: int): FileState
  {
    if coll in s.reg.collections then s.file
    else s.file.(collections := s.file.collections + [CollectionDesc(coll, now)])
  }

  function Bound(s: StoreState, coll: string, shape: Shape, doc: Doc): Registry
  {
    s.reg.(collections := s.reg.collections[coll := CollectionRecord(CollectionIdFor(s, coll), Some(shape), Some(doc))])
  }

  /** What a shape says of each field, in declared order: its name, its kind and its space. */
  function Signature(shape: Shape): seq<(string, string, string)>
  {
    seq(|shape.fields|, i requires 0 <= i < |shape.fields| =>
      var (name, field) := shape.fields[i];
      if field.TextField? then (name, "text", field.space) else (name, "vector", field.space))
  }

  /** The comparison with what this process already holds: the document, or failing that the bound shape. */
  function InProcess(reg: Registry, parse: SpecParser, coll: string, shape: Shape, doc: Doc): Result<bool>
  {
    if coll !in reg.collections then Ok(true)
    else
      var held := reg.collections[coll];
      if held.doc.Some? then Compatible(parse, held.doc.value, doc)
      else if held.shape.Some? && !(Signature(held.shape.value) <= Signature(shape)) then Err(SchemaMismatch)
      else Ok(true)
  }

  /**
   `collection`: check the declaration against both known documents before anything changes, create
   the collection if needed, stage the document, bind the shape.
   */
  function DeclareTo(s: StoreState, read: DocReader, parse: SpecParser, coll: string, uri: Bytes,
                     shape: Shape, doc: Doc, payload: Bytes, now: int): Result<StoreState>
  {
    if coll != [] && coll[0] == '~' then Err(ReservedName)
    else if InProcess(s.reg, parse, coll, shape, doc).Err? then Err(SchemaMismatch)
    else
      var plan := PlanSync(s.file, read, parse, uri, doc);
      if plan.Err? then Err(plan.error)
      else if coll !in s.reg.collections && NameTaken(s.file, coll) then Err(CollectionExists)
      else
        PlannedIsDoc(s.file, read, parse, uri, doc);
        var withColl := WithCollection(s, coll, now);
        Ok(s.(file := if plan.value.Write? then Synced(withColl, uri, payload, plan.value.replace, now) else withColl,
              reg := Bound(s, coll, shape, doc)))
  }

  lemma PlannedIsDoc(fs: FileState, read: DocReader, parse: SpecParser, uri: Bytes, doc: Doc)
    ensures var plan := PlanSync(fs, read, parse, uri, doc);
            plan.Ok? && plan.value.Write? && plan.value.replace.Some? ==>
              && SchemaCollectionId(fs).Some?
              && IsDoc(fs, SchemaCollectionId(fs).value, uri, plan.value.replace.value)
  {
  }

  // ------------------------------------------------------------------ edits that touch no record

  /** Only unkeyed frames are tombstoned or appended, and vectors stay as they are. */
  ghost predicate LeavesRecords(a: FileState, b: FileState)
  {
    && b.vectors == a.vectors && a.spaces <= b.spaces && a.collections <= b.collections
    && a.flushedFrames <= b.flushedFrames && b.flushedVectors == a.flushedVectors
    && |a.frames| <= |b.frames|
    && (forall i :: 0 <= i < |a.frames| ==>
          b.frames[i] == a.frames[i] || (LiveKey(a.frames[i]).None? && b.frames[i] == a.frames[i].(active := false)))
    && (forall i :: |a.frames| <= i < |b.frames| ==> LiveKey(b.frames[i]).None?)
  }

  lemma QuietIndex(a: FileState, b: FileState, m: Index)
    requires LeavesRecords(a, b) && IndexMatchesFrames(a.frames, m)
    ensures IndexMatchesFrames(b.frames, m)
  {
    hide IsKey;
  }

  lemma QuietOwners(a: FileState, b: FileState)
    requires LeavesRecords(a, b) && OwnersLive(a.frames, a.vectors)
    ensures OwnersLive(b.frames, b.vectors)
  {
    hide IsKey;
  }

  /** Such an edit keeps the store coherent. */
  lemma QuietCoherent(s: StoreState, b: FileState, reg: Registry)
    requires Coherent(s) && LeavesRecords(s.file, b) && WellFormedFile(b)
    requires SchemaFits(reg, b.spaces) && CollectionsFit(reg, b)
    requires forall n :: n in s.reg.vectorSpaces ==>
             n in reg.vectorSpaces && reg.vectorSpaces[n].dim == s.reg.vectorSpaces[n].dim
    ensures Coherent(s.(file := b, reg := reg))
  {
    QuietIndex(s.file, b, s.index);
    QuietOwners(s.file, b);
    var t := s.(file := b, reg := reg);
    hide WellFormedFile, SchemaFits, CollectionsFit, IndexMatchesFrames, OwnersLive, EntriesListVectors, LiveKey;
    forall i | 0 <= i < |t.staged| ensures StagedFits(t, t.staged[i]) {
      assert StagedFits(s, s.staged[i]);
    }
  }

  /** And every key keeps its record. */
  lemma QuietMeaning(s: StoreState, b: FileState, reg: Registry, k: KeyRef)
    requires Coherent(s) && LeavesRecords(s.file, b) && WellFormedFile(b)
    requires Coherent(s.(file := b, reg := reg))
    ensures Lookup(s.(file := b, reg := reg), k) == Lookup(s, k)
  {
    var t := s.(file := b, reg := reg);
    LookupByIndex(s, k);
    LookupByIndex(t, k);
    if k in s.index {
      assert s.index[k].frame < |s.file.frames| && LiveKey(s.file.frames[s.index[k].frame]).Some? by {
        hide IsKey, WellFormedFile, EntriesListVectors, OwnersLive, SchemaFits, CollectionsFit, CommitStatus,
             StagedFits;
      }
      QuietRec(s, b, s.index[k].frame);
    }
    hide *;
  }

  lemma QuietRec(s: StoreState, b: FileState, i: FrameId)
    requires WellFormedFile(s.file) && LeavesRecords(s.file, b) && i < |s.file.frames|
             && LiveKey(s.file.frames[i]).Some?
    ensures i < |b.frames| && forall reg :: RecAt(s.(file := b, reg := reg), i) == RecAt(s, i)
  {
    EngineVectorsSame(s.file.vectors, b.vectors, s.file.spaces, b.spaces, i);
    hide EngineVectors, StagedVectors, IsKey;
  }

  // ------------------------------------------------------------------ defining a space

  lemma DefineCoherent(s: StoreState, name: string, dim: nat, spec: SpaceSpec)
    requires Coherent(s) && DefineSpace(s, name, dim, spec).Ok?
    ensures Coherent(DefineSpace(s, name, dim, spec).value)
    ensures LeavesRecords(s.file, DefineSpace(s, name, dim, spec).value.file)
    ensures WellFormedFile(DefineSpace(s, name, dim, spec).value.file)
  {
    var t := DefineSpace(s, name, dim, spec).value;
    assert WellFormedFile(t.file) && LeavesRecords(s.file, t.file) && CollectionsFit(t.reg, t.file) by {
      hide IsKey, LiveKey, IndexMatchesFrames, EntriesListVectors, OwnersLive, SchemaFits, CommitStatus, StagedFits;
    }
    assert SchemaFits(t.reg, t.file.spaces) by {
      hide IsKey, LiveKey, IndexMatchesFrames, EntriesListVectors, OwnersLive, WellFormedFile, CommitStatus,
           StagedFits, CollectionsFit;
    }
    assert t == s.(file := t.file, reg := t.reg);
    assert forall n :: n in s.reg.vectorSpaces ==>
      n in t.reg.vectorSpaces && t.reg.vectorSpaces[n].dim == s.reg.vectorSpaces[n].dim;
    hide Coherent, DefineSpace, WellFormedFile, LeavesRecords, CollectionsFit, SchemaFits;
    QuietCoherent(s, t.file, t.reg);
  }

  lemma DefineMeaning(s: StoreState, name: string, dim: nat, spec: SpaceSpec, k: KeyRef)
    requires Coherent(s) && DefineSpace(s, name, dim, spec).Ok?
    ensures Lookup(DefineSpace(s, name, dim, spec).value, k) == Lookup(s, k)
  {
    DefineCoherent(s, name, dim, spec);
    var t := DefineSpace(s, name, dim, spec).value;
    assert t == s.(file := t.file, reg := t.reg);
    hide *;
    QuietMeaning(s, t.file, t.reg, k);
  }

  // ------------------------------------------------------------------ declaring a collection

  lemma CollectionAdded(s: StoreState, coll: string, now: int)
    requires WellFormedFile(s.file) && (coll !in s.reg.collections ==> !NameTaken(s.file, coll))
    ensures WellFormedFile(WithCollection(s, coll, now)) && LeavesRecords(s.file, WithCollection(s, coll, now))
  {
    hide IsKey;
  }

  lemma SyncLeavesRecords(fs: FileState, name: Bytes, payload: Bytes, replace: Option<FrameId>, now: int)
    requires WellFormedFile(fs) && (replace.Some? ==> IsDoc(fs, SchemaCollectionAfter(fs), DocUri(name), replace.value))
    ensures var t := Synced(fs, DocUri(name), payload, replace, now); LeavesRecords(fs, t)
  {
    DocUriIsNoKey(name);
    assert fs.flushedFrames <= |fs.frames|;
    hide WellFormedFile, DocUri, IsKey, Watermark;
  }

  lemma SyncWellFormed(fs: FileState, uri: Bytes, payload: Bytes, replace: Option<FrameId>, now: int)
    requires WellFormedFile(fs) && (replace.Some? ==> replace.value < |fs.frames|)
    ensures WellFormedFile(Synced(fs, uri, payload, replace, now))
  {
    var a := WithSchemaCollection(fs, now);
    assert WellFormedFile(a);
    var b := a.(frames := Replaced(fs.frames, replace));
    assert WellFormedFile(b);
    hide WithSchemaCollection, Watermark, Replaced;
    var f := DocFrame(SchemaCollectionAfter(fs), uri, payload, Watermark(b.frames));
    AppendedWellFormed(b, f);
  }

  lemma AppendedWellFormed(fs: FileState, f: Frame)
    requires WellFormedFile(fs) && f.coll < |fs.collections| && f.parent == None
    ensures WellFormedFile(Appended(fs, f))
  {
  }

  /** The collection list only grows, so ids keep their meaning; a new name gets its own id. */
  lemma BoundFits(s: StoreState, coll: string, shape: Shape, doc: Doc, b: FileState)
    requires Coherent(s) && ShapeBound(s.reg, shape) && s.file.spaces == b.spaces
    requires s.file.collections <= b.collections
    requires coll !in s.reg.collections ==>
             |s.file.collections| < |b.collections| && b.collections[|s.file.collections|].name == coll
    ensures SchemaFits(Bound(s, coll, shape, doc), b.spaces) && CollectionsFit(Bound(s, coll, shape, doc), b)
  {
    hide IsKey, LiveKey, IndexMatchesFrames, EntriesListVectors, OwnersLive, WellFormedFile, CommitStatus, StagedFits;
  }

  lemma DeclareShape(s: StoreState, read: DocReader, parse: SpecParser, coll: string, name: Bytes,
                     shape: Shape, doc: Doc, payload: Bytes, now: int)
    requires Coherent(s) && DeclareTo(s, read, parse, coll, DocUri(name), shape, doc, payload, now).Ok?
    ensures var t := DeclareTo(s, read, parse, coll, DocUri(name), shape, doc, payload, now).value;
            && t == s.(file := t.file, reg := Bound(s, coll, shape, doc))
            && WellFormedFile(t.file) && LeavesRecords(s.file, t.file) && t.file.spaces == s.file.spaces
            && (coll !in s.reg.collections ==>
                  |s.file.collections| < |t.file.collections| && t.file.collections[|s.file.collections|].name == coll)
            && (TimeOrdered(s.file.frames) ==> TimeOrdered(t.file.frames))
  {
    var t := DeclareTo(s, read, parse, coll, DocUri(name), shape, doc, payload, now).value;
    var plan := PlanSync(s.file, read, parse, DocUri(name), doc).value;
    PlannedIsDoc(s.file, read, parse, DocUri(name), doc);
    assert WellFormedFile(s.file);
    CollectionAdded(s, coll, now);
    var a := WithCollection(s, coll, now);
    assert a.spaces == s.file.spaces && a.frames == s.file.frames;
    hide Coherent, WellFormedFile, LeavesRecords, PlanSync;
    if plan.Write? {
      if plan.replace.Some? {
        SameSchemaCollection(s.file, a);
      }
      SyncLeavesRecords(a, name, payload, plan.replace, now);
      SyncWellFormed(a, DocUri(name), payload, plan.replace, now);
      LeavesRecordsTransitive(s.file, a, t.file);
      if TimeOrdered(s.file.frames) {
        SyncKeepsTimeOrder(a, DocUri(name), payload, plan.replace, now);
      }
    }
  }

  lemma SameSchemaCollection(a: FileState, b: FileState)
    requires a.collections <= b.collections && SchemaCollectionId(a).Some?
    ensures SchemaCollectionAfter(b) == SchemaCollectionId(a).value
  {
    assert b.collections[SchemaCollectionId(a).value].name == SCHEMA_COLLECTION;
  }

  lemma LeavesRecordsTransitive(a: FileState, b: FileState, c: FileState)
    requires LeavesRecords(a, b) && LeavesRecords(b, c)
    ensures LeavesRecords(a, c)
  {
    hide IsKey;
  }

  lemma DeclareCoherent(s: StoreState, read: DocReader, parse: SpecParser, coll: string, name: Bytes,
                        shape: Shape, doc: Doc, payload: Bytes, now: int)
    requires Coherent(s) && ShapeBound(s.reg, shape)
    requires DeclareTo(s, read, parse, coll, DocUri(name), shape, doc, payload, now).Ok?
    ensures Coherent(DeclareTo(s, read, parse, coll, DocUri(name), shape, doc, payload, now).value)
  {
    DeclareShape(s, read, parse, coll, name, shape, doc, payload, now);
    var t := DeclareTo(s, read, parse, coll, DocUri(name), shape, doc, payload, now).value;
    assert s.file.collections <= t.file.collections;
    hide Coherent, DeclareTo, WellFormedFile, LeavesRecords, SchemaFits, CollectionsFit;
    BoundFits(s, coll, shape, doc, t.file);
    QuietCoherent(s, t.file, t.reg);
  }

  /** A declaration changes no record. */
  lemma DeclareMeaning(s: StoreState, read: DocReader, parse: SpecParser, coll: string, name: Bytes,
                       shape: Shape, doc: Doc, payload: Bytes, now: int, k: KeyRef)
    requires Coherent(s) && ShapeBound(s.reg, shape)
    requires DeclareTo(s, read, parse, coll, DocUri(name), shape, doc, payload, now).Ok?
    ensures Lookup(DeclareTo(s, read, parse, coll, DocUri(name), shape, doc, payload, now).value, k) == Lookup(s, k)
  {
    DeclareShape(s, read, parse, coll, name, shape, doc, payload, now);
    DeclareCoherent(s, read, parse, coll, name, shape, doc, payload, now);
    hide *;
    var t := DeclareTo(s, read, parse, coll, DocUri(name), shape, doc, payload, now).value;
    QuietMeaning(s, t.file, t.reg, k);
  }
}

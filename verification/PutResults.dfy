/**
 What a put stores and when it is refused, said of the record's fields and of the file alone
 (`src/db/writer.rs`, `src/db/record.rs`).
 */
module PutResults {
  import opened Basics
  import opened Keys
  import opened Engine
  import opened Identity
  import opened Schema
  import opened Store
  import opened StoreProofs
  import opened StoreView
  import opened StoreRuns
  import opened Declare
  import opened Compact
  import CompactProofs

  // ------------------------------------------------------------------ the fields of a record

  /** Field `j` is the one a name stands for. */
  predicate Named(fields: seq<(string, Field)>, name: string, j: nat)
  {
    j < |fields| && fields[j].0 == name && forall l :: 0 <= l < j ==> fields[l].0 != name
  }

  /** A value of its field's kind and dimension. */
  predicate Suits(field: Field, value: Value)
  {
    (field.TextField? && value.TextValue?) || (field.VectorField? && value.VectorValue? && |value.values| == field.dim)
  }

  ghost predicate FieldFits(shape: Shape, f: (string, Value))
  {
    exists j: nat :: Named(shape.fields, f.0, j) && Suits(shape.fields[j].1, f.1)
  }

  /** The value is the vector `v.1`, for a field bound to space `v.0`. */
  ghost predicate Carries(shape: Shape, f: (string, Value), v: NamedVector)
  {
    f.1 == VectorValue(v.1)
    && exists j: nat :: Named(shape.fields, f.0, j) && shape.fields[j].1.VectorField?
         && shape.fields[j].1.space == v.0
  }

  /** The positions at which a record carries a vector. */
  ghost function Carriers(shape: Shape, fields: seq<(string, Value)>, v: NamedVector): set<nat>
  {
    set i: nat | i < |fields| && Carries(shape, fields[i], v)
  }

  predicate FirstTextAt(fields: seq<(string, Value)>, i: nat)
  {
    i < |fields| && fields[i].1.TextValue? && forall j :: 0 <= j < i ==> fields[j].1.VectorValue?
  }

  lemma {:induction false} FoundByName(fields: seq<(string, Field)>, name: string, j: nat)
    requires Named(fields, name, j)
    ensures FieldNamed(fields, name) == Some(fields[j].1)
  {
    if j > 0 { FoundByName(fields[1..], name, j - 1); }
  }

  lemma {:induction false} NamedByFound(fields: seq<(string, Field)>, name: string) returns (j: nat)
    requires FieldNamed(fields, name).Some?
    ensures Named(fields, name, j) && FieldNamed(fields, name) == Some(fields[j].1)
  {
    if fields[0].0 == name {
      j := 0;
    } else {
      j := NamedByFound(fields[1..], name);
      assert forall l :: 0 < l < |fields| ==> fields[l] == fields[1..][l - 1];
      j := j + 1;
    }
  }

  lemma {:induction false} FirstTextIs(fields: seq<(string, Value)>, i: nat)
    requires FirstTextAt(fields, i)
    ensures FirstText(fields) == Some(fields[i].1.text)
  {
    if i > 0 { FirstTextIs(fields[1..], i - 1); }
  }

  lemma {:induction false} NoFirstText(fields: seq<(string, Value)>)
    requires forall i :: 0 <= i < |fields| ==> fields[i].1.VectorValue?
    ensures FirstText(fields) == None
  {
    if fields != [] { NoFirstText(fields[1..]); }
  }

  /** What one field adds to the vectors. */
  function Carried(shape: Shape, f: (string, Value)): seq<NamedVector>
  {
    match (FieldNamed(shape.fields, f.0), f.1)
    case (Some(VectorField(space, _)), VectorValue(values)) => [(space, values)]
    case _ => []
  }

  lemma CarriesIffCarried(shape: Shape, f: (string, Value), v: NamedVector)
    ensures multiset(Carried(shape, f))[v] == if Carries(shape, f, v) then 1 else 0
  {
    if FieldNamed(shape.fields, f.0).Some? { var j := NamedByFound(shape.fields, f.0); }
    if Carries(shape, f, v) {
      var j: nat :| Named(shape.fields, f.0, j) && shape.fields[j].1.VectorField? && shape.fields[j].1.space == v.0;
      FoundByName(shape.fields, f.0, j);
    }
  }

  lemma OneMoreField(shape: Shape, fields: seq<(string, Value)>, v: NamedVector)
    requires fields != []
    ensures NamedVectors(shape, fields) ==
            NamedVectors(shape, fields[..|fields| - 1]) + Carried(shape, fields[|fields| - 1])
    ensures |Carriers(shape, fields, v)| ==
            |Carriers(shape, fields[..|fields| - 1], v)| + if Carries(shape, fields[|fields| - 1], v) then 1 else 0
  {
    var n := |fields| - 1;
    hide Carries, FieldNamed;
    assert Carriers(shape, fields, v) ==
           Carriers(shape, fields[..n], v) + (if Carries(shape, fields[n], v) then {n} else {});
  }

  /** A record's vectors, counted field by field. */
  lemma {:induction false} VectorsAreCarried(shape: Shape, fields: seq<(string, Value)>, v: NamedVector)
    ensures multiset(NamedVectors(shape, fields))[v] == |Carriers(shape, fields, v)|
  {
    if fields == [] {
      assert Carriers(shape, fields, v) == {};
    } else {
      var n := |fields| - 1;
      VectorsAreCarried(shape, fields[..n], v);
      CarriesIffCarried(shape, fields[n], v);
      OneMoreField(shape, fields, v);
      hide Carries, Carried, Carriers, NamedVectors;
    }
  }

  // ------------------------------------------------------------------ what is stored

  /** A put stores the bytes of the first text, the vectors of every vector field, the time, and the parent's key. */
  lemma PutStores(s: StoreState, coll: string, key: Key, rec: Record, now: int)
    requires Coherent(s) && WellFormed(key) && PutTo(s, coll, key, rec, now).Ok?
    ensures coll in s.reg.collections && s.reg.collections[coll].shape.Some?
    ensures Lookup(PutTo(s, coll, key, rec, now).value, (s.reg.collections[coll].id, Encode(key))).Some?
    ensures var got := Lookup(PutTo(s, coll, key, rec, now).value, (s.reg.collections[coll].id, Encode(key))).value;
            && (forall i: nat :: FirstTextAt(rec.fields, i) ==> got.payload == rec.fields[i].1.text)
            && ((forall i :: 0 <= i < |rec.fields| ==> rec.fields[i].1.VectorValue?) ==> got.payload == [])
            && (forall v ::
                  got.vectors[v] == |Carriers(s.reg.collections[coll].shape.value, rec.fields, v)|)
            && got.createdAt == (if rec.createdAt.Some? then rec.createdAt.value else now)
            && got.role == (if rec.parent.Some? then Chunk else Document)
            && got.parent == (if rec.parent.Some? then Some(Encode(rec.parent.value)) else None)
  {
    PutKeepsCollections(s, coll, key, rec, now);
    var shape := s.reg.collections[coll].shape.value;
    PutMeaning(s, coll, key, rec, now, (s.reg.collections[coll].id, Encode(key)));
    forall i: nat | FirstTextAt(rec.fields, i) ensures FirstText(rec.fields) == Some(rec.fields[i].1.text) {
      FirstTextIs(rec.fields, i);
    }
    if forall i :: 0 <= i < |rec.fields| ==> rec.fields[i].1.VectorValue? { NoFirstText(rec.fields); }
    forall v ensures multiset(NamedVectors(shape, rec.fields))[v] == |Carriers(shape, rec.fields, v)| {
      VectorsAreCarried(shape, rec.fields, v);
    }
    hide Coherent, PutTo, Lookup, Encode, Carriers, NamedVectors, FirstText, FirstTextAt;
  }

  // ------------------------------------------------------------------ when a put is refused

  ghost predicate FieldsFit(shape: Shape, rec: Record)
  {
    forall i :: 0 <= i < |rec.fields| ==> FieldFits(shape, rec.fields[i])
  }

  predicate FirstTextFieldAt(fields: seq<(string, Field)>, j: nat)
  {
    j < |fields| && fields[j].1.TextField? && forall l :: 0 <= l < j ==> !fields[l].1.TextField?
  }

  /** A record with a text needs the text space of its shape. */
  ghost predicate TextReady(reg: Registry, shape: Shape, rec: Record)
  {
    forall i: nat, j: nat :: FirstTextAt(rec.fields, i) && FirstTextFieldAt(shape.fields, j) ==>
      shape.fields[j].1.space in reg.textSpaces
  }

  /** What a caller can check of a record before putting it. */
  ghost predicate Storable(reg: Registry, coll: string, rec: Record)
  {
    && coll in reg.collections && reg.collections[coll].shape.Some?
    && FieldsFit(reg.collections[coll].shape.value, rec) && TextReady(reg, reg.collections[coll].shape.value, rec)
  }

  /** The live version of a key owns a vector the engine has not committed. */
  ghost predicate PendingVersion(s: StoreState, k: KeyRef)
  {
    exists i: nat, v: nat :: i < |s.file.frames| && LiveKey(s.file.frames[i]) == Some(k) && OwnsPending(s.file, i, v)
  }

  ghost predicate OwnsPending(fs: FileState, i: FrameId, v: VectorId)
  {
    fs.flushedVectors <= v < |fs.vectors| && fs.vectors[v].active && fs.vectors[v].owner == i
  }

  /** An uncommitted entry lists uncommitted vectors only. */
  ghost predicate FreshEntriesPending(s: StoreState)
  {
    forall k, p :: k in s.index && !s.index[k].committed && p in s.index[k].vectors ==> p.1 >= s.file.flushedVectors
  }

  /** A put or delete is held back exactly while the live version owns an uncommitted vector. */
  lemma BlockedIsPending(s: StoreState, k: KeyRef)
    requires Coherent(s) && FreshEntriesPending(s)
    ensures Blocked(Prior(s, k)) <==> PendingVersion(s, k)
  {
    hide IsKey, LiveKey, WellFormedFile, OwnersLive, SchemaFits, CollectionsFit, StagedFits;
    if Blocked(Prior(s, k)) {
      var e := s.index[k];
      assert e.vectors[0] in e.vectors && RefMatches(s.file.vectors, e.frame, e.vectors[0]);
      assert OwnsPending(s.file, e.frame, e.vectors[0].1);
    }
    if PendingVersion(s, k) {
      var i: nat, v: nat :| i < |s.file.frames| && LiveKey(s.file.frames[i]) == Some(k) && OwnsPending(s.file, i, v);
      var p := (s.file.vectors[v].space, v);
      assert k in s.index && s.index[k].frame == i && RefMatches(s.file.vectors, i, p);
      assert p in s.index[k].vectors;
    }
  }

  /** The value a valid field gets, or why it is refused. */
  lemma FieldVerdict(shape: Shape, f: (string, Value))
    ensures FieldError(shape, f.0, f.1) == None <==> FieldFits(shape, f)
    ensures FieldError(shape, f.0, f.1) == Some(UnknownField) <==> forall j: nat :: !Named(shape.fields, f.0, j)
    ensures FieldError(shape, f.0, f.1) == Some(DimensionMismatch) <==>
            exists j: nat :: Named(shape.fields, f.0, j) && shape.fields[j].1.VectorField? && f.1.VectorValue?
              && |f.1.values| != shape.fields[j].1.dim
  {
    if FieldNamed(shape.fields, f.0).Some? { var j := NamedByFound(shape.fields, f.0); }
    forall j: nat | Named(shape.fields, f.0, j) ensures FieldNamed(shape.fields, f.0) == Some(shape.fields[j].1) {
      FoundByName(shape.fields, f.0, j);
    }
  }

  /** The first field that does not fit decides the error. */
  lemma {:induction false} FirstMisfit(shape: Shape, fields: seq<(string, Value)>, i: nat)
    requires i <= |fields| && forall l :: 0 <= l < i ==> FieldFits(shape, fields[l])
    requires i < |fields| ==> !FieldFits(shape, fields[i])
    ensures FirstFieldError(shape, fields) ==
            if i < |fields| then FieldError(shape, fields[i].0, fields[i].1) else None
  {
    if fields != [] {
      FieldVerdict(shape, fields[0]);
      hide FieldFits, FieldError;
      if i > 0 { FirstMisfit(shape, fields[1..], i - 1); }
    }
  }

  lemma {:induction false} AllFieldsFit(shape: Shape, fields: seq<(string, Value)>)
    ensures FirstFieldError(shape, fields) == None <==> forall i :: 0 <= i < |fields| ==> FieldFits(shape, fields[i])
  {
    if fields != [] {
      FieldVerdict(shape, fields[0]);
      AllFieldsFit(shape, fields[1..]);
      hide FieldFits, FieldError;
      assert forall i :: 0 < i < |fields| ==> fields[i] == fields[1..][i - 1];
    }
  }

  lemma {:induction false} FirstTextFieldIs(fields: seq<(string, Field)>)
    ensures FirstTextField(fields).None? <==> forall j :: 0 <= j < |fields| ==> !fields[j].1.TextField?
    ensures forall j: nat :: FirstTextFieldAt(fields, j) ==> FirstTextField(fields) == Some(fields[j].1.space)
    ensures FirstTextField(fields).Some? ==> exists j: nat :: FirstTextFieldAt(fields, j)
  {
    if fields != [] {
      FirstTextFieldIs(fields[1..]);
      forall j: nat | FirstTextFieldAt(fields, j) && j > 0 ensures FirstTextFieldAt(fields[1..], j - 1) {
      }
      if fields[0].1.TextField? {
        assert FirstTextFieldAt(fields, 0);
      } else if FirstTextField(fields).Some? {
        var j: nat :| FirstTextFieldAt(fields[1..], j);
        assert forall l :: 0 < l < |fields| ==> fields[l] == fields[1..][l - 1];
        assert FirstTextFieldAt(fields, j + 1);
      }
    }
  }

  lemma {:induction false} FirstTextFound(fields: seq<(string, Value)>) returns (i: nat)
    requires FirstText(fields).Some?
    ensures FirstTextAt(fields, i)
  {
    if fields[0].1.TextValue? {
      i := 0;
    } else {
      i := FirstTextFound(fields[1..]);
      assert forall l :: 0 < l < |fields| ==> fields[l] == fields[1..][l - 1];
      i := i + 1;
    }
  }

  lemma TextReadyIff(reg: Registry, shape: Shape, rec: Record)
    ensures TextReady(reg, shape, rec) <==> !TextSpaceMissing(reg, shape, rec)
  {
    FirstTextFieldIs(shape.fields);
    forall i: nat | FirstTextAt(rec.fields, i) ensures FirstText(rec.fields).Some? { FirstTextIs(rec.fields, i); }
    hide FirstTextAt, FirstTextFieldAt;
    if TextSpaceMissing(reg, shape, rec) {
      var i := FirstTextFound(rec.fields);
      var j: nat :| FirstTextFieldAt(shape.fields, j);
      assert shape.fields[j].1.space !in reg.textSpaces;
    }
  }

  /** In a coherent store the spaces of a record's vectors are registered. */
  lemma SpacesRegistered(s: StoreState, coll: string, rec: Record)
    requires Coherent(s) && coll in s.reg.collections && s.reg.collections[coll].shape.Some?
    requires FirstFieldError(s.reg.collections[coll].shape.value, rec.fields) == None
    ensures Registered(s.reg, NamedVectors(s.reg.collections[coll].shape.value, rec.fields))
  {
    var shape := s.reg.collections[coll].shape.value;
    forall i | 0 <= i < |rec.fields| ensures FieldError(shape, rec.fields[i].0, rec.fields[i].1) == None {
      NoErrorAt(shape, rec.fields, i);
    }
    NamedVectorsFit(shape, rec.fields);
    hide WellFormedFile, IndexMatchesFrames, EntriesListVectors, OwnersLive, CommitStatus, StagedFits, CollectionsFit;
  }

  lemma PlanVerdict(s: StoreState, coll: string, rec: Record)
    requires Coherent(s)
    ensures PlanFor(s.reg, coll, rec).Ok? <==> Storable(s.reg, coll, rec)
    ensures PlanFor(s.reg, coll, rec).Ok? ==> PlanFor(s.reg, coll, rec).value.coll == s.reg.collections[coll].id
  {
    if coll in s.reg.collections && s.reg.collections[coll].shape.Some? {
      var shape := s.reg.collections[coll].shape.value;
      AllFieldsFit(shape, rec.fields);
      TextReadyIff(s.reg, shape, rec);
      if FirstFieldError(shape, rec.fields) == None { SpacesRegistered(s, coll, rec); }
    }
    hide Coherent, TextReady, TextSpaceMissing, FieldFits, NamedVectors, Registered;
  }

  /** A parent must be a live record of the collection. */
  ghost predicate ParentThere(s: StoreState, coll: string, rec: Record)
    requires coll in s.reg.collections
  {
    rec.parent.Some? ==> Lookup(s, (s.reg.collections[coll].id, Encode(rec.parent.value))).Some?
  }

  /** Exactly when a put succeeds, and exactly when each of the late refusals comes. */
  lemma PutVerdict(s: StoreState, coll: string, key: Key, rec: Record, now: int)
    requires Coherent(s) && FreshEntriesPending(s)
    ensures Storable(s.reg, coll, rec) ==>
              var pending := PendingVersion(s, (s.reg.collections[coll].id, Encode(key)));
              && (PutTo(s, coll, key, rec, now).Ok? <==> ParentThere(s, coll, rec) && !pending)
              && (PutTo(s, coll, key, rec, now) == Err(ParentNotFound) <==> !ParentThere(s, coll, rec))
              && (PutTo(s, coll, key, rec, now) == Err(NotYetCommitted) <==> ParentThere(s, coll, rec) && pending)
    ensures !Storable(s.reg, coll, rec) ==>
              PutTo(s, coll, key, rec, now).Err?
              && PutTo(s, coll, key, rec, now).error !in {ParentNotFound, NotYetCommitted}
  {
    PlanVerdict(s, coll, rec);
    PlanErrorsEarly(s.reg, coll, rec);
    if Storable(s.reg, coll, rec) {
      BlockedIsPending(s, (s.reg.collections[coll].id, Encode(key)));
      if rec.parent.Some? { LookupByIndex(s, (s.reg.collections[coll].id, Encode(rec.parent.value))); }
    }
    hide Coherent, Storable, PlanFor, PendingVersion, Blocked, Encode, PutApplied, FreshEntriesPending, Lookup;
  }

  lemma {:induction false} FieldErrorKinds(shape: Shape, fields: seq<(string, Value)>)
    ensures FirstFieldError(shape, fields) in {None, Some(UnknownField), Some(DimensionMismatch), Some(KindMismatch)}
  {
    if fields != [] { FieldErrorKinds(shape, fields[1..]); }
  }

  lemma PlanErrorsEarly(reg: Registry, coll: string, rec: Record)
    ensures PlanFor(reg, coll, rec).Err? ==> PlanFor(reg, coll, rec).error !in {ParentNotFound, NotYetCommitted}
    ensures coll !in reg.collections <==> PlanFor(reg, coll, rec) == Err(UnknownCollection)
  {
    if coll in reg.collections && reg.collections[coll].shape.Some? {
      FieldErrorKinds(reg.collections[coll].shape.value, rec.fields);
    }
    hide NamedVectors, FirstFieldError, TextSpaceMissing;
  }

  /** A put with a field that does not fit reports what is wrong with the first such field. */
  lemma PutMisfit(s: StoreState, coll: string, key: Key, rec: Record, now: int, i: nat)
    requires Coherent(s) && coll in s.reg.collections && s.reg.collections[coll].shape.Some? && i < |rec.fields|
    requires var shape := s.reg.collections[coll].shape.value;
             !FieldFits(shape, rec.fields[i]) && forall l :: 0 <= l < i ==> FieldFits(shape, rec.fields[l])
    ensures var fields, f := s.reg.collections[coll].shape.value.fields, rec.fields[i];
            PutTo(s, coll, key, rec, now) ==
            if forall j: nat :: !Named(fields, f.0, j) then Err(UnknownField)
            else if exists j: nat :: Named(fields, f.0, j) && fields[j].1.VectorField? && f.1.VectorValue?
            then Err(DimensionMismatch) else Err(KindMismatch)
  {
    var shape := s.reg.collections[coll].shape.value;
    FirstMisfit(shape, rec.fields, i);
    FieldVerdict(shape, rec.fields[i]);
    hide Coherent, FieldFits, TextSpaceMissing;
  }

  /** A delete reports whether there was a record, or is held back by an uncommitted vector. */
  lemma DeleteVerdict(s: StoreState, coll: string, key: Key)
    requires Coherent(s) && FreshEntriesPending(s) && coll in s.reg.collections
    ensures var k := (s.reg.collections[coll].id, Encode(key));
            && (DeleteFrom(s, coll, key).Ok? <==> !PendingVersion(s, k))
            && (DeleteFrom(s, coll, key) == Err(NotYetCommitted) <==> PendingVersion(s, k))
            && (DeleteFrom(s, coll, key).Ok? ==> DeleteFrom(s, coll, key).value.1 == Lookup(s, k).Some?)
  {
    BlockedIsPending(s, (s.reg.collections[coll].id, Encode(key)));
    LookupByIndex(s, (s.reg.collections[coll].id, Encode(key)));
    hide Coherent, PendingVersion, Encode, Blocked, FreshEntriesPending, DeleteApplied, Lookup;
  }

  // ------------------------------------------------------------------ over runs

  lemma PutKeepsPending(s: StoreState, coll: string, key: Key, rec: Record, now: int)
    requires Coherent(s) && FreshEntriesPending(s) && PutTo(s, coll, key, rec, now).Ok?
    ensures FreshEntriesPending(PutTo(s, coll, key, rec, now).value)
  {
    assert s.file.flushedVectors <= |s.file.vectors|;
    hide Coherent, PlanFor, ParentOf, Encode, NewFrame, Blocked, NotOwnedBy;
  }

  lemma CompactKeepsPending(s: StoreState, recalibrate: bool, decode: Decoder)
    requires Coherent(s) && FreshEntriesPending(s) && KeepsLength(decode) && CompactOf(s, recalibrate, decode).Ok?
    ensures FreshEntriesPending(CompactOf(s, recalibrate, decode).value)
  {
    if !NothingTombstoned(s.file) {
      CompactProofs.CompactedWellFormed(s.file, recalibrate, decode);
      RebuiltIsScan(CompactedFile(s.file, recalibrate, decode));
    }
    hide Coherent, WellFormedFile, RebuiltIndex, CompactedFile;
  }

  lemma StepKeepsPending(env: Env, s: StoreState, op: Op)
    requires Coherent(s) && FreshEntriesPending(s) && Legal(env, s, op) && Step(env, s, op).Ok?
    ensures FreshEntriesPending(Step(env, s, op).value)
  {
    match op
    case Define(space, dim, spec) => hide Coherent;
    case Declare(coll, name, shape, doc, payload, now) =>
      DeclareShape(s, env.read, env.parse, coll, name, shape, doc, payload, now);
      hide Coherent, DeclareTo;
    case Put(coll, key, rec, now) => PutKeepsPending(s, coll, key, rec, now);
    case Delete(coll, key) => hide Encode, Blocked, NotOwnedBy;
    case Commit =>
      CommitCoherent(s, true);
      hide Coherent, CommitOf;
    case Compact(recalibrate) => CompactKeepsPending(s, recalibrate, env.decode);
  }

  /** After any run from a store whose fresh entries are pending, such as a reopened one, the verdicts above hold. */
  lemma {:induction false} RunKeepsPending(env: Env, s: StoreState, ops: seq<Op>, t: StoreState)
    requires Coherent(s) && FreshEntriesPending(s) && Reaches(env, s, ops, t)
    ensures Coherent(t) && FreshEntriesPending(t)
    decreases |ops|
  {
    hide Coherent, Step, Legal, FreshEntriesPending;
    if ops != [] {
      StepCoherent(env, s, ops[0]);
      StepKeepsPending(env, s, ops[0]);
      RunKeepsPending(env, Step(env, s, ops[0]).value, ops[1..], t);
    }
  }

  // ------------------------------------------------------------------ what a commit calibrates on

  /** The first `limit` staged vectors of a space, or all if there are fewer, by position. */
  ghost predicate FirstStaged(staged: seq<StagedVector>, name: string, limit: nat, at: seq<nat>)
  {
    && |at| <= limit
    && (forall j :: 0 <= j < |at| ==> at[j] < |staged| && staged[at[j]].space == name)
    && (forall i, j :: 0 <= i < j < |at| ==> at[i] < at[j])
    && forall p :: 0 <= p < |staged| && staged[p].space == name && p !in at ==>
         |at| == limit && forall j :: 0 <= j < |at| ==> at[j] < p
  }

  /** A codec fitted on exactly those. */
  predicate FittedOn(codec: Codec, staged: seq<StagedVector>, at: seq<nat>)
  {
    codec.Fitted? && |codec.sample| == |at|
    && forall j :: 0 <= j < |at| ==> at[j] < |staged| && codec.sample[j] == staged[at[j]].values
  }

  lemma FirstSkips(staged: seq<StagedVector>, name: string, limit: nat, at: seq<nat>)
    requires staged != [] && FirstStaged(staged[..|staged| - 1], name, limit, at)
    requires staged[|staged| - 1].space != name || |at| == limit
    ensures FirstStaged(staged, name, limit, at)
  {
    var n := |staged| - 1;
    var before := staged[..n];
    assert forall p :: 0 <= p < n ==> before[p] == staged[p];
    forall p | 0 <= p < |staged| && staged[p].space == name && p !in at
      ensures |at| == limit && forall j :: 0 <= j < |at| ==> at[j] < p
    {
      if p < n { assert before[p].space == name; }
    }
  }

  lemma FirstTakes(staged: seq<StagedVector>, name: string, limit: nat, at: seq<nat>)
    requires staged != [] && FirstStaged(staged[..|staged| - 1], name, limit, at)
    requires staged[|staged| - 1].space == name && |at| < limit
    ensures FirstStaged(staged, name, limit, at + [|staged| - 1])
  {
    var n := |staged| - 1;
    var before, more := staged[..n], at + [n];
    forall j | 0 <= j < |more| ensures more[j] < |staged| && staged[more[j]].space == name {
      if j < |at| { assert before[at[j]] == staged[at[j]]; }
    }
    forall p | 0 <= p < |staged| && staged[p].space == name ensures p in more {
      if p < n {
        assert before[p].space == name;
        assert p in at;
      } else {
        assert more[|at|] == n;
      }
    }
  }

  lemma FittedGrows(staged: seq<StagedVector>, before: seq<seq<real>>, at: seq<nat>)
    requires staged != [] && FittedOn(Fitted(before), staged[..|staged| - 1], at)
    ensures FittedOn(Fitted(before), staged, at)
    ensures FittedOn(Fitted(before + [staged[|staged| - 1].values]), staged, at + [|staged| - 1])
  {
    var n := |staged| - 1;
    forall j | 0 <= j < |at| ensures at[j] < n && before[j] == staged[at[j]].values {
      assert staged[..n][at[j]] == staged[at[j]];
    }
  }

  lemma {:induction false} SampleIsFirst(staged: seq<StagedVector>, name: string, limit: nat) returns (at: seq<nat>)
    ensures FirstStaged(staged, name, limit, at) && FittedOn(Fitted(SampleOf(staged, name, limit)), staged, at)
    ensures |at| == |SampleOf(staged, name, limit)|
  {
    if staged == [] {
      at := [];
    } else {
      var n := |staged| - 1;
      var before := SampleIsFirst(staged[..n], name, limit);
      if staged[n].space == name && |before| < limit {
        at := before + [n];
        FirstTakes(staged, name, limit, before);
      } else {
        at := before;
        FirstSkips(staged, name, limit, before);
      }
      FittedGrows(staged, SampleOf(staged[..n], name, limit), before);
      hide FirstStaged, FittedOn;
    }
  }

  lemma {:induction false} UntouchedSpace(c: Calibration, staged: seq<StagedVector>, names: seq<string>, name: string)
    requires StagedRegistered(c.vectorSpaces, names) && name in c.vectorSpaces && name !in names
    ensures CalibrateAll(c, staged, names).vectorSpaces[name] == c.vectorSpaces[name]
  {
    if names != [] { UntouchedSpace(c, staged, names[..|names| - 1], name); }
  }

  /** A deferred space among those calibrated gets the codec of its sample. */
  lemma {:induction false} CalibratedCodec(c: Calibration, staged: seq<StagedVector>, names: seq<string>, name: string)
    requires StagedRegistered(c.vectorSpaces, names) && name in names && c.vectorSpaces[name].state.Deferred?
    ensures var r := CalibrateAll(c, staged, names);
            && r.vectorSpaces[name].state.Ready? && r.vectorSpaces[name].state.id < |r.spaces|
            && r.spaces[r.vectorSpaces[name].state.id].codec ==
               Fitted(SampleOf(staged, name, c.vectorSpaces[name].state.sampleTarget))
  {
    hide SampleOf;
    var before := names[..|names| - 1];
    if name in before {
      CalibratedCodec(c, staged, before, name);
    } else {
      UntouchedSpace(c, staged, before, name);
    }
  }

  /**
   Flushing fits the codec of a space still deferred on exactly its first staged vectors, as many as
   its target asks for.
   */
  lemma FlushCalibrates(s: StoreState, name: string, i: nat) returns (at: seq<nat>)
    requires Coherent(s) && i < |s.staged| && s.staged[i].space == name
    requires name in s.reg.vectorSpaces && s.reg.vectorSpaces[name].state.Deferred?
    ensures FirstStaged(s.staged, name, s.reg.vectorSpaces[name].state.sampleTarget, at) && at != []
    ensures var t := Flushed(s);
            && name in t.reg.vectorSpaces && t.reg.vectorSpaces[name].state.Ready?
            && t.reg.vectorSpaces[name].state.id < |t.file.spaces|
            && FittedOn(t.file.spaces[t.reg.vectorSpaces[name].state.id].codec, s.staged, at)
  {
    StagedNamesKnown(s);
    StagedNamesMembers(s.staged);
    assert s.reg.vectorSpaces[name].state.sampleTarget > 0;
    at := SampleIsFirst(s.staged, name, s.reg.vectorSpaces[name].state.sampleTarget);
    assert i in at || |at| == s.reg.vectorSpaces[name].state.sampleTarget;
    CalibratedCodec(Calibration(s.file.spaces, s.reg.vectorSpaces), s.staged, StagedNames(s.staged), name);
    hide Coherent, SampleOf, CalibrateAll, StagedNames, FlushedRows, PushAll, FirstStaged, FittedOn;
  }
}

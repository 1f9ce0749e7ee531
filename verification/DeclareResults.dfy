/**
 When a definition or a declaration is accepted, and what it plans to write, said of the fields declared
 and of the documents in the file (`src/db.rs`, `src/db/space.rs`, `src/db/schema_doc.rs`).
 */
module DeclareResults {
  import opened Basics
  import opened Keys
  import opened Engine
  import opened Identity
  import opened SchemaDoc
  import opened Schema
  import opened Store
  import opened Declare

  // ------------------------------------------------------------------ the document a declaration meets

  /** The first collection of the reserved name. */
  predicate HoldsSchemas(fs: FileState, c: CollectionId)
  {
    c < |fs.collections| && fs.collections[c].name == "~valise.schema"
    && forall d :: 0 <= d < c ==> fs.collections[d].name != "~valise.schema"
  }

  predicate Readable(fs: FileState, uri: Bytes, i: FrameId)
  {
    i < |fs.frames| && i < fs.flushedFrames && fs.frames[i].active && fs.frames[i].uri == Some(uri)
    && HoldsSchemas(fs, fs.frames[i].coll)
  }

  /** The oldest readable document of a uri. */
  predicate Held(fs: FileState, uri: Bytes, i: FrameId)
  {
    Readable(fs, uri, i) && forall j: nat :: j < i ==> !Readable(fs, uri, j)
  }

  /** Every held field is declared at its place, unchanged. */
  predicate Keeps(parse: SpecParser, held: Doc, declared: Doc)
  {
    |held.fields| <= |declared.fields|
    && forall j :: 0 <= j < |held.fields| ==> Canon(parse, held.fields[j]) == Canon(parse, declared.fields[j])
  }

  lemma KeepsIffCompatible(parse: SpecParser, held: Doc, declared: Doc)
    ensures Compatible(parse, held, declared) ==
            if Keeps(parse, held, declared) then Ok(|held.fields| == |declared.fields|) else Err(SchemaMismatch)
  {
    var a, b := CanonAll(parse, held.fields), CanonAll(parse, declared.fields);
    hide Canon;
    if Keeps(parse, held, declared) {
      assert forall j :: 0 <= j < |a| ==> a[j] == b[j];
    } else if |a| <= |b| {
      var j :| 0 <= j < |a| && Canon(parse, held.fields[j]) != Canon(parse, declared.fields[j]);
      assert a[j] != b[j];
    }
  }

  lemma HeldIsFirst(fs: FileState, uri: Bytes, i: FrameId)
    requires Held(fs, uri, i)
    ensures SchemaCollectionId(fs) == Some(fs.frames[i].coll)
    ensures FirstDoc(fs, fs.frames[i].coll, uri, 0) == Some(i)
  {
    var c := fs.frames[i].coll;
    var r := FirstDoc(fs, c, uri, 0);
    assert IsDoc(fs, c, uri, i);
    hide FirstDoc;
    forall j: nat | j < i ensures !(j < fs.flushedFrames && IsDoc(fs, c, uri, j)) { assert !Readable(fs, uri, j); }
  }

  lemma FirstIsHeld(fs: FileState, uri: Bytes)
    ensures SchemaCollectionId(fs).Some? && FirstDoc(fs, SchemaCollectionId(fs).value, uri, 0).Some? ==>
              Held(fs, uri, FirstDoc(fs, SchemaCollectionId(fs).value, uri, 0).value)
  {
    if SchemaCollectionId(fs).Some? {
      var c := SchemaCollectionId(fs).value;
      var r := FirstDoc(fs, c, uri, 0);
      hide FirstDoc, SchemaCollectionId;
      if r.Some? {
        forall j: nat | j < r.value ensures Readable(fs, uri, j) ==> j < fs.flushedFrames && IsDoc(fs, c, uri, j) {
          if Readable(fs, uri, j) { OnlyOne(fs, c, fs.frames[j].coll); }
        }
      }
    }
  }

  lemma OnlyOne(fs: FileState, c: CollectionId, d: CollectionId)
    requires HoldsSchemas(fs, c) && HoldsSchemas(fs, d)
    ensures c == d
  {
  }

  /** What a declaration plans, from the oldest readable document and nothing else. */
  lemma PlanVerdict(fs: FileState, read: DocReader, parse: SpecParser, uri: Bytes, doc: Doc)
    ensures (forall i: nat :: !Held(fs, uri, i)) ==> PlanSync(fs, read, parse, uri, doc) == Ok(Write(None))
    ensures forall i: nat :: Held(fs, uri, i) ==>
              PlanSync(fs, read, parse, uri, doc) ==
              match read(fs.frames[i].payload)
              case Err(e) => Err(e)
              case Ok(None) => Ok(Write(None))
              case Ok(Some(held)) =>
                if !Keeps(parse, held, doc) then Err(SchemaMismatch)
                else if |held.fields| == |doc.fields| then Ok(UpToDate)
                else Ok(Write(Some(i)))
  {
    FirstIsHeld(fs, uri);
    forall i: nat | Held(fs, uri, i)
      ensures SchemaCollectionId(fs) == Some(fs.frames[i].coll) && FirstDoc(fs, fs.frames[i].coll, uri, 0) == Some(i)
    {
      HeldIsFirst(fs, uri, i);
    }
    forall held ensures Compatible(parse, held, doc) ==
                if Keeps(parse, held, doc) then Ok(|held.fields| == |doc.fields|) else Err(SchemaMismatch)
    {
      KeepsIffCompatible(parse, held, doc);
    }
    hide FirstDoc, SchemaCollectionId, Compatible, Keeps, Held;
  }

  /**
   Declaring again what was declared and committed plans nothing: the document staged is the one found,
   provided the commit left no older one of that uri.
   */
  lemma DeclaredIsUpToDate(fs: FileState, read: DocReader, parse: SpecParser, uri: Bytes, doc: Doc, payload: Bytes,
      replace: Option<FrameId>, now: int)
    requires replace.Some? ==> replace.value < |fs.frames|
    requires read(payload) == Ok(Some(doc)) && OneDoc(Synced(fs, uri, payload, replace, now), uri)
    ensures PlanSync(CommittedFile(Synced(fs, uri, payload, replace, now)), read, parse, uri, doc) == Ok(UpToDate)
  {
    var s := Synced(fs, uri, payload, replace, now);
    var t, i := CommittedFile(s), |fs.frames|;
    SyncedCollection(fs, uri, payload, replace, now);
    SameCollections(t, s);
    SyncedLast(fs, uri, payload, replace, now);
    hide Synced, SchemaCollectionFrom;
    var c := SchemaCollectionAfter(fs);
    assert HoldsSchemas(t, c) && Readable(t, uri, i);
    assert IsDoc(s, c, uri, i);
    forall j: nat | j < i ensures Readable(t, uri, j) ==> IsDoc(s, c, uri, j) {
      if Readable(t, uri, j) { OnlyOne(t, c, t.frames[j].coll); }
    }
    assert Held(t, uri, i);
    PlanVerdict(t, read, parse, uri, doc);
  }

  lemma SyncedLast(fs: FileState, uri: Bytes, payload: Bytes, replace: Option<FrameId>, now: int)
    requires replace.Some? ==> replace.value < |fs.frames|
    ensures var t := Synced(fs, uri, payload, replace, now);
            && |t.frames| == |fs.frames| + 1
            && var f := t.frames[|fs.frames|];
               f.active && f.coll == SchemaCollectionAfter(fs) && f.uri == Some(uri) && f.payload == payload
  {
    hide Watermark, SchemaCollectionAfter;
  }

  // ------------------------------------------------------------------ what a reopen restores

  /** Frame `i` is a readable document of the collection called `name`. */
  predicate DocOf(fs: FileState, name: Bytes, i: FrameId)
  {
    Readable(fs, [0xF5] + name, i) && ValidUtf8(name)
  }

  /** A document that decodes. */
  predicate Restores(fs: FileState, read: DocReader, name: Bytes, i: FrameId, doc: Doc)
  {
    DocOf(fs, name, i) && read(fs.frames[i].payload) == Ok(Some(doc))
  }

  ghost predicate RestoresSome(fs: FileState, read: DocReader, name: Bytes, i: FrameId)
  {
    exists doc :: Restores(fs, read, name, i, doc)
  }

  /** The last one below `n`. */
  ghost predicate Newest(fs: FileState, read: DocReader, name: Bytes, n: nat, i: FrameId, doc: Doc)
  {
    i < n && Restores(fs, read, name, i, doc) && forall j: nat, d :: i < j < n ==> !Restores(fs, read, name, j, d)
  }

  lemma DocNameIs(fs: FileState, name: Bytes, i: FrameId)
    requires i < |fs.frames|
    ensures DocNameAt(fs, i) == Some(name) <==> DocOf(fs, name, i)
  {
    if DocNameAt(fs, i) == Some(name) {
      assert fs.frames[i].uri.value == [0xF5] + fs.frames[i].uri.value[1..];
    }
    if DocOf(fs, name, i) { assert ([0xF5] + name)[1..] == name; }
    hide ValidUtf8;
  }

  /** Reopening fails exactly on a document whose bytes do not decode. */
  lemma {:induction false} ReopenVerdict(fs: FileState, read: DocReader, n: nat)
    requires n <= |fs.frames|
    ensures LoadDocs(fs, read, n).Ok? <==>
            forall i: nat, name :: i < n && DocOf(fs, name, i) ==> read(fs.frames[i].payload).Ok?
  {
    if n > 0 {
      ReopenVerdict(fs, read, n - 1);
      hide DocNameAt, DocOf;
      forall name ensures DocNameAt(fs, n - 1) == Some(name) <==> DocOf(fs, name, n - 1) { DocNameIs(fs, name, n - 1); }
    }
  }

  /** Otherwise it restores, for each collection, the newest document that decodes. */
  lemma {:induction false} ReopenRestores(fs: FileState, read: DocReader, n: nat, name: Bytes)
    requires n <= |fs.frames| && LoadDocs(fs, read, n).Ok?
    ensures name in LoadDocs(fs, read, n).value <==> exists i: nat, doc :: i < n && Restores(fs, read, name, i, doc)
    ensures forall i: nat, doc :: Newest(fs, read, name, n, i, doc) ==>
              name in LoadDocs(fs, read, n).value && LoadDocs(fs, read, n).value[name] == doc
  {
    if n > 0 {
      ReopenRestores(fs, read, n - 1, name);
      DocNameIs(fs, name, n - 1);
      LoadStep(fs, read, n, name);
      hide DocNameAt, DocOf, LoadDocs;
      forall i: nat, doc | Newest(fs, read, name, n, i, doc)
        ensures name in LoadDocs(fs, read, n).value && LoadDocs(fs, read, n).value[name] == doc
      {
        if i < n - 1 { assert Newest(fs, read, name, n - 1, i, doc); }
      }
    }
  }

  lemma LoadStep(fs: FileState, read: DocReader, n: nat, name: Bytes)
    requires 0 < n <= |fs.frames| && LoadDocs(fs, read, n).Ok?
    ensures LoadDocs(fs, read, n - 1).Ok?
    ensures var before, after := LoadDocs(fs, read, n - 1).value, LoadDocs(fs, read, n).value;
            if RestoresSome(fs, read, name, n - 1)
            then name in after && read(fs.frames[n - 1].payload) == Ok(Some(after[name]))
            else (name in after <==> name in before) && (name in before ==> after[name] == before[name])
  {
    DocNameIs(fs, name, n - 1);
    hide DocNameAt, DocOf;
    var doc := read(fs.frames[n - 1].payload);
    if doc.Ok? && doc.value.Some? && DocOf(fs, name, n - 1) {
      assert Restores(fs, read, name, n - 1, doc.value.value);
    }
  }

  // ------------------------------------------------------------------ the checks of a declaration

  /** Each field of a shape kept at its place: name, kind and space. */
  predicate KeepsShape(held: Shape, declared: Shape)
  {
    |held.fields| <= |declared.fields|
    && forall j :: 0 <= j < |held.fields| ==>
         var (f, g) := (held.fields[j], declared.fields[j]);
         f.0 == g.0 && (f.1.TextField? <==> g.1.TextField?) && f.1.space == g.1.space
  }

  lemma SignaturesIff(held: Shape, declared: Shape)
    ensures Signature(held) <= Signature(declared) <==> KeepsShape(held, declared)
  {
    var a, b := Signature(held), Signature(declared);
    if KeepsShape(held, declared) {
      assert forall j :: 0 <= j < |a| ==> a[j] == b[j];
    }
    if a <= b {
      assert "text" != "vector" by { assert "text"[0] != "vector"[0]; }
      forall j | 0 <= j < |held.fields|
        ensures var (f, g) := (held.fields[j], declared.fields[j]);
                f.0 == g.0 && (f.1.TextField? <==> g.1.TextField?) && f.1.space == g.1.space
      {
        assert a[j] == b[j];
      }
    }
  }

  /** What this process already knows of the collection stays as it was. */
  predicate KeepsKnown(reg: Registry, parse: SpecParser, coll: string, shape: Shape, doc: Doc)
  {
    coll in reg.collections ==>
      var held := reg.collections[coll];
      && (held.doc.Some? ==> Keeps(parse, held.doc.value, doc))
      && (held.doc.None? && held.shape.Some? ==> KeepsShape(held.shape.value, shape))
  }

  /** Exactly when a declaration is accepted, and the error it meets first. */
  lemma DeclareVerdict(s: StoreState, read: DocReader, parse: SpecParser, coll: string, uri: Bytes,
      shape: Shape, doc: Doc, payload: Bytes, now: int)
    ensures var plan := PlanSync(s.file, read, parse, uri, doc);
            var taken := coll !in s.reg.collections
              && exists c :: 0 <= c < |s.file.collections| && s.file.collections[c].name == coll;
            DeclareTo(s, read, parse, coll, uri, shape, doc, payload, now).Ok? <==>
              !(coll != [] && coll[0] == '~') && KeepsKnown(s.reg, parse, coll, shape, doc) && plan.Ok? && !taken
    ensures coll != [] && coll[0] == '~' ==>
              DeclareTo(s, read, parse, coll, uri, shape, doc, payload, now) == Err(ReservedName)
    ensures !(coll != [] && coll[0] == '~') && !KeepsKnown(s.reg, parse, coll, shape, doc) ==>
              DeclareTo(s, read, parse, coll, uri, shape, doc, payload, now) == Err(SchemaMismatch)
  {
    if coll in s.reg.collections {
      var held := s.reg.collections[coll];
      if held.doc.Some? { KeepsIffCompatible(parse, held.doc.value, doc); }
      if held.shape.Some? { SignaturesIff(held.shape.value, shape); }
    }
    PlannedIsDoc(s.file, read, parse, uri, doc);
    hide PlanSync, Compatible, Keeps, KeepsShape, Signature, Synced, WithCollection, Bound;
  }

  // ------------------------------------------------------------------ definitions

  /** What a fresh name is bound to: a codec now, or one to be fitted on at least one vector. */
  predicate Registers(s: StoreState, t: StoreState, name: string, dim: nat, spec: SpaceSpec)
    requires name in t.reg.vectorSpaces
  {
    match spec
    case Auto(sample) =>
      t.file == s.file && t.reg.vectorSpaces[name].state == Deferred(if sample > 0 then sample else 1)
    case Eager(codec) =>
      t.file == s.file.(spaces := s.file.spaces + [SpaceDesc(name, dim, codec)])
      && t.reg.vectorSpaces[name].state == Ready(|s.file.spaces|)
  }

  /** A space can be defined if its name is new and its dimension a positive multiple of 64, or it is the same. */
  lemma DefineVerdict(s: StoreState, name: string, dim: nat, spec: SpaceSpec)
    ensures DefineSpace(s, name, dim, spec).Ok? <==>
            if name in s.reg.vectorSpaces then s.reg.vectorSpaces[name].dim == dim else dim > 0 && dim % 64 == 0
    ensures DefineSpace(s, name, dim, spec).Ok? ==>
              var t := DefineSpace(s, name, dim, spec).value;
              && name in t.reg.vectorSpaces && t.reg.vectorSpaces[name].dim == dim
              && (forall n :: n in s.reg.vectorSpaces ==>
                    n in t.reg.vectorSpaces && t.reg.vectorSpaces[n] == s.reg.vectorSpaces[n])
              && (if name in s.reg.vectorSpaces then t == s else Registers(s, t, name, dim, spec))
  {
  }
}

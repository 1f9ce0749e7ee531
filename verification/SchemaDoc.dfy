/**
 Persisted collection schemas (`src/db/schema_doc.rs`): one ordinary frame per declaration in a
 reserved collection, staged at a timestamp chosen so that it constrains no later ingest.
 */
module SchemaDoc {
  import opened Basics
  import opened Keys
  import opened Engine
  import opened Identity

  const SCHEMA_COLLECTION := "~valise.schema"
  const SCHEMA_URI_TAG: Byte := 0xF5
  const KIND_TEXT := "text"
  const KIND_VECTOR := "vector"

  /** One declared field; `spec` is the raw JSON value of its inline configuration. */
  datatype FieldDoc = FieldDoc(name: string, kind: string, space: string, spec: Option<Bytes>)

  datatype Doc = Doc(fields: seq<FieldDoc>)

  /** Reading a raw spec as the typed spec of a kind, if it parses as one. */
  type SpecParser = (string, Bytes) -> Option<Bytes>

  /** JSON decoding of a document payload: an error, a document, or none for an unknown version. */
  type DocReader = Bytes -> Result<Option<Doc>>

  // ------------------------------------------------------------------ comparing declarations

  predicate FieldSame(parse: SpecParser, a: FieldDoc, b: FieldDoc)
  {
    if a.name != b.name || a.kind != b.kind || a.space != b.space then false
    else
      match (a.spec, b.spec)
      case (None, None) => true
      case (Some(x), Some(y)) =>
        if a.kind != KIND_TEXT && a.kind != KIND_VECTOR then x == y
        else
          (match (parse(a.kind, x), parse(b.kind, y))
           case (Some(t), Some(u)) => t == u
           case _ => x == y)
      case _ => false
  }

  datatype CanonSpec = NoSpec | Typed(value: Bytes) | Untyped(json: Bytes)

  /** What a field says once its spec is read as far as it can be. */
  function Canon(parse: SpecParser, f: FieldDoc): (string, string, string, CanonSpec)
  {
    (f.name, f.kind, f.space,
     if f.spec.None? then NoSpec
     else if (f.kind == KIND_TEXT || f.kind == KIND_VECTOR) && parse(f.kind, f.spec.value).Some?
     then Typed(parse(f.kind, f.spec.value).value)
     else Untyped(f.spec.value))
  }

  function CanonAll(parse: SpecParser, fields: seq<FieldDoc>): seq<(string, string, string, CanonSpec)>
  {
    seq(|fields|, i requires 0 <= i < |fields| => Canon(parse, fields[i]))
  }

  /** Field comparison is equality of canonical forms, so it is an equivalence. */
  lemma FieldSameIsCanonEquality(parse: SpecParser, a: FieldDoc, b: FieldDoc)
    ensures FieldSame(parse, a, b) <==> Canon(parse, a) == Canon(parse, b)
  {
  }

  /** Identical, purely additive, or a mismatch. */
  function Compatible(parse: SpecParser, persisted: Doc, declared: Doc): Result<bool>
  {
    if CanonAll(parse, persisted.fields) <= CanonAll(parse, declared.fields)
        then Ok(|persisted.fields| == |declared.fields|)
    else Err(SchemaMismatch)
  }

  method CheckCompatible(parse: SpecParser, persisted: Doc, declared: Doc) returns (r: Result<bool>)
    ensures r == Compatible(parse, persisted, declared)
    ensures r == Ok(true) <==> CanonAll(parse, persisted.fields) == CanonAll(parse, declared.fields)
  {
    if |declared.fields| < |persisted.fields| { return Err(SchemaMismatch); }
    for i := 0 to |persisted.fields|
      invariant forall j :: 0 <= j < i ==> Canon(parse, persisted.fields[j]) == Canon(parse, declared.fields[j])
    {
      FieldSameIsCanonEquality(parse, persisted.fields[i], declared.fields[i]);
      if !FieldSame(parse, persisted.fields[i], declared.fields[i]) {
        assert CanonAll(parse, persisted.fields)[i] != CanonAll(parse, declared.fields)[i];
        return Err(SchemaMismatch);
      }
    }
    r := Ok(|declared.fields| == |persisted.fields|);
  }

  /** A chain of accepted redeclarations never drops or changes a field it started with. */
  lemma CompatibleTransitive(parse: SpecParser, a: Doc, b: Doc, c: Doc)
    requires Compatible(parse, a, b).Ok? && Compatible(parse, b, c).Ok?
    ensures Compatible(parse, a, c).Ok?
    ensures Compatible(parse, a, c) == Ok(true) <==>
            Compatible(parse, a, b) == Ok(true) && Compatible(parse, b, c) == Ok(true)
  {
    assert forall d: Doc {:trigger CanonAll(parse, d.fields)} :: |CanonAll(parse, d.fields)| == |d.fields|;
  }

  // ------------------------------------------------------------------ finding a document

  /** The uri of a collection's document frame, from the UTF-8 bytes of its name. */
  function DocUri(name: Bytes): Bytes
  {
    [SCHEMA_URI_TAG] + name
  }

  /** No record key is ever spelled like a document uri, so key-driven code skips documents. */
  lemma DocUriIsNoKey(name: Bytes)
    ensures !IsKey(DocUri(name))
  {
  }

  function SchemaCollectionFrom(fs: FileState, c: CollectionId): (r: Option<CollectionId>)
    requires c <= |fs.collections|
    ensures r.Some? ==> c <= r.value < |fs.collections| && fs.collections[r.value].name == SCHEMA_COLLECTION
    ensures r.Some? ==> forall d :: c <= d < r.value ==> fs.collections[d].name != SCHEMA_COLLECTION
    ensures r.None? ==> forall d :: c <= d < |fs.collections| ==> fs.collections[d].name != SCHEMA_COLLECTION
    decreases |fs.collections| - c
  {
    if c == |fs.collections| then None
    else if fs.collections[c].name == SCHEMA_COLLECTION then Some(c)
    else SchemaCollectionFrom(fs, c + 1)
  }

  function SchemaCollectionId(fs: FileState): (r: Option<CollectionId>)
    ensures r.Some? ==> r.value < |fs.collections| && fs.collections[r.value].name == SCHEMA_COLLECTION
    ensures r.Some? ==> forall d :: 0 <= d < r.value ==> fs.collections[d].name != SCHEMA_COLLECTION
    ensures r.None? ==> forall d :: 0 <= d < |fs.collections| ==> fs.collections[d].name != SCHEMA_COLLECTION
  {
    SchemaCollectionFrom(fs, 0)
  }

  /** An active document frame with this uri, flushed or not. */
  predicate IsDoc(fs: FileState, c: CollectionId, uri: Bytes, i: FrameId)
  {
    i < |fs.frames| && fs.frames[i].active && fs.frames[i].coll == c && fs.frames[i].uri == Some(uri)
  }

  /** The first document a reader finds: one in a pending batch has no readable uri yet. */
  function FirstDoc(fs: FileState, c: CollectionId, uri: Bytes, i: FrameId): (r: Option<FrameId>)
    requires i <= |fs.frames|
    ensures r.Some? ==> i <= r.value < fs.flushedFrames && IsDoc(fs, c, uri, r.value)
    ensures r.Some? ==> forall j: nat :: i <= j < r.value ==> !(j < fs.flushedFrames && IsDoc(fs, c, uri, j))
    ensures r.None? ==> forall j: nat :: i <= j < fs.flushedFrames ==> !IsDoc(fs, c, uri, j)
    decreases |fs.frames| - i
  {
    if i == |fs.frames| then None
    else if fs.frames[i].active && fs.frames[i].coll == c && ReadUri(fs, i) == Some(uri) then Some(i)
    else FirstDoc(fs, c, uri, i + 1)
  }

  function FindDoc(fs: FileState, read: DocReader, uri: Bytes): Result<Option<(FrameId, Doc)>>
  {
    var c := SchemaCollectionId(fs);
    if c.None? then Ok(None)
    else
      var i := FirstDoc(fs, c.value, uri, 0);
      if i.None? then Ok(None)
      else
        var doc := read(fs.frames[i.value].payload);
        if doc.Err? then Err(doc.error)
        else Ok(if doc.value.Some? then Some((i.value, doc.value.value)) else None)
  }

  datatype DocSync = UpToDate | Write(replace: Option<FrameId>)

  function PlanSync(fs: FileState, read: DocReader, parse: SpecParser, uri: Bytes, doc: Doc): Result<DocSync>
  {
    var found := FindDoc(fs, read, uri);
    if found.Err? then Err(found.error)
    else if found.value.None? then Ok(Write(None))
    else
      var same := Compatible(parse, found.value.value.1, doc);
      if same.Err? then Err(same.error)
      else if same.value then Ok(UpToDate)
      else Ok(Write(Some(found.value.value.0)))
  }

  // ------------------------------------------------------------------ staging a document

  /** `max(0, max created_at over active frames)`. */
  function Watermark(frames: seq<Frame>): (w: int)
    ensures w >= 0
    ensures forall i :: 0 <= i < |frames| && frames[i].active ==> frames[i].createdAt <= w
    ensures w == 0 || exists i :: 0 <= i < |frames| && frames[i].active && frames[i].createdAt == w
  {
    if frames == [] then 0
    else
      var n := |frames| - 1;
      var w := Watermark(frames[..n]);
      assert forall i :: 0 <= i < n ==> frames[..n][i] == frames[i];
      if frames[n].active && frames[n].createdAt > w then frames[n].createdAt else w
  }

  /** Active frames after the replaced document is tombstoned. */
  function Replaced(frames: seq<Frame>, replace: Option<FrameId>): seq<Frame>
    requires replace.Some? ==> replace.value < |frames|
  {
    if replace.Some? then KilledFrame(frames, replace.value) else frames
  }

  function DocFrame(c: CollectionId, uri: Bytes, payload: Bytes, at: int): Frame
  {
    Frame(c, Document, Some(uri), payload, at, None, true)
  }

  function WithSchemaCollection(fs: FileState, now: int): FileState
  {
    if SchemaCollectionId(fs).Some? then fs
    else fs.(collections := fs.collections + [CollectionDesc(SCHEMA_COLLECTION, now)])
  }

  function SchemaCollectionAfter(fs: FileState): (c: CollectionId)
  {
    if SchemaCollectionId(fs).Some? then SchemaCollectionId(fs).value else |fs.collections|
  }

  /** `apply_sync` of a write: replace, then stage at the watermark of what is left. */
  function Synced(fs: FileState, uri: Bytes, payload: Bytes, replace: Option<FrameId>, now: int): FileState
    requires replace.Some? ==> replace.value < |fs.frames|
  {
    var left := Replaced(fs.frames, replace);
    Appended(WithSchemaCollection(fs, now).(frames := left),
             DocFrame(SchemaCollectionAfter(fs), uri, payload, Watermark(left)))
  }

  method EnsureSchemaCollection(file: ValiseFile, now: int) returns (c: CollectionId)
    modifies file
    ensures file.State() == WithSchemaCollection(old(file.State()), now)
    ensures c == SchemaCollectionAfter(old(file.State())) && c < |file.collections|
  {
    var known := SchemaCollectionId(file.State());
    if known.Some? { return known.value; }
    var r := file.CreateCollectionAt(SCHEMA_COLLECTION, now);
    assert r.Ok?;
    c := r.value;
  }

  /** A planned write on the engine; nothing it asks for can be refused. */
  method ApplySync(file: ValiseFile, uri: Bytes, payload: Bytes, plan: DocSync, now: int)
    requires plan.Write? && plan.replace.Some? ==>
             plan.replace.value < |file.frames| && file.frames[plan.replace.value].active
    modifies file
    ensures file.State() == if plan.Write? then Synced(old(file.State()), uri, payload, plan.replace, now)
            else old(file.State())
  {
    if plan.UpToDate? { return; }
    var c := EnsureSchemaCollection(file, now);
    if plan.replace.Some? {
      var gone := file.DeleteFrame(plan.replace.value);
      assert gone.Ok?;
    }
    var at := Watermark(file.frames);
    var r := file.PutFrame(DocFrame(c, uri, payload, at));
    assert r.Ok?;
  }

  // ------------------------------------------------------------------ no new ingest constraint

  /** A frame at time `t` can be appended and still commit. */
  predicate Admissible(frames: seq<Frame>, t: int)
  {
    TimeOrdered(frames) && forall i :: 0 <= i < |frames| && frames[i].active ==> frames[i].createdAt <= t
  }

  lemma AdmissibleMeansOrdered(frames: seq<Frame>, f: Frame)
    requires f.active
    ensures Admissible(frames, f.createdAt) <==> TimeOrdered(frames + [f])
  {
    var after := frames + [f];
    if TimeOrdered(after) {
      forall i, j | 0 <= i < j < |frames| && frames[i].active && frames[j].active
        ensures frames[i].createdAt <= frames[j].createdAt
      {
        assert after[i] == frames[i] && after[j] == frames[j];
      }
      forall i | 0 <= i < |frames| && frames[i].active ensures frames[i].createdAt <= f.createdAt {
        assert after[i] == frames[i] && after[|frames|] == f;
      }
    }
  }

  lemma ReplacedOrdered(frames: seq<Frame>, replace: Option<FrameId>)
    requires TimeOrdered(frames) && (replace.Some? ==> replace.value < |frames|)
    ensures TimeOrdered(Replaced(frames, replace))
  {
  }

  /** Staging a document keeps the catalog in the order a commit accepts. */
  lemma SyncKeepsTimeOrder(fs: FileState, uri: Bytes, payload: Bytes, replace: Option<FrameId>, now: int)
    requires replace.Some? ==> replace.value < |fs.frames|
    requires TimeOrdered(fs.frames)
    ensures TimeOrdered(Synced(fs, uri, payload, replace, now).frames)
  {
    ReplacedOrdered(fs.frames, replace);
    var left := Replaced(fs.frames, replace);
    AdmissibleMeansOrdered(left, DocFrame(SchemaCollectionAfter(fs), uri, payload, Watermark(left)));
  }

  /**
   What the new document does to a later timestamp.  From 1970 on it is admissible exactly if it was
   over the frames without the replaced document, so nothing that was admissible is lost; before
   1970 nothing is admissible any more.
   */
  lemma SyncAdmits(fs: FileState, uri: Bytes, payload: Bytes, replace: Option<FrameId>, now: int, t: int)
    requires replace.Some? ==> replace.value < |fs.frames|
    requires TimeOrdered(fs.frames)
    ensures Admissible(Synced(fs, uri, payload, replace, now).frames, t) <==>
            t >= 0 && Admissible(Replaced(fs.frames, replace), t)
    ensures t >= 0 && Admissible(fs.frames, t) ==> Admissible(Synced(fs, uri, payload, replace, now).frames, t)
  {
    SyncKeepsTimeOrder(fs, uri, payload, replace, now);
    ReplacedOrdered(fs.frames, replace);
    var left := Replaced(fs.frames, replace);
    var after := Synced(fs, uri, payload, replace, now).frames;
    var doc := DocFrame(SchemaCollectionAfter(fs), uri, payload, Watermark(left));
    assert after == left + [doc];
    assert after[|left|] == doc;
    assert forall i :: 0 <= i < |left| ==> after[i] == left[i];
    if t >= Watermark(left) {
    } else {
      assert !Admissible(after, t);
    }
  }

  /** The documented "iff it was before" holds exactly unless the replaced document itself was later. */
  lemma SyncAdmitsSame(fs: FileState, uri: Bytes, payload: Bytes, replace: Option<FrameId>, now: int, t: int)
    requires replace.Some? ==> replace.value < |fs.frames| && fs.frames[replace.value].active
    requires TimeOrdered(fs.frames) && t >= 0
    ensures Admissible(fs.frames, t) <==>
            Admissible(Synced(fs, uri, payload, replace, now).frames, t)
            && (replace.Some? ==> fs.frames[replace.value].createdAt <= t)
  {
    SyncAdmits(fs, uri, payload, replace, now, t);
    if replace.Some? {
      var left := KilledFrame(fs.frames, replace.value);
      forall i | 0 <= i < |fs.frames| && fs.frames[i].active && i != replace.value ensures left[i] == fs.frames[i] {
      }
    }
  }

  /** A committed file: a record at time 7, since deleted, and the document declared while it was live. */
  const LATEST_DOC := CommittedFile(EMPTY_FILE.(
    frames := [Frame(1, Document, None, [], 7, None, false), DocFrame(0, DocUri([]), [], 7)],
    collections := [CollectionDesc(SCHEMA_COLLECTION, 0), CollectionDesc([], 0)]))

  /**
   The failing direction: a redeclaration that adds a field replaces the one latest frame and makes
   room before it.
   */
  lemma ReplacingTheLatestRelaxes(read: DocReader, parse: SpecParser, field: FieldDoc)
    requires read([]) == Ok(Some(Doc([])))
    ensures PlanSync(LATEST_DOC, read, parse, DocUri([]), Doc([field])) == Ok(Write(Some(1)))
    ensures !Admissible(LATEST_DOC.frames, 3) && Admissible(Synced(LATEST_DOC, DocUri([]), [], Some(1), 0).frames, 3)
  {
    var fs := LATEST_DOC;
    assert SchemaCollectionId(fs) == Some(0) && FirstDoc(fs, 0, DocUri([]), 0) == Some(1);
    assert CanonAll(parse, []) == [];
    SyncAdmits(fs, DocUri([]), [], Some(1), 0, 3);
    assert fs.frames[1].active && fs.frames[1].createdAt == 7;
  }

  // ------------------------------------------------------------------ one document per collection

  predicate OneDoc(fs: FileState, uri: Bytes)
  {
    var c := SchemaCollectionAfter(fs);
    forall i, j :: 0 <= i < j < |fs.frames| ==> !(IsDoc(fs, c, uri, i) && IsDoc(fs, c, uri, j))
  }

  /**
   A planned write leaves a single document exactly if it replaces every active one there was.  A
   document still in a pending batch, or one of an unknown version, is not found and stays.
   */
  lemma SyncKeepsOneDoc(fs: FileState, uri: Bytes, payload: Bytes, replace: Option<FrameId>, now: int)
    requires forall i :: 0 <= i < |fs.frames| ==> fs.frames[i].coll < |fs.collections|
    requires replace.Some? ==> replace.value < |fs.frames|
    ensures OneDoc(Synced(fs, uri, payload, replace, now), uri) <==>
            forall i: nat :: IsDoc(fs, SchemaCollectionAfter(fs), uri, i) ==> replace == Some(i)
  {
    var t := Synced(fs, uri, payload, replace, now);
    var c := SchemaCollectionAfter(fs);
    SyncedCollection(fs, uri, payload, replace, now);
    assert IsDoc(t, c, uri, |fs.frames|);
    forall i: nat | i < |fs.frames|
      ensures IsDoc(t, c, uri, i) <==> IsDoc(fs, c, uri, i) && replace != Some(i)
    {
    }
    hide Synced, SchemaCollectionAfter;
    if i: nat :| IsDoc(fs, c, uri, i) && replace != Some(i) {
      assert IsDoc(t, c, uri, i) && i < |fs.frames| < |t.frames|;
    }
  }

  lemma SyncedCollection(fs: FileState, uri: Bytes, payload: Bytes, replace: Option<FrameId>, now: int)
    requires replace.Some? ==> replace.value < |fs.frames|
    ensures SchemaCollectionAfter(Synced(fs, uri, payload, replace, now)) == SchemaCollectionAfter(fs)
    ensures SchemaCollectionId(Synced(fs, uri, payload, replace, now)) == Some(SchemaCollectionAfter(fs))
  {
    var t := Synced(fs, uri, payload, replace, now);
    assert t.collections[SchemaCollectionAfter(fs)].name == SCHEMA_COLLECTION;
    hide Synced;
  }

  /** Declaring the same thing twice before a commit stages the document twice. */
  lemma DeclaredTwiceBeforeCommit(read: DocReader, parse: SpecParser, doc: Doc, payload: Bytes, uri: Bytes)
    requires |payload| < PAYLOAD_BATCH_FLUSH_BYTES
    ensures var once := Synced(EMPTY_FILE, uri, payload, None, 0);
            PlanSync(EMPTY_FILE, read, parse, uri, doc) == Ok(Write(None))
            && PlanSync(once, read, parse, uri, doc) == Ok(Write(None))
            && !OneDoc(Synced(once, uri, payload, None, 0), uri)
  {
    var once := Synced(EMPTY_FILE, uri, payload, None, 0);
    SyncedCollection(EMPTY_FILE, uri, payload, None, 0);
    assert IsDoc(once, SchemaCollectionAfter(once), uri, 0);
    SyncKeepsOneDoc(once, uri, payload, None, 0);
  }

  // ------------------------------------------------------------------ reading documents back

  /** The collection a flushed, active document frame belongs to. */
  function DocNameAt(fs: FileState, i: FrameId): Option<Bytes>
    requires i < |fs.frames|
  {
    var uri := ReadUri(fs, i);
    if fs.frames[i].active && Some(fs.frames[i].coll) == SchemaCollectionId(fs) && uri.Some?
       && uri.value != [] && uri.value[0] == SCHEMA_URI_TAG && ValidUtf8(uri.value[1..])
    then Some(uri.value[1..]) else None
  }

  /** What reopening restores from frames below `n`: later documents override earlier ones. */
  function LoadDocs(fs: FileState, read: DocReader, n: nat): Result<map<Bytes, Doc>>
    requires n <= |fs.frames|
  {
    if n == 0 then Ok(map[])
    else
      var before := LoadDocs(fs, read, n - 1);
      if before.Err? || DocNameAt(fs, n - 1).None? then before
      else
        var doc := read(fs.frames[n - 1].payload);
        if doc.Err? then Err(doc.error)
        else if doc.value.None? then before
        else Ok(before.value[DocNameAt(fs, n - 1).value := doc.value.value])
  }

  lemma {:induction false} LoadDocsSame(a: FileState, b: FileState, read: DocReader, n: nat)
    requires n <= |a.frames| && n <= |b.frames|
    requires forall i :: 0 <= i < n ==> a.frames[i].payload == b.frames[i].payload && DocNameAt(a, i) == DocNameAt(b, i)
    ensures LoadDocs(a, read, n) == LoadDocs(b, read, n)
  {
    hide DocNameAt;
    if n > 0 {
      LoadDocsSame(a, b, read, n - 1);
    }
  }

  /**
   Once committed, the document just declared is the one a reopen restores, whatever older documents
   of the collection are still active; the other collections are restored as before.
   */
  lemma DeclaredIsRestored(fs: FileState, read: DocReader, name: Bytes, doc: Doc, payload: Bytes,
      replace: Option<FrameId>, now: int)
    requires ValidUtf8(name) && read(payload) == Ok(Some(doc))
    requires forall i :: 0 <= i < |fs.frames| ==> fs.frames[i].coll < |fs.collections|
    requires replace.Some? ==> replace.value < |fs.frames|
    ensures var left := CommittedFile(fs.(frames := Replaced(fs.frames, replace)));
            var t := CommittedFile(Synced(fs, DocUri(name), payload, replace, now));
            LoadDocs(t, read, |t.frames|) ==
            var before := LoadDocs(left, read, |left.frames|);
            if before.Err? then before else Ok(before.value[name := doc])
  {
    var left := CommittedFile(fs.(frames := Replaced(fs.frames, replace)));
    var t := CommittedFile(Synced(fs, DocUri(name), payload, replace, now));
    var n := |fs.frames|;
    SyncedFrames(fs, name, payload, replace, now);
    hide CommittedFile, Synced, DocNameAt, Replaced;
    LoadDocsSame(left, t, read, n);
  }

  lemma SyncedFrames(fs: FileState, name: Bytes, payload: Bytes, replace: Option<FrameId>, now: int)
    requires ValidUtf8(name)
    requires forall i :: 0 <= i < |fs.frames| ==> fs.frames[i].coll < |fs.collections|
    requires replace.Some? ==> replace.value < |fs.frames|
    ensures var left := CommittedFile(fs.(frames := Replaced(fs.frames, replace)));
            var t := CommittedFile(Synced(fs, DocUri(name), payload, replace, now));
            && |left.frames| == |fs.frames| && |t.frames| == |fs.frames| + 1
            && t.frames[|fs.frames|].payload == payload && DocNameAt(t, |fs.frames|) == Some(name)
            && forall i :: 0 <= i < |fs.frames| ==>
                 left.frames[i].payload == t.frames[i].payload && DocNameAt(left, i) == DocNameAt(t, i)
  {
    var left := CommittedFile(fs.(frames := Replaced(fs.frames, replace)));
    var t := CommittedFile(Synced(fs, DocUri(name), payload, replace, now));
    SyncedCollection(fs, DocUri(name), payload, replace, now);
    SameCollections(t, Synced(fs, DocUri(name), payload, replace, now));
    SameCollections(left, fs);
    assert t.frames ==
      left.frames + [DocFrame(SchemaCollectionAfter(fs), DocUri(name), payload, Watermark(left.frames))];
    assert t.flushedFrames == |t.frames| && left.flushedFrames == |left.frames|;
    NewDocName(t, |fs.frames|, name);
    hide ValidUtf8, Watermark;
    forall i | 0 <= i < |fs.frames| ensures left.frames[i].payload == t.frames[i].payload
        && DocNameAt(left, i) == DocNameAt(t, i) {
      assert left.frames[i].coll == fs.frames[i].coll;
      hide Synced, CommittedFile, Replaced, DocUri, IsKey;
    }
    hide *;
  }

  lemma NewDocName(t: FileState, i: FrameId, name: Bytes)
    requires i < |t.frames| && i < t.flushedFrames && t.frames[i].active
             && Some(t.frames[i].coll) == SchemaCollectionId(t)
    requires t.frames[i].uri == Some(DocUri(name)) && ValidUtf8(name)
    ensures DocNameAt(t, i) == Some(name)
  {
    assert DocUri(name)[1..] == name;
  }

  lemma {:induction false} SameCollectionsFrom(a: FileState, b: FileState, c: CollectionId)
    requires a.collections == b.collections && c <= |a.collections|
    ensures SchemaCollectionFrom(a, c) == SchemaCollectionFrom(b, c)
    decreases |a.collections| - c
  {
    if c < |a.collections| {
      SameCollectionsFrom(a, b, c + 1);
    }
  }

  lemma SameCollections(a: FileState, b: FileState)
    requires a.collections == b.collections
    ensures SchemaCollectionId(a) == SchemaCollectionId(b)
  {
    SameCollectionsFrom(a, b, 0);
  }
}

/**
 The compaction loops (`build_compacted_file` and `compact` in `src/db/compact.rs`), filling one id
 map per table while appending to the new file, proved equal to `Compact.CompactedFile`.
 */
module Compactor {
  import opened Basics
  import opened Keys
  import opened Engine
  import opened Identity
  import opened Schema
  import opened Store
  import opened Compact
  import CompactProofs

  /** A complete id map in which every id kept its value: ids are positions, and nothing was skipped. */
  ghost predicate IsIdentity(m: map<nat, nat>, n: nat)
  {
    forall i: nat :: (i in m <==> i < n) && (i in m ==> m[i] == i)
  }

  lemma IdentityStep(m: map<nat, nat>, n: nat)
    requires IsIdentity(m, n)
    ensures IsIdentity(m[n := n], n + 1)
  {
  }

  lemma NoneMapped()
    ensures IsIdentity(map[], 0)
  {
  }

  /** Reads back a space's calibration sample, unless one of its vectors is still pending. */
  method ReadSample(src: ValiseFile, space: SpaceId, decode: Decoder) returns (r: Result<seq<seq<real>>>)
    ensures r == if SampleReadable(src.State(), space) then Ok(LiveSample(src.State(), decode, space))
            else Err(NotYetCommitted)
  {
    var ids := SampleIds(src.State(), space);
    for j := 0 to |ids|
      invariant forall l :: 0 <= l < j ==> ids[l] < src.flushedVectors
    {
      if ids[j] >= src.flushedVectors { return Err(NotYetCommitted); }
    }
    r := Ok(DecodedAll(src.State(), decode, ids));
  }

  /** The descriptor a space is re-registered with. */
  method NewDescriptor(src: ValiseFile, space: SpaceId, recalibrate: bool,
      decode: Decoder) returns (r: Result<SpaceDesc>)
    requires space < |src.spaces|
    ensures r == if !recalibrate || SampleReadable(src.State(), space)
            then Ok(NewSpace(src.State(), recalibrate, decode, space))
                 else Err(NotYetCommitted)
  {
    if recalibrate {
      var sample := ReadSample(src, space, decode);
      if sample.Err? { return Err(sample.error); }
      if sample.value != [] {
        return Ok(src.spaces[space].(codec := Fitted(sample.value)));
      }
    }
    r := Ok(src.spaces[space]);
  }

  /** Re-registers every space, re-fitting its codec if asked to; fills the space map. */
  method CopySpaces(src: ValiseFile, dst: ValiseFile, recalibrate: bool, decode: Decoder)
    returns (r: Result<map<SpaceId, SpaceId>>)
    requires src != dst && dst.State() == EMPTY_FILE
    modifies dst
    ensures r.Ok? <==> !recalibrate || SamplesReadable(src.State())
    ensures r.Err? ==> r == Err(NotYetCommitted)
    ensures r.Ok? ==>
              && dst.State() == EMPTY_FILE.(spaces := NewSpaces(src.State(), recalibrate, decode))
              && IsIdentity(r.value, |src.spaces|)
  {
    ghost var fs := src.State();
    ghost var spaces := NewSpaces(fs, recalibrate, decode);
    var spaceMap: map<SpaceId, SpaceId> := map[];
    NoneMapped();
    assert |spaces| == |fs.spaces|
      && forall i :: 0 <= i < |spaces| ==> spaces[i] == NewSpace(fs, recalibrate, decode, i);
    hide SampleReadable, NewSpace, NewSpaces, LiveSample, IsIdentity;
    for i := 0 to |src.spaces|
      invariant dst.State() == EMPTY_FILE.(spaces := spaces[..i])
      invariant IsIdentity(spaceMap, i)
      invariant recalibrate ==> forall space :: 0 <= space < i ==> SampleReadable(fs, space)
    {
      var desc := NewDescriptor(src, i, recalibrate, decode);
      if desc.Err? { return Err(desc.error); }
      IdentityStep(spaceMap, i);
      var id := dst.RegisterSpace(desc.value);
      spaceMap := spaceMap[i := id];
      assert spaces[..i + 1] == spaces[..i] + [desc.value];
    }
    r := Ok(spaceMap);
  }

  /** Re-creates every collection; distinct names mean none is refused. */
  method CopyCollections(src: ValiseFile, dst: ValiseFile) returns (collMap: map<CollectionId, CollectionId>)
    requires src != dst && dst.collections == []
    requires forall c, d :: 0 <= c < d < |src.collections| ==> src.collections[c].name != src.collections[d].name
    modifies dst
    ensures dst.State() == old(dst.State()).(collections := src.collections)
    ensures IsIdentity(collMap, |src.collections|)
  {
    NoneMapped();
    hide IsIdentity;
    collMap := map[];
    for c := 0 to |src.collections|
      invariant dst.State() == old(dst.State()).(collections := src.collections[..c])
      invariant IsIdentity(collMap, c)
    {
      var r := dst.CreateCollectionAt(src.collections[c].name, src.collections[c].createdAt);
      assert r.Ok?;
      IdentityStep(collMap, c);
      collMap := collMap[c := r.value];
      assert src.collections[..c + 1] == src.collections[..c] + [src.collections[c]];
    }
  }

  /** The ids streamed so far, each with its new id. */
  ghost function FrameMap(fs: FileState, n: nat): map<FrameId, FrameId>
    requires n <= |fs.frames|
  {
    map i: nat | i < n && fs.frames[i].active :: Rank(fs.frames, i)
  }

  /** Streams the active frames in id order, so that a parent is mapped before its children. */
  method CopyFrames(src: ValiseFile, dst: ValiseFile, collMap: map<CollectionId, CollectionId>)
    returns (frameMap: map<FrameId, FrameId>)
    requires src != dst && dst.frames == [] && WellFormedFile(src.State())
    requires dst.collections == src.collections && IsIdentity(collMap, |src.collections|)
    modifies dst
    ensures dst.frames == NewFrames(src.State(), |src.frames|)
    ensures frameMap == FrameMap(src.State(), |src.frames|)
    ensures dst.vectors == old(dst.vectors) && dst.spaces == old(dst.spaces) && dst.collections == old(dst.collections)
  {
    var fs := src.State();
    frameMap := map[];
    assert NewFrames(fs, 0) == [] && FrameMap(fs, 0) == map[];
    hide NewFrames, FrameMap, Rank, WellFormedFile;
    for i := 0 to |fs.frames|
      invariant dst.frames == NewFrames(fs, i)
      invariant frameMap == FrameMap(fs, i)
      invariant dst.vectors == old(dst.vectors) && dst.spaces == old(dst.spaces)
                && dst.collections == old(dst.collections)
    {
      var f := fs.frames[i];
      FrameMapStep(fs, i);
      NewFramesStep(fs, i);
      if f.active {
        var payload := if i < fs.flushedFrames then f.payload else [];
        var uri := ReadUri(fs, i);
        var parent := if f.parent.Some? && f.parent.value in frameMap then Some(frameMap[f.parent.value]) else None;
        ParentMapped(fs, i);
        assert parent == NewParent(fs.frames, f.parent);
        var id := dst.PutFrame(Frame(collMap[f.coll], f.role, uri, payload, f.createdAt, parent, true));
        assert id.Ok?;
        frameMap := frameMap[i := id.value];
      }
    }
  }

  lemma NewFramesStep(fs: FileState, i: FrameId)
    requires i < |fs.frames|
    ensures NewFrames(fs, i + 1) == NewFrames(fs, i) + (if fs.frames[i].active then [NewFrameOf(fs, i)] else [])
    ensures |NewFrames(fs, i)| == Rank(fs.frames, i)
  {
    NewFramesLength(fs, i);
  }

  /** A parent precedes its children, so when they are streamed it is already mapped if it is live. */
  lemma ParentMapped(fs: FileState, i: FrameId)
    requires WellFormedFile(fs) && i < |fs.frames|
    ensures fs.frames[i].coll < |fs.collections|
    ensures NewParent(fs.frames, fs.frames[i].parent) ==
            if fs.frames[i].parent.Some? && fs.frames[i].parent.value in FrameMap(fs, i)
            then Some(FrameMap(fs, i)[fs.frames[i].parent.value]) else None
  {
  }

  lemma FrameMapStep(fs: FileState, i: FrameId)
    requires i < |fs.frames|
    ensures FrameMap(fs, i + 1) == if fs.frames[i].active then FrameMap(fs, i)[i := Rank(fs.frames, i)]
            else FrameMap(fs, i)
  {
  }

  /** No streamed vector of the space is still pending. */
  ghost predicate SpaceReadable(fs: FileState, space: SpaceId, n: nat)
    requires OwnersKnown(fs) && n <= |fs.vectors|
  {
    forall v :: 0 <= v < n && Streamed(fs, space, v) ==> v < fs.flushedVectors
  }

  lemma ReadableBySpace(fs: FileState)
    requires WellFormedFile(fs)
    ensures Readable(fs) <==> forall space :: 0 <= space < |fs.spaces| ==> SpaceReadable(fs, space, |fs.vectors|)
  {
    if forall space :: 0 <= space < |fs.spaces| ==> SpaceReadable(fs, space, |fs.vectors|) {
      forall v | 0 <= v < |fs.vectors| && fs.vectors[v].active && fs.frames[fs.vectors[v].owner].active
          ensures v < fs.flushedVectors {
        assert SpaceReadable(fs, fs.vectors[v].space, |fs.vectors|) && Streamed(fs, fs.vectors[v].space, v);
      }
    }
  }

  /** Streams one space's live vectors onto the new ids of their owners. */
  method CopyVectorsOf(src: ValiseFile, dst: ValiseFile, space: SpaceId, newSpace: SpaceId, frameMap: map<FrameId,
      FrameId>, decode: Decoder)
    returns (r: Result<()>)
    requires src != dst && WellFormedFile(src.State()) && OwnersKnown(src.State()) && KeepsLength(decode)
    requires space < |src.spaces| == |dst.spaces| && newSpace == space && dst.spaces[space].dim == src.spaces[space].dim
    requires frameMap == FrameMap(src.State(), |src.frames|) && dst.frames == NewFrames(src.State(), |src.frames|)
    modifies dst
    ensures dst.frames == old(dst.frames) && dst.spaces == old(dst.spaces) && dst.collections == old(dst.collections)
    ensures r.Ok? <==> SpaceReadable(src.State(), space, |src.vectors|)
    ensures r.Ok? ==> dst.vectors == old(dst.vectors) + NewRows(src.State(), decode, space, |src.vectors|)
    ensures r.Err? ==> r == Err(NotYetCommitted)
  {
    var fs := src.State();
    hide NewFrames, FrameMap, WellFormedFile, KeepsLength;
    for v := 0 to |fs.vectors|
      invariant dst.frames == old(dst.frames) && dst.spaces == old(dst.spaces)
                && dst.collections == old(dst.collections)
      invariant SpaceReadable(fs, space, v)
      invariant dst.vectors == old(dst.vectors) + NewRows(fs, decode, space, v)
    {
      var row := fs.vectors[v];
      FrameMapAt(fs, row.owner);
      if row.active && row.space == space && row.owner in frameMap {
        assert Streamed(fs, space, v);
        if v >= fs.flushedVectors { return Err(NotYetCommitted); }
        NewRowFits(fs, decode, space, v);
        StreamedOwner(fs, row.owner);
        var id := dst.PutVector(frameMap[row.owner], newSpace, Decoded(fs, decode, v));
        assert id.Ok?;
      }
    }
    r := Ok(());
  }

  lemma FrameMapAt(fs: FileState, i: FrameId)
    requires i < |fs.frames|
    ensures i in FrameMap(fs, |fs.frames|) <==> fs.frames[i].active
    ensures fs.frames[i].active ==> FrameMap(fs, |fs.frames|)[i] == Rank(fs.frames, i)
  {
  }

  lemma StreamedOwner(fs: FileState, i: FrameId)
    requires i < |fs.frames| && fs.frames[i].active
    ensures var frames := NewFrames(fs, |fs.frames|);
            Rank(fs.frames, i) < |frames| && frames[Rank(fs.frames, i)].active
                && frames[Rank(fs.frames, i)].coll == fs.frames[i].coll
  {
    NewFramesAt(fs, |fs.frames|, i);
  }

  method CopyVectors(src: ValiseFile, dst: ValiseFile, spaceMap: map<SpaceId, SpaceId>, frameMap: map<FrameId,
      FrameId>, decode: Decoder)
    returns (r: Result<()>)
    requires src != dst && WellFormedFile(src.State()) && OwnersKnown(src.State()) && KeepsLength(decode)
             && dst.vectors == []
    requires |src.spaces| == |dst.spaces| && IsIdentity(spaceMap, |src.spaces|)
    requires forall i :: 0 <= i < |src.spaces| ==> dst.spaces[i].dim == src.spaces[i].dim
    requires frameMap == FrameMap(src.State(), |src.frames|) && dst.frames == NewFrames(src.State(), |src.frames|)
    modifies dst
    ensures dst.frames == old(dst.frames) && dst.spaces == old(dst.spaces) && dst.collections == old(dst.collections)
    ensures r.Ok? <==> Readable(src.State())
    ensures r.Ok? ==> dst.vectors == NewVectors(src.State(), decode, |src.spaces|)
    ensures r.Err? ==> r == Err(NotYetCommitted)
  {
    ghost var fs := src.State();
    ReadableBySpace(fs);
    hide Readable, SpaceReadable, WellFormedFile, KeepsLength, NewRows, NewFrames;
    for space := 0 to |src.spaces|
      invariant dst.frames == old(dst.frames) && dst.spaces == old(dst.spaces)
                && dst.collections == old(dst.collections)
      invariant forall sp :: 0 <= sp < space ==> SpaceReadable(fs, sp, |fs.vectors|)
      invariant dst.vectors == NewVectors(fs, decode, space)
    {
      var c := CopyVectorsOf(src, dst, space, spaceMap[space], frameMap, decode);
      if c.Err? { return c; }
    }
    r := Ok(());
  }

  /** What a compaction needs of its source. */
  predicate Streamable(fs: FileState, recalibrate: bool)
  {
    (recalibrate ==> SamplesReadable(fs)) && Readable(fs) && TimeOrdered(fs.frames)
  }

  /** The operation on values succeeds exactly where the method does, and with the same file. */
  lemma StreamableIff(s: StoreState, recalibrate: bool, decode: Decoder)
    requires OwnersKnown(s.file)
    ensures CompactOf(s, recalibrate, decode).Ok? <==>
            NothingTombstoned(s.file) || Streamable(s.file, recalibrate)
    ensures CompactOf(s, recalibrate, decode).Ok? ==>
            CompactOf(s, recalibrate, decode).value.file ==
            if NothingTombstoned(s.file) then s.file else CompactedFile(s.file, recalibrate, decode)
  {
    hide SamplesReadable, Readable, TimeOrdered, CompactedFile, RebuiltIndex;
  }

  /** Streams the live set of `src` into a fresh, committed file. */
  method BuildCompactedFile(src: ValiseFile, recalibrate: bool, decode: Decoder,
      fsyncOk: bool) returns (r: Result<ValiseFile>)
    requires WellFormedFile(src.State()) && KeepsLength(decode)
    ensures r.Ok? <==> Streamable(src.State(), recalibrate) && fsyncOk
    ensures r.Ok? ==> fresh(r.value) && r.value.State() == CompactedFile(src.State(), recalibrate, decode)
  {
    ghost var fs := src.State();
    var dst := new ValiseFile();
    var spaceMap := CopySpaces(src, dst, recalibrate, decode);
    if spaceMap.Err? { return Err(spaceMap.error); }
    var collMap := CopyCollections(src, dst);
    var frameMap := CopyFrames(src, dst, collMap);
    var copied := CopyVectors(src, dst, spaceMap.value, frameMap, decode);
    if copied.Err? { return Err(copied.error); }
    CompactProofs.CompactedTimeOrdered(fs);
    var committed := dst.Commit(fsyncOk);
    if committed.Err? { return Err(committed.error); }
    r := Ok(dst);
  }

  /** Everything a compaction swaps in: a fresh file and the index rebuilt from it. */
  method CompactStore(src: ValiseFile, recalibrate: bool, decode: Decoder, fsyncOk: bool)
    returns (r: Result<(ValiseFile, IdentityIndex, bool)>)
    requires WellFormedFile(src.State()) && KeepsLength(decode)
    ensures NothingTombstoned(src.State()) ==> r.Ok? && !r.value.2 && r.value.0 == src
    ensures !NothingTombstoned(src.State()) ==>
              (r.Ok? <==> Streamable(src.State(), recalibrate) && fsyncOk)
    ensures r.Ok? && r.value.2 ==>
              && OwnersKnown(src.State())
              && r.value.0.State() == CompactedFile(src.State(), recalibrate, decode)
              && OwnersKnown(r.value.0.State())
              && r.value.1.entries == RebuiltIndex(r.value.0.State()) && r.value.1.uncommitted == []
  {
    var identity := new IdentityIndex();
    var framesAfter := |ActiveFrames(src.frames, |src.frames|)|;
    var vectorsAfter := CountActive(src.vectors, |src.vectors|);
    CountsMeanTombstones(src.frames, src.vectors);
    if |src.frames| == framesAfter && |src.vectors| == vectorsAfter {
      return Ok((src, identity, false));
    }
    var built := BuildCompactedFile(src, recalibrate, decode, fsyncOk);
    if built.Err? { return Err(built.error); }
    CompactProofs.CompactedWellFormed(src.State(), recalibrate, decode);
    identity.Rebuild(built.value);
    r := Ok((built.value, identity, true));
  }

  function CountActive(vectors: seq<VectorRow>, n: nat): (c: nat)
    requires n <= |vectors|
    ensures c <= n
  {
    if n == 0 then 0 else CountActive(vectors, n - 1) + (if vectors[n - 1].active then 1 else 0)
  }

  lemma {:induction false} AllCounted(vectors: seq<VectorRow>, n: nat)
    requires n <= |vectors|
    ensures CountActive(vectors, n) == n <==> forall v :: 0 <= v < n ==> vectors[v].active
  {
    if n > 0 {
      AllCounted(vectors, n - 1);
    }
  }

  lemma {:induction false} AllActive(frames: seq<Frame>, n: nat)
    requires n <= |frames|
    ensures |ActiveFrames(frames, n)| <= n
    ensures |ActiveFrames(frames, n)| == n <==> forall i :: 0 <= i < n ==> frames[i].active
  {
    if n > 0 {
      AllActive(frames, n - 1);
    }
  }

  /** Comparing raw counts decides whether anything is tombstoned. */
  lemma CountsMeanTombstones(frames: seq<Frame>, vectors: seq<VectorRow>)
    ensures |frames| == |ActiveFrames(frames, |frames|)| && |vectors| == CountActive(vectors, |vectors|) <==>
            (forall i :: 0 <= i < |frames| ==> frames[i].active)
                && (forall v :: 0 <= v < |vectors| ==> vectors[v].active)
  {
    AllActive(frames, |frames|);
    AllCounted(vectors, |vectors|);
  }
}

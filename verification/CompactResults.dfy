/**
 What compaction makes of codecs and vectors, said of the file alone (`src/db/compact.rs`): each live
 vector is decoded by the codec of its own space, and a codec is kept, or re-fitted on exactly the first
 live vectors of its space.
 */
module CompactResults {
  import opened Basics
  import opened Keys
  import opened Engine
  import opened Identity
  import opened Schema
  import opened Store
  import opened StoreProofs
  import opened StoreView
  import opened Compact
  import opened CompactProofs

  // ------------------------------------------------------------------ codecs

  predicate LiveIn(fs: FileState, space: SpaceId, v: VectorId)
  {
    v < |fs.vectors| && fs.vectors[v].active && fs.vectors[v].space == space
  }

  /** The live vectors of a space with the smallest ids, at most `limit` of them, in order. */
  ghost predicate FirstLive(fs: FileState, space: SpaceId, limit: nat, ids: seq<VectorId>)
  {
    && |ids| <= limit
    && (forall j :: 0 <= j < |ids| ==> LiveIn(fs, space, ids[j]))
    && (forall i, j :: 0 <= i < j < |ids| ==> ids[i] < ids[j])
    && forall v: nat :: LiveIn(fs, space, v) && v !in ids ==>
         |ids| == limit && forall j :: 0 <= j < |ids| ==> ids[j] < v
  }

  /** The vectors of `ids`, each read back through the codec of its own space. */
  predicate ReadBack(fs: FileState, decode: Decoder, ids: seq<VectorId>, sample: seq<seq<real>>)
  {
    && |sample| == |ids|
    && forall j :: 0 <= j < |ids| ==>
         ids[j] < |fs.vectors| && fs.vectors[ids[j]].space < |fs.spaces|
         && sample[j] == decode(fs.spaces[fs.vectors[ids[j]].space].codec, fs.vectors[ids[j]].values)
  }

  function AtMost(ids: seq<VectorId>, limit: nat): seq<VectorId>
  {
    if |ids| < limit then ids else ids[..limit]
  }

  lemma AtMostEmpty(ids: seq<VectorId>, limit: nat)
    requires limit > 0
    ensures AtMost(ids, limit) == [] <==> forall v: nat :: v !in ids
  {
    if ids != [] { assert ids[0] in ids; }
  }

  lemma SampleIs(fs: FileState, space: SpaceId)
    ensures var all := ActiveVectors(fs, space, |fs.vectors|);
            && SampleIds(fs, space) == AtMost(all, RECALIBRATE_SAMPLE) && RECALIBRATE_SAMPLE > 0
            && (forall i, j :: 0 <= i < j < |all| ==> all[i] < all[j])
            && forall v: nat :: v in all <==> LiveIn(fs, space, v)
  {
    hide ActiveVectors;
  }

  lemma PrefixIsFirst(fs: FileState, space: SpaceId, limit: nat, all: seq<VectorId>)
    requires forall i, j :: 0 <= i < j < |all| ==> all[i] < all[j]
    requires forall v: nat :: v in all <==> LiveIn(fs, space, v)
    ensures FirstLive(fs, space, limit, AtMost(all, limit))
  {
    var ids := AtMost(all, limit);
    hide LiveIn;
    forall j | 0 <= j < |ids| ensures LiveIn(fs, space, ids[j]) { assert ids[j] == all[j] && all[j] in all; }
    forall i, j | 0 <= i < j < |ids| ensures ids[i] < ids[j] { assert ids[i] == all[i] && ids[j] == all[j]; }
    forall v: nat | LiveIn(fs, space, v) && v !in ids
      ensures |ids| == limit && forall j :: 0 <= j < |ids| ==> ids[j] < v
    {
      var i :| 0 <= i < |all| && all[i] == v;
      assert forall j :: 0 <= j < |ids| ==> ids[j] in ids && ids[j] == all[j];
      forall j | 0 <= j < |ids| ensures ids[j] < v { assert ids[j] == all[j]; }
    }
  }

  lemma SampleIsFirstLive(fs: FileState, space: SpaceId)
    ensures FirstLive(fs, space, RECALIBRATE_SAMPLE, SampleIds(fs, space))
    ensures SampleIds(fs, space) == [] <==> forall v: nat :: !LiveIn(fs, space, v)
  {
    hide *;
    SampleIs(fs, space);
    PrefixIsFirst(fs, space, RECALIBRATE_SAMPLE, ActiveVectors(fs, space, |fs.vectors|));
    AtMostEmpty(ActiveVectors(fs, space, |fs.vectors|), RECALIBRATE_SAMPLE);
  }

  /**
   A space keeps its name and dimension.  It keeps its codec too, unless asked to re-fit and not empty;
   then the codec is fitted on its first live vectors, read back.
   */
  lemma CodecAfter(fs: FileState, recalibrate: bool, decode: Decoder, space: SpaceId)
    requires WellFormedFile(fs) && space < |fs.spaces|
    ensures var t := CompactedFile(fs, recalibrate, decode);
            && |t.spaces| == |fs.spaces|
            && t.spaces[space].name == fs.spaces[space].name && t.spaces[space].dim == fs.spaces[space].dim
            && (!recalibrate || (forall v: nat :: !LiveIn(fs, space, v)) ==> t.spaces[space] == fs.spaces[space])
            && (recalibrate && (exists v: nat :: LiveIn(fs, space, v)) ==>
                  t.spaces[space].codec.Fitted?
                  && exists ids :: FirstLive(fs, space, 50_000, ids)
                       && ReadBack(fs, decode, ids, t.spaces[space].codec.sample))
  {
    SampleIsFirstLive(fs, space);
    var ids, sample := SampleIds(fs, space), LiveSample(fs, decode, space);
    assert |sample| == |ids|;
    forall j | 0 <= j < |ids|
      ensures fs.vectors[ids[j]].space < |fs.spaces|
              && sample[j] == decode(fs.spaces[fs.vectors[ids[j]].space].codec, fs.vectors[ids[j]].values)
    {
      assert LiveIn(fs, space, ids[j]);
    }
    assert ReadBack(fs, decode, ids, sample);
    assert CompactedFile(fs, recalibrate, decode).spaces[space] == NewSpace(fs, recalibrate, decode, space);
    hide WellFormedFile, CompactedFile, SampleIds, LiveSample, FirstLive, ReadBack, LiveIn;
  }

  // ------------------------------------------------------------------ when it is refused

  predicate PendingVector(fs: FileState, v: VectorId)
  {
    fs.flushedVectors <= v < |fs.vectors| && fs.vectors[v].active
  }

  /** Something tombstoned is compacted away unless a live vector is uncommitted or the frames are out of order. */
  lemma CompactVerdict(s: StoreState, recalibrate: bool, decode: Decoder)
    requires Coherent(s) && !NothingTombstoned(s.file)
    ensures CompactOf(s, recalibrate, decode).Ok? <==>
            (forall v: nat :: !PendingVector(s.file, v)) && TimeOrdered(s.file.frames)
    ensures CompactOf(s, recalibrate, decode) == Err(NotYetCommitted) <==> exists v: nat :: PendingVector(s.file, v)
  {
    hide NothingTombstoned, TimeOrdered, CompactedFile, RebuiltIndex;
    LiveOwners(s);
    ReadableIff(s.file);
    if forall v: nat :: !PendingVector(s.file, v) { SamplesFollow(s.file); }
    hide Coherent, Readable, SamplesReadable, PendingVector;
  }

  predicate OwnersActive(fs: FileState)
  {
    forall v :: 0 <= v < |fs.vectors| && fs.vectors[v].active ==>
      fs.vectors[v].owner < |fs.frames| && fs.frames[fs.vectors[v].owner].active
  }

  lemma LiveOwners(s: StoreState)
    requires Coherent(s)
    ensures OwnersActive(s.file)
  {
    hide IsKey, WellFormedFile, IndexMatchesFrames, EntriesListVectors, SchemaFits, CollectionsFit, CommitStatus,
         StagedFits;
  }

  lemma ReadableIff(fs: FileState)
    requires OwnersActive(fs)
    ensures Readable(fs) <==> forall v: nat :: !PendingVector(fs, v)
  {
    if forall v: nat :: !PendingVector(fs, v) {
      forall v | 0 <= v < |fs.vectors| && fs.vectors[v].active ensures v < fs.flushedVectors {
        assert !PendingVector(fs, v);
      }
    }
    if Readable(fs) {
      forall v: nat ensures !PendingVector(fs, v) {
        if v < |fs.vectors| && fs.vectors[v].active { assert v < fs.flushedVectors; }
      }
    }
  }

  lemma SamplesFollow(fs: FileState)
    requires forall v: nat :: !PendingVector(fs, v)
    ensures SamplesReadable(fs)
  {
    forall space | 0 <= space < |fs.spaces| ensures SampleReadable(fs, space) {
      SampleIsFirstLive(fs, space);
      hide SampleIds;
      forall j | 0 <= j < |SampleIds(fs, space)| ensures SampleIds(fs, space)[j] < fs.flushedVectors {
        var v := SampleIds(fs, space)[j];
        assert LiveIn(fs, space, v) && !PendingVector(fs, v);
      }
    }
  }

  // ------------------------------------------------------------------ records

  /** Vector `v` of frame `i`, named by its space and read back through that space's codec, is `w`. */
  predicate OwnsDecoded(fs: FileState, decode: Decoder, i: FrameId, v: VectorId, w: NamedVector)
    requires v < |fs.vectors|
  {
    var row := fs.vectors[v];
    row.active && row.owner == i && row.space < |fs.spaces|
    && w == (fs.spaces[row.space].name, decode(fs.spaces[row.space].codec, row.values))
  }

  function Owners(fs: FileState, decode: Decoder, i: FrameId, n: nat, w: NamedVector): set<VectorId>
    requires n <= |fs.vectors|
  {
    set v: nat | v < n && OwnsDecoded(fs, decode, i, v, w)
  }

  lemma OneMoreOwner(fs: FileState, decode: Decoder, i: FrameId, n: nat, w: NamedVector)
    requires 0 < n <= |fs.vectors|
    ensures |Owners(fs, decode, i, n, w)| ==
            |Owners(fs, decode, i, n - 1, w)| + DecodedRow(fs, decode, i, 0, |fs.spaces|, n - 1)[w]
  {
    var last := n - 1;
    assert DecodedRow(fs, decode, i, 0, |fs.spaces|, last)[w] == if OwnsDecoded(fs, decode, i, last, w) then 1 else 0;
    hide OwnsDecoded, DecodedRow;
    assert Owners(fs, decode, i, n, w) ==
           Owners(fs, decode, i, last, w) + (if OwnsDecoded(fs, decode, i, last, w) then {last} else {});
  }

  lemma {:induction false} DecodedCounted(fs: FileState, decode: Decoder, i: FrameId, n: nat, w: NamedVector)
    requires n <= |fs.vectors|
    ensures DecodedOwned(fs, decode, i, 0, |fs.spaces|, n)[w] == |Owners(fs, decode, i, n, w)|
  {
    if n > 0 {
      DecodedCounted(fs, decode, i, n - 1, w);
      OneMoreOwner(fs, decode, i, n, w);
      hide DecodedRow, Owners;
    }
  }

  /** A record that survives keeps its role, payload and time, and its vectors are counted one by one, each decoded. */
  lemma CompactStores(s: StoreState, recalibrate: bool, decode: Decoder, k: KeyRef)
    requires Coherent(s) && KeepsLength(decode) && k in s.index && s.index[k].frame < s.file.flushedFrames
    requires CompactOf(s, recalibrate, decode).Ok? && !NothingTombstoned(s.file)
    ensures Lookup(s, k).Some? && Lookup(CompactOf(s, recalibrate, decode).value, k).Some?
    ensures var was, got := Lookup(s, k).value, Lookup(CompactOf(s, recalibrate, decode).value, k).value;
            && got.role == was.role && got.payload == was.payload && got.createdAt == was.createdAt
            && (got.parent.Some? ==> got.parent == was.parent)
            && forall w :: got.vectors[w] == |Owners(s.file, decode, s.index[k].frame, |s.file.vectors|, w)|
  {
    CompactMeaning(s, recalibrate, decode, k);
    LookupByIndex(s, k);
    var i := s.index[k].frame;
    assert i < |s.file.frames| by {
      hide IsKey, WellFormedFile, EntriesListVectors, OwnersLive, SchemaFits, CollectionsFit, CommitStatus, StagedFits;
    }
    forall w
      ensures DecodedOwned(s.file, decode, i, 0, |s.file.spaces|, |s.file.vectors|)[w] ==
              |Owners(s.file, decode, i, |s.file.vectors|, w)|
    {
      DecodedCounted(s.file, decode, i, |s.file.vectors|, w);
    }
    hide Coherent, CompactOf, Lookup, DecodedOwned, Owners, EngineVectors, StagedVectors, NothingTombstoned;
  }
}

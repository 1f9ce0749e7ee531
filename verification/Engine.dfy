/**
 The append-only engine as the layer above it relies on it (`src/file`).

 Ids are positions: the n-th frame ever appended has id n, and nothing is ever removed, only
 tombstoned.  A frame's uri and payload reference appear when its buffer is flushed (at commit, or
 early once the buffer is full), and a vector cannot be tombstoned before it is flushed.
 */
module Engine {
  import opened Basics
  import opened Keys

  type FrameId = nat
  type VectorId = nat
  type SpaceId = nat
  type CollectionId = nat

  /** A record's identity: its collection and its encoded key. */
  type KeyRef = (CollectionId, Bytes)

  datatype Role = Document | Chunk

  datatype Frame = Frame(
    coll: CollectionId,
    role: Role,
    uri: Option<Bytes>,
    payload: Bytes,
    createdAt: int,
    parent: Option<FrameId>,
    active: bool)

  datatype VectorRow = VectorRow(owner: FrameId, coll: CollectionId, space: SpaceId, values: seq<real>, active: bool)

  /** A vector codec, known only by what it was fitted on: calibration itself is not modelled. */
  datatype Codec = Fitted(sample: seq<seq<real>>) | Prebuilt(params: Bytes)

  datatype SpaceDesc = SpaceDesc(name: string, dim: nat, codec: Codec)

  datatype CollectionDesc = CollectionDesc(name: string, createdAt: int)

  /** Everything the engine holds, with `members*` the contents as of the last commit. */
  datatype FileState = FileState(
    frames: seq<Frame>,
    vectors: seq<VectorRow>,
    spaces: seq<SpaceDesc>,
    collections: seq<CollectionDesc>,
    flushedFrames: nat,
    flushedVectors: nat,
    buffered: nat,
    memberFrames: seq<Frame>,
    memberVectors: seq<VectorRow>)

  const EMPTY_FILE := FileState([], [], [], [], 0, 0, 0, [], [])

  /** Soft cap on the payload buffer, 4 MiB. */
  const PAYLOAD_BATCH_FLUSH_BYTES: nat := 4 * 1024 * 1024

  // ------------------------------------------------------------------ reading

  /** `read_frame_uri`: nothing until the frame is flushed. */
  function ReadUri(fs: FileState, i: FrameId): Option<Bytes>
    requires i < |fs.frames|
  {
    if i < fs.flushedFrames then fs.frames[i].uri else None
  }

  /** `active_vectors`, restricted to ids below `n`, ascending. */
  function ActiveVectors(fs: FileState, space: SpaceId, n: nat): (ids: seq<VectorId>)
    requires n <= |fs.vectors|
    ensures forall v: nat :: v in ids <==> v < n && fs.vectors[v].active && fs.vectors[v].space == space
    ensures forall i, j :: 0 <= i < j < |ids| ==> ids[i] < ids[j]
  {
    if n == 0 then []
    else
      var before := ActiveVectors(fs, space, n - 1);
      assert forall i :: 0 <= i < |before| ==> before[i] in before;
      before + (if fs.vectors[n - 1].active && fs.vectors[n - 1].space == space then [n - 1] else [])
  }

  /** `active_frames`, restricted to ids below `n`, ascending. */
  function ActiveFrames(frames: seq<Frame>, n: nat): (ids: seq<FrameId>)
    requires n <= |frames|
    ensures forall i: nat :: i in ids <==> i < n && frames[i].active
    ensures forall i, j :: 0 <= i < j < |ids| ==> ids[i] < ids[j]
  {
    if n == 0 then []
    else
      var before := ActiveFrames(frames, n - 1);
      assert forall i :: 0 <= i < |before| ==> before[i] in before;
      before + (if frames[n - 1].active then [n - 1] else [])
  }

  // ------------------------------------------------------------------ well-formedness

  predicate OwnersKnown(fs: FileState)
  {
    forall v :: 0 <= v < |fs.vectors| ==> fs.vectors[v].owner < |fs.frames|
  }

  predicate WellFormedFile(fs: FileState)
  {
    && OwnersKnown(fs)
    && fs.flushedFrames <= |fs.frames|
    && fs.flushedVectors <= |fs.vectors|
    && (forall v :: 0 <= v < fs.flushedVectors ==> fs.vectors[v].owner < fs.flushedFrames)
    && |fs.memberFrames| <= fs.flushedFrames
    && |fs.memberVectors| <= fs.flushedVectors
    && (forall v :: 0 <= v < |fs.vectors| ==>
          && fs.vectors[v].space < |fs.spaces|
          && |fs.vectors[v].values| == fs.spaces[fs.vectors[v].space].dim
          && fs.vectors[v].coll == fs.frames[fs.vectors[v].owner].coll)
    && (forall i :: 0 <= i < |fs.frames| ==>
          && fs.frames[i].coll < |fs.collections|
          && (fs.frames[i].parent.Some? ==> fs.frames[i].parent.value < i))
    && (forall i :: 0 <= i < |fs.memberFrames| ==> fs.memberFrames[i].coll == fs.frames[i].coll)
    && (forall v :: 0 <= v < |fs.memberVectors| ==> fs.memberVectors[v].coll == fs.vectors[v].coll)
    && (forall c, d :: 0 <= c < d < |fs.collections| ==> fs.collections[c].name != fs.collections[d].name)
  }

  /** The order the time index accepts: `created_at` non-decreasing in id order over active frames. */
  predicate TimeOrdered(frames: seq<Frame>)
  {
    forall i, j :: 0 <= i < j < |frames| && frames[i].active && frames[j].active ==>
      frames[i].createdAt <= frames[j].createdAt
  }

  // ------------------------------------------------------------------ the time index

  predicate EntryBefore(frames: seq<Frame>, i: FrameId, j: FrameId)
    requires i < |frames| && j < |frames|
  {
    frames[i].createdAt < frames[j].createdAt || (frames[i].createdAt == frames[j].createdAt && i < j)
  }

  /** `s` lists distinct frames, earliest first, equal times by id. */
  predicate SortedEntries(frames: seq<Frame>, s: seq<FrameId>)
  {
    && (forall k :: 0 <= k < |s| ==> s[k] < |frames|)
    && (forall k, l :: 0 <= k < l < |s| ==> EntryBefore(frames, s[k], s[l]))
  }

  function InsertEntry(frames: seq<Frame>, s: seq<FrameId>, i: FrameId): (r: seq<FrameId>)
    requires SortedEntries(frames, s) && i < |frames| && i !in s
    ensures SortedEntries(frames, r)
    ensures forall j :: j in r <==> j == i || j in s
  {
    if s == [] then [i]
    else if EntryBefore(frames, i, s[0]) then [i] + s
    else
      var rest := InsertEntry(frames, s[1..], i);
      assert forall k :: 0 <= k < |rest| ==> rest[k] in rest;
      [s[0]] + rest
  }

  function SortByTime(frames: seq<Frame>, ids: seq<FrameId>): (r: seq<FrameId>)
    requires forall k :: 0 <= k < |ids| ==> ids[k] < |frames|
    requires forall k, l :: 0 <= k < l < |ids| ==> ids[k] < ids[l]
    ensures SortedEntries(frames, r)
    ensures forall j :: j in r <==> j in ids
  {
    if ids == [] then []
    else InsertEntry(frames, SortByTime(frames, ids[..|ids| - 1]), ids[|ids| - 1])
  }

  /** `build_snapshot` of the time index. */
  function TimeEntries(frames: seq<Frame>): (r: seq<FrameId>)
    ensures SortedEntries(frames, r)
    ensures forall i: nat :: i in r <==> i < |frames| && frames[i].active
  {
    var ids := ActiveFrames(frames, |frames|);
    assert forall k :: 0 <= k < |ids| ==> ids[k] in ids;
    SortByTime(frames, ids)
  }

  /** Sorting and then requiring ascending ids accepts exactly the time-ordered catalogs. */
  lemma AcceptedIffTimeOrdered(frames: seq<Frame>, entries: seq<FrameId>)
    requires SortedEntries(frames, entries)
    requires forall i: nat :: i in entries <==> i < |frames| && frames[i].active
    ensures (forall k :: 1 <= k < |entries| ==> entries[k - 1] <= entries[k]) <==> TimeOrdered(frames)
  {
    if forall k :: 1 <= k < |entries| ==> entries[k - 1] <= entries[k] {
      Ascending(entries);
      forall i, j | 0 <= i < j < |frames| && frames[i].active && frames[j].active
        ensures frames[i].createdAt <= frames[j].createdAt
      {
        var k :| 0 <= k < |entries| && entries[k] == i;
        var l :| 0 <= l < |entries| && entries[l] == j;
        assert k < l;
      }
    }
    if TimeOrdered(frames) {
      forall k | 1 <= k < |entries| ensures entries[k - 1] <= entries[k] {
        assert EntryBefore(frames, entries[k - 1], entries[k]);
        assert entries[k - 1] in entries && entries[k] in entries;
      }
    }
  }

  lemma {:induction false} Ascending(s: seq<nat>)
    requires forall k :: 1 <= k < |s| ==> s[k - 1] <= s[k]
    ensures forall k, l :: 0 <= k <= l < |s| ==> s[k] <= s[l]
  {
    if s != [] {
      var t := s[..|s| - 1];
      Ascending(t);
      forall k, l | 0 <= k <= l < |s| ensures s[k] <= s[l] {
        if l == |s| - 1 && k < l {
          assert t[k] <= t[l - 1];
        }
      }
    }
  }

  // ------------------------------------------------------------------ writing, on values

  function Appended(fs: FileState, f: Frame): FileState
  {
    var buffered := fs.buffered + |f.payload|;
    if buffered >= PAYLOAD_BATCH_FLUSH_BYTES
    then fs.(frames := fs.frames + [f], flushedFrames := |fs.frames| + 1, buffered := 0)
    else fs.(frames := fs.frames + [f], buffered := buffered)
  }

  /** Between puts less than 4 MiB of payload is buffered, and a put that reaches it flushes every frame. */
  lemma BufferBounded(fs: FileState, f: Frame)
    requires fs.flushedFrames <= |fs.frames|
    ensures Appended(fs, f).buffered < 4_194_304
    ensures Appended(fs, f).flushedFrames ==
            if fs.buffered + |f.payload| >= 4_194_304 then |fs.frames| + 1 else fs.flushedFrames
  {
  }

  function KilledFrame(frames: seq<Frame>, i: FrameId): seq<Frame>
    requires i < |frames|
  {
    frames[i := frames[i].(active := false)]
  }

  function KilledVectors(vectors: seq<VectorRow>, ids: set<VectorId>): (r: seq<VectorRow>)
    ensures |r| == |vectors|
  {
    seq(|vectors|, v requires 0 <= v < |vectors| =>
      if v in ids then vectors[v].(active := false) else vectors[v])
  }

  /** A successful commit: everything is flushed and becomes the committed snapshot. */
  function CommittedFile(fs: FileState): FileState
  {
    fs.(flushedFrames := |fs.frames|, flushedVectors := |fs.vectors|, buffered := 0,
        memberFrames := fs.frames, memberVectors := fs.vectors)
  }

  /** Everything flushed and nothing changed since the last commit. */
  predicate Settled(fs: FileState)
  {
    fs == CommittedFile(fs)
  }

  // ------------------------------------------------------------------ the engine object

  class ValiseFile {
    var frames: seq<Frame>
    var vectors: seq<VectorRow>
    var spaces: seq<SpaceDesc>
    var collections: seq<CollectionDesc>
    var flushedFrames: nat
    var flushedVectors: nat
    var buffered: nat
    var memberFrames: seq<Frame>
    var memberVectors: seq<VectorRow>

    constructor ()
      ensures State() == EMPTY_FILE
    {
      frames, vectors, spaces, collections := [], [], [], [];
      flushedFrames, flushedVectors, buffered := 0, 0, 0;
      memberFrames, memberVectors := [], [];
    }

    function State(): FileState
      reads this
    {
      FileState(frames, vectors, spaces, collections, flushedFrames, flushedVectors, buffered,
                memberFrames, memberVectors)
    }

    method CreateCollectionAt(name: string, createdAt: int) returns (r: Result<CollectionId>)
      modifies this
      ensures (exists c :: 0 <= c < |old(collections)| && old(collections)[c].name == name) ==>
                r == Err(CollectionExists) && State() == old(State())
      ensures (forall c :: 0 <= c < |old(collections)| ==> old(collections)[c].name != name) ==>
                && r == Ok(|old(collections)|)
                && State() == old(State()).(collections := old(collections) + [CollectionDesc(name, createdAt)])
    {
      for c := 0 to |collections|
        invariant forall d :: 0 <= d < c ==> collections[d].name != name
      {
        if collections[c].name == name {
          return Err(CollectionExists);
        }
      }
      r := Ok(|collections|);
      collections := collections + [CollectionDesc(name, createdAt)];
    }

    /** `register_embedding_space`, with the codec it is registered for already checked. */
    method RegisterSpace(desc: SpaceDesc) returns (id: SpaceId)
      modifies this
      ensures id == |old(spaces)| && State() == old(State()).(spaces := old(spaces) + [desc])
    {
      id := |spaces|;
      spaces := spaces + [desc];
    }

    method PutFrame(f: Frame) returns (r: Result<FrameId>)
      requires f.active
      modifies this
      ensures f.coll >= |old(collections)| ==> r == Err(UnknownCollection) && State() == old(State())
      ensures f.coll < |old(collections)| ==> r == Ok(|old(frames)|) && State() == Appended(old(State()), f)
    {
      if f.coll >= |collections| {
        return Err(UnknownCollection);
      }
      r := Ok(|frames|);
      buffered := buffered + |f.payload|;
      frames := frames + [f];
      if buffered >= PAYLOAD_BATCH_FLUSH_BYTES {
        flushedFrames, buffered := |frames|, 0;
      }
    }

    method PutVector(owner: FrameId, space: SpaceId, values: seq<real>) returns (r: Result<VectorId>)
      modifies this
      ensures r == if owner >= |old(frames)| then Err(UnknownFrame)
                   else if !old(frames)[owner].active then Err(FrameNotActive)
                   else if space >= |old(spaces)| then Err(UnknownSpace)
                   else if |values| != old(spaces)[space].dim then Err(DimensionMismatch)
                   else Ok(|old(vectors)|)
      ensures r.Err? ==> State() == old(State())
      ensures r.Ok? ==> State() == old(State()).(vectors :=
                old(vectors) + [VectorRow(owner, old(frames)[owner].coll, space, values, true)])
    {
      if owner >= |frames| { return Err(UnknownFrame); }
      if !frames[owner].active { return Err(FrameNotActive); }
      if space >= |spaces| { return Err(UnknownSpace); }
      if |values| != spaces[space].dim { return Err(DimensionMismatch); }
      r := Ok(|vectors|);
      vectors := vectors + [VectorRow(owner, frames[owner].coll, space, values, true)];
    }

    /** Tombstones a flushed vector; one still in a pending batch is refused. */
    method DeleteVector(v: VectorId) returns (r: Result<()>)
      modifies this
      ensures r == if old(flushedVectors) <= v < |old(vectors)| then Err(NotYetCommitted)
                   else if v >= |old(vectors)| || !old(vectors)[v].active then Err(UnknownVector)
                   else Ok(())
      ensures r.Err? ==> State() == old(State())
      ensures r.Ok? ==> State() == old(State()).(vectors := KilledVectors(old(vectors), {v}))
    {
      if flushedVectors <= v < |vectors| { return Err(NotYetCommitted); }
      if v >= |vectors| || !vectors[v].active { return Err(UnknownVector); }
      vectors := vectors[v := vectors[v].(active := false)];
      assert vectors == KilledVectors(old(vectors), {v});
      r := Ok(());
    }

    method DeleteFrame(i: FrameId) returns (r: Result<()>)
      modifies this
      ensures r == if i >= |old(frames)| || !old(frames)[i].active then Err(UnknownFrame) else Ok(())
      ensures r.Err? ==> State() == old(State())
      ensures r.Ok? ==> State() == old(State()).(frames := KilledFrame(old(frames), i))
    {
      if i >= |frames| || !frames[i].active { return Err(UnknownFrame); }
      frames := frames[i := frames[i].(active := false)];
      r := Ok(());
    }

    /**
     The engine commit: flush, rebuild the filters and the time index, fsync, publish.  After an
     error the caller must discard the batch, so nothing but the appended contents is promised.
     */
    method Commit(fsyncOk: bool) returns (r: Result<()>)
      modifies this
      ensures r == if !TimeOrdered(old(frames)) then Err(TimeOrder)
                   else if !fsyncOk then Err(FsyncFailed) else Ok(())
      ensures r.Ok? ==> State() == CommittedFile(old(State()))
      ensures r.Err? ==> frames == old(frames) && vectors == old(vectors) && spaces == old(spaces)
                         && collections == old(collections)
    {
      flushedFrames, flushedVectors, buffered := |frames|, |vectors|, 0;
      memberFrames, memberVectors := frames, vectors;
      var ordered := BuildTimeIndex();
      if !ordered { return Err(TimeOrder); }
      if !fsyncOk { return Err(FsyncFailed); }
      r := Ok(());
    }

    /**
     Builds the time index: the active frames sorted by time, ties by id.  The encoder stores id
     deltas unsigned, so it refuses the snapshot unless the ids come out ascending.
     */
    method BuildTimeIndex() returns (accepted: bool)
      ensures accepted <==> TimeOrdered(frames)
    {
      hide SortedEntries, TimeEntries, TimeOrdered;
      var entries := TimeEntries(frames);
      AcceptedIffTimeOrdered(frames, entries);
      var w := 1;
      while w < |entries|
        invariant forall k :: 1 <= k < w && k < |entries| ==> entries[k - 1] <= entries[k]
      {
        if entries[w] < entries[w - 1] {
          return false;
        }
        w := w + 1;
      }
      accepted := true;
    }
  }
}

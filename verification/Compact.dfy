/**
 Compaction (`src/db/compact.rs`): the live set is streamed into a fresh file with renumbered ids.
 */
module Compact {
  import opened Basics
  import opened Keys
  import opened Engine
  import opened Identity
  import opened Schema
  import opened Store

  /** `read_vector`: what decoding a stored vector gives back. */
  type Decoder = (Codec, seq<real>) -> seq<real>

  ghost predicate KeepsLength(decode: Decoder)
  {
    forall c, v :: |decode(c, v)| == |v|
  }

  /** Number of live vectors sampled to re-fit a codec. */
  const RECALIBRATE_SAMPLE: nat := 50_000

  // ------------------------------------------------------------------ the new file, on values

  /** The new id of an active frame: how many active frames come before it. */
  function Rank(frames: seq<Frame>, i: FrameId): FrameId
    requires i <= |frames|
  {
    if i == 0 then 0 else Rank(frames, i - 1) + (if frames[i - 1].active then 1 else 0)
  }

  /** A parent maps to its image if it is active and to none otherwise. */
  function NewParent(frames: seq<Frame>, parent: Option<FrameId>): Option<FrameId>
  {
    if parent.Some? && parent.value < |frames| && frames[parent.value].active
    then Some(Rank(frames, parent.value)) else None
  }

  /** A streamed frame.  An unflushed one has no payload or uri reference to stream. */
  function NewFrameOf(fs: FileState, i: FrameId): Frame
    requires i < |fs.frames|
  {
    var f := fs.frames[i];
    Frame(f.coll, f.role, ReadUri(fs, i), if i < fs.flushedFrames then f.payload else [], f.createdAt,
          NewParent(fs.frames, f.parent), true)
  }

  /** The frame map of a compaction. */
  predicate MapsTo(fs: FileState, i: FrameId, r: FrameId)
  {
    i < |fs.frames| && fs.frames[i].active && Rank(fs.frames, i) == r
  }

  ghost predicate HasSource(fs: FileState, r: FrameId)
  {
    exists i: nat :: MapsTo(fs, i, r)
  }

  function NewFrames(fs: FileState, n: nat): seq<Frame>
    requires n <= |fs.frames|
  {
    if n == 0 then []
    else NewFrames(fs, n - 1) + (if fs.frames[n - 1].active then [NewFrameOf(fs, n - 1)] else [])
  }

  function Decoded(fs: FileState, decode: Decoder, v: VectorId): seq<real>
    requires v < |fs.vectors|
  {
    var row := fs.vectors[v];
    if row.space < |fs.spaces| then decode(fs.spaces[row.space].codec, row.values) else row.values
  }

  /** The streamed image of a live vector. */
  function NewRow(fs: FileState, decode: Decoder, v: VectorId): VectorRow
    requires OwnersKnown(fs) && v < |fs.vectors|
  {
    var row := fs.vectors[v];
    VectorRow(Rank(fs.frames, row.owner), fs.frames[row.owner].coll, row.space, Decoded(fs, decode, v), true)
  }

  /** An active vector is streamed if its owner was. */
  predicate Streamed(fs: FileState, space: SpaceId, v: VectorId)
    requires OwnersKnown(fs) && v < |fs.vectors|
  {
    fs.vectors[v].active && fs.vectors[v].space == space && fs.frames[fs.vectors[v].owner].active
  }

  /** The streamed rows of one space, from vectors below `n`. */
  function NewRows(fs: FileState, decode: Decoder, space: SpaceId, n: nat): seq<VectorRow>
    requires OwnersKnown(fs) && n <= |fs.vectors|
  {
    if n == 0 then []
    else
      NewRows(fs, decode, space, n - 1) + (if Streamed(fs, space, n - 1) then [NewRow(fs, decode, n - 1)] else [])
  }

  function NewVectors(fs: FileState, decode: Decoder, n: nat): seq<VectorRow>
    requires OwnersKnown(fs)
  {
    if n == 0 then [] else NewVectors(fs, decode, n - 1) + NewRows(fs, decode, n - 1, |fs.vectors|)
  }

  function DecodedAll(fs: FileState, decode: Decoder, ids: seq<VectorId>): seq<seq<real>>
    requires forall j :: 0 <= j < |ids| ==> ids[j] < |fs.vectors|
  {
    seq(|ids|, j requires 0 <= j < |ids| => Decoded(fs, decode, ids[j]))
  }

  /** The first live vectors of a space. */
  function SampleIds(fs: FileState, space: SpaceId): (ids: seq<VectorId>)
    ensures forall j :: 0 <= j < |ids| ==> ids[j] < |fs.vectors|
  {
    var ids := ActiveIds(fs, space);
    if |ids| < RECALIBRATE_SAMPLE then ids else ids[..RECALIBRATE_SAMPLE]
  }

  function LiveSample(fs: FileState, decode: Decoder, space: SpaceId): seq<seq<real>>
  {
    DecodedAll(fs, decode, SampleIds(fs, space))
  }

  /** Reuse the codec, or re-fit it on the live sample when asked to and there is one. */
  function NewSpace(fs: FileState, recalibrate: bool, decode: Decoder, space: SpaceId): SpaceDesc
    requires space < |fs.spaces|
  {
    var sample := LiveSample(fs, decode, space);
    if recalibrate && sample != [] then fs.spaces[space].(codec := Fitted(sample)) else fs.spaces[space]
  }

  function NewSpaces(fs: FileState, recalibrate: bool, decode: Decoder): (r: seq<SpaceDesc>)
    ensures |r| == |fs.spaces|
  {
    seq(|fs.spaces|, i requires 0 <= i < |fs.spaces| => NewSpace(fs, recalibrate, decode, i))
  }

  function CompactedFile(fs: FileState, recalibrate: bool, decode: Decoder): FileState
    requires OwnersKnown(fs)
  {
    var frames := NewFrames(fs, |fs.frames|);
    var vectors := NewVectors(fs, decode, |fs.spaces|);
    FileState(frames, vectors, NewSpaces(fs, recalibrate, decode), fs.collections,
              |frames|, |vectors|, 0, frames, vectors)
  }

  /** No live vector is still in a pending batch, where it could not be read. */
  predicate Readable(fs: FileState)
  {
    forall v ::
      (0 <= v < |fs.vectors| && fs.vectors[v].active
       && fs.vectors[v].owner < |fs.frames| && fs.frames[fs.vectors[v].owner].active) ==> v < fs.flushedVectors
  }

  predicate NothingTombstoned(fs: FileState)
  {
    && (forall i :: 0 <= i < |fs.frames| ==> fs.frames[i].active)
    && (forall v :: 0 <= v < |fs.vectors| ==> fs.vectors[v].active)
  }

  /** The whole operation on a store: a no-op, an error, or a fresh file with a rebuilt index. */
  function CompactOf(s: StoreState, recalibrate: bool, decode: Decoder): Result<StoreState>
    requires OwnersKnown(s.file)
  {
    if NothingTombstoned(s.file) then Ok(s)
    else if recalibrate && !SamplesReadable(s.file) then Err(NotYetCommitted)
    else if !Readable(s.file) then Err(NotYetCommitted)
    else if !TimeOrdered(s.file.frames) then Err(TimeOrder)
    else
      var file := CompactedFile(s.file, recalibrate, decode);
      CompactedOwnersKnown(s.file, recalibrate, decode);
      Ok(StoreState(file, s.reg, RebuiltIndex(file), [], []))
  }

  predicate SampleReadable(fs: FileState, space: SpaceId)
  {
    forall j :: 0 <= j < |SampleIds(fs, space)| ==> SampleIds(fs, space)[j] < fs.flushedVectors
  }

  /** Re-fitting reads each space's sample before any frame is streamed. */
  predicate SamplesReadable(fs: FileState)
  {
    forall space :: 0 <= space < |fs.spaces| ==> SampleReadable(fs, space)
  }

  // ------------------------------------------------------------------ ranks

  lemma {:induction false} RankStep(frames: seq<Frame>, i: FrameId, j: FrameId)
    requires i < j <= |frames|
    ensures Rank(frames, i) <= Rank(frames, j)
    ensures frames[i].active ==> Rank(frames, i) < Rank(frames, j)
    decreases j
  {
    if i < j - 1 {
      RankStep(frames, i, j - 1);
    }
  }

  lemma {:induction false} NewFramesLength(fs: FileState, n: nat)
    requires n <= |fs.frames|
    ensures |NewFrames(fs, n)| == Rank(fs.frames, n)
  {
    if n > 0 {
      NewFramesLength(fs, n - 1);
    }
  }

  /** The id map: active frame `i` is streamed to position `Rank(i)`. */
  lemma {:induction false} NewFramesAt(fs: FileState, n: nat, i: FrameId)
    requires i < n <= |fs.frames| && fs.frames[i].active
    ensures Rank(fs.frames, i) < |NewFrames(fs, n)|
    ensures NewFrames(fs, n)[Rank(fs.frames, i)] == NewFrameOf(fs, i)
    decreases n
  {
    NewFramesLength(fs, n - 1);
    if i < n - 1 {
      NewFramesAt(fs, n - 1, i);
    }
  }

  /** Every position of the new file is the image of an active frame. */
  lemma {:induction false} NewFramesFrom(fs: FileState, n: nat, r: nat) returns (i: FrameId)
    requires n <= |fs.frames| && r < |NewFrames(fs, n)|
    ensures i < n && fs.frames[i].active && Rank(fs.frames, i) == r
    decreases n
  {
    NewFramesLength(fs, n - 1);
    if r < |NewFrames(fs, n - 1)| {
      i := NewFramesFrom(fs, n - 1, r);
    } else {
      i := n - 1;
    }
  }

  /** Old-to-new ids are an order-preserving bijection between active frames and the new file. */
  lemma RankIsOrderIsomorphism(fs: FileState)
    ensures var count := |NewFrames(fs, |fs.frames|)|;
            && (forall i: nat :: i < |fs.frames| && fs.frames[i].active ==> Rank(fs.frames, i) < count)
            && (forall i: nat, j: nat ::
                  (i < |fs.frames| && j < |fs.frames| && fs.frames[i].active && fs.frames[j].active) ==>
                  (i < j <==> Rank(fs.frames, i) < Rank(fs.frames, j)))
            && (forall r: nat :: r < count ==> HasSource(fs, r))
  {
    var n := |fs.frames|;
    forall i: nat | i < n && fs.frames[i].active ensures Rank(fs.frames, i) < |NewFrames(fs, n)| {
      NewFramesAt(fs, n, i);
    }
    forall i: nat, j: nat | i < n && j < n && fs.frames[i].active && fs.frames[j].active
      ensures i < j <==> Rank(fs.frames, i) < Rank(fs.frames, j)
    {
      if i < j { RankStep(fs.frames, i, j); } else if j < i { RankStep(fs.frames, j, i); }
    }
    forall r: nat | r < |NewFrames(fs, n)| ensures HasSource(fs, r) {
      var i := NewFramesFrom(fs, n, r);
      assert MapsTo(fs, i, r);
    }
  }

  /** What is true of every streamed vector. */
  predicate FitsStream(fs: FileState, r: VectorRow)
  {
    && r.active && r.space < |fs.spaces| && |r.values| == fs.spaces[r.space].dim
    && r.owner < |NewFrames(fs, |fs.frames|)| && r.coll == NewFrames(fs, |fs.frames|)[r.owner].coll
  }

  lemma NewRowFits(fs: FileState, decode: Decoder, space: SpaceId, v: VectorId)
    requires WellFormedFile(fs) && KeepsLength(decode) && v < |fs.vectors| && Streamed(fs, space, v)
    ensures FitsStream(fs, NewRow(fs, decode, v))
  {
    NewFramesAt(fs, |fs.frames|, fs.vectors[v].owner);
    hide NewFrames, Rank;
  }

  lemma {:induction false} NewRowsFit(fs: FileState, decode: Decoder, space: SpaceId, n: nat)
    requires WellFormedFile(fs) && KeepsLength(decode) && n <= |fs.vectors|
    ensures forall r :: r in NewRows(fs, decode, space, n) ==> FitsStream(fs, r)
  {
    assert OwnersKnown(fs);
    hide FitsStream, NewRow, WellFormedFile, KeepsLength;
    if n > 0 {
      NewRowsFit(fs, decode, space, n - 1);
      if Streamed(fs, space, n - 1) {
        NewRowFits(fs, decode, space, n - 1);
      }
    }
  }

  lemma {:induction false} NewVectorsFit(fs: FileState, decode: Decoder, n: nat)
    requires WellFormedFile(fs) && KeepsLength(decode)
    ensures forall r :: r in NewVectors(fs, decode, n) ==> FitsStream(fs, r)
  {
    assert OwnersKnown(fs);
    hide FitsStream, WellFormedFile, KeepsLength, NewRows;
    if n > 0 {
      NewVectorsFit(fs, decode, n - 1);
      NewRowsFit(fs, decode, n - 1, |fs.vectors|);
    }
  }

  lemma {:induction false} NewRowOwners(fs: FileState, decode: Decoder, space: SpaceId, n: nat)
    requires OwnersKnown(fs) && n <= |fs.vectors|
    ensures forall r :: r in NewRows(fs, decode, space, n) ==> r.owner < |NewFrames(fs, |fs.frames|)|
  {
    hide NewFrames, Rank;
    if n > 0 {
      NewRowOwners(fs, decode, space, n - 1);
      if Streamed(fs, space, n - 1) {
        NewFramesAt(fs, |fs.frames|, fs.vectors[n - 1].owner);
      }
    }
  }

  lemma {:induction false} NewVectorOwners(fs: FileState, decode: Decoder, n: nat)
    requires OwnersKnown(fs)
    ensures forall r :: r in NewVectors(fs, decode, n) ==> r.owner < |NewFrames(fs, |fs.frames|)|
  {
    hide NewFrames, NewRows;
    if n > 0 {
      NewVectorOwners(fs, decode, n - 1);
      NewRowOwners(fs, decode, n - 1, |fs.vectors|);
    }
  }

  lemma CompactedOwnersKnown(fs: FileState, recalibrate: bool, decode: Decoder)
    requires OwnersKnown(fs)
    ensures OwnersKnown(CompactedFile(fs, recalibrate, decode))
  {
    NewVectorOwners(fs, decode, |fs.spaces|);
    hide NewVectors, NewFrames;
    var t := CompactedFile(fs, recalibrate, decode);
    assert forall v :: 0 <= v < |t.vectors| ==> t.vectors[v] in t.vectors;
  }
}

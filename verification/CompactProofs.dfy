/** What compaction keeps: every flushed record, its order, its parents and its vectors. */
module CompactProofs {
  import opened Basics
  import opened Keys
  import opened Engine
  import opened Identity
  import opened Schema
  import opened Store
  import opened StoreProofs
  import opened StoreView
  import opened Compact

  // ------------------------------------------------------------------ opening a file

  /** No two frames are live under one key. */
  ghost predicate KeysUnique(frames: seq<Frame>)
  {
    forall i: nat, j: nat ::
      (i < |frames| && j < |frames| && LiveKey(frames[i]).Some? && LiveKey(frames[i]) == LiveKey(frames[j])) ==> i == j
  }

  /** Rebuilding from a fully flushed file with unique keys gives an index that matches it. */
  lemma RebuildMatchesFrames(fs: FileState)
    requires WellFormedFile(fs) && fs.flushedFrames == |fs.frames| && KeysUnique(fs.frames)
    ensures IndexMatchesFrames(fs.frames, RebuiltIndex(fs))
    ensures forall k :: k in RebuiltIndex(fs) ==> RebuiltIndex(fs)[k].committed
  {
    RebuiltIsScan(fs);
    var m := RebuiltIndex(fs);
    hide IsKey, RebuiltIndex, WellFormedFile;
    forall i | 0 <= i < |fs.frames| && LiveKey(fs.frames[i]).Some?
      ensures LiveKey(fs.frames[i]).value in m && m[LiveKey(fs.frames[i]).value].frame == i
    {
      assert LiveUnder(fs, i, LiveKey(fs.frames[i]).value);
    }
  }

  lemma RebuildListsVectors(fs: FileState)
    requires WellFormedFile(fs) && fs.flushedFrames == |fs.frames| && KeysUnique(fs.frames)
    ensures EntriesListVectors(fs.vectors, RebuiltIndex(fs))
  {
    RebuiltIsScan(fs);
    RebuildMatchesFrames(fs);
    var m := RebuiltIndex(fs);
    hide IsKey, LiveKey, RebuiltIndex;
    forall k, p: (SpaceId, VectorId) | k in m ensures p in m[k].vectors <==> RefMatches(fs.vectors, m[k].frame, p) {
      assert p in m[k].vectors <==> OwnedUnder(fs, k, p);
    }
  }

  /** A freshly opened store is coherent: the rebuilt index agrees with the file it came from. */
  lemma OpenCoherent(fs: FileState, reg: Registry)
    requires WellFormedFile(fs) && fs.flushedFrames == |fs.frames| && fs.flushedVectors == |fs.vectors|
    requires KeysUnique(fs.frames) && OwnersLive(fs.frames, fs.vectors)
    requires SchemaFits(reg, fs.spaces) && CollectionsFit(reg, fs)
    ensures Coherent(StoreState(fs, reg, RebuiltIndex(fs), [], []))
  {
    RebuildMatchesFrames(fs);
    RebuildListsVectors(fs);
    var m := RebuiltIndex(fs);
    hide RebuiltIndex, LiveKey, SchemaFits, CollectionsFit, WellFormedFile;
    forall k, p | k in m && p in m[k].vectors ensures p.1 < |fs.vectors| {
      assert RefMatches(fs.vectors, m[k].frame, p);
    }
    hide EntriesListVectors, OwnersLive;
    assert CommitStatus(fs, m, []) by { assert forall k :: k in m ==> m[k].frame < |fs.frames|; }
  }

  // ------------------------------------------------------------------ the compacted file

  lemma NewFrameFields(fs: FileState, r: nat)
    requires r < |NewFrames(fs, |fs.frames|)|
    ensures exists i: nat :: MapsTo(fs, i, r) && NewFrames(fs, |fs.frames|)[r] == NewFrameOf(fs, i)
  {
    var i := NewFramesFrom(fs, |fs.frames|, r);
    NewFramesAt(fs, |fs.frames|, i);
    assert MapsTo(fs, i, r);
  }

  predicate FrameFits(fs: FileState, f: Frame, r: FrameId)
  {
    f.active && f.coll < |fs.collections| && (f.parent.Some? ==> f.parent.value < r)
  }

  lemma CompactedFramesFit(fs: FileState)
    requires WellFormedFile(fs)
    ensures forall r :: 0 <= r < |NewFrames(fs, |fs.frames|)| ==> FrameFits(fs, NewFrames(fs, |fs.frames|)[r], r)
  {
    var frames := NewFrames(fs, |fs.frames|);
    forall r: nat | r < |frames|
      ensures FrameFits(fs, frames[r], r)
    {
      NewFrameFields(fs, r);
      var i: nat :| MapsTo(fs, i, r) && frames[r] == NewFrameOf(fs, i);
      if frames[r].parent.Some? {
        RankStep(fs.frames, fs.frames[i].parent.value, i);
      }
    }
  }

  lemma CompactedWellFormed(fs: FileState, recalibrate: bool, decode: Decoder)
    requires WellFormedFile(fs) && KeepsLength(decode)
    ensures WellFormedFile(CompactedFile(fs, recalibrate, decode))
  {
    CompactedFramesFit(fs);
    NewVectorsFit(fs, decode, |fs.spaces|);
    var t := CompactedFile(fs, recalibrate, decode);
    hide NewFrames, NewVectors, LiveSample, NewFrameOf, Rank;
    assert forall v :: 0 <= v < |t.vectors| ==> t.vectors[v] in t.vectors && FitsStream(fs, t.vectors[v]);
    assert forall r :: 0 <= r < |t.frames| ==> FrameFits(fs, t.frames[r], r);
    assert forall i :: 0 <= i < |t.spaces| ==>
      t.spaces[i].dim == fs.spaces[i].dim && t.spaces[i].name == fs.spaces[i].name;
  }

  /** A streamed frame is live under its old key exactly if it was flushed. */
  lemma NewLiveKey(fs: FileState, i: FrameId)
    requires i < |fs.frames| && fs.frames[i].active
    ensures Rank(fs.frames, i) < |NewFrames(fs, |fs.frames|)|
    ensures LiveKey(NewFrames(fs, |fs.frames|)[Rank(fs.frames, i)]) == KeyAt(fs, i)
  {
    NewFramesAt(fs, |fs.frames|, i);
    hide IsKey, NewFrames, Rank;
  }

  lemma CompactedKeysUnique(s: StoreState)
    requires Coherent(s)
    ensures KeysUnique(NewFrames(s.file, |s.file.frames|))
  {
    var fs := s.file;
    var frames := NewFrames(fs, |fs.frames|);
    hide IsKey, WellFormedFile, EntriesListVectors, OwnersLive, SchemaFits, CollectionsFit, CommitStatus, StagedFits,
         NewFrames;
    forall q: nat, r: nat | q < |frames| && r < |frames| && LiveKey(frames[q]).Some?
        && LiveKey(frames[q]) == LiveKey(frames[r])
      ensures q == r
    {
      var i := NewFramesFrom(fs, |fs.frames|, q);
      var j := NewFramesFrom(fs, |fs.frames|, r);
      NewLiveKey(fs, i);
      NewLiveKey(fs, j);
      assert LiveKey(fs.frames[i]) == LiveKey(fs.frames[j]);
    }
  }

  /** Every streamed vector comes from a live one whose owner was active. */
  lemma {:induction false} NewRowsFrom(fs: FileState, decode: Decoder, space: SpaceId, n: nat,
      r: nat) returns (v: VectorId)
    requires OwnersKnown(fs) && n <= |fs.vectors| && r < |NewRows(fs, decode, space, n)|
    ensures v < n && Streamed(fs, space, v) && NewRows(fs, decode, space, n)[r] == NewRow(fs, decode, v)
  {
    if r < |NewRows(fs, decode, space, n - 1)| {
      v := NewRowsFrom(fs, decode, space, n - 1, r);
    } else {
      v := n - 1;
    }
  }

  lemma {:induction false} NewVectorsFrom(fs: FileState, decode: Decoder, n: nat, r: nat) returns (v: VectorId)
    requires OwnersKnown(fs) && r < |NewVectors(fs, decode, n)|
    ensures v < |fs.vectors| && fs.vectors[v].active && fs.frames[fs.vectors[v].owner].active
    ensures NewVectors(fs, decode, n)[r].owner == Rank(fs.frames, fs.vectors[v].owner)
  {
    hide Rank, NewRows;
    if r < |NewVectors(fs, decode, n - 1)| {
      v := NewVectorsFrom(fs, decode, n - 1, r);
    } else {
      v := NewRowsFrom(fs, decode, n - 1, |fs.vectors|, r - |NewVectors(fs, decode, n - 1)|);
    }
  }

  lemma CompactedOwnersLive(s: StoreState, decode: Decoder)
    requires Coherent(s) && Readable(s.file)
    ensures OwnersLive(NewFrames(s.file, |s.file.frames|), NewVectors(s.file, decode, |s.file.spaces|))
  {
    var fs := s.file;
    var vectors := NewVectors(fs, decode, |fs.spaces|);
    hide IsKey, EntriesListVectors, SchemaFits, CollectionsFit, CommitStatus, StagedFits, NewFrames, NewVectors,
         IndexMatchesFrames;
    forall r: nat | r < |vectors|
      ensures vectors[r].owner < |NewFrames(fs, |fs.frames|)|
              && LiveKey(NewFrames(fs, |fs.frames|)[vectors[r].owner]).Some?
    {
      var v := NewVectorsFrom(fs, decode, |fs.spaces|, r);
      NewLiveKey(fs, fs.vectors[v].owner);
    }
  }

  lemma CompactedSchema(s: StoreState, recalibrate: bool, decode: Decoder)
    requires Coherent(s)
    ensures SchemaFits(s.reg, CompactedFile(s.file, recalibrate, decode).spaces)
    ensures CollectionsFit(s.reg, CompactedFile(s.file, recalibrate, decode))
  {
    hide WellFormedFile, EntriesListVectors, OwnersLive, CommitStatus, StagedFits, IndexMatchesFrames, NewFrames,
         NewVectors, LiveSample;
  }

  /** Compacting a coherent store, whatever is pending in it, leaves a coherent store. */
  lemma CompactCoherent(s: StoreState, recalibrate: bool, decode: Decoder)
    requires Coherent(s) && KeepsLength(decode) && CompactOf(s, recalibrate, decode).Ok?
    ensures Coherent(CompactOf(s, recalibrate, decode).value)
  {
    if !NothingTombstoned(s.file) {
      var t := CompactedFile(s.file, recalibrate, decode);
      CompactedWellFormed(s.file, recalibrate, decode);
      CompactedKeysUnique(s);
      CompactedOwnersLive(s, decode);
      CompactedSchema(s, recalibrate, decode);
      hide Coherent, KeysUnique, OwnersLive, SchemaFits, CollectionsFit, NewFrames, NewVectors, NewSpaces, RebuiltIndex;
      OpenCoherent(t, s.reg);
    }
  }

  // ------------------------------------------------------------------ what a record becomes

  /** The decoded live vectors below `n` of one owner, in spaces from `lo` up to `hi`. */
  function DecodedOwned(fs: FileState, decode: Decoder, owner: FrameId, lo: SpaceId, hi: SpaceId,
      n: nat): multiset<NamedVector>
    requires n <= |fs.vectors|
  {
    if n == 0 then multiset{}
    else
      DecodedOwned(fs, decode, owner, lo, hi, n - 1) + DecodedRow(fs, decode, owner, lo, hi, n - 1)
  }

  function DecodedRow(fs: FileState, decode: Decoder, owner: FrameId, lo: SpaceId, hi: SpaceId,
      v: VectorId): multiset<NamedVector>
    requires v < |fs.vectors|
  {
    var row := fs.vectors[v];
    if row.active && row.owner == owner && lo <= row.space < hi
    then multiset{(SpaceName(fs.spaces, row.space), Decoded(fs, decode, v))} else multiset{}
  }

  lemma {:induction false} DecodedOwnedSplit(fs: FileState, decode: Decoder, owner: FrameId, hi: SpaceId, n: nat)
    requires n <= |fs.vectors| && hi > 0
    ensures DecodedOwned(fs, decode, owner, 0, hi, n) ==
            DecodedOwned(fs, decode, owner, 0, hi - 1, n) + DecodedOwned(fs, decode, owner, hi - 1, hi - 1 + 1, n)
  {
    if n > 0 {
      DecodedOwnedSplit(fs, decode, owner, hi, n - 1);
    }
  }

  lemma {:induction false} DecodedOwnedEmpty(fs: FileState, decode: Decoder, owner: FrameId, n: nat)
    requires n <= |fs.vectors|
    ensures DecodedOwned(fs, decode, owner, 0, 0, n) == multiset{}
  {
    if n > 0 {
      DecodedOwnedEmpty(fs, decode, owner, n - 1);
    }
  }

  lemma RankInjective(frames: seq<Frame>, i: FrameId, j: FrameId)
    requires i < |frames| && j < |frames| && frames[i].active && frames[j].active
    ensures Rank(frames, i) == Rank(frames, j) <==> i == j
  {
    if i < j { RankStep(frames, i, j); } else if j < i { RankStep(frames, j, i); }
  }

  lemma EngineVectorsSnoc(rows: seq<VectorRow>, row: VectorRow, spaces: seq<SpaceDesc>, owner: FrameId)
    ensures EngineVectors(rows + [row], spaces, owner) ==
            EngineVectors(rows, spaces, owner) + OwnedRow(row, spaces, owner)
  {
    assert (rows + [row])[..|rows|] == rows;
  }

  lemma NewRowMeans(fs: FileState, decode: Decoder, spaces: seq<SpaceDesc>, space: SpaceId, owner: FrameId, v: VectorId)
    requires OwnersKnown(fs) && v < |fs.vectors| && owner < |fs.frames| && fs.frames[owner].active
    requires SpaceName(spaces, space) == SpaceName(fs.spaces, space) && Streamed(fs, space, v)
    ensures OwnedRow(NewRow(fs, decode, v), spaces, Rank(fs.frames, owner)) ==
            DecodedRow(fs, decode, owner, space, space + 1, v)
  {
    RankInjective(fs.frames, fs.vectors[v].owner, owner);
    hide Rank;
  }

  /** One more vector of the source adds to the stream what it adds to the record. */
  lemma NewRowsStep(fs: FileState, decode: Decoder, spaces: seq<SpaceDesc>, space: SpaceId, owner: FrameId, n: nat)
    requires OwnersKnown(fs) && 0 < n <= |fs.vectors| && owner < |fs.frames| && fs.frames[owner].active
    requires SpaceName(spaces, space) == SpaceName(fs.spaces, space)
    ensures EngineVectors(NewRows(fs, decode, space, n), spaces, Rank(fs.frames, owner)) ==
            EngineVectors(NewRows(fs, decode, space, n - 1), spaces, Rank(fs.frames, owner))
            + DecodedRow(fs, decode, owner, space, space + 1, n - 1)
  {
    hide Rank, OwnedRow, EngineVectors, SpaceName;
    var before := NewRows(fs, decode, space, n - 1);
    if Streamed(fs, space, n - 1) {
      NewRowMeans(fs, decode, spaces, space, owner, n - 1);
      assert NewRows(fs, decode, space, n) == before + [NewRow(fs, decode, n - 1)];
      hide NewRows, NewRow, DecodedRow;
      EngineVectorsSnoc(before, NewRow(fs, decode, n - 1), spaces, Rank(fs.frames, owner));
    } else {
      assert NewRows(fs, decode, space, n) == before + [] == before;
      assert DecodedRow(fs, decode, owner, space, space + 1, n - 1) == multiset{};
    }
  }

  /** One space of the new file holds, for each owner, its decoded vectors of that space. */
  lemma {:induction false} NewRowsMean(fs: FileState, decode: Decoder, spaces: seq<SpaceDesc>, space: SpaceId,
      owner: FrameId, n: nat)
    requires OwnersKnown(fs) && n <= |fs.vectors| && owner < |fs.frames| && fs.frames[owner].active
    requires SpaceName(spaces, space) == SpaceName(fs.spaces, space)
    ensures EngineVectors(NewRows(fs, decode, space, n), spaces, Rank(fs.frames, owner)) ==
            DecodedOwned(fs, decode, owner, space, space + 1, n)
    decreases n
  {
    if n > 0 {
      NewRowsMean(fs, decode, spaces, space, owner, n - 1);
      NewRowsStep(fs, decode, spaces, space, owner, n);
      hide Rank, EngineVectors, SpaceName, NewRows, DecodedRow;
    }
  }

  /** Streaming one more space adds that space's decoded vectors. */
  lemma NewVectorsStep(fs: FileState, decode: Decoder, spaces: seq<SpaceDesc>, owner: FrameId, n: nat)
    requires OwnersKnown(fs) && owner < |fs.frames| && fs.frames[owner].active && n > 0
    requires SpaceName(spaces, n - 1) == SpaceName(fs.spaces, n - 1)
    ensures EngineVectors(NewVectors(fs, decode, n), spaces, Rank(fs.frames, owner)) ==
            EngineVectors(NewVectors(fs, decode, n - 1), spaces, Rank(fs.frames, owner))
            + DecodedOwned(fs, decode, owner, n - 1, n, |fs.vectors|)
  {
    hide EngineVectors, DecodedOwned, NewRows, Rank, SpaceName, DecodedRow;
    NewRowsMean(fs, decode, spaces, n - 1, owner, |fs.vectors|);
    EngineVectorsConcat(NewVectors(fs, decode, n - 1), NewRows(fs, decode, n - 1, |fs.vectors|), spaces,
        Rank(fs.frames, owner));
  }

  lemma {:induction false} NewVectorsMean(fs: FileState, decode: Decoder, spaces: seq<SpaceDesc>, owner: FrameId,
      n: nat)
    requires OwnersKnown(fs) && owner < |fs.frames| && fs.frames[owner].active
    requires forall i: nat :: SpaceName(spaces, i) == SpaceName(fs.spaces, i)
    ensures EngineVectors(NewVectors(fs, decode, n), spaces, Rank(fs.frames, owner)) ==
            DecodedOwned(fs, decode, owner, 0, n, |fs.vectors|)
    decreases n
  {
    if n == 0 {
      DecodedOwnedEmpty(fs, decode, owner, |fs.vectors|);
    } else {
      hide *;
      NewVectorsMean(fs, decode, spaces, owner, n - 1);
      NewVectorsStep(fs, decode, spaces, owner, n);
      DecodedOwnedSplit(fs, decode, owner, n, |fs.vectors|);
    }
  }

  /** A record after compaction: its vectors decoded once, its parent kept only while still live. */
  function KeptRec(fs: FileState, decode: Decoder, i: FrameId): Rec
    requires i < |fs.frames|
  {
    var f := fs.frames[i];
    Rec(f.role, f.payload, f.createdAt,
        if f.parent.Some? && f.parent.value < |fs.frames| && fs.frames[f.parent.value].active
        then ReadUri(fs, f.parent.value) else None,
        DecodedOwned(fs, decode, i, 0, |fs.spaces|, |fs.vectors|))
  }

  lemma NewParentKey(fs: FileState, i: FrameId)
    requires i < |fs.frames| && fs.frames[i].active
    ensures ParentKey(NewFrames(fs, |fs.frames|), NewFrameOf(fs, i).parent) ==
            var p := fs.frames[i].parent;
            if p.Some? && p.value < |fs.frames| && fs.frames[p.value].active then ReadUri(fs, p.value) else None
  {
    var p := fs.frames[i].parent;
    if p.Some? && p.value < |fs.frames| && fs.frames[p.value].active {
      NewFramesAt(fs, |fs.frames|, p.value);
    }
  }

  lemma StreamedVectors(fs: FileState, recalibrate: bool, decode: Decoder, i: FrameId)
    requires OwnersKnown(fs) && i < |fs.frames| && fs.frames[i].active
    ensures var t := CompactedFile(fs, recalibrate, decode);
            EngineVectors(t.vectors, t.spaces, Rank(fs.frames, i)) ==
                DecodedOwned(fs, decode, i, 0, |fs.spaces|, |fs.vectors|)
  {
    var spaces := NewSpaces(fs, recalibrate, decode);
    assert forall j: nat :: SpaceName(spaces, j) == SpaceName(fs.spaces, j) by { hide LiveSample; }
    hide NewFrames, NewVectors, EngineVectors, DecodedOwned, Rank, NewSpaces, SpaceName;
    NewVectorsMean(fs, decode, spaces, i, |fs.spaces|);
  }

  lemma StreamedRec(s: StoreState, recalibrate: bool, decode: Decoder, i: FrameId)
    requires OwnersKnown(s.file) && CompactOf(s, recalibrate, decode).Ok? && !NothingTombstoned(s.file)
    requires i < s.file.flushedFrames <= |s.file.frames| && s.file.frames[i].active
    ensures var t := CompactOf(s, recalibrate, decode).value;
            var r := Rank(s.file.frames, i);
            r < |t.file.frames| && RecAt(t, r) == KeptRec(s.file, decode, i)
  {
    var fs := s.file;
    NewFramesAt(fs, |fs.frames|, i);
    NewParentKey(fs, i);
    StreamedVectors(fs, recalibrate, decode, i);
    assert StagedVectors([], Rank(fs.frames, i)) == multiset{};
    hide NewFrames, NewVectors, EngineVectors, StagedVectors, DecodedOwned, RebuiltIndex, Rank, NewSpaces, ParentKey,
         NewParent;
  }

  /**
     Compaction keeps exactly the flushed records: each key that had one keeps its collection, role,
     payload, timestamp and vectors (decoded once), a live parent and no other; an unflushed record
     has no uri to stream and is gone.
     */
  lemma CompactMeaning(s: StoreState, recalibrate: bool, decode: Decoder, k: KeyRef)
    requires Coherent(s) && KeepsLength(decode)
    requires CompactOf(s, recalibrate, decode).Ok? && !NothingTombstoned(s.file)
    ensures Lookup(CompactOf(s, recalibrate, decode).value, k) ==
            if k in s.index && s.index[k].frame < s.file.flushedFrames
            then Some(KeptRec(s.file, decode, s.index[k].frame)) else None
  {
    var t := CompactOf(s, recalibrate, decode).value;
    CompactCoherent(s, recalibrate, decode);
    LookupByIndex(t, k);
    assert OwnersKnown(s.file) && s.file.flushedFrames <= |s.file.frames|;
    if k in t.index {
      CompactedIndexFrom(s, recalibrate, decode, k);
      StreamedRec(s, recalibrate, decode, s.index[k].frame);
    } else if k in s.index && s.index[k].frame < s.file.flushedFrames {
      CompactedIndexTo(s, recalibrate, decode, k);
    }
    hide Coherent, Lookup, RecAt, KeptRec, CompactOf;
  }

  /** Re-encoding gives back every live vector unchanged. */
  ghost predicate Lossless(fs: FileState, decode: Decoder)
  {
    forall v :: 0 <= v < |fs.vectors| && fs.vectors[v].active ==> Decoded(fs, decode, v) == fs.vectors[v].values
  }

  lemma LosslessRow(fs: FileState, decode: Decoder, owner: FrameId, v: VectorId)
    requires Lossless(fs, decode) && v < |fs.vectors| && fs.vectors[v].space < |fs.spaces|
    ensures DecodedRow(fs, decode, owner, 0, |fs.spaces|, v) == OwnedRow(fs.vectors[v], fs.spaces, owner)
  {
    hide Decoded;
  }

  lemma {:induction false} DecodedLossless(fs: FileState, decode: Decoder, owner: FrameId, n: nat)
    requires Lossless(fs, decode) && n <= |fs.vectors|
    requires forall v :: 0 <= v < |fs.vectors| ==> fs.vectors[v].space < |fs.spaces|
    ensures DecodedOwned(fs, decode, owner, 0, |fs.spaces|, n) == EngineVectors(fs.vectors[..n], fs.spaces, owner)
  {
    hide DecodedRow, OwnedRow, Lossless, Decoded;
    if n > 0 {
      DecodedLossless(fs, decode, owner, n - 1);
      LosslessRow(fs, decode, owner, n - 1);
      hide EngineVectors;
      assert fs.vectors[..n] == fs.vectors[..n - 1] + [fs.vectors[n - 1]];
      EngineVectorsSnoc(fs.vectors[..n - 1], fs.vectors[n - 1], fs.spaces, owner);
    }
  }

  /** The record under `k` before and after: present in both or neither, equal but for a dead parent. */
  ghost predicate SameButParent(before: Option<Rec>, after: Option<Rec>, parentLive: bool)
  {
    && (before.Some? <==> after.Some?)
    && (before.Some? ==> after.value == if parentLive then before.value else before.value.(parent := None))
  }

  predicate ParentLive(s: StoreState, k: KeyRef)
  {
    k in s.index && s.index[k].frame < |s.file.frames|
    && var p := s.file.frames[s.index[k].frame].parent;
       p.Some? && p.value < |s.file.frames| && s.file.frames[p.value].active
  }

  lemma KeptIsSame(s: StoreState, decode: Decoder, i: FrameId)
    requires WellFormedFile(s.file) && Lossless(s.file, decode) && s.staged == []
    requires s.file.flushedFrames == |s.file.frames| && i < |s.file.frames|
    ensures var p := s.file.frames[i].parent;
            KeptRec(s.file, decode, i) ==
            if p.Some? && p.value < |s.file.frames| && s.file.frames[p.value].active then RecAt(s, i)
                else RecAt(s, i).(parent := None)
  {
    DecodedLossless(s.file, decode, i, |s.file.vectors|);
    assert s.file.vectors[..|s.file.vectors|] == s.file.vectors;
    assert StagedVectors([], i) == multiset{};
    hide EngineVectors, DecodedOwned, StagedVectors, Lossless, WellFormedFile;
  }

  /** A record's parent link is live exactly while the parent's key still names the very version it was put under. */
  lemma ParentLiveIff(s: StoreState, k: KeyRef, p: FrameId)
    requires Coherent(s) && k in s.index && s.index[k].frame < |s.file.frames|
    requires s.file.frames[s.index[k].frame].parent == Some(p) && p < |s.file.frames|
    requires s.file.frames[p].uri.Some? && IsKey(s.file.frames[p].uri.value)
    ensures var pk := (s.file.frames[p].coll, s.file.frames[p].uri.value);
            ParentLive(s, k) <==> pk in s.index && s.index[pk].frame == p
  {
    hide WellFormedFile, EntriesListVectors, OwnersLive, SchemaFits, CollectionsFit, CommitStatus, StagedFits, IsKey;
  }

  /**
   After a commit, and with a lossless codec, compaction shows only in records whose parent link is no
   longer live: the parent was deleted, or put again since.
   */
  lemma CompactInvisible(s: StoreState, recalibrate: bool, decode: Decoder, k: KeyRef)
    requires Quiescent(s) && KeepsLength(decode) && Lossless(s.file, decode)
    requires CompactOf(s, recalibrate, decode).Ok? && !NothingTombstoned(s.file)
    ensures SameButParent(Lookup(s, k), Lookup(CompactOf(s, recalibrate, decode).value, k), ParentLive(s, k))
  {
    assert k in s.index ==> s.index[k].frame < |s.file.frames| by {
      hide WellFormedFile, EntriesListVectors, OwnersLive, SchemaFits, CollectionsFit, CommitStatus, StagedFits, IsKey,
           Lossless;
    }
    assert s.file.flushedFrames == |s.file.frames| && WellFormedFile(s.file);
    hide Coherent, Lookup, CompactOf, Settled, Lossless, KeptRec, RecAt, NothingTombstoned, KeepsLength, TimeOrdered,
         WellFormedFile;
    CompactMeaning(s, recalibrate, decode, k);
    LookupByIndex(s, k);
    if k in s.index { KeptIsSame(s, decode, s.index[k].frame); }
  }

  lemma CompactedIndexFrom(s: StoreState, recalibrate: bool, decode: Decoder, k: KeyRef)
    requires Coherent(s) && KeepsLength(decode)
    requires CompactOf(s, recalibrate, decode).Ok? && !NothingTombstoned(s.file)
    requires k in CompactOf(s, recalibrate, decode).value.index
    ensures k in s.index && s.index[k].frame < s.file.flushedFrames && s.file.frames[s.index[k].frame].active
    ensures CompactOf(s, recalibrate, decode).value.index[k].frame == Rank(s.file.frames, s.index[k].frame)
  {
    var fs := s.file;
    var t := CompactOf(s, recalibrate, decode).value;
    CompactCoherent(s, recalibrate, decode);
    hide IsKey, WellFormedFile, EntriesListVectors, OwnersLive, SchemaFits, CollectionsFit, CommitStatus, StagedFits,
         NewFrames,
         NewVectors, NewSpaces, RebuiltIndex, Rank;
    var r := t.index[k].frame;
    var i := NewFramesFrom(fs, |fs.frames|, r);
    NewLiveKey(fs, i);
  }

  lemma CompactedIndexTo(s: StoreState, recalibrate: bool, decode: Decoder, k: KeyRef)
    requires Coherent(s) && KeepsLength(decode)
    requires CompactOf(s, recalibrate, decode).Ok? && !NothingTombstoned(s.file)
    requires k in s.index && s.index[k].frame < s.file.flushedFrames
    ensures k in CompactOf(s, recalibrate, decode).value.index
  {
    var fs := s.file;
    var t := CompactOf(s, recalibrate, decode).value;
    CompactCoherent(s, recalibrate, decode);
    hide IsKey, WellFormedFile, EntriesListVectors, OwnersLive, SchemaFits, CollectionsFit, CommitStatus, StagedFits,
         NewFrames,
         NewVectors, NewSpaces, RebuiltIndex, Rank;
    var i := s.index[k].frame;
    assert KeyAt(fs, i) == Some(k);
    NewLiveKey(fs, i);
    assert LiveKey(t.file.frames[Rank(fs.frames, i)]) == Some(k);
  }

  /** Nothing is left to reclaim: compacting again is a no-op. */
  lemma CompactIdempotent(s: StoreState, recalibrate: bool, decode: Decoder, recalibrate': bool, decode': Decoder)
    requires Coherent(s) && KeepsLength(decode) && CompactOf(s, recalibrate, decode).Ok?
    ensures var t := CompactOf(s, recalibrate, decode).value;
            OwnersKnown(t.file) && CompactOf(t, recalibrate', decode') == Ok(t)
  {
    if !NothingTombstoned(s.file) {
      var t := CompactOf(s, recalibrate, decode).value;
      CompactedOwnersKnown(s.file, recalibrate, decode);
      CompactedFramesFit(s.file);
      NewVectorsFit(s.file, decode, |s.file.spaces|);
      hide Coherent, NewFrames, NewVectors, NewSpaces, RebuiltIndex, OwnersKnown, TimeOrdered, Readable,
           SamplesReadable;
      assert forall v :: 0 <= v < |t.file.vectors| ==>
        t.file.vectors[v] in t.file.vectors && FitsStream(s.file, t.file.vectors[v]);
      assert forall r :: 0 <= r < |t.file.frames| ==> FrameFits(s.file, t.file.frames[r], r);
    }
  }

  /** The stream inherits the order of the source, so the new file's time index is accepted too. */
  lemma CompactedTimeOrdered(fs: FileState)
    ensures TimeOrdered(NewFrames(fs, |fs.frames|)) <==> TimeOrdered(fs.frames)
  {
    var frames := NewFrames(fs, |fs.frames|);
    if TimeOrdered(fs.frames) {
      forall q: nat, r: nat | q < r < |frames| ensures frames[q].createdAt <= frames[r].createdAt {
        NewFrameFields(fs, q);
        NewFrameFields(fs, r);
        var i: nat :| MapsTo(fs, i, q) && frames[q] == NewFrameOf(fs, i);
        var j: nat :| MapsTo(fs, j, r) && frames[r] == NewFrameOf(fs, j);
        hide NewFrames, Rank;
        if j < i { RankStep(fs.frames, j, i); }
      }
    }
    if TimeOrdered(frames) {
      forall i: nat, j: nat | i < j < |fs.frames| && fs.frames[i].active && fs.frames[j].active
        ensures fs.frames[i].createdAt <= fs.frames[j].createdAt
      {
        NewFramesAt(fs, |fs.frames|, i);
        NewFramesAt(fs, |fs.frames|, j);
        NewFramesLength(fs, |fs.frames|);
        RankStep(fs.frames, i, j);
        assert frames[Rank(fs.frames, i)].active && frames[Rank(fs.frames, j)].active;
      }
    }
  }
}

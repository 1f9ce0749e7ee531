/**
 A bulk load seen from its catalog alone: which frames there are and which of them each key names.
 Whether a put is accepted, and what it appends, depends on nothing else; where the commits fall
 depends on the window alone.
 */
module BulkCatalog {
  import opened Basics
  import opened Keys
  import opened Engine
  import opened Schema
  import opened Store
  import opened Loader

  datatype Catalog = Catalog(
    frames: seq<Frame>,
    collections: map<string, CollectionRecord>,
    textSpaces: set<string>,
    vectorSpaces: set<string>,
    live: map<KeyRef, FrameId>)

  function CatalogOf(s: StoreState): Catalog
  {
    Catalog(s.file.frames, s.reg.collections, s.reg.textSpaces, s.reg.vectorSpaces.Keys,
            map k | k in s.index :: s.index[k].frame)
  }

  /** A registry that accepts what the catalog's accepts. */
  function RegistryOf(c: Catalog): Registry
  {
    Registry(map n | n in c.vectorSpaces :: VectorSpace(0, Ready(0)), c.textSpaces, c.collections)
  }

  function ParentIn(c: Catalog, coll: CollectionId, parent: Option<Key>): Result<Option<FrameId>>
  {
    if parent.None? then Ok(None)
    else if (coll, Encode(parent.value)) in c.live then Ok(Some(c.live[(coll, Encode(parent.value))]))
    else Err(ParentNotFound)
  }

  /** The catalog after one more version under a key. */
  function Appending(c: Catalog, k: KeyRef, item: Item, parent: Option<FrameId>): Catalog
  {
    var left := if k in c.live && c.live[k] < |c.frames| then KilledFrame(c.frames, c.live[k]) else c.frames;
    c.(frames := left + [NewFrame(PutPlan(k.0, [], []), k.1, item.rec, parent, item.now)],
        live := c.live[k := |c.frames|])
  }

  /** A put on a catalog: the verdict and the catalog it leaves. */
  function CatPut(c: Catalog, item: Item): Result<Catalog>
  {
    match PlanFor(RegistryOf(c), item.coll, item.rec)
    case Err(e) => Err(e)
    case Ok(plan) =>
      match ParentIn(c, plan.coll, item.rec.parent)
      case Err(e) => Err(e)
      case Ok(parent) => Ok(Appending(c, (plan.coll, Encode(item.key)), item, parent))
  }

  // ------------------------------------------------------------------ where the commits fall

  /** A repeated digest commits before the put. */
  predicate CommitsBefore(w: Window, digest: Digest, item: Item)
  {
    digest(item.coll, item.key) in w.seen && w.pending != 0
  }

  function WindowBefore(w: Window, digest: Digest, item: Item): Window
  {
    if CommitsBefore(w, digest, item) then EMPTY_WINDOW else w
  }

  predicate CommitsAfter(w: Window, threshold: nat, digest: Digest, item: Item)
  {
    Noted(WindowBefore(w, digest, item), digest, item).pending >= threshold
  }

  function WindowAfter(w: Window, threshold: nat, digest: Digest, item: Item): Window
  {
    if CommitsAfter(w, threshold, digest, item) then EMPTY_WINDOW
    else Noted(WindowBefore(w, digest, item), digest, item)
  }

  /** No batch grows past the threshold: between puts fewer than `threshold` are uncommitted. */
  lemma BatchBounded(w: Window, threshold: nat, digest: Digest, item: Item)
    requires threshold >= 1 && w.pending < threshold
    ensures WindowAfter(w, threshold, digest, item).pending < threshold
    ensures CommitsAfter(w, threshold, digest, item) <==>
            (if digest(item.coll, item.key) in w.seen && w.pending > 0 then 1 else w.pending + 1) == threshold
  {
  }

  /** A load commits when `n` of the items have been put. */
  predicate CommitsAt(w: Window, threshold: nat, digest: Digest, items: seq<Item>, n: nat)
    decreases |items|
  {
    if items == [] then n == 0 && w.pending != 0
    else if n == 0 then CommitsBefore(w, digest, items[0])
    else
      (n == 1 && CommitsAfter(w, threshold, digest, items[0]))
      || CommitsAt(WindowAfter(w, threshold, digest, items[0]), threshold, digest, items[1..], n - 1)
  }

  /** The catalog once `n` items have been put, whatever was committed on the way. */
  function CatalogAfter(c: Catalog, items: seq<Item>, n: nat): Result<Catalog>
    requires n <= |items|
    decreases n
  {
    if n == 0 then Ok(c)
    else
      match CatPut(c, items[0])
      case Err(e) => Err(e)
      case Ok(d) => CatalogAfter(d, items[1..], n - 1)
  }

  predicate OrderedAfter(c: Catalog, items: seq<Item>, n: nat)
    requires n <= |items|
  {
    CatalogAfter(c, items, n).Ok? && TimeOrdered(CatalogAfter(c, items, n).value.frames)
  }

  predicate Accepted(c: Catalog, items: seq<Item>)
  {
    CatalogAfter(c, items, |items|).Ok?
  }

  ghost predicate OrderedAtCommits(c: Catalog, w: Window, threshold: nat, digest: Digest, items: seq<Item>)
  {
    forall n: nat :: n <= |items| && CommitsAt(w, threshold, digest, items, n) ==> OrderedAfter(c, items, n)
  }

  /** The load itself, step by step, on the catalog. */
  function Load(c: Catalog, w: Window, threshold: nat, digest: Digest, items: seq<Item>): Result<Catalog>
    decreases |items|
  {
    if items == [] then if w.pending != 0 && !TimeOrdered(c.frames) then Err(TimeOrder) else Ok(c)
    else if CommitsBefore(w, digest, items[0]) && !TimeOrdered(c.frames) then Err(TimeOrder)
    else
      match CatPut(c, items[0])
      case Err(e) => Err(e)
      case Ok(d) =>
        if CommitsAfter(w, threshold, digest, items[0]) && !TimeOrdered(d.frames) then Err(TimeOrder)
        else Load(d, WindowAfter(w, threshold, digest, items[0]), threshold, digest, items[1..])
  }

  /** One item is put; the rest of the load has the rest of the commits. */
  lemma OrderedUnfolds(c: Catalog, w: Window, threshold: nat, digest: Digest, items: seq<Item>, d: Catalog)
    requires items != [] && CatPut(c, items[0]) == Ok(d)
    ensures OrderedAtCommits(c, w, threshold, digest, items) <==>
            && (CommitsBefore(w, digest, items[0]) ==> TimeOrdered(c.frames))
            && (CommitsAfter(w, threshold, digest, items[0]) ==> TimeOrdered(d.frames))
            && OrderedAtCommits(d, WindowAfter(w, threshold, digest, items[0]), threshold, digest, items[1..])
  {
    hide CatPut, TimeOrdered, CommitsBefore, CommitsAfter, WindowAfter;
    var w', rest := WindowAfter(w, threshold, digest, items[0]), items[1..];
    assert forall n: nat :: n < |items| ==> (OrderedAfter(c, items, n + 1) <==> OrderedAfter(d, rest, n));
    assert OrderedAfter(c, items, 0) <==> TimeOrdered(c.frames);
    assert OrderedAfter(d, rest, 0) <==> TimeOrdered(d.frames);
    assert forall n: nat :: CommitsAt(w', threshold, digest, rest, n) ==> CommitsAt(w, threshold, digest, items, n + 1);
    if OrderedAtCommits(c, w, threshold, digest, items) {
      assert CommitsBefore(w, digest, items[0]) ==> CommitsAt(w, threshold, digest, items, 0);
      assert CommitsAfter(w, threshold, digest, items[0]) ==> CommitsAt(w, threshold, digest, items, 1);
      forall n: nat | n <= |rest| && CommitsAt(w', threshold, digest, rest, n) ensures OrderedAfter(d, rest, n) {
        assert OrderedAfter(c, items, n + 1);
      }
    }
    if && (CommitsBefore(w, digest, items[0]) ==> TimeOrdered(c.frames))
       && (CommitsAfter(w, threshold, digest, items[0]) ==> TimeOrdered(d.frames))
       && OrderedAtCommits(d, w', threshold, digest, rest) {
      forall n: nat | n <= |items| && CommitsAt(w, threshold, digest, items, n) ensures OrderedAfter(c, items, n) {
        if n > 0 { assert OrderedAfter(c, items, n - 1 + 1) <==> OrderedAfter(d, rest, n - 1); }
      }
    }
  }

  /** A load succeeds exactly if every put is accepted and the catalog is in time order at each commit. */
  lemma {:induction false} LoadExact(c: Catalog, w: Window, threshold: nat, digest: Digest, items: seq<Item>)
    ensures Load(c, w, threshold, digest, items).Ok? <==>
            Accepted(c, items) && OrderedAtCommits(c, w, threshold, digest, items)
    ensures Load(c, w, threshold, digest, items).Ok? ==>
            Load(c, w, threshold, digest, items) == CatalogAfter(c, items, |items|)
    decreases |items|
  {
    hide CatPut, TimeOrdered, CommitsBefore, CommitsAfter, WindowAfter;
    if items == [] {
      assert CommitsAt(w, threshold, digest, items, 0) <==> w.pending != 0;
    } else if CatPut(c, items[0]).Ok? {
      var d := CatPut(c, items[0]).value;
      hide OrderedAtCommits, CommitsAt, OrderedAfter;
      OrderedUnfolds(c, w, threshold, digest, items, d);
      LoadExact(d, WindowAfter(w, threshold, digest, items[0]), threshold, digest, items[1..]);
    }
  }

  /** Errors of a load: a put's own, or time order; never that of the same batch. */
  lemma {:induction false} LoadErrors(c: Catalog, w: Window, threshold: nat, digest: Digest, items: seq<Item>)
    ensures Load(c, w, threshold, digest, items) != Err(NotYetCommitted)
    decreases |items|
  {
    hide CommitsBefore, CommitsAfter, WindowAfter, TimeOrdered, RegistryOf, PlanFor;
    if items != [] {
      PlanErrors(RegistryOf(c), items[0].coll, items[0].rec);
      if CatPut(c, items[0]).Ok? {
        LoadErrors(CatPut(c, items[0]).value, WindowAfter(w, threshold, digest, items[0]), threshold, digest,
            items[1..]);
      }
    }
  }

  // ------------------------------------------------------------------ committing after every put

  /** Threshold one commits after each put and nowhere else. */
  lemma {:induction false} CommitsEverywhere(digest: Digest, items: seq<Item>, n: nat)
    ensures CommitsAt(EMPTY_WINDOW, 1, digest, items, n) <==> 1 <= n <= |items|
    decreases |items|
  {
    if items != [] {
      assert WindowAfter(EMPTY_WINDOW, 1, digest, items[0]) == EMPTY_WINDOW;
      if n > 0 { CommitsEverywhere(digest, items[1..], n - 1); }
    }
  }

  /** From an empty window, no load commits before its first put or after its last. */
  lemma {:induction false} CommitsInside(w: Window, threshold: nat, digest: Digest, items: seq<Item>, n: nat)
    requires CommitsAt(w, threshold, digest, items, n)
    ensures n <= |items| && (w.pending == 0 ==> n >= 1)
    decreases |items|
  {
    hide WindowAfter;
    if items != [] && n > 1 {
      CommitsInside(WindowAfter(w, threshold, digest, items[0]), threshold, digest, items[1..], n - 1);
    }
  }

  /** The catalog is in time order after every put. */
  ghost predicate AlwaysOrdered(c: Catalog, items: seq<Item>)
  {
    forall n: nat :: 1 <= n <= |items| ==> OrderedAfter(c, items, n)
  }

  /**
   When batching changes nothing: two loads of accepted items, one committing every put, agree unless
   some moment is out of order and this load never commits at such a moment.
   */
  lemma AgreesExactly(c: Catalog, threshold: nat, digest: Digest, items: seq<Item>)
    requires Accepted(c, items)
    ensures (Load(c, EMPTY_WINDOW, threshold, digest, items) == Load(c, EMPTY_WINDOW, 1, digest, items)) <==>
            AlwaysOrdered(c, items) || !OrderedAtCommits(c, EMPTY_WINDOW, threshold, digest, items)
    ensures Load(c, EMPTY_WINDOW, 1, digest, items).Ok? <==> AlwaysOrdered(c, items)
  {
    hide OrderedAfter, CommitsAt, Load, CatalogAfter;
    LoadExact(c, EMPTY_WINDOW, threshold, digest, items);
    LoadExact(c, EMPTY_WINDOW, 1, digest, items);
    forall n: nat ensures CommitsAt(EMPTY_WINDOW, 1, digest, items, n) <==> 1 <= n <= |items| {
      CommitsEverywhere(digest, items, n);
    }
    forall n: nat | CommitsAt(EMPTY_WINDOW, threshold, digest, items, n) ensures 1 <= n <= |items| {
      CommitsInside(EMPTY_WINDOW, threshold, digest, items, n);
    }
    AcceptedErrors(c, EMPTY_WINDOW, threshold, digest, items);
    AcceptedErrors(c, EMPTY_WINDOW, 1, digest, items);
  }

  /** Accepted items leave a load only one way to fail. */
  lemma {:induction false} AcceptedErrors(c: Catalog, w: Window, threshold: nat, digest: Digest, items: seq<Item>)
    requires Accepted(c, items)
    ensures Load(c, w, threshold, digest, items).Err? ==> Load(c, w, threshold, digest, items) == Err(TimeOrder)
    decreases |items|
  {
    hide CommitsBefore, CommitsAfter, WindowAfter, TimeOrdered, CatPut;
    if items != [] {
      AcceptedErrors(CatPut(c, items[0]).value, WindowAfter(w, threshold, digest, items[0]), threshold, digest,
          items[1..]);
    }
  }

  /** What stops the load that commits every put, if it is not time order, stops every other load. */
  lemma {:induction false} SameRefusal(c: Catalog, w: Window, threshold: nat, digest: Digest, items: seq<Item>)
    requires w.pending != 0 ==> TimeOrdered(c.frames)
    requires Load(c, EMPTY_WINDOW, 1, digest, items).Err? && Load(c, EMPTY_WINDOW, 1, digest, items) != Err(TimeOrder)
    ensures Load(c, w, threshold, digest, items) == Load(c, EMPTY_WINDOW, 1, digest, items)
    decreases |items|
  {
    hide TimeOrdered, CatPut;
    assert items != [] && !CommitsBefore(EMPTY_WINDOW, digest, items[0])
      && CommitsAfter(EMPTY_WINDOW, 1, digest, items[0]);
    assert WindowAfter(EMPTY_WINDOW, 1, digest, items[0]) == EMPTY_WINDOW;
    if CatPut(c, items[0]).Ok? {
      SameRefusal(CatPut(c, items[0]).value, WindowAfter(w, threshold, digest, items[0]), threshold, digest,
          items[1..]);
    }
  }

  // ------------------------------------------------------------------ timestamps in order

  function ItemTime(item: Item): int
  {
    if item.rec.createdAt.Some? then item.rec.createdAt.value else item.now
  }

  /** What a caller can check: the items come oldest first, none older than what is already live. */
  predicate OldestFirst(frames: seq<Frame>, items: seq<Item>)
  {
    && (forall i, j :: 0 <= i < |frames| && frames[i].active && 0 <= j < |items| ==>
       frames[i].createdAt <= ItemTime(items[j]))
    && forall i, j :: 0 <= i < j < |items| ==> ItemTime(items[i]) <= ItemTime(items[j])
  }

  lemma OldestFirstStep(c: Catalog, d: Catalog, items: seq<Item>)
    requires items != [] && CatPut(c, items[0]) == Ok(d) && TimeOrdered(c.frames) && OldestFirst(c.frames, items)
    ensures TimeOrdered(d.frames) && OldestFirst(d.frames, items[1..])
  {
    hide PlanFor, RegistryOf, ParentIn, Encode;
    var last := |d.frames| - 1;
    assert d.frames[last].createdAt == ItemTime(items[0]) && last == |c.frames|;
    assert forall i :: 0 <= i < last ==> d.frames[i] == c.frames[i] || d.frames[i] == c.frames[i].(active := false);
    hide CatPut;
  }

  lemma {:induction false} OldestFirstOrdered(c: Catalog, items: seq<Item>, n: nat)
    requires n <= |items| && TimeOrdered(c.frames) && OldestFirst(c.frames, items) && CatalogAfter(c, items, n).Ok?
    ensures OrderedAfter(c, items, n)
    decreases n
  {
    hide CatPut, TimeOrdered, OldestFirst;
    if n > 0 {
      var d := CatPut(c, items[0]).value;
      OldestFirstStep(c, d, items);
      OldestFirstOrdered(d, items[1..], n - 1);
    }
  }

  lemma {:induction false} PrefixAccepted(c: Catalog, items: seq<Item>, n: nat)
    requires Accepted(c, items) && n <= |items|
    ensures CatalogAfter(c, items, n).Ok?
    decreases n
  {
    hide CatPut;
    if n > 0 { PrefixAccepted(CatPut(c, items[0]).value, items[1..], n - 1); }
  }

  /** Then every threshold and digest succeed as soon as the puts are accepted. */
  lemma OldestFirstSucceeds(c: Catalog, w: Window, threshold: nat, digest: Digest, items: seq<Item>)
    requires TimeOrdered(c.frames) && OldestFirst(c.frames, items)
    ensures Load(c, w, threshold, digest, items).Ok? <==> Accepted(c, items)
  {
    hide TimeOrdered, OldestFirst, OrderedAfter, CommitsAt, Load;
    LoadExact(c, w, threshold, digest, items);
    if Accepted(c, items) {
      forall n: nat | n <= |items| && CommitsAt(w, threshold, digest, items, n) ensures OrderedAfter(c, items, n) {
        PrefixAccepted(c, items, n);
        OldestFirstOrdered(c, items, n);
      }
    }
  }
}

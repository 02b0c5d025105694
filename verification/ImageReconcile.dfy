/** The image reconcile: load the config rows, upsert every declared image in one transaction, prune what departed. */
module ImageReconcile {
  import opened Prelude
  import opened ImageModel
  import opened ImageWrites

  ghost predicate PrivateOwned(t: Table, existing: map<Identity, Id>, images: seq<Entry>) {
    forall e :: e in images && e.visibility == Private ==>
      e.identity in existing && existing[e.identity] in t && t[existing[e.identity]].owner.Some?
  }

  class ImageCatalog {
    var rows: Table
    var created: seq<Identity>
    var updated: seq<Identity>
    var pruned: seq<Identity>
    var cordoned: seq<Identity>
    var warned: seq<Identity>

    constructor (rows: Table)
      ensures this.rows == rows
      ensures created == updated == pruned == cordoned == warned == []
    {
      this.rows := rows;
      created, updated, pruned, cordoned, warned := [], [], [], [], [];
    }

    /** Config rows keyed by identity, read in the order in which the database lists them. */
    method LoadConfigRows(order: seq<Id>) returns (existing: map<Identity, Id>)
      requires Lists(rows, order)
      ensures existing == LoadedFrom(rows, order) && Loaded(rows, existing)
    {
      existing := map[];
      for i := 0 to |order|
        invariant existing == LoadedFrom(rows, order[..i])
      {
        assert order[..i + 1][..i] == order[..i];
        existing := existing[rows[order[i]].identity := order[i]];
      }
      assert order[..|order|] == order;
      LoadedFromLoads(rows, order);
    }

    /** Creates or change-detectingly updates the row of one image. False when a table constraint refuses the write. */
    method ApplyEntry(e: Entry, store: Store, target: Option<Id>) returns (ok: bool, ghost id: Id)
      requires TableOk(rows)
      requires target.Some? ==> target.value in rows && ConfigRow(rows[target.value], e.identity)
      modifies this`rows, this`created, this`updated, this`warned
      ensures ok ==> EntryStep(old(rows), rows, e, store, id) && (id in old(rows) <==> target.Some?)
      ensures ok && target.Some? ==> id == target.value
      ensures !ok ==> rows == old(rows) && (id in rows <==> target.Some?) && (target.Some? ==> id == target.value)
      ensures !ok ==> !TableOk(rows[id := if id in rows then Updated(e, rows[id], store) else Inserted(e, store)])
      ensures target.Some? && Updated(e, old(rows)[target.value], store) == old(rows)[target.value] ==>
        ok && rows == old(rows)
      ensures ok ==> created == old(created) + (if target.None? then [e.identity] else [])
      ensures ok ==> updated == old(updated) + (if target.Some? && rows != old(rows) then [e.identity] else [])
      ensures ok ==> warned == old(warned) + (if Outcome(e, if target.Some? then Some(old(rows)[target.value]) else None, store).warned
                                              then [e.identity] else [])
    {
      var row := if target.Some? then Some(rows[target.value]) else None;
      var z := Outcome(e, row, store);
      if target.None? {
        var newId := FreshId(rows.Keys);
        id := newId;
        if !TableOk(rows[newId := Inserted(e, store)]) {
          return false, id;
        }
        rows := rows[newId := Inserted(e, store)];
        created := created + [e.identity];
      } else {
        var known := target.value;
        id := known;
        var wanted := Updated(e, rows[known], store);
        if wanted != rows[known] {
          if !TableOk(rows[known := wanted]) {
            return false, id;
          }
          rows := rows[known := wanted];
          updated := updated + [e.identity];
        }
        assert rows == old(rows)[known := wanted];
      }
      if z.warned {
        warned := warned + [e.identity];
      }
      return true, id;
    }

    /** All declared images, in one transaction. */
    method UpsertEntries(images: seq<Entry>, store: Store, existing: map<Identity, Id>,
                         ghost live: set<Id>) returns (ok: bool)
      requires DistinctEntries(images) && TableOk(rows) && Loaded(rows, existing)
      modifies this`rows, this`created, this`updated, this`warned
      ensures TableOk(rows)
      ensures !ok ==> rows == old(rows)
      ensures ok ==> Written(old(rows), rows, existing, images, store, |images|)
      ensures ok <==> AcceptsBelow(old(rows), existing, images, store, |images|)
      ensures IdleFor(old(rows), existing, images, store, live) ==>
        ok && created == old(created) && updated == old(updated)
    {
      hide TableOk, Written, Accepts, IdleFor, DistinctEntries, Loaded;
      var saved := rows;
      NothingWritten(saved, existing, images, store);
      for n := 0 to |images|
        invariant TableOk(rows)
        invariant Written(saved, rows, existing, images, store, n)
        invariant AcceptsBelow(saved, existing, images, store, n)
        invariant IdleFor(saved, existing, images, store, live) ==>
          rows == saved && created == old(created) && updated == old(updated)
      {
        var e := images[n];
        ghost var before := rows;
        var target := if e.identity in existing then Some(existing[e.identity]) else None;
        TargetReady(saved, rows, existing, images, store, live, n);
        ghost var id;
        ok, id := ApplyEntry(e, store, target);
        AcceptedExactly(saved, before, existing, images, store, n, id);
        if !ok {
          rows := saved;
          return;
        }
        if target.Some? {
          UpdateWritten(saved, before, rows, existing, images, store, n);
        } else {
          InsertWritten(saved, before, rows, existing, images, store, n, id);
        }
      }
      return true;
    }

    /** Deletes an idle config row; a row a live system uses is left alone and reported. */
    method PruneOrCordonImage(id: Id, live: set<Id>) returns (outcome: PruneOutcome)
      modifies this`rows
      ensures outcome == Skipped <==> id !in old(rows) || old(rows)[id].managedBy != ByConfig
      ensures outcome == Cordoned ==> id in live
      ensures outcome == Pruned ==> id !in live
      ensures rows == if outcome == Pruned then old(rows) - {id} else old(rows)
    {
      if id !in rows || rows[id].managedBy != ByConfig {
        return Skipped;
      }
      if id in live {
        return Cordoned;
      }
      rows := rows - {id};
      return Pruned;
    }

    /** Prunes the departed idle rows and reports each departed identity once, as pruned or as cordoned. */
    method PruneDeparted(images: seq<Entry>, existing: map<Identity, Id>, live: set<Id>)
      requires forall i :: i in existing ==> existing[i] in rows && ConfigRow(rows[existing[i]], i)
      modifies this`rows, this`pruned, this`cordoned
      ensures rows == old(rows) - Doomed(existing, images, live)
      ensures Reported(pruned, old(pruned), DoomedIds(existing, images, live))
      ensures Reported(cordoned, old(cordoned), SparedIds(existing, images, live))
      ensures Doomed(existing, images, live) == {} ==> pruned == old(pruned)
    {
      hide Swept, Reported, DoomedIds, SparedIds, RowsOf;
      var declared := DeclaredIdentities(images);
      var rest := existing.Keys;
      NothingSwept(rows, pruned, cordoned, existing, images, live);
      while rest != {}
        invariant rest <= existing.Keys
        invariant forall i :: i in rest ==> existing[i] in rows && ConfigRow(rows[existing[i]], i)
        invariant Swept(old(rows), rows, old(pruned), pruned, old(cordoned), cordoned, existing, images, live, rest)
        decreases rest
      {
        var identity :| identity in rest;
        ghost var t, p, c := rows, pruned, cordoned;
        if identity !in declared {
          var outcome := PruneOrCordonImage(existing[identity], live);
          if outcome == Pruned {
            pruned := pruned + [identity];
          } else {
            cordoned := cordoned + [identity];
          }
        }
        SweptOne(old(rows), t, rows, old(pruned), p, pruned, old(cordoned), c, cordoned, existing, images, live, rest,
                 identity);
        rest := rest - {identity};
      }
      AllSwept(old(rows), rows, old(pruned), pruned, old(cordoned), cordoned, existing, images, live);
    }

    /**
     * One pass, over the config rows in the order the database lists them. A refused write leaves the table as it was,
     * and none is refused exactly when every image is accepted. The frame holds. A completed pass leaves a converged
     * table exactly when the rows it did not load needed nothing, and writes nothing exactly when those it did load
     * needed nothing; then it reports nothing either.
     */
    method ReconcileImages(images: seq<Entry>, store: Store, live: set<Id>, order: seq<Id>) returns (completed: bool)
      requires DistinctEntries(images) && TableOk(rows) && Lists(rows, order)
      modifies this
      ensures TableOk(rows) && Frame(old(rows), rows, images, store, live)
      ensures Loaded(old(rows), LoadedFrom(old(rows), order))
      ensures completed <==> AcceptsBelow(old(rows), LoadedFrom(old(rows), order), images, store, |images|)
      ensures !completed ==> rows == old(rows)
      ensures completed ==> PrivateOwned(old(rows), LoadedFrom(old(rows), order), images)
      ensures completed ==> DocumentShown(old(rows), rows, LoadedFrom(old(rows), order), images, store, live)
      ensures completed ==>
        (Converged(rows, images, store, live) <==> SparesIdle(old(rows), LoadedFrom(old(rows), order), images, store, live))
      ensures completed && ConfigUnique(old(rows)) ==> ConfigUnique(rows) && Converged(rows, images, store, live)
      ensures Converged(old(rows), images, store, live) ==>
        IdleFor(old(rows), LoadedFrom(old(rows), order), images, store, live)
      ensures completed && rows == old(rows) <==> IdleFor(old(rows), LoadedFrom(old(rows), order), images, store, live)
      ensures IdleFor(old(rows), LoadedFrom(old(rows), order), images, store, live) ==>
                created == old(created) && updated == old(updated) && pruned == old(pruned)
    {
      hide TableOk, Written, Accepts, IdleFor, DistinctEntries, Loaded, Lists, LoadedFrom, Frame, Converged, Reported,
        PrivateOwned, RowIdle, Doomed, DocumentShown;
      IdleInEveryOrderExactly(rows, images, store, live);
      var existing := LoadConfigRows(order);
      ghost var t0 := rows;
      completed := UpsertEntries(images, store, existing, live);
      if !completed {
        UntouchedFrames(rows, images, store, live);
        return;
      }
      AcceptedOwned(t0, existing, images, store);
      LoadedLasts(t0, rows, existing, images, store);
      PruneFrames(t0, rows, existing, images, store, live);
      PassOutcome(t0, rows, existing, images, store, live);
      PassShows(t0, rows, existing, images, store, live);
      NothingDoomed(t0, existing, images, store, live);
      if ConfigUnique(t0) {
        OutcomeUnique(t0, rows, existing, images, store, Doomed(existing, images, live));
        UniqueHasNoSpares(t0, existing, images, store, live);
      }
      PruneDeparted(images, existing, live);
    }

    /**
     * Two passes with the same inputs, under any two listings. If every config row that shares its identity with
     * another needs nothing, a completed first pass makes the second complete, write nothing and report nothing.
     */
    method ReconcileTwice(images: seq<Entry>, store: Store, live: set<Id>, order: seq<Id>)
      returns (first: bool, second: bool, ghost after: Table)
      requires DistinctEntries(images) && TableOk(rows) && Lists(rows, order)
      modifies this
      ensures first && DuplicatesIdle(old(rows), images, store, live) ==>
                && second && rows == after && Converged(after, images, store, live)
                && created == updated == pruned == []
    {
      hide TableOk, Accepts, DistinctEntries, Lists, LoadedFrom, Loaded, Frame, Converged, PrivateOwned, DuplicatesIdle,
        SparesIdle, IdleFor;
      SparesInEveryOrderExactly(rows, images, store, live);
      second := false;
      first := ReconcileImages(images, store, live, order);
      after := rows;
      if first {
        created, updated, pruned := [], [], [];
        IdleInEveryOrderExactly(rows, images, store, live);
        var next := ListConfigRows();
        second := ReconcileImages(images, store, live, next);
      }
    }

    /** The SELECT behind a pass: the config rows, in no particular order. */
    method ListConfigRows() returns (order: seq<Id>)
      ensures Lists(rows, order)
    {
      order := [];
      var rest := set id | id in rows && rows[id].managedBy == ByConfig;
      while rest != {}
        invariant forall id :: id in rows && rows[id].managedBy == ByConfig <==> id in rest || id in order
        invariant forall id :: id in order ==> id !in rest
        invariant forall i, j :: 0 <= i < j < |order| ==> order[i] != order[j]
        decreases rest
      {
        var id :| id in rest;
        rest, order := rest - {id}, order + [id];
      }
    }

    /**
     * Whatever documents and answers a sequence of passes sees, a registered image that stays declared stays
     * registered.
     */
    method RunPasses(passes: seq<Pass>, ghost id: Id)
      requires TableOk(rows) && id in rows && rows[id].managedBy == ByConfig && rows[id].state == Registered
      requires forall i :: 0 <= i < |passes| ==> DistinctEntries(passes[i].images)
      requires forall i :: 0 <= i < |passes| ==> rows[id].identity in DeclaredIdentities(passes[i].images)
      modifies this
      ensures id in rows && rows[id].state == Registered && rows[id].identity == old(rows)[id].identity
    {
      for i := 0 to |passes|
        invariant TableOk(rows) && id in rows && rows[id].managedBy == ByConfig && rows[id].state == Registered
        invariant rows[id].identity == old(rows)[id].identity
      {
        hide TableOk, Lists, LoadedFrom, IdleFor, SparesIdle, Converged, Accepts;
        ghost var before := rows;
        var order := ListConfigRows();
        var completed := ReconcileImages(passes[i].images, passes[i].store, passes[i].live, order);
        assert id in rows && RowKept(before[id], rows[id], passes[i].images, passes[i].store);
      }
    }
  }

  datatype PruneOutcome = Pruned | Cordoned | Skipped

  datatype Pass = Pass(images: seq<Entry>, store: Store, live: set<Id>)

  /** What the upsert knows of the row it is about to write. */
  lemma TargetReady(t0: Table, t: Table, existing: map<Identity, Id>, images: seq<Entry>, store: Store, live: set<Id>,
                    n: nat)
    requires n < |images| && DistinctEntries(images) && Loaded(t0, existing)
    requires Written(t0, t, existing, images, store, n)
    ensures images[n].identity in existing ==>
      var id := existing[images[n].identity];
      id in t0 && id in t && t[id] == t0[id] && ConfigRow(t[id], images[n].identity)
    ensures IdleFor(t0, existing, images, store, live) ==>
      images[n].identity in existing &&
      Updated(images[n], t0[existing[images[n].identity]], store) == t0[existing[images[n].identity]]
  {
    hide Written, Updated;
    if images[n].identity in existing {
      NextUntouched(t0, t, existing, images, store, n);
    }
    assert images[n] in images;
  }

  lemma AcceptedOwned(t0: Table, existing: map<Identity, Id>, images: seq<Entry>, store: Store)
    requires TableOk(t0) && Loaded(t0, existing) && AcceptsBelow(t0, existing, images, store, |images|)
    ensures PrivateOwned(t0, existing, images)
  {
    hide TableOk, RowChecks;
    forall e | e in images && e.visibility == Private
      ensures e.identity in existing && existing[e.identity] in t0 && t0[existing[e.identity]].owner.Some?
    {
      var n :| 0 <= n < |images| && images[n] == e;
      assert Accepts(t0, existing, images, store, n);
      ChecksExactly(t0, existing, e, store);
    }
  }

  lemma UniqueHasNoSpares(t: Table, existing: map<Identity, Id>, images: seq<Entry>, store: Store, live: set<Id>)
    requires Loaded(t, existing) && ConfigUnique(t)
    ensures SparesIdle(t, existing, images, store, live)
  {
    hide RowIdle;
    forall id | id in t && t[id].managedBy == ByConfig ensures Loads(existing, id, t[id].identity) {
      assert ConfigRow(t[existing[t[id].identity]], t[id].identity);
    }
  }

  lemma NothingDoomed(t0: Table, existing: map<Identity, Id>, images: seq<Entry>, store: Store, live: set<Id>)
    requires Loaded(t0, existing)
    ensures IdleFor(t0, existing, images, store, live) ==> Doomed(existing, images, live) == {}
  {
    hide Updated;
    if IdleFor(t0, existing, images, store, live) {
      forall i | i in existing ensures i !in DoomedIds(existing, images, live) {
        assert RowIdle(t0[existing[i]], existing[i] in live, images, store);
      }
      assert DoomedIds(existing, images, live) == {};
    }
  }

  /** The list grew by each of the identities once, in some order. */
  ghost predicate Reported(list: seq<Identity>, before: seq<Identity>, ids: set<Identity>) {
    multiset(list) == multiset(before) + multiset(ids)
  }

  /** The departed identities outside `rest` are dealt with: the idle ones gone and reported, the live ones reported. */
  ghost predicate Swept(t0: Table, t: Table, pruned0: seq<Identity>, pruned: seq<Identity>, cordoned0: seq<Identity>,
                        cordoned: seq<Identity>, existing: map<Identity, Id>, images: seq<Entry>, live: set<Id>, rest: set<Identity>)
  {
    var gone := DoomedIds(existing, images, live) - rest;
    && t == t0 - RowsOf(existing, gone)
    && Reported(pruned, pruned0, gone)
    && (gone == {} ==> pruned == pruned0)
    && Reported(cordoned, cordoned0, SparedIds(existing, images, live) - rest)
  }

  lemma NothingSwept(t: Table, pruned: seq<Identity>, cordoned: seq<Identity>, existing: map<Identity, Id>,
                     images: seq<Entry>, live: set<Id>)
    ensures Swept(t, t, pruned, pruned, cordoned, cordoned, existing, images, live, existing.Keys)
  {
    assert DoomedIds(existing, images, live) - existing.Keys == {} && SparedIds(existing, images, live) - existing.Keys == {};
    assert RowsOf(existing, {}) == {};
  }

  lemma ReportedOne(list: seq<Identity>, before: seq<Identity>, ids: set<Identity>, i: Identity)
    requires Reported(list, before, ids) && i !in ids
    ensures Reported(list + [i], before, ids + {i})
  {
  }

  lemma SweptOne(t0: Table, t: Table, t': Table, pruned0: seq<Identity>, pruned: seq<Identity>, pruned': seq<Identity>,
                 cordoned0: seq<Identity>, cordoned: seq<Identity>, cordoned': seq<Identity>, existing: map<Identity, Id>,
                 images: seq<Entry>, live: set<Id>, rest: set<Identity>, i: Identity)
    requires Swept(t0, t, pruned0, pruned, cordoned0, cordoned, existing, images, live, rest) && i in rest
    requires i in existing
    requires var departed, idle := i !in DeclaredIdentities(images), existing[i] !in live;
      && t' == (if departed && idle then t - {existing[i]} else t)
      && pruned' == pruned + (if departed && idle then [i] else [])
      && cordoned' == cordoned + (if departed && !idle then [i] else [])
    ensures Swept(t0, t', pruned0, pruned', cordoned0, cordoned', existing, images, live, rest - {i})
  {
    hide Reported;
    assert pruned + [] == pruned && cordoned + [] == cordoned;
    var doomed, spared := DoomedIds(existing, images, live), SparedIds(existing, images, live);
    if i in doomed {
      assert doomed - (rest - {i}) == doomed - rest + {i} && spared - (rest - {i}) == spared - rest;
      assert RowsOf(existing, doomed - rest + {i}) == RowsOf(existing, doomed - rest) + {existing[i]};
      ReportedOne(pruned, pruned0, doomed - rest, i);
    } else if i in spared {
      assert doomed - (rest - {i}) == doomed - rest && spared - (rest - {i}) == spared - rest + {i};
      ReportedOne(cordoned, cordoned0, spared - rest, i);
    } else {
      assert doomed - (rest - {i}) == doomed - rest && spared - (rest - {i}) == spared - rest;
    }
  }

  lemma AllSwept(t0: Table, t: Table, pruned0: seq<Identity>, pruned: seq<Identity>, cordoned0: seq<Identity>,
                 cordoned: seq<Identity>, existing: map<Identity, Id>, images: seq<Entry>, live: set<Id>)
    requires Swept(t0, t, pruned0, pruned, cordoned0, cordoned, existing, images, live, {})
    ensures t == t0 - Doomed(existing, images, live)
    ensures Reported(pruned, pruned0, DoomedIds(existing, images, live))
    ensures Reported(cordoned, cordoned0, SparedIds(existing, images, live))
    ensures Doomed(existing, images, live) == {} ==> pruned == pruned0
  {
    var doomed := DoomedIds(existing, images, live);
    assert doomed - {} == doomed && SparedIds(existing, images, live) - {} == SparedIds(existing, images, live);
    assert forall i :: i in doomed ==> existing[i] in Doomed(existing, images, live);
  }
}

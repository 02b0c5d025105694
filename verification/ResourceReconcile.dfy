/** The resource reconcile: four phases, each a transaction (the last one per row), that update the table in place. */
module ResourceReconcile {
  import opened Prelude
  import opened ResourceModel
  import opened ResourceRefusals
  import opened ResourceNaming

  class Inventory {
    var rows: Table
    var created: seq<Identity>
    var updated: seq<Identity>
    var pruned: seq<Identity>
    var cordoned: seq<Identity>
    var warned: seq<Identity>

    constructor (rows: Table)
      ensures this.rows == rows
      ensures created == updated == pruned == cordoned == warned == []
    {
      this.rows := rows;
      created, updated, pruned, cordoned, warned := [], [], [], [], [];
    }

    /** Resolves the row a declaration is about: by (kind, name) first, then by host for an adopting kind. */
    method FindExisting(d: Decl) returns (r: Option<Id>)
      ensures r.Some? ==> r.value in rows
      ensures r.Some? ==>
        NameMatch(rows[r.value], d) || (d.adopt && HostMatch(rows[r.value], d) && NoNameMatch(rows, d))
      ensures r.None? ==> NoNameMatch(rows, d) && (d.adopt ==> forall k :: k in rows ==> !HostMatch(rows[k], d))
    {
      if id :| id in rows && NameMatch(rows[id], d) {
        return Some(id);
      }
      if !d.adopt {
        return None;
      }
      if id :| id in rows && HostMatch(rows[id], d) {
        return Some(id);
      }
      return None;
    }

    /** Creates or change-detectingly updates one config-owned row; only a real change is reported. */
    method UpsertConfigResource(d: Decl) returns (ghost id: Id)
      modifies this`rows, this`created, this`updated
      ensures UpsertStep(old(rows), rows, d, id)
      ensures created == old(created) + (if id in old(rows) then [] else [(d.kind, d.name)])
      ensures updated == old(updated) + (if id in old(rows) && rows != old(rows) then [(d.kind, d.name)] else [])
    {
      var found := FindExisting(d);
      if found.None? {
        var newId := FreshId(rows.Keys);
        rows := rows[newId := NewRow(d)];
        created := created + [(d.kind, d.name)];
        id := newId;
      } else {
        id := found.value;
        var row := rows[found.value];
        var target := Adopted(row, d);
        if target != row {
          rows := rows[found.value := target];
          updated := updated + [(d.kind, d.name)];
        }
        assert rows == old(rows)[id := target];
      }
    }

    /** Upserts every fault-inject and remote declaration. `t0` is the table the pass started from. */
    method CreateConfigResources(doc: Doc, ghost t0: Table)
      requires ValidDoc(doc) && UniqueNames(rows) && EarlyFrame(t0, rows, doc)
      modifies this`rows, this`created, this`updated
      ensures UniqueNames(rows) && EarlyFrame(t0, rows, doc)
      ensures old(created) <= created && old(updated) <= updated
      ensures AllSatisfied(rows, doc) && SameLocals(old(rows), rows)
      ensures OwnedNamed(old(rows)) ==> Tracked(old(rows), rows, doc, |ConfigDecls(doc)|)
      ensures AllSatisfied(old(rows), doc) ==> rows == old(rows) && created == old(created) && updated == old(updated)
    {
      hide Tracked, SameLocals, OwnedNamed, EarlyFrame, UniqueNames, Satisfied, UpsertStep;
      var decls := ConfigDecls(doc);
      NothingUpserted(rows, doc);
      for i := 0 to |decls|
        invariant UniqueNames(rows) && EarlyFrame(t0, rows, doc)
        invariant old(created) <= created && old(updated) <= updated
        invariant forall j :: 0 <= j < i ==> Satisfied(rows, decls[j])
        invariant SameLocals(old(rows), rows)
        invariant OwnedNamed(old(rows)) ==> Tracked(old(rows), rows, doc, i)
        invariant AllSatisfied(old(rows), doc) ==>
          rows == old(rows) && created == old(created) && updated == old(updated)
      {
        ghost var before := rows;
        ghost var id := UpsertConfigResource(decls[i]);
        UpsertRound(t0, before, rows, id, doc, i);
        assert Declares(doc, decls[i]);
        DeclaredIdentity(doc, decls[i]);
        UpsertKeepsLocalRows(old(rows), before, rows, decls[i], id);
        if OwnedNamed(old(rows)) {
          UpsertTracked(old(rows), before, rows, id, doc, i);
        }
      }
    }

    /** Binds one local declaration to the row its SELECT returns. False when the unique index refuses the name. */
    method OverlayOneLocal(i: LocalInst, pick: Id) returns (ok: bool)
      requires UniqueNames(rows) && SelectsAt(rows, i, pick)
      modifies this`rows, this`updated, this`warned
      ensures ok <==> !(Found(old(rows), i, pick) && NameTaken(old(rows), i.name, pick))
      ensures rows ==
        if ok && Found(old(rows), i, pick) then old(rows)[pick := Overlaid(old(rows)[pick], i)] else old(rows)
      ensures UniqueNames(rows)
      ensures updated == old(updated) + (if rows != old(rows) then [(LocalLibvirt, i.name)] else [])
      ensures warned == old(warned) + (if Found(old(rows), i, pick) then [] else [(LocalLibvirt, i.name)])
    {
      if pick !in rows || !LocalMatch(rows[pick], i) {
        warned := warned + [(LocalLibvirt, i.name)];
        return true;
      }
      var target := Overlaid(rows[pick], i);
      OverlayAccepted(rows, i, pick);
      if target != rows[pick] {
        if !UniqueNames(rows[pick := target]) {
          return false;
        }
        rows := rows[pick := target];
        assert rows[pick] != old(rows)[pick];
        updated := updated + [(LocalLibvirt, i.name)];
      }
      assert rows == old(rows)[pick := target];
      return true;
    }

    /** One transaction: a refused name rolls the whole phase back. */
    method OverlayLocalLibvirt(doc: Doc, picks: seq<Id>, ghost t0: Table) returns (ok: bool)
      requires ValidDoc(doc) && UniqueNames(rows) && EarlyFrame(t0, rows, doc) && AllSatisfied(rows, doc)
      requires Selects(rows, doc, picks)
      modifies this`rows, this`updated, this`warned
      ensures UniqueNames(rows) && EarlyFrame(t0, rows, doc) && AllSatisfied(rows, doc)
      ensures ok <==> NamesFree(old(rows), doc, picks, |doc.local|)
      ensures ok ==> Overlaying(old(rows), rows, doc, picks, |doc.local|) && HeldExactly(rows, doc, picks)
      ensures !ok ==> rows == old(rows)
      ensures old(updated) <= updated
      ensures ok && updated == old(updated) <==> PicksHeld(old(rows), doc, picks)
      ensures PicksHeld(old(rows), doc, picks) ==> rows == old(rows)
    {
      hide UniqueNames, EarlyFrame, AllSatisfied, NameFree, HeldExactly, OverlaidRow, SelectsAt, Overlaid, ValidDoc;
      var saved := rows;
      NothingOverlaid(saved, doc, picks);
      for i := 0 to |doc.local|
        invariant UniqueNames(rows) && EarlyFrame(t0, rows, doc) && AllSatisfied(rows, doc)
        invariant Overlaying(saved, rows, doc, picks, i) && NamesFree(saved, doc, picks, i)
        invariant old(updated) <= updated
        invariant updated == old(updated) <==> PicksHeldBelow(saved, doc, picks, i)
        invariant updated == old(updated) ==> rows == saved
      {
        ghost var before := rows;
        StillSelects(saved, rows, doc, picks, i, i);
        ok := OverlayOneLocal(doc.local[i], picks[i]);
        OverlayVerdict(saved, before, doc, picks, i, ok);
        if !ok {
          RefusedNotHeld(saved, before, doc, picks, i);
          rows := saved;
          return;
        }
        OverlayingOne(saved, before, rows, doc, picks, i);
        EffectOfPick(before, rows, doc.local[i], picks[i]);
        OverlayRound(t0, before, rows, if Found(before, doc.local[i], picks[i]) then Some(picks[i]) else None, doc, i);
        HeldNext(saved, before, rows, doc, picks, i);
      }
      OverlaidSelects(saved, rows, doc, picks);
      OverlaidHeldExactly(saved, rows, doc, picks);
      return true;
    }

    /** Names every discovery row no local declaration covers. One transaction: a name clash rolls it back. */
    method NameUnconfiguredDiscovered(doc: Doc, ghost t0: Table, ghost live: set<Id>) returns (ok: bool)
      requires UniqueNames(rows) && Frame(t0, rows, doc, live) && AllSatisfied(rows, doc)
      modifies this`rows
      ensures UniqueNames(rows) && Frame(t0, rows, doc, live) && AllSatisfied(rows, doc)
      ensures AllHeld(old(rows), doc) ==> AllHeld(rows, doc)
      ensures ok ==> AllNamed(rows, doc)
      ensures ok <==> UniqueNames(NamedExcept(old(rows), doc, {}))
      ensures ok ==> rows == NamedExcept(old(rows), doc, {})
      ensures AllNamed(old(rows), doc) ==> ok && rows == old(rows)
    {
      hide Frame, AllSatisfied, AllHeld, UniqueNames, NamedExcept;
      var saved := rows;
      var rest := set id | id in rows && rows[id].managedBy == ByDiscovery && rows[id].name == None;
      NoneNamed(saved, doc, rest);
      while rest != {}
        invariant UniqueNames(rows) && Frame(t0, rows, doc, live) && AllSatisfied(rows, doc)
        invariant AllHeld(saved, doc) ==> AllHeld(rows, doc)
        invariant ToName(rows, doc, rest)
        invariant AllNamed(saved, doc) ==> rows == saved
        invariant rest <= saved.Keys && rows == NamedExcept(saved, doc, rest)
        decreases rest
      {
        var id :| id in rest;
        NamedMore(saved, doc, rest, id);
        if rows[id].hostUri !in ConfiguredHosts(doc) {
          ghost var before := rows;
          var named := rows[id := rows[id].(name := Some(DeterministicName(rows[id].hostUri)))];
          if !UniqueNames(named) {
            ClashStays(saved, doc, rest - {id});
            rows := saved;
            return false;
          }
          rows := named;
          NameRound(t0, before, rows, id, doc, live);
          NamedOne(before, rows, id, doc, rest);
        }
        rest := rest - {id};
      }
      return true;
    }

    /**
     * Deletes an idle config row or cordons a live one. `referenced` are the rows some allocation, live or not, points
     * at: the foreign key makes their deletion raise.
     */
    method PruneOrCordonResource(id: Id, live: set<Id>, referenced: set<Id>) returns (outcome: PruneOutcome)
      modifies this`rows
      ensures outcome == Skipped <==> id !in old(rows) || old(rows)[id].managedBy != ByConfig
      ensures outcome == Cordoned ==> id in live && rows == old(rows)[id := old(rows)[id].(cordoned := true)]
      ensures outcome == Pruned ==> id !in live && id !in referenced && rows == old(rows) - {id}
      ensures outcome == Refused ==> id !in live && id in referenced && rows == old(rows)
      ensures outcome == Skipped ==> rows == old(rows)
    {
      if id !in rows || rows[id].managedBy != ByConfig {
        return Skipped;
      }
      if id in live {
        rows := rows[id := rows[id].(cordoned := true)];
        return Cordoned;
      }
      if id in referenced {
        return Refused;
      }
      rows := rows - {id};
      return Pruned;
    }

    /**
     * Prunes or cordons every departed config row. False when the database refuses a deletion. `deleted` and `spared`
     * are the rows behind the reports.
     */
    method PruneDeparted(doc: Doc, live: set<Id>, referenced: set<Id>, ghost t0: Table)
      returns (ok: bool, ghost deleted: seq<Id>, ghost spared: seq<Id>)
      requires UniqueNames(rows) && Frame(t0, rows, doc, live) && AllSatisfied(rows, doc) && AllNamed(rows, doc)
      modifies this`rows, this`pruned, this`cordoned
      ensures UniqueNames(rows) && Frame(t0, rows, doc, live) && AllSatisfied(rows, doc) && AllNamed(rows, doc)
      ensures OnlyCordoned(old(rows), rows) && (AllHeld(old(rows), doc) ==> AllHeld(rows, doc))
      ensures ok <==> NoneBlocked(old(rows), doc, live, referenced)
      ensures ok ==> AllSettled(rows, doc, live)
      ensures Reports(pruned, old(pruned), old(rows), deleted) && GoneAre(deleted, old(rows), rows)
      ensures Reports(cordoned, old(cordoned), old(rows), spared)
      ensures (ok ==> SparedAre(spared, old(rows), doc, live, {}))
      ensures AllSettled(old(rows), doc, live) ==> ok && rows == old(rows) && pruned == old(pruned)
    {
      hide Frame, AllSatisfied, AllNamed, AllHeld, AllSettled, UniqueNames, NoneBlocked, ToPrune, DeclaredIdentities,
        OnlyCordoned, Reports, GoneAre, SparedAre;
      var rest := set id | id in rows && rows[id].managedBy == ByConfig;
      deleted, spared := [], [];
      PruneStart(t0, rows, doc, live, referenced, rest);
      NothingReported(pruned, cordoned, rows);
      while rest != {}
        invariant Pruning(t0, old(rows), rows, doc, live, referenced, rest)
        invariant Reports(pruned, old(pruned), old(rows), deleted) && GoneAre(deleted, old(rows), rows)
        invariant Reports(cordoned, old(cordoned), old(rows), spared) && SparedAre(spared, old(rows), doc, live, rest)
        invariant AllSettled(old(rows), doc, live) ==> pruned == old(pruned)
        decreases rest
      {
        var id :| id in rest;
        ghost var before := rows;
        PruneTurn(t0, old(rows), rows, doc, live, referenced, rest, id);
        if !IdentityDeclared(rows[id], doc) {
          var identity := IdentityOf(rows[id]);
          var outcome := PruneOrCordonResource(id, live, referenced);
          if outcome == Refused {
            return false, deleted, spared;
          }
          PruneEffect(t0, old(rows), before, rows, doc, live, referenced, rest, id);
          PruneListed(old(rows), before, rows, doc, live, rest, id, deleted, spared);
          if outcome == Cordoned {
            ReportsOne(cordoned, old(cordoned), old(rows), spared, id);
            cordoned, spared := cordoned + [identity], spared + [id];
          } else {
            ReportsOne(pruned, old(pruned), old(rows), deleted, id);
            pruned, deleted := pruned + [identity], deleted + [id];
          }
        } else {
          PruneListed(old(rows), before, rows, doc, live, rest, id, deleted, spared);
        }
        rest := rest - {id};
      }
      PruneEnd(t0, old(rows), rows, doc, live, referenced);
      ok := true;
    }

    /**
     * One pass, given the row each local declaration's SELECT returns. Whether or not it completes, the frame holds. It
     * completes exactly when the declared local names are free, the names it will give fit and no departed idle row is
     * still referenced. A completed pass converges exactly when every local row that outlives it settles. It is idle,
     * writing nothing and reporting nothing created, updated or pruned, exactly when all it looks at is as declared.
     */
    method ReconcileResources(doc: Doc, live: set<Id>, referenced: set<Id>, picks: seq<Id>) returns (completed: bool)
      requires ValidDoc(doc) && UniqueNames(rows) && Selects(rows, doc, picks)
      modifies this
      ensures UniqueNames(rows) && Frame(old(rows), rows, doc, live) && AllSatisfied(rows, doc)
      ensures OwnedNamed(old(rows)) ==> OwnedNamed(rows)
      ensures completed ==> AllNamed(rows, doc) && AllSettled(rows, doc, live)
      ensures completed ==> (Converged(rows, doc, live) <==> AllSettle(old(rows), doc, live, picks))
      ensures InstancesHeld(rows, doc)
      ensures completed && AllSettle(old(rows), doc, live, picks) ==> DocumentHolds(rows, doc, live)
      ensures OwnedNamed(old(rows)) ==>
        (completed <==>
          && NamesFree(old(rows), doc, picks, |doc.local|)
          && GivenNamesFit(old(rows), doc, picks)
          && NoneBlocked(old(rows), doc, live, referenced))
      ensures IdleWith(old(rows), doc, live, picks) <==>
        && completed && rows == old(rows)
        && created == old(created) && updated == old(updated) && pruned == old(pruned)
    {
      hide NamesFree, SameLocals, EarlyFrame, Frame, AllSatisfied, AllNamed, AllSettled, AllHeld, UniqueNames,
        NamedExcept, NoneBlocked, OwnedNamed, Tracked, GivenNamesFit, AllSettle, HeldExactly, Overlaying, OnlyCordoned,
        Reports, GoneAre, SparedAre, PicksHeld, Selects, ValidDoc, InstancesHeld, DocumentHolds;
      ghost var t0 := rows;
      UntouchedFrames(t0, doc);
      PicksPerDeclaration(t0, doc, picks);
      CreateConfigResources(doc, t0);
      ghost var t1 := rows;
      LocalsDecide(t0, t1, doc, picks);
      SameLocalsPicks(t0, t1, doc, picks);
      completed := OverlayLocalLibvirt(doc, picks, t0);
      ghost var t2 := rows;
      EarlyIsFrame(t0, t2, doc, live);
      if OwnedNamed(t0) {
        FrameKeepsNamed(t0, t2, doc, live);
      }
      SatisfiedMeans(rows, doc);
      if !completed {
        return;
      }
      if OwnedNamed(t0) {
        NamingExactly(t0, t1, t2, doc, picks);
      }
      completed := NameUnconfiguredDiscovered(doc, t0, live);
      ghost var t3 := rows;
      if OwnedNamed(t0) {
        FrameKeepsNamed(t0, t3, doc, live);
      }
      SatisfiedMeans(rows, doc);
      if !completed {
        return;
      }
      NamingKeepsHeldExactly(t2, doc, picks);
      if OwnedNamed(t0) {
        DepartedUntilPrune(t0, t1, t2, doc, picks, live, referenced);
      }
      ghost var deleted, spared;
      completed, deleted, spared := PruneDeparted(doc, live, referenced, t0);
      if OwnedNamed(t0) {
        FrameKeepsNamed(t0, rows, doc, live);
      }
      CordonKeepsHeld(t3, rows, doc, picks);
      SatisfiedMeans(rows, doc);
      if completed {
        HeldAfterPass(t0, rows, doc, live, picks);
        if Converged(rows, doc, live) {
          ConvergedMeans(rows, doc, live);
        }
      }
    }

    /** The SELECTs of the local declarations: each returns some row of its host, if there is one. */
    method SelectLocalRows(doc: Doc) returns (picks: seq<Id>)
      ensures Selects(rows, doc, picks)
    {
      picks := [];
      for n := 0 to |doc.local|
        invariant |picks| == n && forall m :: 0 <= m < n ==> SelectsAt(rows, doc.local[m], picks[m])
      {
        if k :| k in rows && LocalMatch(rows[k], doc.local[n]) {
          picks := picks + [k];
        } else {
          picks := picks + [0];
        }
      }
    }

    /**
     * A second pass with the same document and the same liveness, over whatever rows it selects. Some selection makes
     * it write or report something, or has it refused, exactly when some local row that outlives the first did not
     * settle.
     */
    method ReconcileTwice(doc: Doc, live: set<Id>, referenced: set<Id>, picks: seq<Id>)
      returns (first: bool, second: bool, ghost after: Table, next: seq<Id>)
      requires ValidDoc(doc) && UniqueNames(rows) && Selects(rows, doc, picks)
      modifies this
      ensures first ==> Selects(after, doc, next)
      ensures first ==> (IdleWhatever(after, doc, live) <==> AllSettle(old(rows), doc, live, picks))
      ensures first ==>
        (IdleWith(after, doc, live, next) <==> second && rows == after && created == updated == pruned == [])
      ensures first && AllSettle(old(rows), doc, live, picks) ==>
        second && rows == after && Converged(after, doc, live) && created == updated == pruned == []
    {
      hide NamesFree, Frame, AllSatisfied, AllNamed, AllSettled, AllHeld, UniqueNames, NoneBlocked, OwnedNamed,
        GivenNamesFit, AllSettle, Converged, IdleWith, Selects, ValidDoc;
      second, next := false, [];
      PicksPerDeclaration(rows, doc, picks);
      first := ReconcileResources(doc, live, referenced, picks);
      after := rows;
      if first {
        created, updated, pruned := [], [], [];
        next := SelectLocalRows(doc);
        PicksPerDeclaration(rows, doc, next);
        IdleWhateverSelected(after, doc, live);
        second := ReconcileResources(doc, live, referenced, next);
      }
    }
  }

  datatype PruneOutcome = Pruned | Cordoned | Skipped | Refused

  lemma NothingUpserted(t: Table, doc: Doc)
    ensures SameLocals(t, t) && (OwnedNamed(t) ==> Tracked(t, t, doc, 0))
  {
    if OwnedNamed(t) {
      TrackedStart(t, doc);
    }
  }

  lemma NothingReported(pruned: seq<Identity>, cordoned: seq<Identity>, t: Table)
    ensures Reports(pruned, pruned, t, []) && Reports(cordoned, cordoned, t, [])
  {
  }

  /** The rows a deletion would be refused for are the same from the start of the pass to its last phase. */
  lemma DepartedUntilPrune(t0: Table, t1: Table, t2: Table, doc: Doc, picks: seq<Id>, live: set<Id>,
                           referenced: set<Id>)
    requires Tracked(t0, t1, doc, |ConfigDecls(doc)|)
    requires |picks| == |doc.local| && Overlaying(t1, t2, doc, picks, |doc.local|)
    ensures NoneBlocked(NamedExcept(t2, doc, {}), doc, live, referenced) <==> NoneBlocked(t0, doc, live, referenced)
  {
    hide Overlaying, NamedExcept, NoneBlocked, SameDeparted, OwnedNamed;
    OverlayKeepsDeparted(t1, t2, doc, picks);
    NamingKeepsDeparted(t2, doc);
    DepartedThrough(t0, t1, t2, doc);
    DepartedThrough(t0, t2, NamedExcept(t2, doc, {}), doc);
    BlockedSame(t0, NamedExcept(t2, doc, {}), doc, live, referenced);
  }

  lemma EffectOfPick(t: Table, t': Table, i: LocalInst, pick: Id)
    requires SelectsAt(t, i, pick) && UniqueNames(t')
    requires t' == if Found(t, i, pick) then t[pick := Overlaid(t[pick], i)] else t
    ensures OverlayEffect(t, t', i, if Found(t, i, pick) then Some(pick) else None)
  {
  }

  lemma PicksPerDeclaration(t: Table, doc: Doc, picks: seq<Id>)
    requires Selects(t, doc, picks)
    ensures |picks| == |doc.local|
  {
  }
}

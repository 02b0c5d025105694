/**
 * What the table a resource pass starts from says about its last two phases: which names will be given and whether they
 * clash, which departed rows will be there, and which local rows will end as declared.
 */
module ResourceNaming {
  import opened Prelude
  import opened ResourceModel
  import opened ResourceRefusals

  /** Only discovery inserts rows without a name. */
  ghost predicate OwnedNamed(t: Table) {
    forall id :: id in t && t[id].managedBy != ByDiscovery ==> t[id].name.Some?
  }

  // ---------- names that stand ----------

  ghost predicate Bears(t: Table, kind: Kind, name: string) {
    exists id :: id in t && t[id].kind == kind && t[id].name == Some(name)
  }

  ghost predicate DeclaredBelow(doc: Doc, n: nat, kind: Kind, name: string)
    requires n <= |ConfigDecls(doc)|
  {
    exists j :: 0 <= j < n && ConfigDecls(doc)[j].kind == kind && ConfigDecls(doc)[j].name == name
  }

  lemma UpsertBears(t: Table, t': Table, d: Decl, id: Id, kind: Kind, name: string)
    requires UpsertStep(t, t', d, id)
    ensures Bears(t', kind, name) <==> Bears(t, kind, name) || (kind == d.kind && name == d.name)
  {
    assert id in t' && t'[id].kind == d.kind && t'[id].name == Some(d.name);
    if Bears(t, kind, name) {
      var k :| k in t && t[k].kind == kind && t[k].name == Some(name);
      assert t'[k].kind == kind && t'[k].name == Some(name);
    }
    if Bears(t', kind, name) {
      var k :| k in t' && t'[k].kind == kind && t'[k].name == Some(name);
      assert k != id ==> k in t && t[k] == t'[k];
    }
  }

  ghost predicate NamesTracked(t0: Table, t: Table, doc: Doc, n: nat)
    requires n <= |ConfigDecls(doc)|
  {
    forall kind, name :: Bears(t, kind, name) <==> Bears(t0, kind, name) || DeclaredBelow(doc, n, kind, name)
  }

  lemma UpsertTracksNames(t0: Table, t: Table, t': Table, id: Id, doc: Doc, n: nat)
    requires n < |ConfigDecls(doc)| && NamesTracked(t0, t, doc, n) && UpsertStep(t, t', ConfigDecls(doc)[n], id)
    ensures NamesTracked(t0, t', doc, n + 1)
  {
    hide UpsertStep, Bears;
    var d := ConfigDecls(doc)[n];
    forall kind, name
      ensures Bears(t', kind, name) <==> Bears(t0, kind, name) || DeclaredBelow(doc, n + 1, kind, name)
    {
      UpsertBears(t, t', d, id, kind, name);
      DeclaredNext(doc, n, kind, name);
    }
  }

  lemma DeclaredNext(doc: Doc, n: nat, kind: Kind, name: string)
    requires n < |ConfigDecls(doc)|
    ensures DeclaredBelow(doc, n + 1, kind, name) <==>
              DeclaredBelow(doc, n, kind, name) || (kind == ConfigDecls(doc)[n].kind && name == ConfigDecls(doc)[n].name)
  {
  }

  // ---------- rows that are due a name ----------

  ghost function DueIds(t: Table, doc: Doc, kind: Kind, host: string): set<Id> {
    set id | id in t && Unnamed(t[id], doc) && t[id].kind == kind && t[id].hostUri == host
  }

  /** Declaration `j` takes over an unnamed row of the host, if one is left. */
  ghost predicate Adopts(t0: Table, doc: Doc, j: nat, kind: Kind, host: string) {
    && j < |ConfigDecls(doc)|
    && ConfigDecls(doc)[j].adopt && ConfigDecls(doc)[j].kind == kind && ConfigDecls(doc)[j].hostUri == host
    && NoNameMatch(t0, ConfigDecls(doc)[j])
  }

  ghost function Adopters(t0: Table, doc: Doc, kind: Kind, host: string, n: nat): set<nat> {
    set j: nat | j < n && Adopts(t0, doc, j, kind, host)
  }

  function Less(a: nat, b: nat): nat {
    if a <= b then 0 else a - b
  }

  /** How many rows of the host are still due a name after `n` declarations. */
  ghost function Spare(t0: Table, doc: Doc, kind: Kind, host: string, n: nat): nat {
    Less(|DueIds(t0, doc, kind, host)|, |Adopters(t0, doc, kind, host, n)|)
  }

  ghost predicate DueTracked(t0: Table, t: Table, doc: Doc, n: nat) {
    forall kind, host :: |DueIds(t, doc, kind, host)| == Spare(t0, doc, kind, host, n)
  }

  /** An upsert takes one due row of its host away exactly when it adopts and one is left. */
  lemma UpsertDue(t: Table, t': Table, d: Decl, id: Id, doc: Doc, kind: Kind, host: string)
    requires OwnedNamed(t) && UpsertStep(t, t', d, id)
    ensures var adopts := d.adopt && d.kind == kind && d.hostUri == host && NoNameMatch(t, d);
      |DueIds(t', doc, kind, host)| == Less(|DueIds(t, doc, kind, host)|, if adopts then 1 else 0)
  {
    hide UniqueNames;
    var before, after := DueIds(t, doc, kind, host), DueIds(t', doc, kind, host);
    if id in before {
      assert after == before - {id};
    } else {
      assert after == before;
      if d.adopt && d.kind == kind && d.hostUri == host && NoNameMatch(t, d) {
        assert id in t ==> HostMatch(t[id], d) && t[id].managedBy == ByDiscovery && host in ConfiguredHosts(doc);
        assert id !in t ==> forall k :: k in t ==> !HostMatch(t[k], d);
        assert before == {};
      }
    }
  }

  /**
   * Were a row of another owner unnamed too, the database would choose which of the two is adopted, and with it how
   * many names are given: no condition on the table alone could be exact.
   */
  lemma AdoptionIsAChoice(t: Table, d: Decl, doc: Doc, a: Id, b: Id)
    requires d.adopt && NoNameMatch(t, d) && a in t && b in t && HostMatch(t[a], d) && HostMatch(t[b], d)
    requires Unnamed(t[a], doc) && t[b].managedBy != ByDiscovery
    ensures var byA, byB := t[a := Adopted(t[a], d)], t[b := Adopted(t[b], d)];
      && UpsertStep(t, byA, d, a) && UpsertStep(t, byB, d, b)
      && |DueIds(byA, doc, d.kind, d.hostUri)| + 1 == |DueIds(byB, doc, d.kind, d.hostUri)|
  {
    hide UpsertStep, DueIds;
    HostMatchUpserts(t, d, a);
    HostMatchUpserts(t, d, b);
    DueAfterAdoption(t, d, doc, a, b);
  }

  lemma HostMatchUpserts(t: Table, d: Decl, id: Id)
    requires d.adopt && NoNameMatch(t, d) && id in t && HostMatch(t[id], d)
    ensures UpsertStep(t, t[id := Adopted(t[id], d)], d, id)
  {
  }

  lemma DueAfterAdoption(t: Table, d: Decl, doc: Doc, a: Id, b: Id)
    requires a in t && b in t && HostMatch(t[a], d) && Unnamed(t[a], doc) && !Unnamed(t[b], doc)
    ensures |DueIds(t[a := Adopted(t[a], d)], doc, d.kind, d.hostUri)| + 1 ==
              |DueIds(t[b := Adopted(t[b], d)], doc, d.kind, d.hostUri)|
  {
    hide ConfiguredHosts;
    var due := DueIds(t, doc, d.kind, d.hostUri);
    assert DueIds(t[a := Adopted(t[a], d)], doc, d.kind, d.hostUri) == due - {a};
    assert DueIds(t[b := Adopted(t[b], d)], doc, d.kind, d.hostUri) == due;
  }

  lemma AdoptersNext(t0: Table, doc: Doc, kind: Kind, host: string, n: nat)
    ensures |Adopters(t0, doc, kind, host, n + 1)| ==
              |Adopters(t0, doc, kind, host, n)| + (if Adopts(t0, doc, n, kind, host) then 1 else 0)
  {
    hide Adopts;
    var some, more := Adopters(t0, doc, kind, host, n), Adopters(t0, doc, kind, host, n + 1);
    assert more == if Adopts(t0, doc, n, kind, host) then some + {n} else some;
  }

  /** A declared name is borne by now exactly when it was at the start: no earlier declaration shares it. */
  lemma StillUnmatched(t0: Table, t: Table, doc: Doc, n: nat)
    requires ValidDoc(doc) && n < |ConfigDecls(doc)| && NamesTracked(t0, t, doc, n)
    ensures NoNameMatch(t, ConfigDecls(doc)[n]) <==> NoNameMatch(t0, ConfigDecls(doc)[n])
  {
    var d := ConfigDecls(doc)[n];
    if DeclaredBelow(doc, n, d.kind, d.name) {
      var j :| 0 <= j < n && ConfigDecls(doc)[j].kind == d.kind && ConfigDecls(doc)[j].name == d.name;
      DistinctIdentities(doc, j, n);
      assert false;
    }
    BearsMatch(t, d);
    BearsMatch(t0, d);
  }

  lemma BearsMatch(t: Table, d: Decl)
    ensures NoNameMatch(t, d) <==> !Bears(t, d.kind, d.name)
  {
  }

  lemma UpsertTracksDue(t0: Table, t: Table, t': Table, id: Id, doc: Doc, n: nat)
    requires ValidDoc(doc) && n < |ConfigDecls(doc)| && UpsertStep(t, t', ConfigDecls(doc)[n], id)
    requires OwnedNamed(t) && NamesTracked(t0, t, doc, n) && DueTracked(t0, t, doc, n)
    ensures DueTracked(t0, t', doc, n + 1)
  {
    hide UpsertStep, OwnedNamed, NamesTracked, DueIds, Adopters;
    StillUnmatched(t0, t, doc, n);
    forall kind, host ensures |DueIds(t', doc, kind, host)| == Spare(t0, doc, kind, host, n + 1) {
      UpsertDue(t, t', ConfigDecls(doc)[n], id, doc, kind, host);
      AdoptersNext(t0, doc, kind, host, n);
      assert |DueIds(t, doc, kind, host)| == Spare(t0, doc, kind, host, n);
    }
  }

  // ---------- rows that have departed ----------

  /** The same rows have departed, and no new row has. */
  ghost predicate SameDeparted(t0: Table, t: Table, doc: Doc) {
    && (forall id :: id in t0 ==> id in t && (Departed(t[id], doc) <==> Departed(t0[id], doc)))
    && (forall id :: id in t && id !in t0 ==> !Departed(t[id], doc))
  }

  lemma DepartedThrough(a: Table, b: Table, c: Table, doc: Doc)
    requires SameDeparted(a, b, doc) && SameDeparted(b, c, doc)
    ensures SameDeparted(a, c, doc)
  {
    hide Departed;
  }

  lemma UpsertKeepsDeparted(t: Table, t': Table, d: Decl, id: Id, doc: Doc)
    requires OwnedNamed(t) && UpsertStep(t, t', d, id) && Declares(doc, d)
    ensures OwnedNamed(t') && SameDeparted(t, t', doc)
  {
    DeclaredIdentity(doc, d);
  }

  lemma BlockedSame(t0: Table, t: Table, doc: Doc, live: set<Id>, referenced: set<Id>)
    requires SameDeparted(t0, t, doc)
    ensures NoneBlocked(t, doc, live, referenced) <==> NoneBlocked(t0, doc, live, referenced)
  {
    hide Departed;
  }

  // ---------- the first phase ----------

  /** What the first `n` declarations do to names, due rows and departed rows. */
  ghost predicate Tracked(t0: Table, t: Table, doc: Doc, n: nat)
    requires n <= |ConfigDecls(doc)|
  {
    OwnedNamed(t) && NamesTracked(t0, t, doc, n) && DueTracked(t0, t, doc, n) && SameDeparted(t0, t, doc)
  }

  lemma TrackedStart(t: Table, doc: Doc)
    requires OwnedNamed(t)
    ensures Tracked(t, t, doc, 0)
  {
    forall kind, host ensures Adopters(t, doc, kind, host, 0) == {} {}
  }

  lemma UpsertTracked(t0: Table, t: Table, t': Table, id: Id, doc: Doc, n: nat)
    requires ValidDoc(doc) && n < |ConfigDecls(doc)| && Tracked(t0, t, doc, n)
    requires UpsertStep(t, t', ConfigDecls(doc)[n], id)
    ensures Tracked(t0, t', doc, n + 1)
  {
    hide UpsertStep, OwnedNamed, NamesTracked, DueTracked, SameDeparted;
    UpsertTracksNames(t0, t, t', id, doc, n);
    UpsertTracksDue(t0, t, t', id, doc, n);
    UpsertKeepsDeparted(t, t', ConfigDecls(doc)[n], id, doc);
    DepartedThrough(t0, t, t', doc);
  }

  // ---------- the overlay phase ----------

  /** The name a local row has after the overlay: of the last declaration that picks it, or its own. */
  function FinalName(r: Resource, id: Id, doc: Doc, picks: seq<Id>): Option<string>
    requires |picks| == |doc.local|
  {
    match LastPick(r, id, doc, picks, |doc.local|)
    case None => r.name
    case Some(j) => Some(doc.local[j].name)
  }

  ghost predicate LocalStanding(t: Table, doc: Doc, picks: seq<Id>, name: string)
    requires |picks| == |doc.local|
  {
    exists id :: id in t && t[id].kind == LocalLibvirt && FinalName(t[id], id, doc, picks) == Some(name)
  }

  /** A row after the overlay: its final name, and otherwise untouched unless it is of a declared host. */
  lemma OverlaidRowName(r0: Resource, r: Resource, id: Id, doc: Doc, picks: seq<Id>)
    requires |picks| == |doc.local| && OverlaidRow(r0, r, id, doc, picks, |doc.local|)
    ensures r.name == FinalName(r0, id, doc, picks)
    ensures r0.kind != LocalLibvirt || r0.hostUri !in ConfiguredHosts(doc) ==> r == r0
    ensures r0.name.Some? ==> r.name.Some?
  {
    var last := LastPick(r0, id, doc, picks, |doc.local|);
    if last.Some? {
      assert Overlaid(r, doc.local[last.value]).name == Some(doc.local[last.value].name);
      assert doc.local[last.value] in doc.local;
    }
  }

  lemma OverlayKeepsDue(t: Table, t': Table, doc: Doc, picks: seq<Id>, kind: Kind, host: string)
    requires |picks| == |doc.local| && Overlaying(t, t', doc, picks, |doc.local|)
    ensures DueIds(t', doc, kind, host) == DueIds(t, doc, kind, host)
  {
    hide OverlaidRow, FinalName;
    forall id | id in t
      ensures Unnamed(t'[id], doc) <==> Unnamed(t[id], doc)
      ensures t'[id].kind == t[id].kind && t'[id].hostUri == t[id].hostUri
    {
      OverlaidRowName(t[id], t'[id], id, doc, picks);
      OverlaidSame(t[id], t'[id], id, doc, picks, |doc.local|);
      OverlaidStaysDue(t[id], t'[id], doc);
    }
  }

  lemma OverlaidStaysDue(r0: Resource, r: Resource, doc: Doc)
    requires r.kind == r0.kind && r.hostUri == r0.hostUri && r.managedBy == r0.managedBy
    requires r0.kind != LocalLibvirt || r0.hostUri !in ConfiguredHosts(doc) ==> r == r0
    ensures Unnamed(r, doc) <==> Unnamed(r0, doc)
  {
  }

  lemma OverlayKeepsDeparted(t: Table, t': Table, doc: Doc, picks: seq<Id>)
    requires |picks| == |doc.local| && Overlaying(t, t', doc, picks, |doc.local|) && OwnedNamed(t)
    ensures SameDeparted(t, t', doc) && OwnedNamed(t')
  {
    hide OverlaidRow, FinalName;
    forall id | id in t
      ensures Departed(t'[id], doc) <==> Departed(t[id], doc)
      ensures t'[id].managedBy != ByDiscovery ==> t'[id].name.Some?
    {
      OverlaidRowName(t[id], t'[id], id, doc, picks);
      OverlaidSame(t[id], t'[id], id, doc, picks, |doc.local|);
    }
  }

  /** The names borne after the overlay, in terms of the table before it. */
  lemma OverlayBears(t: Table, t': Table, doc: Doc, picks: seq<Id>, kind: Kind, name: string)
    requires |picks| == |doc.local| && Overlaying(t, t', doc, picks, |doc.local|)
    ensures Bears(t', kind, name) <==>
              if kind == LocalLibvirt then LocalStanding(t, doc, picks, name) else Bears(t, kind, name)
  {
    hide OverlaidRow, FinalName;
    forall id | id in t
      ensures t'[id].kind == t[id].kind && t'[id].name == FinalName(t[id], id, doc, picks)
      ensures t[id].kind != LocalLibvirt ==> t'[id] == t[id]
    {
      OverlaidRowName(t[id], t'[id], id, doc, picks);
      OverlaidSame(t[id], t'[id], id, doc, picks, |doc.local|);
    }
    if Bears(t', kind, name) {
      var id :| id in t' && t'[id].kind == kind && t'[id].name == Some(name);
      assert id in t && t[id].kind == kind;
    }
  }

  // ---------- the naming phase ----------

  /** On a table as it is: no two rows of one host are due a name, and no given name is borne or given twice. */
  ghost predicate NamesFit(t: Table, doc: Doc) {
    && (forall kind, host :: |DueIds(t, doc, kind, host)| <= 1)
    && (forall kind, host :: |DueIds(t, doc, kind, host)| >= 1 ==> !Bears(t, kind, DeterministicName(host)))
    && (forall kind, host, other ::
          |DueIds(t, doc, kind, host)| >= 1 && |DueIds(t, doc, kind, other)| >= 1 ==>
            DeterministicName(host) == DeterministicName(other) ==> host == other)
  }

  lemma AtMostOne(s: set<Id>, a: Id, b: Id)
    requires a in s && b in s
    ensures |s| >= 1 && (|s| <= 1 ==> a == b)
  {
    if a != b {
      SubsetSize({a, b}, s);
    } else {
      SubsetSize({a}, s);
    }
  }

  lemma FitIsUnique(t: Table, doc: Doc)
    requires UniqueNames(t) && NamesFit(t, doc)
    ensures UniqueNames(NamedExcept(t, doc, {}))
  {
    hide DeterministicName;
    var all := NamedExcept(t, doc, {});
    forall a, b | a in all && b in all && all[a].kind == all[b].kind && all[a].name.Some? && all[a].name == all[b].name
      ensures a == b
    {
      ClashFits(t, doc, a, b);
    }
  }

  lemma ClashFits(t: Table, doc: Doc, a: Id, b: Id)
    requires UniqueNames(t) && NamesFit(t, doc) && a in t && b in t
    requires var all := NamedExcept(t, doc, {}); all[a].kind == all[b].kind && all[a].name.Some? && all[a].name == all[b].name
    ensures a == b
  {
    hide DeterministicName, Bears;
    var kind := t[a].kind;
    if Unnamed(t[a], doc) {
      DueHere(t, doc, a);
      NotBorne(t, kind, DeterministicName(t[a].hostUri), b);
    }
    if Unnamed(t[b], doc) {
      DueHere(t, doc, b);
      NotBorne(t, kind, DeterministicName(t[b].hostUri), a);
    }
    if Unnamed(t[a], doc) && Unnamed(t[b], doc) {
      assert t[a].hostUri == t[b].hostUri;
      AtMostOne(DueIds(t, doc, kind, t[a].hostUri), a, b);
    }
  }

  lemma NotBorne(t: Table, kind: Kind, name: string, id: Id)
    requires !Bears(t, kind, name) && id in t
    ensures t[id].kind != kind || t[id].name != Some(name)
  {
  }

  lemma DueHere(t: Table, doc: Doc, id: Id)
    requires id in t && Unnamed(t[id], doc)
    ensures id in DueIds(t, doc, t[id].kind, t[id].hostUri) && |DueIds(t, doc, t[id].kind, t[id].hostUri)| >= 1
  {
    AtMostOne(DueIds(t, doc, t[id].kind, t[id].hostUri), id, id);
  }

  lemma SomeDue(t: Table, doc: Doc, kind: Kind, host: string) returns (id: Id)
    requires |DueIds(t, doc, kind, host)| >= 1
    ensures id in DueIds(t, doc, kind, host)
  {
    id :| id in DueIds(t, doc, kind, host);
  }

  lemma UniqueIsFit(t: Table, doc: Doc)
    requires UniqueNames(NamedExcept(t, doc, {}))
    ensures NamesFit(t, doc)
  {
    hide DeterministicName;
    var all := NamedExcept(t, doc, {});
    forall kind, host ensures |DueIds(t, doc, kind, host)| <= 1 {
      if |DueIds(t, doc, kind, host)| >= 1 {
        var a := SomeDue(t, doc, kind, host);
        forall b | b in DueIds(t, doc, kind, host) ensures b == a {
          assert all[a].name == all[b].name;
        }
        assert DueIds(t, doc, kind, host) == {a};
      }
    }
    forall kind, host | |DueIds(t, doc, kind, host)| >= 1 ensures !Bears(t, kind, DeterministicName(host)) {
      var a := SomeDue(t, doc, kind, host);
      forall b | b in t && t[b].kind == kind ensures t[b].name != Some(DeterministicName(host)) {
        assert a != b ==> all[a].name != all[b].name;
      }
    }
    forall kind, host, other
      | DeterministicName(host) == DeterministicName(other)
        && |DueIds(t, doc, kind, host)| >= 1 && |DueIds(t, doc, kind, other)| >= 1
      ensures host == other
    {
      var a := SomeDue(t, doc, kind, host);
      var b := SomeDue(t, doc, kind, other);
      assert all[a].name == all[b].name;
    }
  }

  /** The names that stand when discovered rows are named, in terms of the table the pass starts from. */
  ghost predicate Standing(t0: Table, doc: Doc, picks: seq<Id>, kind: Kind, name: string)
    requires |picks| == |doc.local|
  {
    if kind == LocalLibvirt then LocalStanding(t0, doc, picks, name)
    else Bears(t0, kind, name) || DeclaredBelow(doc, |ConfigDecls(doc)|, kind, name)
  }

  /** Rows due a name, less one per adopting declaration of their host. */
  ghost function Unadopted(t0: Table, doc: Doc, kind: Kind, host: string): nat {
    Spare(t0, doc, kind, host, |ConfigDecls(doc)|)
  }

  /**
   * In terms of the table the pass starts from: no host has two rows left to be named, no given name stands already,
   * and no two hosts of a kind are given one name.
   */
  ghost predicate GivenNamesFit(t0: Table, doc: Doc, picks: seq<Id>)
    requires |picks| == |doc.local|
  {
    && (forall kind, host :: Unadopted(t0, doc, kind, host) <= 1)
    && (forall kind, host :: Unadopted(t0, doc, kind, host) >= 1 ==> !Standing(t0, doc, picks, kind, DeterministicName(host)))
    && (forall kind, host, other ::
          Unadopted(t0, doc, kind, host) >= 1 && Unadopted(t0, doc, kind, other) >= 1 ==>
            DeterministicName(host) == DeterministicName(other) ==> host == other)
  }

  lemma SameLocalsStanding(t0: Table, t: Table, doc: Doc, picks: seq<Id>, name: string)
    requires SameLocals(t0, t) && |picks| == |doc.local|
    ensures LocalStanding(t0, doc, picks, name) <==> LocalStanding(t, doc, picks, name)
  {
    hide FinalName;
    if LocalStanding(t0, doc, picks, name) {
      var id :| id in t0 && t0[id].kind == LocalLibvirt && FinalName(t0[id], id, doc, picks) == Some(name);
      assert t[id] == t0[id];
    }
    if LocalStanding(t, doc, picks, name) {
      var id :| id in t && t[id].kind == LocalLibvirt && FinalName(t[id], id, doc, picks) == Some(name);
      assert t[id] == t0[id];
    }
  }

  lemma OverlaidStanding(t0: Table, t1: Table, t2: Table, doc: Doc, picks: seq<Id>, kind: Kind, name: string)
    requires Tracked(t0, t1, doc, |ConfigDecls(doc)|) && SameLocals(t0, t1)
    requires |picks| == |doc.local| && Overlaying(t1, t2, doc, picks, |doc.local|)
    ensures Bears(t2, kind, name) <==> Standing(t0, doc, picks, kind, name)
  {
    hide Overlaying, SameLocals, Bears, LocalStanding, DeclaredBelow;
    OverlayBears(t1, t2, doc, picks, kind, name);
    SameLocalsStanding(t0, t1, doc, picks, name);
  }

  /** Whether the naming phase goes through is settled by the table the pass starts from and the rows selected. */
  lemma NamingExactly(t0: Table, t1: Table, t2: Table, doc: Doc, picks: seq<Id>)
    requires Tracked(t0, t1, doc, |ConfigDecls(doc)|) && SameLocals(t0, t1) && UniqueNames(t2)
    requires |picks| == |doc.local| && Overlaying(t1, t2, doc, picks, |doc.local|)
    ensures UniqueNames(NamedExcept(t2, doc, {})) <==> GivenNamesFit(t0, doc, picks)
  {
    hide Overlaying, SameLocals, UniqueNames, NamedExcept, Bears, Standing, Spare, DueIds, DeterministicName;
    forall kind, host ensures |DueIds(t2, doc, kind, host)| == Unadopted(t0, doc, kind, host) {
      OverlayKeepsDue(t1, t2, doc, picks, kind, host);
      assert |DueIds(t1, doc, kind, host)| == Spare(t0, doc, kind, host, |ConfigDecls(doc)|);
    }
    forall kind, host
      ensures Bears(t2, kind, DeterministicName(host)) <==> Standing(t0, doc, picks, kind, DeterministicName(host))
    {
      OverlaidStanding(t0, t1, t2, doc, picks, kind, DeterministicName(host));
    }
    if NamesFit(t2, doc) {
      FitIsUnique(t2, doc);
    }
    if UniqueNames(NamedExcept(t2, doc, {})) {
      UniqueIsFit(t2, doc);
    }
  }

  lemma NamingKeepsDeparted(t: Table, doc: Doc)
    requires OwnedNamed(t)
    ensures var t' := NamedExcept(t, doc, {}); OwnedNamed(t') && SameDeparted(t, t', doc)
  {
    hide DeterministicName, DeclaredIdentities;
  }

  lemma NamingKeepsHeldExactly(t: Table, doc: Doc, picks: seq<Id>)
    requires |picks| == |doc.local| && HeldExactly(t, doc, picks)
    ensures HeldExactly(NamedExcept(t, doc, {}), doc, picks)
  {
    hide DeterministicName, RowHeld, Settles;
    var t' := NamedExcept(t, doc, {});
    forall k | k in t' ensures RowHeld(t'[k], doc) <==> Settles(t'[k], k, doc, picks) {
      if Unnamed(t[k], doc) {
        UnconfiguredHeld(t'[k], k, doc, picks);
      }
    }
  }

  lemma UnconfiguredHeld(r: Resource, id: Id, doc: Doc, picks: seq<Id>)
    requires |picks| == |doc.local| && r.hostUri !in ConfiguredHosts(doc)
    ensures RowHeld(r, doc) && Settles(r, id, doc, picks)
  {
    assert forall i :: i in doc.local ==> i.hostUri in ConfiguredHosts(doc);
    assert forall j :: 0 <= j < |doc.local| ==> doc.local[j] in doc.local;
  }

  // ---------- which tables converge ----------

  /**
   * A local row is there after a completed pass unless it is config-owned and idle, for no local row is ever declared.
   */
  predicate Outlives(r: Resource, live: bool) {
    r.kind == LocalLibvirt && (r.managedBy == ByConfig ==> live)
  }

  /** Every local row that outlives the pass is the one its only declaration picks, or has no declaration. */
  ghost predicate AllSettle(t: Table, doc: Doc, live: set<Id>, picks: seq<Id>)
    requires |picks| == |doc.local|
  {
    forall k :: k in t && Outlives(t[k], k in live) ==> Settles(t[k], k, doc, picks)
  }

  /** No local row that outlives the pass is named by two declarations. */
  ghost predicate HostsNamedOnce(t: Table, doc: Doc, live: set<Id>) {
    forall k :: k in t && Outlives(t[k], k in live) ==> NamedOnce(t[k], doc)
  }

  /** No row of a declared local host that outlives the pass shares the host with another row. */
  ghost predicate HostsHeldOnce(t: Table, doc: Doc, live: set<Id>) {
    forall k, o :: k in t && o in t && ShareHost(t[k], t[o], doc, k in live) ==> k == o
  }

  /** The first row outlives the pass, and the other is of the same declared host. */
  predicate ShareHost(r: Resource, other: Resource, doc: Doc, live: bool) {
    && Outlives(r, live) && r.hostUri in ConfiguredHosts(doc)
    && other.kind == LocalLibvirt && other.hostUri == r.hostUri
  }

  /**
   * Whatever rows are selected, all settle exactly when each outliving row has one declaration and its host to itself.
   */
  lemma SettleWhateverSelected(t: Table, doc: Doc, live: set<Id>)
    ensures (forall picks :: Selects(t, doc, picks) ==> AllSettle(t, doc, live, picks)) <==>
              HostsNamedOnce(t, doc, live) && HostsHeldOnce(t, doc, live)
  {
    if forall picks :: Selects(t, doc, picks) ==> AllSettle(t, doc, live, picks) {
      forall k | k in t && Outlives(t[k], k in live) ensures NamedOnce(t[k], doc) {
        var picks := SelectsSome(t, doc);
        assert Settles(t[k], k, doc, picks);
      }
      forall k, o | k in t && o in t && ShareHost(t[k], t[o], doc, k in live) ensures k == o {
        var n := DeclarationOf(doc, t[k].hostUri);
        var picks := SelectsRow(t, doc, n, o);
        assert Settles(t[k], k, doc, picks) && LocalMatch(t[k], doc.local[n]);
      }
    }
    if HostsNamedOnce(t, doc, live) && HostsHeldOnce(t, doc, live) {
      forall picks | Selects(t, doc, picks) ensures AllSettle(t, doc, live, picks) {
        SoleRowsSettle(t, doc, live, picks);
      }
    }
  }

  lemma DeclarationOf(doc: Doc, host: string) returns (n: nat)
    requires host in ConfiguredHosts(doc)
    ensures n < |doc.local| && doc.local[n].hostUri == host
  {
    var i :| i in doc.local && i.hostUri == host;
    n :| n < |doc.local| && doc.local[n] == i;
  }

  lemma SoleRowsSettle(t: Table, doc: Doc, live: set<Id>, picks: seq<Id>)
    requires HostsNamedOnce(t, doc, live) && HostsHeldOnce(t, doc, live) && Selects(t, doc, picks)
    ensures AllSettle(t, doc, live, picks)
  {
    hide NamedOnce;
    forall k | k in t && Outlives(t[k], k in live) ensures Settles(t[k], k, doc, picks) {
      forall j | 0 <= j < |doc.local| && LocalMatch(t[k], doc.local[j]) ensures picks[j] == k {
        assert SelectsAt(t, doc.local[j], picks[j]);
        assert doc.local[j] in doc.local && t[k].hostUri in ConfiguredHosts(doc);
        assert Found(t, doc.local[j], picks[j]) && ShareHost(t[k], t[picks[j]], doc, k in live);
      }
    }
  }

  lemma SameHostSettles(r0: Resource, r: Resource, id: Id, doc: Doc, picks: seq<Id>)
    requires |picks| == |doc.local| && r.kind == r0.kind && (r0.kind == LocalLibvirt ==> r.hostUri == r0.hostUri)
    ensures Settles(r, id, doc, picks) <==> Settles(r0, id, doc, picks)
  {
    assert forall j :: 0 <= j < |doc.local| ==> (LocalMatch(r, doc.local[j]) <==> LocalMatch(r0, doc.local[j]));
  }

  lemma HeldAfterPass(t0: Table, t: Table, doc: Doc, live: set<Id>, picks: seq<Id>)
    requires |picks| == |doc.local| && HeldExactly(t, doc, picks) && Frame(t0, t, doc, live) && AllSettled(t, doc, live)
    ensures AllHeld(t, doc) <==> AllSettle(t0, doc, live, picks)
  {
    hide Settles, RowHeld, CapsKept, Matched;
    AllHeldRows(t, doc);
    forall k | k in t && k in t0 ensures Settles(t[k], k, doc, picks) <==> Settles(t0[k], k, doc, picks) {
      assert FrameRow(t0[k], t[k], doc);
      SameHostSettles(t0[k], t[k], k, doc, picks);
    }
    if AllHeld(t, doc) {
      forall k | k in t0 && Outlives(t0[k], k in live) ensures Settles(t0[k], k, doc, picks) {
        assert k in t;
      }
    }
    if AllSettle(t0, doc, live, picks) {
      forall k | k in t ensures Settles(t[k], k, doc, picks) {
        if t[k].kind == LocalLibvirt {
          LocalOutlives(t0, t, doc, live, k);
        } else {
          NeverNamed(t[k], k, doc, picks);
        }
      }
    }
  }

  lemma NeverNamed(r: Resource, id: Id, doc: Doc, picks: seq<Id>)
    requires |picks| == |doc.local| && r.kind != LocalLibvirt
    ensures Settles(r, id, doc, picks)
  {
  }

  lemma LocalOutlives(t0: Table, t: Table, doc: Doc, live: set<Id>, k: Id)
    requires Frame(t0, t, doc, live) && AllSettled(t, doc, live) && k in t && t[k].kind == LocalLibvirt
    ensures k in t0 && Outlives(t0[k], k in live)
  {
    hide CapsKept, Matched;
    assert Settled(t[k], doc, k in live);
    assert !IdentityDeclared(t[k], doc);
    if k in t0 {
      assert FrameRow(t0[k], t[k], doc);
    }
  }

  /** Every row that discovery does not own is still named. */
  lemma FrameKeepsNamed(t0: Table, t: Table, doc: Doc, live: set<Id>)
    requires Frame(t0, t, doc, live) && OwnedNamed(t0)
    ensures OwnedNamed(t)
  {
    hide CapsKept, Matched, UnmatchedKept;
    forall k | k in t && t[k].managedBy != ByDiscovery ensures t[k].name.Some? {
      assert k in t0 ==> FrameRow(t0[k], t[k], doc);
    }
  }

  /** Deleting rows and cordoning others keeps what is held. */
  lemma CordonKeepsHeld(t: Table, t': Table, doc: Doc, picks: seq<Id>)
    requires |picks| == |doc.local| && HeldExactly(t, doc, picks) && OnlyCordoned(t, t')
    ensures HeldExactly(t', doc, picks)
  {
    hide Settles;
    forall k | k in t' ensures RowHeld(t'[k], doc) <==> Settles(t'[k], k, doc, picks) {
      SameHostSettles(t[k], t'[k], k, doc, picks);
      assert forall i :: i in doc.local ==>
        (LocalMatch(t'[k], i) <==> LocalMatch(t[k], i)) && (Overlaid(t'[k], i) == t'[k] <==> Overlaid(t[k], i) == t[k]);
    }
  }

  // ---------- when a pass has nothing to do ----------

  /** Every row a declaration selects is as declared. */
  ghost predicate PicksHeld(t: Table, doc: Doc, picks: seq<Id>)
    requires |picks| == |doc.local|
  {
    PicksHeldBelow(t, doc, picks, |doc.local|)
  }

  ghost predicate PicksHeldBelow(t: Table, doc: Doc, picks: seq<Id>, n: nat)
    requires n <= |picks| == |doc.local|
  {
    forall m :: 0 <= m < n && Found(t, doc.local[m], picks[m]) ==> Overlaid(t[picks[m]], doc.local[m]) == t[picks[m]]
  }

  /** The overlay keeps hosts, so each SELECT still returns its row. */
  lemma StillSelects(t0: Table, t: Table, doc: Doc, picks: seq<Id>, n: nat, m: nat)
    requires n <= |doc.local| && m < |doc.local| && Selects(t0, doc, picks) && Overlaying(t0, t, doc, picks, n)
    ensures SelectsAt(t, doc.local[m], picks[m])
  {
    hide OverlaidRow;
    assert SelectsAt(t0, doc.local[m], picks[m]);
    forall k | k in t ensures LocalMatch(t[k], doc.local[m]) <==> LocalMatch(t0[k], doc.local[m]) {
      OverlaidSame(t0[k], t[k], k, doc, picks, n);
    }
  }

  lemma OverlaidSelects(t0: Table, t: Table, doc: Doc, picks: seq<Id>)
    requires Selects(t0, doc, picks) && Overlaying(t0, t, doc, picks, |doc.local|)
    ensures Selects(t, doc, picks)
  {
    hide OverlaidRow, SelectsAt;
    forall m | 0 <= m < |doc.local| ensures SelectsAt(t, doc.local[m], picks[m]) {
      StillSelects(t0, t, doc, picks, |doc.local|, m);
    }
  }

  /** A row that is as declared bears the declared name, so no other does. */
  lemma RefusedNotHeld(t0: Table, t: Table, doc: Doc, picks: seq<Id>, n: nat)
    requires n < |picks| == |doc.local| && UniqueNames(t) && (PicksHeldBelow(t0, doc, picks, n) ==> t == t0)
    requires Found(t, doc.local[n], picks[n]) && NameTaken(t, doc.local[n].name, picks[n])
    ensures !PicksHeld(t0, doc, picks)
  {
    var o :| o in t && o != picks[n] && LocalNamed(t[o], doc.local[n].name);
    assert t[picks[n]].name != Some(doc.local[n].name);
  }

  /** One more declaration writes nothing exactly when the row it selects is as declared. */
  lemma HeldNext(t0: Table, t: Table, t': Table, doc: Doc, picks: seq<Id>, n: nat)
    requires n < |picks| == |doc.local| && (PicksHeldBelow(t0, doc, picks, n) ==> t == t0)
    requires t' == if Found(t, doc.local[n], picks[n]) then t[picks[n] := Overlaid(t[picks[n]], doc.local[n])] else t
    ensures PicksHeldBelow(t0, doc, picks, n + 1) <==> PicksHeldBelow(t0, doc, picks, n) && t' == t
  {
    hide Overlaid;
    if Found(t, doc.local[n], picks[n]) {
      assert t' == t <==> Overlaid(t[picks[n]], doc.local[n]) == t[picks[n]] by {
        assert t'[picks[n]] == Overlaid(t[picks[n]], doc.local[n]);
      }
    }
  }

  ghost predicate IdleWith(t: Table, doc: Doc, live: set<Id>, picks: seq<Id>)
    requires |picks| == |doc.local|
  {
    AllSatisfied(t, doc) && PicksHeld(t, doc, picks) && AllNamed(t, doc) && AllSettled(t, doc, live)
  }

  ghost predicate IdleWhatever(t: Table, doc: Doc, live: set<Id>) {
    forall picks :: Selects(t, doc, picks) ==> IdleWith(t, doc, live, picks)
  }

  /** A pass is idle whatever rows are selected exactly when the table is converged. */
  lemma IdleWhateverSelected(t: Table, doc: Doc, live: set<Id>)
    requires UniqueNames(t)
    ensures IdleWhatever(t, doc, live) <==> Converged(t, doc, live)
  {
    hide AllSatisfied, AllNamed, AllSettled, UniqueNames, Overlaid;
    if IdleWhatever(t, doc, live) {
      var picks := SelectsSome(t, doc);
      forall i, k | i in doc.local && k in t && LocalMatch(t[k], i) ensures Overlaid(t[k], i) == t[k] {
        var n: nat :| n < |doc.local| && doc.local[n] == i;
        var mine := SelectsRow(t, doc, n, k);
        assert IdleWith(t, doc, live, mine) && Found(t, doc.local[n], mine[n]);
      }
      assert forall i :: i in doc.local ==> OverlayHeld(t, i);
    }
    if Converged(t, doc, live) {
      forall picks | Selects(t, doc, picks) ensures PicksHeld(t, doc, picks) {
        forall n | 0 <= n < |doc.local| && Found(t, doc.local[n], picks[n])
          ensures Overlaid(t[picks[n]], doc.local[n]) == t[picks[n]]
        {
          assert doc.local[n] in doc.local && OverlayHeld(t, doc.local[n]);
        }
      }
    }
  }

  lemma SameLocalsPicks(t: Table, t': Table, doc: Doc, picks: seq<Id>)
    requires SameLocals(t, t') && |picks| == |doc.local|
    ensures PicksHeld(t, doc, picks) <==> PicksHeld(t', doc, picks)
  {
    hide Overlaid;
    forall n | 0 <= n < |doc.local| ensures Found(t, doc.local[n], picks[n]) <==> Found(t', doc.local[n], picks[n]) {
      SameFound(t, t', doc.local[n], picks[n]);
    }
  }

  // ---------- two rows of one host ----------

  const TwinDoc := Doc([], [], [LocalInst("declared", "standard", 1, "qemu:///system")])
  const FoundRow :=
    Resource(LocalLibvirt, None, "qemu:///system", "default", map[], ByDiscovery, None, None, [], false, "default", "available")
  const RegisteredRow := FoundRow.(name := Some("registered"), managedBy := ByRuntime)
  const TwinRows: Table := map[0 := FoundRow, 1 := RegisteredRow]

  lemma TwinsNeedNoName(picks: seq<Id>)
    requires |picks| == 1
    ensures GivenNamesFit(TwinRows, TwinDoc, picks)
  {
    hide Standing, DeterministicName, Adopters;
    assert TwinDoc.local[0] in TwinDoc.local && "qemu:///system" in ConfiguredHosts(TwinDoc);
    forall kind, host ensures Unadopted(TwinRows, TwinDoc, kind, host) == 0 {
      assert DueIds(TwinRows, TwinDoc, kind, host) == {};
    }
  }

  /**
   * A discovered host that was also registered at run time. A pass that selects the discovered row is let through in
   * every phase; on the table it leaves, a pass that selects the other row is refused.
   */
  lemma TwoRowsOfOneHost(referenced: set<Id>)
    ensures ValidDoc(TwinDoc) && UniqueNames(TwinRows) && OwnedNamed(TwinRows)
    ensures Selects(TwinRows, TwinDoc, [0]) && NamesFree(TwinRows, TwinDoc, [0], 1)
    ensures GivenNamesFit(TwinRows, TwinDoc, [0]) && NoneBlocked(TwinRows, TwinDoc, {}, referenced)
    ensures var after := TwinRows[0 := Overlaid(FoundRow, TwinDoc.local[0])];
      Overlaying(TwinRows, after, TwinDoc, [0], 1) && Selects(after, TwinDoc, [1]) && !NamesFree(after, TwinDoc, [1], 1)
    ensures HostsNamedOnce(TwinRows, TwinDoc, {}) && !HostsHeldOnce(TwinRows, TwinDoc, {})
  {
    var after := TwinRows[0 := Overlaid(FoundRow, TwinDoc.local[0])];
    assert TwinRows[0] == FoundRow && TwinRows[1] == RegisteredRow && after[1] == RegisteredRow;
    assert TwinDoc.local[0] in TwinDoc.local && "qemu:///system" in ConfiguredHosts(TwinDoc);
    assert ShareHost(TwinRows[0], TwinRows[1], TwinDoc, false);
    TwinsNeedNoName([0]);
    hide GivenNamesFit;
    NothingOverlaid(TwinRows, TwinDoc, [0]);
    OverlayingOne(TwinRows, TwinRows, after, TwinDoc, [0], 0);
    SecondRowRefused(after, TwinDoc, [1], 0, 0);
  }
}

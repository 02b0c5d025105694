/**
 * Exactly when the unique index on (kind, name) lets the overlay and naming phases of the resource reconcile through.
 */
module ResourceRefusals {
  import opened Prelude
  import opened ResourceModel

  // ---------- overlaying the declared local hosts ----------

  predicate LocalNamed(r: Resource, name: string) {
    r.kind == LocalLibvirt && r.name == Some(name)
  }

  ghost predicate NameTaken(t: Table, name: string, k: Id) {
    exists o :: o in t && o != k && LocalNamed(t[o], name)
  }

  lemma OverlayAccepted(t: Table, i: LocalInst, k: Id)
    requires UniqueNames(t) && k in t && LocalMatch(t[k], i)
    ensures UniqueNames(t[k := Overlaid(t[k], i)]) <==> !NameTaken(t, i.name, k)
  {
    var t' := t[k := Overlaid(t[k], i)];
    if NameTaken(t, i.name, k) {
      var o :| o in t && o != k && LocalNamed(t[o], i.name);
      assert t'[o].name == t'[k].name;
    }
  }

  /**
   * Nothing makes local hosts unique: registering one at run time does not look for a row of the same host. So the row
   * each declaration's SELECT returns is an input; `picks[n]` is that of declaration `n`, if its host has a row at all.
   */
  ghost predicate Selects(t: Table, doc: Doc, picks: seq<Id>) {
    |picks| == |doc.local| && forall n :: 0 <= n < |doc.local| ==> SelectsAt(t, doc.local[n], picks[n])
  }

  ghost predicate SelectsAt(t: Table, i: LocalInst, pick: Id) {
    Found(t, i, pick) || forall k :: k in t ==> !LocalMatch(t[k], i)
  }

  predicate Found(t: Table, i: LocalInst, pick: Id) {
    pick in t && LocalMatch(t[pick], i)
  }

  predicate Picked(r: Resource, id: Id, doc: Doc, picks: seq<Id>, j: nat)
    requires |picks| == |doc.local|
  {
    j < |picks| && picks[j] == id && LocalMatch(r, doc.local[j])
  }

  /** Of the first `n` declarations, the last one whose SELECT returns the row. */
  function LastPick(r: Resource, id: Id, doc: Doc, picks: seq<Id>, n: nat): (j: Option<nat>)
    requires n <= |picks| == |doc.local|
    ensures j.Some? ==> j.value < n && Picked(r, id, doc, picks, j.value)
    ensures forall m: nat :: (if j.Some? then j.value else -1) < m < n ==> !Picked(r, id, doc, picks, m)
  {
    if n == 0 then None
    else if Picked(r, id, doc, picks, n - 1) then Some(n - 1)
    else LastPick(r, id, doc, picks, n - 1)
  }

  /**
   * If declaration `n` finds a row, every local row that bears the declared name is that row or was picked by an
   * earlier declaration, which has renamed it by then.
   */
  ghost predicate NameFree(t: Table, doc: Doc, picks: seq<Id>, n: nat)
    requires n < |picks| == |doc.local|
  {
    Found(t, doc.local[n], picks[n]) ==>
      forall o :: o in t && LocalNamed(t[o], doc.local[n].name) ==> o == picks[n] || LastPick(t[o], o, doc, picks, n).Some?
  }

  ghost predicate NamesFree(t: Table, doc: Doc, picks: seq<Id>, n: nat)
    requires n <= |picks| == |doc.local|
  {
    forall m :: 0 <= m < n ==> NameFree(t, doc, picks, m)
  }

  /** Where a row stands after the first `n` declarations: as the last one that picked it says, or as it was. */
  ghost predicate OverlaidRow(r0: Resource, r: Resource, id: Id, doc: Doc, picks: seq<Id>, n: nat)
    requires n <= |picks| == |doc.local|
  {
    match LastPick(r0, id, doc, picks, n)
    case None => r == r0
    case Some(j) =>
      r.kind == r0.kind && r.hostUri == r0.hostUri && r.managedBy == r0.managedBy && Overlaid(r, doc.local[j]) == r
  }

  ghost predicate Overlaying(t0: Table, t: Table, doc: Doc, picks: seq<Id>, n: nat)
    requires n <= |picks| == |doc.local|
  {
    t.Keys == t0.Keys && forall id :: id in t0 ==> OverlaidRow(t0[id], t[id], id, doc, picks, n)
  }

  lemma NothingOverlaid(t: Table, doc: Doc, picks: seq<Id>)
    requires |picks| == |doc.local|
    ensures Overlaying(t, t, doc, picks, 0) && NamesFree(t, doc, picks, 0)
  {
  }

  lemma OverlaidSame(r0: Resource, r: Resource, id: Id, doc: Doc, picks: seq<Id>, n: nat)
    requires n <= |picks| == |doc.local| && OverlaidRow(r0, r, id, doc, picks, n)
    ensures r.kind == r0.kind && r.hostUri == r0.hostUri && r.managedBy == r0.managedBy
  {
  }

  /** The row that declaration `n` picks follows it; any other row is where it was. */
  lemma OverlaidNext(r0: Resource, r: Resource, r': Resource, id: Id, doc: Doc, picks: seq<Id>, n: nat)
    requires n < |picks| == |doc.local| && OverlaidRow(r0, r, id, doc, picks, n)
    requires r' == if Picked(r0, id, doc, picks, n) then Overlaid(r, doc.local[n]) else r
    ensures OverlaidRow(r0, r', id, doc, picks, n + 1)
  {
    OverlaidSame(r0, r, id, doc, picks, n);
    assert Overlaid(Overlaid(r, doc.local[n]), doc.local[n]).caps == Overlaid(r, doc.local[n]).caps;
  }

  lemma OverlayingOne(t0: Table, t: Table, t': Table, doc: Doc, picks: seq<Id>, n: nat)
    requires n < |picks| == |doc.local| && Overlaying(t0, t, doc, picks, n)
    requires t' == if Found(t, doc.local[n], picks[n]) then t[picks[n] := Overlaid(t[picks[n]], doc.local[n])] else t
    ensures Overlaying(t0, t', doc, picks, n + 1)
  {
    hide OverlaidRow, Overlaid;
    forall k | k in t0 ensures k in t' && OverlaidRow(t0[k], t'[k], k, doc, picks, n + 1) {
      OverlaidSame(t0[k], t[k], k, doc, picks, n);
      OverlaidNext(t0[k], t[k], t'[k], k, doc, picks, n);
    }
  }

  /** A row that some declaration has renamed does not bear the name of another. */
  lemma RenamedElsewhere(r0: Resource, r: Resource, id: Id, doc: Doc, picks: seq<Id>, n: nat)
    requires n < |picks| == |doc.local| && ValidDoc(doc) && OverlaidRow(r0, r, id, doc, picks, n)
    requires LastPick(r0, id, doc, picks, n).Some?
    ensures !LocalNamed(r, doc.local[n].name)
  {
    var j := LastPick(r0, id, doc, picks, n).value;
    assert Overlaid(r, doc.local[j]).name == Some(doc.local[j].name);
  }

  lemma TakenExactly(t0: Table, t: Table, doc: Doc, picks: seq<Id>, n: nat)
    requires n < |picks| == |doc.local| && ValidDoc(doc) && Overlaying(t0, t, doc, picks, n)
    requires Found(t, doc.local[n], picks[n])
    ensures NameTaken(t, doc.local[n].name, picks[n]) <==> !NameFree(t0, doc, picks, n)
  {
    hide Overlaid, ValidDoc;
    var name, k := doc.local[n].name, picks[n];
    OverlaidSame(t0[k], t[k], k, doc, picks, n);
    forall o | o in t && o != k
      ensures LocalNamed(t[o], name) <==> LocalNamed(t0[o], name) && LastPick(t0[o], o, doc, picks, n).None?
    {
      assert OverlaidRow(t0[o], t[o], o, doc, picks, n);
      if LastPick(t0[o], o, doc, picks, n).Some? {
        RenamedElsewhere(t0[o], t[o], o, doc, picks, n);
      }
    }
  }

  /** Whether declaration `n` goes through is settled by the table the phase started from and the rows selected. */
  lemma OverlayVerdict(t0: Table, t: Table, doc: Doc, picks: seq<Id>, n: nat, ok: bool)
    requires n < |picks| == |doc.local| && ValidDoc(doc) && Overlaying(t0, t, doc, picks, n)
    requires ok <==> !(Found(t, doc.local[n], picks[n]) && NameTaken(t, doc.local[n].name, picks[n]))
    ensures ok <==> NameFree(t0, doc, picks, n)
  {
    hide NameTaken, NameFree, OverlaidRow, ValidDoc;
    if Found(t, doc.local[n], picks[n]) {
      TakenExactly(t0, t, doc, picks, n);
    } else {
      UnfoundIsFree(t0, t, doc, picks, n);
    }
  }

  lemma UnfoundIsFree(t0: Table, t: Table, doc: Doc, picks: seq<Id>, n: nat)
    requires n < |picks| == |doc.local| && Overlaying(t0, t, doc, picks, n) && !Found(t, doc.local[n], picks[n])
    ensures NameFree(t0, doc, picks, n)
  {
    if picks[n] in t0 {
      OverlaidSame(t0[picks[n]], t[picks[n]], picks[n], doc, picks, n);
    }
  }

  /** Exchanging the names of two discovered hosts in the document is refused, and so is every later pass with it. */
  lemma SwappedNamesRefused(t: Table, doc: Doc, picks: seq<Id>, a: Id, b: Id, p: nat, q: nat)
    requires Selects(t, doc, picks) && a in t && b in t && p < q < |doc.local|
    requires forall j :: 0 <= j <= p ==> doc.local[j].hostUri != doc.local[q].hostUri
    requires LocalMatch(t[a], doc.local[p]) && t[a].name == Some(doc.local[q].name)
    requires LocalMatch(t[b], doc.local[q]) && t[b].name == Some(doc.local[p].name)
    ensures !NamesFree(t, doc, picks, |doc.local|)
  {
    assert SelectsAt(t, doc.local[p], picks[p]);
    assert LocalNamed(t[b], doc.local[p].name) && LastPick(t[b], b, doc, picks, p).None?;
    assert !NameFree(t, doc, picks, p);
  }

  // ---------- which local rows end as declared ----------

  /** At most one declaration is about the row's host. */
  ghost predicate NamedOnce(r: Resource, doc: Doc) {
    forall i, j :: 0 <= i < j < |doc.local| ==> !(LocalMatch(r, doc.local[i]) && LocalMatch(r, doc.local[j]))
  }

  /** Every declaration about the row's host picks this row, and there is at most one. */
  ghost predicate Settles(r: Resource, id: Id, doc: Doc, picks: seq<Id>)
    requires |picks| == |doc.local|
  {
    NamedOnce(r, doc) && forall j :: 0 <= j < |doc.local| && LocalMatch(r, doc.local[j]) ==> picks[j] == id
  }

  ghost predicate RowHeld(r: Resource, doc: Doc) {
    forall i :: i in doc.local && LocalMatch(r, i) ==> Overlaid(r, i) == r
  }

  /** The rows that agree with all declarations of their host are exactly the ones that settle. */
  ghost predicate HeldExactly(t: Table, doc: Doc, picks: seq<Id>)
    requires |picks| == |doc.local|
  {
    forall k :: k in t ==> (RowHeld(t[k], doc) <==> Settles(t[k], k, doc, picks))
  }

  lemma AllHeldRows(t: Table, doc: Doc)
    ensures AllHeld(t, doc) <==> forall k :: k in t ==> RowHeld(t[k], doc)
  {
    hide Overlaid, LocalMatch;
  }

  lemma SettlesIsHeld(r0: Resource, r: Resource, id: Id, doc: Doc, picks: seq<Id>)
    requires |picks| == |doc.local| && OverlaidRow(r0, r, id, doc, picks, |doc.local|) && Settles(r, id, doc, picks)
    ensures RowHeld(r, doc)
  {
    OverlaidSame(r0, r, id, doc, picks, |doc.local|);
    forall i | i in doc.local && LocalMatch(r, i) ensures Overlaid(r, i) == r {
      var j: nat :| j < |doc.local| && doc.local[j] == i;
      assert Picked(r0, id, doc, picks, j);
      var last := LastPick(r0, id, doc, picks, |doc.local|);
      assert last == Some(j);
    }
  }

  /** A held row bears the name of every declaration of its host, so there is at most one. */
  lemma HeldIsNamedOnce(r: Resource, doc: Doc)
    requires ValidDoc(doc) && RowHeld(r, doc)
    ensures NamedOnce(r, doc)
    ensures forall j :: 0 <= j < |doc.local| && LocalMatch(r, doc.local[j]) ==> r.name == Some(doc.local[j].name)
  {
    forall j | 0 <= j < |doc.local| && LocalMatch(r, doc.local[j]) ensures r.name == Some(doc.local[j].name) {
      assert doc.local[j] in doc.local;
      assert Overlaid(r, doc.local[j]).name == Some(doc.local[j].name);
    }
  }

  /** If the pick of a declaration is another row of the host, the name is that row's. */
  lemma HeldSettles(t0: Table, t: Table, doc: Doc, picks: seq<Id>, k: Id)
    requires ValidDoc(doc) && Selects(t, doc, picks) && UniqueNames(t) && Overlaying(t0, t, doc, picks, |doc.local|)
    requires k in t && RowHeld(t[k], doc)
    ensures Settles(t[k], k, doc, picks)
  {
    HeldIsNamedOnce(t[k], doc);
    forall j | 0 <= j < |doc.local| && LocalMatch(t[k], doc.local[j]) ensures picks[j] == k {
      assert SelectsAt(t, doc.local[j], picks[j]);
      var m := picks[j];
      assert OverlaidRow(t0[m], t[m], m, doc, picks, |doc.local|);
      OverlaidSame(t0[m], t[m], m, doc, picks, |doc.local|);
      assert Picked(t0[m], m, doc, picks, j);
      var last := LastPick(t0[m], m, doc, picks, |doc.local|).value;
      assert LocalMatch(t[k], doc.local[last]) && last == j;
      assert Overlaid(t[m], doc.local[j]).name == Some(doc.local[j].name);
    }
  }

  lemma OverlaidHeldExactly(t0: Table, t: Table, doc: Doc, picks: seq<Id>)
    requires ValidDoc(doc) && Selects(t, doc, picks) && UniqueNames(t) && Overlaying(t0, t, doc, picks, |doc.local|)
    ensures HeldExactly(t, doc, picks)
  {
    hide OverlaidRow, RowHeld, Settles, UniqueNames, ValidDoc;
    forall k | k in t ensures RowHeld(t[k], doc) <==> Settles(t[k], k, doc, picks) {
      if RowHeld(t[k], doc) {
        HeldSettles(t0, t, doc, picks, k);
      }
      if Settles(t[k], k, doc, picks) {
        SettlesIsHeld(t0[k], t[k], k, doc, picks);
      }
    }
  }

  // ---------- only local rows matter ----------

  /** The local rows are the same, which is all that decides. */
  ghost predicate SameLocals(t: Table, t': Table) {
    && (forall id :: id in t && t[id].kind == LocalLibvirt ==> id in t' && t'[id] == t[id])
    && (forall id :: id in t' && t'[id].kind == LocalLibvirt ==> id in t && t[id] == t'[id])
  }

  lemma SameFound(t: Table, t': Table, i: LocalInst, pick: Id)
    requires SameLocals(t, t')
    ensures (Found(t, i, pick) <==> Found(t', i, pick)) && (SelectsAt(t, i, pick) <==> SelectsAt(t', i, pick))
  {
    assert forall k :: k in t && LocalMatch(t[k], i) ==> k in t' && LocalMatch(t'[k], i);
    assert forall k :: k in t' && LocalMatch(t'[k], i) ==> k in t && LocalMatch(t[k], i);
  }

  lemma LocalsDecide(t: Table, t': Table, doc: Doc, picks: seq<Id>)
    requires SameLocals(t, t') && |picks| == |doc.local|
    ensures Selects(t, doc, picks) <==> Selects(t', doc, picks)
    ensures NamesFree(t, doc, picks, |doc.local|) <==> NamesFree(t', doc, picks, |doc.local|)
  {
    hide SelectsAt, Found, LastPick;
    forall n | 0 <= n < |doc.local|
      ensures NameFree(t, doc, picks, n) <==> NameFree(t', doc, picks, n)
      ensures SelectsAt(t, doc.local[n], picks[n]) <==> SelectsAt(t', doc.local[n], picks[n])
    {
      SameFound(t, t', doc.local[n], picks[n]);
      assert forall o :: o in t && LocalNamed(t[o], doc.local[n].name) ==> o in t' && t'[o] == t[o];
      assert forall o :: o in t' && LocalNamed(t'[o], doc.local[n].name) ==> o in t && t'[o] == t[o];
    }
  }

  lemma UpsertKeepsLocalRows(t0: Table, t: Table, t': Table, d: Decl, id: Id)
    requires SameLocals(t0, t) && UpsertStep(t, t', d, id) && d.kind != LocalLibvirt
    ensures SameLocals(t0, t')
  {
  }

  // ---------- two rows of one host ----------

  /** Some SELECT could return a given row of a declared host. */
  ghost function SomePick(t: Table, i: LocalInst): Id {
    if exists k :: k in t && LocalMatch(t[k], i) then var k :| k in t && LocalMatch(t[k], i); k else 0
  }

  lemma SelectsRow(t: Table, doc: Doc, n: nat, k: Id) returns (picks: seq<Id>)
    requires n < |doc.local| && k in t && LocalMatch(t[k], doc.local[n])
    ensures Selects(t, doc, picks) && picks[n] == k
  {
    picks := seq(|doc.local|, m requires 0 <= m < |doc.local| => if m == n then k else SomePick(t, doc.local[m]));
  }

  lemma SelectsSome(t: Table, doc: Doc) returns (picks: seq<Id>)
    ensures Selects(t, doc, picks)
  {
    picks := seq(|doc.local|, m requires 0 <= m < |doc.local| => SomePick(t, doc.local[m]));
  }

  /** Once a row bears its declared name, a SELECT that returns another row of the host is refused. */
  lemma SecondRowRefused(t: Table, doc: Doc, picks: seq<Id>, n: nat, k: Id)
    requires Selects(t, doc, picks) && n < |doc.local| && k in t && k != picks[n]
    requires LocalMatch(t[k], doc.local[n]) && t[k].name == Some(doc.local[n].name)
    requires forall j :: 0 <= j < n ==> doc.local[j].hostUri != doc.local[n].hostUri
    ensures !NamesFree(t, doc, picks, |doc.local|)
  {
    assert SelectsAt(t, doc.local[n], picks[n]);
    assert LocalNamed(t[k], doc.local[n].name) && LastPick(t[k], k, doc, picks, n).None?;
    assert !NameFree(t, doc, picks, n);
  }

  // ---------- naming what discovery found ----------

  function GivenName(r: Resource): Resource {
    r.(name := Some(DeterministicName(r.hostUri)))
  }

  /** Every row that is due a name has it, save those in `rest`. */
  ghost function NamedExcept(t: Table, doc: Doc, rest: set<Id>): Table {
    map id | id in t :: if id !in rest && Unnamed(t[id], doc) then GivenName(t[id]) else t[id]
  }

  lemma NamedMore(t: Table, doc: Doc, rest: set<Id>, id: Id)
    requires id in rest && id in t
    ensures NamedExcept(t, doc, rest)[id] == t[id]
    ensures NamedExcept(t, doc, rest - {id}) ==
              if Unnamed(t[id], doc) then NamedExcept(t, doc, rest)[id := GivenName(t[id])] else NamedExcept(t, doc, rest)
  {
  }

  lemma NoneNamed(t: Table, doc: Doc, rest: set<Id>)
    requires forall id :: id in t && Unnamed(t[id], doc) ==> id in rest
    ensures NamedExcept(t, doc, rest) == t
  {
  }

  /** A clash among the rows named so far is a clash in the end. */
  lemma ClashStays(t: Table, doc: Doc, rest: set<Id>)
    ensures UniqueNames(NamedExcept(t, doc, {})) ==> UniqueNames(NamedExcept(t, doc, rest))
  {
    var some, all := NamedExcept(t, doc, rest), NamedExcept(t, doc, {});
    assert forall id :: id in t && some[id].name.Some? ==> all[id].name == some[id].name && all[id].kind == some[id].kind;
  }
}

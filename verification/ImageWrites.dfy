/** The value side of an image pass: which rows it loads, what it writes, and when the table constraints let it. */
module ImageWrites {
  import opened Prelude
  import opened ImageModel

  // ---------- loading ----------

  /** `order` is how the database lists the config rows. */
  ghost predicate Lists(t: Table, order: seq<Id>) {
    && (forall id :: id in order <==> id in t && t[id].managedBy == ByConfig)
    && (forall i, j :: 0 <= i < j < |order| ==> order[i] != order[j])
  }

  /** Config rows keyed by identity; of several rows under one identity the last one listed stays. */
  function LoadedFrom(t: Table, order: seq<Id>): map<Identity, Id>
    requires forall id :: id in order ==> id in t
  {
    if order == [] then map[]
    else var id := order[|order| - 1]; LoadedFrom(t, order[..|order| - 1])[t[id].identity := id]
  }

  /** The identities loaded at the start of the pass, each with one of its config rows. */
  ghost predicate Loaded(t: Table, existing: map<Identity, Id>) {
    && (forall i :: i in existing ==> existing[i] in t && ConfigRow(t[existing[i]], i))
    && (forall id :: id in t && t[id].managedBy == ByConfig ==> t[id].identity in existing)
  }

  lemma {:induction false} LoadsListed(t: Table, order: seq<Id>)
    requires forall id :: id in order ==> id in t && t[id].managedBy == ByConfig
    ensures var existing := LoadedFrom(t, order);
      && (forall i :: i in existing ==> existing[i] in t && ConfigRow(t[existing[i]], i))
      && (forall id :: id in order ==> t[id].identity in existing)
    decreases |order|
  {
    if order != [] {
      var front, last := order[..|order| - 1], order[|order| - 1];
      LoadsListed(t, front);
      assert forall id :: id in order ==> id in front || id == last;
    }
  }

  lemma LoadedFromLoads(t: Table, order: seq<Id>)
    requires Lists(t, order)
    ensures Loaded(t, LoadedFrom(t, order))
  {
    LoadsListed(t, order);
  }

  predicate Loads(existing: map<Identity, Id>, id: Id, identity: Identity) {
    identity in existing && existing[identity] == id
  }

  // ---------- writing ----------

  /** The row of `id` is brought to the declared state; a new row is inserted when `id` is not in the table. */
  ghost predicate EntryStep(t: Table, t': Table, e: Entry, store: Store, id: Id) {
    && TableOk(t')
    && if id in t then ConfigRow(t[id], e.identity) && t' == t[id := Updated(e, t[id], store)]
       else t' == t[id := Inserted(e, store)]
  }

  /** What becomes of a row once the first `n` images are written: a loaded one is updated, any other stays. */
  ghost predicate Becomes(t0: Table, existing: map<Identity, Id>, id: Id, r: Row, images: seq<Entry>, store: Store,
                          n: nat)
    requires n <= |images| && id in t0
  {
    && (forall j :: 0 <= j < n && Loads(existing, id, images[j].identity) ==> r == Updated(images[j], t0[id], store))
    && ((forall j :: 0 <= j < n ==> !Loads(existing, id, images[j].identity)) ==> r == t0[id])
  }

  ghost predicate Inserts(t0: Table, t: Table, id: Id, existing: map<Identity, Id>, images: seq<Entry>, store: Store,
                          j: nat)
    requires j < |images|
  {
    id in t && id !in t0 && images[j].identity !in existing && t[id] == Inserted(images[j], store)
  }

  ghost predicate OldRowsWritten(t0: Table, t: Table, existing: map<Identity, Id>, images: seq<Entry>, store: Store,
                                 n: nat)
    requires n <= |images|
  {
    forall id :: id in t0 ==> id in t && Becomes(t0, existing, id, t[id], images, store, n)
  }

  ghost predicate NewRowsWritten(t0: Table, t: Table, existing: map<Identity, Id>, images: seq<Entry>, store: Store,
                                 n: nat)
    requires n <= |images|
  {
    && (forall id :: id in t && id !in t0 ==> exists j: nat :: j < n && Inserts(t0, t, id, existing, images, store, j))
    && (forall j: nat :: j < n && images[j].identity !in existing ==>
          exists id :: Inserts(t0, t, id, existing, images, store, j))
  }

  /** No two new rows share an identity. */
  ghost predicate NewRowsDistinct(t0: Table, t: Table) {
    forall a, b :: a in t && b in t && a !in t0 && b !in t0 && t[a].identity == t[b].identity ==> a == b
  }

  /** `t` is `t0` with exactly the first `n` images written. */
  ghost predicate Written(t0: Table, t: Table, existing: map<Identity, Id>, images: seq<Entry>, store: Store, n: nat)
    requires n <= |images|
  {
    && OldRowsWritten(t0, t, existing, images, store, n)
    && NewRowsWritten(t0, t, existing, images, store, n)
    && NewRowsDistinct(t0, t)
  }

  lemma NothingWritten(t: Table, existing: map<Identity, Id>, images: seq<Entry>, store: Store)
    ensures Written(t, t, existing, images, store, 0)
  {
  }

  /** The loaded row of the next image has not been written yet. */
  lemma NextUntouched(t0: Table, t: Table, existing: map<Identity, Id>, images: seq<Entry>, store: Store, n: nat)
    requires n < |images| && DistinctEntries(images) && Loaded(t0, existing)
    requires Written(t0, t, existing, images, store, n)
    requires images[n].identity in existing
    ensures var id := existing[images[n].identity]; id in t && id in t0 && t[id] == t0[id]
  {
    var id := existing[images[n].identity];
    assert Becomes(t0, existing, id, t[id], images, store, n);
    assert forall j :: 0 <= j < n ==> !Loads(existing, id, images[j].identity);
  }

  /** Whether a row is reached by the first `n + 1` images. */
  lemma BecomesNext(t0: Table, existing: map<Identity, Id>, id: Id, r: Row, r': Row, images: seq<Entry>, store: Store,
                    n: nat)
    requires n < |images| && DistinctEntries(images) && Loaded(t0, existing) && id in t0
    requires Becomes(t0, existing, id, r, images, store, n)
    requires r' == if Loads(existing, id, images[n].identity) then Updated(images[n], t0[id], store) else r
    ensures Becomes(t0, existing, id, r', images, store, n + 1)
  {
    hide Updated;
    if Loads(existing, id, images[n].identity) {
      assert forall j :: 0 <= j < n ==> !Loads(existing, id, images[j].identity);
    }
  }

  predicate SameElsewhere(t: Table, t': Table, id: Id) {
    && (forall k :: k in t && k != id ==> k in t' && t'[k] == t[k])
    && (forall k :: k in t' && k != id ==> k in t)
  }

  lemma OldRowsStay(t0: Table, t: Table, existing: map<Identity, Id>, images: seq<Entry>, store: Store, n: nat)
    requires n <= |images| && Written(t0, t, existing, images, store, n)
    ensures t0.Keys <= t.Keys
  {
  }

  /** Inserted rows stay as long as nothing but old rows and one new row is written. */
  lemma NewRowsStay(t0: Table, t: Table, t': Table, existing: map<Identity, Id>, images: seq<Entry>, store: Store,
                    n: nat, id: Id)
    requires n < |images| && NewRowsWritten(t0, t, existing, images, store, n)
    requires SameElsewhere(t, t', id) && id in t' && (id in t <==> id in t0)
    requires id !in t0 ==> Inserts(t0, t', id, existing, images, store, n)
    requires id in t0 ==> images[n].identity in existing
    ensures NewRowsWritten(t0, t', existing, images, store, n + 1)
  {
    hide Inserts, Inserted, Updated;
    forall k | k in t' && k !in t0
      ensures exists j: nat :: j < n + 1 && Inserts(t0, t', k, existing, images, store, j)
    {
      if k != id {
        var j: nat :| j < n && Inserts(t0, t, k, existing, images, store, j);
        InsertStays(t0, t, t', k, existing, images, store, j);
      }
    }
    forall j: nat | j < n + 1 && images[j].identity !in existing
      ensures exists k :: Inserts(t0, t', k, existing, images, store, j)
    {
      if j < n {
        var k :| Inserts(t0, t, k, existing, images, store, j);
        InsertIsNew(t0, t, k, existing, images, store, j);
        assert id in t ==> k != id;
        InsertStays(t0, t, t', k, existing, images, store, j);
      } else {
        assert j == n;
      }
    }
  }

  lemma InsertIsNew(t0: Table, t: Table, id: Id, existing: map<Identity, Id>, images: seq<Entry>, store: Store, j: nat)
    requires j < |images| && Inserts(t0, t, id, existing, images, store, j)
    ensures id in t && id !in t0
  {
  }

  lemma InsertStays(t0: Table, t: Table, t': Table, id: Id, existing: map<Identity, Id>, images: seq<Entry>,
                    store: Store, j: nat)
    requires j < |images| && Inserts(t0, t, id, existing, images, store, j) && id in t && id in t' && t'[id] == t[id]
    ensures Inserts(t0, t', id, existing, images, store, j)
  {
  }

  lemma OldRowsNext(t0: Table, t: Table, t': Table, existing: map<Identity, Id>, images: seq<Entry>, store: Store,
                    n: nat)
    requires n < |images| && DistinctEntries(images) && Loaded(t0, existing)
    requires OldRowsWritten(t0, t, existing, images, store, n)
    requires forall k :: k in t0 ==>
      k in t' && t'[k] == if Loads(existing, k, images[n].identity) then Updated(images[n], t0[k], store) else t[k]
    ensures OldRowsWritten(t0, t', existing, images, store, n + 1)
  {
    hide Updated, Becomes, DistinctEntries, Loaded;
    forall k | k in t0 ensures k in t' && Becomes(t0, existing, k, t'[k], images, store, n + 1) {
      BecomesNext(t0, existing, k, t[k], t'[k], images, store, n);
    }
  }

  lemma UpdateWritten(t0: Table, t: Table, t': Table, existing: map<Identity, Id>, images: seq<Entry>, store: Store,
                      n: nat)
    requires n < |images| && DistinctEntries(images) && Loaded(t0, existing)
    requires Written(t0, t, existing, images, store, n)
    requires images[n].identity in existing && existing[images[n].identity] in t
    requires var id := existing[images[n].identity]; t' == t[id := Updated(images[n], t[id], store)]
    ensures Written(t0, t', existing, images, store, n + 1)
  {
    hide Updated, OldRowsWritten, NewRowsWritten, DistinctEntries, Loaded;
    NextUntouched(t0, t, existing, images, store, n);
    OldRowsStay(t0, t, existing, images, store, n);
    var id := existing[images[n].identity];
    OldRowsNext(t0, t, t', existing, images, store, n);
    NewRowsStay(t0, t, t', existing, images, store, n, id);
  }

  lemma InsertWritten(t0: Table, t: Table, t': Table, existing: map<Identity, Id>, images: seq<Entry>, store: Store,
                      n: nat, id: Id)
    requires n < |images| && DistinctEntries(images) && Loaded(t0, existing)
    requires Written(t0, t, existing, images, store, n)
    requires images[n].identity !in existing && id !in t && t' == t[id := Inserted(images[n], store)]
    ensures Written(t0, t', existing, images, store, n + 1)
  {
    hide Inserted, Updated, OldRowsWritten, NewRowsWritten, DistinctEntries, Loaded;
    OldRowsStay(t0, t, existing, images, store, n);
    OldRowsNext(t0, t, t', existing, images, store, n);
    NewRowsStay(t0, t, t', existing, images, store, n, id);
    InsertIsDistinct(t0, t, existing, images, store, n, id);
  }

  lemma InsertIsDistinct(t0: Table, t: Table, existing: map<Identity, Id>, images: seq<Entry>, store: Store, n: nat,
                         id: Id)
    requires n < |images| && DistinctEntries(images) && NewRowsWritten(t0, t, existing, images, store, n)
    requires NewRowsDistinct(t0, t)
    requires id !in t
    ensures NewRowsDistinct(t0, t[id := Inserted(images[n], store)])
  {
    hide Outcome;
    forall k | k in t && k !in t0 ensures t[k].identity != images[n].identity {
      var j: nat :| j < n && Inserts(t0, t, k, existing, images, store, j);
    }
  }

  // ---------- when the table constraints accept a document ----------

  /** The row image `e` asks for. */
  function Wanted(t0: Table, existing: map<Identity, Id>, e: Entry, store: Store): Row
    requires e.identity in existing ==> existing[e.identity] in t0
  {
    if e.identity in existing then Updated(e, t0[existing[e.identity]], store) else Inserted(e, store)
  }

  /** A row other than image `n`'s own that is in the table when image `n` is written. */
  ghost predicate Standing(t0: Table, existing: map<Identity, Id>, images: seq<Entry>, store: Store, n: nat, r: Row)
    requires n < |images|
  {
    || (exists id :: id in t0 && !Loads(existing, id, images[n].identity) && Becomes(t0, existing, id, r, images, store, n))
    || (exists j: nat :: j < n && images[j].identity !in existing && r == Inserted(images[j], store))
  }

  /** The row wanted for image `n` passes the row checks and collides with no standing row. */
  ghost predicate Accepts(t0: Table, existing: map<Identity, Id>, images: seq<Entry>, store: Store, n: nat)
    requires n < |images| && Loaded(t0, existing)
  {
    var w := Wanted(t0, existing, images[n], store);
    RowChecks(w) && forall r :: Standing(t0, existing, images, store, n, r) ==> !Collide(w, r)
  }

  ghost predicate AcceptsBelow(t0: Table, existing: map<Identity, Id>, images: seq<Entry>, store: Store, n: nat)
    requires n <= |images| && Loaded(t0, existing)
  {
    forall m :: 0 <= m < n ==> Accepts(t0, existing, images, store, m)
  }

  lemma BecomesOne(t0: Table, existing: map<Identity, Id>, id: Id, r: Row, r': Row, images: seq<Entry>, store: Store,
                   n: nat)
    requires n <= |images| && id in t0
    requires Becomes(t0, existing, id, r, images, store, n) && Becomes(t0, existing, id, r', images, store, n)
    ensures r == r'
  {
    hide Updated;
    if j :| 0 <= j < n && Loads(existing, id, images[j].identity) {
      assert r == Updated(images[j], t0[id], store);
    }
  }

  /** The rows in the table when image `n` is written are the standing ones, and its own. */
  lemma StandingIsPresent(t0: Table, t: Table, existing: map<Identity, Id>, images: seq<Entry>, store: Store, n: nat,
                          r: Row)
    returns (o: Id)
    requires n < |images| && Written(t0, t, existing, images, store, n) && Standing(t0, existing, images, store, n, r)
    requires images[n].identity in existing ==> existing[images[n].identity] in t0
    ensures o in t && t[o] == r && !Loads(existing, o, images[n].identity)
  {
    hide Updated, Inserted;
    if id :| id in t0 && !Loads(existing, id, images[n].identity) && Becomes(t0, existing, id, r, images, store, n) {
      hide Becomes;
      BecomesOne(t0, existing, id, r, t[id], images, store, n);
      o := id;
    } else {
      hide Becomes;
      var j: nat :| j < n && images[j].identity !in existing && r == Inserted(images[j], store);
      o :| Inserts(t0, t, o, existing, images, store, j);
    }
  }

  lemma PresentIsStanding(t0: Table, t: Table, existing: map<Identity, Id>, images: seq<Entry>, store: Store, n: nat,
                          o: Id)
    requires n < |images| && Written(t0, t, existing, images, store, n) && o in t
    requires !Loads(existing, o, images[n].identity)
    ensures Standing(t0, existing, images, store, n, t[o])
  {
    hide Updated, Inserted, Becomes;
    if o !in t0 {
      var j: nat :| j < n && Inserts(t0, t, o, existing, images, store, j);
    }
  }

  /** Writing one row keeps the constraints exactly when the row passes its checks and collides with no other. */
  lemma WriteOk(t: Table, id: Id, w: Row)
    requires TableOk(t)
    ensures TableOk(t[id := w]) <==> RowChecks(w) && forall o :: o in t && o != id ==> !Collide(w, t[o])
  {
    hide RowChecks, Collide;
    var t' := t[id := w];
    if TableOk(t') {
      assert t'[id] == w;
      forall o | o in t && o != id ensures !Collide(w, t[o]) {
        assert !Collide(t'[id], t'[o]);
      }
    } else if RowChecks(w) {
      var a, b :| a in t' && b in t' && a != b && Collide(t'[a], t'[b]);
      CollideBothWays(t'[a], t'[b]);
    }
  }

  lemma CollideBothWays(a: Row, b: Row)
    ensures Collide(a, b) <==> Collide(b, a)
  {
  }

  /**
   * Whether the write of image `n` goes through is settled by the table the pass started from and the rows it loaded.
   */
  lemma AcceptedExactly(t0: Table, t: Table, existing: map<Identity, Id>, images: seq<Entry>, store: Store, n: nat,
                        id: Id)
    requires n < |images| && Loaded(t0, existing) && TableOk(t) && Written(t0, t, existing, images, store, n)
    requires if images[n].identity in existing then id == existing[images[n].identity] else id !in t
    ensures TableOk(t[id := Wanted(t0, existing, images[n], store)]) <==> Accepts(t0, existing, images, store, n)
  {
    hide RowChecks, Collide, TableOk, Written, Standing, Becomes, Updated, Inserted;
    var w := Wanted(t0, existing, images[n], store);
    WriteOk(t, id, w);
    forall o | o in t && o != id ensures Standing(t0, existing, images, store, n, t[o]) {
      PresentIsStanding(t0, t, existing, images, store, n, o);
    }
    if TableOk(t[id := w]) {
      forall r | Standing(t0, existing, images, store, n, r) ensures !Collide(w, r) {
        var o := StandingIsPresent(t0, t, existing, images, store, n, r);
        assert o != id;
      }
    }
  }

  /**
   * An image's row passes its checks exactly when it is to be private and its loaded row has an owner, or neither. The
   * insert leaves the owner null, so a private image without a row is never accepted.
   */
  lemma ChecksExactly(t0: Table, existing: map<Identity, Id>, e: Entry, store: Store)
    requires TableOk(t0) && Loaded(t0, existing)
    ensures RowChecks(Wanted(t0, existing, e, store)) <==>
              (e.visibility == Private <==> e.identity in existing && t0[existing[e.identity]].owner.Some?)
  {
    assert e.identity in existing ==> RowChecks(t0[existing[e.identity]]);
  }

  /** No standing row bears the identity of the image being written, if its only bearer is the loaded row. */
  lemma StandingElsewhere(t0: Table, existing: map<Identity, Id>, images: seq<Entry>, store: Store, n: nat, r: Row)
    requires n < |images| && DistinctEntries(images) && Loaded(t0, existing)
    requires Standing(t0, existing, images, store, n, r)
    requires forall id :: id in t0 && t0[id].identity == images[n].identity ==> Loads(existing, id, images[n].identity)
    ensures r.identity != images[n].identity
  {
    hide Outcome;
    if id :| id in t0 && !Loads(existing, id, images[n].identity) && Becomes(t0, existing, id, r, images, store, n) {
      assert r.identity == t0[id].identity;
    }
  }

  /**
   * A document of public images is always accepted when each declared identity has at most one row, an ownerless config
   * row.
   */
  lemma PublicAccepted(t0: Table, existing: map<Identity, Id>, images: seq<Entry>, store: Store)
    requires DistinctEntries(images) && TableOk(t0) && Loaded(t0, existing) && ConfigUnique(t0)
    requires forall e :: e in images ==> e.visibility == Public
    requires forall id :: id in t0 && t0[id].identity in DeclaredIdentities(images) ==>
               t0[id].managedBy == ByConfig && t0[id].owner == None
    ensures AcceptsBelow(t0, existing, images, store, |images|)
  {
    hide TableOk, RowChecks, Standing, DistinctEntries, Outcome;
    forall n | 0 <= n < |images| ensures Accepts(t0, existing, images, store, n) {
      assert images[n] in images && images[n].identity in DeclaredIdentities(images);
      ChecksExactly(t0, existing, images[n], store);
      forall r | Standing(t0, existing, images, store, n, r)
        ensures !Collide(Wanted(t0, existing, images[n], store), r)
      {
        StandingElsewhere(t0, existing, images, store, n, r);
      }
    }
  }

  // ---------- when a pass has nothing to do ----------

  /** The config row needs no write and no deletion: it is as declared, or departed and used by a live system. */
  ghost predicate RowIdle(r: Row, live: bool, images: seq<Entry>, store: Store) {
    && (forall e :: e in images && e.identity == r.identity ==> Updated(e, r, store) == r)
    && (r.identity in DeclaredIdentities(images) || live)
  }

  /** A pass that loads `existing` has nothing to do. */
  ghost predicate IdleFor(t: Table, existing: map<Identity, Id>, images: seq<Entry>, store: Store, live: set<Id>) {
    && (forall e :: e in images ==> e.identity in existing)
    && (forall i :: i in existing ==> existing[i] in t && RowIdle(t[existing[i]], existing[i] in live, images, store))
  }

  /** Every config row that is not loaded needs nothing. */
  ghost predicate SparesIdle(t: Table, existing: map<Identity, Id>, images: seq<Entry>, store: Store, live: set<Id>) {
    forall id :: id in t && t[id].managedBy == ByConfig && !Loads(existing, id, t[id].identity) ==>
      RowIdle(t[id], id in live, images, store)
  }

  /** Two config rows of one identity. */
  predicate Twinned(t: Table, a: Id, b: Id) {
    a in t && b in t && a != b && t[a].managedBy == ByConfig == t[b].managedBy && t[a].identity == t[b].identity
  }

  /** Every config row that shares its identity with another needs nothing. */
  ghost predicate DuplicatesIdle(t: Table, images: seq<Entry>, store: Store, live: set<Id>) {
    forall a, b :: Twinned(t, a, b) ==>
      RowIdle(t[a], a in live, images, store)
  }

  /** Convergence, row by row. */
  lemma ConvergedRows(t: Table, images: seq<Entry>, store: Store, live: set<Id>)
    ensures Converged(t, images, store, live) <==>
      && (forall e :: e in images ==> exists id :: id in t && ConfigRow(t[id], e.identity))
      && (forall id :: id in t && t[id].managedBy == ByConfig ==> RowIdle(t[id], id in live, images, store))
  {
    hide Updated;
    if Converged(t, images, store, live) {
      forall id | id in t && t[id].managedBy == ByConfig ensures RowIdle(t[id], id in live, images, store) {
        forall e | e in images && e.identity == t[id].identity ensures Updated(e, t[id], store) == t[id] {
          assert EntryHeld(t, e, store) && ConfigRow(t[id], e.identity);
        }
      }
    }
    if (forall e :: e in images ==> exists id :: id in t && ConfigRow(t[id], e.identity)) &&
       forall id :: id in t && t[id].managedBy == ByConfig ==> RowIdle(t[id], id in live, images, store) {
      forall e | e in images ensures EntryHeld(t, e, store) {
        forall id | id in t && ConfigRow(t[id], e.identity) ensures Updated(e, t[id], store) == t[id] {
          assert RowIdle(t[id], id in live, images, store);
        }
      }
    }
  }

  /** A listing of a finite set in which a chosen element comes last. */
  lemma {:induction false} ListingEndingIn(s: set<Id>, last: Id) returns (q: seq<Id>)
    requires last in s
    ensures |q| > 0 && q[|q| - 1] == last
    ensures (forall id :: id in q <==> id in s) && (forall i, j :: 0 <= i < j < |q| ==> q[i] != q[j])
    decreases s
  {
    if s == {last} {
      q := [last];
    } else {
      var other :| other in s && other != last;
      q := ListingEndingIn(s - {other}, last);
      assert other !in q;
      var longer := [other] + q;
      assert forall id :: id in longer <==> id == other || id in q;
      forall i, j | 0 <= i < j < |longer| ensures longer[i] != longer[j] {
        assert longer[j] == q[j - 1] && (i > 0 ==> longer[i] == q[i - 1]);
      }
      q := longer;
    }
  }

  /** Every config row is the one loaded in some listing. */
  lemma SomeListingLoads(t: Table, id: Id) returns (order: seq<Id>)
    requires id in t && t[id].managedBy == ByConfig
    ensures Lists(t, order) && Loads(LoadedFrom(t, order), id, t[id].identity)
  {
    var config := set k | k in t && t[k].managedBy == ByConfig;
    order := ListingEndingIn(config, id);
  }

  lemma SomeListing(t: Table) returns (order: seq<Id>)
    ensures Lists(t, order)
  {
    if id :| id in t && t[id].managedBy == ByConfig {
      order := SomeListingLoads(t, id);
    } else {
      order := [];
    }
  }

  ghost predicate IdleInEveryOrder(t: Table, images: seq<Entry>, store: Store, live: set<Id>) {
    forall order :: Lists(t, order) ==> IdleFor(t, LoadedFrom(t, order), images, store, live)
  }

  /** A pass is idle however the database lists the rows exactly when the table is converged. */
  lemma IdleInEveryOrderExactly(t: Table, images: seq<Entry>, store: Store, live: set<Id>)
    ensures IdleInEveryOrder(t, images, store, live) <==> Converged(t, images, store, live)
  {
    hide Updated, Converged, RowIdle, LoadedFrom;
    ConvergedRows(t, images, store, live);
    if IdleInEveryOrder(t, images, store, live) {
      var order := SomeListing(t);
      LoadedFromLoads(t, order);
      forall e | e in images ensures exists id :: id in t && ConfigRow(t[id], e.identity) {
        assert ConfigRow(t[LoadedFrom(t, order)[e.identity]], e.identity);
      }
      forall id | id in t && t[id].managedBy == ByConfig ensures RowIdle(t[id], id in live, images, store) {
        var mine := SomeListingLoads(t, id);
      }
    } else {
      var order :| Lists(t, order) && !IdleFor(t, LoadedFrom(t, order), images, store, live);
      LoadedFromLoads(t, order);
    }
  }

  /** After every listing the rows left unloaded need nothing exactly when rows that share an identity need nothing. */
  lemma SparesInEveryOrderExactly(t: Table, images: seq<Entry>, store: Store, live: set<Id>)
    ensures (forall order :: Lists(t, order) ==> SparesIdle(t, LoadedFrom(t, order), images, store, live)) <==>
              DuplicatesIdle(t, images, store, live)
  {
    hide Updated, RowIdle, LoadedFrom;
    if forall order :: Lists(t, order) ==> SparesIdle(t, LoadedFrom(t, order), images, store, live) {
      forall a, b | Twinned(t, a, b)
        ensures RowIdle(t[a], a in live, images, store)
      {
        var order := SomeListingLoads(t, b);
      }
    } else {
      var order :| Lists(t, order) && !SparesIdle(t, LoadedFrom(t, order), images, store, live);
      LoadedFromLoads(t, order);
      var existing := LoadedFrom(t, order);
      var a :| a in t && t[a].managedBy == ByConfig && !Loads(existing, a, t[a].identity)
        && !RowIdle(t[a], a in live, images, store);
      assert Twinned(t, a, existing[t[a].identity]);
    }
  }

  // ---------- what a whole pass leaves ----------

  /** The loaded identities that left the document and whose row no live system uses. */
  ghost function DoomedIds(existing: map<Identity, Id>, images: seq<Entry>, live: set<Id>): set<Identity> {
    set i | i in existing && i !in DeclaredIdentities(images) && existing[i] !in live
  }

  ghost function SparedIds(existing: map<Identity, Id>, images: seq<Entry>, live: set<Id>): set<Identity> {
    set i | i in existing && i !in DeclaredIdentities(images) && existing[i] in live
  }

  ghost function RowsOf(existing: map<Identity, Id>, ids: set<Identity>): set<Id> {
    set i | i in ids && i in existing :: existing[i]
  }

  ghost function Doomed(existing: map<Identity, Id>, images: seq<Entry>, live: set<Id>): set<Id> {
    RowsOf(existing, DoomedIds(existing, images, live))
  }

  /** A written row: as it was, or loaded and brought to its declaration. */
  lemma RowOutcome(t0: Table, t: Table, existing: map<Identity, Id>, images: seq<Entry>, store: Store, id: Id)
    requires DistinctEntries(images) && Loaded(t0, existing) && Written(t0, t, existing, images, store, |images|)
    requires id in t0
    ensures id in t
    ensures forall e :: e in images && Loads(existing, id, e.identity) ==> t[id] == Updated(e, t0[id], store)
    ensures (forall e :: e in images ==> !Loads(existing, id, e.identity)) ==> t[id] == t0[id]
  {
    hide Updated;
    assert Becomes(t0, existing, id, t[id], images, store, |images|);
    forall e | e in images && Loads(existing, id, e.identity) ensures t[id] == Updated(e, t0[id], store) {
      var j :| 0 <= j < |images| && images[j] == e;
    }
    if forall e :: e in images ==> !Loads(existing, id, e.identity) {
      assert forall j :: 0 <= j < |images| ==> images[j] in images;
    }
  }

  lemma NewRowOutcome(t0: Table, t: Table, existing: map<Identity, Id>, images: seq<Entry>, store: Store,
                      id: Id) returns (e: Entry)
    requires Written(t0, t, existing, images, store, |images|) && id in t && id !in t0
    ensures e in images && t[id] == Inserted(e, store) && e.identity !in existing
  {
    hide Becomes;
    var j: nat :| j < |images| && Inserts(t0, t, id, existing, images, store, j);
    e := images[j];
  }

  lemma KeptRow(t0: Table, t: Table, existing: map<Identity, Id>, images: seq<Entry>, store: Store, id: Id)
    requires DistinctEntries(images) && Loaded(t0, existing) && Written(t0, t, existing, images, store, |images|)
    requires id in t0
    ensures id in t && RowKept(t0[id], t[id], images, store)
  {
    RowOutcome(t0, t, existing, images, store, id);
    if e :| e in images && Loads(existing, id, e.identity) {
      if t0[id].state == Registered {
        NeverDowngraded(e, t0[id], store);
      }
    }
  }

  lemma PruneFrames(t0: Table, t: Table, existing: map<Identity, Id>, images: seq<Entry>, store: Store, live: set<Id>)
    requires DistinctEntries(images) && TableOk(t) && Loaded(t0, existing)
    requires Written(t0, t, existing, images, store, |images|)
    ensures var t' := t - Doomed(existing, images, live); TableOk(t') && Frame(t0, t', images, store, live)
  {
    hide RowKept, RowChecks, Collide, Updated, Inserted, Written;
    var t' := t - Doomed(existing, images, live);
    forall id | id in t0 ensures id in t && RowKept(t0[id], t[id], images, store) {
      KeptRow(t0, t, existing, images, store, id);
    }
    forall id | id in t' && id !in t0 ensures exists e :: e in images && t'[id] == Inserted(e, store) {
      var e := NewRowOutcome(t0, t, existing, images, store, id);
    }
  }

  lemma LoadedLasts(t0: Table, t: Table, existing: map<Identity, Id>, images: seq<Entry>, store: Store)
    requires DistinctEntries(images) && Loaded(t0, existing) && Written(t0, t, existing, images, store, |images|)
    ensures forall i :: i in existing ==> existing[i] in t && ConfigRow(t[existing[i]], i)
  {
    hide Written;
    forall i | i in existing ensures existing[i] in t && ConfigRow(t[existing[i]], i) {
      KeptRow(t0, t, existing, images, store, existing[i]);
    }
  }

  lemma UntouchedFrames(t: Table, images: seq<Entry>, store: Store, live: set<Id>)
    ensures Frame(t, t, images, store, live)
  {
  }

  /** A loaded or inserted row of a declared image is idle once it is written. */
  lemma WrittenIdle(e: Entry, row: Row, live: bool, images: seq<Entry>, store: Store)
    requires DistinctEntries(images) && e in images && row.identity == e.identity
    ensures RowIdle(Updated(e, row, store), live, images, store) && RowIdle(Inserted(e, store), live, images, store)
  {
    RealizeOnce(e, row, store);
    var i :| 0 <= i < |images| && images[i] == e;
    forall f | f in images && f.identity == e.identity ensures f == e {
      var j :| 0 <= j < |images| && images[j] == f;
    }
  }

  /** Every config row of the outcome is idle exactly when the rows this pass did not load were. */
  lemma OutcomeIdle(t0: Table, t: Table, existing: map<Identity, Id>, images: seq<Entry>, store: Store, live: set<Id>)
    requires DistinctEntries(images) && Loaded(t0, existing) && Written(t0, t, existing, images, store, |images|)
    ensures var t' := t - Doomed(existing, images, live);
      (forall id :: id in t' && t'[id].managedBy == ByConfig ==> RowIdle(t'[id], id in live, images, store)) <==>
      SparesIdle(t0, existing, images, store, live)
  {
    hide Written, RowIdle, Updated, Inserted;
    var t' := t - Doomed(existing, images, live);
    if forall id :: id in t' && t'[id].managedBy == ByConfig ==> RowIdle(t'[id], id in live, images, store) {
      forall id | id in t0 && t0[id].managedBy == ByConfig && !Loads(existing, id, t0[id].identity)
        ensures RowIdle(t0[id], id in live, images, store)
      {
        RowOutcome(t0, t, existing, images, store, id);
        assert t[id] == t0[id] && id in t';
      }
    }
    if SparesIdle(t0, existing, images, store, live) {
      forall id | id in t' && t'[id].managedBy == ByConfig ensures RowIdle(t'[id], id in live, images, store) {
        OutcomeRowIdle(t0, t, existing, images, store, live, id);
      }
    }
  }

  lemma OutcomeRowIdle(t0: Table, t: Table, existing: map<Identity, Id>, images: seq<Entry>, store: Store,
                       live: set<Id>, id: Id)
    requires DistinctEntries(images) && Loaded(t0, existing) && Written(t0, t, existing, images, store, |images|)
    requires SparesIdle(t0, existing, images, store, live)
    requires id in t && id !in Doomed(existing, images, live) && t[id].managedBy == ByConfig
    ensures RowIdle(t[id], id in live, images, store)
  {
    hide Written;
    if id !in t0 {
      var e := NewRowOutcome(t0, t, existing, images, store, id);
      WrittenIdle(e, t[id], id in live, images, store);
    } else {
      KeptRow(t0, t, existing, images, store, id);
      RowOutcome(t0, t, existing, images, store, id);
      var identity := t0[id].identity;
      if Loads(existing, id, identity) {
        if identity in DeclaredIdentities(images) {
          var e :| e in images && e.identity == identity;
          WrittenIdle(e, t0[id], id in live, images, store);
        } else {
          assert identity !in DoomedIds(existing, images, live);
          assert forall e :: e in images ==> e.identity in DeclaredIdentities(images);
        }
      }
    }
  }

  /** Every declared image has a config row in the outcome. */
  lemma OutcomePresent(t0: Table, t: Table, existing: map<Identity, Id>, images: seq<Entry>, store: Store,
                       live: set<Id>, e: Entry)
    requires DistinctEntries(images) && Loaded(t0, existing) && Written(t0, t, existing, images, store, |images|)
    requires e in images
    ensures var t' := t - Doomed(existing, images, live); exists id :: id in t' && ConfigRow(t'[id], e.identity)
  {
    var t' := t - Doomed(existing, images, live);
    assert e.identity in DeclaredIdentities(images);
    if e.identity in existing {
      LoadedLasts(t0, t, existing, images, store);
      var id := existing[e.identity];
      assert id in t' && ConfigRow(t'[id], e.identity);
    } else {
      var j: nat :| j < |images| && images[j] == e;
      var id :| Inserts(t0, t, id, existing, images, store, j);
      assert id !in Doomed(existing, images, live);
      assert id in t' && ConfigRow(t'[id], e.identity);
    }
  }

  /**
   * What a completed pass leaves. It is converged exactly when the config rows the pass did not load need nothing, and
   * it is the table the pass found exactly when the pass had nothing to do.
   */
  lemma PassOutcome(t0: Table, t: Table, existing: map<Identity, Id>, images: seq<Entry>, store: Store, live: set<Id>)
    requires DistinctEntries(images) && Loaded(t0, existing) && Written(t0, t, existing, images, store, |images|)
    ensures var t' := t - Doomed(existing, images, live);
      && (Converged(t', images, store, live) <==> SparesIdle(t0, existing, images, store, live))
      && (t' == t0 <==> IdleFor(t0, existing, images, store, live))
  {
    hide Written, RowIdle, Updated, Inserted, Converged, SparesIdle;
    var t' := t - Doomed(existing, images, live);
    OutcomeIdle(t0, t, existing, images, store, live);
    forall e | e in images ensures exists id :: id in t' && ConfigRow(t'[id], e.identity) {
      OutcomePresent(t0, t, existing, images, store, live, e);
    }
    ConvergedRows(t', images, store, live);
    UnchangedExactly(t0, t, existing, images, store, live);
  }

  // ---------- the outcome in the document's own words ----------

  ghost predicate Mentions(images: seq<Entry>, identity: Identity) {
    exists e :: e in images && e.identity == identity
  }

  /** The row of a declared image: the loaded one, or a new one when none was loaded, showing its entry. */
  ghost predicate ShownAt(t0: Table, t: Table, existing: map<Identity, Id>, e: Entry, store: Store, id: Id) {
    && id in t && (id in t0 <==> e.identity in existing) && (e.identity in existing ==> id == existing[e.identity])
    && Shows(e, if id in t0 then Some(t0[id]) else None, t[id], store)
  }

  /**
   * Every declared image is shown by its row. A departed row goes unless a live system uses it. Rows that were not
   * loaded stay as they are, and every new row is a declared image's.
   */
  ghost predicate DocumentShown(t0: Table, t: Table, existing: map<Identity, Id>, images: seq<Entry>, store: Store,
                                live: set<Id>) {
    && (forall e :: e in images ==> exists id :: ShownAt(t0, t, existing, e, store, id))
    && (forall i :: i in existing && !Mentions(images, i) ==>
          existing[i] in t0 && if existing[i] in live then existing[i] in t && t[existing[i]] == t0[existing[i]]
                               else existing[i] !in t)
    && (forall id :: id in t0 && !Loads(existing, id, t0[id].identity) ==> id in t && t[id] == t0[id])
    && (forall id :: id in t && id !in t0 ==> t[id].identity !in existing && Mentions(images, t[id].identity))
  }

  lemma LoadedShown(t0: Table, t: Table, existing: map<Identity, Id>, images: seq<Entry>, store: Store,
                    live: set<Id>, e: Entry)
    requires DistinctEntries(images) && Loaded(t0, existing) && Written(t0, t, existing, images, store, |images|)
    requires e in images && e.identity in existing
    ensures ShownAt(t0, t - Doomed(existing, images, live), existing, e, store, existing[e.identity])
  {
    hide Updated, Shows, Written;
    var id := existing[e.identity];
    assert e.identity in DeclaredIdentities(images);
    assert id !in Doomed(existing, images, live);
    RowOutcome(t0, t, existing, images, store, id);
    WriteShows(e, t0[id], store);
  }

  lemma InsertedShown(t0: Table, t: Table, existing: map<Identity, Id>, images: seq<Entry>, store: Store,
                      live: set<Id>, e: Entry) returns (id: Id)
    requires Loaded(t0, existing) && NewRowsWritten(t0, t, existing, images, store, |images|)
    requires e in images && e.identity !in existing
    ensures ShownAt(t0, t - Doomed(existing, images, live), existing, e, store, id)
  {
    hide Inserted, Shows, ShownAt, Doomed;
    var j: nat :| j < |images| && images[j] == e;
    hide NewRowsWritten;
    id := InsertOf(t0, t, existing, images, store, j);
    InsertShown(t0, t, existing, images, store, live, j, id);
  }

  lemma InsertOf(t0: Table, t: Table, existing: map<Identity, Id>, images: seq<Entry>, store: Store, j: nat)
    returns (id: Id)
    requires j < |images| && images[j].identity !in existing && NewRowsWritten(t0, t, existing, images, store, |images|)
    ensures Inserts(t0, t, id, existing, images, store, j)
  {
    hide Inserts;
    id :| Inserts(t0, t, id, existing, images, store, j);
  }

  lemma InsertShown(t0: Table, t: Table, existing: map<Identity, Id>, images: seq<Entry>, store: Store, live: set<Id>,
                    j: nat, id: Id)
    requires j < |images| && Loaded(t0, existing) && Inserts(t0, t, id, existing, images, store, j)
    ensures ShownAt(t0, t - Doomed(existing, images, live), existing, images[j], store, id)
  {
    hide Inserted, Shows;
    InsertShows(images[j], store);
    assert id !in Doomed(existing, images, live);
  }

  lemma ImageShown(t0: Table, t: Table, existing: map<Identity, Id>, images: seq<Entry>, store: Store, live: set<Id>,
                   e: Entry)
    requires DistinctEntries(images) && Loaded(t0, existing) && Written(t0, t, existing, images, store, |images|)
    requires e in images
    ensures exists id :: ShownAt(t0, t - Doomed(existing, images, live), existing, e, store, id)
  {
    hide ShownAt, OldRowsWritten, NewRowsWritten, NewRowsDistinct, DistinctEntries, Loaded, Doomed;
    if e.identity in existing {
      LoadedShown(t0, t, existing, images, store, live, e);
    } else {
      var id := InsertedShown(t0, t, existing, images, store, live, e);
    }
  }

  lemma InsertShows(e: Entry, store: Store)
    ensures Shows(e, None, Inserted(e, store), store)
  {
    WriteShows(e, Inserted(e, store), store);
  }

  /** Which rows a pass deletes, and which it leaves alone. */
  lemma UnwrittenRows(t0: Table, t: Table, existing: map<Identity, Id>, images: seq<Entry>, store: Store,
                      live: set<Id>, id: Id)
    requires DistinctEntries(images) && Loaded(t0, existing) && Written(t0, t, existing, images, store, |images|)
    requires id in t0
    ensures !Loads(existing, id, t0[id].identity) ==>
              id in t && t[id] == t0[id] && id !in Doomed(existing, images, live)
    ensures Loads(existing, id, t0[id].identity) && !Mentions(images, t0[id].identity) ==>
              id in t && t[id] == t0[id] && (id in Doomed(existing, images, live) <==> id !in live)
  {
    hide Written, Updated;
    RowOutcome(t0, t, existing, images, store, id);
    if Loads(existing, id, t0[id].identity) && !Mentions(images, t0[id].identity) {
      assert t0[id].identity in DoomedIds(existing, images, live) <==> id !in live;
    }
  }

  lemma PassShows(t0: Table, t: Table, existing: map<Identity, Id>, images: seq<Entry>, store: Store, live: set<Id>)
    requires DistinctEntries(images) && Loaded(t0, existing) && Written(t0, t, existing, images, store, |images|)
    ensures DocumentShown(t0, t - Doomed(existing, images, live), existing, images, store, live)
  {
    hide Written, Updated, Outcome, ShownAt, Doomed, DistinctEntries, Mentions;
    var t' := t - Doomed(existing, images, live);
    forall e | e in images ensures exists id :: ShownAt(t0, t', existing, e, store, id) {
      ImageShown(t0, t, existing, images, store, live, e);
    }
    forall id | id in t0 && !Loads(existing, id, t0[id].identity) ensures id in t' && t'[id] == t0[id] {
      UnwrittenRows(t0, t, existing, images, store, live, id);
    }
    forall i | i in existing && !Mentions(images, i)
      ensures if existing[i] in live then existing[i] in t' && t'[existing[i]] == t0[existing[i]]
              else existing[i] !in t'
    {
      UnwrittenRows(t0, t, existing, images, store, live, existing[i]);
    }
    forall id | id in t' && id !in t0 ensures t'[id].identity !in existing && Mentions(images, t'[id].identity) {
      NewRowMentioned(t0, t, existing, images, store, id);
    }
  }

  lemma NewRowMentioned(t0: Table, t: Table, existing: map<Identity, Id>, images: seq<Entry>, store: Store, id: Id)
    requires Written(t0, t, existing, images, store, |images|) && id in t && id !in t0
    ensures t[id].identity !in existing && Mentions(images, t[id].identity)
  {
    hide Written, Outcome;
    var e := NewRowOutcome(t0, t, existing, images, store, id);
  }

  lemma UnchangedExactly(t0: Table, t: Table, existing: map<Identity, Id>, images: seq<Entry>, store: Store,
                         live: set<Id>)
    requires DistinctEntries(images) && Loaded(t0, existing) && Written(t0, t, existing, images, store, |images|)
    ensures t - Doomed(existing, images, live) == t0 <==> IdleFor(t0, existing, images, store, live)
  {
    hide Written, Updated, Inserted;
    var t' := t - Doomed(existing, images, live);
    if t' == t0 {
      forall e | e in images ensures e.identity in existing {
        OutcomePresent(t0, t, existing, images, store, live, e);
      }
      forall i | i in existing
        ensures existing[i] in t0 && RowIdle(t0[existing[i]], existing[i] in live, images, store)
      {
        RowOutcome(t0, t, existing, images, store, existing[i]);
        assert existing[i] !in Doomed(existing, images, live);
      }
    }
    if IdleFor(t0, existing, images, store, live) {
      assert DoomedIds(existing, images, live) == {};
      forall id | id in t0 ensures id in t && t[id] == t0[id] {
        RowOutcome(t0, t, existing, images, store, id);
        if e :| e in images && Loads(existing, id, e.identity) {
          assert RowIdle(t0[id], id in live, images, store);
        }
      }
      forall id | id in t ensures id in t0 {
        if id !in t0 {
          var e := NewRowOutcome(t0, t, existing, images, store, id);
          assert false;
        }
      }
    }
  }

  /** A pass does not give an identity a second config row. */
  lemma OutcomeUnique(t0: Table, t: Table, existing: map<Identity, Id>, images: seq<Entry>, store: Store, gone: set<Id>)
    requires DistinctEntries(images) && Loaded(t0, existing) && Written(t0, t, existing, images, store, |images|)
    requires ConfigUnique(t0)
    ensures ConfigUnique(t - gone)
  {
    hide Updated, Outcome, RowKept, OldRowsWritten, NewRowsWritten;
    forall id | id in t
      ensures id in t0 ==> t[id].identity == t0[id].identity && t[id].managedBy == t0[id].managedBy
      ensures id !in t0 ==> t[id].identity !in existing
    {
      if id in t0 {
        KeptRow(t0, t, existing, images, store, id);
        KeptIdentity(t0[id], t[id], images, store);
      } else {
        var e := NewRowOutcome(t0, t, existing, images, store, id);
      }
    }
  }

  lemma KeptIdentity(r0: Row, r: Row, images: seq<Entry>, store: Store)
    requires RowKept(r0, r, images, store)
    ensures r.identity == r0.identity && r.managedBy == r0.managedBy
  {
  }

  const TwinIdentity: Identity := ("local-libvirt", "base", "x86_64")
  const TwinKept :=
    Row(TwinIdentity, "qcow2", "/dev/vda", Public, [], Some("k1"), None, Some("d1"), Registered, ByConfig, None, None)
  const TwinLeft := TwinKept.(objectKey := Some("k2"), digest := Some("d2"), state := Pending)
  const TwinEntry := Entry(TwinIdentity, "qcow2", "/dev/vda", Public, [], Build("base", []))
  const Twins: Table := map[0 := TwinKept, 1 := TwinLeft]

  lemma TwinLoads(first: Id, second: Id)
    requires {first, second} == {0, 1}
    ensures Lists(Twins, [first, second]) && LoadedFrom(Twins, [first, second]) == map[TwinIdentity := second]
  {
    assert [first, second][..1] == [first] && [first][..0] == [];
    assert first in {0, 1} && second in {0, 1} && first != second by {
      assert 0 in {first, second} && 1 in {first, second};
    }
    assert Twins[first].identity == Twins[second].identity == TwinIdentity;
    assert LoadedFrom(Twins, [first]) == map[TwinIdentity := first];
  }

  /**
   * No constraint forbids two config rows of one identity. With one registered and one pending, under a build source, a
   * pass that loads the registered row writes nothing, and one that loads the other does.
   */
  lemma DuplicateRowsDisagree(store: Store)
    ensures TableOk(Twins) && DistinctEntries([TwinEntry]) && Lists(Twins, [1, 0]) && Lists(Twins, [0, 1])
    ensures IdleFor(Twins, LoadedFrom(Twins, [1, 0]), [TwinEntry], store, {})
    ensures !IdleFor(Twins, LoadedFrom(Twins, [0, 1]), [TwinEntry], store, {})
    ensures !DuplicatesIdle(Twins, [TwinEntry], store, {})
  {
    hide RowIdle, LoadedFrom, Updated;
    TwinLoads(1, 0);
    TwinLoads(0, 1);
    TwinRows(store);
    assert Twins[0] == TwinKept && Twins[1] == TwinLeft && Twinned(Twins, 1, 0);
  }

  lemma TwinRows(store: Store)
    ensures RowIdle(TwinKept, false, [TwinEntry], store) && !RowIdle(TwinLeft, false, [TwinEntry], store)
  {
    assert TwinEntry in [TwinEntry] && TwinIdentity in DeclaredIdentities([TwinEntry]);
    assert Updated(TwinEntry, TwinKept, store) == TwinKept;
    assert Updated(TwinEntry, TwinLeft, store).state == Defined;
  }
}

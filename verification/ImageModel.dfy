/** Image catalog rows, the declared images, and how a declaration is realized. */
module ImageModel {
  import opened Prelude

  datatype ImageState = Defined | Pending | Registered
  datatype Visibility = Public | Private
  datatype ManagedBy = ByConfig | ByDiscovery | ByRuntime

  type Identity = (string, string, string)

  datatype Row = Row(
    identity: Identity, format: string, rootDevice: string, visibility: Visibility, capabilities: seq<string>,
    objectKey: Option<string>, volume: Option<string>, digest: Option<string>, state: ImageState,
    managedBy: ManagedBy, owner: Option<string>, expiresAt: Option<int>)

  type Id = nat
  type Table = map<Id, Row>

  datatype Source =
    | S3(objectKey: string, digest: Option<string>)
    | Build(base: string, components: seq<string>)
    | Staged(volume: string)

  datatype Entry = Entry(identity: Identity, format: string, rootDevice: string, visibility: Visibility,
                         capabilities: seq<string>, source: Source)

  /** Parsing rejects two images under one identity. */
  ghost predicate DistinctEntries(images: seq<Entry>) {
    forall i, j :: 0 <= i < j < |images| ==> images[i].identity != images[j].identity
  }

  function DeclaredIdentities(images: seq<Entry>): set<Identity> {
    set e | e in images :: e.identity
  }

  // ---------- the table constraints ----------

  /**
   * A defined row has no image; any other has exactly one of an object and a volume; private means owned and expiring.
   */
  predicate RowChecks(r: Row) {
    && (if r.state == Defined then r.objectKey == None && r.volume == None else r.objectKey.None? != r.volume.None?)
    && (r.visibility == Private <==> r.owner.Some?)
    && (r.visibility == Private <==> r.expiresAt.Some?)
  }

  /** The rows the unique indexes hold apart. */
  predicate Collide(a: Row, b: Row) {
    || (a.identity == b.identity && a.visibility == Public == b.visibility
        && a.state == b.state && a.state in {Defined, Registered})
    || (a.owner == b.owner && a.identity.0 == b.identity.0 && a.identity.1 == b.identity.1
        && a.visibility == Private == b.visibility && a.state == Registered == b.state)
  }

  predicate TableOk(t: Table) {
    && (forall id :: id in t ==> RowChecks(t[id]))
    && (forall a, b :: a in t && b in t && a != b ==> !Collide(t[a], t[b]))
  }

  ghost function PublicIds(t: Table, identity: Identity, state: ImageState): set<Id> {
    set id | id in t && t[id].visibility == Public && t[id].identity == identity && t[id].state == state
  }

  ghost function PrivateIds(t: Table, owner: Option<string>, provider: string, name: string): set<Id> {
    set id | id in t && t[id].visibility == Private && t[id].state == Registered && t[id].owner == owner
             && t[id].identity.0 == provider && t[id].identity.1 == name
  }

  /** The row checks: which columns a state and a visibility allow. */
  predicate ColumnsFit(r: Row) {
    && (r.state == Defined ==> r.objectKey.None? && r.volume.None?)
    && (r.state != Defined ==> (r.objectKey.Some? && r.volume.None?) || (r.objectKey.None? && r.volume.Some?))
    && (r.visibility == Private ==> r.owner.Some? && r.expiresAt.Some?)
    && (r.visibility == Public ==> r.owner.None? && r.expiresAt.None?)
  }

  /**
   * The constraints, counted: per identity at most one public registered and one public defined row, per owner,
   * provider and name at most one private registered row, and in every row the columns its state and visibility allow.
   */
  lemma ConstraintsExactly(t: Table)
    ensures TableOk(t) <==>
      && (forall id :: id in t ==> ColumnsFit(t[id]))
      && (forall i :: |PublicIds(t, i, Registered)| <= 1 && |PublicIds(t, i, Defined)| <= 1)
      && (forall o, p, n :: |PrivateIds(t, o, p, n)| <= 1)
  {
    forall id | id in t ensures RowChecks(t[id]) <==> ColumnsFit(t[id]) {
    }
    if TableOk(t) {
      hide ColumnsFit, RowChecks;
      forall i ensures |PublicIds(t, i, Registered)| <= 1 && |PublicIds(t, i, Defined)| <= 1 {
        AtMostOne(PublicIds(t, i, Registered));
        AtMostOne(PublicIds(t, i, Defined));
      }
      forall o, p, n ensures |PrivateIds(t, o, p, n)| <= 1 {
        AtMostOne(PrivateIds(t, o, p, n));
      }
    } else {
      hide ColumnsFit, RowChecks;
      if forall id :: id in t ==> RowChecks(t[id]) {
        var a, b :| a in t && b in t && a != b && Collide(t[a], t[b]);
        if t[a].visibility == Public {
          TwoAtLeast(PublicIds(t, t[a].identity, t[a].state), a, b);
        } else {
          TwoAtLeast(PrivateIds(t, t[a].owner, t[a].identity.0, t[a].identity.1), a, b);
        }
      }
    }
  }

  lemma AtMostOne(s: set<Id>)
    requires forall a, b :: a in s && b in s ==> a == b
    ensures |s| <= 1
  {
    if a :| a in s {
      assert s == {a};
    }
  }

  lemma TwoAtLeast(s: set<Id>, a: Id, b: Id)
    requires a in s && b in s && a != b
    ensures |s| >= 2
  {
    SubsetSize({a, b}, s);
  }

  // ---------- realization ----------

  datatype HeadAnswer = Present | Absent | Unreachable

  /** What the object store answers for each key during one pass. */
  type Store = string -> HeadAnswer

  datatype S3Head = NotS3 | NoDigest | Answered(answer: HeadAnswer)

  predicate Realized(row: Option<Row>) {
    row.Some? && row.value.state == Registered
  }

  /** A source that is not in the store, a realized row and a digest-less source are never asked about. */
  function ResolveS3Head(source: Source, row: Option<Row>, store: Store): S3Head {
    if !source.S3? || Realized(row) then NotS3
    else if source.digest == None then NoDigest
    else Answered(store(source.objectKey))
  }

  datatype Realization = Realization(state: ImageState, objectKey: Option<string>, volume: Option<string>,
                                     digest: Option<string>, warned: bool)

  function Realize(source: Source, row: Option<Row>, head: S3Head): Realization {
    match source
    case Staged(volume) => Realization(Registered, None, Some(volume), None, false)
    case Build(_, _) => if Realized(row) then AsIs(row.value) else Realization(Defined, None, None, None, true)
    case S3(objectKey, digest) =>
      if Realized(row) then AsIs(row.value)
      else if head in {NoDigest, Answered(Unreachable), Answered(Absent)} then Realization(Defined, None, None, None, true)
      else Realization(Registered, Some(objectKey), None, digest, false)
  }

  function AsIs(row: Row): Realization {
    Realization(Registered, row.objectKey, row.volume, row.digest, false)
  }

  function Outcome(e: Entry, row: Option<Row>, store: Store): Realization {
    Realize(e.source, row, ResolveS3Head(e.source, row, store))
  }

  function Inserted(e: Entry, store: Store): Row {
    var z := Outcome(e, None, store);
    Row(e.identity, e.format, e.rootDevice, e.visibility, e.capabilities,
        z.objectKey, z.volume, z.digest, z.state, ByConfig, None, None)
  }

  function Updated(e: Entry, row: Row, store: Store): Row {
    var z := Outcome(e, Some(row), store);
    row.(format := e.format, rootDevice := e.rootDevice, visibility := e.visibility, capabilities := e.capabilities,
         objectKey := z.objectKey, volume := z.volume, digest := z.digest, state := z.state)
  }

  /** Realizing again with the same answers changes nothing. */
  lemma RealizeOnce(e: Entry, row: Row, store: Store)
    ensures Updated(e, Updated(e, row, store), store) == Updated(e, row, store)
    ensures Updated(e, Inserted(e, store), store) == Inserted(e, store)
  {
  }

  /** A registered row stays registered under every source and every answer; build and s3 keep its image as well. */
  lemma NeverDowngraded(e: Entry, row: Row, store: Store)
    requires row.state == Registered
    ensures Updated(e, row, store).state == Registered
    ensures !e.source.Staged? ==>
              && Updated(e, row, store).objectKey == row.objectKey
              && Updated(e, row, store).volume == row.volume
              && Updated(e, row, store).digest == row.digest
  {
  }

  /** The image columns are what the declared source provides, with the store's confirmation when it is s3. */
  predicate RealizedFrom(r: Row, source: Source, store: Store) {
    match source
    case S3(objectKey, digest) =>
      digest.Some? && store(objectKey) == Present && r.objectKey == Some(objectKey) && r.digest == digest && r.volume == None
    case Staged(volume) => r.volume == Some(volume) && r.objectKey == None && r.digest == None
    case Build(_, _) => false
  }

  lemma NewlyRegistered(e: Entry, row: Row, store: Store)
    ensures Inserted(e, store).state == Registered ==> RealizedFrom(Inserted(e, store), e.source, store)
    ensures row.state != Registered && Updated(e, row, store).state == Registered ==>
      RealizedFrom(Updated(e, row, store), e.source, store)
  {
  }

  /** The source has an image to offer now: a staged volume, or an s3 object that has a digest and is in the store. */
  predicate Backed(source: Source, store: Store) {
    source.Staged? || (source.S3? && source.digest.Some? && store(source.objectKey) == Present)
  }

  predicate SameImage(r: Row, was: Row) {
    r.objectKey == was.objectKey && r.volume == was.volume && r.digest == was.digest
  }

  /**
   * What a write for `e` leaves of the row that was there, if any: the entry's columns; registered exactly when it was,
   * or the source is backed, and defined without an image otherwise; a staged or newly registered image is the
   * source's, any other registered image is the one that was there.
   */
  predicate Shows(e: Entry, was: Option<Row>, r: Row, store: Store) {
    && r.identity == e.identity && r.managedBy == ByConfig
    && r.format == e.format && r.rootDevice == e.rootDevice
    && r.visibility == e.visibility && r.capabilities == e.capabilities
    && r.owner == (if was.Some? then was.value.owner else None)
    && r.expiresAt == (if was.Some? then was.value.expiresAt else None)
    && (r.state == Registered <==> (was.Some? && was.value.state == Registered) || Backed(e.source, store))
    && (r.state != Registered ==> r.state == Defined && r.objectKey == None && r.volume == None && r.digest == None)
    && (r.state == Registered ==>
          if was.Some? && was.value.state == Registered && !e.source.Staged? then SameImage(r, was.value)
          else RealizedFrom(r, e.source, store))
  }

  /** Both writes show their entry, and warn exactly when they leave the row defined. */
  lemma WriteShows(e: Entry, row: Row, store: Store)
    requires ConfigRow(row, e.identity)
    ensures Shows(e, Some(row), Updated(e, row, store), store) && Shows(e, None, Inserted(e, store), store)
    ensures Outcome(e, Some(row), store).warned <==> Updated(e, row, store).state == Defined
    ensures Outcome(e, None, store).warned <==> Inserted(e, store).state == Defined
  {
  }

  /** What a write shows determines the row. */
  lemma ShowsDetermines(e: Entry, row: Row, r: Row, store: Store)
    requires ConfigRow(row, e.identity)
    ensures Shows(e, Some(row), r, store) <==> r == Updated(e, row, store)
    ensures Shows(e, None, r, store) <==> r == Inserted(e, store)
  {
    WriteShows(e, row, store);
  }

  // ---------- convergence and frame ----------

  predicate ConfigRow(r: Row, identity: Identity) {
    r.managedBy == ByConfig && r.identity == identity
  }

  ghost predicate ConfigUnique(t: Table) {
    forall a, b :: a in t && b in t && t[a].managedBy == ByConfig == t[b].managedBy && t[a].identity == t[b].identity ==> a == b
  }

  /** The declared image has a config row, and every config row of that identity is in the declared state. */
  ghost predicate EntryHeld(t: Table, e: Entry, store: Store) {
    && (exists id :: id in t && ConfigRow(t[id], e.identity))
    && (forall id :: id in t && ConfigRow(t[id], e.identity) ==> Updated(e, t[id], store) == t[id])
  }

  ghost predicate AllHeld(t: Table, images: seq<Entry>, store: Store) {
    forall e :: e in images ==> EntryHeld(t, e, store)
  }

  /** A config row whose image left the document stays only while a live system uses it. */
  ghost predicate AllSettled(t: Table, images: seq<Entry>, live: set<Id>) {
    forall id :: id in t && t[id].managedBy == ByConfig ==> t[id].identity in DeclaredIdentities(images) || id in live
  }

  ghost predicate Converged(t: Table, images: seq<Entry>, store: Store, live: set<Id>) {
    AllHeld(t, images, store) && AllSettled(t, images, live)
  }

  /** What a pass may do to a row that was there: nothing at all unless config owns it, and never unregister it. */
  ghost predicate RowKept(r0: Row, r: Row, images: seq<Entry>, store: Store) {
    && (r0.managedBy != ByConfig ==> r == r0)
    && r.identity == r0.identity && r.managedBy == r0.managedBy && r.owner == r0.owner
    && (r0.state == Registered ==> r.state == Registered)
    && (r != r0 ==> exists e :: e in images && e.identity == r0.identity && r == Updated(e, r0, store))
  }

  ghost predicate Frame(t0: Table, t: Table, images: seq<Entry>, store: Store, live: set<Id>) {
    && (forall id :: id in t0 && id in t ==> RowKept(t0[id], t[id], images, store))
    && (forall id :: id in t0 && id !in t ==>
          t0[id].managedBy == ByConfig && t0[id].identity !in DeclaredIdentities(images) && id !in live)
    && (forall id :: id in t && id !in t0 ==> exists e :: e in images && t[id] == Inserted(e, store))
  }

  /** Every row a pass newly registers has its declared source behind it: from s3, a confirmed object and its digest. */
  lemma NewRegistrationsBacked(t0: Table, t: Table, images: seq<Entry>, store: Store, live: set<Id>, id: Id)
    requires Frame(t0, t, images, store, live) && id in t && t[id].state == Registered
    requires id in t0 ==> t0[id].state != Registered
    ensures exists e :: e in images && e.identity == t[id].identity && RealizedFrom(t[id], e.source, store)
  {
    if id in t0 {
      assert RowKept(t0[id], t[id], images, store);
      var e :| e in images && e.identity == t0[id].identity && t[id] == Updated(e, t0[id], store);
      NewlyRegistered(e, t0[id], store);
    } else {
      var e :| e in images && t[id] == Inserted(e, store);
      NewlyRegistered(e, t[id], store);
    }
  }
}

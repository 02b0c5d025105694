/** Resource rows, the declared inventory, and what one statement of the resource reconcile does to the table. */
module ResourceModel {
  import opened Prelude

  datatype Kind = LocalLibvirt | FaultInject | RemoteLibvirt
  datatype ManagedBy = ByConfig | ByDiscovery | ByRuntime

  /** A capability value: a number this reconcile may write, or something discovery wrote. */
  datatype Capability = Num(n: int) | Discovered(text: string)

  datatype Resource = Resource(
    kind: Kind, name: Option<string>, hostUri: string, costClass: string, caps: map<string, Capability>,
    managedBy: ManagedBy, leaseExpiresAt: Option<int>, ownerProject: Option<string>, allowlist: seq<string>,
    cordoned: bool, pool: string, status: string)

  type Id = nat
  type Table = map<Id, Resource>

  const CapKey := "concurrent_allocation_cap"
  const VcpusKey := "vcpus"
  const MemoryKey := "memory_mb"
  const FaultInjectHost := "fault-inject://local"

  datatype FaultInjectInst = FaultInjectInst(name: string, costClass: string, cap: int, vcpus: int, memoryMb: int)
  datatype RemoteInst = RemoteInst(name: string, costClass: string, cap: int, uri: string)
  datatype LocalInst = LocalInst(name: string, costClass: string, cap: int, hostUri: string)
  datatype Doc = Doc(faultInject: seq<FaultInjectInst>, remote: seq<RemoteInst>, local: seq<LocalInst>)

  /** A declaration of a kind this reconcile creates. `adopt` lets it take over an unnamed row of the same host. */
  datatype Decl = Decl(kind: Kind, name: string, hostUri: string, costClass: string, caps: map<string, Capability>, adopt: bool)

  function FaultDecl(i: FaultInjectInst): Decl {
    Decl(FaultInject, i.name, FaultInjectHost, i.costClass,
         map[VcpusKey := Num(i.vcpus), MemoryKey := Num(i.memoryMb), CapKey := Num(i.cap)], false)
  }

  function RemoteDecl(i: RemoteInst): Decl {
    Decl(RemoteLibvirt, i.name, i.uri, i.costClass, map[CapKey := Num(i.cap)], true)
  }

  function FaultDecls(doc: Doc): (r: seq<Decl>)
    ensures |r| == |doc.faultInject|
  {
    seq(|doc.faultInject|, i requires 0 <= i < |doc.faultInject| => FaultDecl(doc.faultInject[i]))
  }

  function RemoteDecls(doc: Doc): (r: seq<Decl>)
    ensures |r| == |doc.remote|
  {
    seq(|doc.remote|, i requires 0 <= i < |doc.remote| => RemoteDecl(doc.remote[i]))
  }

  /** The config-owned declarations in the order they are applied. */
  function ConfigDecls(doc: Doc): seq<Decl> {
    FaultDecls(doc) + RemoteDecls(doc)
  }

  ghost predicate Declares(doc: Doc, d: Decl) {
    d in ConfigDecls(doc)
  }

  /** Parsing rejects two instances of one kind under one name. */
  ghost predicate ValidDoc(doc: Doc) {
    && (forall i, j :: 0 <= i < j < |doc.faultInject| ==> doc.faultInject[i].name != doc.faultInject[j].name)
    && (forall i, j :: 0 <= i < j < |doc.remote| ==> doc.remote[i].name != doc.remote[j].name)
    && (forall i, j :: 0 <= i < j < |doc.local| ==> doc.local[i].name != doc.local[j].name)
  }

  function ConfiguredHosts(doc: Doc): set<string> {
    set i | i in doc.local :: i.hostUri
  }

  type Identity = (Kind, string)

  /** The identities whose config rows must stay. */
  function DeclaredIdentities(doc: Doc): set<Identity> {
    (set i | i in doc.faultInject :: (FaultInject, i.name)) + (set i | i in doc.remote :: (RemoteLibvirt, i.name))
  }

  lemma DeclaredIdentity(doc: Doc, d: Decl)
    requires Declares(doc, d)
    ensures (d.kind, d.name) in DeclaredIdentities(doc) && d.kind != LocalLibvirt
  {
    if d in FaultDecls(doc) {
      var i :| 0 <= i < |doc.faultInject| && FaultDecls(doc)[i] == d;
      assert doc.faultInject[i] in doc.faultInject;
    } else {
      var i :| 0 <= i < |doc.remote| && RemoteDecls(doc)[i] == d;
      assert doc.remote[i] in doc.remote;
    }
  }

  lemma DistinctIdentities(doc: Doc, i: nat, j: nat)
    requires ValidDoc(doc) && i < j < |ConfigDecls(doc)|
    ensures ConfigDecls(doc)[i].kind != ConfigDecls(doc)[j].kind || ConfigDecls(doc)[i].name != ConfigDecls(doc)[j].name
  {
  }

  /** How the text form of a name is compared with the declared names: a null name reads as "None". */
  function NameText(name: Option<string>): string {
    if name.Some? then name.value else "None"
  }

  predicate IdentityDeclared(r: Resource, doc: Doc) {
    (r.kind, NameText(r.name)) in DeclaredIdentities(doc)
  }

  /** The partial unique index on (kind, name). */
  predicate UniqueNames(t: Table) {
    forall a, b :: a in t && b in t && t[a].kind == t[b].kind && t[a].name.Some? && t[a].name == t[b].name ==> a == b
  }

  // ---------- upserting a declared resource ----------

  predicate NameMatch(r: Resource, d: Decl) {
    r.kind == d.kind && r.name == Some(d.name)
  }

  predicate HostMatch(r: Resource, d: Decl) {
    r.kind == d.kind && r.name == None && r.hostUri == d.hostUri
  }

  ghost predicate NoNameMatch(t: Table, d: Decl) {
    forall id :: id in t ==> !NameMatch(t[id], d)
  }

  function NewRow(d: Decl): Resource {
    Resource(d.kind, Some(d.name), d.hostUri, d.costClass, d.caps, ByConfig, None, None, [], false, "default", "available")
  }

  /** The overlay merges capabilities, takes ownership and sheds a runtime lease and affinity. */
  function Adopted(r: Resource, d: Decl): Resource {
    r.(name := Some(d.name), hostUri := d.hostUri, costClass := d.costClass, caps := r.caps + d.caps,
       managedBy := ByConfig, leaseExpiresAt := None, ownerProject := None, allowlist := [])
  }

  /** The row `id` is the one `d` finds, or a new one when `d` finds none; it is brought to the declared state. */
  ghost predicate UpsertStep(t: Table, t': Table, d: Decl, id: Id) {
    if id in t then
      && (NameMatch(t[id], d) || (d.adopt && HostMatch(t[id], d) && NoNameMatch(t, d)))
      && t' == t[id := Adopted(t[id], d)]
    else
      && NoNameMatch(t, d)
      && (d.adopt ==> forall k :: k in t ==> !HostMatch(t[k], d))
      && t' == t[id := NewRow(d)]
  }

  /** The declared identity has a config-owned row in the declared state; by uniqueness it is the only one. */
  ghost predicate Satisfied(t: Table, d: Decl) {
    exists id :: id in t && NameMatch(t[id], d) && Adopted(t[id], d) == t[id]
  }

  // ---------- overlaying a discovered local host ----------

  function Overlaid(r: Resource, i: LocalInst): Resource {
    r.(name := Some(i.name), costClass := i.costClass, caps := r.caps[CapKey := Num(i.cap)])
  }

  predicate LocalMatch(r: Resource, i: LocalInst) {
    r.kind == LocalLibvirt && r.hostUri == i.hostUri
  }

  ghost predicate OverlayHeld(t: Table, i: LocalInst) {
    forall id :: id in t && LocalMatch(t[id], i) ==> Overlaid(t[id], i) == t[id]
  }

  /** No row can hold two declarations of one local host that disagree: such a document never converges. */
  lemma ClashingLocalsNeverConverge(t: Table, i: LocalInst, j: LocalInst, id: Id)
    requires id in t && LocalMatch(t[id], i) && i.hostUri == j.hostUri
    ensures OverlayHeld(t, i) && OverlayHeld(t, j) ==> i == j
  {
    if OverlayHeld(t, i) && OverlayHeld(t, j) {
      assert Overlaid(t[id], i).caps[CapKey] == Overlaid(t[id], j).caps[CapKey];
    }
  }

  // ---------- naming what discovery found ----------

  predicate IsAlnum(c: char) {
    '0' <= c <= '9' || 'a' <= c <= 'z' || 'A' <= c <= 'Z'
  }

  function Dashed(s: string): (r: string)
    ensures |r| == |s|
  {
    seq(|s|, i requires 0 <= i < |s| => if IsAlnum(s[i]) then s[i] else '-')
  }

  function StripLeft(s: string): string {
    if s != "" && s[0] == '-' then StripLeft(s[1..]) else s
  }

  function StripRight(s: string): string {
    if s != "" && s[|s| - 1] == '-' then StripRight(s[..|s| - 1]) else s
  }

  function DeterministicName(hostUri: string): string {
    var cleaned := StripRight(StripLeft(Dashed(hostUri)));
    if cleaned == "" then "discovered-host" else "discovered-" + cleaned
  }

  lemma {:induction false} StripLeftDrops(s: string) returns (i: nat)
    ensures i <= |s| && StripLeft(s) == s[i..] && (i < |s| ==> s[i] != '-')
    ensures forall k :: 0 <= k < i ==> s[k] == '-'
  {
    i := 0;
    if s != "" && s[0] == '-' {
      var rest := StripLeftDrops(s[1..]);
      i := rest + 1;
      assert forall k :: 1 <= k < i ==> s[k] == s[1..][k - 1];
    }
  }

  lemma {:induction false} StripRightDrops(s: string)
    ensures StripRight(s) <= s
    ensures forall i :: |StripRight(s)| <= i < |s| ==> s[i] == '-'
    ensures StripRight(s) != "" ==> StripRight(s)[|StripRight(s)| - 1] != '-'
  {
    if s != "" && s[|s| - 1] == '-' {
      StripRightDrops(s[..|s| - 1]);
    }
  }

  /** Stripping keeps what lies between the first and the last character that is not a dash. */
  lemma StripsToSpan(s: string) returns (i: nat, j: nat)
    ensures i <= j <= |s| && StripRight(StripLeft(s)) == s[i..j]
    ensures forall k :: 0 <= k < |s| && !(i <= k < j) ==> s[k] == '-'
    ensures i < j ==> s[i] != '-' && s[j - 1] != '-'
  {
    hide StripLeft, StripRight;
    var left := StripLeft(s);
    i := StripLeftDrops(s);
    StripRightDrops(left);
    j := i + |StripRight(left)|;
    forall k | j <= k < |s| ensures s[k] == '-' {
      assert left[k - i] == '-';
    }
  }

  /**
   * A given name spells the host from its first letter or digit, at `i`, to its last, before `j`, with a dash for
   * every other character in between; a host with neither is called "discovered-host". Letters and digits are ASCII.
   */
  lemma NameSpellsHost(hostUri: string) returns (i: nat, j: nat)
    ensures i <= j <= |hostUri|
    ensures forall c :: IsAlnum(c) <==> 48 <= c as int <= 57 || 65 <= c as int <= 90 || 97 <= c as int <= 122
    ensures forall k :: 0 <= k < |hostUri| && !(i <= k < j) ==> !IsAlnum(hostUri[k])
    ensures i < j ==> IsAlnum(hostUri[i]) && IsAlnum(hostUri[j - 1])
    ensures i == j ==> DeterministicName(hostUri) == "discovered-host"
    ensures i < j ==>
              var n := DeterministicName(hostUri);
              && |n| == 11 + j - i && n[..11] == "discovered-"
              && forall k :: i <= k < j ==> n[11 + k - i] == if IsAlnum(hostUri[k]) then hostUri[k] else '-'
  {
    hide StripLeft, StripRight;
    var dashed := Dashed(hostUri);
    i, j := StripsToSpan(dashed);
    forall k | 0 <= k < |hostUri| ensures IsAlnum(hostUri[k]) <==> dashed[k] != '-' {
    }
  }

  /** Two hosts can be given one name, which the unique index then refuses. */
  lemma NamesCanCollide()
    ensures DeterministicName("a.b") == DeterministicName("a-b")
  {
    assert Dashed("a.b") == Dashed("a-b");
  }

  predicate Unnamed(r: Resource, doc: Doc) {
    r.managedBy == ByDiscovery && r.name == None && r.hostUri !in ConfiguredHosts(doc)
  }

  // ---------- convergence ----------

  /** A departed config row may stay only because a live allocation holds it, and then it is cordoned. */
  predicate Settled(r: Resource, doc: Doc, live: bool) {
    r.managedBy == ByConfig ==> IdentityDeclared(r, doc) || (live && r.cordoned)
  }

  ghost predicate AllSatisfied(t: Table, doc: Doc) {
    forall d :: Declares(doc, d) ==> Satisfied(t, d)
  }

  ghost predicate AllHeld(t: Table, doc: Doc) {
    forall i :: i in doc.local ==> OverlayHeld(t, i)
  }

  ghost predicate AllNamed(t: Table, doc: Doc) {
    forall id :: id in t ==> !Unnamed(t[id], doc)
  }

  ghost predicate AllSettled(t: Table, doc: Doc, live: set<Id>) {
    forall id :: id in t ==> Settled(t[id], doc, id in live)
  }

  ghost predicate Converged(t: Table, doc: Doc, live: set<Id>) {
    UniqueNames(t) && AllSatisfied(t, doc) && AllHeld(t, doc) && AllNamed(t, doc) && AllSettled(t, doc, live)
  }

  /** Once satisfied, a declared identity has exactly one row, config-owned, with the declared cost and caps. */
  lemma DeclaredRowUnique(t: Table, doc: Doc, d: Decl) returns (id: Id)
    requires UniqueNames(t) && AllSatisfied(t, doc) && Declares(doc, d)
    ensures id in t && NameMatch(t[id], d) && forall k :: k in t && NameMatch(t[k], d) ==> k == id
    ensures t[id].managedBy == ByConfig && t[id].costClass == d.costClass && t[id].hostUri == d.hostUri
    ensures forall key :: key in d.caps ==> key in t[id].caps && t[id].caps[key] == d.caps[key]
    ensures t[id].leaseExpiresAt == None && t[id].ownerProject == None && t[id].allowlist == []
  {
    id :| id in t && NameMatch(t[id], d) && Adopted(t[id], d) == t[id];
    assert (t[id].caps + d.caps) == t[id].caps;
  }

  // ---------- what a converged table says about the document ----------

  predicate CapIs(r: Resource, key: string, n: int) {
    key in r.caps && r.caps[key] == Num(n)
  }

  predicate Named(r: Resource, kind: Kind, name: string) {
    r.kind == kind && r.name == Some(name)
  }

  /** Exactly one row bears the name under that kind. */
  ghost predicate OnlyRow(t: Table, kind: Kind, name: string, id: Id) {
    id in t && Named(t[id], kind, name) && forall k :: k in t && Named(t[k], kind, name) ==> k == id
  }

  predicate FaultInjectHeld(r: Resource, i: FaultInjectInst) {
    && r.managedBy == ByConfig && r.costClass == i.costClass && r.hostUri == "fault-inject://local"
    && CapIs(r, "vcpus", i.vcpus) && CapIs(r, "memory_mb", i.memoryMb) && CapIs(r, "concurrent_allocation_cap", i.cap)
  }

  predicate RemoteHeld(r: Resource, i: RemoteInst) {
    && r.managedBy == ByConfig && r.costClass == i.costClass && r.hostUri == i.uri
    && CapIs(r, "concurrent_allocation_cap", i.cap)
  }

  predicate LocalHeld(r: Resource, i: LocalInst) {
    r.name == Some(i.name) && r.costClass == i.costClass && CapIs(r, "concurrent_allocation_cap", i.cap)
  }

  /** A null name reads as "None". */
  predicate ReadsAs(name: Option<string>, text: string) {
    name == Some(text) || (name == None && text == "None")
  }

  /** The document still asks for the row: an instance of its kind bears its name. */
  ghost predicate AskedFor(r: Resource, doc: Doc) {
    || (r.kind == FaultInject && exists i :: i in doc.faultInject && ReadsAs(r.name, i.name))
    || (r.kind == RemoteLibvirt && exists i :: i in doc.remote && ReadsAs(r.name, i.name))
  }

  lemma FaultInjectRow(t: Table, doc: Doc, i: FaultInjectInst) returns (id: Id)
    requires UniqueNames(t) && AllSatisfied(t, doc) && i in doc.faultInject
    ensures OnlyRow(t, FaultInject, i.name, id) && FaultInjectHeld(t[id], i)
  {
    var n :| 0 <= n < |doc.faultInject| && doc.faultInject[n] == i;
    assert ConfigDecls(doc)[n] == FaultDecl(i);
    id := DeclaredRowUnique(t, doc, FaultDecl(i));
    assert forall k :: k in t && Named(t[k], FaultInject, i.name) ==> NameMatch(t[k], FaultDecl(i));
    assert VcpusKey in FaultDecl(i).caps && MemoryKey in FaultDecl(i).caps && CapKey in FaultDecl(i).caps;
  }

  lemma RemoteRow(t: Table, doc: Doc, i: RemoteInst) returns (id: Id)
    requires UniqueNames(t) && AllSatisfied(t, doc) && i in doc.remote
    ensures OnlyRow(t, RemoteLibvirt, i.name, id) && RemoteHeld(t[id], i)
  {
    var n :| 0 <= n < |doc.remote| && doc.remote[n] == i;
    assert ConfigDecls(doc)[|doc.faultInject| + n] == RemoteDecl(i);
    id := DeclaredRowUnique(t, doc, RemoteDecl(i));
    assert forall k :: k in t && Named(t[k], RemoteLibvirt, i.name) ==> NameMatch(t[k], RemoteDecl(i));
    assert CapKey in RemoteDecl(i).caps;
  }

  lemma AskedForExactly(r: Resource, doc: Doc)
    ensures IdentityDeclared(r, doc) <==> AskedFor(r, doc)
  {
    if IdentityDeclared(r, doc) {
      if i :| i in doc.faultInject && (FaultInject, i.name) == (r.kind, NameText(r.name)) {
      } else {
        var j :| j in doc.remote && (RemoteLibvirt, j.name) == (r.kind, NameText(r.name));
      }
    }
  }

  /** Every declared instance has exactly one row, with its owner, host, cost class and capabilities. */
  ghost predicate InstancesHeld(t: Table, doc: Doc) {
    && (forall i :: i in doc.faultInject ==>
          exists id :: OnlyRow(t, FaultInject, i.name, id) && FaultInjectHeld(t[id], i))
    && (forall i :: i in doc.remote ==> exists id :: OnlyRow(t, RemoteLibvirt, i.name, id) && RemoteHeld(t[id], i))
  }

  lemma SatisfiedMeans(t: Table, doc: Doc)
    requires UniqueNames(t) && AllSatisfied(t, doc)
    ensures InstancesHeld(t, doc)
  {
    forall i | i in doc.faultInject
      ensures exists id :: OnlyRow(t, FaultInject, i.name, id) && FaultInjectHeld(t[id], i)
    {
      var id := FaultInjectRow(t, doc, i);
    }
    forall i | i in doc.remote ensures exists id :: OnlyRow(t, RemoteLibvirt, i.name, id) && RemoteHeld(t[id], i) {
      var id := RemoteRow(t, doc, i);
    }
  }

  /** What a converged table says, row by row, in the document's own words. */
  ghost predicate DocumentHolds(t: Table, doc: Doc, live: set<Id>) {
    && InstancesHeld(t, doc)
    && (forall i, id :: i in doc.local && id in t && t[id].kind == LocalLibvirt && t[id].hostUri == i.hostUri ==>
          LocalHeld(t[id], i))
    && (forall id :: id in t && t[id].managedBy == ByConfig ==> AskedFor(t[id], doc) || (id in live && t[id].cordoned))
    && (forall id :: id in t && t[id].managedBy == ByDiscovery && t[id].name == None ==>
          exists i :: i in doc.local && i.hostUri == t[id].hostUri)
  }

  /**
   * Every declared instance has exactly one row with its name, owner, host, cost class and capabilities; every row of
   * a declared local host bears its declaration; every other config row is in use and cordoned; a discovered row is
   * unnamed only while its host is declared.
   */
  lemma ConvergedMeans(t: Table, doc: Doc, live: set<Id>)
    requires Converged(t, doc, live)
    ensures DocumentHolds(t, doc, live)
  {
    SatisfiedMeans(t, doc);
    LocalsMean(t, doc, live);
    forall id | id in t ensures t[id].managedBy == ByConfig ==> AskedFor(t[id], doc) || (id in live && t[id].cordoned) {
      AskedForExactly(t[id], doc);
      assert Settled(t[id], doc, id in live);
    }
  }

  lemma LocalsMean(t: Table, doc: Doc, live: set<Id>)
    requires Converged(t, doc, live)
    ensures forall i, id :: i in doc.local && id in t && t[id].kind == LocalLibvirt && t[id].hostUri == i.hostUri ==>
              LocalHeld(t[id], i)
    ensures forall id :: id in t && t[id].managedBy == ByDiscovery && t[id].name == None ==>
              exists i :: i in doc.local && i.hostUri == t[id].hostUri
  {
    forall i, id | i in doc.local && id in t && t[id].kind == LocalLibvirt && t[id].hostUri == i.hostUri
      ensures LocalHeld(t[id], i)
    {
      assert OverlayHeld(t, i);
      assert CapKey in Overlaid(t[id], i).caps;
    }
    forall id | id in t && t[id].managedBy == ByDiscovery && t[id].name == None
      ensures exists i :: i in doc.local && i.hostUri == t[id].hostUri
    {
      assert !Unnamed(t[id], doc);
    }
  }

  // ---------- what a pass may not touch ----------

  function OverlayKeys(k: Kind): set<string> {
    if k == FaultInject then {VcpusKey, MemoryKey, CapKey} else {CapKey}
  }

  /** Some declaration reaches the row, by name or by host. */
  ghost predicate Matched(r: Resource, doc: Doc) {
    || (exists d :: Declares(doc, d) && (NameMatch(r, d) || (d.adopt && HostMatch(r, d))))
    || (exists i :: i in doc.local && LocalMatch(r, i))
  }

  predicate CapsKept(r0: Resource, r: Resource) {
    && (forall k :: k in r0.caps && k !in OverlayKeys(r0.kind) ==> k in r.caps && r.caps[k] == r0.caps[k])
    && (forall k :: k in r.caps ==> k in r0.caps || k in OverlayKeys(r0.kind))
  }

  /** What holds of every surviving row, matched or not. */
  predicate RowKept(r0: Resource, r: Resource, doc: Doc) {
    && r.kind == r0.kind && r.pool == r0.pool && r.status == r0.status
    && (r0.kind == LocalLibvirt ==> r.hostUri == r0.hostUri)
    && (r0.name.Some? || r.managedBy != r0.managedBy ==> r.name.Some?)
    && CapsKept(r0, r)
    && (r.managedBy != r0.managedBy ==> r.managedBy == ByConfig && IdentityDeclared(r, doc))
    && (r0.cordoned ==> r.cordoned)
  }

  ghost predicate EarlyRow(r0: Resource, r: Resource, doc: Doc) {
    RowKept(r0, r, doc) && (Matched(r0, doc) || r == r0)
  }

  /** A row this reconcile inserted: declared, open for allocation, and nothing in it but what was declared. */
  predicate CreatedRow(r: Resource, doc: Doc) {
    && r.managedBy == ByConfig && r.name.Some? && IdentityDeclared(r, doc)
    && r.pool == "default" && r.status == "available" && !r.cordoned
    && r.leaseExpiresAt == None && r.ownerProject == None && r.allowlist == []
    && r.caps.Keys == OverlayKeys(r.kind)
  }

  /** The frame of the first two phases: nothing goes away and unmatched rows are untouched. */
  ghost predicate EarlyFrame(t0: Table, t: Table, doc: Doc) {
    && (forall id :: id in t0 ==> id in t && EarlyRow(t0[id], t[id], doc))
    && (forall id :: id in t && id !in t0 ==> CreatedRow(t[id], doc))
  }

  /** An unmatched row may at most be given its deterministic name and be cordoned. */
  predicate UnmatchedKept(r0: Resource, r: Resource) {
    && r == r0.(name := r.name, cordoned := r.cordoned)
    && (r.name == r0.name || (r0.name == None && r0.managedBy == ByDiscovery && r.name == Some(DeterministicName(r0.hostUri))))
    && (r.cordoned != r0.cordoned ==> r0.managedBy == ByConfig)
  }

  ghost predicate FrameRow(r0: Resource, r: Resource, doc: Doc) {
    RowKept(r0, r, doc) && (Matched(r0, doc) || UnmatchedKept(r0, r))
  }

  /** The frame of a whole pass: only an idle config row may go. */
  ghost predicate Frame(t0: Table, t: Table, doc: Doc, live: set<Id>) {
    && (forall id :: id in t0 && id in t ==> FrameRow(t0[id], t[id], doc))
    && (forall id :: id in t0 && id !in t ==> t0[id].managedBy == ByConfig && id !in live)
    && (forall id :: id in t && id !in t0 ==> CreatedRow(t[id], doc))
  }

  // ---------- lemmas about one upsert ----------

  lemma UpsertKeepsUnique(t: Table, t': Table, d: Decl, id: Id)
    requires UniqueNames(t) && UpsertStep(t, t', d, id)
    ensures UniqueNames(t')
  {
  }

  lemma UpsertSatisfies(t: Table, t': Table, d: Decl, id: Id)
    requires UpsertStep(t, t', d, id)
    ensures Satisfied(t', d)
  {
    assert id in t' && NameMatch(t'[id], d);
    assert t'[id].caps + d.caps == t'[id].caps;
  }

  /** Another declaration's row is not touched. */
  lemma UpsertKeepsSatisfied(t: Table, t': Table, d: Decl, id: Id, e: Decl)
    requires UniqueNames(t) && UpsertStep(t, t', d, id) && Satisfied(t, e)
    requires e.kind != d.kind || e.name != d.name
    ensures Satisfied(t', e)
  {
    var k :| k in t && NameMatch(t[k], e) && Adopted(t[k], e) == t[k];
    assert k in t' && t'[k] == t[k];
  }

  lemma UpsertIdle(t: Table, t': Table, d: Decl, id: Id)
    requires UniqueNames(t) && UpsertStep(t, t', d, id) && Satisfied(t, d)
    ensures id in t && Adopted(t[id], d) == t[id] && t' == t
  {
    var k :| k in t && NameMatch(t[k], d) && Adopted(t[k], d) == t[k];
    assert id == k;
  }

  lemma AdoptedKept(r0: Resource, r: Resource, d: Decl, doc: Doc)
    requires RowKept(r0, r, doc) && Declares(doc, d) && r.kind == d.kind
    ensures RowKept(r0, Adopted(r, d), doc)
  {
    DeclaredIdentity(doc, d);
    assert d.caps.Keys == OverlayKeys(d.kind);
  }

  /** The row a declaration reached, or created, is framed. */
  lemma UpsertKeepsRow(t0: Table, t: Table, d: Decl, id: Id, doc: Doc)
    requires EarlyFrame(t0, t, doc) && Declares(doc, d) && id in t
    requires NameMatch(t[id], d) || (d.adopt && HostMatch(t[id], d))
    ensures id in t0 ==> EarlyRow(t0[id], Adopted(t[id], d), doc)
    ensures id !in t0 ==> CreatedRow(Adopted(t[id], d), doc)
  {
    hide CapsKept;
    DeclaredIdentity(doc, d);
    if id in t0 {
      AdoptedKept(t0[id], t[id], d, doc);
    } else {
      assert CreatedRow(t[id], doc) && d.caps.Keys == OverlayKeys(d.kind);
    }
  }

  lemma NewRowCreated(d: Decl, doc: Doc)
    requires Declares(doc, d)
    ensures CreatedRow(NewRow(d), doc)
  {
    DeclaredIdentity(doc, d);
    assert d.caps.Keys == OverlayKeys(d.kind);
  }

  lemma UpsertKeepsFrame(t0: Table, t: Table, t': Table, d: Decl, id: Id, doc: Doc)
    requires EarlyFrame(t0, t, doc) && Declares(doc, d) && UpsertStep(t, t', d, id)
    ensures EarlyFrame(t0, t', doc)
  {
    hide EarlyRow, CreatedRow, Adopted, NewRow, NameMatch, HostMatch;
    if id in t {
      UpsertKeepsRow(t0, t, d, id, doc);
    } else {
      NewRowCreated(d, doc);
    }
  }

  /** What one upsert guarantees the loop over all declarations. */
  lemma UpsertRound(t0: Table, t: Table, t': Table, id: Id, doc: Doc, i: nat)
    requires ValidDoc(doc) && i < |ConfigDecls(doc)| && UpsertStep(t, t', ConfigDecls(doc)[i], id)
    requires UniqueNames(t) && EarlyFrame(t0, t, doc) && forall j :: 0 <= j < i ==> Satisfied(t, ConfigDecls(doc)[j])
    ensures UniqueNames(t') && EarlyFrame(t0, t', doc) && forall j :: 0 <= j <= i ==> Satisfied(t', ConfigDecls(doc)[j])
    ensures Satisfied(t, ConfigDecls(doc)[i]) ==> t' == t && id in t
  {
    hide UpsertStep, UniqueNames, EarlyFrame, Satisfied, ValidDoc;
    var d := ConfigDecls(doc)[i];
    DeclaredIdentity(doc, d);
    UpsertKeepsUnique(t, t', d, id);
    UpsertKeepsFrame(t0, t, t', d, id, doc);
    UpsertSatisfies(t, t', d, id);
    if Satisfied(t, d) {
      UpsertIdle(t, t', d, id);
    }
    forall j | 0 <= j < i ensures Satisfied(t', ConfigDecls(doc)[j]) {
      DistinctIdentities(doc, j, i);
      UpsertKeepsSatisfied(t, t', d, id, ConfigDecls(doc)[j]);
    }
  }

  // ---------- lemmas about one overlay ----------

  /** One UPDATE of a local host's row, accepted by the unique index. */
  ghost predicate OverlayStep(t: Table, t': Table, i: LocalInst, id: Id) {
    id in t && LocalMatch(t[id], i) && t' == t[id := Overlaid(t[id], i)] && UniqueNames(t')
  }

  lemma OverlayKeepsSatisfied(t: Table, t': Table, i: LocalInst, id: Id, d: Decl)
    requires OverlayStep(t, t', i, id) && d.kind != LocalLibvirt && Satisfied(t, d)
    ensures Satisfied(t', d)
  {
    var k :| k in t && NameMatch(t[k], d) && Adopted(t[k], d) == t[k];
    assert k in t' && t'[k] == t[k];
  }

  lemma OverlayKeepsFrame(t0: Table, t: Table, t': Table, i: LocalInst, id: Id, doc: Doc)
    requires EarlyFrame(t0, t, doc) && i in doc.local && OverlayStep(t, t', i, id)
    ensures EarlyFrame(t0, t', doc)
  {
    assert id !in t0 ==> CreatedRow(t[id], doc);
    if id in t0 {
      OverlayKeepsRow(t0[id], t[id], i, doc);
    }
  }

  /** An overlay reaches only rows of a declared host, and changes no identity that a config row relies on. */
  lemma OverlayKeepsRow(r0: Resource, r: Resource, i: LocalInst, doc: Doc)
    requires EarlyRow(r0, r, doc) && i in doc.local && LocalMatch(r, i)
    ensures EarlyRow(r0, Overlaid(r, i), doc)
  {
    assert !IdentityDeclared(r, doc) && !IdentityDeclared(Overlaid(r, i), doc);
    assert r == r0 ==> LocalMatch(r0, i);
  }

  /** What one local declaration does: it overlays a row of its host, or finds none and changes nothing. */
  ghost predicate OverlayEffect(t: Table, t': Table, i: LocalInst, id: Option<Id>) {
    if id.Some? then OverlayStep(t, t', i, id.value)
    else t' == t && forall k :: k in t ==> !LocalMatch(t[k], i)
  }

  lemma OverlayKeepsAllSatisfied(t: Table, t': Table, i: LocalInst, id: Id, doc: Doc)
    requires OverlayStep(t, t', i, id) && AllSatisfied(t, doc)
    ensures AllSatisfied(t', doc)
  {
    forall d | Declares(doc, d) ensures Satisfied(t', d) {
      DeclaredIdentity(doc, d);
      OverlayKeepsSatisfied(t, t', i, id, d);
    }
  }

  /** What one local declaration guarantees the loop over all of them. */
  lemma OverlayRound(t0: Table, t: Table, t': Table, id: Option<Id>, doc: Doc, i: nat)
    requires i < |doc.local| && OverlayEffect(t, t', doc.local[i], id)
    requires UniqueNames(t) && EarlyFrame(t0, t, doc) && AllSatisfied(t, doc)
    ensures UniqueNames(t') && EarlyFrame(t0, t', doc) && AllSatisfied(t', doc)
  {
    var inst := doc.local[i];
    if id.Some? {
      OverlayKeepsFrame(t0, t, t', inst, id.value, doc);
      OverlayKeepsAllSatisfied(t, t', inst, id.value, doc);
    }
  }

  // ---------- lemmas about naming one row ----------

  ghost predicate NameStep(t: Table, t': Table, id: Id, doc: Doc) {
    && id in t && Unnamed(t[id], doc)
    && t' == t[id := t[id].(name := Some(DeterministicName(t[id].hostUri)))]
    && UniqueNames(t')
  }

  lemma NameKeepsSatisfied(t: Table, t': Table, id: Id, doc: Doc, d: Decl)
    requires NameStep(t, t', id, doc) && Satisfied(t, d)
    ensures Satisfied(t', d)
  {
    var k :| k in t && NameMatch(t[k], d) && Adopted(t[k], d) == t[k];
    assert k in t' && t'[k] == t[k];
  }

  lemma NameKeepsHeld(t: Table, t': Table, id: Id, doc: Doc, i: LocalInst)
    requires NameStep(t, t', id, doc) && i in doc.local && OverlayHeld(t, i)
    ensures OverlayHeld(t', i)
  {
    assert i.hostUri in ConfiguredHosts(doc);
  }

  lemma UntouchedFrames(t: Table, doc: Doc)
    ensures EarlyFrame(t, t, doc)
  {
  }

  lemma EarlyIsFrame(t0: Table, t: Table, doc: Doc, live: set<Id>)
    requires EarlyFrame(t0, t, doc)
    ensures Frame(t0, t, doc, live)
  {
  }

  lemma NamedRowKept(t0: Table, t: Table, id: Id, doc: Doc, live: set<Id>)
    requires Frame(t0, t, doc, live) && id in t && Unnamed(t[id], doc)
    ensures id in t0 && FrameRow(t0[id], t[id].(name := Some(DeterministicName(t[id].hostUri))), doc)
  {
    hide DeterministicName, Matched, DeclaredIdentities;
    assert id !in t0 ==> CreatedRow(t[id], doc);
    assert FrameRow(t0[id], t[id], doc);
  }

  /** A row still unnamed is as it was before the pass, or one that a declaration reaches. */
  lemma NameKeepsFrame(t0: Table, t: Table, t': Table, id: Id, doc: Doc, live: set<Id>)
    requires Frame(t0, t, doc, live) && NameStep(t, t', id, doc)
    ensures Frame(t0, t', doc, live)
  {
    NamedRowKept(t0, t, id, doc, live);
    hide FrameRow, CreatedRow, UniqueNames, Unnamed;
  }

  // ---------- lemmas about pruning one row ----------

  predicate Departed(r: Resource, doc: Doc) {
    r.managedBy == ByConfig && !IdentityDeclared(r, doc)
  }

  /** A departed row is cordoned while a live allocation holds it, and deleted otherwise. */
  ghost predicate PruneStep(t: Table, t': Table, id: Id, doc: Doc, live: set<Id>) {
    id in t && Departed(t[id], doc) && t' == if id in live then t[id := t[id].(cordoned := true)] else t - {id}
  }

  lemma PruneKeepsSatisfied(t: Table, t': Table, id: Id, doc: Doc, live: set<Id>, d: Decl)
    requires PruneStep(t, t', id, doc, live) && Declares(doc, d) && Satisfied(t, d)
    ensures Satisfied(t', d)
  {
    DeclaredIdentity(doc, d);
    var k :| k in t && NameMatch(t[k], d) && Adopted(t[k], d) == t[k];
    assert k in t' && t'[k] == t[k];
  }

  lemma PruneKeepsRest(t: Table, t': Table, id: Id, doc: Doc, live: set<Id>)
    requires PruneStep(t, t', id, doc, live) && UniqueNames(t)
    ensures UniqueNames(t')
    ensures forall i :: i in doc.local && OverlayHeld(t, i) ==> OverlayHeld(t', i)
    ensures (forall k :: k in t ==> !Unnamed(t[k], doc)) ==> forall k :: k in t' ==> !Unnamed(t'[k], doc)
  {
  }

  lemma PruneKeepsFrame(t0: Table, t: Table, t': Table, id: Id, doc: Doc, live: set<Id>)
    requires Frame(t0, t, doc, live) && PruneStep(t, t', id, doc, live)
    ensures Frame(t0, t', doc, live)
  {
    assert id !in t0 ==> CreatedRow(t[id], doc);
    assert FrameRow(t0[id], t[id], doc);
    if id in live {
      assert FrameRow(t0[id], t'[id], doc);
    }
  }

  // ---------- the naming and pruning loops ----------

  /** The rows still to be named are among `rest`, all of them unnamed discovery rows. */
  ghost predicate ToName(t: Table, doc: Doc, rest: set<Id>) {
    && (forall id :: id in rest ==> id in t && t[id].managedBy == ByDiscovery && t[id].name == None)
    && (forall id :: id in t && Unnamed(t[id], doc) ==> id in rest)
  }

  lemma NameRound(t0: Table, t: Table, t': Table, id: Id, doc: Doc, live: set<Id>)
    requires NameStep(t, t', id, doc) && Frame(t0, t, doc, live) && AllSatisfied(t, doc)
    ensures Frame(t0, t', doc, live) && AllSatisfied(t', doc)
    ensures AllHeld(t, doc) ==> AllHeld(t', doc)
  {
    NameKeepsFrame(t0, t, t', id, doc, live);
    forall d | Declares(doc, d) ensures Satisfied(t', d) {
      NameKeepsSatisfied(t, t', id, doc, d);
    }
    if AllHeld(t, doc) {
      forall i | i in doc.local ensures OverlayHeld(t', i) {
        NameKeepsHeld(t, t', id, doc, i);
      }
    }
  }

  lemma NamedOne(t: Table, t': Table, id: Id, doc: Doc, rest: set<Id>)
    requires NameStep(t, t', id, doc) && ToName(t, doc, rest)
    ensures ToName(t', doc, rest - {id})
  {
  }

  /** `t` is `start` with the config rows outside `rest` settled; what a deletion would refuse is still ahead. */
  ghost predicate ToPrune(start: Table, t: Table, doc: Doc, live: set<Id>, referenced: set<Id>, rest: set<Id>) {
    && (forall id :: id in rest ==> id in t && id in start && t[id] == start[id] && t[id].managedBy == ByConfig)
    && (forall id :: id in t && id !in rest ==> Settled(t[id], doc, id in live))
    && (forall id :: id in start && Blocked(start[id], id, doc, live, referenced) ==> id in rest)
  }

  /** A departed, idle row that some allocation still references: the database refuses to delete it. */
  predicate Blocked(r: Resource, id: Id, doc: Doc, live: set<Id>, referenced: set<Id>) {
    Departed(r, doc) && id !in live && id in referenced
  }

  ghost predicate NoneBlocked(t: Table, doc: Doc, live: set<Id>, referenced: set<Id>) {
    forall id :: id in t ==> !Blocked(t[id], id, doc, live, referenced)
  }

  lemma PruneRound(t0: Table, t: Table, t': Table, id: Id, doc: Doc, live: set<Id>)
    requires PruneStep(t, t', id, doc, live) && UniqueNames(t) && Frame(t0, t, doc, live) && AllSatisfied(t, doc)
    requires AllNamed(t, doc)
    ensures UniqueNames(t') && Frame(t0, t', doc, live) && AllSatisfied(t', doc) && AllNamed(t', doc)
    ensures AllHeld(t, doc) ==> AllHeld(t', doc)
  {
    PruneKeepsFrame(t0, t, t', id, doc, live);
    PruneKeepsRest(t, t', id, doc, live);
    forall d | Declares(doc, d) ensures Satisfied(t', d) {
      PruneKeepsSatisfied(t, t', id, doc, live, d);
    }
  }

  function IdentityOf(r: Resource): Identity {
    (r.kind, NameText(r.name))
  }

  /** `list` grew by the identities that the rows `ids` of `start` had, each row once. */
  ghost predicate Reports(list: seq<Identity>, before: seq<Identity>, start: Table, ids: seq<Id>) {
    && (forall i, j :: 0 <= i < j < |ids| ==> ids[i] != ids[j])
    && |list| == |before| + |ids| && before <= list
    && (forall i :: 0 <= i < |ids| ==> ids[i] in start && list[|before| + i] == IdentityOf(start[ids[i]]))
  }

  lemma ReportsOne(list: seq<Identity>, before: seq<Identity>, start: Table, ids: seq<Id>, id: Id)
    requires Reports(list, before, start, ids) && id in start && id !in ids
    ensures Reports(list + [IdentityOf(start[id])], before, start, ids + [id])
  {
  }

  ghost predicate GoneAre(deleted: seq<Id>, start: Table, t: Table) {
    forall id :: id in deleted <==> id in start && id !in t
  }

  ghost predicate SparedAre(spared: seq<Id>, start: Table, doc: Doc, live: set<Id>, rest: set<Id>) {
    forall id :: id in spared <==> id in start && Departed(start[id], doc) && id in live && id !in rest
  }

  /** What the pruning loop keeps. `t0` is the table the pass started from, `start` the one the phase did. */
  ghost predicate Pruning(t0: Table, start: Table, t: Table, doc: Doc, live: set<Id>, referenced: set<Id>,
                          rest: set<Id>) {
    && UniqueNames(t) && Frame(t0, t, doc, live) && AllSatisfied(t, doc) && AllNamed(t, doc)
    && (AllHeld(start, doc) ==> AllHeld(t, doc))
    && ToPrune(start, t, doc, live, referenced, rest)
    && OnlyCordoned(start, t)
    && (AllSettled(start, doc, live) ==> t == start)
  }

  /** Rows may be gone, and those that are left differ at most in being cordoned. */
  ghost predicate OnlyCordoned(start: Table, t: Table) {
    forall id :: id in t ==> id in start && t[id] == start[id].(cordoned := t[id].cordoned)
  }

  lemma PruneStart(t0: Table, t: Table, doc: Doc, live: set<Id>, referenced: set<Id>, rest: set<Id>)
    requires UniqueNames(t) && Frame(t0, t, doc, live) && AllSatisfied(t, doc) && AllNamed(t, doc)
    requires rest == set id | id in t && t[id].managedBy == ByConfig
    ensures Pruning(t0, t, t, doc, live, referenced, rest) && GoneAre([], t, t) && SparedAre([], t, doc, live, rest)
  {
    hide UniqueNames, Frame, AllSatisfied, AllNamed, AllHeld, DeclaredIdentities;
  }

  /**
   * What the loop knows of the next row: a declared one is passed over, and a blocked one was blocked from the start.
   */
  lemma PruneTurn(t0: Table, start: Table, t: Table, doc: Doc, live: set<Id>, referenced: set<Id>, rest: set<Id>,
                  id: Id)
    requires Pruning(t0, start, t, doc, live, referenced, rest) && id in rest
    ensures id in t && id in start && t[id] == start[id] && t[id].managedBy == ByConfig
    ensures IdentityDeclared(t[id], doc) ==> Pruning(t0, start, t, doc, live, referenced, rest - {id})
    ensures Blocked(t[id], id, doc, live, referenced) ==>
              !NoneBlocked(start, doc, live, referenced) && !AllSettled(start, doc, live)
  {
    hide UniqueNames, Frame, AllSatisfied, AllNamed, AllHeld, DeclaredIdentities;
    if Blocked(t[id], id, doc, live, referenced) {
      assert !Settled(start[id], doc, id in live);
    }
  }

  lemma PruneEffect(t0: Table, start: Table, t: Table, t': Table, doc: Doc, live: set<Id>, referenced: set<Id>,
                    rest: set<Id>, id: Id)
    requires Pruning(t0, start, t, doc, live, referenced, rest) && id in rest && PruneStep(t, t', id, doc, live)
    requires id in live || id !in referenced
    ensures Pruning(t0, start, t', doc, live, referenced, rest - {id})
    ensures AllSettled(start, doc, live) ==> id in live
  {
    hide UniqueNames, Frame, AllSatisfied, AllNamed, AllHeld, AllSettled, DeclaredIdentities, ToPrune;
    PruneRound(t0, t, t', id, doc, live);
    PrunedOne(start, t, t', id, doc, live, referenced, rest);
  }

  /** The two lists after one row: a departed one is on the list of what happened to it. */
  lemma PruneListed(start: Table, t: Table, t': Table, doc: Doc, live: set<Id>, rest: set<Id>, id: Id,
                    deleted: seq<Id>, spared: seq<Id>)
    requires GoneAre(deleted, start, t) && SparedAre(spared, start, doc, live, rest) && id in rest && id in start
    requires id in t
    requires if Departed(start[id], doc) then t'.Keys == (if id in live then t.Keys else t.Keys - {id}) else t' == t
    ensures id !in deleted && id !in spared
    ensures GoneAre(if Departed(start[id], doc) && id !in live then deleted + [id] else deleted, start, t')
    ensures SparedAre(if Departed(start[id], doc) && id in live then spared + [id] else spared, start, doc, live, rest - {id})
  {
    hide DeclaredIdentities;
  }

  lemma PruneEnd(t0: Table, start: Table, t: Table, doc: Doc, live: set<Id>, referenced: set<Id>)
    requires Pruning(t0, start, t, doc, live, referenced, {})
    ensures AllSettled(t, doc, live) && NoneBlocked(start, doc, live, referenced)
  {
    hide UniqueNames, Frame, AllSatisfied, AllNamed, AllHeld, DeclaredIdentities;
  }

  lemma PrunedOne(start: Table, t: Table, t': Table, id: Id, doc: Doc, live: set<Id>, referenced: set<Id>,
                  rest: set<Id>)
    requires ToPrune(start, t, doc, live, referenced, rest) && id in rest && PruneStep(t, t', id, doc, live)
    requires id in live || id !in referenced
    ensures ToPrune(start, t', doc, live, referenced, rest - {id})
    ensures AllSettled(start, doc, live) && t == start ==> t' == t && id in live
  {
  }
}

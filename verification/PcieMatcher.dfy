/** Kuhn's augmenting paths over two dictionaries and a shared visited set, all updated in place. */
module PcieMatcher {
  import opened Prelude
  import opened PcieSpec
  import opened PcieMatching

  /** The set one top-level search shares with all its recursive calls. */
  class Visited {
    var devices: set<nat>

    constructor ()
      ensures devices == {}
    {
      devices := {};
    }
  }

  /**
   * The two dictionaries are each other's inverse, along matching edges, except that the devices in `stale` still
   * name an owner that has moved elsewhere.
   */
  ghost predicate Consistent(specs: seq<MatchSpec>, avail: seq<Descriptor>,
                             specToDevice: map<nat, nat>, deviceToSpec: map<nat, nat>, stale: set<nat>)
  {
    && (forall s :: s in specToDevice ==>
          && s < |specs|
          && specToDevice[s] !in stale
          && specToDevice[s] in deviceToSpec && deviceToSpec[specToDevice[s]] == s)
    && (forall d :: d in deviceToSpec ==>
          && d < |avail|
          && deviceToSpec[d] in specToDevice
          && deviceToSpec[d] < |specs|
          && DescriptorMatches(specs[deviceToSpec[d]], avail[d]))
    && (forall d :: d in deviceToSpec && d !in stale ==> specToDevice[deviceToSpec[d]] == d)
  }

  /** Every device the spec matches has been visited. */
  ghost predicate Exhausted(specs: seq<MatchSpec>, avail: seq<Descriptor>, s: nat, visited: set<nat>)
    requires s < |specs|
  {
    forall d: nat :: d < |avail| && DescriptorMatches(specs[s], avail[d]) ==> d in visited
  }

  /** Every device in `seen` has an owner, and that owner is exhausted. */
  ghost predicate Closed(specs: seq<MatchSpec>, avail: seq<Descriptor>, deviceToSpec: map<nat, nat>,
                         seen: set<nat>, visited: set<nat>)
  {
    forall d :: d in seen ==>
      d in deviceToSpec && deviceToSpec[d] < |specs| && Exhausted(specs, avail, deviceToSpec[d], visited)
  }

  ghost function Stale(specToDevice: map<nat, nat>, s: nat): set<nat> {
    if s in specToDevice then {specToDevice[s]} else {}
  }

  /** The two dictionaries agree on the devices in `kept`. */
  ghost predicate Undisturbed(deviceToSpec: map<nat, nat>, deviceToSpec': map<nat, nat>, kept: set<nat>) {
    forall d :: d in kept ==>
      (d in deviceToSpec' <==> d in deviceToSpec) && (d in deviceToSpec ==> deviceToSpec'[d] == deviceToSpec[d])
  }

  /**
   * What a successful search from `s` does: `s` gains a device not visited before, every other spec keeps one, the
   * devices visited before keep their owners, and at most the device `s` held is left stale.
   */
  ghost predicate Moved(specs: seq<MatchSpec>, avail: seq<Descriptor>, s2d: map<nat, nat>, d2s: map<nat, nat>,
                        s2d': map<nat, nat>, d2s': map<nat, nat>, s: nat, visited: set<nat>)
  {
    && Consistent(specs, avail, s2d', d2s', Stale(s2d, s))
    && s2d'.Keys == s2d.Keys + {s}
    && s2d'[s] !in visited
    && Undisturbed(d2s, d2s', visited)
  }

  class Matching {
    const specs: seq<MatchSpec>
    const available: seq<Descriptor>
    ghost const pool: set<nat>  // the indices of `available`
    var specToDevice: map<nat, nat>
    var deviceToSpec: map<nat, nat>

    ghost predicate Valid()
      reads this
    {
      && Consistent(specs, available, specToDevice, deviceToSpec, {})
      && forall d: nat :: d < |available| ==> d in pool
    }

    constructor (specs: seq<MatchSpec>, available: seq<Descriptor>)
      ensures this.specs == specs && this.available == available
      ensures specToDevice == map[] && deviceToSpec == map[] && Valid()
    {
      this.specs := specs;
      this.available := available;
      pool := Below(|available|);
      specToDevice := map[];
      deviceToSpec := map[];
    }

    /**
     * Searches for an augmenting path from `s`. A nested call runs on a spec whose device is already visited; when
     * it succeeds that one device is left stale for the caller to take over.
     */
    method Augment(s: nat, visited: Visited) returns (ok: bool)
      requires Valid()
      requires s < |specs|
      requires visited.devices <= pool
      requires Stale(specToDevice, s) <= visited.devices
      modifies this, visited
      ensures old(visited.devices) <= visited.devices <= pool
      ensures ok ==>
        Moved(specs, available, old(specToDevice), old(deviceToSpec), specToDevice, deviceToSpec, s, old(visited.devices))
      ensures !ok ==> specToDevice == old(specToDevice) && deviceToSpec == old(deviceToSpec)
      ensures !ok ==> Exhausted(specs, available, s, visited.devices)
      ensures !ok ==> Closed(specs, available, deviceToSpec, visited.devices - old(visited.devices), visited.devices)
      decreases pool - visited.devices, 1
    {
      for d := 0 to |available|
        invariant specToDevice == old(specToDevice) && deviceToSpec == old(deviceToSpec)
        invariant old(visited.devices) <= visited.devices <= pool
        invariant forall e: nat :: e < d && DescriptorMatches(specs[s], available[e]) ==> e in visited.devices
        invariant Closed(specs, available, deviceToSpec, visited.devices - old(visited.devices), visited.devices)
      {
        if d !in visited.devices && DescriptorMatches(specs[s], available[d]) {
          ok := TryDevice(s, d, visited);
          if ok {
            return;
          }
        }
      }
      return false;
    }

    /** The top-level search for one more spec, with a fresh visited set. */
    method MatchNext(s: nat) returns (ok: bool, ghost group: set<nat>, ghost reach: set<nat>)
      requires Valid()
      requires s < |specs| && s !in specToDevice
      modifies this
      ensures Valid()
      ensures ok ==> specToDevice.Keys == old(specToDevice).Keys + {s}
      ensures !ok ==> HallViolator(specs, available, group, reach) && !Assignable(specs, available)
    {
      group, reach := {}, {};
      var visited := new Visited();
      ok := Augment(s, visited);
      if !ok {
        FailedSearchViolatesHall(specs, available, specToDevice, deviceToSpec, s, visited.devices);
        group, reach := Image(deviceToSpec, visited.devices) + {s}, visited.devices;
      }
    }

    /** One turn of the search: visit `d`, and take it if it is free or its owner can move elsewhere. */
    method TryDevice(s: nat, d: nat, visited: Visited) returns (ok: bool)
      requires Valid()
      requires s < |specs| && d < |available| && DescriptorMatches(specs[s], available[d])
      requires visited.devices <= pool && d !in visited.devices
      requires Stale(specToDevice, s) <= visited.devices
      modifies this, visited
      ensures old(visited.devices) + {d} <= visited.devices <= pool
      ensures ok ==>
        Moved(specs, available, old(specToDevice), old(deviceToSpec), specToDevice, deviceToSpec, s, old(visited.devices))
      ensures !ok ==> specToDevice == old(specToDevice) && deviceToSpec == old(deviceToSpec)
      ensures !ok ==> Closed(specs, available, deviceToSpec, visited.devices - old(visited.devices), visited.devices)
      decreases pool - visited.devices, 0
    {
      visited.devices := visited.devices + {d};
      if d in deviceToSpec {
        ok := Augment(deviceToSpec[d], visited);
        if !ok {
          return;
        }
        TakeOver(specs, available, old(specToDevice), old(deviceToSpec), specToDevice, deviceToSpec, s, d,
                 old(visited.devices));
      } else {
        TakeFree(specs, available, specToDevice, deviceToSpec, s, d, old(visited.devices));
      }
      deviceToSpec := deviceToSpec[d := s];
      specToDevice := specToDevice[s := d];
      return true;
    }
  }

  /** Giving `s` a device no spec is on keeps the dictionaries consistent; the device `s` held goes stale. */
  lemma WriteConsistent(specs: seq<MatchSpec>, avail: seq<Descriptor>, s2d: map<nat, nat>, d2s: map<nat, nat>, s: nat,
                        d: nat)
    requires Consistent(specs, avail, s2d, d2s, if d in d2s then {d} else {})
    requires s < |specs| && d < |avail| && DescriptorMatches(specs[s], avail[d])
    requires d in d2s ==> d2s[d] != s
    ensures Consistent(specs, avail, s2d[s := d], d2s[d := s], Stale(s2d, s))
  {
  }

  lemma TakeFree(specs: seq<MatchSpec>, avail: seq<Descriptor>, s2d: map<nat, nat>, d2s: map<nat, nat>,
                 s: nat, d: nat, visited: set<nat>)
    requires Consistent(specs, avail, s2d, d2s, {})
    requires s < |specs| && d < |avail| && DescriptorMatches(specs[s], avail[d])
    requires d !in d2s && d !in visited
    ensures Moved(specs, avail, s2d, d2s, s2d[s := d], d2s[d := s], s, visited)
  {
    WriteConsistent(specs, avail, s2d, d2s, s, d);
  }

  /** The owner of `d` moving away leaves `s` where it was: on a visited device, or on none. */
  lemma HolderUndisturbed(specs: seq<MatchSpec>, avail: seq<Descriptor>, s2d: map<nat, nat>, d2s: map<nat, nat>,
                          s2d': map<nat, nat>, d2s': map<nat, nat>, s: nat, d: nat, visited: set<nat>)
    requires Consistent(specs, avail, s2d, d2s, {})
    requires d in d2s && d !in visited && Stale(s2d, s) <= visited
    requires Moved(specs, avail, s2d, d2s, s2d', d2s', d2s[d], visited + {d})
    ensures d2s[d] != s && Stale(s2d', s) == Stale(s2d, s)
    ensures d in d2s' && d2s'[d] == d2s[d] && Stale(s2d, d2s[d]) == {d}
  {
    if s in s2d {
      assert d2s'[s2d[s]] == s;
    }
  }

  /** After the owner of `d` has moved away, `s` takes `d` over. */
  lemma TakeOver(specs: seq<MatchSpec>, avail: seq<Descriptor>, s2d: map<nat, nat>, d2s: map<nat, nat>,
                 s2d': map<nat, nat>, d2s': map<nat, nat>, s: nat, d: nat, visited: set<nat>)
    requires Consistent(specs, avail, s2d, d2s, {})
    requires s < |specs| && d < |avail| && DescriptorMatches(specs[s], avail[d])
    requires d in d2s && d !in visited && Stale(s2d, s) <= visited
    requires Moved(specs, avail, s2d, d2s, s2d', d2s', d2s[d], visited + {d})
    ensures Moved(specs, avail, s2d, d2s, s2d'[s := d], d2s'[d := s], s, visited)
  {
    hide Consistent, DescriptorMatches;
    HolderUndisturbed(specs, avail, s2d, d2s, s2d', d2s', s, d, visited);
    WriteConsistent(specs, avail, s2d', d2s', s, d);
    assert Undisturbed(d2s, d2s'[d := s], visited);
    assert s2d'[s := d].Keys == s2d.Keys + {s};
  }

  /** A failed top-level search pins down more specs than devices that could serve them. */
  lemma FailedSearchViolatesHall(specs: seq<MatchSpec>, avail: seq<Descriptor>, specToDevice: map<nat, nat>,
                                 deviceToSpec: map<nat, nat>, s: nat, visited: set<nat>)
    requires Consistent(specs, avail, specToDevice, deviceToSpec, {})
    requires s < |specs| && s !in specToDevice
    requires Exhausted(specs, avail, s, visited)
    requires Closed(specs, avail, deviceToSpec, visited, visited)
    ensures HallViolator(specs, avail, Image(deviceToSpec, visited) + {s}, visited)
    ensures !Assignable(specs, avail)
  {
    ImageSize(deviceToSpec, visited);
    HallBlocks(specs, avail, Image(deviceToSpec, visited) + {s}, visited);
  }

  /** Once every spec has a device, the dictionary read off in order is an assignment. */
  lemma CompleteIsAssignment(specs: seq<MatchSpec>, avail: seq<Descriptor>, specToDevice: map<nat, nat>,
                             deviceToSpec: map<nat, nat>, f: seq<nat>)
    requires Consistent(specs, avail, specToDevice, deviceToSpec, {})
    requires |f| == |specs| && forall i :: 0 <= i < |f| ==> i in specToDevice && f[i] == specToDevice[i]
    ensures IsAssignment(specs, avail, f) && Assignable(specs, avail)
  {
    forall i, j | 0 <= i < j < |f| ensures f[i] != f[j] {
      assert deviceToSpec[f[i]] == i && deviceToSpec[f[j]] == j;
    }
    assert IsAssignment(specs, avail, f);
  }

  /** Returns an assignment, or else a group of specs that outnumbers the devices it can reach. */
  method MaxBipartiteMatch(specs: seq<MatchSpec>, available: seq<Descriptor>)
    returns (r: Option<seq<nat>>, ghost group: set<nat>, ghost reach: set<nat>)
    ensures r.Some? ==> IsAssignment(specs, available, r.value)
    ensures r.None? ==> HallViolator(specs, available, group, reach)
    ensures r.Some? <==> Assignable(specs, available)
  {
    hide HallViolator, Assignable, IsAssignment, Consistent, DescriptorMatches;
    group, reach := {}, {};
    var state := new Matching(specs, available);
    for i := 0 to |specs|
      invariant fresh(state) && state.specs == specs && state.available == available
      invariant state.Valid()
      invariant forall j: nat :: j in state.specToDevice <==> j < i
    {
      var ok: bool;
      ok, group, reach := state.MatchNext(i);
      if !ok {
        return None, group, reach;
      }
    }
    var chosen := state.specToDevice;
    var f: seq<nat> := seq(|specs|, i requires 0 <= i < |specs| => chosen[i]);
    CompleteIsAssignment(specs, available, chosen, state.deviceToSpec, f);
    r := Some(f);
  }

  datatype MultisetResolution = MultisetResolution(outcome: Outcome, devices: seq<Descriptor>)

  method ResolveMultiset(specs: seq<string>, ds: seq<Descriptor>, claims: seq<Claim>)
    returns (r: Result<MultisetResolution, string>)
    ensures r.Err? <==> DueVerdict(specs, ds, claims).Malformed?
    ensures r.Ok? ==> DueVerdict(specs, ds, claims) == Decided(r.value.outcome)
    ensures r.Ok? && r.value.outcome != Matched ==> r.value.devices == []
    ensures r.Ok? && r.value.outcome == Matched ==>
              Serves(ParseAll(specs).value, Unclaimed(ds, ClaimedBdfs(claims)), r.value.devices)
    ensures r.Ok? && r.value.outcome == Matched ==> HandedOut(specs, ds, claims, r.value.devices)
  {
    var all := ParseAll(specs);
    if all.Err? {
      return Err(all.error);
    }
    var parsed := all.value;
    if exists i :: 0 <= i < |parsed| && Candidates(parsed[i], ds) == [] {
      assert forall p :: Candidates(p, ds) == [] ==> !Servable(p, ds);
      return Ok(MultisetResolution(Config, []));
    }
    forall i | 0 <= i < |parsed| ensures Servable(parsed[i], ds) {
      assert Candidates(parsed[i], ds)[0] in ds;
    }
    var available := Unclaimed(ds, ClaimedBdfs(claims));
    var assignment, _, _ := MaxBipartiteMatch(parsed, available);
    if assignment.None? {
      return Ok(MultisetResolution(Capacity, []));
    }
    var f := assignment.value;
    var devices := seq(|f|, i requires 0 <= i < |f| => available[f[i]]);
    ServedDevicesDistinct(specs, ds, claims, devices);
    return Ok(MultisetResolution(Matched, devices));
  }

  /** `devices` serves each spec with a matching pool entry of its own. */
  ghost predicate Serves(specs: seq<MatchSpec>, pool: seq<Descriptor>, devices: seq<Descriptor>) {
    exists f: seq<nat> :: IsAssignment(specs, pool, f) && |devices| == |f| &&
      forall i :: 0 <= i < |f| ==> devices[i] == pool[f[i]]
  }

  ghost predicate DistinctBdfs(ds: seq<Descriptor>) {
    forall i, j :: 0 <= i < j < |ds| ==> ds[i].bdf != ds[j].bdf
  }

  lemma {:induction false} UnclaimedDistinct(ds: seq<Descriptor>, claimed: set<string>)
    requires DistinctBdfs(ds)
    ensures DistinctBdfs(Unclaimed(ds, claimed))
  {
    if ds != [] {
      UnclaimedDistinct(ds[1..], claimed);
      forall d | d in ds[1..] ensures d.bdf != ds[0].bdf {
      }
    }
  }

  /**
   * What a match hands out, read off the request and the host: for every text a device it asks for, listed by the host,
   * that no claim holds; and no device twice, if the host lists each once.
   */
  ghost predicate HandedOut(specs: seq<string>, ds: seq<Descriptor>, claims: seq<Claim>, devices: seq<Descriptor>) {
    && |devices| == |specs|
    && (forall i :: 0 <= i < |specs| ==> devices[i] in ds && Free(devices[i], claims) && AsksFor(specs[i], devices[i]))
    && (DistinctBdfs(ds) ==> DistinctBdfs(devices))
  }

  /** The devices an assignment picks from the unclaimed ones. */
  lemma ServedFromPool(specs: seq<MatchSpec>, ds: seq<Descriptor>, claimed: set<string>, devices: seq<Descriptor>)
    requires Serves(specs, Unclaimed(ds, claimed), devices)
    ensures |devices| == |specs| && (DistinctBdfs(ds) ==> DistinctBdfs(devices))
    ensures forall i :: 0 <= i < |specs| ==>
              devices[i] in ds && devices[i].bdf !in claimed && DescriptorMatches(specs[i], devices[i])
  {
    var pool := Unclaimed(ds, claimed);
    if DistinctBdfs(ds) {
      UnclaimedDistinct(ds, claimed);
    }
    var f: seq<nat> :| IsAssignment(specs, pool, f) && |devices| == |f| &&
      forall i :: 0 <= i < |f| ==> devices[i] == pool[f[i]];
    forall i | 0 <= i < |specs| ensures devices[i] in ds && devices[i].bdf !in claimed {
      assert pool[f[i]] in pool;
    }
  }

  lemma ServedDevicesDistinct(specs: seq<string>, ds: seq<Descriptor>, claims: seq<Claim>, devices: seq<Descriptor>)
    requires ParseAll(specs).Ok?
    requires Serves(ParseAll(specs).value, Unclaimed(ds, ClaimedBdfs(claims)), devices)
    ensures HandedOut(specs, ds, claims, devices)
  {
    hide AsksFor, ParseMatchSpec, ParseAll, DescriptorMatches, Serves, DistinctBdfs;
    ServedFromPool(ParseAll(specs).value, ds, ClaimedBdfs(claims), devices);
    forall i | 0 <= i < |specs| ensures Free(devices[i], claims) && AsksFor(specs[i], devices[i]) {
      MatchesExactly(specs[i], devices[i]);
    }
  }
}

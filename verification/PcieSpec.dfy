/** The PCIe match-spec grammar and the single-spec resolver. */
module PcieSpec {
  import opened Prelude

  /** A host-local device descriptor; `bdf` is its address on the host. */
  datatype Descriptor = Descriptor(bdf: string, vendorId: string, deviceId: string, classCode: string, display: string)

  /** A device held by an active allocation. */
  datatype Claim = Claim(bdf: string, vendorId: string, deviceId: string)

  datatype MatchSpec = VendorDevice(vendorId: string, deviceId: string) | ClassPrefix(prefix: string)

  datatype Outcome = Matched | Config | Capacity

  datatype SpecResolution = SpecResolution(outcome: Outcome, candidates: seq<Descriptor>)

  predicate IsHex(s: string) {
    forall i :: 0 <= i < |s| ==> '0' <= s[i] <= '9' || 'a' <= s[i] <= 'f'
  }

  /** `4hex:4hex`. */
  predicate IsVendorDevice(s: string) {
    |s| == 9 && s[4] == ':' && IsHex(s[..4]) && IsHex(s[5..])
  }

  /** `class=2hex` or `class=4hex`. */
  predicate IsClass(s: string) {
    (|s| == 8 || |s| == 10) && s[..6] == "class=" && IsHex(s[6..])
  }

  /** The grammar the module documents. */
  predicate InGrammar(s: string) {
    IsVendorDevice(s) || IsClass(s)
  }

  predicate EndsWithNewline(s: string) {
    |s| > 0 && s[|s| - 1] == '\n'
  }

  /** What a pattern anchored with `$` is held against: the text up to one final newline. */
  function Anchored(s: string): string {
    if EndsWithNewline(s) then s[..|s| - 1] else s
  }

  /** The error carries the offending text. Splitting at the colon keeps a final newline; the class capture drops it. */
  function ParseMatchSpec(s: string): Result<MatchSpec, string> {
    if IsVendorDevice(Anchored(s)) then Ok(VendorDevice(s[..4], s[5..]))
    else if IsClass(Anchored(s)) then Ok(ClassPrefix(Anchored(s)[6..]))
    else Err(s)
  }

  /** The wire form of a spec. */
  function Render(spec: MatchSpec): string {
    match spec
    case VendorDevice(v, d) => v + ":" + d
    case ClassPrefix(p) => "class=" + p
  }

  /** The grammar by its productions: four digits, a colon, four digits; or `class=` and two or four digits. */
  lemma GrammarExactly(s: string)
    ensures IsHex(s) <==> forall c :: c in s ==> c in "0123456789abcdef"
    ensures IsVendorDevice(s) <==>
              exists v, d :: |v| == 4 && |d| == 4 && IsHex(v) && IsHex(d) && s == v + ":" + d
    ensures IsClass(s) <==> exists h :: (|h| == 2 || |h| == 4) && IsHex(h) && s == "class=" + h
  {
    if IsVendorDevice(s) {
      assert s == s[..4] + ":" + s[5..];
    }
    if v, d :| |v| == 4 && |d| == 4 && IsHex(v) && IsHex(d) && s == v + ":" + d {
      assert s[..4] == v && s[5..] == d;
    }
    if IsClass(s) {
      assert s == "class=" + s[6..];
    }
    if h :| (|h| == 2 || |h| == 4) && IsHex(h) && s == "class=" + h {
      assert s[6..] == h && s[..6] == "class=";
    }
    HexDigits(s);
  }

  lemma HexDigits(s: string)
    ensures IsHex(s) <==> forall c :: c in s ==> c in "0123456789abcdef"
  {
    if IsHex(s) {
      forall c | c in s ensures c in "0123456789abcdef" {
        var i :| 0 <= i < |s| && s[i] == c;
        var digits := "0123456789abcdef";
        assert digits[if '0' <= c <= '9' then c as int - '0' as int else c as int - 'a' as int + 10] == c;
      }
    }
    if forall c :: c in s ==> c in "0123456789abcdef" {
      forall i | 0 <= i < |s| ensures '0' <= s[i] <= '9' || 'a' <= s[i] <= 'f' {
        assert s[i] in s;
      }
    }
  }

  lemma GrammarEndsInHex(s: string)
    requires InGrammar(s)
    ensures |s| > 0 && IsHex([s[|s| - 1]])
  {
    var digits := if IsVendorDevice(s) then s[5..] else s[6..];
    assert digits[|digits| - 1] == s[|s| - 1];
  }

  /** Parsing undoes rendering on every wire text of the documented grammar. */
  lemma ParseRoundTrip(s: string)
    requires InGrammar(s)
    ensures ParseMatchSpec(s).Ok?
    ensures Render(ParseMatchSpec(s).value) == s
    ensures InGrammar(Render(ParseMatchSpec(s).value))
    ensures ParseMatchSpec(Render(ParseMatchSpec(s).value)) == ParseMatchSpec(s)
  {
    GrammarEndsInHex(s);
    if IsVendorDevice(s) {
      assert s == s[..4] + ":" + s[5..];
    } else {
      assert s == "class=" + s[6..];
    }
  }

  /**
   * The documentation promises that a text outside the grammar is refused. That fails for exactly one family:
   * a text of the grammar followed by one newline.
   */
  lemma ParseAcceptsOutsideGrammar(s: string)
    ensures ParseMatchSpec(s).Ok? && !InGrammar(s) <==> EndsWithNewline(s) && InGrammar(Anchored(s))
    ensures ParseMatchSpec("class=02\n").Ok?
  {
    if InGrammar(s) {
      ParseRoundTrip(s);
      GrammarEndsInHex(s);
    }
    var t := "class=02\n";
    assert Anchored(t) == "class=02";
    assert "class=02"[6..] == "02";
  }

  predicate DescriptorMatches(spec: MatchSpec, d: Descriptor) {
    match spec
    case VendorDevice(v, dev) => d.vendorId == v && d.deviceId == dev
    case ClassPrefix(p) => p <= d.classCode
  }

  /**
   * What an accepted text asks of a device, read off the text and the device's own columns: its vendor and device
   * ids joined by a colon, or the leading digits of its class code after `class=`.
   */
  predicate AsksFor(s: string, d: Descriptor) {
    var t := Anchored(s);
    if IsClass(t) then |t| - 6 <= |d.classCode| && t == "class=" + d.classCode[..|t| - 6]
    else s == d.vendorId + ":" + d.deviceId
  }

  /** The one colon of an accepted vendor:device text is at index four, so the ids beside it are determined. */
  lemma ColonSplits(s: string, v: string, d: string)
    requires IsVendorDevice(Anchored(s)) && s == v + ":" + d
    ensures v == s[..4] && d == s[5..]
  {
    var t := Anchored(s);
    assert forall i :: 0 <= i < 4 ==> t[..4][i] == s[i];
    assert forall i :: 0 <= i < 4 ==> t[5..][i] == s[i + 5];
    assert forall i :: 0 <= i < |s| && s[i] == ':' ==> i == 4 by {
      assert forall i :: 5 <= i < 9 ==> s[i] == t[5..][i - 5];
    }
    assert s[|v|] == ':';
  }

  /** A spec matches a device exactly when its text asks for the device. */
  lemma MatchesExactly(s: string, d: Descriptor)
    requires ParseMatchSpec(s).Ok?
    ensures DescriptorMatches(ParseMatchSpec(s).value, d) <==> AsksFor(s, d)
    ensures IsVendorDevice(s) ==>
              (DescriptorMatches(ParseMatchSpec(s).value, d) <==> s == d.vendorId + ":" + d.deviceId)
    ensures IsClass(s) ==>
              (DescriptorMatches(ParseMatchSpec(s).value, d) <==>
               |s| - 6 <= |d.classCode| && s == "class=" + d.classCode[..|s| - 6])
  {
    if InGrammar(s) {
      GrammarEndsInHex(s);
    }
    if IsVendorDevice(Anchored(s)) {
      assert s == s[..4] + ":" + s[5..];
      if s == d.vendorId + ":" + d.deviceId {
        ColonSplits(s, d.vendorId, d.deviceId);
      }
    } else {
      var t := Anchored(s);
      assert t == "class=" + t[6..];
    }
  }

  /** The descriptors a spec matches, in order. */
  function Candidates(spec: MatchSpec, ds: seq<Descriptor>): (r: seq<Descriptor>)
    ensures forall d :: d in r <==> d in ds && DescriptorMatches(spec, d)
  {
    if ds == [] then []
    else if DescriptorMatches(spec, ds[0]) then [ds[0]] + Candidates(spec, ds[1..])
    else Candidates(spec, ds[1..])
  }

  function ClaimedBdfs(claims: seq<Claim>): set<string> {
    set c | c in claims :: c.bdf
  }

  /** The descriptors whose device no claim holds, in order. */
  function Unclaimed(ds: seq<Descriptor>, claimed: set<string>): (r: seq<Descriptor>)
    ensures forall d :: d in r <==> d in ds && d.bdf !in claimed
  {
    if ds == [] then []
    else if ds[0].bdf !in claimed then [ds[0]] + Unclaimed(ds[1..], claimed)
    else Unclaimed(ds[1..], claimed)
  }

  /** Filtering keeps the multiplicity of what passes. */
  lemma {:induction false} UnclaimedMultiplicity(ds: seq<Descriptor>, claimed: set<string>, d: Descriptor)
    ensures multiset(Unclaimed(ds, claimed))[d] == if d.bdf in claimed then 0 else multiset(ds)[d]
  {
    if ds != [] {
      UnclaimedMultiplicity(ds[1..], claimed, d);
      assert ds == [ds[0]] + ds[1..];
    }
  }

  /** `r` is what `ds` holds at the positions `p`, from first to last. */
  ghost predicate Picks(r: seq<Descriptor>, ds: seq<Descriptor>, p: seq<nat>) {
    && |p| == |r|
    && (forall i :: 0 <= i < |p| ==> p[i] < |ds| && r[i] == ds[p[i]])
    && (forall i, j :: 0 <= i < j < |p| ==> p[i] < p[j])
  }

  /** One more pick, in front of all the others. */
  lemma PicksFirst(r: seq<Descriptor>, ds: seq<Descriptor>, p: seq<nat>, first: nat)
    requires Picks(r, ds, p) && first < |ds| && forall k :: k in p ==> first < k
    ensures Picks([ds[first]] + r, ds, [first] + p)
  {
    var more := [first] + p;
    forall i, j | 0 <= i < j < |more| ensures more[i] < more[j] {
      assert more[j] == p[j - 1] && p[j - 1] in p && (i > 0 ==> more[i] == p[i - 1]);
    }
  }

  lemma {:induction false} CandidatesFrom(spec: MatchSpec, ds: seq<Descriptor>, from: nat) returns (p: seq<nat>)
    requires from <= |ds|
    ensures Picks(Candidates(spec, ds[from..]), ds, p)
    ensures forall k :: k in p <==> from <= k < |ds| && DescriptorMatches(spec, ds[k])
    decreases |ds| - from
  {
    if from == |ds| {
      p := [];
    } else {
      hide Picks, DescriptorMatches;
      p := CandidatesFrom(spec, ds, from + 1);
      assert ds[from..][1..] == ds[from + 1..] && ds[from..][0] == ds[from];
      if DescriptorMatches(spec, ds[from]) {
        PicksFirst(Candidates(spec, ds[from + 1..]), ds, p, from);
        p := [from] + p;
      }
    }
  }

  /** The candidates are the matching descriptors, all of them, each as often and in the order it is listed. */
  lemma CandidatesInOrder(spec: MatchSpec, ds: seq<Descriptor>) returns (p: seq<nat>)
    ensures Picks(Candidates(spec, ds), ds, p)
    ensures forall k :: k in p <==> 0 <= k < |ds| && DescriptorMatches(spec, ds[k])
  {
    hide Picks, DescriptorMatches, Candidates;
    p := CandidatesFrom(spec, ds, 0);
    assert ds[0..] == ds;
  }

  lemma {:induction false} UnclaimedFrom(ds: seq<Descriptor>, claimed: set<string>, from: nat) returns (p: seq<nat>)
    requires from <= |ds|
    ensures Picks(Unclaimed(ds[from..], claimed), ds, p)
    ensures forall k :: k in p <==> from <= k < |ds| && ds[k].bdf !in claimed
    decreases |ds| - from
  {
    if from == |ds| {
      p := [];
    } else {
      hide Picks;
      p := UnclaimedFrom(ds, claimed, from + 1);
      assert ds[from..][1..] == ds[from + 1..] && ds[from..][0] == ds[from];
      if ds[from].bdf !in claimed {
        PicksFirst(Unclaimed(ds[from + 1..], claimed), ds, p, from);
        p := [from] + p;
      }
    }
  }

  /** The same of the descriptors no claim holds. */
  lemma UnclaimedInOrder(ds: seq<Descriptor>, claimed: set<string>) returns (p: seq<nat>)
    ensures Picks(Unclaimed(ds, claimed), ds, p)
    ensures forall k :: k in p <==> 0 <= k < |ds| && ds[k].bdf !in claimed
  {
    hide Picks, Unclaimed;
    p := UnclaimedFrom(ds, claimed, 0);
    assert ds[0..] == ds;
  }

  function ResolveSpec(spec: string, ds: seq<Descriptor>, claims: seq<Claim>): Result<SpecResolution, string> {
    match ParseMatchSpec(spec)
    case Err(e) => Err(e)
    case Ok(parsed) =>
      var matching := Candidates(parsed, ds);
      if matching == [] then Ok(SpecResolution(Config, []))
      else
        var free := Unclaimed(matching, ClaimedBdfs(claims));
        if free == [] then Ok(SpecResolution(Capacity, [])) else Ok(SpecResolution(Matched, free))
  }

  ghost predicate Free(d: Descriptor, claims: seq<Claim>) {
    forall c :: c in claims ==> c.bdf != d.bdf
  }

  /** Picking from a pick: the positions compose. */
  lemma PicksCompose(r: seq<Descriptor>, mid: seq<Descriptor>, ds: seq<Descriptor>, q: seq<nat>, p: seq<nat>)
    returns (pq: seq<nat>)
    requires Picks(r, mid, q) && Picks(mid, ds, p)
    ensures Picks(r, ds, pq)
    ensures forall k :: k in pq <==> exists j :: 0 <= j < |p| && p[j] == k && j in q
  {
    pq := seq(|q|, i requires 0 <= i < |q| => p[q[i]]);
    forall k | exists j :: 0 <= j < |p| && p[j] == k && j in q ensures k in pq {
      var j :| 0 <= j < |p| && p[j] == k && j in q;
      var i :| 0 <= i < |q| && q[i] == j;
      assert pq[i] == k;
    }
  }

  /**
   * The candidates of an accepted text are exactly the descriptors it asks for that no claim holds, in descriptor
   * order; a configuration denial means it asks for no descriptor, a capacity denial that claims hold all of them.
   */
  lemma ResolveSpecExactly(spec: string, ds: seq<Descriptor>, claims: seq<Claim>) returns (p: seq<nat>)
    ensures ResolveSpec(spec, ds, claims).Err? <==> ParseMatchSpec(spec).Err?
    ensures ParseMatchSpec(spec).Ok? ==>
              var r := ResolveSpec(spec, ds, claims).value;
              && Picks(r.candidates, ds, p)
              && (forall k :: k in p <==> 0 <= k < |ds| && AsksFor(spec, ds[k]) && Free(ds[k], claims))
              && (r.outcome == Config <==> forall d :: d in ds ==> !AsksFor(spec, d))
              && (r.outcome == Matched <==> r.candidates != [])
  {
    p := [];
    if ParseMatchSpec(spec).Ok? {
      var parsed := ParseMatchSpec(spec).value;
      var matching := Candidates(parsed, ds);
      var claimed := ClaimedBdfs(claims);
      hide AsksFor, DescriptorMatches, ParseMatchSpec, Candidates, Unclaimed;
      forall d ensures DescriptorMatches(parsed, d) <==> AsksFor(spec, d) {
        MatchesExactly(spec, d);
      }
      var inDs := CandidatesInOrder(parsed, ds);
      var inMatching := UnclaimedInOrder(matching, claimed);
      p := PicksCompose(Unclaimed(matching, claimed), matching, ds, inMatching, inDs);
      forall k ensures k in p <==> 0 <= k < |ds| && AsksFor(spec, ds[k]) && Free(ds[k], claims) {
        assert k in inDs <==> 0 <= k < |ds| && AsksFor(spec, ds[k]);
        assert k in inDs ==> (Free(ds[k], claims) <==> ds[k].bdf !in claimed);
      }
      assert matching == [] ==> Unclaimed(matching, claimed) == [] by {
        assert |inMatching| == |Unclaimed(matching, claimed)|;
      }
      forall d | d in ds && AsksFor(spec, d) ensures matching != [] {
        var k :| 0 <= k < |ds| && ds[k] == d;
        assert k in inDs;
      }
      if matching != [] {
        assert inDs[0] in inDs && AsksFor(spec, ds[inDs[0]]);
      }
    }
  }

  /** A spec text that carries the stray newline of a vendor:device pair is denied as absent from the fleet. */
  lemma NewlineVendorDeviceNeverMatches(spec: string, ds: seq<Descriptor>, claims: seq<Claim>)
    requires EndsWithNewline(spec) && IsVendorDevice(Anchored(spec))
    requires forall d :: d in ds ==> |d.deviceId| == 4 && IsHex(d.deviceId)
    ensures ResolveSpec(spec, ds, claims) == Ok(SpecResolution(Config, []))
  {
    var parsed := ParseMatchSpec(spec).value;
    assert |parsed.deviceId| == 5;
    assert forall d :: d in ds ==> !DescriptorMatches(parsed, d);
    assert forall d :: d !in Candidates(parsed, ds);
  }
}

/** Assignments of specs to distinct devices: Hall's obstruction, and how assignability moves with its inputs. */
module PcieMatching {
  import opened Prelude
  import opened PcieSpec

  /** `f` gives every spec a matching device of its own. */
  ghost predicate IsAssignment(specs: seq<MatchSpec>, avail: seq<Descriptor>, f: seq<nat>) {
    && |f| == |specs|
    && (forall i :: 0 <= i < |f| ==> f[i] < |avail| && DescriptorMatches(specs[i], avail[f[i]]))
    && (forall i, j :: 0 <= i < j < |f| ==> f[i] != f[j])
  }

  ghost predicate Assignable(specs: seq<MatchSpec>, avail: seq<Descriptor>) {
    exists f: seq<nat> :: IsAssignment(specs, avail, f)
  }

  /** The specs in `group` can only be served by the fewer devices in `reach`. */
  ghost predicate HallViolator(specs: seq<MatchSpec>, avail: seq<Descriptor>, group: set<nat>, reach: set<nat>) {
    && (forall s :: s in group ==> s < |specs|)
    && (forall s, d: nat :: s in group && d < |avail| && DescriptorMatches(specs[s], avail[d]) ==> d in reach)
    && |reach| < |group|
  }

  lemma HallBlocks(specs: seq<MatchSpec>, avail: seq<Descriptor>, group: set<nat>, reach: set<nat>)
    requires HallViolator(specs, avail, group, reach)
    ensures !Assignable(specs, avail)
  {
    forall f: seq<nat> ensures !IsAssignment(specs, avail, f) {
      if IsAssignment(specs, avail, f) {
        var m := map i: nat | i in group :: f[i];
        ImageSize(m, group);
        SubsetSize(Image(m, group), reach);
      }
    }
  }

  /** `p` embeds `b` into `a`, position by position. */
  ghost predicate Embeds<T>(b: seq<T>, a: seq<T>, p: seq<nat>) {
    && |p| == |b|
    && (forall i :: 0 <= i < |p| ==> p[i] < |a| && a[p[i]] == b[i])
    && (forall i, j :: 0 <= i < j < |p| ==> p[i] != p[j])
  }

  /** `a` with position `k` taken out, and where each remaining position came from. */
  ghost function Without<T>(a: seq<T>, k: nat): seq<T>
    requires k < |a|
  {
    a[..k] + a[k + 1..]
  }

  ghost function CameFrom(k: nat, i: nat): nat {
    if i < k then i else i + 1
  }

  lemma WithoutMultiset<T>(a: seq<T>, k: nat)
    requires k < |a|
    ensures multiset(Without(a, k)) == multiset(a) - multiset{a[k]}
  {
    assert a == a[..k] + [a[k]] + a[k + 1..];
  }

  lemma ExtendEmbedding<T>(b: seq<T>, a: seq<T>, k: nat, q: seq<nat>) returns (p: seq<nat>)
    requires |b| > 0 && k < |a| && a[k] == b[0]
    requires Embeds(b[1..], Without(a, k), q)
    ensures Embeds(b, a, p)
  {
    p := [k] + seq(|q|, i requires 0 <= i < |q| => CameFrom(k, q[i]));
    forall i | 0 <= i < |p| ensures p[i] < |a| && a[p[i]] == b[i] {
      if i > 0 {
        assert Without(a, k)[q[i - 1]] == b[1..][i - 1];
      }
    }
    forall i, j | 0 <= i < j < |p| ensures p[i] != p[j] {
      if i > 0 {
        assert q[i - 1] != q[j - 1];
      }
    }
  }

  /** Multiset inclusion of two sequences comes from an embedding of their positions. */
  lemma {:induction false} EmbeddingExists<T>(b: seq<T>, a: seq<T>) returns (p: seq<nat>)
    requires multiset(b) <= multiset(a)
    ensures Embeds(b, a, p)
    decreases |b|
  {
    if b == [] {
      p := [];
    } else {
      assert b == [b[0]] + b[1..];
      assert b[0] in multiset(a);
      var k :| 0 <= k < |a| && a[k] == b[0];
      WithoutMultiset(a, k);
      assert multiset(b[1..]) == multiset(b) - multiset{b[0]};
      var q := EmbeddingExists(b[1..], Without(a, k));
      p := ExtendEmbedding(b, a, k, q);
    }
  }

  /** An assignment is carried along embeddings: of the new specs into the old, of the old devices into the new. */
  lemma AssignableAlong(specs: seq<MatchSpec>, avail: seq<Descriptor>, specs': seq<MatchSpec>, avail': seq<Descriptor>,
                        p: seq<nat>, q: seq<nat>)
    requires Assignable(specs, avail)
    requires Embeds(specs', specs, p) && Embeds(avail, avail', q)
    ensures Assignable(specs', avail')
  {
    var f: seq<nat> :| IsAssignment(specs, avail, f);
    var g: seq<nat> := seq(|specs'|, i requires 0 <= i < |specs'| => q[f[p[i]]]);
    forall i, j | 0 <= i < j < |g| ensures g[i] != g[j] {
      assert f[p[i]] != f[p[j]];
    }
    assert IsAssignment(specs', avail', g);
  }

  datatype Verdict = Malformed | Decided(outcome: Outcome)

  function ParseAll(specs: seq<string>): (r: Result<seq<MatchSpec>, string>)
    ensures r.Ok? <==> forall i :: 0 <= i < |specs| ==> ParseMatchSpec(specs[i]).Ok?
    ensures r.Ok? ==> |r.value| == |specs|
    ensures r.Ok? ==> forall i :: 0 <= i < |specs| ==> ParseMatchSpec(specs[i]) == Ok(r.value[i])
  {
    if specs == [] then Ok([])
    else
      match ParseMatchSpec(specs[0])
      case Err(e) => Err(e)
      case Ok(first) =>
        match ParseAll(specs[1..])
        case Err(e) => Err(e)
        case Ok(rest) => Ok([first] + rest)
  }

  predicate Servable(spec: MatchSpec, ds: seq<Descriptor>) {
    exists d :: d in ds && DescriptorMatches(spec, d)
  }

  /**
   * What a multiset of specs is due: an error if one is malformed; a configuration denial if one matches no
   * descriptor at all; otherwise a match exactly when distinct free devices can serve every spec.
   */
  ghost function DueVerdict(specs: seq<string>, ds: seq<Descriptor>, claims: seq<Claim>): Verdict {
    match ParseAll(specs)
    case Err(_) => Malformed
    case Ok(parsed) =>
      if exists i :: 0 <= i < |parsed| && !Servable(parsed[i], ds) then Decided(Config)
      else if Assignable(parsed, Unclaimed(ds, ClaimedBdfs(claims))) then Decided(Matched)
      else Decided(Capacity)
  }

  // ---------- the verdict read off the request's texts and the devices' columns ----------

  ghost predicate Accepted(specs: seq<string>) {
    forall i :: 0 <= i < |specs| ==> InGrammar(Anchored(specs[i]))
  }

  /** The text asks for a device of the host. */
  ghost predicate Present(s: string, ds: seq<Descriptor>) {
    exists d :: d in ds && AsksFor(s, d)
  }

  /** `f` gives every text a listed device of its own that it asks for and no claim holds. */
  ghost predicate Answers(specs: seq<string>, ds: seq<Descriptor>, claims: seq<Claim>, f: seq<nat>) {
    && |f| == |specs|
    && (forall i :: 0 <= i < |f| ==> f[i] < |ds| && AsksFor(specs[i], ds[f[i]]) && Free(ds[f[i]], claims))
    && (forall i, j :: 0 <= i < j < |f| ==> f[i] != f[j])
  }

  ghost predicate Answerable(specs: seq<string>, ds: seq<Descriptor>, claims: seq<Claim>) {
    exists f: seq<nat> :: Answers(specs, ds, claims, f)
  }

  lemma AssignableAnswers(specs: seq<string>, ds: seq<Descriptor>, claims: seq<Claim>)
    requires ParseAll(specs).Ok?
    ensures Assignable(ParseAll(specs).value, Unclaimed(ds, ClaimedBdfs(claims))) <==> Answerable(specs, ds, claims)
  {
    hide AsksFor, DescriptorMatches, ParseMatchSpec, Unclaimed, ParseAll;
    var parsed, pool := ParseAll(specs).value, Unclaimed(ds, ClaimedBdfs(claims));
    forall i, d | 0 <= i < |specs| ensures DescriptorMatches(parsed[i], d) <==> AsksFor(specs[i], d) {
      MatchesExactly(specs[i], d);
    }
    var p := UnclaimedInOrder(ds, ClaimedBdfs(claims));
    if Assignable(parsed, pool) {
      var f: seq<nat> :| IsAssignment(parsed, pool, f);
      var g := seq(|f|, i requires 0 <= i < |f| => p[f[i]]);
      forall i | 0 <= i < |g| ensures g[i] < |ds| && AsksFor(specs[i], ds[g[i]]) && Free(ds[g[i]], claims) {
        assert g[i] in p && pool[f[i]] == ds[g[i]];
      }
      assert Answers(specs, ds, claims, g);
    }
    if Answerable(specs, ds, claims) {
      var g: seq<nat> :| Answers(specs, ds, claims, g);
      AnswersAreAssigned(specs, ds, claims, g, p);
    }
  }

  lemma AnswersAreAssigned(specs: seq<string>, ds: seq<Descriptor>, claims: seq<Claim>, g: seq<nat>, p: seq<nat>)
    requires ParseAll(specs).Ok? && Answers(specs, ds, claims, g)
    requires Picks(Unclaimed(ds, ClaimedBdfs(claims)), ds, p)
    requires forall k :: k in p <==> 0 <= k < |ds| && ds[k].bdf !in ClaimedBdfs(claims)
    ensures Assignable(ParseAll(specs).value, Unclaimed(ds, ClaimedBdfs(claims)))
  {
    hide AsksFor, DescriptorMatches, ParseMatchSpec, Unclaimed, ParseAll;
    var parsed, pool := ParseAll(specs).value, Unclaimed(ds, ClaimedBdfs(claims));
    assert forall i :: 0 <= i < |g| ==> g[i] in p;
    var f: seq<nat> := seq(|g|, i requires 0 <= i < |g| => var j: nat :| j < |p| && p[j] == g[i]; j);
    forall i | 0 <= i < |f| ensures f[i] < |pool| && DescriptorMatches(parsed[i], pool[f[i]]) {
      MatchesExactly(specs[i], ds[g[i]]);
      assert p[f[i]] == g[i] && pool[f[i]] == ds[g[i]];
    }
    forall i, j | 0 <= i < j < |f| ensures f[i] != f[j] {
      assert p[f[i]] == g[i] && p[f[j]] == g[j];
    }
    assert IsAssignment(parsed, pool, f);
  }

  /**
   * The verdict without parsing: malformed exactly when a text is outside the accepted grammar; otherwise a
   * configuration denial exactly when some text asks for nothing the host lists, and a match exactly when every text
   * can be given a free device of its own that it asks for.
   */
  lemma VerdictOnText(specs: seq<string>, ds: seq<Descriptor>, claims: seq<Claim>)
    ensures DueVerdict(specs, ds, claims) ==
              if !Accepted(specs) then Malformed
              else if exists i :: 0 <= i < |specs| && !Present(specs[i], ds) then Decided(Config)
              else if Answerable(specs, ds, claims) then Decided(Matched)
              else Decided(Capacity)
  {
    hide AsksFor, DescriptorMatches, Unclaimed, Assignable, Answerable;
    assert Accepted(specs) <==> ParseAll(specs).Ok?;
    if ParseAll(specs).Ok? {
      var parsed := ParseAll(specs).value;
      forall i | 0 <= i < |specs| ensures Servable(parsed[i], ds) <==> Present(specs[i], ds) {
        forall d ensures DescriptorMatches(parsed[i], d) <==> AsksFor(specs[i], d) {
          MatchesExactly(specs[i], d);
        }
      }
      AssignableAnswers(specs, ds, claims);
    }
  }

  lemma UnclaimedSubset(ds: seq<Descriptor>, claimed: set<string>, ds': seq<Descriptor>, claimed': set<string>)
    requires multiset(ds) <= multiset(ds')
    requires claimed' <= claimed
    ensures multiset(Unclaimed(ds, claimed)) <= multiset(Unclaimed(ds', claimed'))
  {
    forall d ensures multiset(Unclaimed(ds, claimed))[d] <= multiset(Unclaimed(ds', claimed'))[d] {
      UnclaimedMultiplicity(ds, claimed, d);
      UnclaimedMultiplicity(ds', claimed', d);
    }
  }

  lemma SubMultisetMembers<T>(a: seq<T>, b: seq<T>)
    requires multiset(a) <= multiset(b)
    ensures forall x :: x in a ==> x in b
  {
    forall x | x in a ensures x in b {
      assert x in multiset(a);
      assert x in multiset(b);
    }
  }

  /** Parsing acts position by position, so it keeps every embedding. */
  lemma ParseAllAlong(specs: seq<string>, specs': seq<string>, p: seq<nat>)
    requires Embeds(specs', specs, p)
    requires ParseAll(specs).Ok?
    ensures ParseAll(specs').Ok?
    ensures Embeds(ParseAll(specs').value, ParseAll(specs).value, p)
  {
    forall i | 0 <= i < |specs'| ensures ParseMatchSpec(specs'[i]) == Ok(ParseAll(specs).value[p[i]]) {
      assert specs'[i] == specs[p[i]];
    }
  }

  /** A match survives dropping specs, dropping claims and adding descriptors. */
  lemma MatchedNeverWorsens(specs: seq<string>, ds: seq<Descriptor>, claims: seq<Claim>,
                            specs': seq<string>, ds': seq<Descriptor>, claims': seq<Claim>)
    requires DueVerdict(specs, ds, claims) == Decided(Matched)
    requires multiset(specs') <= multiset(specs)
    requires multiset(ds) <= multiset(ds')
    requires ClaimedBdfs(claims') <= ClaimedBdfs(claims)
    ensures DueVerdict(specs', ds', claims') == Decided(Matched)
  {
    var p := EmbeddingExists(specs', specs);
    ParseAllAlong(specs, specs', p);
    var avail, avail' := Unclaimed(ds, ClaimedBdfs(claims)), Unclaimed(ds', ClaimedBdfs(claims'));
    UnclaimedSubset(ds, ClaimedBdfs(claims), ds', ClaimedBdfs(claims'));
    var q := EmbeddingExists(avail, avail');
    var parsed, parsed' := ParseAll(specs).value, ParseAll(specs').value;
    AssignableAlong(parsed, avail, parsed', avail', p, q);
    SubMultisetMembers(ds, ds');
    forall i | 0 <= i < |parsed'| ensures Servable(parsed'[i], ds') {
      assert Servable(parsed[p[i]], ds);
    }
  }

  lemma MalformedOrderFree(specs: seq<string>, specs': seq<string>)
    requires multiset(specs') == multiset(specs)
    ensures ParseAll(specs').Ok? <==> ParseAll(specs).Ok?
  {
    var p := EmbeddingExists(specs, specs');
    var p' := EmbeddingExists(specs', specs);
    if ParseAll(specs).Ok? {
      ParseAllAlong(specs, specs', p');
    } else if ParseAll(specs').Ok? {
      ParseAllAlong(specs', specs, p);
    }
  }

  /** A configuration denial is the same for every reordering of the inputs. */
  lemma ConfigOrderFree(specs: seq<string>, ds: seq<Descriptor>, claims: seq<Claim>,
                        specs': seq<string>, ds': seq<Descriptor>, claims': seq<Claim>)
    requires multiset(specs') == multiset(specs)
    requires multiset(ds') == multiset(ds)
    requires DueVerdict(specs, ds, claims) == Decided(Config)
    ensures DueVerdict(specs', ds', claims') == Decided(Config)
  {
    SubMultisetMembers(ds', ds);
    MalformedOrderFree(specs, specs');
    var p := EmbeddingExists(specs, specs');
    ParseAllAlong(specs', specs, p);
    var parsed, parsed' := ParseAll(specs).value, ParseAll(specs').value;
    var i :| 0 <= i < |parsed| && !Servable(parsed[i], ds);
    assert parsed'[p[i]] == parsed[i];
    assert !Servable(parsed'[p[i]], ds');
  }

  /** The verdict does not depend on the order of the specs, the descriptors or the claims. */
  lemma VerdictOrderFree(specs: seq<string>, ds: seq<Descriptor>, claims: seq<Claim>,
                         specs': seq<string>, ds': seq<Descriptor>, claims': seq<Claim>)
    requires multiset(specs') == multiset(specs)
    requires multiset(ds') == multiset(ds)
    requires multiset(claims') == multiset(claims)
    ensures DueVerdict(specs', ds', claims') == DueVerdict(specs, ds, claims)
  {
    SubMultisetMembers(claims, claims');
    SubMultisetMembers(claims', claims);
    assert ClaimedBdfs(claims') == ClaimedBdfs(claims);
    MalformedOrderFree(specs, specs');
    if ParseAll(specs).Err? {
    } else if DueVerdict(specs, ds, claims) == Decided(Config) {
      ConfigOrderFree(specs, ds, claims, specs', ds', claims');
    } else if DueVerdict(specs', ds', claims') == Decided(Config) {
      ConfigOrderFree(specs', ds', claims', specs, ds, claims);
    } else if DueVerdict(specs, ds, claims) == Decided(Matched) {
      MatchedNeverWorsens(specs, ds, claims, specs', ds', claims');
    } else if DueVerdict(specs', ds', claims') == Decided(Matched) {
      MatchedNeverWorsens(specs', ds', claims', specs, ds, claims);
    }
  }

  /** On a single spec the multiset verdict is the single-spec resolver's. */
  lemma SingleSpecAgrees(spec: string, ds: seq<Descriptor>, claims: seq<Claim>)
    ensures ResolveSpec(spec, ds, claims).Err? <==> DueVerdict([spec], ds, claims).Malformed?
    ensures ResolveSpec(spec, ds, claims).Ok? ==>
              DueVerdict([spec], ds, claims) == Decided(ResolveSpec(spec, ds, claims).value.outcome)
  {
    assert [spec][0] == spec;
    if ParseMatchSpec(spec).Ok? {
      var parsed := ParseMatchSpec(spec).value;
      assert ParseAll([spec]).value == [parsed];
      var claimed := ClaimedBdfs(claims);
      var matching := Candidates(parsed, ds);
      var avail := Unclaimed(ds, claimed);
      var free := Unclaimed(matching, claimed);
      assert Servable(parsed, ds) <==> matching != [] by {
        if matching != [] { assert matching[0] in ds; }
      }
      assert Assignable([parsed], avail) <==> free != [] by {
        if free != [] {
          assert free[0] in avail;
          var k :| 0 <= k < |avail| && avail[k] == free[0];
          assert IsAssignment([parsed], avail, [k]);
        }
        if Assignable([parsed], avail) {
          var f: seq<nat> :| IsAssignment([parsed], avail, f);
          assert avail[f[0]] in free;
        }
      }
    }
  }
}

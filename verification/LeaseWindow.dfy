/** Lease windows at admission and renewal. Instants and spans are whole microseconds; hours are exact. */
module LeaseWindow {
  import opened Prelude

  const MicrosPerSecond := 1_000_000
  const MicrosPerHour := 3_600_000_000

  datatype Bounds = Bounds(defaultHours: real, maxHours: real)

  /** A requested window: left out, not a number, NaN or infinite, or a number of hours. */
  datatype Window = Omitted | NotANumber | NotFinite | Hours(hours: real)

  function ResolveWindowHours(window: Window, bounds: Bounds): Result<real, string> {
    match window
    case Omitted => Ok(bounds.defaultHours)
    case NotANumber => Err("configuration_error")
    case NotFinite => Err("configuration_error")
    case Hours(h) =>
      if h <= 0.0 then Err("configuration_error")
      else Ok(if h <= bounds.maxHours then h else bounds.maxHours)
  }

  /**
   * A granted window is within the maximum for every request exactly when the default is: the default is not clamped.
   */
  lemma WindowsWithinMax(bounds: Bounds)
    ensures (forall w :: ResolveWindowHours(w, bounds).Ok? ==> ResolveWindowHours(w, bounds).value <= bounds.maxHours)
              <==> bounds.defaultHours <= bounds.maxHours
    ensures bounds.defaultHours > 0.0 && bounds.maxHours > 0.0 ==>
              forall w :: ResolveWindowHours(w, bounds).Ok? ==> ResolveWindowHours(w, bounds).value > 0.0
  {
    assert ResolveWindowHours(Omitted, bounds) == Ok(bounds.defaultHours);
  }

  /** What is granted: the default when none is asked for, else the request up to the maximum; only a positive one. */
  lemma WindowGranted(h: real, bounds: Bounds)
    requires bounds.maxHours > 0.0
    ensures ResolveWindowHours(Omitted, bounds) == Ok(bounds.defaultHours)
    ensures ResolveWindowHours(NotANumber, bounds).Err? && ResolveWindowHours(NotFinite, bounds).Err?
    ensures var r := ResolveWindowHours(Hours(h), bounds);
      && (r.Ok? <==> h > 0.0)
      && (r.Ok? ==> 0.0 < r.value <= h && r.value <= bounds.maxHours && (r.value < bounds.maxHours ==> r.value == h))
  {
  }

  /** Conversion to whole seconds drops the fraction. */
  function WholeSeconds(hours: real): int {
    var s := hours * 3600.0;
    if s >= 0.0 then s.Floor else -(-s).Floor
  }

  function Span(hours: real): int {
    WholeSeconds(hours) * MicrosPerSecond
  }

  /** A span is the hours in microseconds, less a fraction of a second. */
  lemma SpanExactly(hours: real)
    ensures hours >= 0.0 ==> 0.0 <= hours * MicrosPerHour as real - Span(hours) as real < MicrosPerSecond as real
    ensures hours < 0.0 ==> 0.0 <= Span(hours) as real - hours * MicrosPerHour as real < MicrosPerSecond as real
    ensures Span(hours) % MicrosPerSecond == 0
  {
    var s := hours * 3600.0;
    assert hours * MicrosPerHour as real == s * MicrosPerSecond as real;
  }

  datatype Extension = Extension(addedHours: real, newExpiry: int)

  function Min(a: int, b: int): int {
    if a <= b then a else b
  }

  function Max(a: int, b: int): int {
    if a >= b then a else b
  }

  function ClampExtensionHours(expiry: int, requested: real, now: int, maxHours: real): Extension {
    var ceiling := now + Span(maxHours);
    var target := expiry + Span(requested);
    var newExpiry := Min(target, ceiling);
    var base := Max(now, expiry);
    if newExpiry <= base then Extension(0.0, expiry)
    else Extension((newExpiry - base) as real / MicrosPerHour as real, newExpiry)
  }

  /**
   * Nothing is added exactly when the lease is at the cap, the request or the maximum is shorter than a second, or
   * the lease lapsed at least the requested span ago. The documentation promises only the first.
   */
  lemma NothingAddedExactly(expiry: int, requested: real, now: int, maxHours: real)
    ensures ClampExtensionHours(expiry, requested, now, maxHours).addedHours == 0.0 <==>
              || expiry >= now + Span(maxHours)
              || Span(requested) <= 0
              || Span(maxHours) <= 0
              || expiry + Span(requested) <= now
  {
    var x := Min(expiry + Span(requested), now + Span(maxHours)) - Max(now, expiry);
    if x > 0 {
      assert (x as real) / (MicrosPerHour as real) > 0.0;
    }
  }

  /**
   * An effective renewal grants the whole request unless the cap is in the way: it never reaches past the request or
   * the cap, and short of the cap it reaches the request. It bills from the later of now and the old expiry.
   */
  lemma GrantedExactly(expiry: int, requested: real, now: int, maxHours: real)
    ensures var x := ClampExtensionHours(expiry, requested, now, maxHours);
      && (x.addedHours == 0.0 ==> x.newExpiry == expiry)
      && (x.addedHours != 0.0 ==>
            && x.newExpiry <= expiry + Span(requested) && x.newExpiry <= now + Span(maxHours)
            && (x.newExpiry < now + Span(maxHours) ==> x.newExpiry == expiry + Span(requested))
            && x.addedHours * MicrosPerHour as real == (x.newExpiry - (if now > expiry then now else expiry)) as real)
      && (requested >= 0.0 ==> x.newExpiry <= expiry + Span(requested))
  {
    SpanExactly(requested);
    var d := ClampExtensionHours(expiry, requested, now, maxHours).newExpiry - Max(now, expiry);
    if d > 0 {
      HourShare(d);
    }
  }

  /** A lease that lapsed two hours ago cannot be renewed by one hour, though it is nowhere near the cap. */
  lemma LapsedShortRenewalAddsNothing()
    ensures ClampExtensionHours(0, 1.0, 2 * MicrosPerHour, 24.0) == Extension(0.0, 0)
  {
    assert WholeSeconds(1.0) == 3600 && WholeSeconds(24.0) == 86400;
  }

  // ---------- sequences of renewals ----------

  datatype Renewal = Renewal(now: int, hours: real)

  /** What one renewal bills: the span from `start` to `end`, at `hours`. */
  datatype Bill = Bill(start: int, end: int, hours: real)

  function BillOf(expiry: int, r: Renewal, maxHours: real): seq<Bill> {
    var x := ClampExtensionHours(expiry, r.hours, r.now, maxHours);
    if x.addedHours == 0.0 then [] else [Bill(Max(r.now, expiry), x.newExpiry, x.addedHours)]
  }

  function ExpiryAfter(expiry: int, rs: seq<Renewal>, maxHours: real): int
    decreases |rs|
  {
    if rs == [] then expiry
    else ExpiryAfter(ClampExtensionHours(expiry, rs[0].hours, rs[0].now, maxHours).newExpiry, rs[1..], maxHours)
  }

  function Bills(expiry: int, rs: seq<Renewal>, maxHours: real): seq<Bill>
    decreases |rs|
  {
    if rs == [] then []
    else
      BillOf(expiry, rs[0], maxHours) +
      Bills(ClampExtensionHours(expiry, rs[0].hours, rs[0].now, maxHours).newExpiry, rs[1..], maxHours)
  }

  /** The dead time between expiry and renewal that effective renewals skip. */
  function SkippedGaps(expiry: int, rs: seq<Renewal>, maxHours: real): int
    decreases |rs|
  {
    if rs == [] then 0
    else
      (if BillOf(expiry, rs[0], maxHours) == [] then 0 else Max(0, rs[0].now - expiry)) +
      SkippedGaps(ClampExtensionHours(expiry, rs[0].hours, rs[0].now, maxHours).newExpiry, rs[1..], maxHours)
  }

  function BilledTime(bills: seq<Bill>): int {
    if bills == [] then 0 else bills[0].end - bills[0].start + BilledTime(bills[1..])
  }

  function BilledHours(bills: seq<Bill>): real {
    if bills == [] then 0.0 else bills[0].hours + BilledHours(bills[1..])
  }

  /**
   * One renewal: the expiry never moves back, and a bill runs from the old coverage to the new expiry, within the cap.
   */
  lemma OneRenewal(expiry: int, r: Renewal, maxHours: real)
    ensures var x := ClampExtensionHours(expiry, r.hours, r.now, maxHours); var b := BillOf(expiry, r, maxHours);
      && expiry <= x.newExpiry
      && (b == [] ==> x.newExpiry == expiry)
      && (b != [] ==>
            && |b| == 1 && expiry <= b[0].start < b[0].end == x.newExpiry <= r.now + Span(maxHours)
            && r.now <= b[0].start && b[0].start == expiry + Max(0, r.now - expiry)
            && b[0].hours * MicrosPerHour as real == (b[0].end - b[0].start) as real)
  {
    var x := ClampExtensionHours(expiry, r.hours, r.now, maxHours);
    var d := x.newExpiry - Max(r.now, expiry);
    if x.newExpiry > Max(r.now, expiry) {
      HourShare(d);
    }
  }

  lemma HourShare(d: int)
    requires d > 0
    ensures (d as real) / (MicrosPerHour as real) > 0.0
    ensures (d as real) / (MicrosPerHour as real) * (MicrosPerHour as real) == d as real
  {
  }

  /** Non-empty spans in order, none overlapping another, all between `low` and `high`. */
  ghost predicate Disjoint(bills: seq<Bill>, low: int, high: int) {
    && (forall b :: b in bills ==> low <= b.start < b.end <= high)
    && (forall i, j :: 0 <= i < j < |bills| ==> bills[i].end <= bills[j].start)
  }

  lemma PrependDisjoint(b: Bill, bills: seq<Bill>, low: int, high: int)
    requires Disjoint(bills, b.end, high) && low <= b.start < b.end <= high
    ensures Disjoint([b] + bills, low, high)
  {
    forall i, j | 0 <= i < j < |[b] + bills| ensures ([b] + bills)[i].end <= ([b] + bills)[j].start {
      assert ([b] + bills)[j] == bills[j - 1] && bills[j - 1] in bills;
    }
  }

  /** No instant is billed twice, and the expiry never moves back. */
  lemma {:induction false} BillsDisjoint(expiry: int, rs: seq<Renewal>, maxHours: real)
    ensures expiry <= ExpiryAfter(expiry, rs, maxHours)
    ensures Disjoint(Bills(expiry, rs, maxHours), expiry, ExpiryAfter(expiry, rs, maxHours))
    decreases |rs|
  {
    hide ClampExtensionHours, BillOf;
    if rs != [] {
      OneRenewal(expiry, rs[0], maxHours);
      var next := ClampExtensionHours(expiry, rs[0].hours, rs[0].now, maxHours).newExpiry;
      BillsDisjoint(next, rs[1..], maxHours);
      var first, rest := BillOf(expiry, rs[0], maxHours), Bills(next, rs[1..], maxHours);
      if first == [] {
        assert first + rest == rest;
      } else {
        assert first == [first[0]];
        PrependDisjoint(first[0], rest, expiry, ExpiryAfter(expiry, rs, maxHours));
      }
    }
  }

  /** Conservation: billed time is the growth of the expiry less the lapsed gaps, and the billed hours are that time. */
  lemma {:induction false} BillingConserved(expiry: int, rs: seq<Renewal>, maxHours: real)
    ensures BilledTime(Bills(expiry, rs, maxHours)) ==
              ExpiryAfter(expiry, rs, maxHours) - expiry - SkippedGaps(expiry, rs, maxHours)
    ensures BilledHours(Bills(expiry, rs, maxHours)) * MicrosPerHour as real == BilledTime(Bills(expiry, rs, maxHours)) as real
    decreases |rs|
  {
    if rs != [] {
      OneRenewal(expiry, rs[0], maxHours);
      var next := ClampExtensionHours(expiry, rs[0].hours, rs[0].now, maxHours).newExpiry;
      BillingConserved(next, rs[1..], maxHours);
      var first, rest := BillOf(expiry, rs[0], maxHours), Bills(next, rs[1..], maxHours);
      if first == [] {
        assert Bills(expiry, rs, maxHours) == rest;
      } else {
        assert Bills(expiry, rs, maxHours) == [first[0]] + rest;
        assert ([first[0]] + rest)[1..] == rest;
      }
    }
  }

  /** No extension reaches past its own renewal time plus the maximum window. */
  lemma {:induction false} ExtensionsWithinCap(expiry: int, rs: seq<Renewal>, maxHours: real, k: nat)
    requires k < |rs|
    ensures var before := ExpiryAfter(expiry, rs[..k], maxHours); var after := ExpiryAfter(expiry, rs[..k + 1], maxHours);
      before <= after && (after > before ==> after <= rs[k].now + Span(maxHours))
    decreases |rs|
  {
    var next := ClampExtensionHours(expiry, rs[0].hours, rs[0].now, maxHours).newExpiry;
    OneRenewal(expiry, rs[0], maxHours);
    assert rs[..k + 1][0] == rs[0] && rs[..k + 1][1..] == rs[1..][..k];
    if k == 0 {
      assert rs[1..][..0] == [];
    } else {
      assert rs[..k][0] == rs[0] && rs[..k][1..] == rs[1..][..k - 1];
      ExtensionsWithinCap(next, rs[1..], maxHours, k - 1);
    }
  }
}

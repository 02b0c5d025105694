/** Object keys of the chunks of an artifact. */
module ChunkKeys {
  import opened Prelude

  function DigitChar(d: nat): char
    requires d < 10
  {
    ('0' as int + d) as char
  }

  function Digits(n: nat): string {
    if n < 10 then [DigitChar(n)] else Digits(n / 10) + [DigitChar(n % 10)]
  }

  function ZeroPad(s: string): string
    decreases 4 - |s|
  {
    if |s| >= 4 then s else ZeroPad("0" + s)
  }

  /** The key of chunk `part`, counted from 1; a part number below 1 is refused. */
  function ChunkKey(prefix: string, name: string, part: int): Result<string, string> {
    if part < 1 then Err("configuration_error") else Ok(prefix + name + ".part" + ZeroPad(Digits(part)))
  }

  predicate AllDigits(s: string) {
    forall i :: 0 <= i < |s| ==> '0' <= s[i] <= '9'
  }

  /** The number a string of decimal digits writes. */
  function Number(s: string): nat
    requires AllDigits(s)
  {
    if s == [] then 0 else 10 * Number(s[..|s| - 1]) + (s[|s| - 1] as nat - '0' as nat)
  }

  lemma {:induction false} DigitsRoundTrip(n: nat)
    ensures AllDigits(Digits(n)) && Number(Digits(n)) == n
  {
    if n >= 10 {
      DigitsRoundTrip(n / 10);
      assert Digits(n)[..|Digits(n)| - 1] == Digits(n / 10);
    } else {
      assert Digits(n)[..0] == [];
    }
  }

  lemma {:induction false} LeadingZero(s: string)
    requires AllDigits(s)
    ensures AllDigits("0" + s) && Number("0" + s) == Number(s)
    decreases |s|
  {
    if s == [] {
      assert ("0" + s)[..0] == [];
    } else {
      LeadingZero(s[..|s| - 1]);
      assert ("0" + s)[..|s|] == "0" + s[..|s| - 1];
    }
  }

  lemma {:induction false} ZeroPadKeepsNumber(s: string)
    requires AllDigits(s)
    ensures AllDigits(ZeroPad(s)) && Number(ZeroPad(s)) == Number(s)
    decreases 4 - |s|
  {
    if |s| < 4 {
      LeadingZero(s);
      ZeroPadKeepsNumber("0" + s);
    }
  }

  lemma {:induction false} ZeroPadLength(s: string)
    ensures |ZeroPad(s)| == if |s| >= 4 then |s| else 4
    decreases 4 - |s|
  {
    if |s| < 4 {
      ZeroPadLength("0" + s);
    }
  }

  /** A key is the prefix, the name and ".part" with the part number in at least four digits, in four up to 9999. */
  lemma ChunkKeyFormat(prefix: string, name: string, part: int) returns (digits: string)
    ensures ChunkKey(prefix, name, part).Ok? <==> part >= 1
    ensures part >= 1 ==>
              && ChunkKey(prefix, name, part).value == prefix + name + ".part" + digits
              && AllDigits(digits) && Number(digits) == part
              && |digits| >= 4 && (|digits| == 4 <==> part <= 9999)
  {
    digits := "";
    if part >= 1 {
      digits := ZeroPad(Digits(part));
      DigitsRoundTrip(part);
      ZeroPadKeepsNumber(Digits(part));
      ZeroPadLength(Digits(part));
      DigitsWithin(part, 4);
      assert Power10(4) == 10 * Power10(3) == 100 * Power10(2) == 1000 * Power10(1) == 10000;
    }
  }

  function Power10(k: nat): nat {
    if k == 0 then 1 else 10 * Power10(k - 1)
  }

  lemma DigitsNonEmpty(n: nat)
    ensures |Digits(n)| >= 1
  {
  }

  /** A number has at most `k` digits exactly when it is below the `k`-th power of ten. */
  lemma {:induction false} DigitsWithin(n: nat, k: nat)
    requires k >= 1
    ensures |Digits(n)| <= k <==> n < Power10(k)
    ensures Power10(k) >= 10
    decreases k
  {
    DigitsNonEmpty(n / 10);
    if k == 1 {
      assert Power10(1) == 10 * Power10(0);
    } else {
      DigitsWithin(n / 10, k - 1);
    }
  }

  /** Splitting at the last dot is unique. */
  lemma LastDotSplits(a: string, x: string, b: string, y: string)
    requires a + "." + x == b + "." + y && '.' !in x && '.' !in y
    ensures a == b && x == y
  {
    var s := a + "." + x;
    assert |a| + 1 + |x| == |s| == |b| + 1 + |y|;
    assert s[|a|] == '.' && s[|b|] == '.';
    forall k | |a| < k < |s| ensures s[k] != '.' {
      assert s[k] == x[k - |a| - 1];
    }
    forall k | |b| < k < |s| ensures s[k] != '.' {
      assert s[k] == y[k - |b| - 1];
    }
    assert s[|a| + 1..] == x && s[|b| + 1..] == y;
    assert a == s[..|a|] && b == s[..|b|];
  }

  /** Under one prefix, no two chunks share a key, whatever the names and part numbers. */
  lemma ChunkKeyInjective(prefix: string, name: string, part: int, name': string, part': int)
    requires part >= 1 && part' >= 1
    requires ChunkKey(prefix, name, part) == ChunkKey(prefix, name', part')
    ensures name == name' && part == part'
  {
    var d, d' := ZeroPad(Digits(part)), ZeroPad(Digits(part'));
    DigitsRoundTrip(part);
    DigitsRoundTrip(part');
    ZeroPadKeepsNumber(Digits(part));
    ZeroPadKeepsNumber(Digits(part'));
    assert prefix + name + ".part" + d == prefix + name + "." + ("part" + d);
    assert prefix + name' + ".part" + d' == prefix + name' + "." + ("part" + d');
    LastDotSplits(prefix + name, "part" + d, prefix + name', "part" + d');
    assert name == (prefix + name)[|prefix|..] && name' == (prefix + name')[|prefix|..];
    assert d == ("part" + d)[4..] && d' == ("part" + d')[4..];
  }
}

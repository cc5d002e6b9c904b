/** Message keys. The store names each message after its insertion time,
    formatted with Go's `time.RFC3339Nano` layout, and relies on bbolt's
    byte order of keys for two things: listing messages oldest first, and
    deleting every message up to a cutoff by comparing keys with the cutoff
    formatted the same way.

    The layout writes the date and time of day to the second at a fixed
    width ("2006-01-02T15:04:05"), then the fraction of the second with its
    trailing zeros removed — and with the dot removed too when the fraction
    is zero — then the zone: "Z" for any zero UTC offset, "+hh:mm" or
    "-hh:mm" otherwise. Because the fraction's width varies, byte order is
    not time order when the suffix is "Z": 'Z' sorts after '.' and after
    every digit, so a fraction followed by "Z" sorts after every longer
    fraction that begins with its digits. `KeyAsWritten`
    models that layout and the lemmas below exhibit the inversion;
    `KeyFixed` writes all nine fraction digits, and for it byte order is
    proved to be time order. */
module Keys {
  import Lex
  import Store

  function Pow10(n: nat): (p: nat)
    ensures p >= 1
  {
    if n == 0 then 1 else 10 * Pow10(n - 1)
  }

  /** Nanoseconds within one second. */
  const Second: nat := 1_000_000_000

  lemma SecondIsPow10()
    ensures Pow10(9) == Second
    ensures Pow10(8) == 100_000_000
  {
  }

  function DigitChar(d: nat): (c: char)
    requires d < 10
    ensures '0' <= c <= '9'
  {
    (48 + d) as char
  }

  /** `n` as exactly `w` decimal digits, zero padded, most significant
      first. */
  function Digits(n: nat, w: nat): (s: string)
    requires n < Pow10(w)
    ensures |s| == w
    ensures forall i :: 0 <= i < w ==> '0' <= s[i] <= '9'
    decreases w
  {
    if w == 0 then "" else Digits(n / 10, w - 1) + [DigitChar(n % 10)]
  }

  /** The number a string of decimal digits denotes. */
  function Value(s: string): (n: nat)
    requires forall i :: 0 <= i < |s| ==> '0' <= s[i] <= '9'
    ensures n < Pow10(|s|)
  {
    if |s| == 0 then 0
    else 10 * Value(s[..|s| - 1]) + (s[|s| - 1] as int - 48)
  }

  /** Reading the digits back gives the number: `Digits` loses nothing. */
  lemma {:induction false} DigitsRoundTrip(n: nat, w: nat)
    requires n < Pow10(w)
    ensures Value(Digits(n, w)) == n
    decreases w
  {
    if w > 0 {
      DigitsRoundTrip(n / 10, w - 1);
      var s := Digits(n, w);
      assert s[..w - 1] == Digits(n / 10, w - 1);
    }
  }

  /** Two one-character strings compare like their characters. */
  lemma LeSingle(c: char, d: char)
    ensures Lex.Le([c], [d]) <==> c <= d
  {
    assert [c][1..] == [] && [d][1..] == [];
  }

  /** Fixed-width digit strings compare like the numbers they write. */
  lemma {:induction false} DigitsOrder(a: nat, b: nat, w: nat)
    requires a < Pow10(w) && b < Pow10(w)
    ensures Lex.Le(Digits(a, w), Digits(b, w)) <==> a <= b
    decreases w
  {
    if w > 0 {
      var x, y := Digits(a / 10, w - 1), Digits(b / 10, w - 1);
      var c, d := DigitChar(a % 10), DigitChar(b % 10);
      assert Digits(a, w) == x + [c] && Digits(b, w) == y + [d];
      if a / 10 == b / 10 {
        Lex.LeCommonPrefix(x, [c], [d]);
        LeSingle(c, d);
      } else {
        DigitsOrder(a / 10, b / 10, w - 1);
        DigitsRoundTrip(a / 10, w - 1);
        DigitsRoundTrip(b / 10, w - 1);
        SameLengthFirst(x, y, [c], [d]);
      }
    }
  }

  /** Between strings of the same length that differ, what follows them
      does not matter. */
  lemma {:induction false} SameLengthFirst(x: string, y: string, a: string, b: string)
    requires |x| == |y| && x != y
    ensures Lex.Le(x + a, y + b) <==> Lex.Le(x, y)
    decreases |x|
  {
    assert |x| > 0;
    assert (x + a)[0] == x[0] && (y + b)[0] == y[0];
    if x[0] == y[0] {
      assert x[1..] != y[1..] by {
        assert x == [x[0]] + x[1..] && y == [y[0]] + y[1..];
      }
      SameLengthFirst(x[1..], y[1..], a, b);
      assert (x + a)[1..] == x[1..] + a && (y + b)[1..] == y[1..] + b;
    }
  }

  /** `w` zeros. */
  function Zeros(w: nat): (z: string)
    ensures |z| == w && forall i :: 0 <= i < w ==> z[i] == '0'
  {
    seq(w, _ => '0')
  }

  /** The digits with their trailing zeros removed. */
  function TrimZeros(s: string): (r: string)
    ensures |r| <= |s| && r == s[..|r|]
    ensures r == [] || r[|r| - 1] != '0'
    ensures forall i :: |r| <= i < |s| ==> s[i] == '0'
  {
    if |s| > 0 && s[|s| - 1] == '0' then TrimZeros(s[..|s| - 1]) else s
  }

  /** Padding the trimmed digits with zeros to their old width restores
      them: trimming drops only trailing zeros. */
  lemma TrimZerosPads(s: string)
    ensures TrimZeros(s) + Zeros(|s| - |TrimZeros(s)|) == s
  {
    var r := TrimZeros(s);
    var z := Zeros(|s| - |r|);
    assert forall i :: 0 <= i < |s| ==> (r + z)[i] == s[i] by {
      forall i | 0 <= i < |s| ensures (r + z)[i] == s[i] {
        if i < |r| { assert (r + z)[i] == r[i] == s[..|r|][i]; }
      }
    }
  }

  /** `TrimZeros` undoes zero padding of a string that does not end in
      zero. */
  lemma {:induction false} TrimZerosOfPadded(s: string, w: nat)
    requires s != [] && s[|s| - 1] != '0'
    ensures TrimZeros(s + Zeros(w)) == s
  {
    if w == 0 {
      assert s + Zeros(0) == s;
    } else {
      TrimZerosOfPadded(s, w - 1);
      assert (s + Zeros(w))[..|s| + w - 1] == s + Zeros(w - 1);
    }
  }

  /** Zero written in `w` digits is `w` zeros. */
  lemma {:induction false} ZeroDigits(w: nat)
    ensures Digits(0, w) == Zeros(w)
  {
    if w > 0 {
      ZeroDigits(w - 1);
    }
  }

  /** A string of zeros denotes zero. */
  lemma {:induction false} AllZerosValue(s: string)
    requires forall i :: 0 <= i < |s| ==> s[i] == '0'
    ensures Value(s) == 0
  {
    if |s| > 0 {
      AllZerosValue(s[..|s| - 1]);
    }
  }

  /** A number that is not zero keeps a digit after its trailing zeros go. */
  lemma NonZeroSurvivesTrim(n: nat, w: nat)
    requires 0 < n < Pow10(w)
    ensures TrimZeros(Digits(n, w)) != []
  {
    var d := Digits(n, w);
    DigitsRoundTrip(n, w);
    if TrimZeros(d) == [] {
      AllZerosValue(d);
    }
  }

  /** Appending a zero digit multiplies by ten. */
  lemma DigitsTimesTen(n: nat, w: nat)
    requires n < Pow10(w)
    ensures Digits(10 * n, w + 1) == Digits(n, w) + "0"
  {
  }

  /** The fraction of a second as the RFC3339Nano layout writes it: nothing
      for a whole second, otherwise a dot and the nine digits without their
      trailing zeros. */
  function FracAsWritten(nanos: nat): (f: string)
    requires nanos < Second
    ensures nanos == 0 <==> f == ""
    ensures f != "" ==> f[0] == '.' && 2 <= |f| <= 10 && f[|f| - 1] != '0'
    ensures f != "" ==> f[1..] + Zeros(10 - |f|) == Digits(nanos, 9)
  {
    SecondIsPow10();
    if nanos == 0 then ""
    else
      NonZeroSurvivesTrim(nanos, 9);
      TrimZerosPads(Digits(nanos, 9));
      assert ("." + TrimZeros(Digits(nanos, 9)))[1..] == TrimZeros(Digits(nanos, 9));
      "." + TrimZeros(Digits(nanos, 9))
  }

  /** A key as `insert` writes it and as `removeOldest` writes its cutoff:
      `stamp` is the fixed-width date and time to the second, `nanos` the
      fraction of the second, `zone` the zone suffix. */
  function KeyAsWritten(stamp: string, nanos: nat, zone: string): (k: string)
    requires nanos < Second
    ensures nanos == 0 ==> k == stamp + zone
    ensures nanos != 0 ==> |stamp| + 2 + |zone| <= |k| <= |stamp| + 10 + |zone|
    ensures k[..|stamp|] == stamp && k[|k| - |zone|..] == zone
    ensures nanos != 0 ==> k[|k| - |zone| - 1] != '0'
    ensures nanos != 0 ==>
      var digits := k[|stamp| + 1..|k| - |zone|];
      k[|stamp|] == '.' && digits + Zeros(9 - |digits|) == Digits(nanos, 9)
  {
    SecondIsPow10();
    var f := FracAsWritten(nanos);
    ThreeParts(stamp, f, zone);
    stamp + f + zone
  }

  /** The three parts of a key can be read back by position. */
  lemma ThreeParts(a: string, f: string, z: string)
    ensures var k := a + f + z;
      && k[..|a|] == a && k[|k| - |z|..] == z
      && (f != [] ==> k[|a|] == f[0] && k[|a| + 1..|k| - |z|] == f[1..] && k[|k| - |z| - 1] == f[|f| - 1])
  {
    var k := a + f + z;
    assert k[..|a|] == a;
    assert k[|k| - |z|..] == z;
    if f != [] {
      assert k[|a|] == f[0];
      assert k[|a| + 1..|k| - |z|] == f[1..];
      assert k[|k| - |z| - 1] == f[|f| - 1];
    }
  }

  /** Half a second past a whole second is written ".5". */
  lemma HalfSecondWritten(stamp: string, zone: string)
    ensures KeyAsWritten(stamp, 500_000_000, zone) == stamp + ".5" + zone
  {
    HalfSecondFraction();
  }

  /** Half a second as a fraction: the single digit 5. */
  lemma HalfSecondFraction()
    ensures FracAsWritten(500_000_000) == ".5"
  {
    SecondIsPow10();
    assert Digits(5, 1) == "5";
    DigitsTimesTen(5, 1);
    DigitsTimesTen(50, 2);
    DigitsTimesTen(500, 3);
    DigitsTimesTen(5_000, 4);
    DigitsTimesTen(50_000, 5);
    DigitsTimesTen(500_000, 6);
    DigitsTimesTen(5_000_000, 7);
    DigitsTimesTen(50_000_000, 8);
    assert Digits(500_000_000, 9) == "5" + Zeros(8);
    TrimZerosOfPadded("5", 8);
  }

  /** The inversion: with the zero-offset suffix "Z", the key of a message written half
      a second after a whole second sorts strictly before the key of that
      whole second. */
  lemma UtcKeysOutOfTimeOrder(stamp: string)
    ensures Lex.Lt(KeyAsWritten(stamp, 500_000_000, "Z"), KeyAsWritten(stamp, 0, "Z"))
  {
    HalfSecondWritten(stamp, "Z");
    Lex.LeCommonPrefix(stamp, ".5Z", "Z");
    assert stamp + ".5" + "Z" == stamp + ".5Z";
    assert stamp + ".5Z" != stamp + "Z" by {
      assert (stamp + ".5Z")[|stamp|] == '.';
      assert |stamp + "Z"| == |stamp| + 1;
    }
  }

  /** The general form of the inversion: under "Z", a key sorts after every
      key of the same stamp whose fraction extends its own (`more` is the
      extra dot and digits), so ".5Z" sorts after ".50001Z" and a whole
      second's "Z" after every ".dddZ". */
  lemma ZKeyAfterLongerFraction(prefix: string, more: string)
    requires more != [] && forall i :: 0 <= i < |more| ==> more[i] == '.' || '0' <= more[i] <= '9'
    ensures Lex.Lt(prefix + more + "Z", prefix + "Z")
  {
    Lex.LeCommonPrefix(prefix, more + "Z", "Z");
    assert (more + "Z")[0] == more[0] < 'Z';
    assert prefix + more + "Z" == prefix + (more + "Z");
    assert |prefix + more + "Z"| > |prefix + "Z"|;
  }

  /** What that does to `retrieve`: two messages written at a whole second
      and half a second later are listed later one first. */
  lemma UtcListingOutOfTimeOrder(stamp: string)
    ensures var early, late := KeyAsWritten(stamp, 0, "Z"), KeyAsWritten(stamp, 500_000_000, "Z");
      Lex.Listing([late, early], {early, late})
  {
    UtcKeysOutOfTimeOrder(stamp);
  }

  /** What that does to `removeOldest`: pruning at a whole second deletes a
      message written half a second later. */
  lemma PruneAtWholeSecondDeletesLater(db: Store.Db, cubby: string, stamp: string)
    requires cubby in db && KeyAsWritten(stamp, 500_000_000, "Z") in db[cubby]
    ensures var after := Store.RemoveOldest(db, cubby, KeyAsWritten(stamp, 0, "Z"), Store.Commits).value;
      KeyAsWritten(stamp, 500_000_000, "Z") !in after[cubby]
  {
    UtcKeysOutOfTimeOrder(stamp);
  }

  /** A key with all nine fraction digits written. */
  function KeyFixed(stamp: string, nanos: nat, zone: string): (k: string)
    requires nanos < Second
    ensures |k| == |stamp| + 10 + |zone|
  {
    SecondIsPow10();
    stamp + (['.'] + (Digits(nanos, 9) + zone))
  }

  /** Comparing keys that share a stamp and zone compares their times. */
  lemma FixedKeysInTimeOrder(stamp: string, n1: nat, n2: nat, zone: string)
    requires n1 < Second && n2 < Second
    ensures Lex.Le(KeyFixed(stamp, n1, zone), KeyFixed(stamp, n2, zone)) <==> n1 <= n2
  {
    SecondIsPow10();
    var d1, d2 := Digits(n1, 9), Digits(n2, 9);
    Lex.LeCommonPrefix(stamp, ['.'] + (d1 + zone), ['.'] + (d2 + zone));
    Lex.LeCommonPrefix(['.'], d1 + zone, d2 + zone);
    DigitsOrder(n1, n2, 9);
    if d1 == d2 {
      Lex.LeReflexive(d1);
      Lex.LeReflexive(d1 + zone);
    } else {
      SameLengthFirst(d1, d2, zone, zone);
    }
  }

  /** Keys with the same zone and fixed-width stamps order by stamp first
      and then by fraction: the key order is the time order whenever the
      stamp order is. */
  lemma FixedKeysOrder(s1: string, n1: nat, s2: string, n2: nat, zone: string)
    requires n1 < Second && n2 < Second && |s1| == |s2|
    ensures Lex.Le(KeyFixed(s1, n1, zone), KeyFixed(s2, n2, zone)) <==>
      (s1 != s2 && Lex.Le(s1, s2)) || (s1 == s2 && n1 <= n2)
  {
    if s1 == s2 {
      FixedKeysInTimeOrder(s1, n1, n2, zone);
    } else {
      FixedKeysByStamp(s1, n1, s2, n2, zone);
    }
  }

  /** Keys whose stamps differ compare like their stamps. */
  lemma FixedKeysByStamp(s1: string, n1: nat, s2: string, n2: nat, zone: string)
    requires n1 < Second && n2 < Second && |s1| == |s2| && s1 != s2
    ensures Lex.Le(KeyFixed(s1, n1, zone), KeyFixed(s2, n2, zone)) <==> Lex.Le(s1, s2)
  {
    SecondIsPow10();
    SameLengthFirst(s1, s2, ['.'] + (Digits(n1, 9) + zone), ['.'] + (Digits(n2, 9) + zone));
  }

  /** With fixed-width keys, pruning at a cutoff keeps exactly the messages
      of the same second written after it. */
  lemma FixedPruneKeepsLater(db: Store.Db, cubby: string, stamp: string, cut: nat, n: nat, zone: string)
    requires cut < Second && n < Second
    requires cubby in db && KeyFixed(stamp, n, zone) in db[cubby]
    ensures var after := Store.RemoveOldest(db, cubby, KeyFixed(stamp, cut, zone), Store.Commits).value;
      KeyFixed(stamp, n, zone) in after[cubby] <==> n > cut
  {
    FixedKeysInTimeOrder(stamp, n, cut, zone);
  }

  /** With fixed-width keys the same two messages are listed in the order
      they were written. */
  lemma FixedListingInTimeOrder(stamp: string, zone: string)
    ensures var early, late := KeyFixed(stamp, 0, zone), KeyFixed(stamp, 500_000_000, zone);
      Lex.Listing([early, late], {early, late})
  {
    FixedKeysInTimeOrder(stamp, 500_000_000, 0, zone);
    FixedKeysInTimeOrder(stamp, 0, 500_000_000, zone);
  }
}

/** Sizes for people: a number below 10000 and a unit, with one decimal where the unit does not divide. */
module FormatSizes {
  import opened Machine

  const UNITS := "BkMGTPE"

  /** The value of unit number `k` in bytes. */
  function Unit(k: nat): (u: nat)
    ensures u >= 1
  {
    if k == 0 then 1 else 1024 * Unit(k - 1)
  }

  /** What is printed: a number, perhaps a decimal digit, and a unit. */
  datatype Text = Text(number: int, decimal: Option<nat>, unit: nat)

  /** The guard of the loop. */
  predicate Shrinks(n: int) {
    n >= 10000 || (n != 0 && n % 1024 == 0)
  }

  /** `n` units and a rest of less than one unit make up `size`. */
  ghost predicate Measures(size: int, k: nat, n: int, rest: nat) {
    size == n * Unit(k) + rest && rest < Unit(k)
  }

  lemma Distribute(a: int, b: int, u: int)
    ensures (a - b) * u == a * u - b * u
  {
  }

  lemma AtLeast(a: int, b: int, u: nat)
    requires a >= b
    ensures a * u >= b * u
  {
    Distribute(a, b, u);
  }

  lemma AtLeastOnce(a: int, u: nat)
    requires a >= 1
    ensures a * u >= u
  {
    assert a * u == (a - 1) * u + u;
  }

  lemma RestVanishes(d: nat, u: nat, rest: nat)
    requires u >= 1
    ensures d * u + rest == 0 <==> d == 0 && rest == 0
  {
    if d > 0 {
      AtLeastOnce(d, u);
    }
  }

  lemma OneQuotient(u: nat, q: int, r: int, q': int, r': int)
    requires u > 0 && q * u + r == q' * u + r' && 0 <= r < u && 0 <= r' < u
    ensures q == q' && r == r'
  {
    Distribute(q, q', u);
    Distribute(q', q, u);
    if q > q' {
      AtLeastOnce(q - q', u);
    } else if q < q' {
      AtLeastOnce(q' - q, u);
    }
  }

  lemma DivMod(x: int, u: nat, q: int, r: nat)
    requires u > 0 && x == q * u + r && r < u
    ensures x / u == q && x % u == r
  {
    assert x == (x / u) * u + x % u;
    OneQuotient(u, q, r, x / u, x % u);
  }

  lemma Expand(q: int, d: int, u: int)
    ensures (q * 1024 + d) * u == q * (1024 * u) + d * u
  {
  }

  lemma DigitFits(d: nat, u: nat, rest: nat)
    requires d <= 1023 && rest < u
    ensures 0 <= d * u && d * u + rest < 1024 * u
  {
    AtLeast(1023, d, u);
    AtLeast(d, 0, u);
  }

  /** One round of the loop: the next unit, and the digit below it joins the rest. */
  lemma NextUnit(size: int, k: nat, n: int, rest: nat)
    requires Measures(size, k, n, rest)
    ensures (n % 1024) * Unit(k) + rest >= 0
    ensures Measures(size, k + 1, n / 1024, (n % 1024) * Unit(k) + rest)
  {
    Expand(n / 1024, n % 1024, Unit(k));
    DigitFits(n % 1024, Unit(k), rest);
  }

  /** The rest vanishes exactly when the unit divides. */
  lemma WholeExactly(size: int, k: nat, n: int, rest: nat)
    requires Measures(size, k, n, rest)
    ensures rest == 0 <==> size % Unit(k) == 0
  {
    var u := Unit(k);
    DivMod(size, u, n, rest);
  }

  /** A decimal digit for a remainder in 1024ths. */
  function Tenths(r: nat): (t: nat)
    requires r < 1024
    ensures t <= 10
    ensures -1024 < 10 * r - 1024 * t && 10 * r + 10 - 1024 * t <= 1024
  {
    r / 100 + if r % 100 >= 50 then 1 else 0
  }

  /** The remainder in hundreds of 1024ths, to the nearest. */
  lemma TenthsRound(r: nat)
    requires r < 1024
    ensures Tenths(r) == (r + 50) / 100
  {
  }

  /**
   * A finished text is right: exact without a decimal, and otherwise one digit that is less than a
   * tenth of a unit away from the size.
   */
  ghost predicate Right(size: int, t: Text) {
    match t.decimal
    case None => size == t.number * Unit(t.unit)
    case Some(d) =>
      && d <= 9
      && size % Unit(t.unit) != 0
      && 0 - Unit(t.unit) < 10 * size - (10 * t.number + d) * Unit(t.unit) < Unit(t.unit)
  }

  lemma TenthsError(r: nat, t: nat, u: nat, low: nat)
    requires u >= 1 && low < u
    requires -1024 < 10 * r - 1024 * t && 10 * r + 10 - 1024 * t <= 1024
    ensures -1024 * u < 10 * (r * u + low) - t * (1024 * u) < 1024 * u
  {
    var e := 10 * r - 1024 * t;
    assert 10 * (r * u) - t * (1024 * u) == e * u;
    assert e * u >= -1023 * u by {
      AtLeast(e, -1023, u);
    }
    assert e * u <= 1014 * u by {
      AtLeast(1014, e, u);
    }
  }

  lemma Shift(size: int, n: int, u: nat, rest: nat, t: nat)
    requires size == n * (1024 * u) + rest
    ensures 10 * size - (10 * n + t) * (1024 * u) == 10 * rest - t * (1024 * u)
  {
    var v := 1024 * u;
    assert (10 * n + t) * v == 10 * (n * v) + t * v;
  }

  lemma Carry(n: int, u: nat)
    ensures (10 * (n + 1) + 0) * (1024 * u) == (10 * n + 10) * (1024 * u)
  {
  }

  /** The rest behind the last digit: `r` of the unit below, and less than one of it. */
  lemma TenthsRight(size: int, k: nat, n: int, r: nat, low: nat)
    requires r < 1024 && low < Unit(k)
    requires Measures(size, k + 1, n, r * Unit(k) + low) && r * Unit(k) + low != 0
    ensures var t := Tenths(r);
            Right(size, if t == 10 then Text(n + 1, Some(0), k + 1) else Text(n, Some(t), k + 1))
  {
    var t, u := Tenths(r), Unit(k);
    WholeExactly(size, k + 1, n, r * u + low);
    assert Unit(k + 1) == 1024 * u;
    TenthsError(r, t, u, low);
    Shift(size, n, u, r * u + low, t);
    if t == 10 {
      Carry(n, u);
    }
  }

  lemma Quotient(size: int, k: nat, n: int, rest: nat)
    requires Measures(size, k, n, rest)
    ensures size / Unit(k) == n
  {
    DivMod(size, Unit(k), n, rest);
  }

  lemma DivisionMeasures(size: int, k: nat)
    ensures size % Unit(k) >= 0 && Measures(size, k, size / Unit(k), size % Unit(k))
  {
    assert size == (size / Unit(k)) * Unit(k) + size % Unit(k);
  }

  /** The quotient by the next unit is a 1024th of the quotient by this one. */
  lemma NextQuotient(size: int, k: nat)
    ensures size / Unit(k + 1) == (size / Unit(k)) / 1024
  {
    DivisionMeasures(size, k);
    NextUnit(size, k, size / Unit(k), size % Unit(k));
    Quotient(size, k + 1, (size / Unit(k)) / 1024, ((size / Unit(k)) % 1024) * Unit(k) + size % Unit(k));
  }

  lemma NotNegative(size: nat, k: nat)
    ensures size / Unit(k) >= 0
  {
    DivisionMeasures(size, k);
    var q, u := size / Unit(k), Unit(k);
    if q < 0 {
      AtLeast(-1, q, u);
    }
  }

  /** A size that still shrinks at a unit shrinks at every smaller unit. */
  lemma {:induction false} ShrinksBefore(size: nat, j: nat, k: nat)
    requires j <= k && Shrinks(size / Unit(k)) && size / Unit(k) >= 0
    ensures Shrinks(size / Unit(j))
    decreases k - j
  {
    if j < k {
      ShrinksBefore(size, j + 1, k);
      NextQuotient(size, j);
      DivisionMeasures(size, j);
      NotNegative(size, j);
    }
  }

  /** For a size, shrinking at the last unit means shrinking at all of them. */
  lemma LastUnitDecides(size: nat)
    ensures Shrinks(size / Unit(6)) <==> forall j :: 0 <= j < |UNITS| ==> Shrinks(size / Unit(j))
  {
    if Shrinks(size / Unit(6)) {
      NotNegative(size, 6);
      forall j | 0 <= j < |UNITS|
        ensures Shrinks(size / Unit(j))
      {
        ShrinksBefore(size, j, 6);
      }
    }
  }

  /** Every size below 1024 of the last unit can be printed. */
  lemma SmallSizesPrint(size: nat)
    requires size < Unit(7)
    ensures !Shrinks(size / Unit(6))
  {
    NextQuotient(size, 6);
    NotNegative(size, 6);
    DivisionMeasures(size, 7);
    DivMod(size, Unit(7), 0, size);
  }

  /** 10000 of the last unit cannot be printed. */
  lemma HugeSizeFails()
    ensures Shrinks(10000 * Unit(6) / Unit(6))
  {
    DivMod(10000 * Unit(6), Unit(6), 10000, 0);
  }

  /** The invariant of the loop: `rest` is what the units so far leave out, `low` what is below its last digit. */
  ghost predicate Reduced(size: int, ui: nat, n: int, rem: int, whole: bool, rest: nat, low: nat) {
    && Measures(size, ui, n, rest)
    && (whole <==> rest == 0)
    && (ui == 0 ==> whole)
    && (ui > 0 ==> rem == (size / Unit(ui - 1)) % 1024)
    && (ui > 0 ==> 0 <= rem < 1024 && low < Unit(ui - 1) && rest == rem * Unit(ui - 1) + low)
    && (forall j :: 0 <= j < ui ==> Shrinks(size / Unit(j)))
  }

  lemma ReducedOnce(size: int, ui: nat, n: int, rem: int, whole: bool, rest: nat, low: nat)
    requires Reduced(size, ui, n, rem, whole, rest, low) && Shrinks(n)
    ensures (n % 1024) * Unit(ui) + rest >= 0
    ensures Reduced(size, ui + 1, n / 1024, n % 1024, whole && n % 1024 == 0, (n % 1024) * Unit(ui) + rest, rest)
  {
    NextUnit(size, ui, n, rest);
    Quotient(size, ui, n, rest);
    RestVanishes(n % 1024, Unit(ui), rest);
  }

  /** format_size; None is the index error beyond the last unit. */
  method FormatSize(nbytes: int) returns (r: Option<Text>)
    ensures r.Some? ==> r.value.unit < |UNITS| && r.value.number <= 10000 && Right(nbytes, r.value)
    ensures r.Some? ==>
              var k := r.value.unit;
              !Shrinks(nbytes / Unit(k)) && forall j :: 0 <= j < k ==> Shrinks(nbytes / Unit(j))
    ensures r.Some? ==>
              var q := nbytes / Unit(r.value.unit);
              q < 10000 && (q != 0 ==> q % 1024 != 0)
    ensures r.Some? ==>
              forall j :: 0 <= j < r.value.unit ==>
                var q := nbytes / Unit(j); q >= 10000 || (q != 0 && q % 1024 == 0)
    ensures r.Some? && r.value.decimal.Some? ==>
              var k := r.value.unit;
              && k > 0
              && 10 * r.value.number + r.value.decimal.value ==
                 10 * (nbytes / Unit(k)) + ((nbytes / Unit(k - 1)) % 1024 + 50) / 100
    ensures r.None? <==> forall j :: 0 <= j < |UNITS| ==> Shrinks(nbytes / Unit(j))
    ensures nbytes >= 0 ==> (r.None? <==> Shrinks(nbytes / Unit(6)))
  {
    var ui, rem, whole, n := 0, 0, true, nbytes;
    ghost var rest: nat, low: nat := 0, 0;
    while Shrinks(n)
      invariant Reduced(nbytes, ui, n, rem, whole, rest, low)
      decreases if n < 0 then -n else n
    {
      ReducedOnce(nbytes, ui, n, rem, whole, rest, low);
      low, rest := rest, (n % 1024) * Unit(ui) + rest;
      ui := ui + 1;
      if n % 1024 != 0 {
        whole := false;
      }
      rem := n % 1024;
      n := n / 1024;
    }
    Quotient(nbytes, ui, n, rest);
    if nbytes >= 0 {
      LastUnitDecides(nbytes);
    }
    if ui >= |UNITS| {
      return None;
    }
    if whole {
      return Some(Text(n, None, ui));
    }
    TenthsRight(nbytes, ui - 1, n, rem, low);
    TenthsRound(rem);
    var t := Tenths(rem);
    if t == 10 {
      n := n + 1;
      t := 0;
    }
    r := Some(Text(n, Some(t), ui));
  }
}

/**
 * getFileSizeLabel: the unit and the figure shown for a byte count. The
 * source divides a JavaScript number; here the division is exact, on
 * integers, and the label is returned as a value and a unit index.
 */
module FileSize {
  import opened Wrappers
  import opened Strings

  const SIZE_LABEL: seq<string> := ["bytes", "KB", "MB", "GB", "TB", "PB", "EB"]

  /** A plain byte count (unit 0), or a figure in tenths of the unit `SIZE_LABEL[unit]`. */
  datatype SizeLabel = Bytes(count: nat) | Scaled(tenths: nat, unit: nat)
  {
    function Unit(): nat
    {
      if Bytes? then 0 else unit
    }
  }

  function Pow1024(i: nat): (r: nat)
    ensures r >= 1
  {
    if i == 0 then 1 else 1024 * Pow1024(i - 1)
  }

  lemma {:induction false} Pow1024Monotone(i: nat, j: nat)
    requires i <= j
    ensures Pow1024(i) <= Pow1024(j)
    decreases j
  {
    if i < j {
      Pow1024Monotone(i, j - 1);
    }
  }

  /** The least unit `u` with `b < 1000 * 1024^u`: the unit the source settles on. */
  function LeastUnit(b: nat): (u: nat)
    ensures b < 1000 * Pow1024(u)
    ensures u > 0 ==> 1000 * Pow1024(u - 1) <= b
  {
    if b < 1000 then 0 else 1 + LeastUnit(b / 1024)
  }

  /** No smaller unit keeps the figure under 1000. */
  lemma {:induction false} LeastUnitIsLeast(b: nat, u: nat)
    requires b < 1000 * Pow1024(u)
    ensures LeastUnit(b) <= u
  {
    if b >= 1000 {
      assert u > 0;
      assert b / 1024 < 1000 * Pow1024(u - 1);
      LeastUnitIsLeast(b / 1024, u - 1);
    }
  }

  /** The label of a size: null for a missing or negative size, else the figure in the least fitting unit, floored to tenths. */
  function SizeLabelOf(size: Option<int>): (r: Option<SizeLabel>)
    ensures r.None? <==> size.None? || size.value < 0
  {
    if size.None? || size.value < 0 then None
    else
      var b: nat := size.value;
      var u := LeastUnit(b);
      if u == 0 then Some(Bytes(b)) else Some(Scaled(Tenths(b, Pow1024(u)), u))
  }

  /** `Math.floor(size * 10)` once `size` has been divided by `div`, in tenths. */
  function Tenths(b: nat, div: nat): nat
    requires div > 0
  {
    10 * b / div
  }

  /** The figure shown is below 1000 in every unit (at least 0.9 in every unit but bytes). */
  lemma SizeLabelBelowThousand(b: nat)
    ensures match SizeLabelOf(Some(b))
      case Some(Bytes(c)) => c == b < 1000
      case Some(Scaled(t, u)) => u >= 1 && 9 <= t < 10000
      case None => false
  {
    var u := LeastUnit(b);
    if u > 0 {
      var p := Pow1024(u);
      var q := Pow1024(u - 1);
      var t := 10 * b / p;
      DivisionBounds(10 * b, p);
      if t >= 10000 {
        MultiplyMonotone(10000, t, p);
        assert false;
      }
      if t < 9 {
        MultiplyMonotone(t, 8, p);
        assert false;
      }
    }
  }

  lemma DivisionBounds(x: nat, p: nat)
    requires p > 0
    ensures (x / p) * p <= x < (x / p) * p + p
  {
  }

  lemma MultiplyMonotone(a: nat, b: nat, p: nat)
    requires a <= b
    ensures a * p <= b * p
  {
  }

  /** The unit stays inside `SIZE_LABEL` exactly for sizes below 1000 EB. */
  lemma UnitWithinLabels(b: nat)
    ensures LeastUnit(b) < |SIZE_LABEL| <==> b < 1000 * Pow1024(6)
  {
    if b < 1000 * Pow1024(6) {
      LeastUnitIsLeast(b, 6);
    } else if LeastUnit(b) < 7 {
      Pow1024Monotone(LeastUnit(b), 6);
    }
  }

  /**
   * getFileSizeLabel: divide by 1024 while the figure is at least 1024,
   * then once more if it is still at least 1000. The running figure of the
   * source is `b / div`; `div` is kept exact instead.
   */
  method FileSizeLabel(size: Option<int>) returns (result: Option<SizeLabel>)
    ensures result == SizeLabelOf(size)
  {
    if size.None? || size.value < 0 {
      return None;
    }
    var b: nat := size.value;
    var i: nat := 0;
    var div: nat := 1;
    while b >= div * 1024
      invariant div == Pow1024(i)
      invariant i > 0 ==> div <= b
      decreases b - div
    {
      div := div * 1024;
      i := i + 1;
    }
    LoopExitUnit(b, i);
    if b >= div * 1000 {
      div := div * 1024;
      i := i + 1;
    }
    if i == 0 {
      result := Some(Bytes(b));
    } else {
      result := Some(Scaled(Tenths(b, div), i));
    }
  }

  /** Where the loop stops, the carry alone decides the unit. */
  lemma LoopExitUnit(b: nat, i: nat)
    requires b < 1024 * Pow1024(i)
    requires i > 0 ==> Pow1024(i) <= b
    ensures LeastUnit(b) == if b >= 1000 * Pow1024(i) then i + 1 else i
  {
    var p := Pow1024(i);
    if b >= 1000 * p {
      assert Pow1024(i + 1) == 1024 * p;
      UnitIsLeast(b, i + 1);
    } else {
      if i > 0 {
        var q := Pow1024(i - 1);
        assert p == 1024 * q;
        assert 1000 * q <= b;
      }
      UnitIsLeast(b, i);
    }
  }

  /** The two bounds that fix the least unit. */
  lemma UnitIsLeast(b: nat, u: nat)
    requires b < 1000 * Pow1024(u)
    requires u > 0 ==> 1000 * Pow1024(u - 1) <= b
    ensures LeastUnit(b) == u
  {
    LeastUnitIsLeast(b, u);
    var v := LeastUnit(b);
    if v < u {
      Pow1024Monotone(v, u - 1);
      assert false;
    }
  }

  lemma SizeLabelExamplesBytes()
    ensures SizeLabelOf(Some(0)) == Some(Bytes(0))
    ensures SizeLabelOf(Some(999)) == Some(Bytes(999))
    ensures SizeLabelOf(Some(-1)) == None
  {
  }

  /** Just below 1 KB the label is already in KB; 999 KB stays in KB. */
  lemma SizeLabelExamplesKilo()
    ensures SizeLabelOf(Some(1023)) == Some(Scaled(9, 1))
    ensures SizeLabelOf(Some(1024)) == Some(Scaled(10, 1))
    ensures SizeLabelOf(Some(999 * 1024)) == Some(Scaled(9990, 1))
  {
    UnitIsLeast(1023, 1);
    UnitIsLeast(1024, 1);
    UnitIsLeast(999 * 1024, 1);
  }

  /** 1000 KB is carried into the next unit. */
  lemma SizeLabelExamplesMega()
    ensures SizeLabelOf(Some(1000 * 1024)) == Some(Scaled(9, 2))
  {
    assert Pow1024(2) == 1048576;
    UnitIsLeast(1000 * 1024, 2);
  }

  /** The unit name the source prints: `SIZE_LABEL[i]`, or "undefined" past its end; one word either way. */
  function UnitName(u: nat): (r: string)
    ensures |r| > 0 && ' ' !in r && '\n' !in r && '.' !in r
  {
    if u < |SIZE_LABEL| then
      assert u == 0 || u == 1 || u == 2 || u == 3 || u == 4 || u == 5 || u == 6;
      SIZE_LABEL[u]
    else "undefined"
  }

  /** The units in `SIZE_LABEL` have different names, none of them "undefined". */
  lemma UnitNamesDistinct(u: nat, v: nat)
    requires UnitName(u) == UnitName(v)
    ensures u == v || (u >= |SIZE_LABEL| && v >= |SIZE_LABEL|)
  {
    if u < |SIZE_LABEL| || v < |SIZE_LABEL| {
      assert u == 0 || u == 1 || u == 2 || u == 3 || u == 4 || u == 5 || u == 6 || u >= 7;
      assert v == 0 || v == 1 || v == 2 || v == 3 || v == 4 || v == 5 || v == 6 || v >= 7;
      assert UnitName(u)[0] == UnitName(v)[0];
    }
  }

  /** The figure in tenths that a label stands for: a byte count is a whole figure. */
  function FigureTenths(sizeLabel: SizeLabel): nat
  {
    match sizeLabel
    case Bytes(c) => 10 * c
    case Scaled(t, _) => t
  }

  /**
   * Reading a printed figure back, in tenths: digits, optionally followed by
   * a dot and one digit.
   */
  function ReadTenths(s: string): Option<nat>
  {
    var pieces := Split(s, '.');
    if |pieces| == 1 && |pieces[0]| > 0 && AllDigits(pieces[0]) then
      Some(10 * ParseDecimal(pieces[0]))
    else if |pieces| == 2 && |pieces[0]| > 0 && AllDigits(pieces[0]) && |pieces[1]| == 1 && IsDigit(pieces[1][0]) then
      Some(10 * ParseDecimal(pieces[0]) + DigitValue(pieces[1][0]))
    else None
  }

  /**
   * The figure JavaScript prints for a label whose figure is exact: the
   * byte count, or the whole part and, unless it is zero, one decimal.
   * Read back, it gives the figure.
   */
  function FigureText(sizeLabel: SizeLabel): (r: string)
    ensures ReadTenths(r) == Some(FigureTenths(sizeLabel))
    ensures ' ' !in r && '\n' !in r
  {
    match sizeLabel
    case Bytes(c) =>
      ReadWhole(c);
      Decimal(c)
    case Scaled(t, _) =>
      if t % 10 == 0 then
        ReadWhole(t / 10);
        Decimal(t / 10)
      else
        ReadWithDecimal(t / 10, t % 10);
        Decimal(t / 10) + "." + [DigitChar(t % 10)]
  }

  lemma ReadWhole(n: nat)
    ensures ReadTenths(Decimal(n)) == Some(10 * n)
  {
    SplitWithoutSeparator(Decimal(n), '.');
    ParseDecimalOfDecimal(n);
  }

  lemma ReadWithDecimal(n: nat, d: nat)
    requires d < 10
    ensures ReadTenths(Decimal(n) + "." + [DigitChar(d)]) == Some(10 * n + d)
  {
    var whole, fraction := Decimal(n), [DigitChar(d)];
    SplitAfterSeparator(whole, fraction, '.');
    SplitWithoutSeparator(fraction, '.');
    ParseDecimalOfDecimal(n);
    assert whole + "." + fraction == whole + ['.'] + fraction;
  }

  /** The label as printed: the figure, a space, and the unit name. */
  function LabelText(sizeLabel: SizeLabel): (r: string)
    ensures '\n' !in r
    ensures Split(r, ' ') == [FigureText(sizeLabel), UnitName(sizeLabel.Unit())]
  {
    var figure, name := FigureText(sizeLabel), UnitName(sizeLabel.Unit());
    SplitAfterSeparator(figure, name, ' ');
    SplitWithoutSeparator(name, ' ');
    figure + " " + name
  }
}

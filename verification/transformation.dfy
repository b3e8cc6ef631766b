/** The `transform` stage: cleaning the scraped market capitalisation and
    deriving the converted columns, one output row per input row.

    Python's `float()` parsing and NumPy's `np.round(x * factor, 2)` are IEEE
    floating-point operations; they are kept uninterpreted here, as the
    fields of a `Numerics` value over an abstract number type `F`. The
    conversion factors are the decimal literals as written in the program
    (Python evaluates them as the nearest doubles); since `scaleRound` is
    uninterpreted in its factor argument, nothing proved depends on that. */
module Transformation {
  import opened Wrappers
  import opened Text
  import opened Extraction

  /** The currencies the program adds a column for. */
  datatype Currency = GBP | EUR | INR

  /** The fixed exchange factor of each added column. */
  function Factor(c: Currency): real {
    match c
    case GBP => 0.8
    case EUR => 0.93
    case INR => 82.95
  }

  /** The floating-point primitives the stage relies on: `parse` is
      `float(text)` (absent when Python raises `ValueError`), and
      `scaleRound(x, f)` is `np.round(x * f, 2)`. */
  datatype Numerics<!F> = Numerics(parse: string -> Option<F>, scaleRound: (F, real) -> F)

  /** One row of the final table: Name, MC_USD_Billion, MC_GBP_Billion,
      MC_EUR_Billion, MC_INR_Billion. */
  datatype DerivedRecord<F> = DerivedRecord(name: string, usd: F, gbp: F, eur: F, inr: F) {
    /** The added column for currency `c`. */
    function Converted(c: Currency): F {
      match c
      case GBP => gbp
      case EUR => eur
      case INR => inr
    }
  }

  /** `astype(float)` rejected the cleaned text `value` of row `row`. */
  datatype TransformError = ParseError(row: nat, value: string)

  /** The USD text with its thousands separators removed. */
  function CleanUsd(raw: RawRecord): string {
    RemoveCommas(raw.usd)
  }

  /** `d` is the row derived from `raw`: same name, the parsed cleaned USD
      value, and each added column computed from that value alone with its
      own factor. */
  ghost predicate DerivedFrom<F>(d: DerivedRecord<F>, raw: RawRecord, num: Numerics<F>) {
    && d.name == raw.name
    && num.parse(CleanUsd(raw)) == Some(d.usd)
    && forall c :: d.Converted(c) == num.scaleRound(d.usd, Factor(c))
  }

  /** `astype(float)` over a column, from index `j`: every value parsed, or
      the first one that does not. */
  function ParseColumn<F>(vals: seq<string>, parse: string -> Option<F>, j: nat): Result<seq<F>, TransformError>
    requires j <= |vals|
    decreases |vals| - j
  {
    if j == |vals| then Success([])
    else
      match parse(vals[j])
      case None => Failure(ParseError(j, vals[j]))
      case Some(v) =>
        match ParseColumn(vals, parse, j + 1)
        case Failure(e) => Failure(e)
        case Success(vs) => Success([v] + vs)
  }

  /** The column parses exactly when each of its values does; then value `t`
      is the parse of entry `j + t`; otherwise the error names the first
      entry that does not parse. */
  lemma {:induction false} ParseColumnSpec<F>(vals: seq<string>, parse: string -> Option<F>, j: nat)
    requires j <= |vals|
    ensures ParseColumn(vals, parse, j).Success? <==> forall i :: j <= i < |vals| ==> parse(vals[i]).Some?
    ensures ParseColumn(vals, parse, j).Success? ==>
      && |ParseColumn(vals, parse, j).value| == |vals| - j
      && forall t :: 0 <= t < |vals| - j ==> parse(vals[j + t]) == Some(ParseColumn(vals, parse, j).value[t])
    ensures ParseColumn(vals, parse, j).Failure? ==>
      var e := ParseColumn(vals, parse, j).error;
      && j <= e.row < |vals|
      && parse(vals[e.row]).None?
      && e.value == vals[e.row]
      && forall i :: j <= i < e.row ==> parse(vals[i]).Some?
    decreases |vals| - j
  {
    if j < |vals| && parse(vals[j]).Some? {
      ParseColumnSpec(vals, parse, j + 1);
      var rest := ParseColumn(vals, parse, j + 1);
      if rest.Success? {
        var vs := [parse(vals[j]).value] + rest.value;
        assert ParseColumn(vals, parse, j) == Success(vs);
        forall t | 0 <= t < |vals| - j
          ensures parse(vals[j + t]) == Some(vs[t])
        {
          if t > 0 {
            assert vs[t] == rest.value[t - 1];
            assert vals[j + t] == vals[(j + 1) + (t - 1)];
          }
        }
      }
    }
  }

  /** The row derived from a name and its parsed USD value. */
  function Derive<F>(name: string, usd: F, num: Numerics<F>): DerivedRecord<F> {
    DerivedRecord(name, usd,
      num.scaleRound(usd, Factor(GBP)),
      num.scaleRound(usd, Factor(EUR)),
      num.scaleRound(usd, Factor(INR)))
  }

  /** Python's `transform`: strip commas from the USD column, parse it, and
      add the three converted columns. It succeeds exactly when every cleaned
      USD text parses, and then keeps the row count, the row order and every
      name; otherwise it reports the first row that does not parse and no
      rows at all. */
  function Transform<F>(raws: seq<RawRecord>, num: Numerics<F>): (r: Result<seq<DerivedRecord<F>>, TransformError>)
    ensures r.Success? <==> forall i :: 0 <= i < |raws| ==> num.parse(CleanUsd(raws[i])).Some?
    ensures r.Success? ==>
      && |r.value| == |raws|
      && forall i :: 0 <= i < |raws| ==> DerivedFrom(r.value[i], raws[i], num)
    ensures r.Failure? ==>
      && r.error.row < |raws|
      && num.parse(CleanUsd(raws[r.error.row])).None?
      && r.error.value == CleanUsd(raws[r.error.row])
      && forall i :: 0 <= i < r.error.row ==> num.parse(CleanUsd(raws[i])).Some?
  {
    var cleaned := seq(|raws|, i requires 0 <= i < |raws| => CleanUsd(raws[i]));
    ParseColumnSpec(cleaned, num.parse, 0);
    match ParseColumn(cleaned, num.parse, 0)
    case Failure(e) =>
      assert forall i :: 0 <= i < e.row ==> num.parse(cleaned[i]).Some? && cleaned[i] == CleanUsd(raws[i]);
      Failure(e)
    case Success(usd) =>
      var rows := seq(|raws|, i requires 0 <= i < |raws| => Derive(raws[i].name, usd[i], num));
      assert forall i :: 0 <= i < |raws| ==> num.parse(cleaned[0 + i]) == Some(usd[i]);
      Success(rows)
  }

  /** `transform` works row by row: transforming two tables one after the
      other is the same as transforming them together, and an error in the
      second is reported at its position in the whole. */
  lemma TransformConcat<F>(a: seq<RawRecord>, b: seq<RawRecord>, num: Numerics<F>)
    ensures Transform(a + b, num).Success? <==> Transform(a, num).Success? && Transform(b, num).Success?
    ensures Transform(a + b, num).Success? ==>
      Transform(a + b, num).value == Transform(a, num).value + Transform(b, num).value
    ensures Transform(a, num).Failure? ==> Transform(a + b, num) == Transform(a, num)
    ensures Transform(a, num).Success? && Transform(b, num).Failure? ==>
      Transform(a + b, num) == Failure(ParseError(|a| + Transform(b, num).error.row, Transform(b, num).error.value))
  {
    var ab := a + b;
    assert forall i :: 0 <= i < |a| ==> ab[i] == a[i];
    assert forall i :: 0 <= i < |b| ==> ab[|a| + i] == b[i];
    var r := Transform(ab, num);
    var ra := Transform(a, num);
    var rb := Transform(b, num);
    if ra.Success? && rb.Success? {
      assert forall i :: |a| <= i < |ab| ==> ab[i] == b[i - |a|];
      var both := ra.value + rb.value;
      forall i | 0 <= i < |ab| ensures r.value[i] == both[i] {
        DerivedUnique(r.value[i], both[i], ab[i], num);
      }
    } else if ra.Failure? {
      assert num.parse(CleanUsd(ab[ra.error.row])).None?;
    } else {
      assert ab[|a| + rb.error.row] == b[rb.error.row];
      assert forall i :: |a| <= i < |ab| ==> ab[i] == b[i - |a|];
    }
  }

  /** A raw row determines the row derived from it. */
  lemma DerivedUnique<F>(d1: DerivedRecord<F>, d2: DerivedRecord<F>, raw: RawRecord, num: Numerics<F>)
    requires DerivedFrom(d1, raw, num) && DerivedFrom(d2, raw, num)
    ensures d1 == d2
  {
    assert d1.gbp == d1.Converted(GBP) == d2.Converted(GBP) == d2.gbp;
    assert d1.eur == d1.Converted(EUR) == d2.Converted(EUR) == d2.eur;
    assert d1.inr == d1.Converted(INR) == d2.Converted(INR) == d2.inr;
  }
}

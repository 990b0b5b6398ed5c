/** The drift detector: it splits the reference dataset's columns into
    categorical and continuous features, compares each continuous feature with
    a Kolmogorov–Smirnov test and the Population Stability Index and each
    categorical feature with a Chi-square test of independence, and gathers
    the verdicts into one report. */
module Detector {
  import opened Collections
  import opened Frames
  import opened Psi
  import opened Contingency
  import opened Report

  /** A numeric column with fewer distinct values than this is categorical. */
  const CardinalityLimit: nat := 10

  const DefaultSignificanceLevel: real := 0.05
  const DefaultPsiThreshold: real := 0.25

  // ---------------------------------------------------------------- features

  /** A column is categorical when it stores text or categories, or when it
      holds fewer than `CardinalityLimit` distinct non-missing values. */
  predicate IsCategorical(col: Column)
  {
    col.dtype == ObjectDType || col.dtype == CategoryDType || DistinctValues(col.values) < CardinalityLimit
  }

  /** The names among `names` whose reference column is categorical, in order. */
  function CategoricalAmong(reference: Frame, names: seq<string>): (r: seq<string>)
    ensures |r| <= |names|
    ensures forall c :: c in r <==> c in names && c in reference.data && IsCategorical(reference.data[c])
  {
    if names == [] then []
    else
      var n := |names| - 1;
      var init := CategoricalAmong(reference, names[..n]);
      assert names == names[..n] + [names[n]];
      var col := Lookup(reference, names[n]);
      if col.Some? && IsCategorical(col.value) then init + [names[n]] else init
  }

  /** The automatically detected categorical features: the categorical
      columns of the reference dataset, in column order. */
  function AutoCategorical(reference: Frame): seq<string>
  {
    CategoricalAmong(reference, reference.columns)
  }

  lemma {:induction false} CategoricalAmongDistinct(reference: Frame, names: seq<string>)
    requires Distinct(names)
    ensures Distinct(CategoricalAmong(reference, names))
  {
    if names != [] {
      var n := |names| - 1;
      assert Distinct(names[..n]);
      CategoricalAmongDistinct(reference, names[..n]);
      assert names[n] !in names[..n] by {
        forall i | 0 <= i < n ensures names[..n][i] != names[n] {
          assert names[i] != names[n];
        }
      }
    }
  }

  /** The categorical names keep the order they have among `names`. */
  lemma {:induction false} CategoricalAmongOrder(reference: Frame, names: seq<string>)
    requires Distinct(names)
    ensures InOrderOf(CategoricalAmong(reference, names), names)
  {
    if names != [] {
      var n := |names| - 1;
      var init := names[..n];
      assert Distinct(init);
      CategoricalAmongOrder(reference, init);
      assert names == init + [names[n]];
      var r0 := CategoricalAmong(reference, init);
      if names[n] in reference.data && IsCategorical(reference.data[names[n]]) {
        assert names[n] !in init by {
          forall j | 0 <= j < n ensures init[j] != names[n] {
            assert names[j] != names[n];
          }
        }
        InOrderAppend(r0, init, names[n]);
      } else {
        InOrderExtend(r0, init, names[n]);
      }
    }
  }

  /** For a well-formed dataset the detected categorical features are distinct
      columns, exactly the categorical ones, in column order. */
  lemma AutoCategoricalColumns(reference: Frame)
    requires WellFormed(reference)
    ensures Distinct(AutoCategorical(reference))
    ensures Elements(AutoCategorical(reference)) <= Elements(reference.columns)
    ensures forall c :: c in AutoCategorical(reference) <==> c in reference.columns && IsCategorical(reference.data[c])
    ensures InOrderOf(AutoCategorical(reference), reference.columns)
  {
    CategoricalAmongDistinct(reference, reference.columns);
    CategoricalAmongOrder(reference, reference.columns);
    assert AutoCategorical(reference) == CategoricalAmong(reference, reference.columns);
  }

  lemma CategoricalAmongSnoc(reference: Frame, names: seq<string>, k: nat)
    requires k < |names|
    ensures CategoricalAmong(reference, names[..k + 1]) ==
      if names[k] in reference.data && IsCategorical(reference.data[names[k]])
      then CategoricalAmong(reference, names[..k]) + [names[k]]
      else CategoricalAmong(reference, names[..k])
  {
    assert names[..k + 1][..k] == names[..k];
  }

  /** `_detect_categorical_features`. */
  method DetectCategoricalFeatures(reference: Frame) returns (categorical: seq<string>)
    ensures categorical == AutoCategorical(reference)
  {
    var columns := reference.columns;
    categorical := [];
    for k := 0 to |columns|
      invariant categorical == CategoricalAmong(reference, columns[..k])
    {
      CategoricalAmongSnoc(reference, columns, k);
      var col := Lookup(reference, columns[k]);
      if col.Some? && (col.value.dtype == ObjectDType || col.value.dtype == CategoryDType) {
        categorical := categorical + [columns[k]];
      } else if col.Some? && DistinctValues(col.value.values) < CardinalityLimit {
        categorical := categorical + [columns[k]];
      }
    }
    assert columns[..|columns|] == columns;
  }

  /** `list(s)` for a set: its elements, each once, in the set's iteration order. */
  method ListOfSet(s: set<string>) returns (xs: seq<string>)
    ensures Distinct(xs)
    ensures Elements(xs) == s
  {
    xs := [];
    var remaining := s;
    while remaining != {}
      invariant Distinct(xs)
      invariant Elements(xs) !! remaining
      invariant Elements(xs) + remaining == s
      decreases remaining
    {
      var x :| x in remaining;
      assert x !in Elements(xs);
      xs := xs + [x];
      remaining := remaining - {x};
    }
  }

  // ----------------------------------------------------------------- samples

  /** The non-missing values of a feature in both datasets; a feature missing
      from a dataset is a key error, the reference dataset being read first. */
  function Samples(reference: Frame, production: Frame, f: string): (r: Result<(seq<Value>, seq<Value>), DriftError>)
    ensures r == Err(MissingColumn(Reference, f)) <==> f !in reference.data
    ensures r == Err(MissingColumn(Production, f)) <==> f in reference.data && f !in production.data
    ensures r.Ok? <==> f in reference.data && f in production.data
    ensures r.Ok? ==> r.value == (DropMissing(reference.data[f].values), DropMissing(production.data[f].values))
  {
    match Lookup(reference, f)
    case None => Err(MissingColumn(Reference, f))
    case Some(refCol) =>
      match Lookup(production, f)
      case None => Err(MissingColumn(Production, f))
      case Some(prodCol) => Ok((DropMissing(refCol.values), DropMissing(prodCol.values)))
  }

  /** The samples of a continuous feature as numbers. */
  function NumericSamples(reference: Frame, production: Frame, f: string): (r: Result<(seq<real>, seq<real>), DriftError>)
    ensures Samples(reference, production, f).Err? ==> r == Err(Samples(reference, production, f).error)
    ensures Samples(reference, production, f).Ok? ==>
      var (ref, prod) := Samples(reference, production, f).value;
      && (r.Ok? <==> (forall i :: 0 <= i < |ref| ==> ref[i].Number?) && (forall i :: 0 <= i < |prod| ==> prod[i].Number?))
      && (r.Err? ==> r.error == NonNumeric(f))
      && (r.Ok? ==> |r.value.0| == |ref| && |r.value.1| == |prod|
                    && (forall i :: 0 <= i < |ref| ==> ref[i] == Number(r.value.0[i]))
                    && (forall i :: 0 <= i < |prod| ==> prod[i] == Number(r.value.1[i])))
  {
    match Samples(reference, production, f)
    case Err(e) => Err(e)
    case Ok((ref, prod)) =>
      match (Numbers(ref), Numbers(prod))
      case (Some(xs), Some(ys)) => Ok((xs, ys))
      case _ => Err(NonNumeric(f))
  }

  // ---------------------------------------------------------------- numerics

  /** A test statistic and its p-value. */
  datatype TestStatistic = TestStatistic(statistic: real, pValue: real)

  /** The numeric library routines the detector calls, as parameters:
      `ks` the two-sample Kolmogorov–Smirnov test (both samples non-empty),
      `percentile` numpy's percentile of one rank, `ln` the natural logarithm,
      and `chi2` the Chi-square test of independence of a table given as the
      reference and production count of each category (its columns' order does
      not change the statistic). */
  datatype Numerics = Numerics(
    ks: (seq<real>, seq<real>) -> TestStatistic,
    percentile: (seq<real>, real) -> real,
    ln: real -> real,
    chi2: map<Value, (nat, nat)> -> TestStatistic)

  // ---------------------------------------------------------------- detector

  class DriftDetector {
    const reference: Frame
    const production: Frame
    const significanceLevel: real
    const psiThreshold: real
    const numerics: Numerics
    const categoricalFeatures: seq<string>
    const continuousFeatures: seq<string>

    /** The continuous features are the reference columns that are not
        categorical, each once. */
    ghost predicate Valid()
    {
      && Distinct(continuousFeatures)
      && Elements(continuousFeatures) == Elements(reference.columns) - Elements(categoricalFeatures)
    }

    /** `__init__`: an explicit list of categorical features is taken as
        given; without one they are detected from the reference dataset. */
    constructor (reference: Frame, production: Frame, numerics: Numerics,
                 categoricalFeatures: Option<seq<string>> := None,
                 significanceLevel: real := DefaultSignificanceLevel,
                 psiThreshold: real := DefaultPsiThreshold)
      ensures this.reference == reference && this.production == production
      ensures this.significanceLevel == significanceLevel && this.psiThreshold == psiThreshold
      ensures this.numerics == numerics
      ensures this.categoricalFeatures ==
        if categoricalFeatures.Some? then categoricalFeatures.value else AutoCategorical(reference)
      ensures Valid()
    {
      this.reference := reference;
      this.production := production;
      this.significanceLevel := significanceLevel;
      this.psiThreshold := psiThreshold;
      this.numerics := numerics;
      var categorical: seq<string>;
      if categoricalFeatures.None? {
        categorical := DetectCategoricalFeatures(reference);
      } else {
        categorical := categoricalFeatures.value;
      }
      this.categoricalFeatures := categorical;
      var continuous := ListOfSet(Elements(reference.columns) - Elements(categorical));
      this.continuousFeatures := continuous;
    }

    /** Every reference column is either a categorical or a continuous
        feature and not both; the continuous features are reference columns. */
    lemma Partition()
      requires Valid()
      ensures forall c :: c in reference.columns ==> (c in categoricalFeatures <==> c !in continuousFeatures)
      ensures forall c :: c in continuousFeatures ==> c in reference.columns && c !in categoricalFeatures
    {
      forall c | c in reference.columns
        ensures c in categoricalFeatures <==> c !in continuousFeatures
      {
        assert c in Elements(reference.columns);
        assert c in categoricalFeatures <==> c in Elements(categoricalFeatures);
        assert c in continuousFeatures <==> c in Elements(continuousFeatures);
      }
      forall c | c in continuousFeatures
        ensures c in reference.columns && c !in categoricalFeatures
      {
        assert c in Elements(continuousFeatures);
        assert c in categoricalFeatures <==> c in Elements(categoricalFeatures);
      }
    }

    /** `ks_test`: drift when the p-value is below the significance level. */
    function KsTest(f: string): (r: Result<TestResult, DriftError>)
      ensures NumericSamples(reference, production, f).Err? ==> r == Err(NumericSamples(reference, production, f).error)
      ensures NumericSamples(reference, production, f).Ok? ==>
        var (ref, prod) := NumericSamples(reference, production, f).value;
        && (r.Err? <==> |ref| == 0 || |prod| == 0)
        && (r.Err? ==> r.error == EmptySample(f))
        && (r.Ok? ==> r.value.statistic == numerics.ks(ref, prod).statistic
                      && r.value.pValue == numerics.ks(ref, prod).pValue)
      ensures r.Ok? ==> (r.value.driftDetected <==> r.value.pValue < significanceLevel)
    {
      match NumericSamples(reference, production, f)
      case Err(e) => Err(e)
      case Ok((ref, prod)) =>
        if |ref| == 0 || |prod| == 0 then Err(EmptySample(f))
        else
          var s := numerics.ks(ref, prod);
          Ok(TestResult(s.statistic, s.pValue, s.pValue < significanceLevel))
    }

    /** `calculate_psi`: drift when the index reaches the threshold; a NaN
        index never does. */
    function CalculatePsi(f: string, bins: nat): (r: Result<PsiResult, DriftError>)
      ensures NumericSamples(reference, production, f).Err? ==> r == Err(NumericSamples(reference, production, f).error)
      ensures NumericSamples(reference, production, f).Ok? ==>
        var (ref, prod) := NumericSamples(reference, production, f).value;
        && (r.Err? <==> |ref| == 0)
        && (r.Err? ==> r.error == EmptySample(f))
        && (r.Ok? ==> r.value.psi == PopulationStabilityIndex(ref, prod, Unique(Percentiles(ref, bins, numerics.percentile)), numerics.ln))
      ensures r.Ok? ==> (r.value.driftDetected <==> r.value.psi.Finite? && r.value.psi.value >= psiThreshold)
    {
      match NumericSamples(reference, production, f)
      case Err(e) => Err(e)
      case Ok((ref, prod)) =>
        if |ref| == 0 then Err(EmptySample(f))
        else
          var edges := Unique(Percentiles(ref, bins, numerics.percentile));
          var psi := PopulationStabilityIndex(ref, prod, edges, numerics.ln);
          Ok(PsiResult(psi, psi.Finite? && psi.value >= psiThreshold))
    }

    /** What `chi_square_test` computes: the test of the category counts of
        both samples, refused when either sample is empty. */
    function ChiSquare(f: string): (r: Result<TestResult, DriftError>)
      ensures Samples(reference, production, f).Err? ==> r == Err(Samples(reference, production, f).error)
      ensures Samples(reference, production, f).Ok? ==>
        var (ref, prod) := Samples(reference, production, f).value;
        && (r.Err? <==> |ref| == 0 || |prod| == 0)
        && (r.Err? ==> r.error == DegenerateTable(f))
        && (r.Ok? ==> r.value.statistic == numerics.chi2(CategoryCounts(ref, prod)).statistic
                      && r.value.pValue == numerics.chi2(CategoryCounts(ref, prod)).pValue)
      ensures r.Ok? ==> (r.value.driftDetected <==> r.value.pValue < significanceLevel)
    {
      match Samples(reference, production, f)
      case Err(e) => Err(e)
      case Ok((ref, prod)) =>
        if |ref| == 0 || |prod| == 0 then Err(DegenerateTable(f))
        else
          var s := numerics.chi2(CategoryCounts(ref, prod));
          Ok(TestResult(s.statistic, s.pValue, s.pValue < significanceLevel))
    }

    /** `chi_square_test`: builds the 2×K contingency table, hands it to the
        test, and reports drift when the p-value is below the significance
        level. Whatever order the categories come in, the result is the same. */
    method ChiSquareTest(f: string) returns (r: Result<TestResult, DriftError>)
      ensures r == ChiSquare(f)
    {
      var samples := Samples(reference, production, f);
      if samples.Err? {
        return Err(samples.error);
      }
      var (ref, prod) := samples.value;
      var t := BuildContingency(ref, prod);
      ZeroMarginIffEmptySide(t, ref, prod);
      if ZeroMargin(t) {
        return Err(DegenerateTable(f));
      }
      ObservedIsCategoryCounts(t, ref, prod);
      var s := numerics.chi2(Observed(t));
      r := Ok(TestResult(s.statistic, s.pValue, s.pValue < significanceLevel));
    }

    /** The detail entry of one continuous feature: KS first, then PSI, and
        drift when either test flags it. */
    function ContinuousOutcome(f: string): (r: Result<FeatureDetail, DriftError>)
      ensures r.Ok? <==> KsTest(f).Ok?
      ensures KsTest(f).Err? ==> r == Err(KsTest(f).error)
      ensures r.Ok? ==>
        var (ks, psi) := (KsTest(f).value, CalculatePsi(f, DefaultBins).value);
        && CalculatePsi(f, DefaultBins).Ok?
        && r.value == ContinuousDetail(ks, psi, r.value.driftDetected)
        && psi.psi.Finite?
        && (r.value.driftDetected <==> ks.pValue < significanceLevel || psi.psi.value >= psiThreshold)
    {
      match KsTest(f)
      case Err(e) => Err(e)
      case Ok(ks) =>
        PsiFiniteWhenKsSucceeds(f, DefaultBins);
        match CalculatePsi(f, DefaultBins)
        case Err(e) => Err(e)
        case Ok(psi) => Ok(ContinuousDetail(ks, psi, ks.driftDetected || psi.driftDetected))
    }

    /** The detail entry of one categorical feature: the Chi-square result,
        whose flag is the feature's verdict. */
    function CategoricalOutcome(f: string): (r: Result<FeatureDetail, DriftError>)
      ensures r.Ok? <==> ChiSquare(f).Ok?
      ensures ChiSquare(f).Err? ==> r == Err(ChiSquare(f).error)
      ensures r.Ok? ==> r.value == CategoricalDetail(ChiSquare(f).value, ChiSquare(f).value.pValue < significanceLevel)
    {
      match ChiSquare(f)
      case Err(e) => Err(e)
      case Ok(chi) => Ok(CategoricalDetail(chi, chi.driftDetected))
    }

    function Outcome(v: Visit): Result<FeatureDetail, DriftError>
    {
      match v.kind
      case ContinuousKind => ContinuousOutcome(v.feature)
      case CategoricalKind => CategoricalOutcome(v.feature)
    }

    /** The order in which `detect_drift` visits the features. */
    function Traversal(): (r: seq<Visit>)
      ensures |r| == |continuousFeatures| + |categoricalFeatures|
      ensures forall i :: 0 <= i < |continuousFeatures| ==> r[i] == Visit(continuousFeatures[i], ContinuousKind)
      ensures forall j :: 0 <= j < |categoricalFeatures| ==>
        r[|continuousFeatures| + j] == Visit(categoricalFeatures[j], CategoricalKind)
    {
      VisitsOf(continuousFeatures, ContinuousKind) + VisitsOf(categoricalFeatures, CategoricalKind)
    }

    /** One continuous feature of `detect_drift`: KS, then PSI with the
        default number of bins, and drift when either flags it. */
    method CompareContinuous(feature: string) returns (r: Result<FeatureDetail, DriftError>)
      ensures r == ContinuousOutcome(feature)
    {
      var ks := KsTest(feature);
      if ks.Err? {
        return Err(ks.error);
      }
      var psi := CalculatePsi(feature, DefaultBins);
      if psi.Err? {
        return Err(psi.error);
      }
      var drift := ks.value.driftDetected || psi.value.driftDetected;
      r := Ok(ContinuousDetail(ks.value, psi.value, drift));
    }

    /** A feature that passes the KS test has samples on both sides, so its
        PSI is a number: `detect_drift` never sees a NaN index. */
    lemma PsiFiniteWhenKsSucceeds(f: string, bins: nat)
      requires KsTest(f).Ok?
      ensures CalculatePsi(f, bins).Ok? && CalculatePsi(f, bins).value.psi.Finite?
    {
    }

    /** With a logarithm of the usual signs, PSI is never negative. */
    lemma PsiNeverNegative(f: string, bins: nat)
      requires LogSign(numerics.ln)
      requires CalculatePsi(f, bins).Ok? && CalculatePsi(f, bins).value.psi.Finite?
      ensures CalculatePsi(f, bins).value.psi.value >= 0.0
    {
      var (ref, prod) := NumericSamples(reference, production, f).value;
      var edges := Unique(Percentiles(ref, bins, numerics.percentile));
      if NumBins(edges) > 0 {
        PsiNonNegative(ref, prod, edges, numerics.ln);
      }
    }

    /** A feature whose values are the same in both datasets has PSI zero and,
        with a positive threshold such as the default, shows no PSI drift. */
    lemma UnchangedFeatureHasNoPsiDrift(f: string, bins: nat)
      requires f in reference.data && f in production.data
      requires reference.data[f].values == production.data[f].values
      requires numerics.ln(1.0) == 0.0 && psiThreshold > 0.0
      requires CalculatePsi(f, bins).Ok?
      ensures CalculatePsi(f, bins).value == PsiResult(Finite(0.0), false)
    {
      var (ref, prod) := NumericSamples(reference, production, f).value;
      assert ref == prod by {
        NumbersInjective(DropMissing(reference.data[f].values), ref, prod);
      }
      PsiOfSameSampleIsZero(ref, Unique(Percentiles(ref, bins, numerics.percentile)), numerics.ln);
    }

    /** When the percentile routine obeys its documented laws, the breakpoints
        of a feature run from the reference minimum to its maximum; unless the
        reference is constant there is at least one bin, every reference value
        is counted, and the reference shares before clamping sum to one. */
    lemma ReferenceSharesSumToOne(f: string, bins: nat)
      requires PercentileLaws(numerics.percentile) && bins > 0
      requires CalculatePsi(f, bins).Ok?
      ensures NumericSamples(reference, production, f).Ok? && |NumericSamples(reference, production, f).value.0| > 0
      ensures CoversReference(NumericSamples(reference, production, f).value.0,
                              Unique(Percentiles(NumericSamples(reference, production, f).value.0, bins, numerics.percentile)))
    {
      ReferenceBreakpoints(NumericSamples(reference, production, f).value.0, bins, numerics.percentile);
    }

    /** A report is produced exactly when every comparison succeeds; otherwise
        `detect_drift` fails with the error of the first failing feature in
        traversal order. */
    lemma DetectDriftFails()
      ensures Aggregate(Traversal(), Outcome).Ok? <==>
        (forall f :: f in continuousFeatures ==> ContinuousOutcome(f).Ok?) &&
        (forall f :: f in categoricalFeatures ==> ChiSquare(f).Ok?)
      ensures Aggregate(Traversal(), Outcome).Err? ==>
        exists i :: 0 <= i < |Traversal()| && Outcome(Traversal()[i]) == Err(Aggregate(Traversal(), Outcome).error) &&
          forall j :: 0 <= j < i ==> Outcome(Traversal()[j]).Ok?
    {
      AggregateSucceeds(Traversal(), Outcome);
      EveryVisitSucceeds();
    }

    /** Every visit succeeds exactly when every feature's comparison does. */
    lemma EveryVisitSucceeds()
      ensures (forall i :: 0 <= i < |Traversal()| ==> Outcome(Traversal()[i]).Ok?) <==>
        (forall f :: f in continuousFeatures ==> ContinuousOutcome(f).Ok?) &&
        (forall f :: f in categoricalFeatures ==> ChiSquare(f).Ok?)
    {
      EveryVisitOfTwoPasses(continuousFeatures, categoricalFeatures, Outcome);
      assert Traversal() == VisitsOf(continuousFeatures, ContinuousKind) + VisitsOf(categoricalFeatures, CategoricalKind);
      assert forall f :: Outcome(Visit(f, ContinuousKind)) == ContinuousOutcome(f);
      assert forall f :: Outcome(Visit(f, CategoricalKind)).Ok? <==> ChiSquare(f).Ok?;
    }

    /** `detect_drift`'s report has an entry for every column of the
        reference dataset and every categorical feature: a categorical
        feature's entry is its Chi-square result, a continuous feature's entry
        its KS and PSI results. */
    lemma ReportEntries()
      requires Valid()
      requires Aggregate(Traversal(), Outcome).Ok?
      ensures var report := Aggregate(Traversal(), Outcome).value;
        && report.featureDetails.Keys == Elements(reference.columns) + Elements(categoricalFeatures)
        && (forall f :: f in categoricalFeatures ==>
              ChiSquare(f).Ok? && report.featureDetails[f] == CategoricalDetail(ChiSquare(f).value, ChiSquare(f).value.driftDetected))
        && (forall f :: f in continuousFeatures ==>
              f in report.featureDetails && KsTest(f).Ok? && CalculatePsi(f, DefaultBins).Ok? &&
              CalculatePsi(f, DefaultBins).value.psi.Finite? &&
              report.featureDetails[f] == ContinuousDetail(KsTest(f).value, CalculatePsi(f, DefaultBins).value,
                KsTest(f).value.pValue < significanceLevel || CalculatePsi(f, DefaultBins).value.psi.value >= psiThreshold))
    {
      var report := Aggregate(Traversal(), Outcome).value;
      TraversalKeys();
      forall f | f in categoricalFeatures
        ensures ChiSquare(f).Ok? && report.featureDetails[f] == CategoricalDetail(ChiSquare(f).value, ChiSquare(f).value.driftDetected)
      {
        CategoricalEntry(f);
      }
      forall f | f in continuousFeatures
        ensures f in report.featureDetails && KsTest(f).Ok? && CalculatePsi(f, DefaultBins).Ok? &&
                CalculatePsi(f, DefaultBins).value.psi.Finite? &&
                report.featureDetails[f] == ContinuousDetail(KsTest(f).value, CalculatePsi(f, DefaultBins).value,
                  KsTest(f).value.pValue < significanceLevel || CalculatePsi(f, DefaultBins).value.psi.value >= psiThreshold)
      {
        ContinuousEntry(f);
      }
    }

    lemma TraversalKeys()
      requires Valid()
      requires Aggregate(Traversal(), Outcome).Ok?
      ensures Aggregate(Traversal(), Outcome).value.featureDetails.Keys ==
        Elements(reference.columns) + Elements(categoricalFeatures)
    {
      TraversalReport(continuousFeatures, categoricalFeatures, Outcome);
    }

    lemma CategoricalEntry(f: string)
      requires Aggregate(Traversal(), Outcome).Ok?
      requires f in categoricalFeatures
      ensures f in Aggregate(Traversal(), Outcome).value.featureDetails
      ensures Outcome(Visit(f, CategoricalKind)) == Ok(Aggregate(Traversal(), Outcome).value.featureDetails[f])
    {
      TraversalReport(continuousFeatures, categoricalFeatures, Outcome);
    }

    lemma ContinuousEntry(f: string)
      requires Valid()
      requires Aggregate(Traversal(), Outcome).Ok?
      requires f in continuousFeatures
      ensures f in Aggregate(Traversal(), Outcome).value.featureDetails
      ensures Outcome(Visit(f, ContinuousKind)) == Ok(Aggregate(Traversal(), Outcome).value.featureDetails[f])
    {
      assert f in Elements(continuousFeatures);
      assert f !in Elements(categoricalFeatures);
      TraversalReport(continuousFeatures, categoricalFeatures, Outcome);
    }

    /** `detect_drift`'s drift list holds the drifted continuous features in
        traversal order, then the drifted categorical ones, and exactly the
        features whose entry flags drift; the overall flag is raised exactly
        when that list is non-empty. */
    lemma ReportDriftList()
      requires Valid()
      requires Aggregate(Traversal(), Outcome).Ok?
      ensures var report := Aggregate(Traversal(), Outcome).value;
        && report.featuresWithDrift ==
             DriftedFeatures(VisitsOf(continuousFeatures, ContinuousKind), Outcome) +
             DriftedFeatures(VisitsOf(categoricalFeatures, CategoricalKind), Outcome)
        && (forall f :: f in report.featuresWithDrift <==>
              f in report.featureDetails && report.featureDetails[f].driftDetected)
        && (report.driftDetected <==> report.featuresWithDrift != [])
    {
      var report := Aggregate(Traversal(), Outcome).value;
      AggregateReport(Traversal(), Outcome);
      DriftedFeaturesAppend(VisitsOf(continuousFeatures, ContinuousKind), VisitsOf(categoricalFeatures, CategoricalKind), Outcome);
      forall i | 0 <= i < |Traversal()|
        ensures Traversal()[i].feature in report.featureDetails
        ensures Outcome(Traversal()[i]) == Ok(report.featureDetails[Traversal()[i].feature])
      {
        SameOutcomePerFeature(report, i);
      }
      DriftListFromEntries(Traversal(), Outcome, report);
    }

    /** A categorical feature named several times is compared once per
        occurrence, and when it drifts it is listed once per occurrence. */
    lemma RepeatedCategoricalListing(f: string)
      requires Valid()
      requires Aggregate(Traversal(), Outcome).Ok?
      requires f in categoricalFeatures
      ensures var report := Aggregate(Traversal(), Outcome).value;
        f in report.featureDetails && Count(report.featuresWithDrift, f) ==
          if report.featureDetails[f].driftDetected then Count(categoricalFeatures, f) else 0
    {
      assert f !in continuousFeatures by {
        assert f in Elements(categoricalFeatures);
        assert f !in Elements(continuousFeatures);
      }
      SecondPassListing(continuousFeatures, categoricalFeatures, Outcome, f);
      CategoricalEntry(f);
    }

    /** Every visit of a feature gives the entry the report holds for it:
        the continuous and categorical features do not overlap, and repeated
        visits of a categorical feature repeat its result. */
    lemma SameOutcomePerFeature(report: DriftReport, i: nat)
      requires Valid()
      requires Aggregate(Traversal(), Outcome) == Ok(report)
      requires i < |Traversal()|
      ensures Traversal()[i].feature in report.featureDetails
      ensures Outcome(Traversal()[i]) == Ok(report.featureDetails[Traversal()[i].feature])
    {
      var visits := Traversal();
      var v := visits[i];
      AggregateReport(visits, Outcome);
      assert v.feature in FeaturesOf(visits);
      var w := LastVisit(visits, v.feature);
      var n := |continuousFeatures|;
      if i < n {
        assert v.feature in Elements(continuousFeatures);
      }
      if w in visits[..n] {
        var k :| 0 <= k < n && visits[..n][k] == w;
        assert w == Visit(continuousFeatures[k], ContinuousKind);
        assert w.feature in Elements(continuousFeatures);
      }
      assert v.kind == w.kind by {
        var k :| 0 <= k < |visits| && visits[k] == w;
      }
    }

    /** With automatic detection on a well-formed reference dataset, every
        column gets one entry, categorical exactly when the column is. */
    lemma AutoDetectionCoversColumns()
      requires Valid() && WellFormed(reference)
      requires categoricalFeatures == AutoCategorical(reference)
      requires Aggregate(Traversal(), Outcome).Ok?
      ensures var report := Aggregate(Traversal(), Outcome).value;
        && report.featureDetails.Keys == Elements(reference.columns)
        && forall c :: c in reference.columns ==>
             (report.featureDetails[c].CategoricalDetail? <==> IsCategorical(reference.data[c]))
    {
      AutoCategoricalColumns(reference);
      ReportEntries();
      var report := Aggregate(Traversal(), Outcome).value;
      forall c | c in reference.columns
        ensures report.featureDetails[c].CategoricalDetail? <==> IsCategorical(reference.data[c])
      {
        if !IsCategorical(reference.data[c]) {
          assert c in Elements(continuousFeatures);
        }
      }
    }

    /** `detect_drift`: the report of the traversal, or the error of the first
        comparison that fails. */
    method DetectDrift() returns (r: Result<DriftReport, DriftError>)
      ensures r == Aggregate(Traversal(), Outcome)
    {
      var results := ContinuousPass();
      AggregateAppend(EmptyReport, VisitsOf(continuousFeatures, ContinuousKind),
                      VisitsOf(categoricalFeatures, CategoricalKind), Outcome);
      if results.Err? {
        return results;
      }
      r := CategoricalPass(results.value);
    }

    /** The first loop of `detect_drift`, over the continuous features: the
        report of the continuous visits, or the first error among them. */
    method ContinuousPass() returns (r: Result<DriftReport, DriftError>)
      ensures r == Aggregate(VisitsOf(continuousFeatures, ContinuousKind), Outcome)
    {
      ghost var visits := VisitsOf(continuousFeatures, ContinuousKind);
      var driftDetected := false;
      var featuresWithDrift: seq<string> := [];
      var featureDetails: map<string, FeatureDetail> := map[];
      assert visits[..0] == [];
      for i := 0 to |continuousFeatures|
        invariant AggregateFrom(EmptyReport, visits[..i], Outcome) ==
          Ok(DriftReport(driftDetected, featuresWithDrift, featureDetails))
      {
        var feature := continuousFeatures[i];
        var detail := CompareContinuous(feature);
        assert Outcome(visits[i]) == detail;
        ghost var before := DriftReport(driftDetected, featuresWithDrift, featureDetails);
        if detail.Err? {
          AggregateStepErr(EmptyReport, visits, i, Outcome, before, detail.error);
          return Err(detail.error);
        }
        featureDetails := featureDetails[feature := detail.value];
        if detail.value.driftDetected {
          featuresWithDrift := featuresWithDrift + [feature];
          driftDetected := true;
        }
        AggregateStepOk(EmptyReport, visits, i, Outcome, before, detail.value);
      }
      assert visits[..|continuousFeatures|] == visits;
      r := Ok(DriftReport(driftDetected, featuresWithDrift, featureDetails));
    }

    /** The second loop of `detect_drift`, over the categorical features,
        continuing the report `results` of the continuous visits. */
    method CategoricalPass(results: DriftReport) returns (r: Result<DriftReport, DriftError>)
      ensures r == AggregateFrom(results, VisitsOf(categoricalFeatures, CategoricalKind), Outcome)
    {
      ghost var visits := VisitsOf(categoricalFeatures, CategoricalKind);
      var driftDetected := results.driftDetected;
      var featuresWithDrift := results.featuresWithDrift;
      var featureDetails := results.featureDetails;
      assert visits[..0] == [];
      for j := 0 to |categoricalFeatures|
        invariant AggregateFrom(results, visits[..j], Outcome) ==
          Ok(DriftReport(driftDetected, featuresWithDrift, featureDetails))
      {
        var feature := categoricalFeatures[j];
        var detail := CompareCategorical(feature);
        assert Outcome(visits[j]) == detail;
        ghost var before := DriftReport(driftDetected, featuresWithDrift, featureDetails);
        if detail.Err? {
          AggregateStepErr(results, visits, j, Outcome, before, detail.error);
          return Err(detail.error);
        }
        featureDetails := featureDetails[feature := detail.value];
        if detail.value.driftDetected {
          featuresWithDrift := featuresWithDrift + [feature];
          driftDetected := true;
        }
        AggregateStepOk(results, visits, j, Outcome, before, detail.value);
      }
      assert visits[..|categoricalFeatures|] == visits;
      r := Ok(DriftReport(driftDetected, featuresWithDrift, featureDetails));
    }

    /** One categorical feature of `detect_drift`: the Chi-square test, whose
        flag is the feature's verdict. */
    method CompareCategorical(feature: string) returns (r: Result<FeatureDetail, DriftError>)
      ensures r == CategoricalOutcome(feature)
    {
      var chi := ChiSquareTest(feature);
      if chi.Err? {
        return Err(chi.error);
      }
      r := Ok(CategoricalDetail(chi.value, chi.value.driftDetected));
    }
  }
}

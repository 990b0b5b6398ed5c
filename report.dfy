/** The result records of the detector and the aggregation policy of
    `detect_drift`: every feature is visited in order (continuous features
    first, then categorical ones), its detail entry is stored under its name,
    a drifted feature is appended to the list, and the overall flag is raised.
    The first failing comparison aborts the whole report, as the exception it
    stands for does. */
module Report {
  import opened Collections
  import opened Psi

  /** Which dataset a missing column was looked up in. */
  datatype Side = Reference | Production

  /** The ways one comparison can fail; each aborts `detect_drift`. */
  datatype DriftError =
    | MissingColumn(side: Side, feature: string)  // `frame[feature]` raises a key error
    | NonNumeric(feature: string)                 // a continuous feature holds a non-number
    | EmptySample(feature: string)                // a continuous test got no non-missing value
    | DegenerateTable(feature: string)            // Chi-square on a table with a zero marginal

  /** A test's statistic, its p-value and its drift flag. */
  datatype TestResult = TestResult(statistic: real, pValue: real, driftDetected: bool)

  datatype PsiResult = PsiResult(psi: PsiValue, driftDetected: bool)

  /** The detail entry of one feature, tagged with the feature's type. */
  datatype FeatureDetail =
    | ContinuousDetail(ks: TestResult, psi: PsiResult, driftDetected: bool)
    | CategoricalDetail(chiSquare: TestResult, driftDetected: bool)

  datatype DriftReport = DriftReport(
    driftDetected: bool,
    featuresWithDrift: seq<string>,
    featureDetails: map<string, FeatureDetail>)

  datatype FeatureKind = ContinuousKind | CategoricalKind

  /** One step of the traversal: a feature and the test family it goes to. */
  datatype Visit = Visit(feature: string, kind: FeatureKind)

  /** The comparison run at a visit: a detail entry or the error it raises. */
  type Outcomes = Visit -> Result<FeatureDetail, DriftError>

  const EmptyReport: DriftReport := DriftReport(false, [], map[])

  /** The visits of a list of features, all of one kind, in list order. */
  function VisitsOf(features: seq<string>, kind: FeatureKind): (r: seq<Visit>)
    ensures |r| == |features|
    ensures forall i :: 0 <= i < |r| ==> r[i] == Visit(features[i], kind)
  {
    seq(|features|, i requires 0 <= i < |features| => Visit(features[i], kind))
  }

  /** Stores one feature's detail and, if it drifted, lists it and raises the flag. */
  function Record(report: DriftReport, feature: string, detail: FeatureDetail): DriftReport
  {
    var details := report.featureDetails[feature := detail];
    if detail.driftDetected then DriftReport(true, report.featuresWithDrift + [feature], details)
    else DriftReport(report.driftDetected, report.featuresWithDrift, details)
  }

  /** Recording a detail stores it under the feature, leaves every other
      entry alone, appends the feature to the list exactly when it drifted, and
      raises the flag when it drifted, never lowering it. */
  lemma RecordUpdates(report: DriftReport, feature: string, detail: FeatureDetail)
    ensures var r := Record(report, feature, detail);
      && r.featureDetails.Keys == report.featureDetails.Keys + {feature}
      && r.featureDetails[feature] == detail
      && (forall g :: g in report.featureDetails && g != feature ==> r.featureDetails[g] == report.featureDetails[g])
      && r.featuresWithDrift == report.featuresWithDrift + (if detail.driftDetected then [feature] else [])
      && (r.driftDetected <==> report.driftDetected || detail.driftDetected)
  {
  }

  /** The report built by visiting `visits` in order, or the first error. */
  function Aggregate(visits: seq<Visit>, outcome: Outcomes): Result<DriftReport, DriftError>
  {
    AggregateFrom(EmptyReport, visits, outcome)
  }

  /** The report `start` extended by visiting `visits` in order, or the first error. */
  function AggregateFrom(start: DriftReport, visits: seq<Visit>, outcome: Outcomes): Result<DriftReport, DriftError>
  {
    if visits == [] then Ok(start)
    else
      var v := visits[|visits| - 1];
      match AggregateFrom(start, visits[..|visits| - 1], outcome)
      case Err(e) => Err(e)
      case Ok(report) =>
        match outcome(v)
        case Err(e) => Err(e)
        case Ok(detail) => Ok(Record(report, v.feature, detail))
  }

  /** Visiting `a` and then `b` is visiting `b` from the report of `a`. */
  lemma {:induction false} AggregateAppend(start: DriftReport, a: seq<Visit>, b: seq<Visit>, outcome: Outcomes)
    ensures AggregateFrom(start, a + b, outcome) ==
      match AggregateFrom(start, a, outcome)
      case Err(e) => Err(e)
      case Ok(report) => AggregateFrom(report, b, outcome)
  {
    if b == [] {
      assert a + b == a;
    } else {
      var n := |b| - 1;
      AggregateAppend(start, a, b[..n], outcome);
      assert (a + b)[..|a + b| - 1] == a + b[..n];
    }
  }

  /** A visit whose comparison succeeded and flagged drift. */
  predicate Drifts(v: Visit, outcome: Outcomes)
  {
    outcome(v).Ok? && outcome(v).value.driftDetected
  }

  /** The features of the drifting visits, in visiting order, once per visit. */
  function DriftedFeatures(visits: seq<Visit>, outcome: Outcomes): (r: seq<string>)
    ensures |r| <= |visits|
    ensures forall f :: f in r <==> exists i :: 0 <= i < |visits| && visits[i].feature == f && Drifts(visits[i], outcome)
  {
    if visits == [] then []
    else
      var n := |visits| - 1;
      var init := DriftedFeatures(visits[..n], outcome);
      assert forall i :: 0 <= i < n ==> visits[..n][i] == visits[i];
      if Drifts(visits[n], outcome) then init + [visits[n].feature] else init
  }

  /** A single visit is listed exactly when it drifts. */
  lemma DriftedFeaturesSingle(v: Visit, outcome: Outcomes)
    ensures DriftedFeatures([v], outcome) == if Drifts(v, outcome) then [v.feature] else []
  {
    assert [v][..0] == [];
  }

  lemma {:induction false} DriftedFeaturesAppend(a: seq<Visit>, b: seq<Visit>, outcome: Outcomes)
    ensures DriftedFeatures(a + b, outcome) == DriftedFeatures(a, outcome) + DriftedFeatures(b, outcome)
  {
    if b != [] {
      var n := |b| - 1;
      DriftedFeaturesAppend(a, b[..n], outcome);
      assert (a + b)[..|a + b| - 1] == a + b[..n];
      assert (a + b)[|a + b| - 1] == b[n];
    } else {
      assert a + b == a;
    }
  }

  /** Visiting a list of features of one kind lists a drifting feature once
      per occurrence in the list, and a feature that does not drift never. */
  lemma {:induction false} DriftedFeaturesCount(features: seq<string>, kind: FeatureKind, outcome: Outcomes, f: string)
    ensures Count(DriftedFeatures(VisitsOf(features, kind), outcome), f) ==
      if Drifts(Visit(f, kind), outcome) then Count(features, f) else 0
  {
    if features != [] {
      var n := |features| - 1;
      var visits := VisitsOf(features, kind);
      assert visits[..n] == VisitsOf(features[..n], kind);
      assert features == features[..n] + [features[n]];
      DriftedFeaturesCount(features[..n], kind, outcome, f);
      CountSnoc(features[..n], features[n], f);
      var init := DriftedFeatures(visits[..n], outcome);
      assert visits[n] == Visit(features[n], kind);
      if Drifts(visits[n], outcome) {
        assert DriftedFeatures(visits, outcome) == init + [features[n]];
        CountSnoc(init, features[n], f);
      } else {
        assert DriftedFeatures(visits, outcome) == init;
      }
    }
  }

  /** The features visited. */
  function FeaturesOf(visits: seq<Visit>): set<string>
  {
    set i | 0 <= i < |visits| :: visits[i].feature
  }

  /** The last visit of a visited feature. */
  function LastVisit(visits: seq<Visit>, f: string): (v: Visit)
    requires f in FeaturesOf(visits)
    ensures v in visits && v.feature == f
  {
    var n := |visits| - 1;
    if visits[n].feature == f then visits[n]
    else
      assert f in FeaturesOf(visits[..n]) by {
        var i :| 0 <= i < |visits| && visits[i].feature == f;
        assert visits[..n][i] == visits[i];
      }
      var v := LastVisit(visits[..n], f);
      assert v in visits by {
        var j :| 0 <= j < n && visits[..n][j] == v;
        assert visits[j] == v;
      }
      v
  }

  /** `LastVisit` is the last visit of the feature: no later visit has it. */
  lemma {:induction false} LastVisitIsLast(visits: seq<Visit>, f: string)
    requires f in FeaturesOf(visits)
    ensures exists k :: 0 <= k < |visits| && visits[k] == LastVisit(visits, f) &&
                        (forall j :: k < j < |visits| ==> visits[j].feature != f)
  {
    var n := |visits| - 1;
    if visits[n].feature != f {
      var init := visits[..n];
      assert f in FeaturesOf(init) by {
        var i :| 0 <= i < |visits| && visits[i].feature == f;
        assert init[i] == visits[i];
      }
      LastVisitIsLast(init, f);
      var k :| 0 <= k < |init| && init[k] == LastVisit(init, f) &&
               (forall j :: k < j < |init| ==> init[j].feature != f);
      assert visits[k] == LastVisit(visits, f);
      forall j | k < j < |visits| ensures visits[j].feature != f {
        if j < n {
          assert init[j] == visits[j];
        }
      }
    } else {
      assert visits[n] == LastVisit(visits, f);
    }
  }

  /** Once a prefix of the visits fails, the whole aggregation fails with that error. */
  lemma {:induction false} AggregateAfterError(visits: seq<Visit>, k: nat, outcome: Outcomes)
    requires k <= |visits|
    requires Aggregate(visits[..k], outcome).Err?
    ensures Aggregate(visits, outcome) == Aggregate(visits[..k], outcome)
  {
    if k < |visits| {
      var n := |visits| - 1;
      assert visits[..n][..k] == visits[..k];
      AggregateAfterError(visits[..n], k, outcome);
    } else {
      assert visits[..k] == visits;
    }
  }

  /** A further visit whose comparison succeeds records its detail. */
  lemma AggregateStepOk(start: DriftReport, visits: seq<Visit>, k: nat, outcome: Outcomes,
                        report: DriftReport, detail: FeatureDetail)
    requires k < |visits|
    requires AggregateFrom(start, visits[..k], outcome) == Ok(report)
    requires outcome(visits[k]) == Ok(detail)
    ensures AggregateFrom(start, visits[..k + 1], outcome) == Ok(Record(report, visits[k].feature, detail))
  {
    assert visits[..k + 1][..k] == visits[..k];
  }

  /** A further visit whose comparison fails decides the whole aggregation. */
  lemma AggregateStepErr(start: DriftReport, visits: seq<Visit>, k: nat, outcome: Outcomes,
                         report: DriftReport, e: DriftError)
    requires k < |visits|
    requires AggregateFrom(start, visits[..k], outcome) == Ok(report)
    requires outcome(visits[k]) == Err(e)
    ensures AggregateFrom(start, visits, outcome) == Err(e)
  {
    assert visits[..k + 1][..k] == visits[..k];
    AggregateAppend(start, visits[..k + 1], visits[k + 1..], outcome);
    assert visits[..k + 1] + visits[k + 1..] == visits;
  }

  /** The report is produced exactly when every comparison succeeds; otherwise
      the error is that of the first failing visit. */
  lemma {:induction false} AggregateSucceeds(visits: seq<Visit>, outcome: Outcomes)
    ensures Aggregate(visits, outcome).Ok? <==> forall i :: 0 <= i < |visits| ==> outcome(visits[i]).Ok?
    ensures Aggregate(visits, outcome).Err? ==>
      exists i :: 0 <= i < |visits| && outcome(visits[i]) == Err(Aggregate(visits, outcome).error) &&
        forall j :: 0 <= j < i ==> outcome(visits[j]).Ok?
  {
    if visits != [] {
      var n := |visits| - 1;
      AggregateSucceeds(visits[..n], outcome);
      assert forall i :: 0 <= i < n ==> visits[..n][i] == visits[i];
    }
  }

  /** Every visit of the two passes succeeds exactly when every feature of
      each pass succeeds with its own kind of comparison. */
  lemma EveryVisitOfTwoPasses(first: seq<string>, second: seq<string>, outcome: Outcomes)
    ensures var visits := VisitsOf(first, ContinuousKind) + VisitsOf(second, CategoricalKind);
      (forall i :: 0 <= i < |visits| ==> outcome(visits[i]).Ok?) <==>
        (forall f :: f in first ==> outcome(Visit(f, ContinuousKind)).Ok?) &&
        (forall f :: f in second ==> outcome(Visit(f, CategoricalKind)).Ok?)
  {
    var visits := VisitsOf(first, ContinuousKind) + VisitsOf(second, CategoricalKind);
    var n := |first|;
    if forall i :: 0 <= i < |visits| ==> outcome(visits[i]).Ok? {
      forall f | f in first ensures outcome(Visit(f, ContinuousKind)).Ok? {
        var i :| 0 <= i < n && first[i] == f;
        assert visits[i] == Visit(f, ContinuousKind);
      }
      forall f | f in second ensures outcome(Visit(f, CategoricalKind)).Ok? {
        var j :| 0 <= j < |second| && second[j] == f;
        assert visits[n + j] == Visit(f, CategoricalKind);
      }
    } else {
      var i :| 0 <= i < |visits| && outcome(visits[i]).Err?;
      if i < n {
        assert visits[i] == Visit(first[i], ContinuousKind) && first[i] in first;
      } else {
        assert visits[i] == Visit(second[i - n], CategoricalKind) && second[i - n] in second;
      }
    }
  }

  /** A successful report has a detail entry for every visited feature, namely
      that of its last visit; lists the drifting visits in order; and raises
      the overall flag exactly when that list is non-empty. */
  lemma {:induction false} AggregateReport(visits: seq<Visit>, outcome: Outcomes)
    requires Aggregate(visits, outcome).Ok?
    ensures Aggregate(visits, outcome).value.featureDetails.Keys == FeaturesOf(visits)
    ensures forall f :: f in FeaturesOf(visits) ==>
      outcome(LastVisit(visits, f)) == Ok(Aggregate(visits, outcome).value.featureDetails[f])
    ensures Aggregate(visits, outcome).value.featuresWithDrift == DriftedFeatures(visits, outcome)
    ensures Aggregate(visits, outcome).value.driftDetected <==> Aggregate(visits, outcome).value.featuresWithDrift != []
  {
    if visits != [] {
      var n := |visits| - 1;
      var init := visits[..n];
      AggregateReport(init, outcome);
      assert FeaturesOf(visits) == FeaturesOf(init) + {visits[n].feature} by {
        assert forall i :: 0 <= i < n ==> init[i] == visits[i];
      }
    }
  }

  /** When every visit's outcome is the entry the report holds for its feature,
      a feature is listed exactly when its entry flags drift. */
  lemma DriftListFromEntries(visits: seq<Visit>, outcome: Outcomes, report: DriftReport)
    requires Aggregate(visits, outcome) == Ok(report)
    requires forall i :: 0 <= i < |visits| ==>
      visits[i].feature in report.featureDetails && outcome(visits[i]) == Ok(report.featureDetails[visits[i].feature])
    ensures forall f :: f in report.featuresWithDrift <==>
      f in report.featureDetails && report.featureDetails[f].driftDetected
  {
    AggregateReport(visits, outcome);
    forall f | f in report.featureDetails && report.featureDetails[f].driftDetected
      ensures f in report.featuresWithDrift
    {
      var i :| 0 <= i < |visits| && visits[i].feature == f;
      assert Drifts(visits[i], outcome);
    }
  }

  /** The last visit of a feature in `a + b` is in `b` if `b` visits it at all. */
  lemma {:induction false} LastVisitAppend(a: seq<Visit>, b: seq<Visit>, f: string)
    requires f in FeaturesOf(a + b)
    ensures f in FeaturesOf(b) ==> LastVisit(a + b, f) == LastVisit(b, f)
    ensures f !in FeaturesOf(b) ==> f in FeaturesOf(a) && LastVisit(a + b, f) == LastVisit(a, f)
  {
    if b == [] {
      assert a + b == a;
    } else {
      var n := |b| - 1;
      assert (a + b)[..|a + b| - 1] == a + b[..n];
      if b[n].feature != f {
        assert f in FeaturesOf(b) <==> f in FeaturesOf(b[..n]) by {
          assert forall i :: 0 <= i < n ==> b[..n][i] == b[i];
        }
        LastVisitAppend(a, b[..n], f);
      }
    }
  }

  lemma FeaturesOfVisits(features: seq<string>, kind: FeatureKind)
    ensures FeaturesOf(VisitsOf(features, kind)) == Elements(features)
  {
    var vs := VisitsOf(features, kind);
    forall f | f in Elements(features) ensures f in FeaturesOf(vs) {
      var i :| 0 <= i < |features| && features[i] == f;
      assert vs[i].feature == f;
    }
  }

  lemma FeaturesOfAppend(a: seq<Visit>, b: seq<Visit>)
    ensures FeaturesOf(a + b) == FeaturesOf(a) + FeaturesOf(b)
  {
    forall f | f in FeaturesOf(a) ensures f in FeaturesOf(a + b) {
      var i :| 0 <= i < |a| && a[i].feature == f;
      assert (a + b)[i] == a[i];
    }
    forall f | f in FeaturesOf(b) ensures f in FeaturesOf(a + b) {
      var i :| 0 <= i < |b| && b[i].feature == f;
      assert (a + b)[|a| + i] == b[i];
    }
  }

  /** In the two passes, a feature of the second pass only, named several
      times, is listed once per occurrence when its comparison drifts. */
  lemma SecondPassListing(first: seq<string>, second: seq<string>, outcome: Outcomes, f: string)
    requires Aggregate(VisitsOf(first, ContinuousKind) + VisitsOf(second, CategoricalKind), outcome).Ok?
    requires f in second && f !in first
    ensures var report := Aggregate(VisitsOf(first, ContinuousKind) + VisitsOf(second, CategoricalKind), outcome).value;
      Count(report.featuresWithDrift, f) ==
        if Drifts(Visit(f, CategoricalKind), outcome) then Count(second, f) else 0
  {
    var a := VisitsOf(first, ContinuousKind);
    var b := VisitsOf(second, CategoricalKind);
    AggregateReport(a + b, outcome);
    DriftedFeaturesAppend(a, b, outcome);
    CountAppend(DriftedFeatures(a, outcome), DriftedFeatures(b, outcome), f);
    DriftedFeaturesCount(first, ContinuousKind, outcome, f);
    DriftedFeaturesCount(second, CategoricalKind, outcome, f);
  }

  /** What `detect_drift` promises of the traversal of the continuous features
      followed by the categorical ones: a categorical entry for every
      categorical feature, a continuous entry for every other continuous one,
      the drifted features continuous-first in traversal order, and the flag
      raised exactly when some feature drifted. */
  lemma TraversalReport(continuous: seq<string>, categorical: seq<string>, outcome: Outcomes)
    requires Aggregate(VisitsOf(continuous, ContinuousKind) + VisitsOf(categorical, CategoricalKind), outcome).Ok?
    ensures var report := Aggregate(VisitsOf(continuous, ContinuousKind) + VisitsOf(categorical, CategoricalKind), outcome).value;
      && report.featureDetails.Keys == Elements(continuous) + Elements(categorical)
      && (forall f :: f in categorical ==>
            outcome(Visit(f, CategoricalKind)) == Ok(report.featureDetails[f]))
      && (forall f :: f in continuous && f !in categorical ==>
            outcome(Visit(f, ContinuousKind)) == Ok(report.featureDetails[f]))
      && report.featuresWithDrift ==
           DriftedFeatures(VisitsOf(continuous, ContinuousKind), outcome) +
           DriftedFeatures(VisitsOf(categorical, CategoricalKind), outcome)
      && (report.driftDetected <==>
            (exists i :: 0 <= i < |continuous| && Drifts(Visit(continuous[i], ContinuousKind), outcome)) ||
            (exists i :: 0 <= i < |categorical| && Drifts(Visit(categorical[i], CategoricalKind), outcome)))
  {
    var report := Aggregate(VisitsOf(continuous, ContinuousKind) + VisitsOf(categorical, CategoricalKind), outcome).value;
    TwoPassEntries(continuous, categorical, outcome, report);
    TwoPassDriftList(continuous, categorical, outcome, report);
  }

  lemma TwoPassEntries(continuous: seq<string>, categorical: seq<string>, outcome: Outcomes, report: DriftReport)
    requires Aggregate(VisitsOf(continuous, ContinuousKind) + VisitsOf(categorical, CategoricalKind), outcome) == Ok(report)
    ensures report.featureDetails.Keys == Elements(continuous) + Elements(categorical)
    ensures forall f :: f in categorical ==> outcome(Visit(f, CategoricalKind)) == Ok(report.featureDetails[f])
    ensures forall f :: f in continuous && f !in categorical ==> outcome(Visit(f, ContinuousKind)) == Ok(report.featureDetails[f])
  {
    var a := VisitsOf(continuous, ContinuousKind);
    var b := VisitsOf(categorical, CategoricalKind);
    AggregateReport(a + b, outcome);
    FeaturesOfAppend(a, b);
    FeaturesOfVisits(continuous, ContinuousKind);
    FeaturesOfVisits(categorical, CategoricalKind);
    forall f | f in categorical
      ensures outcome(Visit(f, CategoricalKind)) == Ok(report.featureDetails[f])
    {
      LastVisitAppend(a, b, f);
      var i :| 0 <= i < |b| && b[i] == LastVisit(b, f);
    }
    forall f | f in continuous && f !in categorical
      ensures outcome(Visit(f, ContinuousKind)) == Ok(report.featureDetails[f])
    {
      LastVisitAppend(a, b, f);
      var i :| 0 <= i < |a| && a[i] == LastVisit(a, f);
    }
  }

  lemma TwoPassDriftList(continuous: seq<string>, categorical: seq<string>, outcome: Outcomes, report: DriftReport)
    requires Aggregate(VisitsOf(continuous, ContinuousKind) + VisitsOf(categorical, CategoricalKind), outcome) == Ok(report)
    ensures report.featuresWithDrift ==
      DriftedFeatures(VisitsOf(continuous, ContinuousKind), outcome) +
      DriftedFeatures(VisitsOf(categorical, CategoricalKind), outcome)
    ensures report.driftDetected <==>
      (exists i :: 0 <= i < |continuous| && Drifts(Visit(continuous[i], ContinuousKind), outcome)) ||
      (exists i :: 0 <= i < |categorical| && Drifts(Visit(categorical[i], CategoricalKind), outcome))
  {
    var a := VisitsOf(continuous, ContinuousKind);
    var b := VisitsOf(categorical, CategoricalKind);
    AggregateReport(a + b, outcome);
    DriftedFeaturesAppend(a, b, outcome);
    var list := report.featuresWithDrift;
    if list != [] {
      var f := list[0];
      assert f in DriftedFeatures(a, outcome) || f in DriftedFeatures(b, outcome);
    }
    if exists i :: 0 <= i < |continuous| && Drifts(Visit(continuous[i], ContinuousKind), outcome) {
      var i :| 0 <= i < |continuous| && Drifts(Visit(continuous[i], ContinuousKind), outcome);
      assert continuous[i] in DriftedFeatures(a, outcome) by { assert a[i] == Visit(continuous[i], ContinuousKind); }
    }
    if exists i :: 0 <= i < |categorical| && Drifts(Visit(categorical[i], CategoricalKind), outcome) {
      var i :| 0 <= i < |categorical| && Drifts(Visit(categorical[i], CategoricalKind), outcome);
      assert categorical[i] in DriftedFeatures(b, outcome) by { assert b[i] == Visit(categorical[i], CategoricalKind); }
    }
  }
}

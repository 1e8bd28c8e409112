/**
 * The stages of src/meta_analysis/utils.py chained as a caller runs them:
 * compute_meta_data on the study table, the first group-by with
 * compute_random_effects, compute_random_variance and zero_if_negative,
 * the join of v0 back onto the studies in apply_corrections, and the
 * second group-by with calculate_constants and calculate_number_es.
 * The lemmas here relate stages to each other: the group totals are what
 * the variance stage needs, corrected weights stay between 0 and the
 * fixed-effect weight, single-study groups drop out of the pooled mean,
 * k_val repeats k, and no result depends on the order of the studies.
 */
module Pipeline {
  import opened Tables
  import opened MetaAnalysis

  /** Every study has a positive weight factor. */
  predicate PositiveWeights(t: seq<Study>)
  {
    forall s :: s in t ==> s.wf > 0.0
  }

  /** The number of studies sharing key k. */
  function StudiesIn(t: seq<Study>, k: Key): nat
  {
    CountWhere(t, StudyKey, k)
  }

  lemma MetaDataDerived(t: seq<Study>)
    requires PositiveWeights(t)
    ensures DerivedPositive(ComputeMetaData(t))
  {
    var rows := ComputeMetaData(t);
    forall r | r in rows ensures r.study.wf > 0.0 && r == ComputeMetaRow(r.study) {
      var i :| 0 <= i < |rows| && rows[i] == r;
      assert t[i] in t;
    }
  }

  /** With positive weights every group total is positive, so the
      division by sum_wi in compute_random_variance is defined. */
  lemma GroupWeightsPositive(rows: seq<MetaRow>)
    requires DerivedPositive(rows)
    ensures forall k :: k in ComputeRandomEffects(rows) ==> ComputeRandomEffects(rows)[k].sumWi > 0.0
  {
    forall k | k in ComputeRandomEffects(rows) ensures ComputeRandomEffects(rows)[k].sumWi > 0.0 {
      var g := Group(rows, MetaKey, k);
      GroupNonEmpty(rows, MetaKey, k);
      assert DerivedPositive(g);
      NotComputedIffSingleStudy(g);
    }
  }

  /** The group table handed to apply_corrections: compute_random_effects,
      then compute_random_variance, then zero_if_negative. Its v0 is
      missing exactly for the groups holding a single study, and is never
      negative otherwise. */
  function GroupVariances(rows: seq<MetaRow>): (r: map<Key, Variance>)
    requires DerivedPositive(rows)
    ensures r.Keys == KeysOf(rows, MetaKey)
    ensures forall k :: k in r ==> r[k].summary == ComputeRandomEffects(rows)[k] && r[k].summary.sumWi > 0.0
    ensures forall k :: k in r ==> r[k] == ClampRow(RandomVariance(r[k].summary))
    ensures forall k :: k in r ==> (r[k].v0.NotComputed? <==> |Group(rows, MetaKey, k)| == 1)
    ensures forall k :: k in r ==> (r[k].v0.Computed? <==> |Group(rows, MetaKey, k)| >= 2)
    ensures forall k :: k in r && r[k].v0.Computed? ==> r[k].v0.value >= 0.0
  {
    GroupWeightsPositive(rows);
    var effects := ComputeRandomEffects(rows);
    var raw := ComputeRandomVariance(effects);
    var r := ZeroIfNegativeTable(raw);
    forall k | k in r
      ensures r[k].v0.NotComputed? <==> |Group(rows, MetaKey, k)| == 1
      ensures r[k].v0.Computed? <==> |Group(rows, MetaKey, k)| >= 2
    {
      GroupVarianceAt(rows, k);
    }
    r
  }

  /** The floored v0 of one group: missing exactly for a single study, a
      number for two or more. */
  lemma GroupVarianceAt(rows: seq<MetaRow>, k: Key)
    requires DerivedPositive(rows) && k in ComputeRandomEffects(rows)
    ensures ComputeRandomEffects(rows)[k].sumWi > 0.0
    ensures var v := ClampV0(RandomVariance(ComputeRandomEffects(rows)[k]).v0);
      && (v.NotComputed? <==> |Group(rows, MetaKey, k)| == 1)
      && (v.Computed? <==> |Group(rows, MetaKey, k)| >= 2)
  {
    var g := Group(rows, MetaKey, k);
    GroupNonEmpty(rows, MetaKey, k);
    assert DerivedPositive(g);
    assert ComputeRandomEffects(rows)[k] == Summarise(g);
    NotComputedIffSingleStudy(g);
  }

  /** The group table computed from a study table. */
  function GroupTable(t: seq<Study>): (r: map<Key, Variance>)
    requires PositiveWeights(t)
    ensures r.Keys == KeysOf(ComputeMetaData(t), MetaKey)
  {
    MetaDataDerived(t);
    GroupVariances(ComputeMetaData(t))
  }

  /** The study table after apply_corrections. */
  function CorrectedStudies(t: seq<Study>): (r: seq<Corrected>)
    requires PositiveWeights(t)
    ensures |r| == |t|
    ensures forall i :: 0 <= i < |t| ==> r[i].meta == ComputeMetaRow(t[i])
  {
    MetaDataDerived(t);
    ApplyCorrections(ComputeMetaData(t), GroupTable(t))
  }

  /** The size of a group of derived rows is the number of studies with
      that key. */
  lemma GroupSizeKept(t: seq<Study>, k: Key)
    requires PositiveWeights(t)
    ensures |Group(ComputeMetaData(t), MetaKey, k)| == StudiesIn(t, k)
  {
    GroupOfMapRows(t, ComputeMetaRow, StudyKey, MetaKey, k);
    GroupCount(t, StudyKey, k);
  }

  /** A corrected weight lies between 0 and the study's weight factor, and
      is positive exactly when the study shares its key with another one:
      a single-study group has no v0, so its weight is zeroed. */
  lemma CorrectedWeightsInPipeline(t: seq<Study>)
    requires PositiveWeights(t)
    ensures forall i :: 0 <= i < |t| ==> 0.0 <= CorrectedStudies(t)[i].wiCorr <= t[i].wf
    ensures forall i :: 0 <= i < |t| ==>
      (CorrectedStudies(t)[i].wiCorr > 0.0 <==> StudiesIn(t, StudyKey(t[i])) >= 2)
  {
    forall i | 0 <= i < |t|
      ensures 0.0 <= CorrectedStudies(t)[i].wiCorr <= t[i].wf
      ensures CorrectedStudies(t)[i].wiCorr > 0.0 <==> StudiesIn(t, StudyKey(t[i])) >= 2
    {
      CorrectedWeightAt(t, i);
    }
  }

  lemma CorrectedWeightAt(t: seq<Study>, i: nat)
    requires PositiveWeights(t) && i < |t|
    ensures 0.0 <= CorrectedStudies(t)[i].wiCorr <= t[i].wf
    ensures CorrectedStudies(t)[i].wiCorr > 0.0 <==> StudiesIn(t, StudyKey(t[i])) >= 2
    ensures WeightSignMatches(t, CorrectedStudies(t)[i])
  {
    MetaDataDerived(t);
    var rows := ComputeMetaData(t);
    var groups := GroupVariances(rows);
    var c := CorrectedStudies(t);
    var k := StudyKey(t[i]);
    assert MetaKey(rows[i]) == k;
    assert k in groups;
    GroupSizeKept(t, k);
    GroupNonEmpty(rows, MetaKey, k);
    assert c[i] == CorrectRow(rows[i], groups[k].v0);
    assert t[i] in t;
    if groups[k].v0.Computed? {
      CorrectedWeightBounds(rows[i], groups[k].v0.value);
    }
  }

  /** Where a group's v0 is 0 the random-effects weight of each of its
      studies is its fixed-effect weight factor. */
  lemma FixedWeightWhenNoVariance(t: seq<Study>, i: nat)
    requires PositiveWeights(t) && i < |t|
    requires StudyKey(t[i]) in GroupTable(t) && GroupTable(t)[StudyKey(t[i])].v0 == Computed(0.0)
    ensures CorrectedStudies(t)[i].wiCorr == t[i].wf
  {
    var rows := ComputeMetaData(t);
    var c := CorrectedStudies(t);
    assert c == ApplyCorrections(rows, GroupTable(t));
    assert MetaKey(rows[i]) == StudyKey(t[i]);
    assert c[i] == CorrectRow(rows[i], Computed(0.0));
    assert t[i] in t;
    CorrectedWeightBounds(rows[i], 0.0);
  }

  /** A corrected row has a non-zero weight exactly when its group holds
      at least two studies of t. */
  predicate WeightSignMatches(t: seq<Study>, x: Corrected)
  {
    Abs(x.wiCorr) > 0.0 <==> StudiesIn(t, CorrectedKey(x)) >= 2
  }

  /** The same sign fact, stated for every row of the corrected table. */
  lemma CorrectedWeightSign(t: seq<Study>)
    requires PositiveWeights(t)
    ensures forall x :: x in CorrectedStudies(t) ==>
      (Abs(x.wiCorr) > 0.0 <==> StudiesIn(t, CorrectedKey(x)) >= 2)
  {
    var c := CorrectedStudies(t);
    forall i | 0 <= i < |c| ensures WeightSignMatches(t, c[i]) {
      CorrectedWeightAt(t, i);
    }
    InSeqIndexed(c, (x: Corrected) => WeightSignMatches(t, x));
    assert forall x :: x in c ==> WeightSignMatches(t, x);
  }

  /** The pooled weight of a group is positive, and so ES_mean is defined,
      exactly when the group holds at least two studies. */
  lemma PooledWeightIffReplicated(t: seq<Study>, k: Key)
    requires PositiveWeights(t)
    requires k in CalculateConstants(CorrectedStudies(t))
    ensures CalculateConstants(CorrectedStudies(t))[k].sumWiCorr > 0.0 <==> StudiesIn(t, k) >= 2
  {
    if StudiesIn(t, k) >= 2 {
      ReplicatedGroupWeighted(t, k);
    } else {
      SingleStudyGroupUnweighted(t, k);
    }
  }

  lemma ReplicatedGroupWeighted(t: seq<Study>, k: Key)
    requires PositiveWeights(t) && StudiesIn(t, k) >= 2
    requires k in CalculateConstants(CorrectedStudies(t))
    ensures CalculateConstants(CorrectedStudies(t))[k].sumWiCorr > 0.0
  {
    var c := CorrectedStudies(t);
    var g := Group(c, CorrectedKey, k);
    GroupNonEmpty(c, CorrectedKey, k);
    assert CalculateConstants(c)[k] == SumCorrections(g);
    CorrectedWeightSign(t);
    SumPositive(g, AbsWiCorrOf);
  }

  lemma SingleStudyGroupUnweighted(t: seq<Study>, k: Key)
    requires PositiveWeights(t) && StudiesIn(t, k) < 2
    requires k in CalculateConstants(CorrectedStudies(t))
    ensures CalculateConstants(CorrectedStudies(t))[k].sumWiCorr == 0.0
  {
    var c := CorrectedStudies(t);
    var g := Group(c, CorrectedKey, k);
    assert CalculateConstants(c)[k] == SumCorrections(g);
    CorrectedWeightSign(t);
    forall x | x in g ensures AbsWiCorrOf(x) == 0.0 {
      assert x in c && CorrectedKey(x) == k;
    }
    SumZero(g, AbsWiCorrOf);
  }

  /** apply_corrections keeps every row's key, so it keeps the keys and
      the group sizes of the table. */
  lemma CorrectionsKeepGroups(rows: seq<MetaRow>, groups: map<Key, Variance>, k: Key)
    ensures KeysOf(ApplyCorrections(rows, groups), CorrectedKey) == KeysOf(rows, MetaKey)
    ensures CountWhere(ApplyCorrections(rows, groups), CorrectedKey, k) == CountWhere(rows, MetaKey, k)
  {
    var c := ApplyCorrections(rows, groups);
    forall i | 0 <= i < |c| ensures CorrectedKey(c[i]) == MetaKey(rows[i]) {
    }
    GroupOfMapRows(rows, CorrectionOf(groups), MetaKey, CorrectedKey, k);
    GroupCount(c, CorrectedKey, k);
    GroupCount(rows, MetaKey, k);
  }

  /** calculate_number_es recounts the groups of compute_random_effects:
      the same keys, and k_val equals k, the number of studies with that
      key, for every group. */
  lemma KValEqualsK(t: seq<Study>)
    requires PositiveWeights(t)
    ensures var effects := ComputeRandomEffects(ComputeMetaData(t));
      var kval := CalculateNumberEs(CorrectedStudies(t));
      && kval.Keys == effects.Keys
      && (forall k :: k in kval ==> kval[k] == effects[k].k == StudiesIn(t, k))
  {
    var rows := ComputeMetaData(t);
    var c := CorrectedStudies(t);
    assert c == ApplyCorrections(rows, GroupTable(t));
    var effects := ComputeRandomEffects(rows);
    var kval := CalculateNumberEs(c);
    CorrectionsKeepGroups(rows, GroupTable(t), ("", ""));
    forall k | k in kval ensures kval[k] == effects[k].k == StudiesIn(t, k) {
      CorrectionsKeepGroups(rows, GroupTable(t), k);
      RandomEffectsPerKey(rows, k);
      GroupSizeKept(t, k);
      GroupCount(rows, MetaKey, k);
    }
  }

  lemma CorrectionWeighted(rows: seq<MetaRow>, groups: map<Key, Variance>, i: nat)
    requires i < |rows|
    ensures var x := ApplyCorrections(rows, groups)[i];
      x.meta == rows[i] && WeightsEffect(x)
  {
    var c := CorrectRow(rows[i], V0For(groups, MetaKey(rows[i])));
    assert ApplyCorrections(rows, groups)[i] == c;
    assert c.meta == rows[i] && c.wxESCorr == c.wiCorr * rows[i].esu;
  }

  /** Each row apply_corrections returns is the correction of one of its
      input rows, and weights that row's bias-corrected effect size. */
  lemma CorrectionsWeighted(rows: seq<MetaRow>, groups: map<Key, Variance>)
    ensures forall x :: x in ApplyCorrections(rows, groups) ==>
      x.meta in rows && WeightsEffect(x)
  {
    var c := ApplyCorrections(rows, groups);
    forall x | x in c ensures x.meta in rows && WeightsEffect(x) {
      var i :| 0 <= i < |c| && c[i] == x;
      CorrectionWeighted(rows, groups, i);
    }
  }

  /** Every corrected row comes from a study of the table, carries a
      non-negative weight, and weights its bias-corrected effect size. */
  lemma CorrectedRowsDerived(t: seq<Study>)
    requires PositiveWeights(t)
    ensures forall x :: x in CorrectedStudies(t) ==>
      && x.meta.study in t && x.meta == ComputeMetaRow(x.meta.study)
      && x.wiCorr >= 0.0 && WeightsEffect(x)
  {
    var c := CorrectedStudies(t);
    var rows := ComputeMetaData(t);
    assert c == ApplyCorrections(rows, GroupTable(t));
    CorrectionsWeighted(rows, GroupTable(t));
    forall x | x in c ensures x.meta.study in t && x.meta == ComputeMetaRow(x.meta.study) && x.wiCorr >= 0.0 {
      var i :| 0 <= i < |c| && c[i] == x;
      CorrectedWeightAt(t, i);
      assert t[i] in t;
    }
  }

  /** The pooled mean ES_mean of a group lies within the range of the
      bias-corrected effect sizes of its studies. */
  lemma PooledMeanInRange(t: seq<Study>, k: Key, lo: real, hi: real)
    requires PositiveWeights(t)
    requires forall s :: s in t && StudyKey(s) == k ==> lo <= s.es * HedgesFactor(s.n) <= hi
    requires k in CalculateConstants(CorrectedStudies(t))
    requires CalculateConstants(CorrectedStudies(t))[k].sumWiCorr > 0.0
    ensures var ck := CalculateConstants(CorrectedStudies(t))[k];
      lo <= ck.sumWxESCorr / ck.sumWiCorr <= hi
  {
    CorrectedRowsDerived(t);
    PooledMeanWithinBounds(CorrectedStudies(t), k, lo, hi);
  }

  /** No group-level result depends on the order of the study table. */
  lemma PipelineOrderIndependent(t: seq<Study>, t': seq<Study>)
    requires PositiveWeights(t) && multiset(t) == multiset(t')
    ensures PositiveWeights(t')
    ensures GroupTable(t) == GroupTable(t')
    ensures CalculateConstants(CorrectedStudies(t)) == CalculateConstants(CorrectedStudies(t'))
    ensures CalculateNumberEs(CorrectedStudies(t)) == CalculateNumberEs(CorrectedStudies(t'))
  {
    CorrectedPermutation(t, t');
    ConstantsOrderIndependent(CorrectedStudies(t), CorrectedStudies(t'));
    NumberEsOrderIndependent(CorrectedStudies(t), CorrectedStudies(t'));
  }

  lemma WeightsPermutation(t: seq<Study>, t': seq<Study>)
    requires PositiveWeights(t) && multiset(t) == multiset(t')
    ensures PositiveWeights(t')
  {
    forall s | s in t' ensures s.wf > 0.0 {
      assert s in multiset(t');
    }
  }

  /** Reordering the studies leaves the group table unchanged and reorders
      the corrected table the same way. */
  lemma CorrectedPermutation(t: seq<Study>, t': seq<Study>)
    requires PositiveWeights(t) && multiset(t) == multiset(t')
    ensures PositiveWeights(t')
    ensures GroupTable(t) == GroupTable(t')
    ensures multiset(CorrectedStudies(t)) == multiset(CorrectedStudies(t'))
  {
    WeightsPermutation(t, t');
    var rows, rows' := ComputeMetaData(t), ComputeMetaData(t');
    MapRowsPermutation(t, t', ComputeMetaRow);
    RandomEffectsOrderIndependent(rows, rows');
    var groups := GroupTable(t);
    assert groups == GroupTable(t');
    assert CorrectedStudies(t) == MapRows(rows, CorrectionOf(groups));
    assert CorrectedStudies(t') == MapRows(rows', CorrectionOf(groups));
    MapRowsPermutation(rows, rows', CorrectionOf(groups));
  }

  /** Two studies of one species and structure: n = 10 and 20, weight
      factors 2 and 4, effect sizes 0.5 and 0.3. */
  function TwoStudies(): (t: seq<Study>)
    ensures PositiveWeights(t) && |t| == 2
  {
    [Study(10, 2.0, 0.5, "sp", "st"), Study(20, 4.0, 0.3, "sp", "st")]
  }

  /** Their group totals are sum_wi = 6, sum_wi2 = 20, wxES = 2.2 (on the
      raw effect sizes), wxES2 = 0.86 and k = 2. */
  lemma TwoStudyTotals()
    ensures ComputeRandomEffects(ComputeMetaData(TwoStudies())) ==
      map[("sp", "st") := Summary(6.0, 20.0, 2, 2.2, 0.86)]
  {
    var key := ("sp", "st");
    var rows := ComputeMetaData(TwoStudies());
    assert KeysOf(rows, MetaKey) == {key};
    assert Group(rows, MetaKey, key) == rows;
    assert rows[0].wES == 1.0 && rows[0].wES2 == 0.5 && rows[0].w2 == 4.0;
    assert rows[1].wES == 1.2 && rows[1].wES2 == 0.36 && rows[1].w2 == 16.0;
    assert rows[1..] == [rows[1]];
    SumSingleton(rows[1], WeightOf);
    SumSingleton(rows[1], W2Of);
    SumSingleton(rows[1], WESOf);
    SumSingleton(rows[1], WES2Of);
    assert Summarise(rows) == Summary(6.0, 20.0, 2, 2.2, 0.86);
  }

  /** Q = 4/75 < k - 1, so v0 = -0.355 before zero_if_negative and 0
      after it, and I2 is negative. */
  lemma TwoStudyVariance()
    ensures ("sp", "st") in GroupTable(TwoStudies())
    ensures var v := GroupTable(TwoStudies())[("sp", "st")];
      && v.q == 4.0 / 75.0
      && RandomVariance(v.summary).v0 == Computed(-0.355)
      && v.v0 == Computed(0.0)
      && I2(v.q, (v.summary.k - 1) as real) == Some(-1775.0)
  {
    var key := ("sp", "st");
    var t := TwoStudies();
    TwoStudyTotals();
    var sm := Summary(6.0, 20.0, 2, 2.2, 0.86);
    assert QStat(sm) == 4.0 / 75.0;
    assert V0Denominator(sm) == 8.0 / 3.0;
    assert RandomVariance(sm).v0 == Computed(-0.355);
    assert GroupTable(t)[key] == ClampRow(RandomVariance(sm));
  }

  /** With v0 = 0 each corrected weight equals its weight factor. */
  lemma TwoStudyCorrections()
    ensures CorrectedStudies(TwoStudies())[0].wiCorr == 2.0
    ensures CorrectedStudies(TwoStudies())[1].wiCorr == 4.0
  {
    var t := TwoStudies();
    TwoStudyVariance();
    assert StudyKey(t[0]) == ("sp", "st") && StudyKey(t[1]) == ("sp", "st");
    FixedWeightWhenNoVariance(t, 0);
    FixedWeightWhenNoVariance(t, 1);
  }

  /** calculate_mean_se on a group of the pipeline, with the group's Q and
      k from the first group table: there is a pooled mean exactly when
      the group holds at least two studies, and a single-study group has
      Q = 0, so its I2 is undefined too. */
  lemma MeanSeOfGroup(t: seq<Study>, k: Key, se: real)
    requires PositiveWeights(t)
    requires k in CalculateConstants(CorrectedStudies(t))
    requires var ck := CalculateConstants(CorrectedStudies(t))[k];
      ck.sumWiCorr > 0.0 ==> IsSeMean(se, ck.sumWiCorr)
    ensures k in GroupTable(t)
    ensures var r := CalculateMeanSe(CalculateConstants(CorrectedStudies(t))[k],
                                     GroupTable(t)[k].q, GroupTable(t)[k].summary.k, se);
      && (r.pooled.Some? <==> StudiesIn(t, k) >= 2)
      && (StudiesIn(t, k) == 1 ==> r.iVal.None?)
  {
    var rows := ComputeMetaData(t);
    var c := CorrectedStudies(t);
    assert c == ApplyCorrections(rows, GroupTable(t));
    CorrectionsKeepGroups(rows, GroupTable(t), k);
    PooledWeightIffReplicated(t, k);
    MetaDataDerived(t);
    var g := Group(rows, MetaKey, k);
    GroupSizeKept(t, k);
    GroupNonEmpty(rows, MetaKey, k);
    assert DerivedPositive(g);
    NotComputedIffSingleStudy(g);
    assert GroupTable(t)[k].summary == Summarise(g);
  }
}

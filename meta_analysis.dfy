/** The stages of the random-effects meta-analysis in
    src/meta_analysis/utils.py, over exact real arithmetic.

    Tables are sequences of row records. A group-level table is a map from
    the (specie_str, structure_renamed) key to the group's row. Where the
    source divides by zero and then replaces the NaN or infinity by 0, the
    model has an explicit branch that yields 0. Where the source leaves the
    NaN in place, the model has an explicit "not computed" value. */
module MetaAnalysis {
  import opened Tables

  datatype Option<T> = None | Some(value: T)

  function Abs(x: real): real
  {
    if x < 0.0 then -x else x
  }

  // ---------------------------------------------------------------------
  // Stage 1: per-study derived fields (compute_meta_data)
  // ---------------------------------------------------------------------

  /** One input row: sample size, weight factor, standardized effect size
      and the two grouping keys. */
  datatype Study = Study(n: int, wf: real, es: real, species: string, structure: string)

  function StudyKey(s: Study): Key
  {
    (s.species, s.structure)
  }

  /** A study with the five columns compute_meta_data adds. */
  datatype MetaRow = MetaRow(study: Study, viSE2: real, esu: real, wES: real, wES2: real, w2: real)

  function MetaKey(r: MetaRow): Key
  {
    StudyKey(r.study)
  }

  /** The small-sample correction factor 1 - 3/(4n - 9) (Hedges & Olkin;
      Nakagawa & Cuthill). 4n - 9 is odd, so it is never 0 for an integer n. */
  function HedgesFactor(n: int): (j: real)
    ensures j * (4 * n - 9) as real == (4 * n - 12) as real
  {
    var d := (4 * n - 9) as real;
    assert d != 0.0;
    1.0 - 3.0 / d
  }

  /** The factor strictly shrinks an effect size towards 0 exactly when
      n >= 4; it is 0 at n == 3 and exceeds 1 below that. */
  lemma HedgesFactorRange(n: int)
    ensures 0.0 < HedgesFactor(n) < 1.0 <==> n >= 4
    ensures n == 3 ==> HedgesFactor(n) == 0.0
    ensures n <= 2 ==> HedgesFactor(n) > 1.0
  {
    var j, d := HedgesFactor(n), (4 * n - 9) as real;
    assert j * d == d - 3.0;
    if n >= 4 {
      assert d >= 7.0;
      assert j == (d - 3.0) / d;
    } else if n <= 2 {
      assert d <= -1.0;
      assert j == (d - 3.0) / d;
    }
  }

  /** Derives one row. vi_SE2 divides by the weight factor, which the source
      does not guard: its callers must pass a non-zero weight factor. */
  function ComputeMetaRow(s: Study): (r: MetaRow)
    requires s.wf != 0.0
    ensures r.study == s
    ensures r.viSE2 * s.wf == 1.0
    ensures r.esu == s.es * HedgesFactor(s.n)
    ensures s.n >= 4 && s.es != 0.0 ==> Abs(r.esu) < Abs(s.es) && (r.esu > 0.0 <==> s.es > 0.0)
    ensures r.wES == s.es * s.wf && r.w2 == s.wf * s.wf
    ensures r.wES2 == r.wES * s.es && r.wES2 * s.wf == r.wES * r.wES
  {
    HedgesFactorRange(s.n);
    var j := HedgesFactor(s.n);
    assert Abs(s.es * j) == Abs(s.es) * j;
    MetaRow(s, 1.0 / s.wf, s.es * j, s.es * s.wf, s.wf * s.es * s.es, s.wf * s.wf)
  }

  /** compute_meta_data: the table with the derived columns added, row by row. */
  function ComputeMetaData(t: seq<Study>): (r: seq<MetaRow>)
    requires forall s :: s in t ==> s.wf != 0.0
    ensures |r| == |t|
    ensures forall i :: 0 <= i < |t| ==> r[i] == ComputeMetaRow(t[i])
  {
    MapRows(t, ComputeMetaRow)
  }

  // ---------------------------------------------------------------------
  // Stage 2: first group-by reduction (compute_random_effects)
  // ---------------------------------------------------------------------

  /** Per-group sums of a MetaRow table. */
  datatype Summary = Summary(sumWi: real, sumWi2: real, k: nat, wxES: real, wxES2: real)

  function WeightOf(r: MetaRow): real { r.study.wf }
  function W2Of(r: MetaRow): real { r.w2 }
  function WESOf(r: MetaRow): real { r.wES }
  function WES2Of(r: MetaRow): real { r.wES2 }

  /** The reduction applied to one group. */
  function Summarise(g: seq<MetaRow>): Summary
  {
    Summary(Sum(g, WeightOf), Sum(g, W2Of), |g|, Sum(g, WESOf), Sum(g, WES2Of))
  }

  /** compute_random_effects: one summary per distinct key. */
  function ComputeRandomEffects(rows: seq<MetaRow>): (r: map<Key, Summary>)
    ensures r.Keys == KeysOf(rows, MetaKey)
  {
    var groups := GroupBy(rows, MetaKey);
    map k | k in groups :: Summarise(groups[k])
  }

  /** There is a summary for a key exactly when some row has that key, and
      its fields are the masked column sums and the row count for that key. */
  lemma RandomEffectsPerKey(rows: seq<MetaRow>, k: Key)
    ensures k in ComputeRandomEffects(rows) <==> exists i :: 0 <= i < |rows| && MetaKey(rows[i]) == k
    ensures k in ComputeRandomEffects(rows) ==>
      var s := ComputeRandomEffects(rows)[k];
      && s.sumWi == SumWhere(rows, MetaKey, k, WeightOf)
      && s.sumWi2 == SumWhere(rows, MetaKey, k, W2Of)
      && s.wxES == SumWhere(rows, MetaKey, k, WESOf)
      && s.wxES2 == SumWhere(rows, MetaKey, k, WES2Of)
      && s.k == CountWhere(rows, MetaKey, k)
      && s.k >= 1
  {
    if k in ComputeRandomEffects(rows) {
      GroupSum(rows, MetaKey, k, WeightOf);
      GroupSum(rows, MetaKey, k, W2Of);
      GroupSum(rows, MetaKey, k, WESOf);
      GroupSum(rows, MetaKey, k, WES2Of);
      GroupCount(rows, MetaKey, k);
      GroupNonEmpty(rows, MetaKey, k);
    }
  }

  /** Permuting the rows leaves every summary unchanged. */
  lemma RandomEffectsOrderIndependent(rows: seq<MetaRow>, rows': seq<MetaRow>)
    requires multiset(rows) == multiset(rows')
    ensures ComputeRandomEffects(rows) == ComputeRandomEffects(rows')
  {
    GroupByPermutation(rows, rows', MetaKey);
    var a, b := ComputeRandomEffects(rows), ComputeRandomEffects(rows');
    forall k | k in a ensures a[k] == b[k] {
      var g, g' := Group(rows, MetaKey, k), Group(rows', MetaKey, k);
      SumPermutation(g, g', WeightOf);
      SumPermutation(g, g', W2Of);
      SumPermutation(g, g', WESOf);
      SumPermutation(g, g', WES2Of);
      assert |g| == |multiset(g)| == |multiset(g')| == |g'|;
    }
    MapEquality(a, b);
  }

  // ---------------------------------------------------------------------
  // Stage 3: heterogeneity Q and between-study variance v0
  //          (compute_random_variance)
  // ---------------------------------------------------------------------

  /** v0 is a number, or, when its denominator is 0, what the division
      leaves in the column: the NaN of 0/0 ("v0 will not be computed"), or
      an infinity whose sign is the numerator's. */
  datatype V0 = Computed(value: real) | NotComputed | PlusInfinity | MinusInfinity

  /** A summary with the two columns compute_random_variance adds. */
  datatype Variance = Variance(summary: Summary, q: real, v0: V0)

  /** Q = |wxES2 - wxES^2 / sum_wi|. */
  function QStat(s: Summary): (q: real)
    requires s.sumWi != 0.0
    ensures q >= 0.0
    ensures q == s.wxES2 - s.wxES * s.wxES / s.sumWi || q == s.wxES * s.wxES / s.sumWi - s.wxES2
  {
    Abs(s.wxES2 - s.wxES * s.wxES / s.sumWi)
  }

  /** The denominator of v0: sum_wi - sum_wi2 / sum_wi. */
  function V0Denominator(s: Summary): real
    requires s.sumWi != 0.0
  {
    s.sumWi - s.sumWi2 / s.sumWi
  }

  /** The numerator of v0: Q - (k - 1). */
  function V0Numerator(s: Summary): real
    requires s.sumWi != 0.0
  {
    QStat(s) - (s.k - 1) as real
  }

  /** compute_random_variance for one group: v0 solves
      v0 * denominator == Q - (k - 1) when the denominator is not 0.
      Otherwise it is NaN for a zero numerator and an infinity of the
      numerator's sign for any other. */
  function RandomVariance(s: Summary): (r: Variance)
    requires s.sumWi != 0.0
    ensures r.summary == s && r.q == QStat(s) && r.q >= 0.0
    ensures r.v0.Computed? <==> V0Denominator(s) != 0.0
    ensures r.v0.Computed? ==> r.v0.value * V0Denominator(s) == V0Numerator(s)
    ensures r.v0 == NotComputed <==> V0Denominator(s) == 0.0 && V0Numerator(s) == 0.0
    ensures r.v0 == PlusInfinity <==> V0Denominator(s) == 0.0 && V0Numerator(s) > 0.0
    ensures r.v0 == MinusInfinity <==> V0Denominator(s) == 0.0 && V0Numerator(s) < 0.0
  {
    var q := QStat(s);
    var d := V0Denominator(s);
    var num := q - (s.k - 1) as real;
    var v0 :=
      if d != 0.0 then Computed(num / d)
      else if num == 0.0 then NotComputed
      else if num > 0.0 then PlusInfinity
      else MinusInfinity;
    Variance(s, q, v0)
  }

  /** compute_random_variance on the group table. */
  function ComputeRandomVariance(t: map<Key, Summary>): (r: map<Key, Variance>)
    requires forall k :: k in t ==> t[k].sumWi != 0.0
    ensures r.Keys == t.Keys
    ensures forall k :: k in r ==> r[k] == RandomVariance(t[k])
    ensures forall k :: k in r ==> r[k].summary == t[k] && r[k].q >= 0.0
    ensures forall k :: k in r ==> (r[k].v0.Computed? <==> V0Denominator(t[k]) != 0.0)
  {
    map k | k in t :: RandomVariance(t[k])
  }

  /** A group made of one study has Q == 0 and a zero v0 denominator, so
      its v0 is not computed. */
  lemma SingleStudyGroup(s: Study)
    requires s.wf != 0.0
    ensures var sm := Summarise([ComputeMetaRow(s)]);
      && sm.k == 1
      && sm.sumWi == s.wf
      && QStat(sm) == 0.0
      && V0Denominator(sm) == 0.0
      && RandomVariance(sm).v0 == NotComputed
  {
    var r := ComputeMetaRow(s);
    SumSingleton(r, WeightOf);
    SumSingleton(r, W2Of);
    SumSingleton(r, WESOf);
    SumSingleton(r, WES2Of);
    var sm := Summarise([r]);
    assert sm.wxES * sm.wxES / sm.sumWi == r.wES2;
    assert sm.sumWi2 / sm.sumWi == s.wf;
  }

  /** Rows as compute_meta_data derives them from studies with positive
      weight factors. */
  predicate DerivedPositive(g: seq<MetaRow>)
  {
    forall r :: r in g ==> r.study.wf > 0.0 && r == ComputeMetaRow(r.study)
  }

  /** s2 is at most the square of s1, strictly when strict holds. */
  predicate SquareBound(s1: real, s2: real, strict: bool)
  {
    s1 * s1 >= s2 && (strict ==> s1 * s1 > s2)
  }

  lemma SquareStep(w0: real, s1: real, s2: real)
    requires w0 > 0.0 && s1 >= 0.0 && SquareBound(s1, s2, false)
    ensures SquareBound(w0 + s1, w0 * w0 + s2, s1 > 0.0)
  {
    assert (w0 + s1) * (w0 + s1) == w0 * w0 + 2.0 * w0 * s1 + s1 * s1;
    assert w0 * s1 >= 0.0;
    if s1 > 0.0 {
      assert w0 * s1 > 0.0;
    }
  }

  /** Every row has a positive weight factor and w2 is its square. */
  predicate SquaredWeights(g: seq<MetaRow>)
  {
    forall r :: r in g ==> r.study.wf > 0.0 && W2Of(r) == r.study.wf * r.study.wf
  }

  lemma DerivedSquared(g: seq<MetaRow>)
    requires DerivedPositive(g)
    ensures SquaredWeights(g)
  {
    forall r | r in g ensures r.study.wf > 0.0 && W2Of(r) == r.study.wf * r.study.wf {
      assert r == ComputeMetaRow(r.study);
    }
  }

  /** With positive weights, the square of the weight sum is at least the sum
      of squared weights, and exceeds it once there are two rows. */
  lemma {:induction false} SquareOfSum(g: seq<MetaRow>)
    requires SquaredWeights(g)
    ensures SquareBound(Sum(g, WeightOf), Sum(g, W2Of), |g| >= 2)
  {
    if g != [] {
      var w0, s1, s2 := g[0].study.wf, Sum(g[1..], WeightOf), Sum(g[1..], W2Of);
      assert forall r :: r in g[1..] ==> r in g;
      SquareOfSum(g[1..]);
      assert g[0] in g;
      if g[1..] != [] {
        SumPositive(g[1..], WeightOf);
      }
      SumNonNegative(g[1..], WeightOf);
      assert Sum(g, WeightOf) == w0 + s1;
      assert Sum(g, W2Of) == w0 * w0 + s2;
      SquareStep(w0, s1, s2);
    }
  }

  lemma DenominatorSign(s1: real, s2: real)
    requires s1 > 0.0
    ensures s1 - s2 / s1 == 0.0 <==> s1 * s1 == s2
    ensures s1 - s2 / s1 > 0.0 <==> s1 * s1 > s2
  {
    assert (s1 - s2 / s1) * s1 == s1 * s1 - s2;
  }

  /** With positive weights, v0 is not computed exactly for single-study
      groups, and then Q - (k - 1) == 0 as well (so the source's value is
      0/0, a NaN, never an infinity). */
  lemma NotComputedIffSingleStudy(g: seq<MetaRow>)
    requires g != [] && DerivedPositive(g)
    ensures Summarise(g).sumWi > 0.0
    ensures RandomVariance(Summarise(g)).v0 == NotComputed <==> |g| == 1
    ensures RandomVariance(Summarise(g)).v0.Computed? <==> |g| >= 2
    ensures |g| == 1 ==> QStat(Summarise(g)) - (Summarise(g).k - 1) as real == 0.0
  {
    SumPositive(g, WeightOf);
    var sm := Summarise(g);
    if |g| == 1 {
      assert g == [g[0]];
      assert g[0] in g;
      SingleStudyGroup(g[0].study);
    } else {
      DerivedSquared(g);
      SquareOfSum(g);
      DenominatorSign(sm.sumWi, sm.sumWi2);
    }
  }

  /** The weighted squared deviation of a row's effect size from mu. */
  function DeviationOf(mu: real): MetaRow -> real
  {
    (r: MetaRow) => r.study.wf * (r.study.es - mu) * (r.study.es - mu)
  }

  lemma ExpandDeviation(w: real, e: real, mu: real)
    ensures w * (e - mu) * (e - mu) == w * e * e + (-2.0 * mu) * (e * w) + (mu * mu) * w
  {
  }

  lemma CompleteSquare(d: real, a2: real, a: real, s: real)
    requires s != 0.0
    requires Combination(d, a2, a, s, 1.0, -2.0 * (a / s), (a / s) * (a / s))
    ensures d == a2 - a * a / s
  {
    var mu := a / s;
    assert mu * s == a;
    assert (mu * mu) * s == mu * a;
    assert a * a / s == mu * a;
  }

  /** The fixed-effect weighted mean of the effect sizes, wxES / sum_wi. */
  function FixedMean(s: Summary): real
    requires s.sumWi != 0.0
  {
    s.wxES / s.sumWi
  }

  /** Q is the weighted sum of squared deviations of the effect sizes from
      their weighted mean, so the absolute value only matters when some
      weights are negative. */
  lemma QIsWeightedDeviation(g: seq<MetaRow>)
    requires forall r :: r in g ==> r.study.wf != 0.0 && r == ComputeMetaRow(r.study)
    requires Summarise(g).sumWi != 0.0
    ensures QStat(Summarise(g)) == Abs(Sum(g, DeviationOf(FixedMean(Summarise(g)))))
  {
    var sm := Summarise(g);
    var mu := FixedMean(sm);
    var dev := DeviationOf(mu);
    DeviationIsCombination(g, mu);
    SumLinear(g, dev, WES2Of, WESOf, WeightOf, 1.0, -2.0 * mu, mu * mu);
    var d, a2, a, w := Sum(g, dev), Sum(g, WES2Of), Sum(g, WESOf), Sum(g, WeightOf);
    assert sm.wxES2 == a2 && sm.wxES == a && sm.sumWi == w;
    assert mu == a / w;
    assert Combination(d, a2, a, w, 1.0, -2.0 * (a / w), (a / w) * (a / w));
    CompleteSquare(d, a2, a, w);
    QStatOf(sm, d, a2, a, w);
  }

  lemma QStatOf(sm: Summary, d: real, a2: real, a: real, w: real)
    requires sm.wxES2 == a2 && sm.wxES == a && sm.sumWi == w && w != 0.0
    requires d == a2 - a * a / w
    ensures QStat(sm) == Abs(d)
  {
    var e := sm.wxES2 - sm.wxES * sm.wxES / sm.sumWi;
    assert e == d;
    assert QStat(sm) == Abs(e);
  }

  lemma DeviationIsCombination(g: seq<MetaRow>, mu: real)
    requires forall r :: r in g ==> r.study.wf != 0.0 && r == ComputeMetaRow(r.study)
    ensures forall r :: r in g ==>
      Combination(DeviationOf(mu)(r), WES2Of(r), WESOf(r), WeightOf(r), 1.0, -2.0 * mu, mu * mu)
  {
    forall r | r in g
      ensures Combination(DeviationOf(mu)(r), WES2Of(r), WESOf(r), WeightOf(r), 1.0, -2.0 * mu, mu * mu)
    {
      RowDeviation(r, mu);
    }
  }

  lemma RowDeviation(r: MetaRow, mu: real)
    requires r.study.wf != 0.0 && r == ComputeMetaRow(r.study)
    ensures Combination(DeviationOf(mu)(r), WES2Of(r), WESOf(r), WeightOf(r), 1.0, -2.0 * mu, mu * mu)
  {
    var w, e := r.study.wf, r.study.es;
    assert r.wES == e * w && r.wES2 == (e * w) * e;
    ExpandDeviation(w, e, mu);
    assert DeviationOf(mu)(r) == w * (e - mu) * (e - mu);
  }

  // ---------------------------------------------------------------------
  // Stage 4: the variance floor (zero_if_negative)
  // ---------------------------------------------------------------------

  /** The comparison num < 0: true for a negative number and for minus
      infinity, false for a NaN. */
  predicate Negative(v: V0)
  {
    v.MinusInfinity? || (v.Computed? && v.value < 0.0)
  }

  /** num[num < 0] = 0 on one value: a NaN and plus infinity stay. */
  function ClampV0(v: V0): (c: V0)
    ensures !Negative(c)
    ensures c.Computed? <==> v.Computed? || v.MinusInfinity?
    ensures c.Computed? ==> c.value >= 0.0
    ensures Negative(v) ==> c == Computed(0.0)
    ensures !Negative(v) ==> c == v
  {
    if Negative(v) then Computed(0.0) else v
  }

  /** One row of the group table after the floor: only v0 changes. */
  function ClampRow(r: Variance): (c: Variance)
    ensures c.summary == r.summary && c.q == r.q
    ensures c.v0 == ClampV0(r.v0)
  {
    r.(v0 := ClampV0(r.v0))
  }

  /** Applying the floor twice is applying it once. */
  lemma ClampRowIdempotent(r: Variance)
    ensures ClampRow(ClampRow(r)) == ClampRow(r)
  {
  }

  /** zero_if_negative: the source updates the v0 column of the table it is
      given in place; here the table's rows sit in an array. */
  method ZeroIfNegative(table: array<Variance>)
    modifies table
    ensures forall i :: 0 <= i < table.Length ==> table[i] == ClampRow(old(table[i]))
  {
    var i := 0;
    while i < table.Length
      invariant 0 <= i <= table.Length
      invariant forall j :: 0 <= j < i ==> table[j] == ClampRow(old(table[j]))
      invariant forall j :: i <= j < table.Length ==> table[j] == old(table[j])
    {
      if Negative(table[i].v0) {
        table[i] := table[i].(v0 := Computed(0.0));
      }
      i := i + 1;
    }
  }

  /** zero_if_negative on the group table as a value: the same keys, every
      v0 non-negative or not computed, everything else unchanged. */
  function ZeroIfNegativeTable(t: map<Key, Variance>): (r: map<Key, Variance>)
    ensures r.Keys == t.Keys
    ensures forall k :: k in r ==> r[k] == ClampRow(t[k])
    ensures forall k :: k in r && r[k].v0.Computed? ==> r[k].v0.value >= 0.0
  {
    map k | k in t :: ClampRow(t[k])
  }

  lemma ZeroIfNegativeIdempotent(t: map<Key, Variance>)
    ensures ZeroIfNegativeTable(ZeroIfNegativeTable(t)) == ZeroIfNegativeTable(t)
  {
    var once := ZeroIfNegativeTable(t);
    forall k | k in once ensures ZeroIfNegativeTable(once)[k] == once[k] {
      ClampRowIdempotent(t[k]);
    }
  }

  /** With weight factors of mixed sign a group of several studies can
      have a zero denominator: weight factors 2, 2 and -1, all with effect
      size 0, give sum_wi = 3 and sum_wi2 = 9, so v0 = (0 - 2) / 0 is minus
      infinity, which the floor turns into 0. */
  lemma MixedSignInfiniteV0()
    ensures var g := [ComputeMetaRow(Study(10, 2.0, 0.0, "sp", "st")),
                      ComputeMetaRow(Study(10, 2.0, 0.0, "sp", "st")),
                      ComputeMetaRow(Study(10, -1.0, 0.0, "sp", "st"))];
      && Summarise(g) == Summary(3.0, 9.0, 3, 0.0, 0.0)
      && RandomVariance(Summarise(g)).v0 == MinusInfinity
      && ClampRow(RandomVariance(Summarise(g))).v0 == Computed(0.0)
  {
    var r1 := ComputeMetaRow(Study(10, 2.0, 0.0, "sp", "st"));
    var r2 := ComputeMetaRow(Study(10, -1.0, 0.0, "sp", "st"));
    var g := [r1, r1, r2];
    SumOfThree(r1, r1, r2, WeightOf);
    SumOfThree(r1, r1, r2, W2Of);
    SumOfThree(r1, r1, r2, WESOf);
    SumOfThree(r1, r1, r2, WES2Of);
    var sm := Summarise(g);
    assert sm == Summary(3.0, 9.0, 3, 0.0, 0.0);
    assert V0Denominator(sm) == 0.0;
    assert V0Numerator(sm) == -2.0;
  }

  // ---------------------------------------------------------------------
  // Stage 5: per-study correction (apply_corrections)
  // ---------------------------------------------------------------------

  /** A study row with the corrected columns apply_corrections adds
      (SE_corr, a square root, is not part of this model). */
  datatype Corrected = Corrected(meta: MetaRow, v0: real, v0PlusVi: real, wiCorr: real,
                                 wxESCorr: real, wxESsqCorr: real)

  function CorrectedKey(c: Corrected): Key
  {
    MetaKey(c.meta)
  }

  /** The group's v0 for a study, looked up by the study's key. A key
      without a group row reads as NaN, as a failed alignment would. */
  function V0For(groups: map<Key, Variance>, k: Key): (v: V0)
    ensures k in groups ==> v == groups[k].v0
    ensures k !in groups ==> v == NotComputed
  {
    if k in groups then groups[k].v0 else NotComputed
  }

  /** The correction of one study for a given v0. A not-computed v0 makes
      every column NaN, which fillna(0) turns into 0. A v0 of plus
      infinity makes v0 and v0_plus_vi infinite, which replace turns into 0,
      and wi_corr = 1/inf is 0 already. A zero v0_plus_vi makes wi_corr
      infinite, which replace turns into 0. */
  function CorrectRow(r: MetaRow, v0: V0): (c: Corrected)
    ensures c.meta == r
    ensures c.wxESCorr == c.wiCorr * r.esu && c.wxESsqCorr == c.wiCorr * (r.esu * r.esu)
    ensures c.v0PlusVi != 0.0 ==> c.wiCorr * c.v0PlusVi == 1.0
    ensures c.v0PlusVi == 0.0 ==> c.wiCorr == 0.0
    ensures v0.Computed? ==> c.v0 == v0.value && c.v0PlusVi == r.viSE2 + v0.value
    ensures !v0.Computed? ==> c.v0 == 0.0 && c.v0PlusVi == 0.0
  {
    match v0
    case Computed(x) =>
      var p := r.viSE2 + x;
      var w := if p == 0.0 then 0.0 else 1.0 / p;
      Corrected(r, x, p, w, w * r.esu, w * (r.esu * r.esu))
    case _ => Corrected(r, 0.0, 0.0, 0.0, 0.0, 0.0)
  }

  /** The row's wxES_corr is its corrected weight times its bias-corrected
      effect size, as apply_corrections computes it. */
  predicate WeightsEffect(c: Corrected)
  {
    c.wxESCorr == c.wiCorr * c.meta.esu
  }

  /** With a positive weight factor and a non-negative v0, the corrected
      weight 1 / (1/wf + v0) is positive and at most wf, equal to wf
      exactly when v0 == 0. */
  lemma CorrectedWeightBounds(r: MetaRow, x: real)
    requires r.study.wf > 0.0 && r == ComputeMetaRow(r.study) && x >= 0.0
    ensures var c := CorrectRow(r, Computed(x));
      && 0.0 < c.wiCorr <= r.study.wf
      && (c.wiCorr == r.study.wf <==> x == 0.0)
  {
    var w := r.study.wf;
    var c := CorrectRow(r, Computed(x));
    assert r.viSE2 * w == 1.0;
    assert r.viSE2 > 0.0;
    var p := r.viSE2 + x;
    assert c.wiCorr * p == 1.0;
    assert p * w == 1.0 + x * w;
    assert c.wiCorr * (1.0 + x * w) == w;
  }

  function CorrectionOf(groups: map<Key, Variance>): MetaRow -> Corrected
  {
    r => CorrectRow(r, V0For(groups, MetaKey(r)))
  }

  /** apply_corrections: every study is corrected with its own group's v0,
      joined explicitly on the key; row count and order are kept. */
  function ApplyCorrections(rows: seq<MetaRow>, groups: map<Key, Variance>): (r: seq<Corrected>)
    ensures |r| == |rows|
    ensures forall i :: 0 <= i < |rows| ==> r[i] == CorrectRow(rows[i], V0For(groups, MetaKey(rows[i])))
  {
    MapRows(rows, CorrectionOf(groups))
  }

  // ---------------------------------------------------------------------
  // Stage 6: second group-by reduction (calculate_constants)
  // ---------------------------------------------------------------------

  datatype Constants = Constants(sumWxESCorr: real, sumWxESsqCorr: real, sumWiCorr: real)

  function WxESCorrOf(c: Corrected): real { c.wxESCorr }
  function WxESsqCorrOf(c: Corrected): real { c.wxESsqCorr }
  function AbsWiCorrOf(c: Corrected): real { Abs(c.wiCorr) }

  /** The reduction applied to one group; sum_wi_corr sums magnitudes. */
  function SumCorrections(g: seq<Corrected>): (c: Constants)
    ensures c.sumWiCorr >= 0.0
  {
    SumNonNegative(g, AbsWiCorrOf);
    Constants(Sum(g, WxESCorrOf), Sum(g, WxESsqCorrOf), Sum(g, AbsWiCorrOf))
  }

  /** calculate_constants: one row of corrected sums per distinct key. Its
      fillna/replace step has nothing to replace: sums of reals are finite. */
  function CalculateConstants(rows: seq<Corrected>): (r: map<Key, Constants>)
    ensures r.Keys == KeysOf(rows, CorrectedKey)
    ensures forall k :: k in r ==> r[k].sumWiCorr >= 0.0
  {
    var groups := GroupBy(rows, CorrectedKey);
    map k | k in groups :: SumCorrections(groups[k])
  }

  lemma ConstantsPerKey(rows: seq<Corrected>, k: Key)
    ensures k in CalculateConstants(rows) <==> exists i :: 0 <= i < |rows| && CorrectedKey(rows[i]) == k
    ensures k in CalculateConstants(rows) ==>
      var c := CalculateConstants(rows)[k];
      && c.sumWxESCorr == SumWhere(rows, CorrectedKey, k, WxESCorrOf)
      && c.sumWxESsqCorr == SumWhere(rows, CorrectedKey, k, WxESsqCorrOf)
      && c.sumWiCorr == SumWhere(rows, CorrectedKey, k, AbsWiCorrOf)
  {
    if k in CalculateConstants(rows) {
      GroupSum(rows, CorrectedKey, k, WxESCorrOf);
      GroupSum(rows, CorrectedKey, k, WxESsqCorrOf);
      GroupSum(rows, CorrectedKey, k, AbsWiCorrOf);
    }
  }

  lemma ConstantsOrderIndependent(rows: seq<Corrected>, rows': seq<Corrected>)
    requires multiset(rows) == multiset(rows')
    ensures CalculateConstants(rows) == CalculateConstants(rows')
  {
    GroupByPermutation(rows, rows', CorrectedKey);
    var a, b := CalculateConstants(rows), CalculateConstants(rows');
    forall k | k in a ensures a[k] == b[k] {
      var g, g' := Group(rows, CorrectedKey, k), Group(rows', CorrectedKey, k);
      SumPermutation(g, g', WxESCorrOf);
      SumPermutation(g, g', WxESsqCorrOf);
      SumPermutation(g, g', AbsWiCorrOf);
    }
    MapEquality(a, b);
  }

  /** Over one group with no negative corrected weight, sum_wxES_corr /
      sum_wi_corr is a weighted average of the corrected effect sizes. */
  lemma WeightedMeanWithinBounds(g: seq<Corrected>, lo: real, hi: real)
    requires forall x :: x in g ==> x.wiCorr >= 0.0 && lo <= x.meta.esu <= hi
    requires forall x :: x in g ==> WeightsEffect(x)
    requires SumCorrections(g).sumWiCorr > 0.0
    ensures lo <= SumCorrections(g).sumWxESCorr / SumCorrections(g).sumWiCorr <= hi
  {
    RowsBetween(g, lo, hi);
    SumBetween(g, AbsWiCorrOf, WxESCorrOf, lo, hi);
    var c := SumCorrections(g);
    assert c.sumWxESCorr == Sum(g, WxESCorrOf) && c.sumWiCorr == Sum(g, AbsWiCorrOf);
    RatioBetween(c.sumWxESCorr, c.sumWiCorr, lo, hi);
  }

  lemma RowsBetween(g: seq<Corrected>, lo: real, hi: real)
    requires forall x :: x in g ==> x.wiCorr >= 0.0 && lo <= x.meta.esu <= hi
    requires forall x :: x in g ==> WeightsEffect(x)
    ensures forall x :: x in g ==> Between(lo, hi, AbsWiCorrOf(x), WxESCorrOf(x))
  {
    forall x | x in g ensures Between(lo, hi, AbsWiCorrOf(x), WxESCorrOf(x)) {
      ScaleBetween(x.wiCorr, x.meta.esu, lo, hi);
    }
  }

  /** When no corrected weight is negative, ES_mean = sum_wxES_corr /
      sum_wi_corr is a weighted average: it lies within any bounds that
      hold for every corrected effect size in the group. */
  lemma PooledMeanWithinBounds(rows: seq<Corrected>, k: Key, lo: real, hi: real)
    requires forall x :: x in rows ==> x.wiCorr >= 0.0 && WeightsEffect(x)
    requires forall x :: x in rows && CorrectedKey(x) == k ==> lo <= x.meta.esu <= hi
    requires k in CalculateConstants(rows) && CalculateConstants(rows)[k].sumWiCorr > 0.0
    ensures lo <= CalculateConstants(rows)[k].sumWxESCorr / CalculateConstants(rows)[k].sumWiCorr <= hi
  {
    var g := Group(rows, CorrectedKey, k);
    assert CalculateConstants(rows)[k] == SumCorrections(g);
    WeightedMeanWithinBounds(g, lo, hi);
  }

  lemma ScaleBetween(w: real, e: real, lo: real, hi: real)
    requires w >= 0.0 && lo <= e <= hi
    ensures Between(lo, hi, w, w * e)
  {
    assert (e - lo) * w >= 0.0;
    assert (hi - e) * w >= 0.0;
  }

  lemma RatioBetween(a: real, s: real, lo: real, hi: real)
    requires s > 0.0 && lo * s <= a <= hi * s
    ensures lo <= a / s <= hi
  {
    var m := a / s;
    assert m * s == a;
    assert (m - lo) * s >= 0.0;
    assert (hi - m) * s >= 0.0;
  }

  // ---------------------------------------------------------------------
  // Stage 7: pooled mean, confidence interval and I^2
  //          (I2, calculate_mean_se)
  // ---------------------------------------------------------------------

  /** I2(Q, df) = (Q - df) / Q * 100; undefined (None) when Q == 0. The
      floor at 0 is commented out in the source and is not applied. */
  function I2(q: real, dfg: real): (r: Option<real>)
    ensures r.Some? <==> q != 0.0
    ensures r.Some? ==> r.value * q == (q - dfg) * 100.0
  {
    if q == 0.0 then None else Some((q - dfg) / q * 100.0)
  }

  lemma I2Example()
    ensures I2(10.0, 5.0) == Some(50.0)
  {
  }

  /** Without the floor, a Q between 0 and its degrees of freedom gives a
      negative I^2; otherwise I^2 lies in [0, 100) for positive Q and
      non-negative degrees of freedom. */
  lemma I2Range(q: real, dfg: real)
    requires q > 0.0
    ensures 0.0 < q < dfg ==> I2(q, dfg).value < 0.0
    ensures q >= dfg ==> I2(q, dfg).value >= 0.0
    ensures dfg > 0.0 ==> I2(q, dfg).value < 100.0
    ensures dfg == 0.0 ==> I2(q, dfg).value == 100.0
  {
    var i := I2(q, dfg).value;
    assert i * q == (q - dfg) * 100.0;
  }

  /** The 95% normal quantile the source uses. */
  const Z95: real := 1.96

  /** SE_mean = (1 / sum_wi_corr) ** 0.5. Dafny's reals have no square root, so
      a value is accepted as SE_mean when it is positive and its square is
      1 / sum_wi_corr. */
  predicate IsSeMean(se: real, sumWiCorr: real)
  {
    se > 0.0 && se * se * sumWiCorr == 1.0
  }

  datatype Pooled = Pooled(esMean: real, seMean: real, z: real, highCI: real, lowCI: real)

  /** A group's final row: the pooled estimate (None where the source
      divides by a zero sum_wi_corr and leaves NaN or infinity) and I_val. */
  datatype MeanSe = MeanSe(pooled: Option<Pooled>, iVal: Option<real>)

  /** calculate_mean_se for one group, given its constants, its Q and k, and
      SE_mean as se. */
  function CalculateMeanSe(c: Constants, q: real, k: int, se: real): (r: MeanSe)
    requires c.sumWiCorr >= 0.0
    requires c.sumWiCorr > 0.0 ==> IsSeMean(se, c.sumWiCorr)
    ensures r.pooled.Some? <==> c.sumWiCorr > 0.0
    ensures r.pooled.Some? ==>
      var p := r.pooled.value;
      && p.esMean * c.sumWiCorr == c.sumWxESCorr
      && p.seMean == se && p.seMean > 0.0
      && p.z * p.seMean == p.esMean
      && p.highCI == p.esMean + Z95 * p.seMean
      && p.lowCI == p.esMean - Z95 * p.seMean
      && p.highCI - p.lowCI == 2.0 * Z95 * p.seMean
      && p.lowCI < p.esMean < p.highCI
    ensures r.iVal == I2(q, (k - 1) as real)
  {
    var iVal := I2(q, (k - 1) as real);
    if c.sumWiCorr == 0.0 then MeanSe(None, iVal)
    else
      var m := c.sumWxESCorr / c.sumWiCorr;
      MeanSe(Some(Pooled(m, se, m / se, m + Z95 * se, m - Z95 * se)), iVal)
  }

  // ---------------------------------------------------------------------
  // Stage 8: study counts (calculate_number_es)
  // ---------------------------------------------------------------------

  /** calculate_number_es: the number of rows per distinct key. */
  function CalculateNumberEs(rows: seq<Corrected>): (r: map<Key, nat>)
    ensures r.Keys == KeysOf(rows, CorrectedKey)
    ensures forall k :: k in r ==> r[k] == CountWhere(rows, CorrectedKey, k) && r[k] >= 1
  {
    var groups := GroupBy(rows, CorrectedKey);
    forall k | k in groups ensures |groups[k]| == CountWhere(rows, CorrectedKey, k) && |groups[k]| >= 1 {
      GroupCount(rows, CorrectedKey, k);
      GroupNonEmpty(rows, CorrectedKey, k);
    }
    map k | k in groups :: |groups[k]|
  }

  lemma NumberEsOrderIndependent(rows: seq<Corrected>, rows': seq<Corrected>)
    requires multiset(rows) == multiset(rows')
    ensures CalculateNumberEs(rows) == CalculateNumberEs(rows')
  {
    GroupByPermutation(rows, rows', CorrectedKey);
    var a, b := CalculateNumberEs(rows), CalculateNumberEs(rows');
    assert a.Keys == b.Keys;
    forall k | k in a ensures a[k] == b[k] {
      var g, g' := Group(rows, CorrectedKey, k), Group(rows', CorrectedKey, k);
      assert a[k] == |g| && b[k] == |g'|;
      assert multiset(g) == multiset(g');
      assert |g| == |multiset(g)|;
    }
    MapEquality(a, b);
  }
}

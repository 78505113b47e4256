/** What the `gaps_search` handler of api/gap_finder/router.py computes, stated
    over sets and independent of the order of its loops: the observations
    kept from the fetched rows, the four-dimensional scope, the coverage cells
    with their dataset counts and the gaps (the cells of the scope's
    cross-product that no observation covers). */
module Coverage {
  import opened Wrappers
  import opened Text
  import opened Osdr
  import opened Normalize
  import opened Ordering
  import opened Folds

  /** The condition recorded for a row whose condition field is missing. */
  const UNKNOWN_CONDITION := "Desconocido"

  /** One kept row: `(organism, tissue, condition, assay_type, accession,
      assay_name)`. */
  datatype Observation = Observation(
    organism: string,
    tissue: Option<string>,
    condition: string,
    assayType: string,
    accession: string,
    assayName: Option<string>)

  /** A coverage key: `(organism, tissue, condition, assay_type)`. */
  datatype Cell = Cell(organism: string, tissue: Option<string>, condition: string, assayType: string)

  datatype Status = Covered | Weak

  /** One entry of the coverage list: a cell, its number of distinct
      accessions and its status. */
  datatype CoverageRow = CoverageRow(cell: Cell, datasets: nat, status: Status)

  /** The resolved scope; a tissue is `None` only in the scope `{None}`. */
  datatype Scope = Scope(
    organisms: set<string>,
    tissues: set<Option<string>>,
    conditions: set<string>,
    assays: set<string>)

  /** The query parameters of `gaps_search`; an absent multi-select list is
      `None`. */
  datatype Filters = Filters(
    organisms: Option<seq<string>>,
    assays: Option<seq<string>>,
    condition: string,
    tissues: Option<seq<string>>,
    minDatasets: int)

  /** A string is normalised when `_norm_str` returns it unchanged. */
  predicate IsNormal(s: string) {
    NormStr(Some(s)) == Some(s)
  }

  function CellOf(o: Observation): Cell {
    Cell(o.organism, o.tissue, o.condition, o.assayType)
  }

  // ---------------------------------------------------------------------
  // Observations (api/gap_finder/router.py:205-216)

  /** The observation a row yields, if it is kept. */
  function ObservationOf(row: Row): (r: Option<Observation>)
    ensures r.Some? ==> r.value.organism != [] && r.value.assayType != [] && r.value.accession != []
    ensures r.Some? ==> r.value.condition != [] && (r.value.tissue.Some? ==> r.value.tissue.value != [])
  {
    var organism := NormStr(Get(row, ORGANISM_FIELD));
    var assayType := NormStr(Get(row, ASSAY_TYPE_FIELD));
    var accession := NormStr(Get(row, ACCESSION_FIELD));
    if organism.Some? && assayType.Some? && accession.Some? then
      var cond := NormCondition(Get(row, CONDITION_FIELD)).GetOr(UNKNOWN_CONDITION);
      Some(Observation(organism.value, TissueOf(row), cond, assayType.value, accession.value,
                       NormStr(Get(row, ASSAY_NAME_FIELD))))
    else None
  }

  /** A row is kept exactly when organism, assay type and accession are all
      present after normalisation; its organism, assay type and accession are
      then normalised values, its tissue the picked one, and its condition the
      classified value or, when there is none, "Desconocido". */
  lemma ObservationOfKeeps(row: Row)
    ensures ObservationOf(row).Some? <==>
      NormStr(Get(row, ORGANISM_FIELD)).Some? && NormStr(Get(row, ASSAY_TYPE_FIELD)).Some? &&
      NormStr(Get(row, ACCESSION_FIELD)).Some?
    ensures var r := ObservationOf(row);
      r.Some? ==> Some(r.value.organism) == NormStr(Get(row, ORGANISM_FIELD))
                  && Some(r.value.assayType) == NormStr(Get(row, ASSAY_TYPE_FIELD))
                  && Some(r.value.accession) == NormStr(Get(row, ACCESSION_FIELD))
                  && r.value.assayName == NormStr(Get(row, ASSAY_NAME_FIELD))
    ensures var r := ObservationOf(row);
      r.Some? ==> IsNormal(r.value.organism) && IsNormal(r.value.assayType) && IsNormal(r.value.accession)
    ensures var r := ObservationOf(row); r.Some? ==> r.value.tissue == TissueOf(row)
    ensures var r := ObservationOf(row);
      r.Some? && NormCondition(Get(row, CONDITION_FIELD)).None? ==> r.value.condition == UNKNOWN_CONDITION
    ensures var r := ObservationOf(row);
      r.Some? && NormCondition(Get(row, CONDITION_FIELD)).Some? ==>
        r.value.condition == NormCondition(Get(row, CONDITION_FIELD)).value
  {
    NormStrIdempotent(Get(row, ORGANISM_FIELD));
    NormStrIdempotent(Get(row, ASSAY_TYPE_FIELD));
    NormStrIdempotent(Get(row, ACCESSION_FIELD));
  }

  /** The observations of the first `n` rows, in row order. */
  function ObservedUpTo(rows: seq<Row>, n: nat): seq<Observation>
    requires n <= |rows|
  {
    KeptUpTo(rows, n, ObservationOf)
  }

  /** The `observed` list: the observations of the rows, in row order. */
  function Observe(rows: seq<Row>): seq<Observation> {
    ObservedUpTo(rows, |rows|)
  }

  /** The observations are exactly those the rows yield. */
  lemma ObserveMembers(rows: seq<Row>)
    ensures forall o :: o in Observe(rows) ==> exists r :: r in rows && ObservationOf(r) == Some(o)
    ensures forall r :: r in rows && ObservationOf(r).Some? ==> ObservationOf(r).value in Observe(rows)
  {
    KeptUpToMembers(rows, |rows|, ObservationOf);
    forall o | o in Observe(rows) ensures exists r :: r in rows && ObservationOf(r) == Some(o) {
      var k :| 0 <= k < |rows| && ObservationOf(rows[k]) == Some(o);
      assert rows[k] in rows;
    }
    forall r | r in rows && ObservationOf(r).Some? ensures ObservationOf(r).value in Observe(rows) {
      var k :| 0 <= k < |rows| && rows[k] == r;
    }
  }

  /** The tissues picked from the first `n` rows. */
  function TissuesUpTo(rows: seq<Row>, n: nat): set<string>
    requires n <= |rows|
  {
    ValuesUpTo(rows, n, TissueOf)
  }

  /** The `tissues_observed` set: every tissue picked from any row, whether or
      not the row yields an observation. */
  function ObservedTissues(rows: seq<Row>): set<string> {
    TissuesUpTo(rows, |rows|)
  }

  /** The tissue of every kept observation was observed. */
  lemma ObservedTissueOfObservation(rows: seq<Row>, o: Observation)
    requires o in Observe(rows) && o.tissue.Some?
    ensures o.tissue.value in ObservedTissues(rows)
  {
    KeptUpToMembers(rows, |rows|, ObservationOf);
    var k :| 0 <= k < |rows| && ObservationOf(rows[k]) == Some(o);
    ObservationOfKeeps(rows[k]);
  }

  // ---------------------------------------------------------------------
  // Condition filter (api/gap_finder/router.py:219-220)

  /** The two values of the `condition` parameter that filter. */
  predicate IsNamedCondition(c: string) {
    c == SPACEFLIGHT || c == GROUND_ANALOG
  }

  /** The observations whose condition is `c`, in their order. */
  function KeepCondition(obs: seq<Observation>, c: string): (r: seq<Observation>)
    ensures |r| <= |obs|
    ensures forall o :: o in r <==> o in obs && o.condition == c
  {
    if obs == [] then []
    else
      var last := obs[|obs| - 1];
      assert obs == obs[..|obs| - 1] + [last];
      KeepCondition(obs[..|obs| - 1], c) + (if last.condition == c then [last] else [])
  }

  /** The observations the rest of the handler works on: for a named
      condition only those with exactly that condition, otherwise all. */
  function Relevant(obs: seq<Observation>, condition: string): (r: seq<Observation>)
    ensures IsNamedCondition(condition) ==> forall o :: o in r <==> o in obs && o.condition == condition
    ensures !IsNamedCondition(condition) ==> r == obs
  {
    if IsNamedCondition(condition) then KeepCondition(obs, condition) else obs
  }

  // ---------------------------------------------------------------------
  // Scope (api/gap_finder/router.py:223-231)

  /** A multi-select parameter that is given and not empty (Python truth). */
  predicate Selected(xs: Option<seq<string>>) {
    xs.Some? && xs.value != []
  }

  function Elements(xs: seq<string>): (r: set<string>)
    ensures forall x :: x in r <==> x in xs
  {
    set x | x in xs
  }

  /** The scope: organisms and assays from a non-empty filter or else from the
      observations; tissues from the filter whenever one is given (even an
      empty one), else the observed tissues, else `{None}`; conditions the
      named one or else the observed ones. */
  function ResolveScope(f: Filters, obs: seq<Observation>, observedTissues: set<string>): (s: Scope)
    ensures forall x :: x in s.organisms <==>
              if Selected(f.organisms) then x in f.organisms.value else exists o :: o in obs && o.organism == x
    ensures forall x :: x in s.assays <==>
              if Selected(f.assays) then x in f.assays.value else exists o :: o in obs && o.assayType == x
    ensures forall x :: x in s.conditions <==>
              if IsNamedCondition(f.condition) then x == f.condition else exists o :: o in obs && o.condition == x
    ensures f.tissues.Some? ==> forall t :: t in s.tissues <==> t.Some? && t.value in f.tissues.value
    ensures f.tissues.None? && observedTissues == {} ==> s.tissues == {None}
    ensures f.tissues.None? && observedTissues != {} ==>
              forall t :: t in s.tissues <==> t.Some? && t.value in observedTissues
    ensures None in s.tissues ==> s.tissues == {None}
    ensures obs != [] ==> s.organisms != {} && s.assays != {} && s.conditions != {}
    ensures f.tissues.None? ==> s.tissues != {}
  {
    var organisms := if Selected(f.organisms) then Elements(f.organisms.value) else set o | o in obs :: o.organism;
    var assays := if Selected(f.assays) then Elements(f.assays.value) else set o | o in obs :: o.assayType;
    var tissues: set<Option<string>> :=
      if f.tissues.Some? then set t | t in f.tissues.value :: Some(t)
      else if observedTissues == {} then {None}
      else set t | t in observedTissues :: Some(t);
    var conditions := if IsNamedCondition(f.condition) then {f.condition} else set o | o in obs :: o.condition;
    assert f.tissues.Some? || tissues != {} by {
      if f.tissues.None? && observedTissues != {} {
        var t :| t in observedTissues;
        assert Some(t) in tissues;
      }
    }
    assert obs != [] ==> organisms != {} && assays != {} && conditions != {} by {
      if obs != [] {
        assert obs[0].organism in organisms || f.organisms.value[0] in organisms;
        assert obs[0].assayType in assays || f.assays.value[0] in assays;
        assert obs[0].condition in conditions || f.condition in conditions;
      }
    }
    Scope(organisms, tissues, conditions, assays)
  }

  /** A tissue scope in which `None` can only stand alone. */
  predicate TissuesWellFormed(s: Scope) {
    None in s.tissues ==> s.tissues == {None}
  }

  // ---------------------------------------------------------------------
  // Coverage and gaps (api/gap_finder/router.py:234-280)

  /** The in-scope test of the coverage loop. */
  predicate InScope(s: Scope, c: Cell)
    ensures InScope(s, c) <==> InUniverse(s, c)
  {
    && c.organism in s.organisms
    && c.assayType in s.assays
    && c.condition in s.conditions
    && (c.tissue in s.tissues || (c.tissue.None? && None in s.tissues))
  }

  /** Membership in the cross-product of the scope. */
  predicate InUniverse(s: Scope, c: Cell) {
    c.organism in s.organisms && c.tissue in s.tissues && c.condition in s.conditions && c.assayType in s.assays
  }

  /** The distinct accessions observed for a cell. */
  function Datasets(obs: seq<Observation>, c: Cell): set<string> {
    set o | o in obs && CellOf(o) == c :: o.accession
  }

  lemma DatasetsSnoc(obs: seq<Observation>, o: Observation, c: Cell)
    ensures Datasets(obs + [o], c) == Datasets(obs, c) + (if CellOf(o) == c then {o.accession} else {})
  {
    assert forall p :: p in obs + [o] <==> p in obs || p == o;
  }

  /** The keys of `coverage_counter`: every observed cell. */
  function ObservedCells(obs: seq<Observation>): set<Cell> {
    set o | o in obs :: CellOf(o)
  }

  lemma ObservedCellsSnoc(obs: seq<Observation>, o: Observation)
    ensures ObservedCells(obs + [o]) == ObservedCells(obs) + {CellOf(o)}
  {
    assert forall p :: p in obs + [o] <==> p in obs || p == o;
  }

  /** The cells that receive a coverage row: observed and in scope. */
  function CoveredCells(obs: seq<Observation>, s: Scope): set<Cell> {
    set o | o in obs && InScope(s, CellOf(o)) :: CellOf(o)
  }

  /** A covered cell has at least one dataset. */
  lemma CoveredCellHasDatasets(obs: seq<Observation>, s: Scope, c: Cell)
    requires c in CoveredCells(obs, s)
    ensures |Datasets(obs, c)| >= 1
  {
    var o :| o in obs && InScope(s, CellOf(o)) && CellOf(o) == c;
    assert o.accession in Datasets(obs, c);
  }

  /** "covered" when the number of datasets reaches the threshold, else
      "weak". */
  function StatusFor(n: nat, threshold: int): (st: Status)
    ensures st == Covered <==> n >= threshold
  {
    if n >= threshold then Covered else Weak
  }

  /** Raising the threshold can only turn "covered" into "weak". */
  lemma StatusMonotone(n: nat, lo: int, hi: int)
    requires lo <= hi
    ensures StatusFor(n, hi) == Covered ==> StatusFor(n, lo) == Covered
    ensures StatusFor(n, lo) == Weak ==> StatusFor(n, hi) == Weak
  {
  }

  /** A gap: a cell of the cross-product that is not a coverage key, whatever
      its status. */
  predicate IsGap(obs: seq<Observation>, s: Scope, c: Cell) {
    InUniverse(s, c) && c !in CoveredCells(obs, s)
  }

  /** Coverage keys lie in the universe, and coverage and gaps split it:
      every cell of the universe is exactly one of the two. */
  lemma CoverageAndGapsPartition(obs: seq<Observation>, s: Scope, c: Cell)
    ensures c in CoveredCells(obs, s) ==> InUniverse(s, c)
    ensures InUniverse(s, c) <==> c in CoveredCells(obs, s) || IsGap(obs, s, c)
    ensures !(c in CoveredCells(obs, s) && IsGap(obs, s, c))
  {
    if c in CoveredCells(obs, s) {
      var o :| o in obs && InScope(s, CellOf(o)) && CellOf(o) == c;
    }
  }

  // ---------------------------------------------------------------------
  // Sort keys (api/gap_finder/router.py:262, 279-280)

  /** A tissue as a sort key: `None` sorts as "". */
  function TissueText(t: Option<string>): string {
    t.GetOr("")
  }

  /** `(organism, tissue or "", condition, assay_type)`. */
  function CellKey(c: Cell): (k: seq<string>)
    ensures |k| == 4
  {
    [c.organism, TissueText(c.tissue), c.condition, c.assayType]
  }

  function RowKey(r: CoverageRow): seq<string> {
    CellKey(r.cell)
  }

  /** In a well-formed tissue scope the sort key tells tissues apart. */
  lemma TissueTextInjective(s: Scope, t1: Option<string>, t2: Option<string>)
    requires TissuesWellFormed(s)
    requires t1 in s.tissues && t2 in s.tissues && TissueText(t1) == TissueText(t2)
    ensures t1 == t2
  {
  }

  /** In a well-formed scope the sort key tells cells of the universe apart. */
  lemma CellKeyInjective(s: Scope, c1: Cell, c2: Cell)
    requires TissuesWellFormed(s)
    requires InUniverse(s, c1) && InUniverse(s, c2) && CellKey(c1) == CellKey(c2)
    ensures c1 == c2
  {
    assert CellKey(c1)[1] == CellKey(c2)[1];
    TissueTextInjective(s, c1.tissue, c2.tissue);
  }

  ghost predicate CellsAscending(xs: seq<Cell>) {
    forall i, j :: 0 <= i < j < |xs| ==> KeyLt(CellKey(xs[i]), CellKey(xs[j]))
  }

  ghost predicate RowsAscending(xs: seq<CoverageRow>) {
    forall i, j :: 0 <= i < j < |xs| ==> KeyLt(RowKey(xs[i]), RowKey(xs[j]))
  }

  // ---------------------------------------------------------------------
  // The whole search

  /** The observations after the condition filter. */
  function SearchObservations(rows: seq<Row>, f: Filters): seq<Observation> {
    Relevant(Observe(rows), f.condition)
  }

  /** The scope the search resolves. */
  function SearchScope(rows: seq<Row>, f: Filters): (s: Scope)
    ensures TissuesWellFormed(s)
  {
    ResolveScope(f, SearchObservations(rows, f), ObservedTissues(rows))
  }

  /** `coverage` is the coverage list: one row per covered cell, strictly
      ascending by key, each with its count of distinct accessions and the
      status the threshold gives. */
  ghost predicate IsCoverage(coverage: seq<CoverageRow>, obs: seq<Observation>, s: Scope, threshold: int) {
    && RowsAscending(coverage)
    && (forall r :: r in coverage ==> r.cell in CoveredCells(obs, s))
    && (forall c :: c in CoveredCells(obs, s) ==> exists r :: r in coverage && r.cell == c)
    && (forall r :: r in coverage ==>
          r.datasets == |Datasets(obs, r.cell)| && r.status == StatusFor(r.datasets, threshold))
  }

  /** `gaps` is the gap list: exactly the gaps, strictly ascending by key. */
  ghost predicate IsGapList(gaps: seq<Cell>, obs: seq<Observation>, s: Scope) {
    CellsAscending(gaps) && forall c :: c in gaps <==> IsGap(obs, s, c)
  }

  /** The gap list is determined by the observations and the scope. */
  lemma GapListUnique(g1: seq<Cell>, g2: seq<Cell>, obs: seq<Observation>, s: Scope)
    requires IsGapList(g1, obs, s) && IsGapList(g2, obs, s)
    ensures g1 == g2
  {
    KeyAscendingUnique(g1, g2, CellKey);
  }

  /** The coverage list is determined by the observations, the scope and the
      threshold. */
  lemma CoverageUnique(c1: seq<CoverageRow>, c2: seq<CoverageRow>, obs: seq<Observation>, s: Scope, t: int)
    requires IsCoverage(c1, obs, s, t) && IsCoverage(c2, obs, s, t)
    ensures c1 == c2
  {
    forall r | r in c1 ensures r in c2 {
      var q :| q in c2 && q.cell == r.cell;
    }
    forall r | r in c2 ensures r in c1 {
      var q :| q in c1 && q.cell == r.cell;
    }
    KeyAscendingUnique(c1, c2, RowKey);
  }

  /** The same rows with their status recomputed under threshold `t`. */
  function Relabel(rows: seq<CoverageRow>, t: int): (r: seq<CoverageRow>)
    ensures |r| == |rows|
    ensures forall i :: 0 <= i < |rows| ==>
              r[i].cell == rows[i].cell && r[i].datasets == rows[i].datasets && r[i].status == StatusFor(rows[i].datasets, t)
  {
    seq(|rows|, i requires 0 <= i < |rows| => CoverageRow(rows[i].cell, rows[i].datasets, StatusFor(rows[i].datasets, t)))
  }

  /** Recomputing the statuses of a coverage list under another threshold
      gives the coverage list for that threshold. */
  lemma RelabelIsCoverage(rows: seq<CoverageRow>, obs: seq<Observation>, s: Scope, t: int, t2: int)
    requires IsCoverage(rows, obs, s, t)
    ensures IsCoverage(Relabel(rows, t2), obs, s, t2)
  {
    var relabel := Relabel(rows, t2);
    forall r | r in relabel
      ensures r.cell in CoveredCells(obs, s)
      ensures r.datasets == |Datasets(obs, r.cell)| && r.status == StatusFor(r.datasets, t2)
    {
      var i :| 0 <= i < |relabel| && relabel[i] == r;
      assert rows[i] in rows;
    }
    forall c | c in CoveredCells(obs, s) ensures exists r :: r in relabel && r.cell == c {
      var q :| q in rows && q.cell == c;
      var i :| 0 <= i < |rows| && rows[i] == q;
      assert relabel[i] in relabel;
    }
    forall i, j | 0 <= i < j < |relabel| ensures KeyLt(RowKey(relabel[i]), RowKey(relabel[j])) {
      assert relabel[i].cell == rows[i].cell && relabel[j].cell == rows[j].cell;
    }
  }

  /** Coverage computed under a lower and a higher threshold lists the same
      cells with the same counts, and every cell covered under the higher
      threshold is covered under the lower one. */
  lemma ThresholdMonotone(lo: seq<CoverageRow>, hi: seq<CoverageRow>, obs: seq<Observation>, s: Scope,
                          tLo: int, tHi: int)
    requires tLo <= tHi
    requires IsCoverage(lo, obs, s, tLo) && IsCoverage(hi, obs, s, tHi)
    ensures |lo| == |hi|
    ensures forall i :: 0 <= i < |lo| ==> lo[i].cell == hi[i].cell && lo[i].datasets == hi[i].datasets
    ensures forall i :: 0 <= i < |lo| && hi[i].status == Covered ==> lo[i].status == Covered
  {
    RelabelIsCoverage(hi, obs, s, tHi, tLo);
    CoverageUnique(lo, Relabel(hi, tLo), obs, s, tLo);
    forall i | 0 <= i < |lo| && hi[i].status == Covered ensures lo[i].status == Covered {
      assert hi[i] in hi;
    }
  }

  // ---------------------------------------------------------------------
  // Properties of the whole search

  /** A tissue is observed exactly when some row's picked tissue is it. */
  lemma ObservedTissuesMembers(rows: seq<Row>)
    ensures forall t :: t in ObservedTissues(rows) <==> exists r :: r in rows && TissueOf(r) == Some(t)
  {
    forall t | (exists r :: r in rows && TissueOf(r) == Some(t)) ensures t in ObservedTissues(rows) {
      var r :| r in rows && TissueOf(r) == Some(t);
      var k :| 0 <= k < |rows| && rows[k] == r;
    }
  }

  /** The scope depends only on which observations there are, not on their
      order or repetition. */
  lemma ResolveScopeOfMembers(f: Filters, obs1: seq<Observation>, obs2: seq<Observation>, tissues: set<string>)
    requires forall o :: o in obs1 <==> o in obs2
    ensures ResolveScope(f, obs1, tissues) == ResolveScope(f, obs2, tissues)
  {
    var s1, s2 := ResolveScope(f, obs1, tissues), ResolveScope(f, obs2, tissues);
    assert s1.organisms == s2.organisms;
    assert s1.assays == s2.assays;
    assert s1.conditions == s2.conditions;
  }

  /** The scope and the coverage of a search depend only on which rows were
      fetched, not on their order or repetition. */
  lemma SearchDependsOnRowSet(rows1: seq<Row>, rows2: seq<Row>, f: Filters)
    requires forall r :: r in rows1 <==> r in rows2
    ensures SearchScope(rows1, f) == SearchScope(rows2, f)
    ensures forall o :: o in SearchObservations(rows1, f) <==> o in SearchObservations(rows2, f)
  {
    ObserveMembers(rows1);
    ObserveMembers(rows2);
    ObservedTissuesMembers(rows1);
    ObservedTissuesMembers(rows2);
    assert forall o :: o in Observe(rows1) <==> o in Observe(rows2);
    assert ObservedTissues(rows1) == ObservedTissues(rows2);
    ResolveScopeOfMembers(f, SearchObservations(rows1, f), SearchObservations(rows2, f), ObservedTissues(rows1));
  }

  /** Determinism: two searches over the same set of rows with the same
      filters give the same coverage list and the same gap list, in any
      input order. */
  lemma SearchOrderIndependent(rows1: seq<Row>, rows2: seq<Row>, f: Filters,
                               cov1: seq<CoverageRow>, gaps1: seq<Cell>,
                               cov2: seq<CoverageRow>, gaps2: seq<Cell>)
    requires forall r :: r in rows1 <==> r in rows2
    requires IsCoverage(cov1, SearchObservations(rows1, f), SearchScope(rows1, f), f.minDatasets)
    requires IsCoverage(cov2, SearchObservations(rows2, f), SearchScope(rows2, f), f.minDatasets)
    requires IsGapList(gaps1, SearchObservations(rows1, f), SearchScope(rows1, f))
    requires IsGapList(gaps2, SearchObservations(rows2, f), SearchScope(rows2, f))
    ensures cov1 == cov2 && gaps1 == gaps2
  {
    SearchDependsOnRowSet(rows1, rows2, f);
    var obs1, obs2 := SearchObservations(rows1, f), SearchObservations(rows2, f);
    var s := SearchScope(rows1, f);
    ListsOfMembers(cov2, gaps2, obs2, obs1, s, f.minDatasets);
    CoverageUnique(cov1, cov2, obs1, s, f.minDatasets);
    GapListUnique(gaps1, gaps2, obs1, s);
  }

  /** The coverage and gap lists depend only on which observations there
      are. */
  lemma ListsOfMembers(cov: seq<CoverageRow>, gaps: seq<Cell>, obs1: seq<Observation>, obs2: seq<Observation>,
                       s: Scope, t: int)
    requires forall o :: o in obs1 <==> o in obs2
    requires IsCoverage(cov, obs1, s, t) && IsGapList(gaps, obs1, s)
    ensures IsCoverage(cov, obs2, s, t) && IsGapList(gaps, obs2, s)
  {
    assert CoveredCells(obs1, s) == CoveredCells(obs2, s);
    assert forall c :: Datasets(obs1, c) == Datasets(obs2, c);
  }

  /** With a named condition, every coverage cell and every gap carries that
      condition. */
  lemma NamedConditionOnly(rows: seq<Row>, f: Filters, c: Cell)
    requires IsNamedCondition(f.condition)
    requires c in CoveredCells(SearchObservations(rows, f), SearchScope(rows, f)) ||
             IsGap(SearchObservations(rows, f), SearchScope(rows, f), c)
    ensures c.condition == f.condition
  {
    CoverageAndGapsPartition(SearchObservations(rows, f), SearchScope(rows, f), c);
  }

  /** Without any filter, a kept observation is covered exactly when it has a
      tissue or no row has one: once any tissue is observed, observations
      without a tissue fall outside the scope and are neither covered nor a
      gap. */
  lemma UnfilteredCoverage(rows: seq<Row>, f: Filters, o: Observation)
    requires f.organisms.None? && f.assays.None? && f.tissues.None? && !IsNamedCondition(f.condition)
    requires o in Observe(rows)
    ensures CellOf(o) in CoveredCells(SearchObservations(rows, f), SearchScope(rows, f)) <==>
            o.tissue.Some? || ObservedTissues(rows) == {}
    ensures o.tissue.None? && ObservedTissues(rows) != {} ==>
            !InUniverse(SearchScope(rows, f), CellOf(o))
  {
    var obs := SearchObservations(rows, f);
    var s := SearchScope(rows, f);
    if o.tissue.Some? {
      ObservedTissueOfObservation(rows, o);
    }
    if CellOf(o) in CoveredCells(obs, s) {
      CoverageAndGapsPartition(obs, s, CellOf(o));
    }
    if o.tissue.Some? || ObservedTissues(rows) == {} {
      assert InScope(s, CellOf(o));
    }
  }
}

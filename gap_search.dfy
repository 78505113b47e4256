/** The `gaps_search` handler of api/gap_finder/router.py as it runs: the
    loops that collect observations, count datasets per cell, keep the
    in-scope cells and enumerate the cross-product, and the two in-place
    sorts, each proved against the definitions of module `Coverage`. */
module GapSearch {
  import opened Wrappers
  import opened Osdr
  import opened Normalize
  import opened Ordering
  import opened Coverage
  import opened Folds

  // ---------------------------------------------------------------------
  // itertools.product (api/gap_finder/router.py:260-265)

  /** The product of two sequences: every pair once, the first component
      varying slowest. */
  function Pairs<A(==,!new), B(==,!new)>(xs: seq<A>, ys: seq<B>): (r: seq<(A, B)>)
    ensures |r| == |xs| * |ys|
    ensures forall a, b :: (a, b) in r <==> a in xs && b in ys
  {
    if xs == [] then []
    else
      var front := seq(|ys|, j requires 0 <= j < |ys| => (xs[0], ys[j]));
      var rest := Pairs(xs[1..], ys);
      assert forall a, b :: (a, b) in front <==> a == xs[0] && b in ys by {
        forall a, b | a == xs[0] && b in ys ensures (a, b) in front {
          var j :| 0 <= j < |ys| && ys[j] == b;
          assert front[j] == (a, b);
        }
      }
      assert forall a :: a in xs <==> a == xs[0] || a in xs[1..] by {
        assert xs == [xs[0]] + xs[1..];
      }
      assert |front + rest| == |ys| + (|xs| - 1) * |ys|;
      front + rest
  }

  lemma {:induction false} PairsNoDuplicates<A(!new), B(!new)>(xs: seq<A>, ys: seq<B>)
    requires NoDuplicates(xs) && NoDuplicates(ys)
    ensures NoDuplicates(Pairs(xs, ys))
    decreases |xs|
  {
    if xs != [] {
      var front := seq(|ys|, j requires 0 <= j < |ys| => (xs[0], ys[j]));
      var rest := Pairs(xs[1..], ys);
      PairsNoDuplicates(xs[1..], ys);
      forall p | p in front ensures p !in rest {
        assert xs[0] !in xs[1..] by {
          assert forall k :: 0 <= k < |xs| - 1 ==> xs[1..][k] == xs[k + 1];
        }
      }
      NoDuplicatesAppend(front, rest);
    }
  }

  /** The universe list: the cross-product of the four sorted scope lists. */
  function Product(os: seq<string>, ts: seq<Option<string>>, cs: seq<string>, as_: seq<string>): (r: seq<Cell>)
    ensures |r| == |os| * (|ts| * (|cs| * |as_|))
    ensures forall c :: c in r <==> c.organism in os && c.tissue in ts && c.condition in cs && c.assayType in as_
  {
    var p := Pairs(os, Pairs(ts, Pairs(cs, as_)));
    var r := seq(|p|, k requires 0 <= k < |p| => Cell(p[k].0, p[k].1.0, p[k].1.1.0, p[k].1.1.1));
    assert forall c :: c in r <==> (c.organism, (c.tissue, (c.condition, c.assayType))) in p by {
      forall c: Cell | (c.organism, (c.tissue, (c.condition, c.assayType))) in p ensures c in r {
        var k :| 0 <= k < |p| && p[k] == (c.organism, (c.tissue, (c.condition, c.assayType)));
        assert r[k] == c;
      }
    }
    r
  }

  lemma ProductNoDuplicates(os: seq<string>, ts: seq<Option<string>>, cs: seq<string>, as_: seq<string>)
    requires NoDuplicates(os) && NoDuplicates(ts) && NoDuplicates(cs) && NoDuplicates(as_)
    ensures NoDuplicates(Product(os, ts, cs, as_))
  {
    PairsNoDuplicates(cs, as_);
    PairsNoDuplicates(ts, Pairs(cs, as_));
    PairsNoDuplicates(os, Pairs(ts, Pairs(cs, as_)));
  }

  // ---------------------------------------------------------------------
  // The loops of the handler

  /** The body of the observation loop for one row
      (api/gap_finder/router.py:206-216): the row's observation, if it is
      kept, and its picked tissue. */
  method ObserveRow(row: Row) returns (ob: Option<Observation>, tissue: Option<string>)
    ensures ob == ObservationOf(row)
    ensures tissue == TissueOf(row)
  {
    var organism := NormStr(Get(row, ORGANISM_FIELD));
    var assayType := NormStr(Get(row, ASSAY_TYPE_FIELD));
    var cond := NormCondition(Get(row, CONDITION_FIELD)).GetOr(UNKNOWN_CONDITION);
    tissue := PickTissue(row);
    var accession := NormStr(Get(row, ACCESSION_FIELD));
    var assayName := NormStr(Get(row, ASSAY_NAME_FIELD));
    if organism.Some? && assayType.Some? && accession.Some? {
      ob := Some(Observation(organism.value, tissue, cond, assayType.value, accession.value, assayName));
    } else {
      ob := None;
    }
  }

  /** The observation loop (api/gap_finder/router.py:203-216): keeps the rows
      with organism, assay type and accession, and records every picked
      tissue. */
  method CollectObservations(rows: seq<Row>) returns (observed: seq<Observation>, tissuesObserved: set<string>)
    ensures observed == Observe(rows)
    ensures tissuesObserved == ObservedTissues(rows)
  {
    observed := [];
    tissuesObserved := {};
    for i := 0 to |rows|
      invariant observed == ObservedUpTo(rows, i)
      invariant tissuesObserved == TissuesUpTo(rows, i)
    {
      var row := rows[i];
      var ob, tissue := ObserveRow(row);
      tissuesObserved := AddValue(tissuesObserved, rows, i, TissueOf, tissue);
      if ob.Some? {
        observed := observed + [ob.value];
      }
    }
  }

  /** A cell no observation has has no datasets. */
  lemma DatasetsOfUnobserved(obs: seq<Observation>, c: Cell)
    requires c !in ObservedCells(obs)
    ensures Datasets(obs, c) == {}
  {
  }

  /** The `coverage_counter` loop (api/gap_finder/router.py:234-236): every
      observed cell mapped to its distinct accessions. */
  method CountDatasets(observed: seq<Observation>) returns (counter: map<Cell, set<string>>)
    ensures counter.Keys == ObservedCells(observed)
    ensures forall c :: c in counter ==> counter[c] == Datasets(observed, c)
  {
    counter := map[];
    for i := 0 to |observed|
      invariant counter.Keys == ObservedCells(observed[..i])
      invariant forall c :: c in counter ==> counter[c] == Datasets(observed[..i], c)
    {
      var o := observed[i];
      var c := CellOf(o);
      var accs := if c in counter then counter[c] else {};
      if c !in counter {
        DatasetsOfUnobserved(observed[..i], c);
      }
      counter := counter[c := accs + {o.accession}];
      assert observed[..i + 1] == observed[..i] + [o];
      ObservedCellsSnoc(observed[..i], o);
      forall d | d in counter ensures counter[d] == Datasets(observed[..i + 1], d) {
        DatasetsSnoc(observed[..i], o, d);
      }
    }
    assert observed[..|observed|] == observed;
  }

  /** The `coverage_rows` loop (api/gap_finder/router.py:238-257): one row per
      in-scope cell of the counter, with its dataset count and status. */
  method BuildCoverage(counter: map<Cell, set<string>>, s: Scope, threshold: int) returns (rows: seq<CoverageRow>)
    ensures forall r :: r in rows ==>
              r.cell in counter && InScope(s, r.cell) && r.datasets == |counter[r.cell]| &&
              r.status == StatusFor(r.datasets, threshold)
    ensures forall c :: c in counter && InScope(s, c) ==> exists r :: r in rows && r.cell == c
    ensures NoDuplicates(rows)
  {
    rows := [];
    var keys := counter.Keys;
    while keys != {}
      invariant keys <= counter.Keys
      invariant forall r :: r in rows ==>
                  r.cell in counter && r.cell !in keys && InScope(s, r.cell) &&
                  r.datasets == |counter[r.cell]| && r.status == StatusFor(r.datasets, threshold)
      invariant forall c :: c in counter && c !in keys && InScope(s, c) ==> exists r :: r in rows && r.cell == c
      invariant NoDuplicates(rows)
      decreases keys
    {
      var c :| c in keys;
      if InScope(s, c) {
        var n := |counter[c]|;
        var status := if n >= threshold then Covered else Weak;
        NoDuplicatesAppend(rows, [CoverageRow(c, n, status)]);
        rows := rows + [CoverageRow(c, n, status)];
      }
      keys := keys - {c};
    }
  }

  /** The gap loop (api/gap_finder/router.py:268-276): the universe cells
      that are not coverage keys, in universe order. */
  method CollectGaps(universe: seq<Cell>, covered: set<Cell>) returns (gaps: seq<Cell>)
    ensures forall c :: c in gaps <==> c in universe && c !in covered
    ensures NoDuplicates(universe) ==> NoDuplicates(gaps)
  {
    gaps := [];
    for i := 0 to |universe|
      invariant forall c :: c in gaps <==> c in universe[..i] && c !in covered
      invariant NoDuplicates(universe) ==> NoDuplicates(gaps)
    {
      var c := universe[i];
      assert universe[..i + 1] == universe[..i] + [c];
      if c !in covered {
        if NoDuplicates(universe) {
          assert c !in universe[..i];
          NoDuplicatesAppend(gaps, [c]);
        }
        gaps := gaps + [c];
      }
    }
    assert universe[..|universe|] == universe;
  }

  // ---------------------------------------------------------------------
  // The whole handler

  /** A list ordered by cell key, without repetition, of cells of a
      well-formed universe is strictly ascending. */
  lemma CellsSortedAscending(xs: seq<Cell>, s: Scope)
    requires SortedBy(xs, CellKey) && NoDuplicates(xs) && TissuesWellFormed(s)
    requires forall c :: c in xs ==> InUniverse(s, c)
    ensures CellsAscending(xs)
  {
    forall i, j | 0 <= i < j < |xs| ensures CellKey(xs[i]) != CellKey(xs[j]) {
      if CellKey(xs[i]) == CellKey(xs[j]) {
        CellKeyInjective(s, xs[i], xs[j]);
      }
    }
    SortedByDistinctKeys(xs, CellKey);
  }

  /** The same for coverage rows, whose fields other than the cell are
      determined by the cell. */
  lemma RowsSortedAscending(xs: seq<CoverageRow>, obs: seq<Observation>, s: Scope, t: int)
    requires SortedBy(xs, RowKey) && NoDuplicates(xs) && TissuesWellFormed(s)
    requires forall r :: r in xs ==>
               r.cell in CoveredCells(obs, s) && r.datasets == |Datasets(obs, r.cell)| &&
               r.status == StatusFor(r.datasets, t)
    ensures RowsAscending(xs)
  {
    forall i, j | 0 <= i < j < |xs| ensures RowKey(xs[i]) != RowKey(xs[j]) {
      if RowKey(xs[i]) == RowKey(xs[j]) {
        CoverageAndGapsPartition(obs, s, xs[i].cell);
        CoverageAndGapsPartition(obs, s, xs[j].cell);
        CellKeyInjective(s, xs[i].cell, xs[j].cell);
      }
    }
    SortedByDistinctKeys(xs, RowKey);
  }

  /** The coverage rows of the observations in a well-formed scope
      (api/gap_finder/router.py:234-257), sorted by key
      (api/gap_finder/router.py:279). */
  method CoverageRows(observed: seq<Observation>, scope: Scope, threshold: int) returns (coverage: seq<CoverageRow>)
    requires TissuesWellFormed(scope)
    ensures IsCoverage(coverage, observed, scope, threshold)
  {
    var counter := CountDatasets(observed);
    var rows := BuildCoverage(counter, scope, threshold);
    coverage := SortByKey(rows, RowKey);
    forall r ensures r in coverage <==> r in rows {
      assert r in multiset(coverage) <==> r in multiset(rows);
    }
    forall r | r in rows ensures r.cell in CoveredCells(observed, scope) {
      assert r.cell in ObservedCells(observed);
      var o :| o in observed && CellOf(o) == r.cell;
    }
    PermutationNoDuplicates(rows, coverage);
    RowsSortedAscending(coverage, observed, scope, threshold);
    forall c | c in CoveredCells(observed, scope) ensures exists r :: r in coverage && r.cell == c {
      var o :| o in observed && InScope(scope, CellOf(o)) && CellOf(o) == c;
      assert c in ObservedCells(observed);
      var r :| r in rows && r.cell == c;
    }
  }

  /** The universe list (api/gap_finder/router.py:260-265): the product of
      the sorted scope dimensions, every cell of the cross-product once. */
  method UniverseList(scope: Scope) returns (universe: seq<Cell>)
    requires TissuesWellFormed(scope)
    ensures forall c :: c in universe <==> InUniverse(scope, c)
    ensures NoDuplicates(universe)
  {
    var organisms := SortSet(scope.organisms, Id);
    forall a, b | a in scope.tissues && b in scope.tissues && TissueText(a) == TissueText(b) ensures a == b {
      TissueTextInjective(scope, a, b);
    }
    var tissues := SortSet(scope.tissues, TissueText);
    var conditions := SortSet(scope.conditions, Id);
    var assays := SortSet(scope.assays, Id);
    universe := Product(organisms, tissues, conditions, assays);
    AscendingNoDuplicates(organisms, Id);
    AscendingNoDuplicates(tissues, TissueText);
    AscendingNoDuplicates(conditions, Id);
    AscendingNoDuplicates(assays, Id);
    ProductNoDuplicates(organisms, tissues, conditions, assays);
  }

  /** `gaps_search` on already-fetched rows: no rows give an empty answer;
      otherwise the coverage list and the gap list are exactly those of the
      resolved scope, each strictly ascending by key. */
  method GapsSearch(rows: seq<Row>, f: Filters) returns (coverage: seq<CoverageRow>, gaps: seq<Cell>)
    requires f.minDatasets >= 1
    ensures rows == [] ==> coverage == [] && gaps == []
    ensures rows != [] ==> IsCoverage(coverage, SearchObservations(rows, f), SearchScope(rows, f), f.minDatasets)
    ensures rows != [] ==> IsGapList(gaps, SearchObservations(rows, f), SearchScope(rows, f))
  {
    if rows == [] {
      return [], [];
    }
    var observed, tissuesObserved := CollectObservations(rows);
    observed := Relevant(observed, f.condition);
    var scope := ResolveScope(f, observed, tissuesObserved);
    assert scope == SearchScope(rows, f);

    coverage := CoverageRows(observed, scope, f.minDatasets);
    var universe := UniverseList(scope);
    var coveredKeys := set r | r in coverage :: r.cell;
    assert coveredKeys == CoveredCells(observed, scope);
    var gapList := CollectGaps(universe, coveredKeys);
    gaps := SortByKey(gapList, CellKey);

    forall c ensures c in gaps <==> IsGap(observed, scope, c) {
      assert c in multiset(gaps) <==> c in multiset(gapList);
    }
    PermutationNoDuplicates(gapList, gaps);
    CellsSortedAscending(gaps, scope);
  }
}

/** The `gaps_options` aggregation of api/gap_finder/router.py: the distinct
    organisms, assay types, conditions and tissues of the fetched rows, as
    the lists that populate the search form. */
module GapOptions {
  import opened Wrappers
  import opened Osdr
  import opened Normalize
  import opened Ordering
  import opened Coverage
  import opened Folds

  datatype Options = Options(
    organisms: seq<string>,
    assays: seq<string>,
    conditions: seq<string>,
    tissues: seq<string>)

  function OrganismOf(row: Row): Option<string> {
    NormStr(Get(row, ORGANISM_FIELD))
  }

  function AssayOf(row: Row): Option<string> {
    NormStr(Get(row, ASSAY_TYPE_FIELD))
  }

  function ConditionOf(row: Row): Option<string> {
    NormCondition(Get(row, CONDITION_FIELD))
  }

  /** The distinct values of one dimension over all rows. */
  function Observed(rows: seq<Row>, f: Row -> Option<string>): set<string> {
    ValuesUpTo(rows, |rows|, f)
  }

  /** The named conditions present, "Spaceflight" first. */
  function NamedFirst(conds: set<string>): (r: seq<string>)
    ensures forall x :: x in r <==> x in conds && IsNamedCondition(x)
    ensures NoDuplicates(r)
  {
    (if SPACEFLIGHT in conds then [SPACEFLIGHT] else []) +
    (if GROUND_ANALOG in conds then [GROUND_ANALOG] else [])
  }

  /** The condition list for a set of observed conditions: the named ones
      first, in the order "Spaceflight", "Ground/Analog", then the others
      ascending; when nothing was observed, both named conditions. */
  ghost predicate IsConditionList(xs: seq<string>, conds: set<string>) {
    if conds == {} then xs == [SPACEFLIGHT, GROUND_ANALOG]
    else
      var k := |NamedFirst(conds)|;
      && k <= |xs|
      && xs[..k] == NamedFirst(conds)
      && Ascending(xs[k..], Id)
      && forall x :: x in xs[k..] <==> x in conds && !IsNamedCondition(x)
  }

  /** A condition list holds every observed condition once and nothing else
      (or just the two named ones when nothing was observed). */
  lemma ConditionListMembers(xs: seq<string>, conds: set<string>)
    requires IsConditionList(xs, conds)
    ensures NoDuplicates(xs)
    ensures conds != {} ==> forall x :: x in xs <==> x in conds
  {
    if conds == {} {
      assert xs == [SPACEFLIGHT, GROUND_ANALOG];
    } else {
      var k := |NamedFirst(conds)|;
      assert xs == xs[..k] + xs[k..];
      AscendingNoDuplicates(xs[k..], Id);
      NoDuplicatesAppend(xs[..k], xs[k..]);
    }
  }

  /** The condition list is determined by the observed conditions. */
  lemma ConditionListUnique(xs: seq<string>, ys: seq<string>, conds: set<string>)
    requires IsConditionList(xs, conds) && IsConditionList(ys, conds)
    ensures xs == ys
  {
    if conds != {} {
      var k := |NamedFirst(conds)|;
      AscendingUnique(xs[k..], ys[k..], Id);
      assert xs == xs[..k] + xs[k..] && ys == ys[..k] + ys[k..];
    }
  }

  /** The condition ordering of `gaps_options`
      (api/gap_finder/router.py:140-142, 147). */
  method OrderConditions(conds: set<string>) returns (xs: seq<string>)
    ensures IsConditionList(xs, conds)
  {
    var named := NamedFirst(conds);
    var others := SortSet(conds - {SPACEFLIGHT, GROUND_ANALOG}, Id);
    xs := named + others;
    if xs == [] {
      xs := [SPACEFLIGHT, GROUND_ANALOG];
    } else {
      assert xs[0] in named || xs[0] in others;
      assert xs[..|named|] == named && xs[|named|..] == others;
    }
  }

  /** The four values one row contributes (api/gap_finder/router.py:123-137). */
  method RowValues(row: Row) returns (org: Option<string>, cond: Option<string>, tech: Option<string>, tis: Option<string>)
    ensures org == OrganismOf(row) && cond == ConditionOf(row) && tech == AssayOf(row) && tis == TissueOf(row)
  {
    org := NormStr(Get(row, ORGANISM_FIELD));
    cond := NormCondition(Get(row, CONDITION_FIELD));
    tech := NormStr(Get(row, ASSAY_TYPE_FIELD));
    tis := PickTissue(row);
  }

  /** The collection loop of `gaps_options` (api/gap_finder/router.py:117-137):
      the four sets of distinct values over all rows. */
  method CollectOptions(rows: seq<Row>)
    returns (organisms: set<string>, conds: set<string>, assays: set<string>, tissues: set<string>)
    ensures organisms == Observed(rows, OrganismOf) && conds == Observed(rows, ConditionOf)
    ensures assays == Observed(rows, AssayOf) && tissues == Observed(rows, TissueOf)
  {
    organisms, conds, assays, tissues := {}, {}, {}, {};
    for i := 0 to |rows|
      invariant organisms == ValuesUpTo(rows, i, OrganismOf)
      invariant conds == ValuesUpTo(rows, i, ConditionOf)
      invariant assays == ValuesUpTo(rows, i, AssayOf)
      invariant tissues == ValuesUpTo(rows, i, TissueOf)
    {
      var org, cond, tech, tis := RowValues(rows[i]);
      organisms := AddValue(organisms, rows, i, OrganismOf, org);
      conds := AddValue(conds, rows, i, ConditionOf, cond);
      assays := AddValue(assays, rows, i, AssayOf, tech);
      tissues := AddValue(tissues, rows, i, TissueOf, tis);
    }
  }

  /** `gaps_options` on already-fetched rows: distinct ascending organisms,
      assay types and tissues, and the ordered condition list
      (api/gap_finder/router.py:117-149). */
  method GapsOptions(rows: seq<Row>) returns (opts: Options)
    ensures Ascending(opts.organisms, Id) && forall x :: x in opts.organisms <==> x in Observed(rows, OrganismOf)
    ensures Ascending(opts.assays, Id) && forall x :: x in opts.assays <==> x in Observed(rows, AssayOf)
    ensures Ascending(opts.tissues, Id) && forall x :: x in opts.tissues <==> x in Observed(rows, TissueOf)
    ensures IsConditionList(opts.conditions, Observed(rows, ConditionOf))
  {
    var organisms, conds, assays, tissues := CollectOptions(rows);
    var conditions := OrderConditions(conds);
    var sortedOrganisms := SortSet(organisms, Id);
    var sortedAssays := SortSet(assays, Id);
    var sortedTissues := SortSet(tissues, Id);
    opts := Options(sortedOrganisms, sortedAssays, conditions, sortedTissues);
  }
}

/** The assay finder of api/assay_finder/router.py: the query parameters
    `_build_params` sends to the assay query service, the links to an assay's
    sample table and to a dataset page, and the per-row summary
    `search_assays` returns. */
module AssayFinder {
  import opened Wrappers
  import opened Text
  import opened Osdr
  import opened Percent

  /** One query parameter: `(key, value)`. */
  type Param = (string, string)

  /** The parameter list under construction, which `_add` and
      `_add_presence` append to in place. */
  class ParamList {
    var items: seq<Param>

    constructor ()
      ensures items == []
    {
      items := [];
    }

    /** `_add`: appends `(key, value)`; an empty value asks the service to
        return the field without filtering on it. */
    method Add(key: string, value: string := "")
      modifies this
      ensures items == old(items) + [(key, value)]
    {
      items := items + [(key, value)];
    }

    /** `_add_presence`: appends the pair with an empty key and the field
        name as value, which asks for records where the field is present. */
    method AddPresence(field: string)
      modifies this
      ensures items == old(items) + [("", field)]
    {
      items := items + [("", field)];
    }
  }

  // -------------------------------------------------------------------------
  // The parameters, as a specification

  /** `/pattern/i`: the case-insensitive regular-expression filter. */
  function Regex(pattern: string): string {
    "/" + pattern + "/i"
  }

  /** A parameter for a truthy argument, nothing otherwise. */
  function Entry(present: bool, p: Param): (r: seq<Param>)
    ensures |r| == if present then 1 else 0
    ensures forall q :: q in r <==> present && q == p
  {
    if present then [p] else []
  }

  /** The four filtered fields are distinct names. */
  lemma FilterFieldsDistinct()
    ensures ACCESSION_FIELD != ORGANISM_FIELD && ACCESSION_FIELD != ASSAY_NAME_FIELD && ACCESSION_FIELD != ASSAY_TYPE_FIELD
    ensures ORGANISM_FIELD != ASSAY_NAME_FIELD && ORGANISM_FIELD != ASSAY_TYPE_FIELD
    ensures ASSAY_NAME_FIELD != ASSAY_TYPE_FIELD
  {
    assert |ACCESSION_FIELD| == 12 && |ASSAY_NAME_FIELD| == 13;
    assert |ORGANISM_FIELD| == 30 && |ASSAY_TYPE_FIELD| == 54;
  }

  /** Four optional entries on distinct fields: each present entry is in the
      concatenation, and an absent one leaves its field out of it. */
  lemma EntriesOnDistinctFields(b1: bool, p1: Param, b2: bool, p2: Param, b3: bool, p3: Param, b4: bool, p4: Param)
    requires p1.0 != p2.0 && p1.0 != p3.0 && p1.0 != p4.0 && p2.0 != p3.0 && p2.0 != p4.0 && p3.0 != p4.0
    ensures var r := Entry(b1, p1) + Entry(b2, p2) + Entry(b3, p3) + Entry(b4, p4);
      && (b2 ==> p2 in r) && (b3 ==> p3 in r) && (b4 ==> p4 in r)
      && (!b1 ==> forall i :: 0 <= i < |r| ==> r[i].0 != p1.0)
      && (!b2 ==> forall i :: 0 <= i < |r| ==> r[i].0 != p2.0)
      && (!b3 ==> forall i :: 0 <= i < |r| ==> r[i].0 != p3.0)
      && (!b4 ==> forall i :: 0 <= i < |r| ==> r[i].0 != p4.0)
  {
    var r := Entry(b1, p1) + Entry(b2, p2) + Entry(b3, p3) + Entry(b4, p4);
    forall i | 0 <= i < |r|
      ensures (b1 && r[i] == p1) || (b2 && r[i] == p2) || (b3 && r[i] == p3) || (b4 && r[i] == p4)
    {
      assert r[i] in r;
    }
  }

  /** The optional filters in the order `_build_params` adds them: the
      accession verbatim, then organism, assay name and technology each as a
      case-insensitive regular expression, each only for a truthy argument. */
  function Filters(organism: Option<string>, assayRegex: Option<string>, technologyRegex: Option<string>,
                   dataset: Option<string>): (r: seq<Param>)
    ensures |r| == TruthyFilters(organism, assayRegex, technologyRegex, dataset)
    ensures Truthy(dataset) ==> r[0] == (ACCESSION_FIELD, dataset.value)
    ensures forall i :: 0 <= i < |r| ==> r[i].1 != []
    ensures Truthy(organism) ==> (ORGANISM_FIELD, Regex(organism.value)) in r
    ensures Truthy(assayRegex) ==> (ASSAY_NAME_FIELD, Regex(assayRegex.value)) in r
    ensures Truthy(technologyRegex) ==> (ASSAY_TYPE_FIELD, Regex(technologyRegex.value)) in r
    ensures !Truthy(dataset) ==> forall i :: 0 <= i < |r| ==> r[i].0 != ACCESSION_FIELD
    ensures !Truthy(organism) ==> forall i :: 0 <= i < |r| ==> r[i].0 != ORGANISM_FIELD
    ensures !Truthy(assayRegex) ==> forall i :: 0 <= i < |r| ==> r[i].0 != ASSAY_NAME_FIELD
    ensures !Truthy(technologyRegex) ==> forall i :: 0 <= i < |r| ==> r[i].0 != ASSAY_TYPE_FIELD
  {
    FilterFieldsDistinct();
    EntriesOnDistinctFields(Truthy(dataset), (ACCESSION_FIELD, dataset.GetOr("")),
                            Truthy(organism), (ORGANISM_FIELD, Regex(organism.GetOr(""))),
                            Truthy(assayRegex), (ASSAY_NAME_FIELD, Regex(assayRegex.GetOr(""))),
                            Truthy(technologyRegex), (ASSAY_TYPE_FIELD, Regex(technologyRegex.GetOr(""))));
    Entry(Truthy(dataset), (ACCESSION_FIELD, dataset.GetOr("")))
    + Entry(Truthy(organism), (ORGANISM_FIELD, Regex(organism.GetOr(""))))
    + Entry(Truthy(assayRegex), (ASSAY_NAME_FIELD, Regex(assayRegex.GetOr(""))))
    + Entry(Truthy(technologyRegex), (ASSAY_TYPE_FIELD, Regex(technologyRegex.GetOr(""))))
  }

  /** The condition words `_build_params` recognises once the argument is
      stripped and lower-cased. */
  const FLIGHT_WORDS: set<string> := {"spaceflight", "flight"}
  const GROUND_WORDS: set<string> := {"ground", "ground control", "control"}
  const PRESENCE_WORDS: set<string> := {"any", "present"}

  /** The condition entry: flight words filter the spaceflight factor on
      "flight", ground words on "ground", presence words ask for the factor
      to be present; a missing, empty or unrecognised condition adds
      nothing. */
  function ConditionEntry(condition: Option<string>): (r: seq<Param>)
    ensures |r| <= 1
    ensures |r| == 1 <==> Truthy(condition) && Lower(Trim(condition.value)) in FLIGHT_WORDS + GROUND_WORDS + PRESENCE_WORDS
    ensures Truthy(condition) && Lower(Trim(condition.value)) in FLIGHT_WORDS ==> r == [(CONDITION_FIELD, "/flight/i")]
    ensures Truthy(condition) && Lower(Trim(condition.value)) in GROUND_WORDS ==> r == [(CONDITION_FIELD, "/ground/i")]
    ensures Truthy(condition) && Lower(Trim(condition.value)) in PRESENCE_WORDS ==> r == [("", CONDITION_FIELD)]
  {
    if !Truthy(condition) then []
    else
      var c := Lower(Trim(condition.value));
      if c in FLIGHT_WORDS then [(CONDITION_FIELD, "/flight/i")]
      else if c in GROUND_WORDS then [(CONDITION_FIELD, "/ground/i")]
      else if c in PRESENCE_WORDS then [("", CONDITION_FIELD)]
      else []
  }

  /** The first parameter: the record format. */
  const FORMAT_PARAM: Param := ("format", DEFAULT_FORMAT)

  /** The last three parameters: the organism, spaceflight-factor and
      technology fields, selected for output without filtering. */
  const OUTPUT_FIELDS: seq<Param> := [(ORGANISM_FIELD, ""), (CONDITION_FIELD, ""), (ASSAY_TYPE_FIELD, "")]

  /** The number of truthy arguments among the four optional filters. */
  function TruthyFilters(organism: Option<string>, assayRegex: Option<string>, technologyRegex: Option<string>,
                         dataset: Option<string>): nat
  {
    (if Truthy(dataset) then 1 else 0) + (if Truthy(organism) then 1 else 0)
    + (if Truthy(assayRegex) then 1 else 0) + (if Truthy(technologyRegex) then 1 else 0)
  }

  /** The parameter list `_build_params` returns: the format, the filters,
      the condition entry, then the three output fields. */
  function ParamsFor(organism: Option<string>, condition: Option<string>, assayRegex: Option<string>,
                     technologyRegex: Option<string>, dataset: Option<string>): (r: seq<Param>)
    ensures |r| >= 4 && r[0] == FORMAT_PARAM && r[|r| - 3..] == OUTPUT_FIELDS
  {
    [FORMAT_PARAM] + Filters(organism, assayRegex, technologyRegex, dataset) + ConditionEntry(condition) + OUTPUT_FIELDS
  }

  /** The parameter list always starts with the format and ends with the
      three output fields; in between come the filters of the truthy
      arguments in their fixed order, then the condition entry; so it has
      four entries plus one per truthy filter plus one for a recognised
      condition. */
  lemma ParamsShape(organism: Option<string>, condition: Option<string>, assayRegex: Option<string>,
                    technologyRegex: Option<string>, dataset: Option<string>)
    ensures var r := ParamsFor(organism, condition, assayRegex, technologyRegex, dataset);
      && |r| == 4 + TruthyFilters(organism, assayRegex, technologyRegex, dataset) + |ConditionEntry(condition)|
      && r[0] == FORMAT_PARAM
      && r[|r| - 3..] == OUTPUT_FIELDS
      && r[1..|r| - 3] == Filters(organism, assayRegex, technologyRegex, dataset) + ConditionEntry(condition)
  {
    var filters, cond := Filters(organism, assayRegex, technologyRegex, dataset), ConditionEntry(condition);
    var r := [FORMAT_PARAM] + filters + cond + OUTPUT_FIELDS;
    assert r == [FORMAT_PARAM] + (filters + cond) + OUTPUT_FIELDS;
    assert r[1..|r| - 3] == filters + cond;
    assert r[|r| - 3..] == OUTPUT_FIELDS;
  }

  /** A condition is read ignoring case and surrounding whitespace: it maps
      like its stripped, lower-cased form. */
  lemma ConditionIgnoresCaseAndSpace(s: string)
    ensures ConditionEntry(Some(s)) == ConditionEntry(Some(Lower(Trim(s))))
  {
    LowerTrimIdempotent(s);
  }

  /** One guarded `_add`: appends the parameter only for a truthy
      argument. */
  method AddIf(list: ParamList, present: bool, key: string, value: string)
    modifies list
    ensures list.items == old(list.items) + Entry(present, (key, value))
  {
    if present {
      list.Add(key, value);
    }
  }

  /** The filter half of `_build_params`: appends the entry of each truthy
      argument, in the fixed order. */
  method AddFilters(list: ParamList, organism: Option<string>, assayRegex: Option<string>,
                    technologyRegex: Option<string>, dataset: Option<string>)
    modifies list
    ensures list.items == old(list.items) + Filters(organism, assayRegex, technologyRegex, dataset)
  {
    ghost var start := list.items;
    ghost var e0 := Entry(Truthy(dataset), (ACCESSION_FIELD, dataset.GetOr("")));
    ghost var e1 := Entry(Truthy(organism), (ORGANISM_FIELD, Regex(organism.GetOr(""))));
    ghost var e2 := Entry(Truthy(assayRegex), (ASSAY_NAME_FIELD, Regex(assayRegex.GetOr(""))));
    ghost var e3 := Entry(Truthy(technologyRegex), (ASSAY_TYPE_FIELD, Regex(technologyRegex.GetOr(""))));
    AddIf(list, Truthy(dataset), ACCESSION_FIELD, dataset.GetOr(""));
    AddIf(list, Truthy(organism), ORGANISM_FIELD, Regex(organism.GetOr("")));
    AddIf(list, Truthy(assayRegex), ASSAY_NAME_FIELD, Regex(assayRegex.GetOr("")));
    AddIf(list, Truthy(technologyRegex), ASSAY_TYPE_FIELD, Regex(technologyRegex.GetOr("")));
    Regroup(start, e0, e1, e2, e3);
  }

  /** Appending four pieces one after another appends their concatenation. */
  lemma Regroup<T>(a: seq<T>, b: seq<T>, c: seq<T>, d: seq<T>, e: seq<T>)
    ensures a + b + c + d + e == a + (b + c + d + e)
  {
  }

  /** The condition branch of `_build_params`. */
  method AddCondition(list: ParamList, condition: Option<string>)
    modifies list
    ensures list.items == old(list.items) + ConditionEntry(condition)
  {
    if Truthy(condition) {
      var c := Lower(Trim(condition.value));
      if c in FLIGHT_WORDS {
        list.Add(CONDITION_FIELD, "/flight/i");
      } else if c in GROUND_WORDS {
        list.Add(CONDITION_FIELD, "/ground/i");
      } else if c in PRESENCE_WORDS {
        list.AddPresence(CONDITION_FIELD);
      }
    }
  }

  /** The closing lines of `_build_params`: the three output fields. */
  method AddOutputFields(list: ParamList)
    modifies list
    ensures list.items == old(list.items) + OUTPUT_FIELDS
  {
    list.Add(ORGANISM_FIELD);
    list.Add(CONDITION_FIELD);
    list.Add(ASSAY_TYPE_FIELD);
  }

  /** `_build_params`: the format, the filters, the condition, then the
      three output fields. */
  method BuildParams(organism: Option<string>, condition: Option<string>, assayRegex: Option<string>,
                     technologyRegex: Option<string>, dataset: Option<string>) returns (params: seq<Param>)
    ensures params == ParamsFor(organism, condition, assayRegex, technologyRegex, dataset)
  {
    ghost var filters := Filters(organism, assayRegex, technologyRegex, dataset);
    ghost var cond := ConditionEntry(condition);
    var list := new ParamList();
    list.Add("format", DEFAULT_FORMAT);
    assert list.items == [FORMAT_PARAM];
    AddFilters(list, organism, assayRegex, technologyRegex, dataset);
    AddCondition(list, condition);
    assert list.items == [FORMAT_PARAM] + filters + cond;
    AddOutputFields(list);
    params := list.items;
  }

  // -------------------------------------------------------------------------
  // The assay-sample link

  /** What the sample-table link puts before the quoted assay name. */
  function AssayLinkHead(dataset: string): string {
    META_BASE + "?id.accession=" + dataset + "&id.assay%20name="
  }

  /** The sections the sample table shows, and the HTML format, after the
      assay name. */
  const ASSAY_LINK_TAIL := "&study.characteristics&study.factor%20value&assay.parameter%20value&file.data%20type&format=html"

  /** `_build_assay_html_link`: no link unless both the accession and the
      assay name are present and non-empty; otherwise the metadata query for
      that accession and the percent-encoded assay name, ending in the HTML
      format. */
  function AssayLink(dataset: Option<string>, assayName: Option<string>): (r: Option<string>)
    ensures r.None? <==> !Truthy(dataset) || !Truthy(assayName)
    ensures r.Some? ==> StartsWith(r.value, AssayLinkHead(dataset.value) + Quote(assayName.value))
    ensures r.Some? ==> EndsWith(r.value, "&format=html")
  {
    if !Truthy(dataset) || !Truthy(assayName) then None
    else
      var link := AssayLinkHead(dataset.value) + Quote(assayName.value) + ASSAY_LINK_TAIL;
      assert link[|link| - 12..] == ASSAY_LINK_TAIL[|ASSAY_LINK_TAIL| - 12..];
      Some(link)
  }

  /** The middle of a three-part concatenation is recovered by cutting off
      the outer parts. */
  lemma Middle(head: string, q: string, tail: string)
    ensures var link := head + q + tail; link[|head|..|link| - |tail|] == q
  {
  }

  /** The assay name travels intact: the text between the head and the tail
      holds no `&`, so it is one query value, and unquoting it gives the
      name's UTF-8 bytes. */
  lemma AssayLinkCarriesName(dataset: string, assayName: string)
    requires dataset != [] && assayName != []
    ensures var link := AssayLink(Some(dataset), Some(assayName)).value;
      var q := link[|AssayLinkHead(dataset)|..|link| - |ASSAY_LINK_TAIL|];
      && link == AssayLinkHead(dataset) + q + ASSAY_LINK_TAIL
      && '&' !in q
      && Unquote(q) == Utf8Encode(assayName)
  {
    var head, q := AssayLinkHead(dataset), Quote(assayName);
    Middle(head, q, ASSAY_LINK_TAIL);
    assert '&' !in q by {
      forall i | 0 <= i < |q| ensures q[i] != '&' {
        assert IsQuotedChar(q[i]);
      }
    }
    UnquoteQuote(assayName);
  }

  /** Within one dataset, distinct assay names get distinct links. */
  lemma AssayLinkInjective(dataset: string, a: string, b: string)
    requires dataset != [] && a != [] && b != []
    requires AssayLink(Some(dataset), Some(a)) == AssayLink(Some(dataset), Some(b))
    ensures a == b
  {
    var head := AssayLinkHead(dataset);
    Middle(head, Quote(a), ASSAY_LINK_TAIL);
    Middle(head, Quote(b), ASSAY_LINK_TAIL);
    QuoteInjective(a, b);
  }

  // -------------------------------------------------------------------------
  // The search results

  /** One simplified result: the raw fields of a row and its two links. */
  datatype AssayEntry = AssayEntry(
    dataset: Option<string>,
    assayName: Option<string>,
    organism: Option<string>,
    spaceflightCondition: Option<string>,
    assayTechnology: Option<string>,
    link: Option<string>,
    datasetLink: Option<string>)

  /** The entry `search_assays` builds for one row: the fields read as they
      are, without normalisation. */
  function EntryOf(row: Row): (e: AssayEntry)
    ensures e.dataset == Get(row, ACCESSION_FIELD) && e.assayName == Get(row, ASSAY_NAME_FIELD)
    ensures e.datasetLink.None? <==> !Truthy(e.dataset)
    ensures e.link.None? <==> !Truthy(e.dataset) || !Truthy(e.assayName)
    ensures e.link.Some? ==> e.datasetLink.Some?
  {
    var ds := Get(row, ACCESSION_FIELD);
    var an := Get(row, ASSAY_NAME_FIELD);
    AssayEntry(ds, an, Get(row, ORGANISM_FIELD), Get(row, CONDITION_FIELD), Get(row, ASSAY_TYPE_FIELD),
               AssayLink(ds, an), DatasetLink(ds))
  }

  /** Both links of an entry point back at its row: the dataset link reads
      back as the row's accession, an entry with a sample-table link also has
      a dataset link, and the sample-table link carries the row's assay
      name. */
  lemma EntryLinksMatchRow(row: Row)
    ensures var e := EntryOf(row);
      && (e.datasetLink.Some? ==> DatasetOfLink(e.datasetLink.value) == Get(row, ACCESSION_FIELD))
      && (e.link.Some? ==> e.datasetLink.Some?)
      && (e.link.Some? ==> StartsWith(e.link.value, AssayLinkHead(Get(row, ACCESSION_FIELD).value)
                                                    + Quote(Get(row, ASSAY_NAME_FIELD).value)))
  {
    var ds := Get(row, ACCESSION_FIELD);
    if Truthy(ds) {
      DatasetLinkRoundTrip(ds);
    }
  }

  /** The loop of `search_assays`: one entry per fetched row, in row
      order. */
  method SearchAssays(rows: seq<Row>) returns (simplified: seq<AssayEntry>)
    ensures |simplified| == |rows|
    ensures forall i :: 0 <= i < |rows| ==> simplified[i] == EntryOf(rows[i])
  {
    simplified := [];
    for i := 0 to |rows|
      invariant |simplified| == i
      invariant forall k :: 0 <= k < i ==> simplified[k] == EntryOf(rows[k])
    {
      var row := rows[i];
      var ds := Get(row, ACCESSION_FIELD);
      var an := Get(row, ASSAY_NAME_FIELD);
      simplified := simplified + [AssayEntry(
        ds, an, Get(row, ORGANISM_FIELD), Get(row, CONDITION_FIELD), Get(row, ASSAY_TYPE_FIELD),
        AssayLink(ds, an), DatasetLink(ds))];
    }
  }
}

/** What both routers share about the NASA OSDR biodata query service: the
    shape of a returned record, the field names they read, the service's
    addresses, and the link to a dataset's HTML page. */
module Osdr {
  import opened Wrappers
  import opened Text

  /** One flat record as the assay query service returns it: dotted field
      names mapped to a string or to null. */
  type Row = map<string, Option<string>>

  /** Python's `row.get(k)`: absent keys read as `None`. */
  function Get(row: Row, k: string): Option<string> {
    if k in row then row[k] else None
  }

  /** Python's truthiness of an optional string: present and non-empty. */
  predicate Truthy(x: Option<string>) {
    x.Some? && x.value != []
  }

  /** The record fields the routers read and select. */
  const ORGANISM_FIELD := "study.characteristics.organism"
  const ASSAY_TYPE_FIELD := "investigation.study assays.study assay technology type"
  const CONDITION_FIELD := "study.factor value.spaceflight"
  const ACCESSION_FIELD := "id.accession"
  const ASSAY_NAME_FIELD := "id.assay name"

  /** The service's addresses and the record format both routers request. */
  const META_BASE := "https://visualization.osdr.nasa.gov/biodata/api/v2/query/metadata/"
  const DATASET_BASE := "https://visualization.osdr.nasa.gov/biodata/api/v2/dataset"
  const DEFAULT_FORMAT := "json.records"

  /** What a dataset link puts before and after the accession. */
  const DATASET_LINK_PREFIX := DATASET_BASE + "/"
  const DATASET_LINK_SUFFIX := "/?format=html"

  /** `_build_dataset_html_link`: no link for a missing or empty accession,
      otherwise the accession's page between the fixed prefix and suffix. */
  function DatasetLink(dataset: Option<string>): (r: Option<string>)
    ensures r.None? <==> !Truthy(dataset)
    ensures r.Some? ==> StartsWith(r.value, DATASET_LINK_PREFIX) && EndsWith(r.value, DATASET_LINK_SUFFIX)
  {
    if !Truthy(dataset) then None
    else Some(DATASET_LINK_PREFIX + dataset.value + DATASET_LINK_SUFFIX)
  }

  /** Reads the accession back out of a dataset link; `None` for text that is
      not one. */
  function DatasetOfLink(link: string): Option<string> {
    var lo, hi := |DATASET_LINK_PREFIX|, |link| - |DATASET_LINK_SUFFIX|;
    if lo < hi && StartsWith(link, DATASET_LINK_PREFIX) && EndsWith(link, DATASET_LINK_SUFFIX)
    then Some(link[lo..hi])
    else None
  }

  /** A dataset link names its accession: reading it back gives the
      accession, so distinct accessions get distinct links. */
  lemma DatasetLinkRoundTrip(dataset: Option<string>)
    requires Truthy(dataset)
    ensures DatasetOfLink(DatasetLink(dataset).value) == dataset
  {
    var link := DatasetLink(dataset).value;
    assert link == DATASET_LINK_PREFIX + dataset.value + DATASET_LINK_SUFFIX;
    assert link[|DATASET_LINK_PREFIX|..|link| - |DATASET_LINK_SUFFIX|] == dataset.value;
  }

  /** Text that reads back as an accession is that accession's link. */
  lemma DatasetOfLinkInverts(link: string)
    requires DatasetOfLink(link).Some?
    ensures DatasetLink(DatasetOfLink(link)) == Some(link)
  {
    var d := DatasetOfLink(link).value;
    var lo, hi := |DATASET_LINK_PREFIX|, |link| - |DATASET_LINK_SUFFIX|;
    assert link == link[..lo] + link[lo..hi] + link[hi..];
  }
}

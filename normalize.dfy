/** The value normalisers of the gap finder (api/gap_finder/router.py):
    `_norm_str`, `_norm_condition` and `_pick_tissue` over `TISSUE_KEYS`. */
module Normalize {
  import opened Wrappers
  import opened Text
  import opened Osdr

  /** The placeholder words that `_norm_str` treats as missing, compared
      after lower-casing. */
  predicate IsNullWord(s: string) {
    var low := Lower(s);
    low == "nan" || low == "none" || low == "null"
  }

  /** `_norm_str`: absent, blank, or a "nan"/"none"/"null" placeholder (in any
      case) becomes `None`; anything else is returned stripped of surrounding
      whitespace, so a present result is never empty and never padded. */
  function NormStr(x: Option<string>): (r: Option<string>)
    ensures r.None? <==> x.None? || Trim(x.value) == [] || IsNullWord(Trim(x.value))
    ensures r.Some? ==> r.value == Trim(x.value)
    ensures r.Some? ==> r.value != [] && !IsSpace(r.value[0]) && !IsSpace(r.value[|r.value| - 1])
  {
    match x
    case None => None
    case Some(v) =>
      var s := Trim(v);
      if s == [] || IsNullWord(s) then None else Some(s)
  }

  /** Normalising a normalised value changes nothing. */
  lemma NormStrIdempotent(x: Option<string>)
    ensures NormStr(NormStr(x)) == NormStr(x)
  {
    if NormStr(x).Some? {
      TrimOfTrimmed(NormStr(x).value);
    }
  }

  /** The two coarse condition labels of the gap finder. */
  const SPACEFLIGHT := "Spaceflight"
  const GROUND_ANALOG := "Ground/Analog"

  /** The lower-cased value mentions both "space" and "flight". */
  predicate MentionsSpaceflight(low: string) {
    Contains(low, "space") && Contains(low, "flight")
  }

  /** The lower-cased value mentions "ground" or "analog". */
  predicate MentionsGround(low: string) {
    Contains(low, "ground") || Contains(low, "analog")
  }

  /** `_norm_condition`: the normalised value, classified by case-insensitive
      substring tests; the space-and-flight test comes first, so a value that
      mentions both buckets is `Spaceflight`. Values in neither bucket pass
      through (stripped). */
  function NormCondition(v: Option<string>): (r: Option<string>)
    ensures r.None? <==> NormStr(v).None?
    ensures r.Some? && MentionsSpaceflight(Lower(NormStr(v).value)) ==> r.value == SPACEFLIGHT
    ensures r.Some? && !MentionsSpaceflight(Lower(NormStr(v).value)) && MentionsGround(Lower(NormStr(v).value)) ==>
              r.value == GROUND_ANALOG
    ensures r.Some? && !MentionsSpaceflight(Lower(NormStr(v).value)) && !MentionsGround(Lower(NormStr(v).value)) ==>
              r == NormStr(v)
  {
    match NormStr(v)
    case None => None
    case Some(s) =>
      var low := Lower(s);
      if MentionsSpaceflight(low) then Some(SPACEFLIGHT)
      else if MentionsGround(low) then Some(GROUND_ANALOG)
      else Some(s)
  }

  /** What `_norm_condition` can return: one of the two labels, or a
      non-empty stripped value that mentions neither bucket. */
  lemma NormConditionRange(v: Option<string>)
    ensures var r := NormCondition(v);
      r.None? || r.value == SPACEFLIGHT || r.value == GROUND_ANALOG
      || (r.value != [] && !MentionsSpaceflight(Lower(r.value)) && !MentionsGround(Lower(r.value)))
  {
  }

  /** A stripped value is normalised to itself unless it is a placeholder. */
  lemma NormStrOfStripped(s: string)
    requires s != [] && !IsSpace(s[0]) && !IsSpace(s[|s| - 1]) && !IsNullWord(s)
    ensures NormStr(Some(s)) == Some(s)
  {
    TrimOfTrimmed(s);
  }

  /** "Spaceflight" is a fixed point of the normalisation. */
  lemma SpaceflightIsNormal()
    ensures NormStr(Some(SPACEFLIGHT)) == Some(SPACEFLIGHT)
    ensures MentionsSpaceflight(Lower(SPACEFLIGHT))
  {
    assert Lower(SPACEFLIGHT) == "spaceflight";
    NormStrOfStripped(SPACEFLIGHT);
    SpaceflightMentions("spaceflight");
  }

  /** The lower-cased label mentions both words. */
  lemma SpaceflightMentions(low: string)
    requires low == "spaceflight"
    ensures MentionsSpaceflight(low)
  {
    assert StartsWith(low, "space");
    assert OccursAt(low, "flight", 5);
    ContainsAt(low, "flight");
  }

  /** "Ground/Analog" is a fixed point of the normalisation and does not
      read as spaceflight. */
  lemma GroundAnalogIsNormal()
    ensures NormStr(Some(GROUND_ANALOG)) == Some(GROUND_ANALOG)
    ensures !MentionsSpaceflight(Lower(GROUND_ANALOG)) && MentionsGround(Lower(GROUND_ANALOG))
  {
    assert Lower(GROUND_ANALOG) == "ground/analog";
    NormStrOfStripped(GROUND_ANALOG);
    GroundMentions("ground/analog");
  }

  /** The lower-cased label mentions "ground" and not "space". */
  lemma GroundMentions(low: string)
    requires low == "ground/analog"
    ensures !MentionsSpaceflight(low) && MentionsGround(low)
  {
    assert StartsWith(low, "ground");
    assert 's' !in low;
    NotContainsWithoutHead(low, "space");
  }

  /** Classifying a classified condition changes nothing. */
  lemma NormConditionIdempotent(v: Option<string>)
    ensures NormCondition(NormCondition(v)) == NormCondition(v)
  {
    SpaceflightIsNormal();
    GroundAnalogIsNormal();
    var r := NormCondition(v);
    if r.Some? && r.value != SPACEFLIGHT && r.value != GROUND_ANALOG {
      NormStrIdempotent(v);
    }
  }

  // -------------------------------------------------------------------------
  // Tissue extraction

  /** `TISSUE_KEYS`: the candidate tissue fields, in probing order. */
  const TISSUE_KEYS: seq<string> := [
    "study.characteristics.organism part",
    "study.characteristics.tissue",
    "study.characteristics.organ",
    "study.characteristics.cell type",
    "study.characteristics.material type"
  ]

  /** The same fields with each space written as "%20", as the second probing
      loop spells them. */
  const ENCODED_TISSUE_KEYS: seq<string> := [
    "study.characteristics.organism%20part",
    "study.characteristics.tissue",
    "study.characteristics.organ",
    "study.characteristics.cell%20type",
    "study.characteristics.material%20type"
  ]

  /** Field `k` is present and normalises to a value. */
  predicate Yields(row: Row, k: string) {
    k in row && NormStr(row[k]).Some?
  }

  /** The index of the first of `keys` that yields a value, or `|keys|`
      when none does. */
  function FirstYieldIndex(row: Row, keys: seq<string>): (i: nat)
    ensures i <= |keys|
    ensures forall j :: 0 <= j < i ==> !Yields(row, keys[j])
    ensures i < |keys| ==> Yields(row, keys[i])
  {
    if keys == [] then 0
    else if Yields(row, keys[0]) then 0
    else 1 + FirstYieldIndex(row, keys[1..])
  }

  /** The normalised value of the first of `keys` that yields one; `None`
      when no field does. */
  function FirstYield(row: Row, keys: seq<string>): (r: Option<string>)
    ensures r.None? <==> forall i :: 0 <= i < |keys| ==> !Yields(row, keys[i])
    ensures r.Some? ==> r == NormStr(row[keys[FirstYieldIndex(row, keys)]]) && NormStr(r) == r
  {
    var i := FirstYieldIndex(row, keys);
    if i < |keys| then
      NormStrIdempotent(row[keys[i]]);
      NormStr(row[keys[i]])
    else None
  }

  /** A field that yields, with none yielding before it, is the one
      `FirstYield` reads. */
  lemma FirstYieldAt(row: Row, keys: seq<string>, i: nat)
    requires i < |keys| && Yields(row, keys[i])
    requires forall j :: 0 <= j < i ==> !Yields(row, keys[j])
    ensures FirstYield(row, keys) == NormStr(row[keys[i]])
  {
    FirstYieldIndexAt(row, keys, i);
  }

  lemma {:induction false} FirstYieldIndexAt(row: Row, keys: seq<string>, i: nat)
    requires i < |keys| && Yields(row, keys[i])
    requires forall j :: 0 <= j < i ==> !Yields(row, keys[j])
    ensures FirstYieldIndex(row, keys) == i
  {
    if i > 0 {
      assert !Yields(row, keys[0]);
      assert forall j :: 0 <= j < i - 1 ==> keys[1..][j] == keys[j + 1];
      FirstYieldIndexAt(row, keys[1..], i - 1);
    }
  }

  /** What `_pick_tissue` returns, by the order of its two probing loops. */
  function TissueOf(row: Row): (r: Option<string>)
    ensures r.None? <==> (forall i :: 0 <= i < |TISSUE_KEYS| ==> !Yields(row, TISSUE_KEYS[i]))
                         && (forall i :: 0 <= i < |ENCODED_TISSUE_KEYS| ==> !Yields(row, ENCODED_TISSUE_KEYS[i]))
    ensures r.Some? ==> r.value != [] && NormStr(r) == r
  {
    match FirstYield(row, TISSUE_KEYS)
    case Some(v) => Some(v)
    case None => FirstYield(row, ENCODED_TISSUE_KEYS)
  }

  /** `_pick_tissue` returns the first plain field that yields a value; only
      when none does, the first "%20"-spelled field that does; otherwise
      `None`. A picked tissue is a non-empty normalised value. */
  lemma TissueOfPicksFirst(row: Row)
    ensures (exists i :: 0 <= i < |TISSUE_KEYS| && Yields(row, TISSUE_KEYS[i])) ==>
              TissueOf(row) == FirstYield(row, TISSUE_KEYS)
    ensures (forall i :: 0 <= i < |TISSUE_KEYS| ==> !Yields(row, TISSUE_KEYS[i])) ==>
              TissueOf(row) == FirstYield(row, ENCODED_TISSUE_KEYS)
    ensures (forall i :: 0 <= i < |TISSUE_KEYS| ==> !Yields(row, TISSUE_KEYS[i])) &&
            (forall i :: 0 <= i < |ENCODED_TISSUE_KEYS| ==> !Yields(row, ENCODED_TISSUE_KEYS[i])) ==>
              TissueOf(row) == None
    ensures TissueOf(row).Some? ==> TissueOf(row).value != [] && NormStr(TissueOf(row)) == TissueOf(row)
  {
  }

  /** One probing loop of `_pick_tissue`: the fields are tried in order and
      the first normalised value found is returned. */
  method ProbeFields(row: Row, keys: seq<string>) returns (r: Option<string>)
    ensures r == FirstYield(row, keys)
  {
    var i := 0;
    while i < |keys|
      invariant 0 <= i <= |keys|
      invariant forall j :: 0 <= j < i ==> !Yields(row, keys[j])
    {
      var k := keys[i];
      if k in row {
        var v := NormStr(row[k]);
        if v.Some? {
          FirstYieldAt(row, keys, i);
          return v;
        }
      }
      i := i + 1;
    }
    return None;
  }

  /** `_pick_tissue`: probes the plain fields in order, then the "%20"
      spellings, returning the first normalised value found. */
  method PickTissue(row: Row) returns (r: Option<string>)
    ensures r == TissueOf(row)
  {
    r := ProbeFields(row, TISSUE_KEYS);
    if r.None? {
      r := ProbeFields(row, ENCODED_TISSUE_KEYS);
    }
  }
}

/** createSolrDocument of the bulk loader and of the single-record updater,
    which share one body: a full document from one row, with the fixed
    columns first, then every column of a fixed list through
    addFieldIfExists, then the constant source. Values are added one by one
    and never wrapped, sanitised or defaulted. */
module FullDocument {
  import opened JavaStrings
  import opened SolrModel
  import opened FieldCodecs

  /** The columns createSolrDocument passes to addFieldIfExists, in order,
      in the groups the loader lists them in. */
  const BasicFields: seq<string> := [
    "authors", "keywords", "mesh_terms", "affiliation", "issn", "p_year", "p_type", "doi_s",
    "citation", "chemicals", "j_date_s", "pmc_id"]
  const OrganismFields: seq<string> := ["organism_common_name", "organism_term", "organism_ncbi_id"]
  const GeneFields: seq<string> := ["gene"]
  const IdFields: seq<string> := [
    "mp_id", "bp_id", "vt_id", "chebi_id", "rs_id", "rdo_id", "nbo_id", "xco_id", "so_id",
    "hp_id", "xdb_id", "rgd_obj_id"]
  const TermFields: seq<string> := [
    "mp_term", "bp_term", "vt_term", "chebi_term", "rs_term", "rdo_term", "nbo_term",
    "xco_term", "so_term", "hp_term", "rgd_obj_term"]
  const PositionFields: seq<string> := [
    "gene_pos", "mp_pos", "bp_pos", "vt_pos", "chebi_pos", "rs_pos", "rdo_pos", "nbo_pos",
    "xco_pos", "so_pos", "hp_pos", "rgd_obj_pos", "organism_pos"]
  const CountFields: seq<string> := [
    "gene_count", "mp_count", "bp_count", "vt_count", "chebi_count", "rs_count", "rdo_count",
    "nbo_count", "xco_count", "so_count", "hp_count", "rgd_obj_count", "go_count"]
  const FieldList: seq<string> :=
    BasicFields + OrganismFields + GeneFields + IdFields + TermFields + PositionFields + CountFields

  /** The values addFieldIfExists adds for one column value: none for NULL or
      blank; for a count field each parsed " | " token; for a multi-valued
      field each trimmed non-empty token; otherwise the raw value. */
  function FullValues(name: string, v: Option<string>): seq<Value> {
    if IsNullOrBlank(v) then []
    else if EndsWith(name, "_count") then Ints(ParsedInts(Split(v.value, Bar)))
    else if IsMultiValued(name) then Strs(TrimmedNonEmpty(Split(v.value, Bar)))
    else [Str(v.value)]
  }

  /** addFieldIfExists: a missing column is caught and skipped. */
  function FullFieldStep(d: DocState, row: Row, name: string): DocState {
    if name !in row then d else AddValues(d, name, FullValues(name, row[name]))
  }

  /** addFieldIfExists for each of `names`, in order. */
  function FullFields(d: DocState, row: Row, names: seq<string>): DocState
    decreases |names|
  {
    if names == [] then d
    else FullFieldStep(FullFields(d, row, names[..|names| - 1]), row, names[|names| - 1])
  }

  /** addField when there is a value. */
  function AddOpt(d: DocState, name: string, v: Option<Value>): (r: DocState)
    ensures WellFormed(d) ==> WellFormed(r)
    ensures Values(r, name) == Values(d, name) + OptSeq(v)
    ensures forall n :: n != name ==> Values(r, n) == Values(d, n)
  {
    if v.Some? then AddValue(d, name, v.value) else d
  }

  /** A column read as a String value when it is not NULL. */
  function NonNullValue(v: Option<string>): Option<Value> {
    if v.Some? then Some(Str(v.value)) else None
  }

  /** The abstract: added when the column is there and not blank. */
  function AbstractValue(row: Row): Option<Value> {
    if "abstract" in row && !IsNullOrBlank(row["abstract"]) then Some(Str(row["abstract"].value)) else None
  }

  /** The date with the time appended, when not NULL. */
  function DateValue(v: Option<string>): Option<Value> {
    if v.Some? then Some(Str(v.value + DateSuffix)) else None
  }

  /** The fixed columns read before the list: pmid and title when not NULL,
      abstract when not blank, p_date with the time appended. */
  function FixedColumns(row: Row): DocState
    requires "pmid" in row && "title" in row && "p_date" in row
  {
    var d1 := AddOpt(EmptyDoc, "pmid", NonNullValue(row["pmid"]));
    var d2 := AddOpt(d1, "title", NonNullValue(row["title"]));
    var d3 := AddOpt(d2, "abstract", AbstractValue(row));
    AddOpt(d3, "p_date", DateValue(row["p_date"]))
  }

  /** createSolrDocument: a missing pmid, title or p_date column throws and
      gives no document; a missing abstract column is caught. */
  function Full(row: Row): Option<DocState> {
    if "pmid" !in row || "title" !in row || "p_date" !in row then None
    else Some(AddValue(FullFields(FixedColumns(row), row, FieldList), "p_source", Str("pubmed")))
  }

  // ------------------------------------------------------------------
  // What the document holds

  /** The values the list contributes under `n`: those of every list entry
      equal to `n`, in order. */
  function ListValues(row: Row, names: seq<string>, n: string): seq<Value>
    decreases |names|
  {
    if names == [] then []
    else
      var last := names[|names| - 1];
      ListValues(row, names[..|names| - 1], n) + (if last == n && n in row then FullValues(n, row[n]) else [])
  }

  lemma FullFieldsValues(d: DocState, row: Row, names: seq<string>, n: string)
    ensures WellFormed(d) ==> WellFormed(FullFields(d, row, names))
    ensures Values(FullFields(d, row, names), n) == Values(d, n) + ListValues(row, names, n)
  {
    if WellFormed(d) {
      FullFieldsWellFormed(d, row, names);
    }
    FullFieldsListed(d, row, names, n);
  }

  lemma {:induction false} FullFieldsWellFormed(d: DocState, row: Row, names: seq<string>)
    requires WellFormed(d)
    ensures WellFormed(FullFields(d, row, names))
    decreases |names|
  {
    if names != [] {
      FullFieldsWellFormed(d, row, names[..|names| - 1]);
    }
  }

  lemma {:induction false} FullFieldsListed(d: DocState, row: Row, names: seq<string>, n: string)
    ensures Values(FullFields(d, row, names), n) == Values(d, n) + ListValues(row, names, n)
    decreases |names|
  {
    if names != [] {
      var front := names[..|names| - 1];
      var last := names[|names| - 1];
      FullFieldsListed(d, row, front, n);
      var m := FullFields(d, row, front);
      assert FullFields(d, row, names) == FullFieldStep(m, row, last);
      FullStepValues(m, row, last, n);
    }
  }

  lemma FullStepValues(m: DocState, row: Row, last: string, n: string)
    ensures Values(FullFieldStep(m, row, last), n)
         == Values(m, n) + (if last == n && n in row then FullValues(n, row[n]) else [])
  {
  }

  lemma {:induction false} ListValuesAbsent(row: Row, names: seq<string>, n: string)
    requires n !in names
    ensures ListValues(row, names, n) == []
    decreases |names|
  {
    if names != [] {
      assert names[|names| - 1] != n;
      ListValuesAbsent(row, names[..|names| - 1], n);
    }
  }

  /** The fixed names the list must not hold. */
  predicate IsFixedName(n: string) {
    n == "pmid" || n == "title" || n == "abstract" || n == "p_date" || n == "p_source"
  }

  lemma BasicNotFixed()
    ensures forall n :: n in BasicFields ==> !IsFixedName(n)
  {
  }

  lemma OtherGroupsNotFixed()
    ensures forall n :: n in OrganismFields + GeneFields + IdFields ==> !IsFixedName(n)
  {
  }

  lemma TermsNotFixed()
    ensures forall n :: n in TermFields ==> !IsFixedName(n)
  {
  }

  lemma PositionsNotFixed()
    ensures forall n :: n in PositionFields ==> !IsFixedName(n)
  {
  }

  lemma CountsNotFixed()
    ensures forall n :: n in CountFields ==> !IsFixedName(n)
  {
  }

  /** The list holds none of the fixed names. */
  lemma FixedNamesNotListed()
    ensures forall n :: n in FieldList ==> !IsFixedName(n)
  {
    BasicNotFixed();
    OtherGroupsNotFixed();
    TermsNotFixed();
    PositionsNotFixed();
    CountsNotFixed();
  }

  function OptSeq(v: Option<Value>): seq<Value> {
    if v.Some? then [v.value] else []
  }

  /** What the fixed reads leave under `n`, field by field. */
  function FixedValues(row: Row, n: string): seq<Value>
    requires "pmid" in row && "title" in row && "p_date" in row
  {
    if n == "pmid" then OptSeq(NonNullValue(row["pmid"]))
    else if n == "title" then OptSeq(NonNullValue(row["title"]))
    else if n == "abstract" then OptSeq(AbstractValue(row))
    else if n == "p_date" then OptSeq(DateValue(row["p_date"]))
    else []
  }

  lemma FixedColumnsWellFormed(row: Row)
    requires "pmid" in row && "title" in row && "p_date" in row
    ensures WellFormed(FixedColumns(row))
  {
    assert WellFormed(EmptyDoc);
    var d1 := AddOpt(EmptyDoc, "pmid", NonNullValue(row["pmid"]));
    assert WellFormed(d1);
    var d2 := AddOpt(d1, "title", NonNullValue(row["title"]));
    assert WellFormed(d2);
    var d3 := AddOpt(d2, "abstract", AbstractValue(row));
    assert WellFormed(d3);
  }

  lemma FixedColumnsFacts(row: Row, n: string)
    requires "pmid" in row && "title" in row && "p_date" in row
    ensures WellFormed(FixedColumns(row))
    ensures Values(FixedColumns(row), n) == FixedValues(row, n)
  {
    FixedColumnsWellFormed(row);
    var d1 := AddOpt(EmptyDoc, "pmid", NonNullValue(row["pmid"]));
    var d2 := AddOpt(d1, "title", NonNullValue(row["title"]));
    var d3 := AddOpt(d2, "abstract", AbstractValue(row));
    if n == "pmid" {
      assert |n| == 4;
      assert Values(d3, n) == Values(d1, n);
    } else if n == "title" {
      assert |n| == 5;
      assert Values(d3, n) == Values(d2, n);
    } else if n == "abstract" {
      assert |n| == 8;
    } else if n == "p_date" {
      assert |n| == 6;
      assert Values(d3, n) == [];
    } else {
      assert Values(d3, n) == [];
    }
  }

  /** Every name holds what the fixed reads, then the list, then the source
      added under it, in that order; and the document is well formed. */
  lemma FullValuesOf(row: Row, n: string)
    requires Full(row).Some?
    ensures WellFormed(Full(row).value)
    ensures Values(Full(row).value, n) ==
      FixedValues(row, n) + ListValues(row, FieldList, n) + (if n == "p_source" then [Str("pubmed")] else [])
  {
    FixedColumnsFacts(row, n);
    FullFieldsValues(FixedColumns(row), row, FieldList, n);
  }

  /** A column of the list that is not one of the fixed names holds exactly
      what addFieldIfExists read for it. */
  lemma FullListedValues(row: Row, n: string)
    requires Full(row).Some? && !IsFixedName(n)
    ensures Values(Full(row).value, n) == ListValues(row, FieldList, n)
  {
    FullValuesOf(row, n);
  }

  /** The fixed names hold only what the fixed reads and the source gave:
      p_source is "pubmed", once; pmid and title are there exactly when not
      NULL; abstract exactly when not blank; p_date carries the time. */
  lemma FullFixedValues(row: Row, n: string)
    requires Full(row).Some? && IsFixedName(n)
    ensures Values(Full(row).value, n) == FixedValues(row, n) + (if n == "p_source" then [Str("pubmed")] else [])
  {
    FixedNamesNotListed();
    FullValuesOf(row, n);
    ListValuesAbsent(row, FieldList, n);
  }

  lemma FullSource(row: Row)
    requires Full(row).Some?
    ensures Values(Full(row).value, "p_source") == [Str("pubmed")]
  {
    FullFixedValues(row, "p_source");
  }

  /** A name outside the list and the fixed names never appears. */
  lemma FullUnlistedAbsent(row: Row, n: string)
    requires Full(row).Some?
    requires n !in FieldList && !IsFixedName(n)
    ensures n !in Full(row).value.fields
  {
    FullValuesOf(row, n);
    ListValuesAbsent(row, FieldList, n);
  }

  // ------------------------------------------------------------------
  // The codec of addFieldIfExists

  /** Counts written as Integer.toString joined by " | " are read back as the
      same Integers, one value each. */
  lemma FullCountsOfJoin(name: string, xs: seq<int>)
    requires EndsWith(name, "_count")
    requires xs != [] && forall i :: 0 <= i < |xs| ==> InInt32(xs[i])
    ensures FullValues(name, Some(Join(Bar, IntStrings(xs)))) == Ints(xs)
  {
    CountTokensOfJoin(xs);
  }

  /** No zero default: a NULL or blank count column, or one without a valid
      integer, adds nothing. */
  lemma FullCountsNoDefault(name: string, v: Option<string>)
    requires EndsWith(name, "_count")
    requires IsNullOrBlank(v) || ParsedInts(Split(v.value, Bar)) == []
    ensures FullValues(name, v) == []
  {
  }

  /** Tokens joined by " | " in a multi-valued column come back one value each,
      unsanitised. */
  lemma FullMultiOfJoin(name: string, toks: seq<string>)
    requires IsMultiValued(name) && !EndsWith(name, "_count")
    requires toks != [] && forall i :: 0 <= i < |toks| ==> IsToken(toks[i])
    ensures FullValues(name, Some(Join(Bar, toks))) == Strs(toks)
  {
    MultiTokensOfJoin(toks);
  }

  /** Any other column is one raw, untrimmed value. */
  lemma FullSingleRaw(name: string, v: string)
    requires !IsMultiValued(name) && !EndsWith(name, "_count") && !IsBlank(v)
    ensures FullValues(name, Some(v)) == [Str(v)]
  {
  }

  /** p_year stays text here, whatever it holds. */
  lemma FullYearIsText(v: string)
    requires !IsBlank(v)
    ensures FullValues("p_year", Some(v)) == [Str(v)]
  {
    assert !EndsWith("p_year", "_count") && !IsMultiValued("p_year");
  }

  // ------------------------------------------------------------------
  // The methods

  lemma AddValuesPrefix(d: DocState, name: string, vs: seq<Value>, i: nat)
    requires i < |vs|
    ensures AddValues(d, name, vs[..i + 1]) == AddValue(AddValues(d, name, vs[..i]), name, vs[i])
  {
    assert vs[..i + 1][..i] == vs[..i];
  }

  /** addField once per value, in order. */
  method AddAll(doc: SolrDocument, fieldName: string, vs: seq<Value>)
    modifies doc
    ensures doc.State() == AddValues(old(doc.State()), fieldName, vs)
  {
    ghost var d0 := doc.State();
    for i := 0 to |vs|
      invariant doc.State() == AddValues(d0, fieldName, vs[..i])
    {
      AddValuesPrefix(d0, fieldName, vs, i);
      doc.AddField(fieldName, vs[i]);
    }
    assert vs[..|vs|] == vs;
  }

  method AddFieldIfExists(doc: SolrDocument, row: Row, fieldName: string)
    modifies doc
    ensures doc.State() == FullFieldStep(old(doc.State()), row, fieldName)
  {
    if fieldName !in row {
      return;
    }
    var value := row[fieldName];
    if value.Some? && !IsBlank(value.value) {
      if EndsWith(fieldName, "_count") {
        var counts := ParseCounts(Split(value.value, Bar));
        AddAll(doc, fieldName, Ints(counts));
      } else if IsMultiValued(fieldName) {
        var tokens := CollectTokens(Split(value.value, Bar));
        AddAll(doc, fieldName, Strs(tokens));
      } else {
        AddValuesSingle(doc.State(), fieldName, Str(value.value));
        doc.AddField(fieldName, Str(value.value));
      }
    }
  }

  lemma AddValuesSingle(d: DocState, name: string, v: Value)
    ensures AddValues(d, name, [v]) == AddValue(d, name, v)
  {
    assert [v][..0] == [];
  }

  lemma FullFieldsSnoc(d: DocState, row: Row, names: seq<string>, i: nat)
    requires i < |names|
    ensures FullFields(d, row, names[..i + 1]) == FullFieldStep(FullFields(d, row, names[..i]), row, names[i])
  {
    assert names[..i + 1][..i] == names[..i];
  }

  /** One fixed column: added when the read gave a value. */
  method AddOptField(doc: SolrDocument, name: string, v: Option<Value>)
    modifies doc
    ensures doc.State() == AddOpt(old(doc.State()), name, v)
  {
    if v.Some? {
      doc.AddField(name, v.value);
    }
  }

  /** The loop over the fixed field list, one addFieldIfExists per name. */
  method AddListedFields(doc: SolrDocument, row: Row, names: seq<string>)
    modifies doc
    ensures doc.State() == FullFields(old(doc.State()), row, names)
  {
    ghost var start := doc.State();
    for i := 0 to |names|
      invariant doc.State() == FullFields(start, row, names[..i])
    {
      FullFieldsSnoc(start, row, names, i);
      AddFieldIfExists(doc, row, names[i]);
    }
    assert names[..|names|] == names;
  }

  /** createSolrDocument: null exactly when a read throws. */
  method CreateSolrDocument(row: Row) returns (doc: SolrDocument?)
    ensures doc == null <==> Full(row).None?
    ensures doc != null ==> fresh(doc) && doc.State() == Full(row).value
  {
    var d := new SolrDocument();
    if "pmid" !in row {
      return null;
    }
    AddOptField(d, "pmid", NonNullValue(row["pmid"]));
    if "title" !in row {
      return null;
    }
    AddOptField(d, "title", NonNullValue(row["title"]));
    AddOptField(d, "abstract", AbstractValue(row));
    if "p_date" !in row {
      return null;
    }
    AddOptField(d, "p_date", DateValue(row["p_date"]));
    AddListedFields(d, row, FieldList);
    d.AddField("p_source", Str("pubmed"));
    return d;
  }
}

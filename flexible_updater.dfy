/** The FlexibleFieldUpdater object: the requested field set it is built with,
    and the methods that fill a SolrInputDocument from one row, each proved
    against the builder function of the same name in PartialUpdate. */
module FlexibleUpdater {
  import opened JavaStrings
  import opened SolrModel
  import opened TextSanitizer
  import opened GenePositions
  import opened FieldCodecs
  import opened PartialUpdate

  /** A Fold that has already thrown stays thrown whatever follows. */
  lemma FoldStaysNone(d: DocState, row: Row, a: seq<string>, b: seq<string>, flag: bool)
    requires Fold(d, row, a, flag).None?
    ensures Fold(d, row, a + b, flag).None?
  {
    FoldAppend(d, row, a, b, flag);
  }

  /** A loop that throws part way leaves no document. */
  lemma FoldPrefixNone(d: DocState, row: Row, names: seq<string>, i: nat, flag: bool)
    requires i <= |names| && Fold(d, row, names[..i], flag).None?
    ensures Fold(d, row, names, flag).None?
  {
    assert names[..i] + names[i..] == names;
    FoldStaysNone(d, row, names[..i], names[i..], flag);
  }

  lemma FoldPrefixWhole(d: DocState, row: Row, names: seq<string>, flag: bool)
    ensures Fold(d, row, names[..|names|], flag) == Fold(d, row, names, flag)
  {
    assert names[..|names|] == names;
  }

  /** The counts addCountFieldIfExists sets, read from the row. */
  method ReadCounts(row: Row, fieldName: string) returns (counts: seq<int>)
    ensures counts == PartialCounts(row, fieldName)
  {
    counts := [];
    if fieldName in row {
      var value := row[fieldName];
      if value.Some? && !IsBlank(value.value) {
        counts := ParseCounts(Split(value.value, Bar));
      }
      assert counts == CountTokens(value);
    }
    if counts == [] {
      counts := [0];
    }
  }

  /** The multi-valued loop of addFieldIfExists over the split pieces: trimmed,
      empty pieces dropped, sanitised for text fields. */
  method CollectFieldValues(fieldName: string, values: seq<string>) returns (fieldValues: seq<string>)
    ensures fieldValues == if IsTextField(fieldName) then SanitizeAll(TrimmedNonEmpty(values)) else TrimmedNonEmpty(values)
  {
    fieldValues := [];
    ghost var kept: seq<string> := [];
    for i := 0 to |values|
      invariant kept == TrimmedNonEmpty(values[..i])
      invariant fieldValues == if IsTextField(fieldName) then SanitizeAll(kept) else kept
    {
      assert values[..i + 1][..i] == values[..i];
      var val := Trim(values[i]);
      if val != [] {
        SanitizeAllSnoc(kept, val);
        kept := kept + [val];
        if IsTextField(fieldName) {
          val := SanitizeText(val);
        }
        fieldValues := fieldValues + [val];
      }
    }
    assert values[..|values|] == values;
  }

  lemma SanitizeAllSnoc(toks: seq<string>, t: string)
    ensures SanitizeAll(toks + [t]) == SanitizeAll(toks) + [SanitizeText(t)]
  {
    assert |SanitizeAll(toks + [t])| == |toks| + 1;
    forall i | 0 <= i < |toks| + 1
      ensures SanitizeAll(toks + [t])[i] == (SanitizeAll(toks) + [SanitizeText(t)])[i]
    {
      if i < |toks| {
        assert (toks + [t])[i] == toks[i];
      }
    }
  }

  /** The value addFieldIfExists sets, read from the row. */
  method ReadFieldValue(row: Row, fieldName: string) returns (v: Option<Value>)
    ensures v == GenericValue(row, fieldName)
  {
    if fieldName !in row {
      return None;
    }
    var value := row[fieldName];
    if value.None? || IsBlank(value.value) {
      assert IsNullOrBlank(row[fieldName]);
      return None;
    }
    if IsMultiValued(fieldName) {
      var fieldValues := CollectFieldValues(fieldName, Split(value.value, Bar));
      assert fieldValues == FieldTokens(fieldName, value);
      if fieldValues == [] {
        return None;
      }
      return Some(AtomicSetList(Strs(fieldValues)));
    } else {
      var single := value.value;
      if IsTextField(fieldName) {
        single := SanitizeText(single);
      }
      return Some(AtomicSet(Str(single)));
    }
  }

  /** The pieces addTextField collects, read from the row. */
  method ReadTextContent(row: Row) returns (textContent: seq<string>)
    requires "keywords" in row && "mesh_terms" in row && "chemicals" in row
    requires "title" in row && "abstract" in row
    ensures textContent == TextParts(row)
  {
    textContent := [];
    var keywords := row["keywords"];
    if keywords.Some? {
      textContent := textContent + [keywords.value];
    }
    assert textContent == NonNull(row["keywords"]);
    var meshTerms := row["mesh_terms"];
    if meshTerms.Some? {
      textContent := textContent + [meshTerms.value];
    }
    assert textContent == NonNull(row["keywords"]) + NonNull(row["mesh_terms"]);
    var chemicals := row["chemicals"];
    if chemicals.Some? {
      textContent := textContent + [chemicals.value];
    }
    ghost var three := NonNull(row["keywords"]) + NonNull(row["mesh_terms"]) + NonNull(row["chemicals"]);
    assert textContent == three;
    var title := row["title"];
    if title.Some? {
      textContent := textContent + [title.value];
    }
    assert textContent == three + NonNull(row["title"]);
    var abstractText := row["abstract"];
    if abstractText.Some? && !IsBlank(abstractText.value) {
      textContent := textContent + [abstractText.value];
    }
  }

  class FlexibleFieldUpdater {
    var solrUrl: string
    var fieldsToUpdate: set<string>

    /** The URL is http://host/solr/core; the field set is the untrimmed
        pieces of `fields` split on ",". */
    constructor (solrHost: string, solrCore: string, fields: string)
      ensures solrUrl == "http://" + solrHost + "/solr/" + solrCore
      ensures fieldsToUpdate == FieldSet(fields)
    {
      solrUrl := "http://" + solrHost + "/solr/" + solrCore;
      fieldsToUpdate := FieldSet(fields);
    }

    method AddTitleField(doc: SolrDocument, row: Row) returns (ok: bool)
      modifies doc
      ensures ok == TitleStep(old(doc.State()), row).Some?
      ensures ok ==> doc.State() == TitleStep(old(doc.State()), row).value
      ensures !ok ==> doc.State() == old(doc.State())
    {
      if "title" !in row {
        return false;
      }
      var title := row["title"];
      if title.Some? {
        doc.AddField("title", AtomicSet(Str(SanitizeText(title.value))));
      }
      return true;
    }

    method AddAbstractField(doc: SolrDocument, row: Row)
      modifies doc
      ensures doc.State() == AbstractStep(old(doc.State()), row)
    {
      if "abstract" in row {
        var abstractText := row["abstract"];
        if abstractText.Some? && !IsBlank(abstractText.value) {
          doc.AddField("abstract", AtomicSet(Str(SanitizeText(abstractText.value))));
        }
      }
    }

    method AddDateField(doc: SolrDocument, row: Row) returns (ok: bool)
      modifies doc
      ensures ok == DateStep(old(doc.State()), row).Some?
      ensures ok ==> doc.State() == DateStep(old(doc.State()), row).value
      ensures !ok ==> doc.State() == old(doc.State())
    {
      if "p_date" !in row {
        return false;
      }
      var pDate := row["p_date"];
      if pDate.Some? {
        doc.AddField("p_date", AtomicSet(Str(pDate.value + DateSuffix)));
      }
      return true;
    }

    method AddYearField(doc: SolrDocument, row: Row) returns (ok: bool)
      modifies doc
      ensures ok == YearStep(old(doc.State()), row).Some?
      ensures ok ==> doc.State() == YearStep(old(doc.State()), row).value
      ensures !ok ==> doc.State() == old(doc.State())
    {
      if "p_year" !in row {
        return false;
      }
      var yearValue := row["p_year"];
      if yearValue.Some? && !IsBlank(yearValue.value) {
        var parsed := ParseInt(Trim(yearValue.value));
        if parsed.Some? {
          doc.AddField("p_year", AtomicSet(Int(parsed.value)));
        } else {
          doc.AddField("p_year", AtomicSet(Str(yearValue.value)));
        }
      }
      return true;
    }

    method AddTextField(doc: SolrDocument, row: Row) returns (ok: bool)
      modifies doc
      ensures ok == TextStep(old(doc.State()), row).Some?
      ensures ok ==> doc.State() == TextStep(old(doc.State()), row).value
      ensures !ok ==> doc.State() == old(doc.State())
    {
      if "keywords" !in row || "mesh_terms" !in row || "chemicals" !in row || "title" !in row || "abstract" !in row {
        return false;
      }
      var textContent := ReadTextContent(row);
      if textContent != [] {
        doc.AddField("text", AtomicSetList(Strs(textContent)));
      }
      return true;
    }

    method AddMeshTermField(doc: SolrDocument, row: Row) returns (ok: bool)
      modifies doc
      ensures ok == MeshStep(old(doc.State()), row).Some?
      ensures ok ==> doc.State() == MeshStep(old(doc.State()), row).value
      ensures !ok ==> doc.State() == old(doc.State())
    {
      if "mesh_terms" !in row {
        return false;
      }
      var meshTerms := row["mesh_terms"];
      if meshTerms.Some? && !IsBlank(meshTerms.value) {
        var terms := CollectTokens(Split(meshTerms.value, ";"));
        if terms != [] {
          doc.AddField("mt_term", AtomicSetList(Strs(terms)));
        }
      }
      return true;
    }

    method AddGeneSField(doc: SolrDocument, row: Row) returns (ok: bool)
      modifies doc
      ensures ok == GeneSStep(old(doc.State()), row).Some?
      ensures ok ==> doc.State() == GeneSStep(old(doc.State()), row).value
      ensures !ok ==> doc.State() == old(doc.State())
    {
      if "gene" !in row {
        return false;
      }
      var geneValue := row["gene"];
      if geneValue.Some? && !IsBlank(geneValue.value) {
        var genes := CollectTokens(Split(geneValue.value, Bar));
        if genes != [] {
          doc.AddField("gene_s", AtomicSetList(Strs(genes)));
        }
      }
      return true;
    }

    /** addCountFieldIfExists never throws: a missing column sets [0]. */
    method AddCountFieldIfExists(doc: SolrDocument, row: Row, fieldName: string)
      modifies doc
      ensures doc.State() == CountStep(old(doc.State()), row, fieldName)
    {
      var counts := ReadCounts(row, fieldName);
      doc.AddField(fieldName, AtomicSetList(Ints(counts)));
    }

    /** addFieldIfExists never throws: a missing column is skipped. */
    method AddFieldIfExists(doc: SolrDocument, row: Row, fieldName: string)
      modifies doc
      ensures doc.State() == GenericStep(old(doc.State()), row, fieldName)
    {
      var v := ReadFieldValue(row, fieldName);
      if v.Some? {
        doc.AddField(fieldName, v.value);
      }
    }

    /** One pass of the dispatch loop on the trimmed name: the if-chain on the
        name, as Dispatch states it, selects the builder. */
    method AddRequestedField(doc: SolrDocument, row: Row, fieldName: string, geneCountComputed: bool)
      returns (ok: bool)
      modifies doc
      ensures ok == FieldStep(old(doc.State()), row, fieldName, geneCountComputed).Some?
      ensures ok ==> doc.State() == FieldStep(old(doc.State()), row, fieldName, geneCountComputed).value
      ensures !ok ==> doc.State() == old(doc.State())
    {
      ok := true;
      match Dispatch(fieldName, geneCountComputed)
      case Skip =>
      case Title => ok := AddTitleField(doc, row);
      case Abstract => AddAbstractField(doc, row);
      case Date => ok := AddDateField(doc, row);
      case Year => ok := AddYearField(doc, row);
      case Text => ok := AddTextField(doc, row);
      case Mesh => ok := AddMeshTermField(doc, row);
      case GeneS => ok := AddGeneSField(doc, row);
      case GenePos => ok := CalculateAndAddGenePosField(doc, row);
      case Count => AddCountFieldIfExists(doc, row, fieldName);
      case Source => doc.AddField("p_source", AtomicSet(Str("pubmed")));
      case Generic => AddFieldIfExists(doc, row, fieldName);
    }

    /** createPartialSolrDocument over the set's iteration order `order`:
        null exactly when a read throws, and otherwise the document whose
        gene_count gate asks the untrimmed set for "gene_pos". */
    method CreatePartialSolrDocument(row: Row, order: seq<string>) returns (doc: SolrDocument?)
      requires IsEnumeration(order, fieldsToUpdate)
      ensures doc == null <==> PartialDocument(row, fieldsToUpdate, order).None?
      ensures doc != null ==> fresh(doc) && doc.State() == PartialDocument(row, fieldsToUpdate, order).value
    {
      var d := new SolrDocument();
      if "pmid" !in row {
        return null;
      }
      var pmid := row["pmid"];
      if pmid.Some? {
        d.AddField("pmid", Str(pmid.value));
      }
      var geneCountComputed := "gene_pos" in fieldsToUpdate;
      ghost var start := PartialStart(row);
      assert d.State() == start;
      for i := 0 to |order|
        invariant Fold(start, row, order[..i], geneCountComputed) == Some(d.State())
      {
        FoldPrefixStep(start, row, order, i, geneCountComputed);
        var fieldName := Trim(order[i]);
        var ok := AddRequestedField(d, row, fieldName, geneCountComputed);
        if !ok {
          FoldPrefixNone(start, row, order, i + 1, geneCountComputed);
          return null;
        }
      }
      FoldPrefixWhole(start, row, order, geneCountComputed);
      return d;
    }
  }
}

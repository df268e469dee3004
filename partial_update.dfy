/** FlexibleFieldUpdater: builds an atomic-update document that sets only the
    requested fields of one publication row. Each requested name is trimmed and
    dispatched to the builder for that field; values are wrapped as
    {"set": v}, while the unique key pmid is added bare. */
module PartialUpdate {
  import opened JavaStrings
  import opened SolrModel
  import opened TextSanitizer
  import opened GenePositions
  import opened FieldCodecs

  // ------------------------------------------------------------------
  // The requested fields

  /** new HashSet(fields.split(",")): the pieces are kept untrimmed. */
  function FieldSet(fields: string): (r: set<string>)
    ensures forall f :: f in r <==> f in Split(fields, ",")
  {
    set f | f in Split(fields, ",")
  }

  /** The field `name` is requested when some piece trims to it, which is how
      the dispatch loop reads the set. */
  predicate Requested(fields: set<string>, name: string) {
    exists f :: f in fields && Trim(f) == name
  }

  /** `order` is one iteration order of the set: every element exactly once. */
  predicate IsEnumeration(order: seq<string>, fields: set<string>) {
    && (forall f :: f in fields ==> f in order)
    && (forall i :: 0 <= i < |order| ==> order[i] in fields)
    && (forall i, j :: 0 <= i < j < |order| ==> order[i] != order[j])
  }

  lemma NoCommaSeparable(t: string)
    requires forall i :: 0 <= i < |t| ==> t[i] != ','
    ensures Separable(t, ",")
  {
    forall k | 0 <= k < |t| ensures !OccursAt(t + ",", ",", k) {
      assert (t + ",")[k] == t[k];
    }
  }

  /** A comma-joined list of names without commas gives back exactly those names. */
  lemma FieldSetOfJoin(names: seq<string>)
    requires names != []
    requires forall i :: 0 <= i < |names| ==> names[i] != [] && forall k :: 0 <= k < |names[i]| ==> names[i][k] != ','
    ensures forall f :: f in FieldSet(Join(",", names)) <==> f in names
  {
    forall i | 0 <= i < |names| ensures Separable(names[i], ",") {
      NoCommaSeparable(names[i]);
    }
    SplitOfJoin(names, ",");
  }

  // ------------------------------------------------------------------
  // The field builders, on the document state. None stands for an
  // SQLException that leaves createPartialSolrDocument without a document.

  /** addTitleField: a missing column throws; NULL adds nothing. */
  function TitleStep(d: DocState, row: Row): Option<DocState> {
    if "title" !in row then None
    else if row["title"].None? then Some(d)
    else Some(AddValue(d, "title", AtomicSet(Str(SanitizeText(row["title"].value)))))
  }

  /** addAbstractField: a missing column is caught and skipped. */
  function AbstractStep(d: DocState, row: Row): DocState {
    if "abstract" !in row || IsNullOrBlank(row["abstract"]) then d
    else AddValue(d, "abstract", AtomicSet(Str(SanitizeText(row["abstract"].value))))
  }

  /** addDateField: a missing column throws; NULL adds nothing. */
  function DateStep(d: DocState, row: Row): Option<DocState> {
    if "p_date" !in row then None
    else if row["p_date"].None? then Some(d)
    else Some(AddValue(d, "p_date", AtomicSet(Str(row["p_date"].value + DateSuffix))))
  }

  /** The p_year value: the trimmed text as an Integer, or the raw text when
      Integer.parseInt refuses it. */
  function YearValue(v: string): Value {
    var p := ParseInt(Trim(v));
    if p.Some? then Int(p.value) else Str(v)
  }

  /** addYearField: a missing column throws; NULL or blank adds nothing. */
  function YearStep(d: DocState, row: Row): Option<DocState> {
    if "p_year" !in row then None
    else if IsNullOrBlank(row["p_year"]) then Some(d)
    else Some(AddValue(d, "p_year", AtomicSet(YearValue(row["p_year"].value))))
  }

  function NonNull(v: Option<string>): (r: seq<string>)
    ensures r == [] <==> v.None?
  {
    if v.Some? then [v.value] else []
  }

  /** The pieces of the text field: keywords, mesh terms, chemicals and title
      when not NULL, and the abstract when not blank, unsanitised. */
  function TextParts(row: Row): seq<string>
    requires "keywords" in row && "mesh_terms" in row && "chemicals" in row
    requires "title" in row && "abstract" in row
  {
    NonNull(row["keywords"]) + NonNull(row["mesh_terms"]) + NonNull(row["chemicals"])
      + NonNull(row["title"]) + (if IsNullOrBlank(row["abstract"]) then [] else [row["abstract"].value])
  }

  /** addTextField: any of its five columns missing throws. */
  function TextStep(d: DocState, row: Row): Option<DocState> {
    if "keywords" !in row || "mesh_terms" !in row || "chemicals" !in row || "title" !in row || "abstract" !in row then None
    else if TextParts(row) == [] then Some(d)
    else Some(AddValue(d, "text", AtomicSetList(Strs(TextParts(row)))))
  }

  /** The mesh terms: the ';'-separated pieces, trimmed, without empty ones. */
  function MeshTerms(v: Option<string>): seq<string> {
    if IsNullOrBlank(v) then [] else TrimmedNonEmpty(Split(v.value, ";"))
  }

  /** addMeshTermField: a missing mesh_terms column throws. */
  function MeshStep(d: DocState, row: Row): Option<DocState> {
    if "mesh_terms" !in row then None
    else if MeshTerms(row["mesh_terms"]) == [] then Some(d)
    else Some(AddValue(d, "mt_term", AtomicSetList(Strs(MeshTerms(row["mesh_terms"])))))
  }

  /** addGeneSField: a missing gene column throws. */
  function GeneSStep(d: DocState, row: Row): Option<DocState> {
    if "gene" !in row then None
    else if MultiTokens(row["gene"]) == [] then Some(d)
    else Some(AddValue(d, "gene_s", AtomicSetList(Strs(MultiTokens(row["gene"])))))
  }

  /** The counts addCountFieldIfExists sets: the parsed tokens, or [0] when there
      are none or the column is missing. */
  function PartialCounts(row: Row, name: string): (r: seq<int>)
    ensures r != []
    ensures forall i :: 0 <= i < |r| ==> InInt32(r[i])
  {
    if name !in row || CountTokens(row[name]) == [] then [0] else CountTokens(row[name])
  }

  /** addCountFieldIfExists: always adds the field. */
  function CountStep(d: DocState, row: Row, name: string): DocState {
    AddValue(d, name, AtomicSetList(Ints(PartialCounts(row, name))))
  }

  /** sanitizeText applied to every token. */
  function SanitizeAll(toks: seq<string>): (r: seq<string>)
    ensures |r| == |toks| && forall i :: 0 <= i < |toks| ==> r[i] == SanitizeText(toks[i])
  {
    seq(|toks|, i requires 0 <= i < |toks| => SanitizeText(toks[i]))
  }

  /** The tokens a multi-valued field sets, sanitised for text fields. */
  function FieldTokens(name: string, v: Option<string>): seq<string> {
    if IsTextField(name) then SanitizeAll(MultiTokens(v)) else MultiTokens(v)
  }

  /** The value addFieldIfExists sets, or None when it sets nothing: a missing
      column is caught, and NULL or blank values are skipped. */
  function GenericValue(row: Row, name: string): Option<Value> {
    if name !in row || IsNullOrBlank(row[name]) then None
    else if IsMultiValued(name) then
      if FieldTokens(name, row[name]) == [] then None
      else Some(AtomicSetList(Strs(FieldTokens(name, row[name]))))
    else
      var v := row[name].value;
      Some(AtomicSet(Str(if IsTextField(name) then SanitizeText(v) else v)))
  }

  function GenericStep(d: DocState, row: Row, name: string): DocState {
    if GenericValue(row, name).None? then d else AddValue(d, name, GenericValue(row, name).value)
  }

  /** The field builders createPartialSolrDocument dispatches to. */
  datatype Builder = Skip | Title | Abstract | Date | Year | Text | Mesh | GeneS | GenePos | Count | Source | Generic

  /** The dispatch on the trimmed name `name`. `geneCountComputed` says
      whether gene_count is left to the gene_pos calculation. */
  function Dispatch(name: string, geneCountComputed: bool): Builder {
    if name == [] then Skip
    else if name == "title" then Title
    else if name == "abstract" then Abstract
    else if name == "p_date" then Date
    else if name == "p_year" then Year
    else if name == "text" then Text
    else if name == "mt_term" then Mesh
    else if name == "gene_s" then GeneS
    else if name == "gene_pos" then GenePos
    else if name == "gene_count" && geneCountComputed then Skip
    else if EndsWith(name, "_count") then Count
    else if name == "p_source" then Source
    else Generic
  }

  /** Running a builder for the field `name`. */
  function Build(b: Builder, d: DocState, row: Row, name: string): Option<DocState> {
    match b
    case Skip => Some(d)
    case Title => TitleStep(d, row)
    case Abstract => Some(AbstractStep(d, row))
    case Date => DateStep(d, row)
    case Year => YearStep(d, row)
    case Text => TextStep(d, row)
    case Mesh => MeshStep(d, row)
    case GeneS => GeneSStep(d, row)
    case GenePos => GenePosStep(d, row)
    case Count => Some(CountStep(d, row, name))
    case Source => Some(AddValue(d, "p_source", AtomicSet(Str("pubmed"))))
    case Generic => Some(GenericStep(d, row, name))
  }

  /** One pass of the dispatch loop for the trimmed name `name`. */
  function FieldStep(d: DocState, row: Row, name: string, geneCountComputed: bool): Option<DocState> {
    Build(Dispatch(name, geneCountComputed), d, row, name)
  }

  /** The dispatch loop over the untrimmed names `names`, stopping at the first
      exception. */
  function Fold(d: DocState, row: Row, names: seq<string>, geneCountComputed: bool): Option<DocState>
    decreases |names|
  {
    if names == [] then Some(d)
    else
      var front := Fold(d, row, names[..|names| - 1], geneCountComputed);
      if front.None? then None
      else FieldStep(front.value, row, Trim(names[|names| - 1]), geneCountComputed)
  }

  /** The document before the loop: the bare pmid when it is not NULL. */
  function PartialStart(row: Row): DocState
    requires "pmid" in row
  {
    if row["pmid"].Some? then AddValue(EmptyDoc, "pmid", Str(row["pmid"].value)) else EmptyDoc
  }

  /** The gene_count gate of createPartialSolrDocument: the untrimmed set
      holds exactly "gene_pos". */
  predicate GateAsWritten(fields: set<string>) {
    "gene_pos" in fields
  }

  /** createPartialSolrDocument: the pmid, then one pass per name of the set in
      iteration order `order`, with gene_count left to the gene_pos calculation
      when the gate holds. A missing pmid column throws. */
  function PartialDocument(row: Row, fields: set<string>, order: seq<string>): Option<DocState> {
    if "pmid" !in row then None
    else Fold(PartialStart(row), row, order, GateAsWritten(fields))
  }

  /** The same document with the gate read on the trimmed names, as the
      dispatch loop reads them: gene_count is left to the gene_pos calculation
      whenever some piece trims to "gene_pos". */
  function PartialDocumentCorrected(row: Row, fields: set<string>, order: seq<string>): Option<DocState> {
    if "pmid" !in row then None
    else Fold(PartialStart(row), row, order, Requested(fields, "gene_pos"))
  }

  // ------------------------------------------------------------------
  // Structure of the loop

  lemma {:induction false} FoldAppend(d: DocState, row: Row, a: seq<string>, b: seq<string>, flag: bool)
    ensures Fold(d, row, a + b, flag) ==
      if Fold(d, row, a, flag).None? then None else Fold(Fold(d, row, a, flag).value, row, b, flag)
    decreases |b|
  {
    if b == [] {
      assert a + b == a;
    } else {
      var b' := b[..|b| - 1];
      assert (a + b)[..|a + b| - 1] == a + b';
      assert (a + b)[|a + b| - 1] == b[|b| - 1];
      FoldAppend(d, row, a, b', flag);
    }
  }

  /** The fields a step for `name` may add to. */
  predicate Touches(name: string, n: string) {
    n == name || (name == "gene_pos" && n == "gene_count")
  }

  predicate IsCountList(v: Value) {
    v.AtomicSetList? && v.vs != [] && forall j :: 0 <= j < |v.vs| ==> v.vs[j].Int?
  }

  /** What the values of a field look like: pmid is bare (or an atomic update,
      when pmid itself is requested); every other value is an atomic update;
      counts are non-empty integer lists; p_source is always pubmed. */
  predicate ValueShape(name: string, v: Value) {
    if name == "pmid" then v.Str? || v.AtomicSet? || v.AtomicSetList?
    else if EndsWith(name, "_count") then IsCountList(v)
    else if name == "p_source" then v == AtomicSet(Str("pubmed"))
    else v.AtomicSet? || v.AtomicSetList?
  }

  ghost predicate DocShape(d: DocState) {
    forall n, j :: n in d.fields && 0 <= j < |d.fields[n]| ==> ValueShape(n, d.fields[n][j])
  }

  /** What one pass of the loop for `name` does to a document: it keeps it well
      formed and shaped, only appends, and only to the fields it touches. */
  ghost predicate Extends(d: DocState, r: DocState, name: string) {
    && (WellFormed(d) ==> WellFormed(r))
    && (DocShape(d) ==> DocShape(r))
    && (forall n :: Values(d, n) <= Values(r, n))
    && (forall n :: !Touches(name, n) ==> Values(r, n) == Values(d, n))
  }

  lemma AddExtends(d: DocState, n: string, v: Value, name: string)
    requires Touches(name, n) && ValueShape(n, v)
    ensures Extends(d, AddValue(d, n, v), name)
  {
    var r := AddValue(d, n, v);
    if DocShape(d) {
      forall m, j | m in r.fields && 0 <= j < |r.fields[m]| ensures ValueShape(m, r.fields[m][j]) {
        if m == n {
          assert r.fields[m] == Values(d, m) + [v];
          if j < |Values(d, m)| {
            assert r.fields[m][j] == d.fields[m][j];
          }
        } else {
          assert r.fields[m] == d.fields[m];
        }
      }
    }
  }

  lemma ExtendsTrans(d: DocState, d1: DocState, d2: DocState, name: string)
    requires Extends(d, d1, name) && Extends(d1, d2, name)
    ensures Extends(d, d2, name)
  {
  }

  /** None of the fixed field names ends in _count. */
  lemma FixedNamesNotCounts()
    ensures !EndsWith("title", "_count") && !EndsWith("abstract", "_count")
    ensures !EndsWith("p_date", "_count") && !EndsWith("p_year", "_count")
    ensures !EndsWith("text", "_count") && !EndsWith("mt_term", "_count")
    ensures !EndsWith("gene_s", "_count") && !EndsWith("gene_pos", "_count")
    ensures !EndsWith("p_source", "_count") && EndsWith("gene_count", "_count")
  {
    assert "title"[0..] != "_count";
    assert "abstract"[2..] != "_count";
    assert "p_date"[0..] != "_count";
    assert "p_year"[0..] != "_count";
    assert "mt_term"[1..] != "_count";
    assert "gene_s"[0..] != "_count";
    assert "gene_pos"[2..] != "_count";
    assert "p_source"[2..] != "_count";
    assert "gene_count"[4..] == "_count";
  }

  lemma GenePosAdds(d: DocState, groups: seq<string>, counts: seq<int>)
    requires counts != []
    ensures Extends(d, AddValue(AddValue(d, "gene_pos", AtomicSetList(Strs(groups))), "gene_count", AtomicSetList(Ints(counts))), "gene_pos")
  {
    FixedNamesNotCounts();
    var d1 := AddValue(d, "gene_pos", AtomicSetList(Strs(groups)));
    AddExtends(d, "gene_pos", AtomicSetList(Strs(groups)), "gene_pos");
    assert IsCountList(AtomicSetList(Ints(counts)));
    AddExtends(d1, "gene_count", AtomicSetList(Ints(counts)), "gene_pos");
    ExtendsTrans(d, d1, AddValue(d1, "gene_count", AtomicSetList(Ints(counts))), "gene_pos");
  }

  lemma GenePosExtends(d: DocState, row: Row)
    requires GenePosStep(d, row).Some?
    ensures Extends(d, GenePosStep(d, row).value, "gene_pos")
  {
    if GenePosStep(d, row).value != d {
      var genes := Genes(row["gene"].value);
      var title := if row["title"].Some? then row["title"].value else "";
      var abs := if row["abstract"].Some? then row["abstract"].value else "";
      GenePosAdds(d, PositionGroups(genes, title, abs), CountList(genes, title, abs));
    }
  }

  lemma GenericExtends(d: DocState, row: Row, name: string)
    requires !EndsWith(name, "_count") && name != "p_source"
    ensures Extends(d, GenericStep(d, row, name), name)
  {
    var v := GenericValue(row, name);
    if v.Some? {
      assert v.value.AtomicSet? || v.value.AtomicSetList?;
      AddExtends(d, name, v.value, name);
    }
  }

  /** Which names reach which builder. */
  lemma DispatchNames(name: string, flag: bool)
    ensures var b := Dispatch(name, flag);
      && (b == Skip ==> name == [] || (name == "gene_count" && flag))
      && (b == Title ==> name == "title")
      && (b == Abstract ==> name == "abstract")
      && (b == Date ==> name == "p_date")
      && (b == Year ==> name == "p_year")
      && (b == Text ==> name == "text")
      && (b == Mesh ==> name == "mt_term")
      && (b == GeneS ==> name == "gene_s")
      && (b == GenePos ==> name == "gene_pos")
      && (b == Count ==> EndsWith(name, "_count") && !(name == "gene_count" && flag))
      && (b == Source ==> name == "p_source")
      && (b == Generic ==> !EndsWith(name, "_count") && name != "p_source")
  {
  }

  /** The builders of title, abstract, p_date and p_year. */
  lemma ScalarExtends(d: DocState, row: Row, name: string, flag: bool)
    requires Dispatch(name, flag) in {Title, Abstract, Date, Year}
    requires FieldStep(d, row, name, flag).Some?
    ensures Extends(d, FieldStep(d, row, name, flag).value, name)
  {
    FixedNamesNotCounts();
    DispatchNames(name, flag);
    match Dispatch(name, flag)
    case Title =>
      if row["title"].Some? {
        AddExtends(d, name, AtomicSet(Str(SanitizeText(row["title"].value))), name);
      }
    case Abstract =>
      if "abstract" in row && !IsNullOrBlank(row["abstract"]) {
        AddExtends(d, name, AtomicSet(Str(SanitizeText(row["abstract"].value))), name);
      }
    case Date =>
      if row["p_date"].Some? {
        AddExtends(d, name, AtomicSet(Str(row["p_date"].value + DateSuffix)), name);
      }
    case Year =>
      if !IsNullOrBlank(row["p_year"]) {
        AddExtends(d, name, AtomicSet(YearValue(row["p_year"].value)), name);
      }
  }

  /** The builders of text, mt_term and gene_s. */
  lemma ListExtends(d: DocState, row: Row, name: string, flag: bool)
    requires Dispatch(name, flag) in {Text, Mesh, GeneS}
    requires FieldStep(d, row, name, flag).Some?
    ensures Extends(d, FieldStep(d, row, name, flag).value, name)
  {
    FixedNamesNotCounts();
    DispatchNames(name, flag);
    match Dispatch(name, flag)
    case Text =>
      if TextParts(row) != [] {
        AddExtends(d, name, AtomicSetList(Strs(TextParts(row))), name);
      }
    case Mesh =>
      if MeshTerms(row["mesh_terms"]) != [] {
        AddExtends(d, name, AtomicSetList(Strs(MeshTerms(row["mesh_terms"]))), name);
      }
    case GeneS =>
      if MultiTokens(row["gene"]) != [] {
        AddExtends(d, name, AtomicSetList(Strs(MultiTokens(row["gene"]))), name);
      }
  }

  /** Every pass of the loop extends the document. */
  lemma StepExtends(d: DocState, row: Row, name: string, flag: bool)
    requires FieldStep(d, row, name, flag).Some?
    ensures Extends(d, FieldStep(d, row, name, flag).value, name)
  {
    DispatchNames(name, flag);
    match Dispatch(name, flag)
    case Skip =>
    case GenePos => GenePosExtends(d, row);
    case Count => AddExtends(d, name, AtomicSetList(Ints(PartialCounts(row, name))), name);
    case Source => AddExtends(d, name, AtomicSet(Str("pubmed")), name);
    case Generic => GenericExtends(d, row, name);
    case Title => ScalarExtends(d, row, name, flag);
    case Abstract => ScalarExtends(d, row, name, flag);
    case Date => ScalarExtends(d, row, name, flag);
    case Year => ScalarExtends(d, row, name, flag);
    case Text => ListExtends(d, row, name, flag);
    case Mesh => ListExtends(d, row, name, flag);
    case GeneS => ListExtends(d, row, name, flag);
  }

  /** The whole loop extends the document, touching only the requested names. */
  lemma {:induction false} FoldExtends(d: DocState, row: Row, names: seq<string>, flag: bool)
    requires Fold(d, row, names, flag).Some?
    ensures var r := Fold(d, row, names, flag).value;
      && (WellFormed(d) ==> WellFormed(r))
      && (DocShape(d) ==> DocShape(r))
      && (forall n :: Values(d, n) <= Values(r, n))
      && (forall n :: (forall f :: f in names ==> !Touches(Trim(f), n)) ==> Values(r, n) == Values(d, n))
    decreases |names|
  {
    if names != [] {
      var last := names[|names| - 1];
      var front := names[..|names| - 1];
      FoldExtends(d, row, front, flag);
      var m := Fold(d, row, front, flag).value;
      StepExtends(m, row, Trim(last), flag);
      ExtendsCompose(d, m, Fold(d, row, names, flag).value, names);
    }
  }

  /** Extending by the names of `front` and then by the last name extends by
      all of `names`. */
  lemma ExtendsCompose(d: DocState, m: DocState, r: DocState, names: seq<string>)
    requires names != []
    requires var front := names[..|names| - 1];
      && (WellFormed(d) ==> WellFormed(m))
      && (DocShape(d) ==> DocShape(m))
      && (forall n :: Values(d, n) <= Values(m, n))
      && (forall n :: (forall f :: f in front ==> !Touches(Trim(f), n)) ==> Values(m, n) == Values(d, n))
    requires Extends(m, r, Trim(names[|names| - 1]))
    ensures && (WellFormed(d) ==> WellFormed(r))
      && (DocShape(d) ==> DocShape(r))
      && (forall n :: Values(d, n) <= Values(r, n))
      && (forall n :: (forall f :: f in names ==> !Touches(Trim(f), n)) ==> Values(r, n) == Values(d, n))
  {
    var last := names[|names| - 1];
    var front := names[..|names| - 1];
    forall n ensures Values(d, n) <= Values(r, n) {
      PrefixTrans(Values(d, n), Values(m, n), Values(r, n));
    }
    forall n | forall f :: f in names ==> !Touches(Trim(f), n)
      ensures Values(r, n) == Values(d, n)
    {
      assert last in names;
      assert forall f :: f in front ==> f in names;
    }
  }

  lemma PrefixTrans(a: seq<Value>, b: seq<Value>, c: seq<Value>)
    requires a <= b && b <= c
    ensures a <= c
  {
    assert b[..|a|] == a;
  }

  // ------------------------------------------------------------------
  // When the loop throws

  /** The reads that throw out of a builder. */
  predicate BuildThrows(b: Builder, row: Row) {
    match b
    case Title => "title" !in row
    case Date => "p_date" !in row
    case Year => "p_year" !in row
    case Text => "keywords" !in row || "mesh_terms" !in row || "chemicals" !in row || "title" !in row || "abstract" !in row
    case Mesh => "mesh_terms" !in row
    case GeneS => "gene" !in row
    case GenePos => "gene" !in row || (!IsNullOrBlank(row["gene"]) && "title" !in row)
    case _ => false
  }

  /** The builder for `name` throws on `row`; whether gene_count is skipped
      does not matter, since neither skipping nor counting throws. */
  predicate Throws(row: Row, name: string) {
    BuildThrows(Dispatch(name, false), row)
  }

  /** The flag changes only how gene_count is dispatched. */
  lemma DispatchFlag(name: string, flag: bool)
    ensures Dispatch(name, flag) == Dispatch(name, false) || (Dispatch(name, flag) == Skip && Dispatch(name, false) == Count)
  {
  }

  lemma BuildNone(b: Builder, d: DocState, row: Row, name: string)
    ensures Build(b, d, row, name).None? <==> BuildThrows(b, row)
  {
  }

  lemma StepThrows(d: DocState, row: Row, name: string, flag: bool)
    ensures FieldStep(d, row, name, flag).None? <==> Throws(row, name)
  {
    DispatchFlag(name, flag);
    BuildNone(Dispatch(name, flag), d, row, name);
  }

  ghost predicate AnyThrows(row: Row, names: seq<string>) {
    exists f :: f in names && Throws(row, Trim(f))
  }

  lemma AnyThrowsSnoc(row: Row, names: seq<string>)
    requires names != []
    ensures AnyThrows(row, names) <==>
      AnyThrows(row, names[..|names| - 1]) || Throws(row, Trim(names[|names| - 1]))
  {
    assert names == names[..|names| - 1] + [names[|names| - 1]];
  }

  /** The loop gives no document exactly when the builder of some name throws. */
  lemma {:induction false} FoldNone(d: DocState, row: Row, names: seq<string>, flag: bool)
    ensures Fold(d, row, names, flag).None? <==> AnyThrows(row, names)
    decreases |names|
  {
    if names != [] {
      var front := names[..|names| - 1];
      FoldNone(d, row, front, flag);
      AnyThrowsSnoc(row, names);
      if Fold(d, row, front, flag).Some? {
        StepThrows(Fold(d, row, front, flag).value, row, Trim(names[|names| - 1]), flag);
      }
    }
  }

  /** createPartialSolrDocument gives no document exactly when the pmid column
      is missing or the builder of a requested field throws. */
  lemma PartialNone(row: Row, fields: set<string>, order: seq<string>)
    requires IsEnumeration(order, fields)
    ensures PartialDocument(row, fields, order).None? <==>
      "pmid" !in row || exists f :: f in fields && Throws(row, Trim(f))
  {
    if "pmid" in row {
      FoldNone(PartialStart(row), row, order, GateAsWritten(fields));
    }
  }

  // ------------------------------------------------------------------
  // What the document holds

  lemma StartFacts(row: Row)
    requires "pmid" in row
    ensures WellFormed(PartialStart(row)) && DocShape(PartialStart(row))
    ensures Values(PartialStart(row), "pmid") == if row["pmid"].Some? then [Str(row["pmid"].value)] else []
    ensures forall n :: n != "pmid" ==> Values(PartialStart(row), n) == []
  {
    if row["pmid"].Some? {
      AddExtends(EmptyDoc, "pmid", Str(row["pmid"].value), "pmid");
    }
  }

  /** The document is well formed; pmid is bare first, every other value is an
      atomic update, every count list is a non-empty list of integers, and
      p_source is always pubmed. */
  lemma PartialShape(row: Row, fields: set<string>, order: seq<string>)
    requires PartialDocument(row, fields, order).Some?
    ensures var d := PartialDocument(row, fields, order).value;
      && WellFormed(d) && DocShape(d)
      && (row["pmid"].Some? ==> Values(d, "pmid") != [] && Values(d, "pmid")[0] == Str(row["pmid"].value))
  {
    StartFacts(row);
    FoldExtends(PartialStart(row), row, order, GateAsWritten(fields));
  }

  /** The fields the request names, and gene_count along with gene_pos. */
  predicate MayAppear(fields: set<string>, n: string) {
    Requested(fields, n) || (n == "gene_count" && Requested(fields, "gene_pos"))
  }

  lemma UntouchedByRequest(fields: set<string>, order: seq<string>, n: string)
    requires IsEnumeration(order, fields) && !MayAppear(fields, n)
    ensures forall f :: f in order ==> !Touches(Trim(f), n)
  {
  }

  /** Only pmid, the requested fields and, with gene_pos, gene_count appear. */
  lemma PartialKeys(row: Row, fields: set<string>, order: seq<string>)
    requires IsEnumeration(order, fields)
    requires PartialDocument(row, fields, order).Some?
    ensures forall n :: n in PartialDocument(row, fields, order).value.fields ==> n == "pmid" || MayAppear(fields, n)
  {
    var start, flag := PartialStart(row), GateAsWritten(fields);
    var d := Fold(start, row, order, flag).value;
    StartFacts(row);
    FoldExtends(start, row, order, flag);
    assert WellFormed(d);
    forall n | n != "pmid" && !MayAppear(fields, n) ensures n !in d.fields {
      UntouchedByRequest(fields, order, n);
      assert Values(d, n) == Values(start, n) == [];
    }
  }

  /** pmid holds just the row's pmid, bare, unless pmid itself is requested. */
  lemma PartialPmid(row: Row, fields: set<string>, order: seq<string>)
    requires IsEnumeration(order, fields) && !Requested(fields, "pmid")
    requires PartialDocument(row, fields, order).Some?
    ensures Values(PartialDocument(row, fields, order).value, "pmid") ==
      if row["pmid"].Some? then [Str(row["pmid"].value)] else []
  {
    StartFacts(row);
    FoldExtends(PartialStart(row), row, order, GateAsWritten(fields));
    UntouchedByRequest(fields, order, "pmid");
  }

  /** The pass for names[i] is the step from the prefix before it, unless
      that prefix already threw. */
  lemma FoldPrefixStep(d: DocState, row: Row, names: seq<string>, i: nat, flag: bool)
    requires i < |names|
    ensures Fold(d, row, names[..i + 1], flag) ==
      if Fold(d, row, names[..i], flag).None? then None
      else FieldStep(Fold(d, row, names[..i], flag).value, row, Trim(names[i]), flag)
  {
    var a := names[..i + 1];
    assert a[..|a| - 1] == names[..i];
    assert a[|a| - 1] == names[i];
  }

  /** A requested p_source, and a requested count field that is not left to
      the gene_pos calculation, always appear. */
  lemma PartialAlwaysAdds(row: Row, fields: set<string>, order: seq<string>, name: string)
    requires IsEnumeration(order, fields)
    requires PartialDocument(row, fields, order).Some?
    requires Requested(fields, name)
    requires name == "p_source" || (EndsWith(name, "_count") && !(name == "gene_count" && GateAsWritten(fields)))
    ensures name in PartialDocument(row, fields, order).value.fields
  {
    var flag := GateAsWritten(fields);
    var start := PartialStart(row);
    var f :| f in fields && Trim(f) == name;
    assert f in order;
    var i :| 0 <= i < |order| && order[i] == f;
    var a := order[..i + 1];
    TakeDrop(order, i + 1);
    FoldAppend(start, row, a, order[i + 1..], flag);
    FoldPrefixStep(start, row, order, i, flag);
    AlwaysAddsStep(Fold(start, row, order[..i], flag).value, row, name, flag);
    KeptByRest(Fold(start, row, a, flag).value, row, order[i + 1..], flag, name);
  }

  /** A field that has a value keeps it through the rest of the loop. */
  lemma KeptByRest(d: DocState, row: Row, names: seq<string>, flag: bool, name: string)
    requires Fold(d, row, names, flag).Some? && Values(d, name) != []
    ensures name in Fold(d, row, names, flag).value.fields
  {
    FoldExtends(d, row, names, flag);
    assert Values(d, name) <= Values(Fold(d, row, names, flag).value, name);
  }

  lemma AlwaysAddsStep(d: DocState, row: Row, name: string, flag: bool)
    requires name == "p_source" || (EndsWith(name, "_count") && !(name == "gene_count" && flag))
    ensures FieldStep(d, row, name, flag).Some? && Values(FieldStep(d, row, name, flag).value, name) != []
  {
    FixedNamesNotCounts();
    DispatchNames(name, flag);
    assert Dispatch(name, flag) == Source || Dispatch(name, flag) == Count;
  }

  // ------------------------------------------------------------------
  // The gene_count gate

  /** The rows agree on every column but `key`. */
  ghost predicate AgreeExcept(r1: Row, r2: Row, key: string) {
    forall k :: k != key ==> (k in r1 <==> k in r2) && (k in r1 && k in r2 ==> r1[k] == r2[k])
  }

  predicate AgreeOn(r1: Row, r2: Row, k: string) {
    (k in r1 <==> k in r2) && (k in r1 && k in r2 ==> r1[k] == r2[k])
  }

  lemma TextIgnoresGeneCount(d: DocState, r1: Row, r2: Row)
    requires AgreeOn(r1, r2, "keywords") && AgreeOn(r1, r2, "mesh_terms") && AgreeOn(r1, r2, "chemicals")
    requires AgreeOn(r1, r2, "title") && AgreeOn(r1, r2, "abstract")
    ensures TextStep(d, r1) == TextStep(d, r2)
  {
  }

  lemma GenePosIgnoresGeneCount(d: DocState, r1: Row, r2: Row)
    requires AgreeOn(r1, r2, "gene") && AgreeOn(r1, r2, "title") && AgreeOn(r1, r2, "abstract")
    ensures GenePosStep(d, r1) == GenePosStep(d, r2)
  {
  }

  lemma StepIgnoresGeneCount(d: DocState, r1: Row, r2: Row, name: string)
    requires AgreeExcept(r1, r2, "gene_count")
    ensures FieldStep(d, r1, name, true) == FieldStep(d, r2, name, true)
  {
    assert AgreeOn(r1, r2, "title") && AgreeOn(r1, r2, "abstract") && AgreeOn(r1, r2, "gene");
    if name == "text" {
      assert AgreeOn(r1, r2, "keywords") && AgreeOn(r1, r2, "mesh_terms") && AgreeOn(r1, r2, "chemicals");
      TextIgnoresGeneCount(d, r1, r2);
    } else if name == "gene_pos" {
      GenePosIgnoresGeneCount(d, r1, r2);
    } else if name != "gene_count" {
      assert AgreeOn(r1, r2, "mesh_terms") && AgreeOn(r1, r2, "p_date") && AgreeOn(r1, r2, "p_year");
      assert AgreeOn(r1, r2, name);
      OtherIgnoresGeneCount(d, r1, r2, name);
    }
  }

  lemma OtherIgnoresGeneCount(d: DocState, r1: Row, r2: Row, name: string)
    requires name != "text" && name != "gene_pos" && name != "gene_count"
    requires AgreeOn(r1, r2, "title") && AgreeOn(r1, r2, "abstract") && AgreeOn(r1, r2, "gene")
    requires AgreeOn(r1, r2, "mesh_terms") && AgreeOn(r1, r2, "p_date") && AgreeOn(r1, r2, "p_year")
    requires AgreeOn(r1, r2, name)
    ensures FieldStep(d, r1, name, true) == FieldStep(d, r2, name, true)
  {
    DispatchNames(name, true);
    BuildIgnoresGeneCount(Dispatch(name, true), d, r1, r2, name);
  }

  lemma BuildIgnoresGeneCount(b: Builder, d: DocState, r1: Row, r2: Row, name: string)
    requires b != Text && b != GenePos
    requires AgreeOn(r1, r2, "title") && AgreeOn(r1, r2, "abstract") && AgreeOn(r1, r2, "gene")
    requires AgreeOn(r1, r2, "mesh_terms") && AgreeOn(r1, r2, "p_date") && AgreeOn(r1, r2, "p_year")
    requires AgreeOn(r1, r2, name)
    ensures Build(b, d, r1, name) == Build(b, d, r2, name)
  {
    match b
    case Count => assert PartialCounts(r1, name) == PartialCounts(r2, name);
    case Generic => assert GenericValue(r1, name) == GenericValue(r2, name);
    case _ =>
  }

  lemma {:induction false} FoldIgnoresGeneCount(d: DocState, r1: Row, r2: Row, names: seq<string>)
    requires AgreeExcept(r1, r2, "gene_count")
    ensures Fold(d, r1, names, true) == Fold(d, r2, names, true)
    decreases |names|
  {
    if names != [] {
      var front := names[..|names| - 1];
      FoldIgnoresGeneCount(d, r1, r2, front);
      if Fold(d, r1, front, true).Some? {
        StepIgnoresGeneCount(Fold(d, r1, front, true).value, r1, r2, Trim(names[|names| - 1]));
      }
    }
  }

  lemma StartIgnoresGeneCount(r1: Row, r2: Row)
    requires AgreeExcept(r1, r2, "gene_count")
    ensures ("pmid" in r1 <==> "pmid" in r2)
    ensures "pmid" in r1 ==> PartialStart(r1) == PartialStart(r2)
  {
  }

  /** When the set holds "gene_pos", the stored gene_count column plays no
      part: the counts come from the gene_pos calculation alone. */
  lemma GeneCountIgnored(r1: Row, r2: Row, fields: set<string>, order: seq<string>)
    requires GateAsWritten(fields) && AgreeExcept(r1, r2, "gene_count")
    ensures PartialDocument(r1, fields, order) == PartialDocument(r2, fields, order)
  {
    StartIgnoresGeneCount(r1, r2);
    if "pmid" in r1 {
      FoldIgnoresGeneCount(PartialStart(r1), r1, r2, order);
    }
  }

  /** With the corrected gate, the stored gene_count column plays no part
      whenever some requested piece trims to "gene_pos", padded or not. */
  lemma CorrectedGeneCountIgnored(r1: Row, r2: Row, fields: set<string>, order: seq<string>)
    requires Requested(fields, "gene_pos") && AgreeExcept(r1, r2, "gene_count")
    ensures PartialDocumentCorrected(r1, fields, order) == PartialDocumentCorrected(r2, fields, order)
  {
    StartIgnoresGeneCount(r1, r2);
    if "pmid" in r1 {
      FoldIgnoresGeneCount(PartialStart(r1), r1, r2, order);
    }
  }

  /** The two gates agree unless gene_pos is requested only with padding. */
  lemma GatesAgree(row: Row, fields: set<string>, order: seq<string>)
    requires GateAsWritten(fields) == Requested(fields, "gene_pos")
    ensures PartialDocument(row, fields, order) == PartialDocumentCorrected(row, fields, order)
  {
  }

  lemma ThreeCount()
    ensures CountTokens(Some("3")) == [3]
  {
    assert IntToString(3) == "3";
    CountTokensOfJoin([3]);
  }

  /** " gene_pos": the second name of "gene_count, gene_pos" after the split on ",". */
  const PaddedGenePos: string := [' '] + "gene_pos"
  const PaddedFields: set<string> := {"gene_count", PaddedGenePos}
  const PaddedOrder: seq<string> := ["gene_count", PaddedGenePos]

  lemma TrimGeneNames()
    ensures Trim("gene_count") == "gene_count" && Trim(PaddedGenePos) == "gene_pos"
  {
    TrimGeneCount();
    TrimPaddedGenePos();
  }

  lemma TrimGeneCount()
    ensures Trim("gene_count") == "gene_count"
  {
    TrimOfTrimmed("gene_count");
  }

  lemma TrimPaddedGenePos()
    ensures Trim(PaddedGenePos) == "gene_pos"
  {
    TrimLeadingSpace("gene_pos");
  }

  lemma PaddedNames()
    ensures Trim("gene_count") == "gene_count" && Trim(PaddedGenePos) == "gene_pos"
    ensures IsEnumeration(PaddedOrder, PaddedFields)
    ensures Requested(PaddedFields, "gene_pos") && !GateAsWritten(PaddedFields)
  {
    TrimGeneNames();
    assert PaddedGenePos in PaddedFields;
  }

  const NullCountRow: Row := map["pmid" := None, "gene" := None, "gene_count" := None]
  const StoredCountRow: Row := NullCountRow["gene_count" := Some("3")]

  lemma CountRowsAgree()
    ensures AgreeExcept(StoredCountRow, NullCountRow, "gene_count")
  {
    forall k | k != "gene_count"
      ensures (k in StoredCountRow <==> k in NullCountRow)
      ensures k in StoredCountRow && k in NullCountRow ==> StoredCountRow[k] == NullCountRow[k]
    {
    }
  }

  lemma DispatchGeneFields(flag: bool)
    ensures Dispatch("gene_count", false) == Count && Dispatch("gene_count", true) == Skip
    ensures Dispatch("gene_pos", flag) == GenePos
  {
    FixedNamesNotCounts();
    assert "gene_count" != "title" && "gene_count" != "abstract" && "gene_count" != "p_date";
    assert "gene_count" != "p_year" && "gene_count" != "text" && "gene_count" != "mt_term";
    assert "gene_count" != "gene_s" && "gene_count" != "gene_pos" && "gene_count" != [];
    assert "gene_pos" != "title" && "gene_pos" != "abstract" && "gene_pos" != "p_date";
    assert "gene_pos" != "p_year" && "gene_pos" != "text" && "gene_pos" != "mt_term";
    assert "gene_pos" != "gene_s" && "gene_pos" != [];
  }

  /** The gene_count pass of the as-written loop reads the stored column. */
  lemma AsWrittenCountPass(row: Row)
    requires "gene_count" in row
    ensures Fold(EmptyDoc, row, ["gene_count"], false) == Some(CountStep(EmptyDoc, row, "gene_count"))
  {
    TrimGeneNames();
    DispatchGeneFields(false);
    assert ["gene_count"][..0] == [];
  }

  /** The gene_pos pass adds nothing when the gene column is NULL. */
  lemma NullGenePass(d: DocState, row: Row, flag: bool)
    requires "gene" in row && row["gene"] == None
    ensures Fold(d, row, [PaddedGenePos], flag) == Some(d)
  {
    TrimGeneNames();
    DispatchGeneFields(flag);
    assert [PaddedGenePos][..0] == [];
    assert [PaddedGenePos][0] == PaddedGenePos;
  }

  lemma PaddedFold(row: Row, flag: bool)
    requires "gene" in row && row["gene"] == None
    ensures Fold(EmptyDoc, row, PaddedOrder, flag) ==
      if Fold(EmptyDoc, row, ["gene_count"], flag).None? then None
      else Fold(Fold(EmptyDoc, row, ["gene_count"], flag).value, row, [PaddedGenePos], flag)
  {
    assert PaddedOrder == ["gene_count"] + [PaddedGenePos];
    FoldAppend(EmptyDoc, row, ["gene_count"], [PaddedGenePos], false);
    FoldAppend(EmptyDoc, row, ["gene_count"], [PaddedGenePos], true);
  }

  /** The gene_count pass of the corrected loop skips the field. */
  lemma CorrectedCountPass(row: Row)
    ensures Fold(EmptyDoc, row, ["gene_count"], true) == Some(EmptyDoc)
  {
    TrimGeneNames();
    DispatchGeneFields(true);
    assert ["gene_count"][..0] == [];
  }

  /** For any row with NULL pmid and gene, the as-written loop over the padded
      names sets gene_count from the stored column. */
  lemma AsWrittenPadded(row: Row)
    requires "pmid" in row && row["pmid"] == None && "gene" in row && row["gene"] == None
    requires "gene_count" in row
    ensures PartialDocument(row, PaddedFields, PaddedOrder) == Some(CountStep(EmptyDoc, row, "gene_count"))
  {
    PaddedNames();
    assert PartialStart(row) == EmptyDoc;
    PaddedFold(row, false);
    AsWrittenCountPass(row);
    NullGenePass(CountStep(EmptyDoc, row, "gene_count"), row, false);
  }

  /** For the same rows, the corrected loop sets nothing. */
  lemma CorrectedPadded(row: Row)
    requires "pmid" in row && row["pmid"] == None && "gene" in row && row["gene"] == None
    ensures PartialDocumentCorrected(row, PaddedFields, PaddedOrder) == Some(EmptyDoc)
  {
    PaddedNames();
    assert PartialStart(row) == EmptyDoc;
    PaddedFold(row, true);
    CorrectedCountPass(row);
    NullGenePass(EmptyDoc, row, true);
  }

  /** The count builder reads the stored "3" as the list [3]. */
  lemma StoredCountStep()
    ensures CountStep(EmptyDoc, StoredCountRow, "gene_count") == AddValue(EmptyDoc, "gene_count", AtomicSetList([Int(3)]))
  {
    var v := StoredCountRow["gene_count"];
    assert v == Some("3");
    ThreeCount();
    StoredCountsStep(StoredCountRow, "gene_count", [3]);
    IntsSingle(3);
  }

  /** The count builder sets the stored counts when there are any. */
  lemma StoredCountsStep(row: Row, name: string, xs: seq<int>)
    requires name in row && CountTokens(row[name]) == xs && xs != []
    ensures CountStep(EmptyDoc, row, name) == AddValue(EmptyDoc, name, AtomicSetList(Ints(xs)))
  {
  }

  lemma StoredCountDocument()
    ensures PartialDocument(StoredCountRow, PaddedFields, PaddedOrder)
         == Some(AddValue(EmptyDoc, "gene_count", AtomicSetList([Int(3)])))
  {
    AsWrittenPadded(StoredCountRow);
    StoredCountStep();
  }

  lemma NullCountDocument()
    ensures PartialDocument(NullCountRow, PaddedFields, PaddedOrder)
         == Some(AddValue(EmptyDoc, "gene_count", AtomicSetList([Int(0)])))
  {
    AsWrittenPadded(NullCountRow);
    assert PartialCounts(NullCountRow, "gene_count") == [0];
    IntsSingle(0);
  }

  /** fields "gene_count, gene_pos" split into "gene_count" and " gene_pos":
      the gate misses the padded name, so the stored gene_count is set from
      the row although gene_pos is requested, and two rows that differ only in
      that column give different documents. */
  lemma AsWrittenReadsStoredCount()
    ensures IsEnumeration(PaddedOrder, PaddedFields) && Requested(PaddedFields, "gene_pos")
    ensures AgreeExcept(StoredCountRow, NullCountRow, "gene_count")
    ensures PartialDocument(StoredCountRow, PaddedFields, PaddedOrder)
         == Some(AddValue(EmptyDoc, "gene_count", AtomicSetList([Int(3)])))
    ensures PartialDocument(NullCountRow, PaddedFields, PaddedOrder)
         == Some(AddValue(EmptyDoc, "gene_count", AtomicSetList([Int(0)])))
  {
    PaddedNames();
    CountRowsAgree();
    StoredCountDocument();
    NullCountDocument();
  }

  /** With the gate on the trimmed names, the same request sets no gene_count
      for either row. */
  lemma CorrectedSkipsStoredCount()
    ensures PartialDocumentCorrected(StoredCountRow, PaddedFields, PaddedOrder) == Some(EmptyDoc)
    ensures PartialDocumentCorrected(NullCountRow, PaddedFields, PaddedOrder) == Some(EmptyDoc)
  {
    CorrectedPadded(StoredCountRow);
    CorrectedPadded(NullCountRow);
  }

  // ------------------------------------------------------------------
  // Value codecs

  /** Counts written as Integer.toString joined by " | " are read back. */
  lemma PartialCountsOfJoin(row: Row, name: string, xs: seq<int>)
    requires xs != [] && forall i :: 0 <= i < |xs| ==> InInt32(xs[i])
    requires name in row && row[name] == Some(Join(Bar, IntStrings(xs)))
    ensures PartialCounts(row, name) == xs
  {
    CountTokensOfJoin(xs);
  }

  /** A missing, NULL or blank count column, or one without a valid integer,
      sets [0]. */
  lemma PartialCountsDefault(row: Row, name: string)
    requires name !in row || IsNullOrBlank(row[name]) || ParsedInts(Split(row[name].value, Bar)) == []
    ensures PartialCounts(row, name) == [0]
  {
  }

  /** A year written by Integer.toString is set as that Integer; other text is
      set as it is. */
  lemma YearValueOfInt(y: int)
    requires InInt32(y)
    ensures YearValue(IntToString(y)) == Int(y)
  {
    IntToStringIsTrimmed(y);
    ParseIntToString(y);
  }

  lemma YearValueOfText(v: string)
    requires ParseInt(Trim(v)).None?
    ensures YearValue(v) == Str(v)
  {
  }
}

# solrUpdater: from a publication row to a Solr document

This project models the part of the rat-genome-database `solrUpdater` that turns
one row of the PubMed publication table into a Solr document, and proves
properties of that model in Dafny. It covers two paths and one debug renderer:

- **The full document.** `SimplePostgresToSolr.createSolrDocument` and
  `addFieldIfExists` are modelled in `full_document.dfy`.
  `SingleRecordUpdater` carries the same two methods line for line (its
  lines 79-263 are lines 119-303 of `SimplePostgresToSolr`, 40 lines lower),
  so one model serves both. The document gets these reads, in order:
  - pmid and title (when not NULL);
  - abstract (when not blank);
  - the publication date followed by `T06:00:00Z`;
  - one `addFieldIfExists` per column of a fixed list of 65 names, where
    count columns become integers, `_id`/`_term`/`_pos`/`gene` columns
    become one value per `" | "` piece, and anything else becomes the raw
    string;
  - finally `p_source = "pubmed"`.
- **The atomic update.** `FlexibleFieldUpdater` builds a document in which
  each requested field holds `{"set": v}` and pmid is added bare. This is
  modelled in `partial_update.dfy` (the functions the methods are proved against) and in
  `flexible_updater.dfy` (the class and its methods). Supporting modules:
  - `text_sanitizer.dfy`: `sanitizeText` and `isTextField`;
  - `gene_positions.dfy`: the gene-position scan `calculateAndAddGenePosField`;
  - `legacy_repair.dfy`: the older `addGenePosField` repair of
    `gene_pos` values whose delimiters were lost.
- **The debug JSON.** `documentToJson` of `SimplePostgresToSolr` and
  `SingleRecordUpdater`, with its `String.replace` escape chain, is modelled
  in `json_debug.dfy`.

Shared pieces:

- `java_strings.dfy` gives the Java string operations the code relies on:
  - `trim`;
  - the regex `split`, which drops trailing empty pieces;
  - `replace`, `indexOf`, ASCII `toLowerCase`;
  - `Integer.parseInt` and `Integer.toString`.
- `solr_document.dfy` models `SolrInputDocument`:
  - field names in first-insertion order;
  - each field's values in insertion order;
  - `addField` appends.
- `field_codecs.dfy` holds the `" | "` codecs that both paths share.

Conventions of the model:

- **A row** is a map from column name to an optional string. A column
  missing from the map stands for `ResultSet.getString` throwing
  `SQLException`. `None` stands for SQL NULL.
- **Set iteration order.** The iteration order of the requested-field
  `HashSet` is unspecified in Java. It is a parameter `order`, required to
  list the set's elements once each.
- **Failure.** A `null` document and an exception escaping the builder are
  both modelled as `None`.
- **Surprising behaviours of the code.** The model keeps each of these as
  the code has it:
  - `sanitizeText` is not idempotent: `TextSanitizer.SanitizeNotIdempotent`.
  - A `?` followed by another deletable `?` is deleted, because the lookahead
    reads the text before any deletion: `TextSanitizer.DoubleQuestionMarkDropped`.
  - The comment at `FlexibleFieldUpdater.java:279` says a requested
    gene_count is skipped when gene_pos is requested, "as it will be computed
    automatically". The test at line 278 asks the untrimmed set for
    "gene_pos", so a request written "gene_count, gene_pos" still reads the
    stored gene_count. `PartialUpdate.PartialDocument` keeps that test, and
    `PartialUpdate.PartialDocumentCorrected` is the same document with the
    test read on trimmed names (see Findings).
  - The title position scan resumes one character after each match, so
    matches can overlap: `GenePositions.OverlappingExample`.

## Model

| member | source | states |
|---|---|---|
| JavaStrings.Trim | src/main/java/edu/mcw/rgd/nlp/FlexibleFieldUpdater.java:254 | `trim` leaves no char at or below U+0020 at either end, and gives the empty string exactly when every char is one |
| JavaStrings.TrimOfTrimmed | src/main/java/edu/mcw/rgd/nlp/FlexibleFieldUpdater.java:684 | `trim` leaves a string whose first and last chars are not spaces unchanged |
| JavaStrings.TrimLeadingSpace | src/main/java/edu/mcw/rgd/nlp/FlexibleFieldUpdater.java:254 | `trim` removes one leading space from an otherwise trimmed name (" gene_pos" becomes "gene_pos") |
| JavaStrings.IndexOf | src/main/java/edu/mcw/rgd/nlp/FlexibleFieldUpdater.java:572 | `indexOf(t, from)` is -1 exactly when `t` occurs nowhere at or after `from`, and otherwise the first such occurrence |
| JavaStrings.IndexOfIsFirst | src/main/java/edu/mcw/rgd/nlp/FlexibleFieldUpdater.java:592 | the first occurrence at or after `from` is the index `indexOf` returns |
| JavaStrings.Lower | src/main/java/edu/mcw/rgd/nlp/FlexibleFieldUpdater.java:568-569 | `toLowerCase` maps char by char and keeps the length, so match offsets in the lowered text are offsets in the original |
| JavaStrings.Split | src/main/java/edu/mcw/rgd/nlp/FlexibleFieldUpdater.java:28 | `String.split` on a literal delimiter: the whole string when it does not occur, and otherwise the pieces between leftmost matches without the trailing empty ones; `SplitOfJoin` makes `Join` its inverse |
| JavaStrings.Join | src/main/java/edu/mcw/rgd/nlp/FlexibleFieldUpdater.java:611 | `String.join`: the parts with the separator between neighbours; `JoinAppend` and `SplitOfJoin` are its properties |
| JavaStrings.Replace | src/main/java/edu/mcw/rgd/nlp/FlexibleFieldUpdater.java:776-785 | `String.replace`: every leftmost non-overlapping occurrence of the target becomes the replacement; `ReplaceNotLonger` and `ReplaceAbsent` are its properties |
| JavaStrings.ParseInt | src/main/java/edu/mcw/rgd/nlp/FlexibleFieldUpdater.java:687 | `Integer.parseInt`: an optional sign, one or more decimal digits, and a 32-bit value, anything else a `NumberFormatException` (None); `ParseIntToString` reads back every rendering |
| JavaStrings.IntToString | src/main/java/edu/mcw/rgd/nlp/SimplePostgresToSolr.java:475-477 | the decimal rendering of an integer, a '-' then the digits of its magnitude; `ParseIntToString` is its inverse |
| JavaStrings.SplitOfJoin | src/main/java/edu/mcw/rgd/nlp/FlexibleFieldUpdater.java:682 | `split(" \\| ")` gives back the tokens joined with " \| " when none is empty or holds the delimiter |
| JavaStrings.SplitPiecesOfJoin | src/main/java/edu/mcw/rgd/nlp/FlexibleFieldUpdater.java:724 | the raw split pieces of a join are the joined tokens |
| JavaStrings.ParseIntToString | src/main/java/edu/mcw/rgd/nlp/FlexibleFieldUpdater.java:687 | `Integer.parseInt` reads back `Integer.toString` of every 32-bit integer |
| JavaStrings.TrimmedNonEmpty | src/main/java/edu/mcw/rgd/nlp/FlexibleFieldUpdater.java:403-409 | the trim-and-keep-non-empty loop keeps at most one token per piece, each trimmed and non-empty |
| JavaStrings.TrimmedNonEmptyOfTrimmed | src/main/java/edu/mcw/rgd/nlp/FlexibleFieldUpdater.java:734-742 | pieces that are already trimmed and non-empty all pass, in order |
| JavaStrings.JoinAppend | src/main/java/edu/mcw/rgd/nlp/FlexibleFieldUpdater.java:611 | `String.join` of two non-empty lists is the two joins glued by the separator |
| JavaStrings.ReplaceNotLonger | src/main/java/edu/mcw/rgd/nlp/FlexibleFieldUpdater.java:780-785 | `replace` by a text no longer than the target never lengthens the string |
| JavaStrings.ReplaceAbsent | src/main/java/edu/mcw/rgd/nlp/FlexibleFieldUpdater.java:776-779 | `replace` leaves a string alone when one char of the target occurs nowhere in it |
| SolrModel.AddValue | src/main/java/edu/mcw/rgd/nlp/SimplePostgresToSolr.java:292 | `addField` appends the value to the field's values, adds the name to the key set, changes no other field and keeps the document well formed |
| SolrModel.AddValues | src/main/java/edu/mcw/rgd/nlp/SimplePostgresToSolr.java:289-294 | one `addField` per value, in order: the field's values grow by exactly those values and no other field changes |
| SolrModel.SolrDocument.constructor | src/main/java/edu/mcw/rgd/nlp/SimplePostgresToSolr.java:120 | a new document holds no field |
| SolrModel.SolrDocument.AddField | src/main/java/edu/mcw/rgd/nlp/SimplePostgresToSolr.java:125 | the document's new state is `AddValue` of the old one |
| FieldCodecs.IsMultiValued | src/main/java/edu/mcw/rgd/nlp/SimplePostgresToSolr.java:285-286 | the multi-valued columns are the names ending in `_id`, `_term` or `_pos`, and gene |
| FieldCodecs.CountTokens | src/main/java/edu/mcw/rgd/nlp/SimplePostgresToSolr.java:267-282 | a count column's integers: none for NULL or blank, otherwise the parsed " \| " pieces; `CountTokensOfJoin` reads back every written list |
| FieldCodecs.MultiTokens | src/main/java/edu/mcw/rgd/nlp/FlexibleFieldUpdater.java:400-409 | a multi-valued column's tokens: none for NULL or blank, otherwise the trimmed non-empty " \| " pieces; `MultiTokensOfJoin` reads back every written list |
| FieldCodecs.ParsedInts | src/main/java/edu/mcw/rgd/nlp/FlexibleFieldUpdater.java:683-692 | the count loop keeps at most one integer per piece, each in the 32-bit range |
| FieldCodecs.ParsedIntsOfRendered | src/main/java/edu/mcw/rgd/nlp/FlexibleFieldUpdater.java:684-691 | no rendered 32-bit integer is dropped: the loop gives back exactly the integers written |
| FieldCodecs.CountTokensOfJoin | src/main/java/edu/mcw/rgd/nlp/FlexibleFieldUpdater.java:681-693 | counts written with `Integer.toString` and joined by " \| " are read back unchanged |
| FieldCodecs.MultiTokensOfJoin | src/main/java/edu/mcw/rgd/nlp/FlexibleFieldUpdater.java:400-409 | trimmed tokens joined by " \| " are read back unchanged by the split-trim-keep loop |
| FieldCodecs.MultiTokensOfSingle | src/main/java/edu/mcw/rgd/nlp/FlexibleFieldUpdater.java:402-409 | a value without the delimiter is read as the one token it is |
| FieldCodecs.ParseCounts | src/main/java/edu/mcw/rgd/nlp/SimplePostgresToSolr.java:270-281 | the count loop computes `ParsedInts` of the pieces: valid integers in order, invalid pieces skipped |
| FieldCodecs.CollectTokens | src/main/java/edu/mcw/rgd/nlp/SimplePostgresToSolr.java:288-294 | the multi-value loop computes the trimmed non-empty pieces, in order |
| TextSanitizer.IsTextField | src/main/java/edu/mcw/rgd/nlp/FlexibleFieldUpdater.java:763-768 | the sanitised fields are authors, keywords, mesh_terms, affiliation, chemicals, citation and every name ending in `_term` |
| TextSanitizer.DropStrayQuestionMarks | src/main/java/edu/mcw/rgd/nlp/FlexibleFieldUpdater.java:786 | the lookahead `replaceAll` only deletes: the text never grows; what it leaves is stated by `SanitizedQuestionMarks` and `DropStrayLeavesNoStray` |
| TextSanitizer.SanitizeText | src/main/java/edu/mcw/rgd/nlp/FlexibleFieldUpdater.java:773-789 | the ten literal replacements in source order, then the lookahead `replaceAll`; the `Sanitize*` lemmas below state its properties |
| TextSanitizer.SanitizedQuestionMarks | src/main/java/edu/mcw/rgd/nlp/FlexibleFieldUpdater.java:786 | after `sanitizeText` every remaining '?' is followed by whitespace, '.', ',', ';', ':', the end, or one final line terminator |
| TextSanitizer.DropStrayLeavesNoStray | src/main/java/edu/mcw/rgd/nlp/FlexibleFieldUpdater.java:786 | the lookahead `replaceAll` leaves no '?' that its own pattern would delete |
| TextSanitizer.DropStrayKeepsLastChar | src/main/java/edu/mcw/rgd/nlp/FlexibleFieldUpdater.java:786 | the last char is never deleted, since `$` keeps a final '?' |
| TextSanitizer.DropStrayKeepsLookahead | src/main/java/edu/mcw/rgd/nlp/FlexibleFieldUpdater.java:786 | a text whose start keeps a '?' still keeps it after the deletions |
| TextSanitizer.NoQuestionMarkUnchanged | src/main/java/edu/mcw/rgd/nlp/FlexibleFieldUpdater.java:786 | text without '?' passes the `replaceAll` unchanged |
| TextSanitizer.DoubleQuestionMarkDropped | src/main/java/edu/mcw/rgd/nlp/FlexibleFieldUpdater.java:786 | the lookahead reads the original text, so in "a??b" both '?' are deleted |
| TextSanitizer.SubstituteNotLonger | src/main/java/edu/mcw/rgd/nlp/FlexibleFieldUpdater.java:776-785 | the ten literal replacements never lengthen the text |
| TextSanitizer.SanitizeNotLonger | src/main/java/edu/mcw/rgd/nlp/FlexibleFieldUpdater.java:773-789 | `sanitizeText` never lengthens the text |
| TextSanitizer.SanitizeKeepsNonEmpty | src/main/java/edu/mcw/rgd/nlp/FlexibleFieldUpdater.java:773-789 | `sanitizeText` never empties a non-empty text |
| TextSanitizer.PlainTextUnchanged | src/main/java/edu/mcw/rgd/nlp/FlexibleFieldUpdater.java:773-789 | text without '?', '&' and 'y' matches no pattern and is returned unchanged |
| TextSanitizer.GreekHeadUnchanged | src/main/java/edu/mcw/rgd/nlp/FlexibleFieldUpdater.java:776-780 | the first five replacements leave text without '?' and 'n' unchanged |
| TextSanitizer.EntityTailUnchanged | src/main/java/edu/mcw/rgd/nlp/FlexibleFieldUpdater.java:782-785 | the last four replacements leave text without '?', 'l', 'g', 'q' and 'y' unchanged |
| TextSanitizer.SanitizeAmpersandExample | src/main/java/edu/mcw/rgd/nlp/FlexibleFieldUpdater.java:781 | "a &amp; b" becomes "a & b" |
| TextSanitizer.SanitizeTgfBetaExample | src/main/java/edu/mcw/rgd/nlp/FlexibleFieldUpdater.java:779 | "TGF-?" becomes "TGF-β" |
| TextSanitizer.SanitizeNotIdempotent | src/main/java/edu/mcw/rgd/nlp/FlexibleFieldUpdater.java:781 | a second pass changes "&amp;amp;" again: `sanitizeText` is not idempotent |
| GenePositions.LeadingSpaces | src/main/java/edu/mcw/rgd/nlp/FlexibleFieldUpdater.java:537 | the length of the maximal whitespace run that `^\s+` matches |
| GenePositions.StripLeadingSpace | src/main/java/edu/mcw/rgd/nlp/FlexibleFieldUpdater.java:537 | `replaceAll("^\\s+", "")` drops exactly that run, so the result does not start with whitespace |
| GenePositions.CollapseAfterGt | src/main/java/edu/mcw/rgd/nlp/FlexibleFieldUpdater.java:544 | `replaceAll(">\\s+", "> ")`: a '>' with the whitespace run after it becomes "> "; the first char is kept |
| GenePositions.CollapseBeforeLt | src/main/java/edu/mcw/rgd/nlp/FlexibleFieldUpdater.java:544 | `replaceAll("\\s+<", " <")`: a maximal whitespace run directly before '<' becomes one space, other runs stay; a first char that is not whitespace is kept |
| GenePositions.CollapseAfterGtSingleSpace | src/main/java/edu/mcw/rgd/nlp/FlexibleFieldUpdater.java:544 | after `replaceAll(">\\s+", "> ")` a '>' is followed by whitespace only as one plain space |
| GenePositions.CollapseBeforeLtSingleSpace | src/main/java/edu/mcw/rgd/nlp/FlexibleFieldUpdater.java:544 | after `replaceAll("\\s+<", " <")` a '<' is preceded by whitespace only as one plain space |
| GenePositions.NormalizeAbstract | src/main/java/edu/mcw/rgd/nlp/FlexibleFieldUpdater.java:537-544 | the three `replaceAll` calls in source order; `NormalizedAbstractStart` and the two single-space lemmas state what it leaves |
| GenePositions.Occurrences | src/main/java/edu/mcw/rgd/nlp/FlexibleFieldUpdater.java:571-582 | the indices the `indexOf` loop reports when it resumes at index + 1; `OccurrencesSound` and `OccurrencesComplete` say they are exactly the matches |
| GenePositions.NormalizedAbstractStart | src/main/java/edu/mcw/rgd/nlp/FlexibleFieldUpdater.java:537-544 | the normalised abstract is empty exactly when the abstract is all whitespace, and otherwise starts with its first non-space char |
| GenePositions.OccurrencesSound | src/main/java/edu/mcw/rgd/nlp/FlexibleFieldUpdater.java:571-582 | the resume-at-index+1 scan reports only real occurrences, at or after the start, in strictly increasing order |
| GenePositions.OccurrencesComplete | src/main/java/edu/mcw/rgd/nlp/FlexibleFieldUpdater.java:571-582 | the scan misses no occurrence at or after the start, overlapping ones included |
| GenePositions.OverlappingExample | src/main/java/edu/mcw/rgd/nlp/FlexibleFieldUpdater.java:581 | "aa" is reported at 0, 1 and 2 in "aaaa": matches overlap |
| GenePositions.ParseSpanToken | src/main/java/edu/mcw/rgd/nlp/FlexibleFieldUpdater.java:579 | every "section;start-end" token reads back as the span written |
| GenePositions.SpanTokenHasNoBar | src/main/java/edu/mcw/rgd/nlp/FlexibleFieldUpdater.java:599 | tokens hold no '\|', so joining a gene's tokens with "\|" can be undone |
| GenePositions.SectionSpans | src/main/java/edu/mcw/rgd/nlp/FlexibleFieldUpdater.java:566-583 | one section's spans: the matches in the lowered text, each as long as the gene, and none for an empty section |
| GenePositions.GeneSpans | src/main/java/edu/mcw/rgd/nlp/FlexibleFieldUpdater.java:565-603 | a gene's title spans followed by its spans in the normalised abstract |
| GenePositions.SectionSpansSound | src/main/java/edu/mcw/rgd/nlp/FlexibleFieldUpdater.java:566-583 | every span of a section lies within its text, is as long as the gene, and matches the gene ignoring ASCII case |
| GenePositions.GeneSpansSound | src/main/java/edu/mcw/rgd/nlp/FlexibleFieldUpdater.java:565-603 | every span reported for a gene is a case-insensitive match in the title or the normalised abstract |
| GenePositions.GeneSpansComplete | src/main/java/edu/mcw/rgd/nlp/FlexibleFieldUpdater.java:565-603 | every case-insensitive match in either section is reported |
| GenePositions.GeneSpansOrdered | src/main/java/edu/mcw/rgd/nlp/FlexibleFieldUpdater.java:565-603 | title spans come before abstract spans, and starts increase strictly within a section |
| GenePositions.PositionGroups | src/main/java/edu/mcw/rgd/nlp/FlexibleFieldUpdater.java:556-615 | the gene_pos list holds one group per gene |
| GenePositions.CountList | src/main/java/edu/mcw/rgd/nlp/FlexibleFieldUpdater.java:556-615 | the gene_count list holds one count per gene |
| GenePositions.PositionGroupsAt | src/main/java/edu/mcw/rgd/nlp/FlexibleFieldUpdater.java:556-615 | entry i of gene_pos and of gene_count is the group and the count of gene i |
| GenePositions.SplitGroup | src/main/java/edu/mcw/rgd/nlp/FlexibleFieldUpdater.java:611 | splitting a gene's group on "\|" gives back its span tokens |
| GenePositions.SentinelIsNoGroup | src/main/java/edu/mcw/rgd/nlp/FlexibleFieldUpdater.java:607-611 | the "0;0-0" sentinel is never the group of a real match |
| GenePositions.ParseSentinel | src/main/java/edu/mcw/rgd/nlp/FlexibleFieldUpdater.java:607 | the sentinel reads as the empty span 0;0-0 |
| GenePositions.GroupsAndCounts | src/main/java/edu/mcw/rgd/nlp/FlexibleFieldUpdater.java:605-614 | the two lists have one entry per gene; a count is 0 exactly when its group is the sentinel, and otherwise equals the number of tokens in the group, each a real match |
| GenePositions.ScanSection | src/main/java/edu/mcw/rgd/nlp/FlexibleFieldUpdater.java:566-583 | the section's while loop records the tokens of exactly the spans `SectionSpans` describes |
| GenePositions.GeneEntry | src/main/java/edu/mcw/rgd/nlp/FlexibleFieldUpdater.java:562-614 | one gene's two scans give its group and its count |
| GenePositions.CalculateGenePositions | src/main/java/edu/mcw/rgd/nlp/FlexibleFieldUpdater.java:549-615 | the per-gene loop builds gene_pos and gene_count as `PositionGroups` and `CountList` |
| GenePositions.GenePosStep | src/main/java/edu/mcw/rgd/nlp/FlexibleFieldUpdater.java:504-628 | a missing gene or title column throws; a NULL or blank gene, a missing abstract column or no named gene adds nothing; otherwise gene_pos and gene_count are set as atomic lists of `PositionGroups` and `CountList` |
| GenePositions.CalculateAndAddGenePosField | src/main/java/edu/mcw/rgd/nlp/FlexibleFieldUpdater.java:504-628 | the document is changed as `GenePosStep` says; a missing gene or title column throws and changes nothing |
| LegacyRepair.Take | src/main/java/edu/mcw/rgd/nlp/FlexibleFieldUpdater.java:458 | a group never takes tokens past the end of the list |
| LegacyRepair.ParsedCounts | src/main/java/edu/mcw/rgd/nlp/FlexibleFieldUpdater.java:452-455 | each gene_count piece is trimmed and parsed, None where `parseInt` throws |
| LegacyRepair.RepairGenePos | src/main/java/edu/mcw/rgd/nlp/FlexibleFieldUpdater.java:419-498 | a NULL or blank gene_pos adds nothing, and an added list is never empty |
| LegacyRepair.CountGroups | src/main/java/edu/mcw/rgd/nlp/FlexibleFieldUpdater.java:451-471 | the count-driven walk never moves the cursor back or past the last token; `CountGroupsConserve` says what the groups hold |
| LegacyRepair.Rebuilt | src/main/java/edu/mcw/rgd/nlp/FlexibleFieldUpdater.java:451-485 | the count-driven groups followed by the remainder group; `RebuiltConserves` says no token is lost |
| LegacyRepair.CountDriven | src/main/java/edu/mcw/rgd/nlp/FlexibleFieldUpdater.java:444-490 | the groups rebuilt from the "\|" tokens of gene_pos and the " \| " pieces of gene_count; `CountDrivenConserves` and `RepairRecoversGroups` state its properties |
| LegacyRepair.CountGroupsConserve | src/main/java/edu/mcw/rgd/nlp/FlexibleFieldUpdater.java:451-471 | the count-driven groups join back to exactly the tokens they consumed, and none is empty |
| LegacyRepair.CountDrivenConserves | src/main/java/edu/mcw/rgd/nlp/FlexibleFieldUpdater.java:444-490 | rebuilding loses and reorders no token: the groups join back to the split value |
| LegacyRepair.RebuiltConserves | src/main/java/edu/mcw/rgd/nlp/FlexibleFieldUpdater.java:451-485 | the groups plus the remainder group join back to all tokens |
| LegacyRepair.RepairRecoversGroups | src/main/java/edu/mcw/rgd/nlp/FlexibleFieldUpdater.java:419-498 | a gene_pos written with every delimiter lost, plus its per-gene counts, is split back into the original groups |
| LegacyRepair.RepairOfOnePiece | src/main/java/edu/mcw/rgd/nlp/FlexibleFieldUpdater.java:442-490 | a one-piece gene_pos with a gene_count takes the count-driven branch |
| LegacyRepair.RepairExample | src/main/java/edu/mcw/rgd/nlp/FlexibleFieldUpdater.java:451-471 | counts "2", "x", "1" over three tokens give the groups "0;1-3\|1;5-7" and "1;9-11"; the invalid count is skipped |
| LegacyRepair.ParsedSizes | src/main/java/edu/mcw/rgd/nlp/FlexibleFieldUpdater.java:455 | written group sizes parse back |
| LegacyRepair.FlatBlob | src/main/java/edu/mcw/rgd/nlp/FlexibleFieldUpdater.java:428-449 | a delimiter-less blob is one " \| " piece and splits on "\|" into its tokens |
| LegacyRepair.TakeGroup | src/main/java/edu/mcw/rgd/nlp/FlexibleFieldUpdater.java:456-463 | the inner StringBuilder loop joins the next `count` tokens (fewer at the end) and advances the cursor |
| LegacyRepair.WalkCounts | src/main/java/edu/mcw/rgd/nlp/FlexibleFieldUpdater.java:451-471 | the outer loop over the counts computes `CountGroups` |
| LegacyRepair.RebuildFromCounts | src/main/java/edu/mcw/rgd/nlp/FlexibleFieldUpdater.java:444-486 | the count-driven branch computes `CountDriven` |
| LegacyRepair.RebuildFromTokens | src/main/java/edu/mcw/rgd/nlp/FlexibleFieldUpdater.java:473-485 | the count loop and the remainder loop compute `Rebuilt` |
| LegacyRepair.AddGenePosField | src/main/java/edu/mcw/rgd/nlp/FlexibleFieldUpdater.java:419-498 | both columns are read first; the field added, if any, is `RepairGenePos` as an atomic list |
| PartialUpdate.FieldSet | src/main/java/edu/mcw/rgd/nlp/FlexibleFieldUpdater.java:28 | the requested set holds exactly the untrimmed comma pieces |
| PartialUpdate.FieldSetOfJoin | src/main/java/edu/mcw/rgd/nlp/FlexibleFieldUpdater.java:28 | a comma-joined list of comma-free names gives the set of those names |
| PartialUpdate.Requested | src/main/java/edu/mcw/rgd/nlp/FlexibleFieldUpdater.java:253-256 | a name is requested when some piece of the set trims to it, which is how the loop reads the set |
| PartialUpdate.PaddedNames | src/main/java/edu/mcw/rgd/nlp/FlexibleFieldUpdater.java:28 | for "gene_count, gene_pos" some piece trims to gene_pos while the untrimmed set does not hold "gene_pos" |
| PartialUpdate.PartialCounts | src/main/java/edu/mcw/rgd/nlp/FlexibleFieldUpdater.java:671-705 | the count builder always yields a non-empty list of 32-bit integers |
| PartialUpdate.PartialCountsOfJoin | src/main/java/edu/mcw/rgd/nlp/FlexibleFieldUpdater.java:681-699 | a stored count list is read back unchanged |
| PartialUpdate.PartialCountsDefault | src/main/java/edu/mcw/rgd/nlp/FlexibleFieldUpdater.java:695-704 | a missing, NULL, blank or all-invalid column gives [0] |
| PartialUpdate.TitleStep | src/main/java/edu/mcw/rgd/nlp/FlexibleFieldUpdater.java:321-326 | `addTitleField`: a missing column throws, NULL adds nothing, and otherwise the sanitised title is set |
| PartialUpdate.AbstractStep | src/main/java/edu/mcw/rgd/nlp/FlexibleFieldUpdater.java:331-350 | `addAbstractField`: a missing column is caught, NULL or blank adds nothing, and otherwise the sanitised abstract is set |
| PartialUpdate.DateStep | src/main/java/edu/mcw/rgd/nlp/FlexibleFieldUpdater.java:354-359 | `addDateField`: a missing column throws, NULL adds nothing, and otherwise the date followed by T06:00:00Z is set |
| PartialUpdate.YearValue | src/main/java/edu/mcw/rgd/nlp/FlexibleFieldUpdater.java:366-371 | the p_year value is the trimmed text as an integer when `parseInt` accepts it, and the raw text otherwise |
| PartialUpdate.YearStep | src/main/java/edu/mcw/rgd/nlp/FlexibleFieldUpdater.java:364-373 | `addYearField`: a missing column throws, NULL or blank adds nothing, and otherwise `YearValue` is set |
| PartialUpdate.TextParts | src/main/java/edu/mcw/rgd/nlp/FlexibleFieldUpdater.java:634-661 | the text parts are keywords, mesh_terms, chemicals and title when not NULL, then the abstract when not blank, unsanitised |
| PartialUpdate.TextStep | src/main/java/edu/mcw/rgd/nlp/FlexibleFieldUpdater.java:633-666 | `addTextField`: any of its five columns missing throws, no part adds nothing, and otherwise the parts are set as one list |
| PartialUpdate.MeshTerms | src/main/java/edu/mcw/rgd/nlp/FlexibleFieldUpdater.java:380-390 | the mesh terms are the trimmed non-empty ";" pieces, none for NULL or blank |
| PartialUpdate.MeshStep | src/main/java/edu/mcw/rgd/nlp/FlexibleFieldUpdater.java:378-393 | `addMeshTermField`: a missing column throws, and the terms are set as mt_term when there are any |
| PartialUpdate.GeneSStep | src/main/java/edu/mcw/rgd/nlp/FlexibleFieldUpdater.java:398-413 | `addGeneSField`: a missing column throws, and the tokens of gene are set as gene_s when there are any |
| PartialUpdate.CountStep | src/main/java/edu/mcw/rgd/nlp/FlexibleFieldUpdater.java:671-705 | `addCountFieldIfExists`: the field is always set, to `PartialCounts` |
| PartialUpdate.FieldTokens | src/main/java/edu/mcw/rgd/nlp/FlexibleFieldUpdater.java:724-742 | a multi-valued field's tokens, each sanitised exactly when the field is a text field |
| PartialUpdate.GenericValue | src/main/java/edu/mcw/rgd/nlp/FlexibleFieldUpdater.java:711-754 | `addFieldIfExists`' value: none for a missing, NULL or blank column; a list of tokens for a multi-valued name, none when it is empty; otherwise the value, sanitised for a text field |
| PartialUpdate.GenericStep | src/main/java/edu/mcw/rgd/nlp/FlexibleFieldUpdater.java:710-758 | `addFieldIfExists` sets `GenericValue` when there is one |
| PartialUpdate.SanitizeAll | src/main/java/edu/mcw/rgd/nlp/FlexibleFieldUpdater.java:737-739 | every token is sanitised, in place |
| PartialUpdate.YearValueOfInt | src/main/java/edu/mcw/rgd/nlp/FlexibleFieldUpdater.java:364-373 | a year that parses is stored as that integer |
| PartialUpdate.YearValueOfText | src/main/java/edu/mcw/rgd/nlp/FlexibleFieldUpdater.java:369-371 | a year that does not parse is stored as the raw string |
| PartialUpdate.Dispatch | src/main/java/edu/mcw/rgd/nlp/FlexibleFieldUpdater.java:256-288 | the builder chosen for a trimmed name, tested in the chain's order, with gene_count skipped when the gate holds; `DispatchNames` and `DispatchFlag` state its cases |
| PartialUpdate.Build | src/main/java/edu/mcw/rgd/nlp/FlexibleFieldUpdater.java:261-288 | each branch runs its own builder, and p_source is set to "pubmed" |
| PartialUpdate.FieldStep | src/main/java/edu/mcw/rgd/nlp/FlexibleFieldUpdater.java:253-288 | one pass of the loop: the chosen builder run on the document |
| PartialUpdate.Fold | src/main/java/edu/mcw/rgd/nlp/FlexibleFieldUpdater.java:253-289 | the loop over the names in iteration order, trimming each and stopping at the first exception; `FoldAppend`, `FoldNone` and `FoldExtends` are its properties |
| PartialUpdate.PartialStart | src/main/java/edu/mcw/rgd/nlp/FlexibleFieldUpdater.java:248-250 | before the loop the document holds the bare pmid when it is not NULL |
| PartialUpdate.GateAsWritten | src/main/java/edu/mcw/rgd/nlp/FlexibleFieldUpdater.java:278 | the gene_count gate as written: the untrimmed set holds exactly "gene_pos" |
| PartialUpdate.PartialDocument | src/main/java/edu/mcw/rgd/nlp/FlexibleFieldUpdater.java:243-298 | `createPartialSolrDocument` as written: a missing pmid column throws, then the pmid and one pass per name, with the gate `GateAsWritten`; the `Partial*` lemmas state its properties |
| PartialUpdate.PartialDocumentCorrected | src/main/java/edu/mcw/rgd/nlp/FlexibleFieldUpdater.java:278-280 | the same document with the gate read on trimmed names: gene_count is skipped whenever a piece trims to gene_pos |
| PartialUpdate.FoldAppend | src/main/java/edu/mcw/rgd/nlp/FlexibleFieldUpdater.java:253-289 | running the loop over two lists is running it over the first and then the second, stopping at an exception |
| PartialUpdate.DispatchNames | src/main/java/edu/mcw/rgd/nlp/FlexibleFieldUpdater.java:256-288 | each branch of the dispatch is taken only for its own name; the count branch only for `_count` names outside the gene_count gate |
| PartialUpdate.DispatchFlag | src/main/java/edu/mcw/rgd/nlp/FlexibleFieldUpdater.java:278-282 | the gene_count gate changes only gene_count, from the count builder to a skip |
| PartialUpdate.StepExtends | src/main/java/edu/mcw/rgd/nlp/FlexibleFieldUpdater.java:256-288 | one field's builder only appends, and only to the fields that name may touch |
| PartialUpdate.GenePosExtends | src/main/java/edu/mcw/rgd/nlp/FlexibleFieldUpdater.java:618-627 | the gene-position builder only appends to gene_pos and gene_count |
| PartialUpdate.GenericExtends | src/main/java/edu/mcw/rgd/nlp/FlexibleFieldUpdater.java:710-758 | the generic builder only appends to its own field |
| PartialUpdate.FoldExtends | src/main/java/edu/mcw/rgd/nlp/FlexibleFieldUpdater.java:253-289 | the loop keeps the document well formed, never removes a value, and leaves untouched every field no requested name may touch |
| PartialUpdate.BuildNone | src/main/java/edu/mcw/rgd/nlp/FlexibleFieldUpdater.java:256-288 | a builder fails exactly when one of the columns it reads outside a catch is missing |
| PartialUpdate.StepThrows | src/main/java/edu/mcw/rgd/nlp/FlexibleFieldUpdater.java:256-288 | one pass fails exactly when its builder throws |
| PartialUpdate.FoldNone | src/main/java/edu/mcw/rgd/nlp/FlexibleFieldUpdater.java:253-289 | the loop gives no document exactly when some name's builder throws |
| PartialUpdate.PartialNone | src/main/java/edu/mcw/rgd/nlp/FlexibleFieldUpdater.java:243-298 | with the gate as written, no document exactly when the pmid column is missing or some requested field's builder throws |
| PartialUpdate.StartFacts | src/main/java/edu/mcw/rgd/nlp/FlexibleFieldUpdater.java:248-250 | before the loop the document holds only the bare pmid, when it is not NULL |
| PartialUpdate.PartialShape | src/main/java/edu/mcw/rgd/nlp/FlexibleFieldUpdater.java:243-298 | with the gate as written, the document is well formed, every value has its atomic shape, and a non-NULL pmid comes first under pmid |
| PartialUpdate.PartialKeys | src/main/java/edu/mcw/rgd/nlp/FlexibleFieldUpdater.java:243-298 | with the gate as written, every field is pmid or one a requested name may produce, which includes gene_count beside gene_pos |
| PartialUpdate.PartialPmid | src/main/java/edu/mcw/rgd/nlp/FlexibleFieldUpdater.java:248-250 | with the gate as written, unless pmid is requested as well, pmid holds exactly the bare column value |
| PartialUpdate.PartialAlwaysAdds | src/main/java/edu/mcw/rgd/nlp/FlexibleFieldUpdater.java:278-284 | a requested p_source is always present, and so is a requested count field unless it is gene_count and the untrimmed set holds "gene_pos"; with only a padded " gene_pos", gene_count is set by the count builder |
| PartialUpdate.TextIgnoresGeneCount | src/main/java/edu/mcw/rgd/nlp/FlexibleFieldUpdater.java:633-666 | the text builder reads only keywords, mesh_terms, chemicals, title and abstract |
| PartialUpdate.GenePosIgnoresGeneCount | src/main/java/edu/mcw/rgd/nlp/FlexibleFieldUpdater.java:504-534 | the gene-position builder reads only gene, title and abstract |
| PartialUpdate.FoldIgnoresGeneCount | src/main/java/edu/mcw/rgd/nlp/FlexibleFieldUpdater.java:253-289 | with the gate closed, the loop never reads the gene_count column |
| PartialUpdate.GeneCountIgnored | src/main/java/edu/mcw/rgd/nlp/FlexibleFieldUpdater.java:278-280 | as written: when the untrimmed set holds "gene_pos", the stored gene_count column has no effect on the document |
| PartialUpdate.StartIgnoresGeneCount | src/main/java/edu/mcw/rgd/nlp/FlexibleFieldUpdater.java:247-250 | the pmid read before the loop does not depend on the gene_count column |
| PartialUpdate.CorrectedGeneCountIgnored | src/main/java/edu/mcw/rgd/nlp/FlexibleFieldUpdater.java:278-280 | with the corrected gate, whenever a requested piece trims to gene_pos, the stored gene_count column has no effect on the document |
| PartialUpdate.GatesAgree | src/main/java/edu/mcw/rgd/nlp/FlexibleFieldUpdater.java:278 | when the untrimmed set holds "gene_pos" exactly when a piece trims to it, `PartialDocument` and `PartialDocumentCorrected` are the same document |
| PartialUpdate.AsWrittenPadded | src/main/java/edu/mcw/rgd/nlp/FlexibleFieldUpdater.java:278-280 | as written, for "gene_count, gene_pos" and a row with no genes, the document holds the count read from the row |
| PartialUpdate.CorrectedPadded | src/main/java/edu/mcw/rgd/nlp/FlexibleFieldUpdater.java:278-280 | `PartialDocumentCorrected` for the same request leaves gene_count to the gene-position builder |
| PartialUpdate.AsWrittenReadsStoredCount | src/main/java/edu/mcw/rgd/nlp/FlexibleFieldUpdater.java:278-280 | as written, two rows that differ only in gene_count ("3" against NULL) give different documents ([3] against [0]) although gene_pos is requested |
| PartialUpdate.CorrectedSkipsStoredCount | src/main/java/edu/mcw/rgd/nlp/FlexibleFieldUpdater.java:278-280 | `PartialDocumentCorrected` gives both rows the same document |
| FlexibleUpdater.ReadCounts | src/main/java/edu/mcw/rgd/nlp/FlexibleFieldUpdater.java:672-697 | the count loop reads `PartialCounts`: the valid integers, or [0] |
| FlexibleUpdater.CollectFieldValues | src/main/java/edu/mcw/rgd/nlp/FlexibleFieldUpdater.java:734-742 | the generic multi-value loop keeps the trimmed non-empty pieces, sanitised exactly for text fields |
| FlexibleUpdater.ReadFieldValue | src/main/java/edu/mcw/rgd/nlp/FlexibleFieldUpdater.java:711-754 | the generic builder's value is `GenericValue`: none for a missing, NULL or blank column |
| FlexibleUpdater.ReadTextContent | src/main/java/edu/mcw/rgd/nlp/FlexibleFieldUpdater.java:634-661 | the text parts are the non-NULL keywords, mesh_terms, chemicals and title, then the non-blank abstract |
| FlexibleUpdater.FlexibleFieldUpdater.constructor | src/main/java/edu/mcw/rgd/nlp/FlexibleFieldUpdater.java:25-29 | the URL is "http://host/solr/core", and the requested set is the untrimmed comma pieces |
| FlexibleUpdater.FlexibleFieldUpdater.AddTitleField | src/main/java/edu/mcw/rgd/nlp/FlexibleFieldUpdater.java:321-326 | the sanitised title is set when not NULL; a missing column throws and changes nothing |
| FlexibleUpdater.FlexibleFieldUpdater.AddAbstractField | src/main/java/edu/mcw/rgd/nlp/FlexibleFieldUpdater.java:331-350 | the sanitised abstract is set when not blank; a missing column is caught |
| FlexibleUpdater.FlexibleFieldUpdater.AddDateField | src/main/java/edu/mcw/rgd/nlp/FlexibleFieldUpdater.java:354-359 | the date followed by T06:00:00Z is set when not NULL; a missing column throws |
| FlexibleUpdater.FlexibleFieldUpdater.AddYearField | src/main/java/edu/mcw/rgd/nlp/FlexibleFieldUpdater.java:364-373 | a non-blank year is set as an integer when it parses, else as the raw string |
| FlexibleUpdater.FlexibleFieldUpdater.AddTextField | src/main/java/edu/mcw/rgd/nlp/FlexibleFieldUpdater.java:633-666 | the text parts are set as one atomic list when there are any |
| FlexibleUpdater.FlexibleFieldUpdater.AddMeshTermField | src/main/java/edu/mcw/rgd/nlp/FlexibleFieldUpdater.java:378-393 | the trimmed non-empty ";" pieces of mesh_terms are set as mt_term when there are any |
| FlexibleUpdater.FlexibleFieldUpdater.AddGeneSField | src/main/java/edu/mcw/rgd/nlp/FlexibleFieldUpdater.java:398-413 | the trimmed non-empty " \| " pieces of gene are set as gene_s when there are any |
| FlexibleUpdater.FlexibleFieldUpdater.AddCountFieldIfExists | src/main/java/edu/mcw/rgd/nlp/FlexibleFieldUpdater.java:671-705 | the count list is always set, [0] by default |
| FlexibleUpdater.FlexibleFieldUpdater.AddFieldIfExists | src/main/java/edu/mcw/rgd/nlp/FlexibleFieldUpdater.java:710-758 | the generic value is set as `GenericStep` says; a missing column is caught |
| FlexibleUpdater.FlexibleFieldUpdater.AddRequestedField | src/main/java/edu/mcw/rgd/nlp/FlexibleFieldUpdater.java:256-288 | one pass of the dispatch changes the document exactly as `FieldStep` says and fails exactly when it does |
| FlexibleUpdater.FlexibleFieldUpdater.CreatePartialSolrDocument | src/main/java/edu/mcw/rgd/nlp/FlexibleFieldUpdater.java:243-298 | null exactly when `PartialDocument` (the gate on the untrimmed set) is None, and otherwise a fresh document in the state `PartialDocument` gives |
| FullDocument.FieldList | src/main/java/edu/mcw/rgd/nlp/SimplePostgresToSolr.java:159-235 | the 65 columns of the `addFieldIfExists` calls, in call order |
| FullDocument.FullValues | src/main/java/edu/mcw/rgd/nlp/SimplePostgresToSolr.java:266-300 | what `addFieldIfExists` adds for a value: nothing for NULL or blank, the parsed pieces for a count name, the trimmed non-empty pieces for a multi-valued name, and otherwise the raw value |
| FullDocument.FullFieldStep | src/main/java/edu/mcw/rgd/nlp/SimplePostgresToSolr.java:264-303 | a missing column is caught and adds nothing; otherwise `FullValues` is added in order |
| FullDocument.FullFields | src/main/java/edu/mcw/rgd/nlp/SimplePostgresToSolr.java:159-235 | one `addFieldIfExists` per listed name, in order |
| FullDocument.FixedColumns | src/main/java/edu/mcw/rgd/nlp/SimplePostgresToSolr.java:124-156 | pmid and title when not NULL, abstract when not blank, and p_date with the time appended, in that order |
| FullDocument.Full | src/main/java/edu/mcw/rgd/nlp/SimplePostgresToSolr.java:119-259 | `createSolrDocument`: a missing pmid, title or p_date column throws; otherwise the fixed reads, the list and p_source; the `Full*` lemmas state its properties |
| FullDocument.AddOpt | src/main/java/edu/mcw/rgd/nlp/SimplePostgresToSolr.java:124-131 | a fixed read adds its value, if any, under its own name only, keeping the document well formed |
| FullDocument.FullFieldsValues | src/main/java/edu/mcw/rgd/nlp/SimplePostgresToSolr.java:159-235 | the column list adds, under each name, the values of every list entry with that name, in order, and keeps the document well formed |
| FullDocument.FixedNamesNotListed | src/main/java/edu/mcw/rgd/nlp/SimplePostgresToSolr.java:159-235 | none of the 65 listed columns is pmid, title, abstract, p_date or p_source |
| FullDocument.FixedColumnsFacts | src/main/java/edu/mcw/rgd/nlp/SimplePostgresToSolr.java:124-156 | the fixed reads leave each of pmid, title, abstract and p_date holding its own value, if any, when the list starts |
| FullDocument.FullValuesOf | src/main/java/edu/mcw/rgd/nlp/SimplePostgresToSolr.java:119-259 | every field holds its fixed value, then what the list added, then "pubmed" for p_source; the document is well formed |
| FullDocument.FullListedValues | src/main/java/edu/mcw/rgd/nlp/SingleRecordUpdater.java:119-195 | a listed column holds exactly what `addFieldIfExists` read for it |
| FullDocument.FullFixedValues | src/main/java/edu/mcw/rgd/nlp/SingleRecordUpdater.java:84-116 | pmid and title are present exactly when not NULL, abstract exactly when not blank, and p_date with the time appended |
| FullDocument.FullSource | src/main/java/edu/mcw/rgd/nlp/SingleRecordUpdater.java:198 | p_source is "pubmed", exactly once |
| FullDocument.FullUnlistedAbsent | src/main/java/edu/mcw/rgd/nlp/SimplePostgresToSolr.java:158-238 | no other field appears |
| FullDocument.FullCountsOfJoin | src/main/java/edu/mcw/rgd/nlp/SingleRecordUpdater.java:227-242 | a count column written as " \| "-joined integers is read back as those integers |
| FullDocument.FullCountsNoDefault | src/main/java/edu/mcw/rgd/nlp/SimplePostgresToSolr.java:267-282 | a blank or all-invalid count column adds nothing, so there is no zero default |
| FullDocument.FullMultiOfJoin | src/main/java/edu/mcw/rgd/nlp/SingleRecordUpdater.java:245-254 | a multi-valued column adds its tokens, trimmed and unsanitised, in order |
| FullDocument.FullSingleRaw | src/main/java/edu/mcw/rgd/nlp/SingleRecordUpdater.java:255-258 | any other non-blank column adds its raw, untrimmed value |
| FullDocument.FullYearIsText | src/main/java/edu/mcw/rgd/nlp/SimplePostgresToSolr.java:164 | p_year stays a string on this path |
| FullDocument.AddAll | src/main/java/edu/mcw/rgd/nlp/SimplePostgresToSolr.java:289-294 | one `addField` per value, in order |
| FullDocument.AddFieldIfExists | src/main/java/edu/mcw/rgd/nlp/SimplePostgresToSolr.java:264-303 | the document changes as `FullFieldStep` says; a missing column is caught |
| FullDocument.AddOptField | src/main/java/edu/mcw/rgd/nlp/SimplePostgresToSolr.java:129-131 | a fixed column is added when there is a value |
| FullDocument.AddListedFields | src/main/java/edu/mcw/rgd/nlp/SimplePostgresToSolr.java:159-235 | the calls over the column list change the document as `FullFields` says |
| FullDocument.CreateSolrDocument | src/main/java/edu/mcw/rgd/nlp/SimplePostgresToSolr.java:119-259 | null exactly when the pmid, title or p_date column is missing, and otherwise a fresh document in the state `Full` gives |
| JsonDebug.Escape | src/main/java/edu/mcw/rgd/nlp/SimplePostgresToSolr.java:454-459 | the five `replace` calls, backslash first; `EscapeIsSpec`, `UnescapeEscape` and `EscapeInjective` state its properties |
| JsonDebug.Unescape | src/main/java/edu/mcw/rgd/nlp/SimplePostgresToSolr.java:454-459 | the decoder that inverts the escape chain: a raw quote or control char, a lone backslash or an unknown escape is refused |
| JsonDebug.EscapeChar | src/main/java/edu/mcw/rgd/nlp/SimplePostgresToSolr.java:454-459 | exactly the five special chars become a two-char escape starting with a backslash |
| JsonDebug.ReplaceOneChar | src/main/java/edu/mcw/rgd/nlp/SimplePostgresToSolr.java:455 | `replace` with a one-char target rewrites char by char |
| JsonDebug.EscapeIsSpec | src/main/java/edu/mcw/rgd/nlp/SimplePostgresToSolr.java:454-459 | because the backslash goes first, the replace chain equals escaping each char on its own |
| JsonDebug.BackslashOrderMatters | src/main/java/edu/mcw/rgd/nlp/SimplePostgresToSolr.java:455-456 | with the backslash step last, a quote would come out as `\\"` instead of `\"` |
| JsonDebug.UnescapeEscape | src/main/java/edu/mcw/rgd/nlp/SimplePostgresToSolr.java:468-473 | decoding the escaped text gives back the original |
| JsonDebug.EscapeInjective | src/main/java/edu/mcw/rgd/nlp/SingleRecordUpdater.java:288-293 | two values with the same escape are equal |
| JsonDebug.DecodableIsSafe | src/main/java/edu/mcw/rgd/nlp/SingleRecordUpdater.java:302-307 | text the decoder accepts has no raw newline, CR or tab, and every quote is preceded by a backslash |
| JsonDebug.EscapeIsSafe | src/main/java/edu/mcw/rgd/nlp/SimplePostgresToSolr.java:454-460 | escaped output has no raw newline, CR or tab, and every quote in it is preceded by a backslash |
| JsonDebug.EscapeIntText | src/main/java/edu/mcw/rgd/nlp/SimplePostgresToSolr.java:475-477 | an integer rendered by toString needs no escape |
| JsonDebug.FieldJsonUniform | src/main/java/edu/mcw/rgd/nlp/SingleRecordUpdater.java:300-311 | a single value is always quoted, whether a String or not, and written the same as an escaped array element; every value reads back |
| JsonDebug.FullIsPlain | src/main/java/edu/mcw/rgd/nlp/SimplePostgresToSolr.java:412-413 | every document `createSolrDocument` builds holds only strings and integers, so it can be rendered |
| JsonDebug.FieldJson | src/main/java/edu/mcw/rgd/nlp/SimplePostgresToSolr.java:443-478 | one field: its quoted name, then a bracketed array of escaped values when it holds more than one, and the single value otherwise |
| JsonDebug.DocumentJson | src/main/java/edu/mcw/rgd/nlp/SimplePostgresToSolr.java:434-482 | the fields in insertion order joined by ",\n" between "{\n" and "\n}" |
| JsonDebug.ArrayToJson | src/main/java/edu/mcw/rgd/nlp/SimplePostgresToSolr.java:448-463 | the array loop writes the quoted escaped values joined by ", " between brackets |
| JsonDebug.FieldToJson | src/main/java/edu/mcw/rgd/nlp/SimplePostgresToSolr.java:443-478 | one field is rendered as `FieldJson` |
| JsonDebug.DocumentToJson | src/main/java/edu/mcw/rgd/nlp/SingleRecordUpdater.java:268-316 | the document is rendered as `DocumentJson`: the fields in insertion order, joined by ",\n", between "{\n" and "\n}" |

## Left out

- JDBC and configuration:
  - `DriverManager`, the SQL query strings and `DatabaseConfig` are not modelled. A row is an abstract map.
  - The `Clob` fallback for the abstract is taken to give the same string as `getString`. A missing abstract column therefore fails both reads.
  - `java.sql.Date.toString` is not modelled. The date is taken as an already formatted string.
- The Solr client is not modelled: `HttpSolrServer`, `add`, `commit`, the `documentBatch` field with its flush in `sendBatchToSolr`, and `processInChunks` paging with `Thread.sleep`. These are I/O.
- The command line and the run loops are not modelled:
  - every `main`;
  - `updateRecord`, `updateAllRecords`, `updateRecordsByYear`, `transferData`;
  - their timestamps, counters and the float progress percentage;
  - every `System.out`/`System.err` debug line.
- The diagnostic programs are not part of this model: `DebugAbstract`, `ShowPositions`, `PrintAbstract` and `QueryRecord`. Their output is console text.
- FlexibleFieldUpdater's own `documentToJson` is left out, because its values are atomic-update `Map`s rendered by `toString`. `JsonDebug.DocumentToJson` therefore requires a document of strings and integers. `JsonDebug.FullIsPlain` shows that every full document is one.
- JsonDebug.DocumentToJson does not model that `values.iterator().next()` would throw on an empty field. A well-formed document never has one.
- JsonDebug.Escape does not escape control characters other than newline, CR and tab, and neither does the code. The output is therefore valid JSON only for text without such characters. No property claims more.
- FullDocument.AddFieldIfExists: the Java adds each count or token while it parses the column. The model parses the whole column with `ParseCounts` or `CollectTokens` first, then adds the values in the same order. The order of `addField` calls and the final document are the same.
- FullDocument.CreateSolrDocument: the 65 `addFieldIfExists` calls are written as a loop over the constant list `FieldList`, which holds the same names in the same order.
- FlexibleUpdater.FlexibleFieldUpdater.AddRequestedField: the if-chain on the trimmed name is a match on `Dispatch`, which tests the names in the chain's order.
- FlexibleUpdater.FlexibleFieldUpdater.CreatePartialSolrDocument: a missing pmid column makes the catch block's own `getString("pmid")` throw out of the method, where other failures return null. Both are modelled as one null result.
- The `HashSet` iteration order is a parameter, not Java's hash order. Every proved property holds for every order.
- Integers are unbounded except where the code parses: `Integer.parseInt` accepts only 32-bit values, and this is modelled. The position arithmetic `index + gene.length()` is not checked for overflow. Strings of more than 2^31 chars are not considered.
- `toLowerCase` is modelled for ASCII letters only. Other letters are left unchanged.
- GenePositions.SectionSpans: a Dafny string is a sequence of Unicode scalar values, while Java's `length` and `indexOf` count UTF-16 units. After a character outside the Basic Multilingual Plane the model's offsets are one lower per such character than the code's, so the numbers in gene_pos tokens are those of text without such characters.
- JavaStrings.ParseInt accepts only the ASCII digits 0-9. `Integer.parseInt` also accepts every other Unicode decimal digit through `Character.digit`, so for count columns and p_year the model rejects, for example, Arabic-Indic digits that the code reads as numbers.

## Findings

| source | as written | input that shows it | evidently intended | confidence | as-written member | corrected member |
|---|---|---|---|---|---|---|
| src/main/java/edu/mcw/rgd/nlp/FlexibleFieldUpdater.java:278-280 | the gene_count skip tests `fieldsToUpdate.contains("gene_pos")` on the untrimmed set, while the loop dispatches on trimmed names | fields "gene_count, gene_pos" (the set holds " gene_pos") with gene NULL: a stored gene_count "3" is sent as [3], a NULL one as [0], although gene_pos was requested | a requested gene_count is skipped whenever a requested piece trims to gene_pos, as with "gene_count,gene_pos" | not executed | PartialUpdate.AsWrittenReadsStoredCount | PartialUpdate.CorrectedGeneCountIgnored |

/** FlexibleFieldUpdater.calculateAndAddGenePosField: for every gene named in
    the `gene` column, the spans at which it occurs in the title (section 0)
    and in the normalised abstract (section 1), written as `s;start-end`
    tokens, together with the aligned list of counts. */
module GenePositions {
  import opened JavaStrings
  import opened SolrModel

  // ------------------------------------------------------------------
  // Abstract normalisation

  /** The length of the run of \s chars at the front of `s`. */
  function LeadingSpaces(s: string): (n: nat)
    ensures n <= |s|
    ensures forall i :: 0 <= i < n ==> IsRegexSpace(s[i])
    ensures n < |s| ==> !IsRegexSpace(s[n])
    decreases |s|
  {
    if s != [] && IsRegexSpace(s[0]) then 1 + LeadingSpaces(s[1..]) else 0
  }

  /** replaceAll("^\\s+", ""). */
  function StripLeadingSpace(s: string): (r: string)
    ensures r == s[LeadingSpaces(s)..]
    ensures r != [] ==> !IsRegexSpace(r[0])
  {
    s[LeadingSpaces(s)..]
  }

  /** replaceAll(">\\s+", "> "): a '>' and the whole \s run after it become "> ". */
  function CollapseAfterGt(s: string): (r: string)
    ensures s != [] ==> r != [] && r[0] == s[0]
    decreases |s|
  {
    if s == [] then []
    else if s[0] == '>' && |s| > 1 && IsRegexSpace(s[1]) then
      "> " + CollapseAfterGt(s[1 + LeadingSpaces(s[1..])..])
    else [s[0]] + CollapseAfterGt(s[1..])
  }

  /** replaceAll("\\s+<", " <"): a maximal \s run directly before '<' becomes one
      space; a run not followed by '<' is left alone. */
  function CollapseBeforeLt(s: string): (r: string)
    ensures s != [] && !IsRegexSpace(s[0]) ==> r != [] && r[0] == s[0]
    decreases |s|
  {
    if s == [] then []
    else if IsRegexSpace(s[0]) && LeadingSpaces(s) < |s| && s[LeadingSpaces(s)] == '<' then
      " <" + CollapseBeforeLt(s[LeadingSpaces(s) + 1..])
    else [s[0]] + CollapseBeforeLt(s[1..])
  }

  /** The abstract as the position search sees it. */
  function NormalizeAbstract(a: string): string {
    CollapseBeforeLt(CollapseAfterGt(StripLeadingSpace(a)))
  }

  /** A '>' followed by whitespace in `r` is followed by exactly one plain space. */
  ghost predicate SingleSpaceAfterGt(r: string) {
    forall i :: 0 <= i < |r| - 1 && r[i] == '>' && IsRegexSpace(r[i + 1]) ==>
      r[i + 1] == ' ' && (i + 2 == |r| || !IsRegexSpace(r[i + 2]))
  }

  lemma {:induction false} CollapseAfterGtSingleSpace(s: string)
    ensures SingleSpaceAfterGt(CollapseAfterGt(s))
    decreases |s|
  {
    if s != [] {
      if s[0] == '>' && |s| > 1 && IsRegexSpace(s[1]) {
        var rest := s[1 + LeadingSpaces(s[1..])..];
        CollapseAfterGtSingleSpace(rest);
        var t := CollapseAfterGt(rest);
        var r := "> " + t;
        assert rest != [] ==> !IsRegexSpace(rest[0]);
        forall i | 0 <= i < |r| - 1 && r[i] == '>' && IsRegexSpace(r[i + 1])
          ensures r[i + 1] == ' ' && (i + 2 == |r| || !IsRegexSpace(r[i + 2]))
        {
          if i >= 2 {
            assert r[i] == t[i - 2] && r[i + 1] == t[i - 1];
            if i + 2 < |r| { assert r[i + 2] == t[i]; }
          }
        }
      } else {
        CollapseAfterGtSingleSpace(s[1..]);
        var t := CollapseAfterGt(s[1..]);
        var r := [s[0]] + t;
        forall i | 0 <= i < |r| - 1 && r[i] == '>' && IsRegexSpace(r[i + 1])
          ensures r[i + 1] == ' ' && (i + 2 == |r| || !IsRegexSpace(r[i + 2]))
        {
          if i >= 1 {
            assert r[i] == t[i - 1] && r[i + 1] == t[i];
            if i + 2 < |r| { assert r[i + 2] == t[i + 1]; }
          }
        }
      }
    }
  }

  /** A '<' preceded by whitespace in `r` is preceded by exactly one plain space. */
  ghost predicate SingleSpaceBeforeLt(r: string) {
    forall i :: 1 <= i < |r| && r[i] == '<' && IsRegexSpace(r[i - 1]) ==>
      r[i - 1] == ' ' && (i == 1 || !IsRegexSpace(r[i - 2]))
  }

  /** The first char of the collapsed text is '<' exactly when the text starts
      with '<', and is whitespace only when the text starts with whitespace. */
  lemma CollapseBeforeLtFirst(u: string)
    requires u != []
    ensures CollapseBeforeLt(u) != []
    ensures CollapseBeforeLt(u)[0] == '<' <==> u[0] == '<'
    ensures IsRegexSpace(CollapseBeforeLt(u)[0]) ==> IsRegexSpace(u[0])
  {
  }

  /** Collapsed text that starts with whitespace and then '<' came from a
      whitespace run directly followed by '<'. */
  lemma CollapseBeforeLtRun(u: string)
    requires |CollapseBeforeLt(u)| >= 2 && IsRegexSpace(CollapseBeforeLt(u)[0]) && CollapseBeforeLt(u)[1] == '<'
    ensures IsRegexSpace(u[0]) && LeadingSpaces(u) < |u| && u[LeadingSpaces(u)] == '<'
  {
    CollapseBeforeLtFirst(u);
    if !(LeadingSpaces(u) < |u| && u[LeadingSpaces(u)] == '<') {
      var t := CollapseBeforeLt(u[1..]);
      assert CollapseBeforeLt(u) == [u[0]] + t;
      assert u[1..] != [];
      CollapseBeforeLtFirst(u[1..]);
      assert false;
    }
  }

  lemma {:induction false} CollapseBeforeLtSingleSpace(s: string)
    ensures SingleSpaceBeforeLt(CollapseBeforeLt(s))
    decreases |s|
  {
    if s != [] {
      if IsRegexSpace(s[0]) && LeadingSpaces(s) < |s| && s[LeadingSpaces(s)] == '<' {
        var rest := s[LeadingSpaces(s) + 1..];
        CollapseBeforeLtSingleSpace(rest);
        var t := CollapseBeforeLt(rest);
        var r := " <" + t;
        forall i | 1 <= i < |r| && r[i] == '<' && IsRegexSpace(r[i - 1])
          ensures r[i - 1] == ' ' && (i == 1 || !IsRegexSpace(r[i - 2]))
        {
          if i >= 3 {
            assert r[i] == t[i - 2] && r[i - 1] == t[i - 3] && r[i - 2] == (if i == 3 then '<' else t[i - 4]);
          }
        }
      } else {
        CollapseBeforeLtSingleSpace(s[1..]);
        var t := CollapseBeforeLt(s[1..]);
        var r := [s[0]] + t;
        forall i | 1 <= i < |r| && r[i] == '<' && IsRegexSpace(r[i - 1])
          ensures r[i - 1] == ' ' && (i == 1 || !IsRegexSpace(r[i - 2]))
        {
          assert r[i] == t[i - 1];
          if i == 1 {
            CollapseBeforeLtFirst(s[1..]);
            assert false;
          } else {
            assert r[i - 1] == t[i - 2];
            if i == 2 && IsRegexSpace(s[0]) {
              CollapseBeforeLtRun(s[1..]);
              assert false;
            } else if i > 2 {
              assert r[i - 2] == t[i - 3];
            }
          }
        }
      }
    }
  }

  /** The normalised abstract never starts with whitespace, and its first char is
      the first non-whitespace char of the raw abstract. */
  lemma NormalizedAbstractStart(a: string)
    ensures NormalizeAbstract(a) != [] ==> !IsRegexSpace(NormalizeAbstract(a)[0])
    ensures NormalizeAbstract(a) == [] <==> forall i :: 0 <= i < |a| ==> IsRegexSpace(a[i])
    ensures NormalizeAbstract(a) != [] ==> NormalizeAbstract(a)[0] == a[LeadingSpaces(a)]
  {
    var s := StripLeadingSpace(a);
    if s == [] {
      assert forall i :: 0 <= i < |a| ==> IsRegexSpace(a[i]);
    } else {
      assert !IsRegexSpace(a[LeadingSpaces(a)]);
    }
  }

  // ------------------------------------------------------------------
  // The occurrence scan

  /** The indices at or after `from` that the loop resuming at `index + 1`
      reports, in order of discovery. */
  function Occurrences(text: string, needle: string, from: nat): seq<nat>
    requires |needle| > 0
    decreases |text| - from
  {
    if from >= |text| then []
    else
      var k := IndexOf(text, needle, from);
      if k < 0 then [] else [k] + Occurrences(text, needle, k + 1)
  }

  /** The scan reports only matches, each at or after `from`. */
  lemma {:induction false} OccurrencesAfter(text: string, needle: string, from: nat)
    requires |needle| > 0
    ensures forall i :: 0 <= i < |Occurrences(text, needle, from)| ==>
      from <= Occurrences(text, needle, from)[i] && OccursAt(text, needle, Occurrences(text, needle, from)[i])
    decreases |text| - from
  {
    if from < |text| {
      var k := IndexOf(text, needle, from);
      if k >= 0 {
        var rest := Occurrences(text, needle, k + 1);
        OccurrencesAfter(text, needle, k + 1);
        var r := [k] + rest;
        assert r == Occurrences(text, needle, from);
        forall i | 0 <= i < |r| ensures from <= r[i] && OccursAt(text, needle, r[i]) {
          if i > 0 { assert r[i] == rest[i - 1]; }
        }
      }
    }
  }

  /** The scan reports its matches in strictly increasing order. */
  lemma {:induction false} OccurrencesIncreasing(text: string, needle: string, from: nat)
    requires |needle| > 0
    ensures forall i, j :: 0 <= i < j < |Occurrences(text, needle, from)| ==>
      Occurrences(text, needle, from)[i] < Occurrences(text, needle, from)[j]
    decreases |text| - from
  {
    if from < |text| {
      var k := IndexOf(text, needle, from);
      if k >= 0 {
        var rest := Occurrences(text, needle, k + 1);
        OccurrencesAfter(text, needle, k + 1);
        OccurrencesIncreasing(text, needle, k + 1);
        var r := [k] + rest;
        assert r == Occurrences(text, needle, from);
        forall i, j | 0 <= i < j < |r| ensures r[i] < r[j] {
          assert r[j] == rest[j - 1];
          if i > 0 { assert r[i] == rest[i - 1]; }
        }
      }
    }
  }

  /** The scan reports only matches, each at or after `from`, in strictly increasing order. */
  lemma OccurrencesSound(text: string, needle: string, from: nat)
    requires |needle| > 0
    ensures forall i :: 0 <= i < |Occurrences(text, needle, from)| ==>
      from <= Occurrences(text, needle, from)[i] && OccursAt(text, needle, Occurrences(text, needle, from)[i])
    ensures forall i, j :: 0 <= i < j < |Occurrences(text, needle, from)| ==>
      Occurrences(text, needle, from)[i] < Occurrences(text, needle, from)[j]
  {
    OccurrencesAfter(text, needle, from);
    OccurrencesIncreasing(text, needle, from);
  }

  /** The scan misses no match at or after `from`: overlapping ones included. */
  lemma {:induction false} OccurrencesComplete(text: string, needle: string, from: nat, m: nat)
    requires |needle| > 0 && from <= m && OccursAt(text, needle, m)
    ensures m in Occurrences(text, needle, from)
    decreases |text| - from
  {
    var k := IndexOf(text, needle, from);
    assert k >= 0;
    if k != m {
      OccurrencesComplete(text, needle, k + 1, m);
    }
  }

  /** "aa" occurs in "aaaa" at 0, 1 and 2: matches may overlap. */
  lemma OverlappingExample()
    ensures Occurrences("aaaa", "aa", 0) == [0, 1, 2]
  {
    var s, t := "aaaa", "aa";
    assert OccursAt(s, t, 0) && OccursAt(s, t, 1) && OccursAt(s, t, 2);
    assert forall k :: 3 <= k ==> !OccursAt(s, t, k);
    IndexOfIsFirst(s, t, 0, 0);
    IndexOfIsFirst(s, t, 1, 1);
    IndexOfIsFirst(s, t, 2, 2);
    assert IndexOf(s, t, 3) == -1;
  }

  // ------------------------------------------------------------------
  // Spans and their tokens

  /** One match: the section (0 = title, 1 = abstract) and the half-open range. */
  datatype Span = Span(section: nat, start: nat, end: nat)

  /** "s;start-end". */
  function SpanToken(sp: Span): string {
    NatToString(sp.section) + ";" + NatToString(sp.start) + "-" + NatToString(sp.end)
  }

  /** The index of the first `c` in `s`, or -1. */
  function FindChar(s: string, c: char): (r: int)
    ensures -1 <= r < |s|
    ensures r >= 0 ==> s[r] == c && forall i :: 0 <= i < r ==> s[i] != c
    ensures r == -1 ==> forall i :: 0 <= i < |s| ==> s[i] != c
    decreases |s|
  {
    if s == [] then -1
    else if s[0] == c then 0
    else
      var r := FindChar(s[1..], c);
      if r < 0 then -1 else r + 1
  }

  /** A non-empty run of digits read as a number. */
  function ParseDigits(s: string): Option<nat> {
    if s != [] && AllDigits(s) then Some(DigitsValue(s)) else None
  }

  /** Reads an "s;start-end" token back. */
  function ParseSpan(tok: string): Option<Span> {
    var i := FindChar(tok, ';');
    if i < 0 then None else ParseSpanRest(tok[..i], tok[i + 1..])
  }

  /** Reads the "start-end" part of a token whose section is `sec`. */
  function ParseSpanRest(sec: string, rest: string): Option<Span> {
    var j := FindChar(rest, '-');
    if j < 0 then None
    else
      var s, b, e := ParseDigits(sec), ParseDigits(rest[..j]), ParseDigits(rest[j + 1..]);
      if s.Some? && b.Some? && e.Some? then Some(Span(s.value, b.value, e.value)) else None
  }

  lemma FindCharAfterDigits(a: string, c: char, b: string)
    requires AllDigits(a) && !IsDigit(c)
    ensures FindChar(a + [c] + b, c) == |a|
  {
    var s := a + [c] + b;
    assert s[|a|] == c;
    assert forall i :: 0 <= i < |a| ==> s[i] == a[i];
  }

  /** "b-e" with two digit runs, after the digit run `a`, reads back as their values. */
  lemma ParseSpanRestOfDigits(a: string, b: string, e: string)
    requires a != [] && b != [] && e != [] && AllDigits(a) && AllDigits(b) && AllDigits(e)
    ensures ParseSpanRest(a, b + "-" + e) == Some(Span(DigitsValue(a), DigitsValue(b), DigitsValue(e)))
  {
    var tail := b + "-" + e;
    assert FindChar(tail, '-') == |b| by {
      assert tail == b + ['-'] + e;
      FindCharAfterDigits(b, '-', e);
    }
    assert tail[..|b|] == b && tail[|b| + 1..] == e;
  }

  /** "a;b-e" with three digit runs reads back as their values. */
  lemma ParseSpanOfDigits(a: string, b: string, e: string)
    requires a != [] && b != [] && e != [] && AllDigits(a) && AllDigits(b) && AllDigits(e)
    ensures ParseSpan(a + ";" + b + "-" + e) == Some(Span(DigitsValue(a), DigitsValue(b), DigitsValue(e)))
  {
    var tok := a + ";" + b + "-" + e;
    var tail := b + "-" + e;
    assert tok == a + [';'] + tail;
    assert FindChar(tok, ';') == |a| by {
      FindCharAfterDigits(a, ';', tail);
    }
    assert tok[..|a|] == a && tok[|a| + 1..] == tail;
    ParseSpanRestOfDigits(a, b, e);
  }

  /** Tokens read back as the spans that were written. */
  lemma ParseSpanToken(sp: Span)
    ensures ParseSpan(SpanToken(sp)) == Some(sp)
  {
    ParseSpanOfDigits(NatToString(sp.section), NatToString(sp.start), NatToString(sp.end));
  }

  /** Tokens hold no '|', so they survive being joined and split on "|". */
  lemma SpanTokenHasNoBar(sp: Span)
    ensures forall k :: 0 <= k < |SpanToken(sp)| ==> SpanToken(sp)[k] != '|'
  {
    var a, b, e := NatToString(sp.section), NatToString(sp.start), NatToString(sp.end);
    var tok := SpanToken(sp);
    forall k | 0 <= k < |tok| ensures tok[k] != '|' {
      if k < |a| {
        assert tok[k] == a[k];
      } else if |a| < k < |a| + 1 + |b| {
        assert tok[k] == b[k - |a| - 1];
      } else if |a| + 1 + |b| < k {
        assert tok[k] == e[k - |a| - 2 - |b|];
      }
    }
  }

  function Tokens(spans: seq<Span>): (r: seq<string>)
    ensures |r| == |spans| && forall i :: 0 <= i < |spans| ==> r[i] == SpanToken(spans[i])
  {
    seq(|spans|, i requires 0 <= i < |spans| => SpanToken(spans[i]))
  }

  /** The spans of the given starts in one section, for a gene of length `len`. */
  function SpansAt(section: nat, starts: seq<nat>, len: nat): (r: seq<Span>)
    ensures |r| == |starts|
    ensures forall i :: 0 <= i < |starts| ==> r[i] == Span(section, starts[i], starts[i] + len)
  {
    seq(|starts|, i requires 0 <= i < |starts| => Span(section, starts[i], starts[i] + len))
  }

  /** The spans found when scanning one section for one gene (nothing for an empty section). */
  function SectionSpans(section: nat, text: string, gene: string): seq<Span>
    requires |gene| > 0
  {
    if text == [] then [] else SpansAt(section, Occurrences(Lower(text), Lower(gene), 0), |gene|)
  }

  /** Title spans first, then the spans in the normalised abstract. */
  function GeneSpans(gene: string, title: string, abs: string): seq<Span>
    requires |gene| > 0
  {
    SectionSpans(0, title, gene) + SectionSpans(1, NormalizeAbstract(abs), gene)
  }

  /** The text a section number refers to. */
  function SectionText(section: nat, title: string, abs: string): string {
    if section == 0 then title else NormalizeAbstract(abs)
  }

  /** `sp` is a case-insensitive match of `gene` in its section. */
  ghost predicate IsMatch(sp: Span, gene: string, title: string, abs: string) {
    var text := SectionText(sp.section, title, abs);
    && sp.section <= 1
    && sp.end == sp.start + |gene|
    && sp.end <= |text|
    && Lower(text)[sp.start..sp.end] == Lower(gene)
  }

  lemma SectionSpansSound(section: nat, text: string, gene: string)
    requires |gene| > 0
    ensures var ss := SectionSpans(section, text, gene);
      forall k :: 0 <= k < |ss| ==>
        && ss[k].section == section
        && ss[k].end == ss[k].start + |gene|
        && ss[k].end <= |text|
        && Lower(text)[ss[k].start..ss[k].end] == Lower(gene)
  {
    if text != [] {
      var starts := Occurrences(Lower(text), Lower(gene), 0);
      OccurrencesSound(Lower(text), Lower(gene), 0);
      var ss := SectionSpans(section, text, gene);
      forall k | 0 <= k < |ss|
        ensures ss[k].end == ss[k].start + |gene| && ss[k].end <= |text|
        ensures Lower(text)[ss[k].start..ss[k].end] == Lower(gene)
      {
        assert OccursAt(Lower(text), Lower(gene), starts[k]);
      }
    }
  }

  lemma SectionSpansMatch(section: nat, gene: string, title: string, abs: string)
    requires |gene| > 0 && section <= 1
    ensures var ss := SectionSpans(section, SectionText(section, title, abs), gene);
      forall k :: 0 <= k < |ss| ==> IsMatch(ss[k], gene, title, abs)
  {
    SectionSpansSound(section, SectionText(section, title, abs), gene);
  }

  /** Every reported span is a real match. */
  lemma GeneSpansSound(gene: string, title: string, abs: string)
    requires |gene| > 0
    ensures forall sp :: sp in GeneSpans(gene, title, abs) ==> IsMatch(sp, gene, title, abs)
  {
    var t := SectionSpans(0, SectionText(0, title, abs), gene);
    var a := SectionSpans(1, SectionText(1, title, abs), gene);
    SectionSpansMatch(0, gene, title, abs);
    SectionSpansMatch(1, gene, title, abs);
    assert GeneSpans(gene, title, abs) == t + a;
    forall sp | sp in t + a ensures IsMatch(sp, gene, title, abs) {
      if sp in t {
        var k :| 0 <= k < |t| && t[k] == sp;
      } else {
        var k :| 0 <= k < |a| && a[k] == sp;
      }
    }
  }

  /** Every case-insensitive occurrence, in either section, is reported. */
  lemma GeneSpansComplete(gene: string, title: string, abs: string, sp: Span)
    requires |gene| > 0 && IsMatch(sp, gene, title, abs)
    ensures sp in GeneSpans(gene, title, abs)
  {
    var text := SectionText(sp.section, title, abs);
    var lg := Lower(gene);
    assert OccursAt(Lower(text), lg, sp.start);
    var starts := Occurrences(Lower(text), lg, 0);
    OccurrencesComplete(Lower(text), lg, 0, sp.start);
    var i :| 0 <= i < |starts| && starts[i] == sp.start;
    var ss := SectionSpans(sp.section, text, gene);
    assert ss[i] == sp;
    var spans := GeneSpans(gene, title, abs);
    if sp.section == 0 {
      assert spans[i] == sp;
    } else {
      assert spans[|SectionSpans(0, title, gene)| + i] == sp;
    }
  }

  lemma SectionSpansIncreasing(section: nat, text: string, gene: string)
    requires |gene| > 0
    ensures var ss := SectionSpans(section, text, gene);
      && (forall i :: 0 <= i < |ss| ==> ss[i].section == section)
      && (forall i, j :: 0 <= i < j < |ss| ==> ss[i].start < ss[j].start)
  {
    if text != [] {
      OccurrencesSound(Lower(text), Lower(gene), 0);
    }
  }

  /** Title spans come before abstract spans; starts increase strictly within a section. */
  lemma GeneSpansOrdered(gene: string, title: string, abs: string)
    requires |gene| > 0
    ensures var spans := GeneSpans(gene, title, abs);
      forall i, j :: 0 <= i < j < |spans| ==>
        spans[i].section < spans[j].section
        || (spans[i].section == spans[j].section && spans[i].start < spans[j].start)
  {
    var t := SectionSpans(0, title, gene);
    var a := SectionSpans(1, NormalizeAbstract(abs), gene);
    SectionSpansIncreasing(0, title, gene);
    SectionSpansIncreasing(1, NormalizeAbstract(abs), gene);
    var spans := t + a;
    assert spans == GeneSpans(gene, title, abs);
    forall i, j | 0 <= i < j < |spans|
      ensures spans[i].section < spans[j].section
        || (spans[i].section == spans[j].section && spans[i].start < spans[j].start)
    {
      if j < |t| {
        assert spans[i] == t[i] && spans[j] == t[j];
      } else if i >= |t| {
        assert spans[i] == a[i - |t|] && spans[j] == a[j - |t|];
      } else {
        assert spans[i] == t[i] && spans[j] == a[j - |t|];
      }
    }
  }

  // ------------------------------------------------------------------
  // Groups and counts

  /** The sentinel written for a gene that is never found. */
  const NoMatch: string := "0;0-0"

  /** The gene_pos entry of one gene. */
  function GroupOf(spans: seq<Span>): string {
    if spans == [] then NoMatch else Join("|", Tokens(spans))
  }

  /** The gene names: the trimmed non-empty " | " pieces of the gene column. */
  function Genes(geneValue: string): seq<string> {
    TrimmedNonEmpty(Split(geneValue, Bar))
  }

  predicate NonEmptyNames(genes: seq<string>) {
    forall i :: 0 <= i < |genes| ==> |genes[i]| > 0
  }

  /** The gene_pos list, one group per gene. */
  function PositionGroups(genes: seq<string>, title: string, abs: string): (r: seq<string>)
    requires NonEmptyNames(genes)
    ensures |r| == |genes|
    decreases |genes|
  {
    if genes == [] then []
    else
      var front := genes[..|genes| - 1];
      PositionGroups(front, title, abs) + [GroupOf(GeneSpans(genes[|genes| - 1], title, abs))]
  }

  /** The gene_count list, one count per gene. */
  function CountList(genes: seq<string>, title: string, abs: string): (r: seq<int>)
    requires NonEmptyNames(genes)
    ensures |r| == |genes|
    decreases |genes|
  {
    if genes == [] then []
    else
      var front := genes[..|genes| - 1];
      CountList(front, title, abs) + [|GeneSpans(genes[|genes| - 1], title, abs)|]
  }

  lemma {:induction false} PositionGroupsAt(genes: seq<string>, title: string, abs: string, i: nat)
    requires NonEmptyNames(genes)
    requires i < |genes|
    ensures PositionGroups(genes, title, abs)[i] == GroupOf(GeneSpans(genes[i], title, abs))
    ensures CountList(genes, title, abs)[i] == |GeneSpans(genes[i], title, abs)|
    decreases |genes|
  {
    var n := |genes| - 1;
    var front := genes[..n];
    var groups, counts := PositionGroups(front, title, abs), CountList(front, title, abs);
    var spans := GeneSpans(genes[n], title, abs);
    assert PositionGroups(genes, title, abs) == groups + [GroupOf(spans)];
    assert CountList(genes, title, abs) == counts + [|spans|];
    if i < n {
      PositionGroupsAt(front, title, abs, i);
      assert front[i] == genes[i];
      SnocAt(groups, GroupOf(spans), i);
      SnocAt(counts, |spans|, i);
    } else {
      SnocAt(groups, GroupOf(spans), i);
      SnocAt(counts, |spans|, i);
    }
  }

  /** Splitting a group on "|" gives back the tokens of its spans. */
  lemma SplitGroup(spans: seq<Span>)
    requires spans != []
    ensures Split(GroupOf(spans), "|") == Tokens(spans)
  {
    var toks := Tokens(spans);
    forall i | 0 <= i < |toks| ensures toks[i] != [] && Separable(toks[i], "|") {
      SpanTokenHasNoBar(spans[i]);
      NoBarSeparable(toks[i]);
    }
    SplitOfJoin(toks, "|");
  }

  /** The sentinel is no real group: a span is never empty, so 0;0-0 is never written. */
  lemma SentinelIsNoGroup(spans: seq<Span>)
    requires spans != [] && forall i :: 0 <= i < |spans| ==> spans[i].start < spans[i].end
    ensures GroupOf(spans) != NoMatch
  {
    var toks := Tokens(spans);
    SpanTokenHasNoBar(spans[0]);
    if |spans| == 1 {
      ParseSpanToken(spans[0]);
      ParseSentinel();
    } else {
      var g := Join("|", toks);
      assert g == toks[0] + "|" + Join("|", toks[1..]);
      assert g[|toks[0]|] == '|';
      assert forall k :: 0 <= k < |NoMatch| ==> NoMatch[k] != '|';
    }
  }

  lemma ParseSentinel()
    ensures ParseSpan(NoMatch) == Some(Span(0, 0, 0))
  {
    var s := NoMatch;
    assert FindChar(s, ';') == 1;
    var rest := s[2..];
    assert rest == "0-0";
    assert FindChar(rest, '-') == 1;
    assert s[..1] == "0" && rest[..1] == "0" && rest[2..] == "0";
    assert ParseDigits("0") == Some(0);
  }

  /** The properties of the gene_pos and gene_count lists together: they are
      aligned with the gene names; a count is 0 exactly when its group is the
      sentinel; otherwise the count is the number of "|"-separated tokens in its
      group, and each token reads back as a real match. */
  lemma GroupsAndCounts(genes: seq<string>, title: string, abs: string, i: nat)
    requires NonEmptyNames(genes)
    requires i < |genes|
    ensures |PositionGroups(genes, title, abs)| == |CountList(genes, title, abs)| == |genes|
    ensures var group, count := PositionGroups(genes, title, abs)[i], CountList(genes, title, abs)[i];
      && (count == 0 <==> group == NoMatch)
      && (count != 0 ==> count == |Split(group, "|")|)
      && (count != 0 ==> forall tok :: tok in Split(group, "|") ==>
            ParseSpan(tok).Some? && IsMatch(ParseSpan(tok).value, genes[i], title, abs))
  {
    PositionGroupsAt(genes, title, abs, i);
    var spans := GeneSpans(genes[i], title, abs);
    if spans != [] {
      GeneSpansSound(genes[i], title, abs);
      assert forall k :: 0 <= k < |spans| ==> spans[k].start < spans[k].end by {
        forall k | 0 <= k < |spans| ensures spans[k].start < spans[k].end {
          assert spans[k] in spans;
        }
      }
      SentinelIsNoGroup(spans);
      SplitGroup(spans);
      forall tok | tok in Split(GroupOf(spans), "|")
        ensures ParseSpan(tok).Some? && IsMatch(ParseSpan(tok).value, genes[i], title, abs)
      {
        var k :| 0 <= k < |spans| && Tokens(spans)[k] == tok;
        ParseSpanToken(spans[k]);
        assert spans[k] in spans;
      }
    }
  }

  // ------------------------------------------------------------------
  // The loops

  lemma SpansTokensSnoc(section: nat, starts: seq<nat>, x: nat, len: nat)
    ensures Tokens(SpansAt(section, starts + [x], len))
         == Tokens(SpansAt(section, starts, len)) + [SpanToken(Span(section, x, x + len))]
  {
    var l := SpansAt(section, starts + [x], len);
    assert l == SpansAt(section, starts, len) + [Span(section, x, x + len)];
    TokensAppend(SpansAt(section, starts, len), [Span(section, x, x + len)]);
  }

  /** One round of the loop moves the match it finds from the pending
      occurrences to the ones already recorded. */
  /** The scan so far: the matches recorded in `starts` followed by the ones
      still to be found from `from` make up all matches. */
  ghost predicate Scanned(text: string, needle: string, from: nat, starts: seq<nat>, all: seq<nat>) {
    |needle| > 0 && starts + Occurrences(text, needle, from) == all
  }

  lemma ScanStep(text: string, needle: string, from: nat, starts: seq<nat>, all: seq<nat>, k: nat)
    requires Scanned(text, needle, from, starts, all) && from < |text| && k == IndexOf(text, needle, from)
    ensures Scanned(text, needle, k + 1, starts + [k], all)
  {
    assert Occurrences(text, needle, from) == [k] + Occurrences(text, needle, k + 1);
    assert starts + ([k] + Occurrences(text, needle, k + 1)) == (starts + [k]) + Occurrences(text, needle, k + 1);
  }

  lemma ScanEnd(text: string, needle: string, from: nat, starts: seq<nat>, all: seq<nat>)
    requires Scanned(text, needle, from, starts, all)
    requires from >= |text| || IndexOf(text, needle, from) < 0
    ensures starts == all
  {
    assert Occurrences(text, needle, from) == [];
  }

  /** Both loop invariants survive one round. */
  lemma ScanRound(section: nat, text: string, needle: string, from: nat, starts: seq<nat>, all: seq<nat>,
                  positions: seq<string>, k: nat, len: nat)
    requires Scanned(text, needle, from, starts, all) && from < |text| && k == IndexOf(text, needle, from)
    requires positions == Tokens(SpansAt(section, starts, len))
    ensures Scanned(text, needle, k + 1, starts + [k], all)
    ensures positions + [SpanToken(Span(section, k, k + len))] == Tokens(SpansAt(section, starts + [k], len))
  {
    SpansTokensSnoc(section, starts, k, len);
    ScanStep(text, needle, from, starts, all, k);
  }

  /** One section's while loop: search from `searchStart`, record the span, resume at index + 1. */
  method ScanSection(section: nat, text: string, gene: string) returns (positions: seq<string>)
    requires |gene| > 0
    ensures positions == Tokens(SectionSpans(section, text, gene))
  {
    positions := [];
    if text != [] {
      var lowerText := Lower(text);
      var lowerGene := Lower(gene);
      ghost var all := Occurrences(lowerText, lowerGene, 0);
      var searchStart: nat := 0;
      ghost var starts: seq<nat> := [];
      while searchStart < |text|
        invariant Scanned(lowerText, lowerGene, searchStart, starts, all)
        invariant positions == Tokens(SpansAt(section, starts, |gene|))
        decreases |text| - searchStart
      {
        var index := IndexOf(lowerText, lowerGene, searchStart);
        if index == -1 {
          break;
        }
        var start: nat := index;
        var end := index + |gene|;
        ScanRound(section, lowerText, lowerGene, searchStart, starts, all, positions, start, |gene|);
        positions, starts, searchStart := positions + [SpanToken(Span(section, start, end))], starts + [start], start + 1;
      }
      ScanEnd(lowerText, lowerGene, searchStart, starts, all);
      assert SectionSpans(section, text, gene) == SpansAt(section, all, |gene|);
    }
  }

  lemma TokensAppend(a: seq<Span>, b: seq<Span>)
    ensures Tokens(a + b) == Tokens(a) + Tokens(b)
  {
  }

  lemma TrimmedNonEmptyStep(pieces: seq<string>, i: nat)
    requires i < |pieces|
    ensures TrimmedNonEmpty(pieces[..i + 1])
         == TrimmedNonEmpty(pieces[..i]) + (if Trim(pieces[i]) == [] then [] else [Trim(pieces[i])])
  {
    assert pieces[..i + 1][..i] == pieces[..i];
  }

  lemma PositionGroupsSnoc(genes: seq<string>, g: string, title: string, abs: string)
    requires NonEmptyNames(genes)
    requires |g| > 0
    ensures PositionGroups(genes + [g], title, abs) == PositionGroups(genes, title, abs) + [GroupOf(GeneSpans(g, title, abs))]
    ensures CountList(genes + [g], title, abs) == CountList(genes, title, abs) + [|GeneSpans(g, title, abs)|]
  {
    assert (genes + [g])[..|genes|] == genes;
  }

  /** The two section scans of one gene give its group and its count. */
  lemma GroupOfScans(gene: string, title: string, abs: string, titlePositions: seq<string>, abstractPositions: seq<string>)
    requires |gene| > 0
    requires titlePositions == Tokens(SectionSpans(0, title, gene))
    requires abstractPositions == Tokens(SectionSpans(1, NormalizeAbstract(abs), gene))
    ensures var positions := titlePositions + abstractPositions;
      && (if positions == [] then NoMatch else Join("|", positions)) == GroupOf(GeneSpans(gene, title, abs))
      && |positions| == |GeneSpans(gene, title, abs)|
  {
    TokensAppend(SectionSpans(0, title, gene), SectionSpans(1, NormalizeAbstract(abs), gene));
  }

  /** The body of the per-gene loop: both section scans and the group and count
      built from them. */
  method GeneEntry(gene: string, title: string, abs: string, abstractText: string)
    returns (group: string, count: int)
    requires |gene| > 0 && abstractText == NormalizeAbstract(abs)
    ensures group == GroupOf(GeneSpans(gene, title, abs))
    ensures count == |GeneSpans(gene, title, abs)|
  {
    var titlePositions := ScanSection(0, title, gene);
    var abstractPositions := ScanSection(1, abstractText, gene);
    var positions := titlePositions + abstractPositions;
    var totalCount := |titlePositions| + |abstractPositions|;
    GroupOfScans(gene, title, abs, titlePositions, abstractPositions);
    if positions == [] {
      group, count := NoMatch, 0;
    } else {
      group, count := Join("|", positions), totalCount;
    }
  }

  /** The per-gene loop: the gene_pos and gene_count lists for the gene column
      `geneValue`, the title and the raw abstract. */
  method CalculateGenePositions(geneValue: string, title: string, abs: string)
    returns (genePositions: seq<string>, geneCounts: seq<int>)
    ensures var genes := Genes(geneValue);
      && genePositions == PositionGroups(genes, title, abs)
      && geneCounts == CountList(genes, title, abs)
  {
    var abstractText := StripLeadingSpace(abs);
    abstractText := CollapseAfterGt(abstractText);
    abstractText := CollapseBeforeLt(abstractText);
    var genes := Split(geneValue, Bar);
    genePositions, geneCounts := GeneLoop(genes, title, abs, abstractText);
  }

  /** One pass of the gene loop over a gene piece that is not blank. */
  lemma GeneLoopAdd(genes: seq<string>, i: nat, title: string, abs: string)
    requires i < |genes| && Trim(genes[i]) != []
    requires NonEmptyNames(TrimmedNonEmpty(genes[..i]))
    ensures NonEmptyNames(TrimmedNonEmpty(genes[..i + 1]))
    ensures PositionGroups(TrimmedNonEmpty(genes[..i + 1]), title, abs)
         == PositionGroups(TrimmedNonEmpty(genes[..i]), title, abs) + [GroupOf(GeneSpans(Trim(genes[i]), title, abs))]
    ensures CountList(TrimmedNonEmpty(genes[..i + 1]), title, abs)
         == CountList(TrimmedNonEmpty(genes[..i]), title, abs) + [|GeneSpans(Trim(genes[i]), title, abs)|]
  {
    TrimmedNonEmptyStep(genes, i);
    var names, g := TrimmedNonEmpty(genes[..i]), Trim(genes[i]);
    assert TrimmedNonEmpty(genes[..i + 1]) == names + [g];
    assert NonEmptyNames(names + [g]);
    PositionGroupsSnoc(names, g, title, abs);
  }

  /** One pass of the gene loop over a blank gene piece. */
  lemma GeneLoopSkip(genes: seq<string>, i: nat)
    requires i < |genes| && Trim(genes[i]) == []
    ensures TrimmedNonEmpty(genes[..i + 1]) == TrimmedNonEmpty(genes[..i])
  {
    TrimmedNonEmptyStep(genes, i);
    assert TrimmedNonEmpty(genes[..i]) + [] == TrimmedNonEmpty(genes[..i]);
  }

  /** The loop over the split gene pieces: blank pieces are skipped, every other
      gene adds its group and its count. */
  method GeneLoop(genes: seq<string>, title: string, abs: string, abstractText: string)
    returns (genePositions: seq<string>, geneCounts: seq<int>)
    requires abstractText == NormalizeAbstract(abs)
    ensures NonEmptyNames(TrimmedNonEmpty(genes))
    ensures genePositions == PositionGroups(TrimmedNonEmpty(genes), title, abs)
    ensures geneCounts == CountList(TrimmedNonEmpty(genes), title, abs)
  {
    genePositions, geneCounts := [], [];
    assert genes[..0] == [];
    for i := 0 to |genes|
      invariant NonEmptyNames(TrimmedNonEmpty(genes[..i]))
      invariant genePositions == PositionGroups(TrimmedNonEmpty(genes[..i]), title, abs)
      invariant geneCounts == CountList(TrimmedNonEmpty(genes[..i]), title, abs)
    {
      var gene := Trim(genes[i]);
      if gene != [] {
        GeneLoopAdd(genes, i, title, abs);
        var group, count := GeneEntry(gene, title, abs, abstractText);
        genePositions, geneCounts := genePositions + [group], geneCounts + [count];
      } else {
        GeneLoopSkip(genes, i);
      }
    }
    assert genes[..|genes|] == genes;
  }

  /** What calculateAndAddGenePosField does to the document, or None when a
      read throws SQLException out of it. */
  function GenePosStep(d: DocState, row: Row): Option<DocState> {
    if "gene" !in row then None
    else if IsNullOrBlank(row["gene"]) then Some(d)
    else if "title" !in row then None
    else if "abstract" !in row then Some(d)
    else
      var title := if row["title"].Some? then row["title"].value else "";
      var abs := if row["abstract"].Some? then row["abstract"].value else "";
      var genes := Genes(row["gene"].value);
      if genes == [] then Some(d)
      else
        var d1 := AddValue(d, "gene_pos", AtomicSetList(Strs(PositionGroups(genes, title, abs))));
        Some(AddValue(d1, "gene_count", AtomicSetList(Ints(CountList(genes, title, abs)))))
  }

  /** calculateAndAddGenePosField. A missing `gene` or `title` column throws
      (ok = false, nothing added); a missing `abstract` column is caught and the
      fields are skipped; NULL title or abstract reads as "". */
  method CalculateAndAddGenePosField(doc: SolrDocument, row: Row) returns (ok: bool)
    modifies doc
    ensures ok == GenePosStep(old(doc.State()), row).Some?
    ensures ok ==> doc.State() == GenePosStep(old(doc.State()), row).value
    ensures !ok ==> doc.State() == old(doc.State())
  {
    if "gene" !in row {
      return false;
    }
    var geneValue := row["gene"];
    if geneValue.None? || IsBlank(geneValue.value) {
      return true;
    }
    if "title" !in row {
      return false;
    }
    var titleText := if row["title"].Some? then row["title"].value else "";
    if "abstract" !in row {
      return true;
    }
    var abstractText := if row["abstract"].Some? then row["abstract"].value else "";
    var genePositions, geneCounts := CalculateGenePositions(geneValue.value, titleText, abstractText);
    if genePositions != [] {
      doc.AddField("gene_pos", AtomicSetList(Strs(genePositions)));
    }
    if geneCounts != [] {
      doc.AddField("gene_count", AtomicSetList(Ints(geneCounts)));
    }
    return true;
  }
}

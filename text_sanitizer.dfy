/** FlexibleFieldUpdater.sanitizeText and isTextField: the cleanup applied to
    free-text values before they are sent as atomic updates. */
module TextSanitizer {
  import opened JavaStrings

  /** isTextField: the fields whose values are sanitised. */
  predicate IsTextField(name: string) {
    || name == "authors" || name == "keywords" || name == "mesh_terms"
    || name == "affiliation" || name == "chemicals" || name == "citation"
    || EndsWith(name, "_term")
  }

  /** The chars of the class [\s.,;:]. */
  predicate KeepsQuestionMark(c: char) {
    IsRegexSpace(c) || c == '.' || c == ',' || c == ';' || c == ':'
  }

  /** Java's `$` outside MULTILINE mode matches at the end of the input and also
      just before a line terminator that ends the input. */
  predicate IsFinalLineTerminator(c: char) {
    c == '\n' || c == '\r' || c == '\U{85}' || c == '\U{2028}' || c == '\U{2029}'
  }

  /** The negative lookahead (?![\s.,;:]|$) fails on `rest`, the text after a '?'. */
  predicate LookaheadKeeps(rest: string) {
    || rest == []
    || KeepsQuestionMark(rest[0])
    || (|rest| == 1 && IsFinalLineTerminator(rest[0]))
  }

  /** replaceAll("\\?(?![\\s.,;:]|$)", ""): the scan deletes each '?' whose
      lookahead, evaluated on the text before any deletion, does not keep it. */
  function DropStrayQuestionMarks(s: string): (r: string)
    ensures |r| <= |s|
    decreases |s|
  {
    if s == [] then []
    else if s[0] == '?' && !LookaheadKeeps(s[1..]) then DropStrayQuestionMarks(s[1..])
    else [s[0]] + DropStrayQuestionMarks(s[1..])
  }

  /** The Greek-letter repairs and the &nbsp; entity, the first five replacements. */
  function GreekHead(text: string): string {
    var t1 := Replace(text, "?-macroglobulin", "α-macroglobulin");
    var t2 := Replace(t1, "?-2-macroglobulin", "α-2-macroglobulin");
    var t3 := Replace(t2, "factor-?", "factor-β");
    var t4 := Replace(t3, "TGF-?", "TGF-β");
    Replace(t4, "&nbsp;", " ")
  }

  /** The remaining entities and the typo repair, the last four replacements. */
  function EntityTail(t6: string): string {
    var t7 := Replace(t6, "&lt;", "<");
    var t8 := Replace(t7, "&gt;", ">");
    var t9 := Replace(t8, "&quot;", "\"");
    Replace(t9, "homologyepatocellular", "hepatocellular")
  }

  /** The literal replacements of sanitizeText, in source order. */
  function Substitute(text: string): string {
    EntityTail(Replace(GreekHead(text), "&amp;", "&"))
  }

  /** sanitizeText on a non-null string. */
  function SanitizeText(text: string): string {
    DropStrayQuestionMarks(Substitute(text))
  }

  /** Every '?' left in the text is one the lookahead keeps. */
  ghost predicate NoStrayQuestionMark(s: string) {
    forall i :: 0 <= i < |s| && s[i] == '?' ==> LookaheadKeeps(s[i + 1..])
  }

  lemma DropStraySkipsPlainChar(s: string)
    requires s != [] && s[0] != '?'
    ensures DropStrayQuestionMarks(s) == [s[0]] + DropStrayQuestionMarks(s[1..])
  {
  }

  /** The chars that let a '?' survive are themselves never deleted. */
  lemma DropStrayKeepsLookahead(rest: string)
    requires LookaheadKeeps(rest)
    ensures LookaheadKeeps(DropStrayQuestionMarks(rest))
  {
    if rest != [] {
      assert rest[0] != '?';
      DropStraySkipsPlainChar(rest);
      if |rest| == 1 {
        assert DropStrayQuestionMarks(rest) == [rest[0]];
      }
    }
  }

  lemma {:induction false} DropStrayLeavesNoStray(s: string)
    ensures NoStrayQuestionMark(DropStrayQuestionMarks(s))
    decreases |s|
  {
    if s != [] {
      var tail := DropStrayQuestionMarks(s[1..]);
      DropStrayLeavesNoStray(s[1..]);
      if !(s[0] == '?' && !LookaheadKeeps(s[1..])) {
        var r := [s[0]] + tail;
        forall i | 0 <= i < |r| && r[i] == '?' ensures LookaheadKeeps(r[i + 1..]) {
          if i == 0 {
            assert r[1..] == tail;
            DropStrayKeepsLookahead(s[1..]);
          } else {
            assert r[i + 1..] == tail[i..];
            assert tail[i - 1] == '?';
          }
        }
      }
    }
  }

  /** The last char is never deleted: at the end of the input the lookahead keeps a '?'. */
  lemma {:induction false} DropStrayKeepsLastChar(s: string)
    requires s != []
    ensures DropStrayQuestionMarks(s) != []
    ensures DropStrayQuestionMarks(s)[|DropStrayQuestionMarks(s)| - 1] == s[|s| - 1]
    decreases |s|
  {
    if |s| > 1 {
      DropStrayKeepsLastChar(s[1..]);
    }
  }

  /** After sanitizeText, every '?' is followed by \s, '.', ',', ';', ':', the end
      of the text, or a line terminator that ends the text. */
  lemma SanitizedQuestionMarks(text: string)
    ensures NoStrayQuestionMark(SanitizeText(text))
  {
    DropStrayLeavesNoStray(Substitute(text));
  }

  lemma SubstituteNotLonger(text: string)
    ensures |Substitute(text)| <= |text|
  {
    var t1 := Replace(text, "?-macroglobulin", "α-macroglobulin");
    ReplaceNotLonger(text, "?-macroglobulin", "α-macroglobulin");
    var t2 := Replace(t1, "?-2-macroglobulin", "α-2-macroglobulin");
    ReplaceNotLonger(t1, "?-2-macroglobulin", "α-2-macroglobulin");
    var t3 := Replace(t2, "factor-?", "factor-β");
    ReplaceNotLonger(t2, "factor-?", "factor-β");
    var t4 := Replace(t3, "TGF-?", "TGF-β");
    ReplaceNotLonger(t3, "TGF-?", "TGF-β");
    ReplaceNotLonger(t4, "&nbsp;", " ");
    var t5 := GreekHead(text);
    ReplaceNotLonger(t5, "&amp;", "&");
    var t6 := Replace(t5, "&amp;", "&");
    var t7 := Replace(t6, "&lt;", "<");
    ReplaceNotLonger(t6, "&lt;", "<");
    var t8 := Replace(t7, "&gt;", ">");
    ReplaceNotLonger(t7, "&gt;", ">");
    var t9 := Replace(t8, "&quot;", "\"");
    ReplaceNotLonger(t8, "&quot;", "\"");
    ReplaceNotLonger(t9, "homologyepatocellular", "hepatocellular");
  }

  /** sanitizeText never lengthens a string. */
  lemma SanitizeNotLonger(text: string)
    ensures |SanitizeText(text)| <= |text|
  {
    SubstituteNotLonger(text);
  }

  /** sanitizeText keeps a non-empty string non-empty: every replacement is
      non-empty and the final char survives the '?' scan. */
  lemma SanitizeKeepsNonEmpty(text: string)
    requires text != []
    ensures SanitizeText(text) != []
  {
    var t1 := Replace(text, "?-macroglobulin", "α-macroglobulin");
    ReplaceKeepsNonEmpty(text, "?-macroglobulin", "α-macroglobulin");
    var t2 := Replace(t1, "?-2-macroglobulin", "α-2-macroglobulin");
    ReplaceKeepsNonEmpty(t1, "?-2-macroglobulin", "α-2-macroglobulin");
    var t3 := Replace(t2, "factor-?", "factor-β");
    ReplaceKeepsNonEmpty(t2, "factor-?", "factor-β");
    var t4 := Replace(t3, "TGF-?", "TGF-β");
    ReplaceKeepsNonEmpty(t3, "TGF-?", "TGF-β");
    ReplaceKeepsNonEmpty(t4, "&nbsp;", " ");
    var t5 := GreekHead(text);
    ReplaceKeepsNonEmpty(t5, "&amp;", "&");
    var t6 := Replace(t5, "&amp;", "&");
    var t7 := Replace(t6, "&lt;", "<");
    ReplaceKeepsNonEmpty(t6, "&lt;", "<");
    var t8 := Replace(t7, "&gt;", ">");
    ReplaceKeepsNonEmpty(t7, "&gt;", ">");
    var t9 := Replace(t8, "&quot;", "\"");
    ReplaceKeepsNonEmpty(t8, "&quot;", "\"");
    ReplaceKeepsNonEmpty(t9, "homologyepatocellular", "hepatocellular");
    DropStrayKeepsLastChar(Substitute(text));
  }

  /** Text without '?', '&' and 'y' matches none of the patterns and passes
      through sanitizeText unchanged. */
  lemma PlainTextUnchanged(s: string)
    requires forall i :: 0 <= i < |s| ==> s[i] != '?' && s[i] != '&' && s[i] != 'y'
    ensures Substitute(s) == s
    ensures SanitizeText(s) == s
  {
    ReplaceAbsent(s, "?-macroglobulin", "α-macroglobulin", 0);
    ReplaceAbsent(s, "?-2-macroglobulin", "α-2-macroglobulin", 0);
    ReplaceAbsent(s, "factor-?", "factor-β", 7);
    ReplaceAbsent(s, "TGF-?", "TGF-β", 4);
    ReplaceAbsent(s, "&nbsp;", " ", 0);
    ReplaceAbsent(s, "&amp;", "&", 0);
    ReplaceAbsent(s, "&lt;", "<", 0);
    ReplaceAbsent(s, "&gt;", ">", 0);
    ReplaceAbsent(s, "&quot;", "\"", 0);
    ReplaceAbsent(s, "homologyepatocellular", "hepatocellular", 7);
    NoQuestionMarkUnchanged(s);
  }

  /** The last five substitutions leave a text without '?', 'l', 'g', 'q' and 'y'
      unchanged, whatever '&' it holds. */
  lemma EntityTailUnchanged(u: string)
    requires forall i :: 0 <= i < |u| ==> u[i] != '?' && u[i] != 'l' && u[i] != 'g' && u[i] != 'q' && u[i] != 'y'
    ensures EntityTail(u) == u
  {
    var lt, gt, quot, typo := "&lt;", "&gt;", "&quot;", "homologyepatocellular";
    assert lt[1] == 'l' && gt[1] == 'g' && quot[1] == 'q' && typo[7] == 'y';
    ReplaceAbsent(u, lt, "<", 1);
    ReplaceAbsent(u, gt, ">", 1);
    ReplaceAbsent(u, quot, "\"", 1);
    ReplaceAbsent(u, typo, "hepatocellular", 7);
  }

  /** The first five substitutions leave a text without '?' and 'n' unchanged. */
  lemma GreekHeadUnchanged(s: string)
    requires forall i :: 0 <= i < |s| ==> s[i] != '?' && s[i] != 'n'
    ensures GreekHead(s) == s
  {
    ReplaceAbsent(s, "?-macroglobulin", "α-macroglobulin", 0);
    ReplaceAbsent(s, "?-2-macroglobulin", "α-2-macroglobulin", 0);
    ReplaceAbsent(s, "factor-?", "factor-β", 7);
    ReplaceAbsent(s, "TGF-?", "TGF-β", 4);
    ReplaceAbsent(s, "&nbsp;", " ", 1);
  }

  lemma ReplaceAmpersandStep()
    ensures Replace("a &amp; b", "&amp;", "&") == "a & b"
  {
    var t := "&amp;";
    assert Replace(" b", t, "&") == " b";
    assert Replace("&amp; b", t, "&") == "&" + Replace(" b", t, "&");
    assert Replace(" &amp; b", t, "&") == " " + Replace("&amp; b", t, "&");
    assert Replace("a &amp; b", t, "&") == "a" + Replace(" &amp; b", t, "&");
  }

  /** "a &amp; b" becomes "a & b". */
  lemma SanitizeAmpersandExample()
    ensures SanitizeText("a &amp; b") == "a & b"
  {
    AmpersandExampleEnds();
    ReplaceAmpersandStep();
  }

  lemma AmpersandExampleEnds()
    ensures GreekHead("a &amp; b") == "a &amp; b"
    ensures EntityTail("a & b") == "a & b" && DropStrayQuestionMarks("a & b") == "a & b"
  {
    EntityTailUnchanged("a & b");
    NoQuestionMarkUnchanged("a & b");
    GreekHeadUnchanged("a &amp; b");
  }

  /** "TGF-?" becomes "TGF-β". */
  lemma SanitizeTgfBetaExample()
    ensures SanitizeText("TGF-?") == "TGF-β"
  {
    var s, b := "TGF-?", "TGF-β";
    var alpha1, alpha2, factor := "?-macroglobulin", "?-2-macroglobulin", "factor-?";
    assert alpha1[2] == 'm' && alpha2[2] == '2' && factor[0] == 'f';
    ReplaceAbsent(s, alpha1, "α-macroglobulin", 2);
    ReplaceAbsent(s, alpha2, "α-2-macroglobulin", 2);
    ReplaceAbsent(s, factor, "factor-β", 0);
    assert Replace(s, "TGF-?", b) == b;
    ReplaceAbsent(b, "&nbsp;", " ", 0);
    ReplaceAbsent(b, "&amp;", "&", 0);
    assert GreekHead(s) == b;
    EntityTailUnchanged(b);
    NoQuestionMarkUnchanged(b);
  }

  lemma ReplaceDoubleAmpersandStep()
    ensures Replace("&amp;amp;", "&amp;", "&") == "&amp;"
    ensures Replace("&amp;", "&amp;", "&") == "&"
  {
    ReplaceAbsent("amp;", "&amp;", "&", 0);
    assert Replace("&amp;amp;", "&amp;", "&") == "&" + Replace("amp;", "&amp;", "&");
    assert Replace("&amp;", "&amp;", "&") == "&" + Replace([], "&amp;", "&");
  }

  lemma {:induction false} NoQuestionMarkUnchanged(s: string)
    requires forall i :: 0 <= i < |s| ==> s[i] != '?'
    ensures DropStrayQuestionMarks(s) == s
    decreases |s|
  {
    if s != [] {
      NoQuestionMarkUnchanged(s[1..]);
    }
  }

  /** One pass over "&amp;amp;" leaves "&amp;". */
  lemma SanitizeDoubleEntity()
    ensures SanitizeText("&amp;amp;") == "&amp;"
  {
    GreekHeadUnchanged("&amp;amp;");
    ReplaceDoubleAmpersandStep();
    EntityTailUnchanged("&amp;");
    NoQuestionMarkUnchanged("&amp;");
  }

  /** One pass over "&amp;" leaves "&". */
  lemma SanitizeSingleEntity()
    ensures SanitizeText("&amp;") == "&"
  {
    GreekHeadUnchanged("&amp;");
    ReplaceDoubleAmpersandStep();
    EntityTailUnchanged("&");
    NoQuestionMarkUnchanged("&");
  }

  /** sanitizeText is not idempotent: one pass turns "&amp;amp;" into "&amp;", a
      second pass turns that into "&". */
  lemma SanitizeNotIdempotent()
    ensures SanitizeText(SanitizeText("&amp;amp;")) != SanitizeText("&amp;amp;")
  {
    SanitizeDoubleEntity();
    SanitizeSingleEntity();
  }

  /** A '?' followed by another deletable '?' is deleted too: "a??b" loses both. */
  lemma DoubleQuestionMarkDropped()
    ensures DropStrayQuestionMarks("a??b") == "ab"
  {
    var s := "a??b";
    assert s[1..] == "??b" && s[1..][1..] == "?b" && s[1..][1..][1..] == "b";
    assert DropStrayQuestionMarks("b") == "b";
    assert DropStrayQuestionMarks("?b") == "b";
    assert DropStrayQuestionMarks("??b") == "b";
  }
}

/** documentToJson of SimplePostgresToSolr and SingleRecordUpdater (the two
    methods are the same text): the debug rendering of a full document, with
    every value quoted and escaped by a chain of String.replace calls. */
module JsonDebug {
  import opened JavaStrings
  import opened SolrModel
  import opened FullDocument

  // ------------------------------------------------------------------
  // The escape chain

  /** The replace chain, backslash first, then quote, newline, CR and tab. */
  function Escape(s: string): string {
    Replace(Replace(Replace(Replace(Replace(s, "\\", "\\\\"), "\"", "\\\""), "\n", "\\n"), "\r", "\\r"), "\t", "\\t")
  }

  /** The characters the chain rewrites. */
  predicate IsSpecial(c: char) {
    c == '\\' || c == '"' || c == '\n' || c == '\r' || c == '\t'
  }

  /** What one character becomes in the output. */
  function EscapeChar(c: char): (r: string)
    ensures IsSpecial(c) <==> |r| == 2
    ensures IsSpecial(c) ==> r[0] == '\\'
  {
    if c == '\\' then "\\\\"
    else if c == '"' then "\\\""
    else if c == '\n' then "\\n"
    else if c == '\r' then "\\r"
    else if c == '\t' then "\\t"
    else [c]
  }

  /** The reference escape: each character on its own. */
  function EscapeSpec(s: string): string
    decreases |s|
  {
    if s == [] then [] else EscapeChar(s[0]) + EscapeSpec(s[1..])
  }

  /** s.replace(c, r) for a one-character target, character by character. */
  function ReplaceChar(s: string, c: char, r: string): string
    decreases |s|
  {
    if s == [] then [] else (if s[0] == c then r else [s[0]]) + ReplaceChar(s[1..], c, r)
  }

  /** Replacing a one-character target is a map over the characters. */
  lemma {:induction false} ReplaceOneChar(s: string, c: char, r: string)
    ensures Replace(s, [c], r) == ReplaceChar(s, c, r)
    decreases |s|
  {
    if s != [] {
      ReplaceOneChar(s[1..], c, r);
      if s[0] == c {
        assert s[..1] == [c];
      } else {
        assert s[..1][0] != c;
      }
    }
  }

  lemma {:induction false} ReplaceCharConcat(a: string, b: string, c: char, r: string)
    ensures ReplaceChar(a + b, c, r) == ReplaceChar(a, c, r) + ReplaceChar(b, c, r)
    decreases |a|
  {
    if a == [] {
      assert a + b == b;
    } else {
      assert (a + b)[1..] == a[1..] + b;
      ReplaceCharConcat(a[1..], b, c, r);
    }
  }

  /** The Java chain, written on single characters. */
  function Chain(s: string): string {
    ReplaceChar(ReplaceChar(ReplaceChar(ReplaceChar(ReplaceChar(s, '\\', "\\\\"), '"', "\\\""), '\n', "\\n"), '\r', "\\r"), '\t', "\\t")
  }

  lemma EscapeIsChain(s: string)
    ensures Escape(s) == Chain(s)
  {
    var s1 := Replace(s, "\\", "\\\\");
    ReplaceOneChar(s, '\\', "\\\\");
    var s2 := Replace(s1, "\"", "\\\"");
    ReplaceOneChar(s1, '"', "\\\"");
    var s3 := Replace(s2, "\n", "\\n");
    ReplaceOneChar(s2, '\n', "\\n");
    var s4 := Replace(s3, "\r", "\\r");
    ReplaceOneChar(s3, '\r', "\\r");
    ReplaceOneChar(s4, '\t', "\\t");
  }

  lemma ChainConcat(a: string, b: string)
    ensures Chain(a + b) == Chain(a) + Chain(b)
  {
    var a1, b1 := ReplaceChar(a, '\\', "\\\\"), ReplaceChar(b, '\\', "\\\\");
    ReplaceCharConcat(a, b, '\\', "\\\\");
    var a2, b2 := ReplaceChar(a1, '"', "\\\""), ReplaceChar(b1, '"', "\\\"");
    ReplaceCharConcat(a1, b1, '"', "\\\"");
    var a3, b3 := ReplaceChar(a2, '\n', "\\n"), ReplaceChar(b2, '\n', "\\n");
    ReplaceCharConcat(a2, b2, '\n', "\\n");
    var a4, b4 := ReplaceChar(a3, '\r', "\\r"), ReplaceChar(b3, '\r', "\\r");
    ReplaceCharConcat(a3, b3, '\r', "\\r");
    ReplaceCharConcat(a4, b4, '\t', "\\t");
  }

  /** A replacement whose target is in neither character leaves a pair alone. */
  lemma ReplaceCharPair(x: char, y: char, c: char, r: string)
    requires x != c && y != c
    ensures ReplaceChar([x, y], c, r) == [x, y]
  {
    assert [x, y][0] == x && [x, y][1..] == [y];
    assert ReplaceChar([y], c, r) == [y] + ReplaceChar([], c, r);
  }

  lemma ReplaceCharSingle(x: char, c: char, r: string)
    ensures ReplaceChar([x], c, r) == if x == c then r else [x]
  {
  }

  /** Each step of the chain leaves the output of the earlier steps alone:
      no replacement text holds a later target. */
  lemma ChainChar(x: char)
    ensures Chain([x]) == EscapeChar(x)
  {
    if x == '\\' {
      ReplaceCharSingle(x, '\\', "\\\\");
      ReplaceCharPair('\\', '\\', '"', "\\\"");
      ReplaceCharPair('\\', '\\', '\n', "\\n");
      ReplaceCharPair('\\', '\\', '\r', "\\r");
      ReplaceCharPair('\\', '\\', '\t', "\\t");
    } else if x == '"' {
      ReplaceCharSingle(x, '\\', "\\\\");
      ReplaceCharSingle(x, '"', "\\\"");
      ReplaceCharPair('\\', '"', '\n', "\\n");
      ReplaceCharPair('\\', '"', '\r', "\\r");
      ReplaceCharPair('\\', '"', '\t', "\\t");
    } else if x == '\n' {
      ReplaceCharSingle(x, '\\', "\\\\");
      ReplaceCharSingle(x, '"', "\\\"");
      ReplaceCharSingle(x, '\n', "\\n");
      ReplaceCharPair('\\', 'n', '\r', "\\r");
      ReplaceCharPair('\\', 'n', '\t', "\\t");
    } else if x == '\r' {
      ReplaceCharSingle(x, '\\', "\\\\");
      ReplaceCharSingle(x, '"', "\\\"");
      ReplaceCharSingle(x, '\n', "\\n");
      ReplaceCharSingle(x, '\r', "\\r");
      ReplaceCharPair('\\', 'r', '\t', "\\t");
    } else if x == '\t' {
      ReplaceCharSingle(x, '\\', "\\\\");
      ReplaceCharSingle(x, '"', "\\\"");
      ReplaceCharSingle(x, '\n', "\\n");
      ReplaceCharSingle(x, '\r', "\\r");
      ReplaceCharSingle(x, '\t', "\\t");
    } else {
      ReplaceCharSingle(x, '\\', "\\\\");
      ReplaceCharSingle(x, '"', "\\\"");
      ReplaceCharSingle(x, '\n', "\\n");
      ReplaceCharSingle(x, '\r', "\\r");
      ReplaceCharSingle(x, '\t', "\\t");
    }
  }

  lemma {:induction false} ChainIsSpec(s: string)
    ensures Chain(s) == EscapeSpec(s)
    decreases |s|
  {
    if s == [] {
    } else {
      assert s == [s[0]] + s[1..];
      ChainConcat([s[0]], s[1..]);
      ChainChar(s[0]);
      ChainIsSpec(s[1..]);
    }
  }

  /** Because the backslash goes first, the chain escapes every character on
      its own: no later step touches what an earlier one wrote. */
  lemma EscapeIsSpec(s: string)
    ensures Escape(s) == EscapeSpec(s)
  {
    EscapeIsChain(s);
    ChainIsSpec(s);
  }

  /** With the backslash step last, a quote would come out with its backslash
      doubled, which reads back as a backslash and an unescaped quote. */
  function EscapeBackslashLast(s: string): string {
    Replace(Replace(Replace(Replace(Replace(s, "\"", "\\\""), "\n", "\\n"), "\r", "\\r"), "\t", "\\t"), "\\", "\\\\")
  }

  lemma BackslashOrderMatters()
    ensures Escape("\"") == "\\\"" && EscapeBackslashLast("\"") == "\\\\\""
  {
    EscapeIsSpec("\"");
    assert EscapeSpec("\"") == EscapeChar('"') + EscapeSpec([]);
    var s1 := Replace("\"", "\"", "\\\"");
    ReplaceOneChar("\"", '"', "\\\"");
    assert s1 == "\\\"";
    ReplaceOneChar(s1, '\n', "\\n");
    ReplaceCharPair('\\', '"', '\n', "\\n");
    ReplaceOneChar(s1, '\r', "\\r");
    ReplaceCharPair('\\', '"', '\r', "\\r");
    ReplaceOneChar(s1, '\t', "\\t");
    ReplaceCharPair('\\', '"', '\t', "\\t");
    ReplaceOneChar(s1, '\\', "\\\\");
    assert s1[1..] == ['"'];
  }

  // ------------------------------------------------------------------
  // Reading it back

  /** The character an escape `\e` stands for. */
  function Unescaped(e: char): Option<char> {
    if e == '\\' then Some('\\')
    else if e == '"' then Some('"')
    else if e == 'n' then Some('\n')
    else if e == 'r' then Some('\r')
    else if e == 't' then Some('\t')
    else None
  }

  /** The characters that may not appear raw in escaped text. */
  predicate IsRaw(c: char) {
    c == '"' || c == '\n' || c == '\r' || c == '\t'
  }

  /** A decoder for escaped text: None for a raw quote or control character,
      a lone backslash, or an unknown escape. */
  function Unescape(t: string): Option<string>
    decreases |t|
  {
    if t == [] then Some([])
    else if t[0] == '\\' then
      if |t| < 2 || Unescaped(t[1]).None? then None
      else
        match Unescape(t[2..])
        case None => None
        case Some(rest) => Some([Unescaped(t[1]).value] + rest)
    else if IsRaw(t[0]) then None
    else
      match Unescape(t[1..])
      case None => None
      case Some(rest) => Some([t[0]] + rest)
  }

  lemma UnescapeStep(c: char, t: string)
    ensures Unescape(EscapeChar(c) + t) ==
      match Unescape(t)
      case None => None
      case Some(rest) => Some([c] + rest)
  {
    var e := EscapeChar(c) + t;
    if IsSpecial(c) {
      assert e[2..] == t;
    } else {
      assert e[1..] == t;
    }
  }

  /** Decoding gives back what was escaped. */
  lemma {:induction false} UnescapeEscapeSpec(s: string)
    ensures Unescape(EscapeSpec(s)) == Some(s)
    decreases |s|
  {
    if s != [] {
      UnescapeEscapeSpec(s[1..]);
      UnescapeStep(s[0], EscapeSpec(s[1..]));
      assert [s[0]] + s[1..] == s;
    }
  }

  lemma UnescapeEscape(s: string)
    ensures Unescape(Escape(s)) == Some(s)
  {
    EscapeIsSpec(s);
    UnescapeEscapeSpec(s);
  }

  /** Two strings that escape alike are equal. */
  lemma EscapeInjective(a: string, b: string)
    requires Escape(a) == Escape(b)
    ensures a == b
  {
    UnescapeEscape(a);
    UnescapeEscape(b);
  }

  /** No raw newline, CR or tab. */
  predicate NoRawControls(t: string) {
    forall i :: 0 <= i < |t| ==> t[i] != '\n' && t[i] != '\r' && t[i] != '\t'
  }

  /** Every quote sits right after a backslash. */
  predicate QuotesEscaped(t: string) {
    forall i :: 0 <= i < |t| && t[i] == '"' ==> i > 0 && t[i - 1] == '\\'
  }

  /** Text the decoder accepts has no raw control character, and every quote
      in it is escaped. */
  lemma {:induction false} DecodableIsSafe(t: string)
    requires Unescape(t).Some?
    ensures NoRawControls(t) && QuotesEscaped(t)
    decreases |t|
  {
    if t != [] {
      if t[0] == '\\' {
        var rest := t[2..];
        DecodableIsSafe(rest);
        forall i | 2 <= i < |t| ensures t[i] == rest[i - 2] { }
      } else {
        var rest := t[1..];
        DecodableIsSafe(rest);
        forall i | 1 <= i < |t| ensures t[i] == rest[i - 1] { }
      }
    }
  }

  /** What the escape chain writes has no raw newline, CR or tab, and every
      quote in it is preceded by a backslash. */
  lemma EscapeIsSafe(s: string)
    ensures NoRawControls(Escape(s)) && QuotesEscaped(Escape(s))
  {
    UnescapeEscape(s);
    DecodableIsSafe(Escape(s));
  }

  lemma {:induction false} EscapeSpecOfPlain(s: string)
    requires forall i :: 0 <= i < |s| ==> !IsSpecial(s[i])
    ensures EscapeSpec(s) == s
    decreases |s|
  {
    if s != [] {
      EscapeSpecOfPlain(s[1..]);
      assert [s[0]] + s[1..] == s;
    }
  }

  /** Integer.toString writes digits and a minus sign, which need no escape. */
  lemma EscapeIntText(i: int)
    ensures Escape(IntToString(i)) == IntToString(i)
  {
    var s := IntToString(i);
    if i < 0 {
      var n := NatToString(-i);
      forall k | 0 <= k < |s| ensures !IsSpecial(s[k]) {
        if k > 0 {
          assert s[k] == n[k - 1];
        }
      }
    } else {
      forall k | 0 <= k < |s| ensures !IsSpecial(s[k]) {
        assert IsDigit(s[k]);
      }
    }
    EscapeIsSpec(s);
    EscapeSpecOfPlain(s);
  }

  // ------------------------------------------------------------------
  // The document

  /** The values a full document holds: strings and integers. */
  predicate IsPlain(v: Value) {
    v.Str? || v.Int?
  }

  /** val.toString() of a plain value. */
  function ValueText(v: Value): string
    requires IsPlain(v)
  {
    if v.Str? then v.s else IntToString(v.i)
  }

  function Quoted(s: string): string {
    "\"" + s + "\""
  }

  /** The single-value branch: a String is escaped, anything else is written
      as its toString; both are quoted. */
  function SingleJson(v: Value): string
    requires IsPlain(v)
  {
    if v.Str? then Quoted(Escape(v.s)) else Quoted(IntToString(v.i))
  }

  /** The elements of the multi-value branch. */
  function ArrayElements(vs: seq<Value>): (r: seq<string>)
    requires forall k :: 0 <= k < |vs| ==> IsPlain(vs[k])
    ensures |r| == |vs|
  {
    seq(|vs|, k requires 0 <= k < |vs| && IsPlain(vs[k]) => Quoted(Escape(ValueText(vs[k]))))
  }

  /** One field: its quoted name, then an array when it holds more than one
      value and the single value otherwise. */
  function FieldJson(name: string, vs: seq<Value>): string
    requires vs != [] && forall k :: 0 <= k < |vs| ==> IsPlain(vs[k])
  {
    "  \"" + name + "\": " + (if |vs| > 1 then "[" + Join(", ", ArrayElements(vs)) + "]" else SingleJson(vs[0]))
  }

  /** A well-formed document holding only strings and integers. */
  ghost predicate PlainDoc(d: DocState) {
    && WellFormed(d)
    && forall n, k :: 0 <= k < |Values(d, n)| ==> IsPlain(Values(d, n)[k])
  }

  function FieldJsons(d: DocState): (r: seq<string>)
    requires PlainDoc(d)
    ensures |r| == |d.names|
  {
    seq(|d.names|, i requires 0 <= i < |d.names| && PlainDoc(d) =>
      FieldJson(d.names[i], Values(d, d.names[i])))
  }

  /** The whole rendering: the fields in insertion order, one per line,
      between braces. */
  function DocumentJson(d: DocState): string
    requires PlainDoc(d)
  {
    "{\n" + Join(",\n", FieldJsons(d)) + "\n}"
  }

  /** Both branches write every value the same way, quoted and escaped, so
      each value reads back from its rendering. */
  lemma FieldJsonUniform(name: string, vs: seq<Value>)
    requires vs != [] && forall k :: 0 <= k < |vs| ==> IsPlain(vs[k])
    ensures |vs| == 1 ==> FieldJson(name, vs) == "  \"" + name + "\": " + Quoted(Escape(ValueText(vs[0])))
    ensures forall k :: 0 <= k < |vs| ==> Unescape(Escape(ValueText(vs[k]))) == Some(ValueText(vs[k]))
  {
    if vs[0].Int? {
      EscapeIntText(vs[0].i);
    }
    forall k | 0 <= k < |vs| ensures Unescape(Escape(ValueText(vs[k]))) == Some(ValueText(vs[k])) {
      UnescapeEscape(ValueText(vs[k]));
    }
  }

  /** Every document createSolrDocument builds can be rendered. */
  lemma FullIsPlain(row: Row)
    requires Full(row).Some?
    ensures PlainDoc(Full(row).value)
  {
    FullValuesOf(row, "pmid");
    forall n ensures forall k :: 0 <= k < |Values(Full(row).value, n)| ==> IsPlain(Values(Full(row).value, n)[k]) {
      FullNamePlain(row, n);
    }
  }

  lemma FullNamePlain(row: Row, n: string)
    requires Full(row).Some?
    ensures forall k :: 0 <= k < |Values(Full(row).value, n)| ==> IsPlain(Values(Full(row).value, n)[k])
  {
    var vs := Values(Full(row).value, n);
    var fixed := FixedValues(row, n);
    var listed := ListValues(row, FieldList, n);
    var source: seq<Value> := if n == "p_source" then [Str("pubmed")] else [];
    FullValuesOf(row, n);
    assert vs == fixed + listed + source;
    ListValuesPlain(row, FieldList, n);
    FixedValuesPlain(row, n);
    forall k | 0 <= k < |vs| ensures IsPlain(vs[k]) {
      if k < |fixed| {
        assert vs[k] == fixed[k];
      } else if k < |fixed| + |listed| {
        assert vs[k] == listed[k - |fixed|];
      } else {
        assert vs[k] == source[k - |fixed| - |listed|];
      }
    }
  }

  lemma FixedValuesPlain(row: Row, n: string)
    requires "pmid" in row && "title" in row && "p_date" in row
    ensures forall k :: 0 <= k < |FixedValues(row, n)| ==> FixedValues(row, n)[k].Str?
  {
  }

  lemma {:induction false} ListValuesPlain(row: Row, names: seq<string>, n: string)
    ensures forall k :: 0 <= k < |ListValues(row, names, n)| ==> IsPlain(ListValues(row, names, n)[k])
    decreases |names|
  {
    if names != [] {
      ListValuesPlain(row, names[..|names| - 1], n);
    }
  }

  // ------------------------------------------------------------------
  // The StringBuilder loops

  lemma ArrayElementsSnoc(values: seq<Value>, j: nat)
    requires j < |values| && forall k :: 0 <= k < |values| ==> IsPlain(values[k])
    ensures ArrayElements(values[..j + 1]) == ArrayElements(values[..j]) + [Quoted(Escape(ValueText(values[j])))]
  {
  }

  /** The multi-value branch: "[", the quoted values joined by ", ", "]". */
  method ArrayToJson(values: seq<Value>) returns (json: string)
    requires forall k :: 0 <= k < |values| ==> IsPlain(values[k])
    ensures json == "[" + Join(", ", ArrayElements(values)) + "]"
  {
    var items := "";
    for j := 0 to |values|
      invariant items == Join(", ", ArrayElements(values[..j]))
    {
      var escaped := Escape(ValueText(values[j]));
      var quoted := "\"" + escaped + "\"";
      assert quoted == Quoted(escaped);
      ArrayElementsSnoc(values, j);
      if j > 0 {
        JoinSnoc(", ", ArrayElements(values[..j]), quoted);
        items := items + ", " + quoted;
      } else {
        items := quoted;
      }
    }
    assert values[..|values|] == values;
    json := "[" + items + "]";
  }

  /** One field of documentToJson. */
  method FieldToJson(name: string, values: seq<Value>) returns (json: string)
    requires values != [] && forall k :: 0 <= k < |values| ==> IsPlain(values[k])
    ensures json == FieldJson(name, values)
  {
    var rendered;
    if |values| > 1 {
      rendered := ArrayToJson(values);
    } else {
      var value := values[0];
      if value.Str? {
        rendered := "\"" + Escape(value.s) + "\"";
      } else {
        rendered := "\"" + IntToString(value.i) + "\"";
      }
      assert rendered == SingleJson(values[0]);
    }
    json := "  \"" + name + "\": " + rendered;
  }

  /** documentToJson: the fields in insertion order, separated by ",\n". */
  method DocumentToJson(doc: SolrDocument) returns (json: string)
    requires PlainDoc(doc.State())
    ensures json == DocumentJson(doc.State())
  {
    ghost var d := doc.State();
    var body := "";
    for i := 0 to |doc.names|
      invariant body == Join(",\n", FieldJsons(d)[..i])
    {
      var name := doc.names[i];
      assert name in doc.fields;
      var values := doc.fields[name];
      assert values == Values(d, name) && values != [];
      var field := FieldToJson(name, values);
      assert field == FieldJsons(d)[i];
      TakeSnoc(FieldJsons(d), i);
      if i > 0 {
        JoinSnoc(",\n", FieldJsons(d)[..i], field);
        body := body + ",\n";
      }
      body := body + field;
    }
    assert FieldJsons(d)[..|doc.names|] == FieldJsons(d);
    json := "{\n" + body + "\n}";
  }
}

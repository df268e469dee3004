/** The column-value codecs shared by the partial (atomic-update) path and the
    full-document path: how a " | "-separated column becomes a list of
    integers or of tokens, and which field names are multi-valued. */
module FieldCodecs {
  import opened JavaStrings

  /** The multi-valued fields: names ending in _id, _term or _pos, and gene. */
  predicate IsMultiValued(name: string) {
    EndsWith(name, "_id") || EndsWith(name, "_term") || EndsWith(name, "_pos") || name == "gene"
  }

  /** The count loop body: each trimmed non-empty piece that Integer.parseInt
      reads is kept, in order; a NumberFormatException skips the piece. */
  function ParsedInts(pieces: seq<string>): (r: seq<int>)
    ensures |r| <= |pieces|
    ensures forall i :: 0 <= i < |r| ==> InInt32(r[i])
    decreases |pieces|
  {
    if pieces == [] then []
    else
      var front := ParsedInts(pieces[..|pieces| - 1]);
      var p := Trim(pieces[|pieces| - 1]);
      if p != [] && ParseInt(p).Some? then front + [ParseInt(p).value] else front
  }

  /** The integers of a count column: none for a NULL or blank value. */
  function CountTokens(value: Option<string>): seq<int> {
    if IsNullOrBlank(value) then [] else ParsedInts(Split(value.value, Bar))
  }

  /** The tokens of a multi-valued column: none for a NULL or blank value. */
  function MultiTokens(value: Option<string>): seq<string> {
    if IsNullOrBlank(value) then [] else TrimmedNonEmpty(Split(value.value, Bar))
  }

  /** Integer.toString of every element. */
  function IntStrings(xs: seq<int>): (r: seq<string>)
    ensures |r| == |xs| && forall i :: 0 <= i < |xs| ==> r[i] == IntToString(xs[i])
  {
    seq(|xs|, i requires 0 <= i < |xs| => IntToString(xs[i]))
  }

  /** A token that survives the split-and-trim loop unchanged. */
  ghost predicate IsToken(t: string) {
    t != [] && Trim(t) == t && Separable(t, Bar)
  }

  // ------------------------------------------------------------------
  // Round trips

  /** Integer.parseInt reads back every rendered 32-bit integer, so none is dropped. */
  lemma {:induction false} ParsedIntsOfRendered(xs: seq<int>)
    requires forall i :: 0 <= i < |xs| ==> InInt32(xs[i])
    ensures ParsedInts(IntStrings(xs)) == xs
    decreases |xs|
  {
    if xs != [] {
      var n := |xs|;
      var strs := IntStrings(xs);
      var last := xs[n - 1];
      assert strs[..n - 1] == IntStrings(xs[..n - 1]);
      ParsedIntsOfRendered(xs[..n - 1]);
      assert strs[n - 1] == IntToString(last);
      RenderedPieceParses(last);
      ParsedIntsSnoc(strs[..n - 1], IntToString(last));
      LastSplit(strs);
      LastSplit(xs);
    }
  }

  lemma RenderedPieceParses(x: int)
    requires InInt32(x)
    ensures Trim(IntToString(x)) != [] && ParseInt(Trim(IntToString(x))) == Some(x)
  {
    IntToStringIsTrimmed(x);
    ParseIntToString(x);
  }

  /** One step of the count loop. */
  lemma ParsedIntsSnoc(front: seq<string>, piece: string)
    ensures ParsedInts(front + [piece]) ==
      var p := Trim(piece);
      if p != [] && ParseInt(p).Some? then ParsedInts(front) + [ParseInt(p).value] else ParsedInts(front)
  {
    assert (front + [piece])[..|front|] == front;
  }

  lemma RenderedAreTokens(xs: seq<int>)
    ensures forall i :: 0 <= i < |xs| ==> IsToken(IntStrings(xs)[i])
  {
    forall i | 0 <= i < |xs| ensures IsToken(IntStrings(xs)[i]) {
      var s := IntToString(xs[i]);
      IntToStringIsTrimmed(xs[i]);
      IntToStringHasNoBar(xs[i]);
      NoBarSeparable(s);
      assert s != [] by { assert IsTrimmable(' '); }
    }
  }

  /** Writing counts as Integer.toString joined by " | " and reading them back
      gives the same counts. */
  lemma CountTokensOfJoin(xs: seq<int>)
    requires xs != [] && forall i :: 0 <= i < |xs| ==> InInt32(xs[i])
    ensures CountTokens(Some(Join(Bar, IntStrings(xs)))) == xs
  {
    RenderedAreTokens(xs);
    CountTokensOfTokens(IntStrings(xs));
    ParsedIntsOfRendered(xs);
  }

  /** Tokens joined by " | " are read back by the count loop as they are. */
  lemma CountTokensOfTokens(toks: seq<string>)
    requires toks != [] && forall i :: 0 <= i < |toks| ==> IsToken(toks[i])
    ensures CountTokens(Some(Join(Bar, toks))) == ParsedInts(toks)
  {
    assert IsToken(toks[0]);
    JoinNotBlank(Bar, toks);
    SplitOfJoin(toks, Bar);
  }

  /** Joining tokens with " | " and reading the column back gives the tokens. */
  lemma MultiTokensOfJoin(toks: seq<string>)
    requires toks != [] && forall i :: 0 <= i < |toks| ==> IsToken(toks[i])
    ensures MultiTokens(Some(Join(Bar, toks))) == toks
  {
    assert IsToken(toks[0]);
    JoinNotBlank(Bar, toks);
    SplitOfJoin(toks, Bar);
    TrimmedNonEmptyOfTrimmed(toks);
  }

  /** A value without " | " is one token once trimmed. */
  lemma MultiTokensOfSingle(t: string)
    requires IsToken(t)
    ensures MultiTokens(Some(t)) == [t]
  {
    MultiTokensOfJoin([t]);
  }

  // ------------------------------------------------------------------
  // The loops

  /** The count loop over the split pieces. */
  method ParseCounts(values: seq<string>) returns (counts: seq<int>)
    ensures counts == ParsedInts(values)
  {
    counts := [];
    for i := 0 to |values|
      invariant counts == ParsedInts(values[..i])
    {
      assert values[..i + 1][..i] == values[..i];
      var val := Trim(values[i]);
      if val != [] {
        var parsed := ParseInt(val);
        if parsed.Some? {
          counts := counts + [parsed.value];
        }
      }
    }
    assert values[..|values|] == values;
  }

  /** The split-trim-keep loop over the split pieces. */
  method CollectTokens(values: seq<string>) returns (tokens: seq<string>)
    ensures tokens == TrimmedNonEmpty(values)
  {
    tokens := [];
    for i := 0 to |values|
      invariant tokens == TrimmedNonEmpty(values[..i])
    {
      assert values[..i + 1][..i] == values[..i];
      var val := Trim(values[i]);
      if val != [] {
        tokens := tokens + [val];
      }
    }
    assert values[..|values|] == values;
  }
}

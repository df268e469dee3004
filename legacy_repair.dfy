/** FlexibleFieldUpdater.addGenePosField: rebuilds the per-gene position groups
    of a gene_pos value stored without its " | " delimiters, using the
    parallel gene_count list and a single cursor over the "|"-separated tokens.
    The method is private and no caller reaches it (a requested gene_pos goes
    to the position calculator instead); it is modelled on its own. */
module LegacyRepair {
  import opened JavaStrings
  import opened SolrModel

  function Min(a: int, b: int): int { if a <= b then a else b }

  /** How many tokens a parsed count takes from `cursor`: the count, but none
      for a count below one and never past the last of `n` tokens. */
  function Take(k: int, cursor: nat, n: nat): (t: nat)
    requires cursor <= n
    ensures cursor + t <= n
  {
    if k <= 0 then 0 else Min(k, n - cursor)
  }

  /** The groups built so far and where the cursor stopped. */
  datatype Walk = Walk(groups: seq<string>, cursor: nat)

  /** Integer.parseInt of every trimmed gene_count piece; None where it throws. */
  function ParsedCounts(pieces: seq<string>): (r: seq<Option<int>>)
    ensures |r| == |pieces| && forall i :: 0 <= i < |pieces| ==> r[i] == ParseInt(Trim(pieces[i]))
  {
    seq(|pieces|, i requires 0 <= i < |pieces| => ParseInt(Trim(pieces[i])))
  }

  /** The count-driven loop over the parsed gene_count pieces, from `cursor`: a
      count takes its tokens and joins them with "|", an empty join is dropped,
      and a piece that did not parse is skipped without moving the cursor. */
  function CountGroups(counts: seq<Option<int>>, toks: seq<string>, cursor: nat): (w: Walk)
    requires cursor <= |toks|
    ensures cursor <= w.cursor <= |toks|
    decreases |counts|
  {
    if counts == [] then Walk([], cursor)
    else
      match counts[0]
      case None => CountGroups(counts[1..], toks, cursor)
      case Some(k) =>
        var t := Take(k, cursor, |toks|);
        var g := Join("|", toks[cursor..cursor + t]);
        var w := CountGroups(counts[1..], toks, cursor + t);
        Walk(if g == [] then w.groups else [g] + w.groups, w.cursor)
  }

  /** The tokens the counts did not consume, as one last group. */
  function Remainder(toks: seq<string>, cursor: nat): seq<string>
    requires cursor <= |toks|
  {
    if cursor < |toks| && Join("|", toks[cursor..]) != [] then [Join("|", toks[cursor..])] else []
  }

  /** The groups rebuilt from the "|"-tokens and the parsed gene_count pieces. */
  function Rebuilt(toks: seq<string>, counts: seq<Option<int>>): seq<string> {
    var w := CountGroups(counts, toks, 0);
    w.groups + Remainder(toks, w.cursor)
  }

  /** The groups rebuilt from a delimiter-less gene_pos value and a gene_count value. */
  function CountDriven(genePos: string, geneCount: string): seq<string> {
    Rebuilt(Split(genePos, "|"), ParsedCounts(Split(geneCount, Bar)))
  }

  /** The gene_pos list addGenePosField adds, or None when it adds no field. */
  function RepairGenePos(genePos: Option<string>, geneCount: Option<string>): (r: Option<seq<string>>)
    ensures IsNullOrBlank(genePos) ==> r.None?
    ensures r.Some? ==> r.value != []
  {
    if IsNullOrBlank(genePos) then None
    else
      var v := genePos.value;
      var posSplit := Split(v, Bar);
      if |posSplit| > 1 then
        var positions := TrimmedNonEmpty(posSplit);
        if positions == [] then None else Some(positions)
      else if IsNullOrBlank(geneCount) then Some([v])
      else
        var positions := CountDriven(v, geneCount.value);
        if positions == [] then None else Some(positions)
  }

  // ------------------------------------------------------------------
  // Properties of the count-driven case

  lemma JoinOfNonEmptyRun(run: seq<string>)
    requires run != [] && run[0] != []
    ensures Join("|", run) != []
  {
    if |run| > 1 {
      assert Join("|", run) == run[0] + "|" + Join("|", run[1..]);
    }
  }

  /** No group is empty, and there is no group exactly when the cursor did
      not move. */
  lemma {:induction false} CountGroupsShape(counts: seq<Option<int>>, toks: seq<string>, cursor: nat)
    requires cursor <= |toks|
    requires forall i :: 0 <= i < |toks| ==> toks[i] != []
    ensures CountGroups(counts, toks, cursor).groups == [] <==> CountGroups(counts, toks, cursor).cursor == cursor
    ensures forall i :: 0 <= i < |CountGroups(counts, toks, cursor).groups| ==>
      CountGroups(counts, toks, cursor).groups[i] != []
    decreases |counts|
  {
    if counts != [] {
      var parsed := counts[0];
      if parsed.None? {
        CountGroupsShape(counts[1..], toks, cursor);
      } else {
        var t := Take(parsed.value, cursor, |toks|);
        var run := toks[cursor..cursor + t];
        CountGroupsShape(counts[1..], toks, cursor + t);
        var w := CountGroups(counts[1..], toks, cursor + t);
        if t == 0 {
          assert run == [];
          assert CountGroups(counts, toks, cursor) == w;
        } else {
          assert run[0] == toks[cursor];
          JoinOfNonEmptyRun(run);
          assert CountGroups(counts, toks, cursor) == Walk([Join("|", run)] + w.groups, w.cursor);
        }
      }
    }
  }

  /** Each group joins a run of consecutive tokens; together the groups join
      exactly the tokens between the two cursors, and there is no group
      exactly when the cursor did not move. */
  /** A non-empty run followed by groups that join the next tokens joins all
      of them. */
  lemma JoinedStep(toks: seq<string>, cursor: nat, next: nat, groups: seq<string>, end: nat)
    requires cursor < next <= end <= |toks|
    requires groups == [] <==> end == next
    requires Join("|", groups) == Join("|", toks[next..end])
    ensures Join("|", [Join("|", toks[cursor..next])] + groups) == Join("|", toks[cursor..end])
  {
    var run := toks[cursor..next];
    if groups != [] {
      var rest := toks[next..end];
      SliceSplit(toks, cursor, next, end);
      JoinAppend("|", [Join("|", run)], groups);
      JoinAppend("|", run, rest);
    } else {
      assert toks[cursor..end] == run;
      assert [Join("|", run)] + groups == [Join("|", run)];
    }
  }

  lemma CountGroupsConserve(counts: seq<Option<int>>, toks: seq<string>, cursor: nat)
    requires cursor <= |toks|
    requires forall i :: 0 <= i < |toks| ==> toks[i] != []
    ensures Join("|", CountGroups(counts, toks, cursor).groups)
         == Join("|", toks[cursor..CountGroups(counts, toks, cursor).cursor])
    ensures CountGroups(counts, toks, cursor).groups == [] <==> CountGroups(counts, toks, cursor).cursor == cursor
    ensures forall i :: 0 <= i < |CountGroups(counts, toks, cursor).groups| ==>
      CountGroups(counts, toks, cursor).groups[i] != []
  {
    CountGroupsShape(counts, toks, cursor);
    CountGroupsJoined(counts, toks, cursor);
  }

  lemma {:induction false} CountGroupsJoined(counts: seq<Option<int>>, toks: seq<string>, cursor: nat)
    requires cursor <= |toks|
    requires forall i :: 0 <= i < |toks| ==> toks[i] != []
    ensures Join("|", CountGroups(counts, toks, cursor).groups)
         == Join("|", toks[cursor..CountGroups(counts, toks, cursor).cursor])
    decreases |counts|
  {
    if counts != [] {
      var parsed := counts[0];
      if parsed.None? {
        CountGroupsJoined(counts[1..], toks, cursor);
      } else {
        var t := Take(parsed.value, cursor, |toks|);
        var run := toks[cursor..cursor + t];
        var g := Join("|", run);
        CountGroupsJoined(counts[1..], toks, cursor + t);
        CountGroupsShape(counts[1..], toks, cursor + t);
        var w := CountGroups(counts[1..], toks, cursor + t);
        if t == 0 {
          assert CountGroups(counts, toks, cursor) == w;
          assert toks[cursor + t..w.cursor] == toks[cursor..w.cursor];
        } else {
          JoinOfNonEmptyRun(run);
          CountGroupsOfSome(counts, toks, cursor, cursor + t, g);
          JoinedStep(toks, cursor, cursor + t, w.groups, w.cursor);
        }
      }
    }
  }

  /** With no empty token, nothing is lost or reordered: joining the rebuilt
      groups with "|" gives back the "|"-joined tokens of the stored value, and
      no group is empty. */
  lemma CountDrivenConserves(genePos: string, geneCount: string)
    requires var toks := Split(genePos, "|"); forall i :: 0 <= i < |toks| ==> toks[i] != []
    ensures Join("|", CountDriven(genePos, geneCount)) == Join("|", Split(genePos, "|"))
    ensures forall i :: 0 <= i < |CountDriven(genePos, geneCount)| ==> CountDriven(genePos, geneCount)[i] != []
  {
    RebuiltConserves(Split(genePos, "|"), ParsedCounts(Split(geneCount, Bar)));
  }

  lemma RebuiltConserves(toks: seq<string>, counts: seq<Option<int>>)
    requires forall i :: 0 <= i < |toks| ==> toks[i] != []
    ensures Join("|", Rebuilt(toks, counts)) == Join("|", toks)
    ensures forall i :: 0 <= i < |Rebuilt(toks, counts)| ==> Rebuilt(toks, counts)[i] != []
  {
    var w := CountGroups(counts, toks, 0);
    CountGroupsConserve(counts, toks, 0);
    var rem := Remainder(toks, w.cursor);
    assert Rebuilt(toks, counts) == w.groups + rem;
    assert toks[0..w.cursor] == toks[..w.cursor];
    if w.cursor < |toks| {
      var tail := toks[w.cursor..];
      assert Join("|", tail) != [] by {
        if |tail| > 1 {
          assert Join("|", tail) == tail[0] + "|" + Join("|", tail[1..]);
        }
      }
      assert rem == [Join("|", tail)];
      assert toks == toks[..w.cursor] + tail;
      if w.groups != [] {
        JoinAppend("|", w.groups, rem);
        JoinAppend("|", toks[..w.cursor], tail);
      } else {
        assert w.groups + rem == rem;
      }
    } else {
      assert rem == [];
      assert w.groups + rem == w.groups;
      assert toks[..w.cursor] == toks;
    }
  }

  // ------------------------------------------------------------------
  // Round trip: a blob written by joining every gene's tokens flat

  function Flatten(gs: seq<seq<string>>): seq<string>
    decreases |gs|
  {
    if gs == [] then [] else gs[0] + Flatten(gs[1..])
  }

  function Sizes(gs: seq<seq<string>>): (r: seq<string>)
    ensures |r| == |gs|
    ensures forall i :: 0 <= i < |gs| ==> r[i] == IntToString(|gs[i]|)
  {
    seq(|gs|, i requires 0 <= i < |gs| => IntToString(|gs[i]|))
  }

  function JoinEach(gs: seq<seq<string>>): (r: seq<string>)
    ensures |r| == |gs|
    ensures forall i :: 0 <= i < |gs| ==> r[i] == Join("|", gs[i])
  {
    seq(|gs|, i requires 0 <= i < |gs| => Join("|", gs[i]))
  }

  /** The groups that addGenePosField can recover: non-empty groups of
      non-empty trimmed tokens without '|', each of a size Integer.parseInt reads. */
  ghost predicate Recoverable(gs: seq<seq<string>>) {
    && gs != []
    && (forall i :: 0 <= i < |gs| ==> gs[i] != [] && |gs[i]| <= IntMax)
    && (forall i, j :: 0 <= i < |gs| && 0 <= j < |gs[i]| ==> TokenShape(gs[i][j]))
  }

  ghost predicate TokenShape(t: string) {
    t != [] && Trim(t) == t && forall k :: 0 <= k < |t| ==> t[k] != '|'
  }

  lemma {:induction false} FlattenShape(gs: seq<seq<string>>)
    requires forall i, j :: 0 <= i < |gs| && 0 <= j < |gs[i]| ==> TokenShape(gs[i][j])
    ensures forall i :: 0 <= i < |Flatten(gs)| ==> TokenShape(Flatten(gs)[i])
    decreases |gs|
  {
    if gs != [] {
      FlattenShape(gs[1..]);
      var f := Flatten(gs);
      forall i | 0 <= i < |f| ensures TokenShape(f[i]) {
        if i < |gs[0]| {
          assert f[i] == gs[0][i];
        } else {
          assert f[i] == Flatten(gs[1..])[i - |gs[0]|];
        }
      }
    }
  }

  /** The group sizes, as parsed counts. */
  function SizeCounts(gs: seq<seq<string>>): (r: seq<Option<int>>)
    ensures |r| == |gs| && forall i :: 0 <= i < |gs| ==> r[i] == Some(|gs[i]|)
  {
    seq(|gs|, i requires 0 <= i < |gs| => Some(|gs[i]|))
  }

  /** Integer.parseInt reads every written size back. */
  lemma ParsedSizes(gs: seq<seq<string>>)
    requires forall i :: 0 <= i < |gs| ==> |gs[i]| <= IntMax
    ensures ParsedCounts(Sizes(gs)) == SizeCounts(gs)
  {
    forall i | 0 <= i < |gs| ensures ParsedCounts(Sizes(gs))[i] == SizeCounts(gs)[i] {
      IntToStringIsTrimmed(|gs[i]|);
      ParseIntToString(|gs[i]|);
    }
  }

  /** A count that parses takes its run of tokens first. */
  lemma CountGroupsOfSome(counts: seq<Option<int>>, toks: seq<string>, cursor: nat, next: nat, g: string)
    requires counts != [] && counts[0].Some? && cursor <= |toks|
    requires next == cursor + Take(counts[0].value, cursor, |toks|) && g == Join("|", toks[cursor..next]) && g != []
    ensures CountGroups(counts, toks, cursor)
         == Walk([g] + CountGroups(counts[1..], toks, next).groups, CountGroups(counts[1..], toks, next).cursor)
  {
  }

  /** Reading real counts walks the groups one by one. */
  lemma {:induction false} CountGroupsOfSizes(gs: seq<seq<string>>, prefix: seq<string>)
    requires forall i :: 0 <= i < |gs| ==> gs[i] != [] && gs[i][0] != []
    ensures CountGroups(SizeCounts(gs), prefix + Flatten(gs), |prefix|)
         == Walk(JoinEach(gs), |prefix + Flatten(gs)|)
    decreases |gs|
  {
    var toks := prefix + Flatten(gs);
    if gs != [] {
      var g0 := gs[0];
      var prefix' := prefix + g0;
      var g := Join("|", g0);
      SizeCountsCons(gs);
      JoinEachCons(gs);
      assert toks == prefix' + Flatten(gs[1..]);
      assert toks[|prefix|..|prefix'|] == g0;
      assert Take(|g0|, |prefix|, |toks|) == |g0|;
      JoinOfNonEmptyRun(g0);
      CountGroupsOfSizes(gs[1..], prefix');
      CountGroupsOfSome(SizeCounts(gs), toks, |prefix|, |prefix'|, g);
    }
  }

  lemma SizeCountsCons(gs: seq<seq<string>>)
    requires gs != []
    ensures SizeCounts(gs) == [Some(|gs[0]|)] + SizeCounts(gs[1..])
  {
  }

  lemma JoinEachCons(gs: seq<seq<string>>)
    requires gs != []
    ensures JoinEach(gs) == [Join("|", gs[0])] + JoinEach(gs[1..])
  {
  }

  lemma NoBarNoDelimiter(s: string)
    requires forall k :: 0 <= k < |s| ==> s[k] != '|'
    ensures IndexOf(s, Bar, 0) < 0
  {
    NoBarSeparable(s);
    SeparableHasNoMatch(s, Bar);
  }

  /** In a "|"-join of trimmed tokens every '|' sits between two non-space
      chars, so the " | " delimiter never occurs. */
  lemma {:induction false} FlatJoinHasNoDelimiter(toks: seq<string>)
    requires toks != [] && forall i :: 0 <= i < |toks| ==> TokenShape(toks[i])
    ensures IndexOf(Join("|", toks), Bar, 0) < 0
    ensures Join("|", toks) != [] && !IsTrimmable(Join("|", toks)[0])
    ensures !IsTrimmable(Join("|", toks)[|Join("|", toks)| - 1])
    decreases |toks|
  {
    var s := Join("|", toks);
    var t0 := toks[0];
    assert TokenShape(t0);
    if |toks| == 1 {
      NoBarNoDelimiter(t0);
    } else {
      var rest := Join("|", toks[1..]);
      FlatJoinHasNoDelimiter(toks[1..]);
      assert s == t0 + "|" + rest;
      assert s[0] == t0[0];
      assert s[|s| - 1] == rest[|rest| - 1];
      assert forall k :: 0 <= k < |t0| ==> t0[k] != '|';
      DelimiterFreeJoin(t0, rest);
      assert forall k :: 0 <= k ==> !OccursAt(s, Bar, k);
    }
  }

  /** Gluing two delimiter-free strings with a '|' that has a non-space char
      on either side creates no " | ". */
  lemma DelimiterFreeJoin(a: string, b: string)
    requires a != [] && b != [] && !IsTrimmable(a[|a| - 1]) && !IsTrimmable(b[0])
    requires forall k :: 0 <= k < |a| ==> a[k] != '|'
    requires IndexOf(b, Bar, 0) < 0
    ensures forall k :: 0 <= k ==> !OccursAt(a + "|" + b, Bar, k)
  {
    var s := a + "|" + b;
    forall k | 0 <= k ensures !OccursAt(s, Bar, k) {
      if k + 3 <= |s| {
        var w := s[k..k + 3];
        assert w[0] == s[k] && w[1] == s[k + 1];
        if k + 1 < |a| {
          assert s[k + 1] == a[k + 1];
        } else if k + 1 == |a| {
          assert s[k] == a[|a| - 1];
        } else if k == |a| {
          assert s[k] == '|';
        } else {
          var m := k - |a| - 1;
          assert s[k..k + 3] == b[m..m + 3] by {
            assert s[k] == b[m] && s[k + 1] == b[m + 1] && s[k + 2] == b[m + 2];
          }
          assert !OccursAt(b, Bar, m);
        }
      }
    }
  }

  /** The flat blob is one " | "-piece, not blank, and splits on "|" into
      the flattened tokens. */
  lemma FlatBlob(gs: seq<seq<string>>)
    requires Recoverable(gs)
    ensures var v := Join("|", Flatten(gs));
      !IsBlank(v) && Split(v, Bar) == [v] && Split(v, "|") == Flatten(gs)
  {
    var toks := Flatten(gs);
    FlattenShape(gs);
    assert toks != [] by {
      assert gs[0] != [];
      assert Flatten(gs) == gs[0] + Flatten(gs[1..]);
    }
    var v := Join("|", toks);
    FlatJoinHasNoDelimiter(toks);
    TrimOfTrimmed(v);
    forall i | 0 <= i < |toks| ensures toks[i] != [] && Separable(toks[i], "|") {
      assert TokenShape(toks[i]);
      NoBarSeparable(toks[i]);
    }
    SplitOfJoin(toks, "|");
  }

  /** The written sizes are not blank and split back on " | " into themselves. */
  lemma SizesBlob(gs: seq<seq<string>>)
    requires gs != []
    ensures var c := Join(Bar, Sizes(gs)); !IsBlank(c) && Split(c, Bar) == Sizes(gs)
  {
    var sizes := Sizes(gs);
    forall i | 0 <= i < |sizes| ensures sizes[i] != [] && Separable(sizes[i], Bar) {
      IntToStringHasNoBar(|gs[i]|);
      NoBarSeparable(sizes[i]);
    }
    SplitOfJoin(sizes, Bar);
    IntToStringIsTrimmed(|gs[0]|);
    JoinNotBlank(Bar, sizes);
  }

  /** The count-driven walk over the flattened tokens yields the joined groups. */
  lemma RebuiltOfGroups(gs: seq<seq<string>>)
    requires forall i :: 0 <= i < |gs| ==> gs[i] != [] && TokenShape(gs[i][0])
    ensures Rebuilt(Flatten(gs), SizeCounts(gs)) == JoinEach(gs)
  {
    var toks := Flatten(gs);
    ShapedGroupsStart(gs);
    CountGroupsOfSizes(gs, []);
    assert [] + toks == toks;
    RebuiltOfWalk(toks, SizeCounts(gs), JoinEach(gs));
  }

  lemma ShapedGroupsStart(gs: seq<seq<string>>)
    requires forall i :: 0 <= i < |gs| ==> gs[i] != [] && TokenShape(gs[i][0])
    ensures forall i :: 0 <= i < |gs| ==> gs[i] != [] && gs[i][0] != []
  {
    forall i | 0 <= i < |gs| ensures gs[i][0] != [] {
      assert TokenShape(gs[i][0]);
    }
  }

  lemma RebuiltOfWalk(toks: seq<string>, counts: seq<Option<int>>, groups: seq<string>)
    requires CountGroups(counts, toks, 0) == Walk(groups, |toks|)
    ensures Rebuilt(toks, counts) == groups
  {
    assert Remainder(toks, |toks|) == [];
    assert groups + [] == groups;
  }

  /** The repair undoes the flattening: a gene_pos blob written as all groups'
      tokens joined by "|", with gene_count holding the group sizes joined by
      " | ", is split back into the original groups. */
  lemma RepairRecoversGroups(gs: seq<seq<string>>)
    requires Recoverable(gs)
    ensures RepairGenePos(Some(Join("|", Flatten(gs))), Some(Join(Bar, Sizes(gs)))) == Some(JoinEach(gs))
  {
    var v := Join("|", Flatten(gs));
    var c := Join(Bar, Sizes(gs));
    assert !IsBlank(v) && Split(v, Bar) == [v] && Split(v, "|") == Flatten(gs) by { FlatBlob(gs); }
    assert !IsBlank(c) && ParsedCounts(Split(c, Bar)) == SizeCounts(gs) by {
      SizesBlob(gs);
      ParsedSizes(gs);
    }
    assert CountDriven(v, c) == JoinEach(gs) by {
      forall i | 0 <= i < |gs| ensures gs[i] != [] && TokenShape(gs[i][0]) { }
      RebuiltOfGroups(gs);
    }
    assert JoinEach(gs) != [];
    RepairOfOnePiece(v, c);
  }

  /** A gene_pos value that is one " | "-piece with a gene_count value takes
      the count-driven branch. */
  lemma RepairOfOnePiece(v: string, c: string)
    requires !IsBlank(v) && Split(v, Bar) == [v] && !IsBlank(c)
    ensures RepairGenePos(Some(v), Some(c)) == if CountDriven(v, c) == [] then None else Some(CountDriven(v, c))
  {
    assert !IsNullOrBlank(Some(v)) && !IsNullOrBlank(Some(c));
    assert |Split(v, Bar)| == 1;
  }

  /** A blob whose delimiters were lost: tokens "0;1-3", "1;5-7", "1;9-11" with
      the count pieces "2", "x", "1" go back to "0;1-3|1;5-7" and "1;9-11", the
      unreadable "x" being skipped. */
  lemma RepairExample()
    ensures CountGroups(ParsedCounts(["2", "x", "1"]), ["0;1-3", "1;5-7", "1;9-11"], 0)
         == Walk(["0;1-3|1;5-7", "1;9-11"], 3)
  {
    ExampleCounts();
    ExampleWalk([Some(2), None, Some(1)], ["0;1-3", "1;5-7", "1;9-11"]);
  }

  lemma ExampleCounts()
    ensures ParsedCounts(["2", "x", "1"]) == [Some(2), None, Some(1)]
  {
    CountsOfThree(["2", "x", "1"]);
  }

  lemma CountsOfThree(p: seq<string>)
    requires |p| == 3 && p[0] == ['2'] && p[1] == ['x'] && p[2] == ['1']
    ensures ParsedCounts(p) == [Some(2), None, Some(1)]
  {
    var r := ParsedCounts(p);
    assert r[0] == ParseInt(Trim(['2']));
    assert r[1] == ParseInt(Trim(['x']));
    assert r[2] == ParseInt(Trim(['1']));
    ParsedChar('2');
    ParsedChar('x');
    ParsedChar('1');
    ThreeCounts(r);
  }

  lemma ThreeCounts(r: seq<Option<int>>)
    requires |r| == 3 && r[0] == Some(2) && r[1] == None && r[2] == Some(1)
    ensures r == [Some(2), None, Some(1)]
  {
  }

  /** A one-char count piece parses as its digit, and as nothing otherwise. */
  lemma ParsedChar(c: char)
    requires c != ' ' && c != '-' && c != '+'
    ensures ParseInt(Trim([c])) == if IsDigit(c) then Some(c as int - '0' as int) else None
  {
    if !IsTrimmable(c) {
      TrimOfTrimmed([c]);
      assert [c][0] == c && [c][..0] == [];
      assert AllDigits([c]) == IsDigit(c);
      if IsDigit(c) {
        assert DigitsValue([c]) == c as int - '0' as int;
      }
    } else {
      assert Trim([c]) == [];
    }
  }

  lemma ExampleWalk(counts: seq<Option<int>>, toks: seq<string>)
    requires counts == [Some(2), None, Some(1)] && toks == ["0;1-3", "1;5-7", "1;9-11"]
    ensures CountGroups(counts, toks, 0) == Walk(["0;1-3|1;5-7", "1;9-11"], 3)
  {
    assert toks[0..2] == ["0;1-3", "1;5-7"] && toks[2..3] == ["1;9-11"];
    assert Join("|", toks[0..2]) == "0;1-3|1;5-7";
    assert counts[1..] == [None, Some(1)] && counts[1..][1..] == [Some(1)];
    assert CountGroups([], toks, 3) == Walk([], 3);
    assert CountGroups([Some(1)], toks, 2) == Walk(["1;9-11"], 3);
    assert CountGroups([None, Some(1)], toks, 2) == Walk(["1;9-11"], 3);
  }

  // ------------------------------------------------------------------
  // The loops

  /** The inner StringBuilder loop: appends up to `count` tokens from
      `posIndex`, separated by "|", moving the cursor past them. */
  method TakeGroup(all: seq<string>, posIndex: nat, count: int) returns (group: string, next: nat)
    requires posIndex <= |all|
    ensures next == posIndex + Take(count, posIndex, |all|)
    ensures group == Join("|", all[posIndex..next])
  {
    group := "";
    next := posIndex;
    var i := 0;
    while i < count && next < |all|
      invariant 0 <= i && next == posIndex + i && next <= |all|
      invariant count > 0 ==> i <= count
      invariant count <= 0 ==> i == 0
      invariant group == Join("|", all[posIndex..next])
    {
      if i > 0 {
        group := group + "|";
        JoinSnoc("|", all[posIndex..next], all[next]);
        assert all[posIndex..next + 1] == all[posIndex..next] + [all[next]];
      } else {
        assert all[posIndex..next + 1] == [all[next]];
      }
      group := group + all[next];
      next := next + 1;
      i := i + 1;
    }
  }

  /** The walk `whole` is the groups `done` built so far followed by the walk
      over the `counts` still to come from `cursor`. */
  ghost predicate Pending(counts: seq<Option<int>>, j: nat, toks: seq<string>, cursor: nat, done: seq<string>, whole: Walk) {
    && j <= |counts| && cursor <= |toks|
    && done + CountGroups(counts[j..], toks, cursor).groups == whole.groups
    && CountGroups(counts[j..], toks, cursor).cursor == whole.cursor
  }

  /** A piece that does not parse leaves the walk where it was. */
  lemma CountGroupsSkip(counts: seq<Option<int>>, j: nat, toks: seq<string>, cursor: nat,
                        done: seq<string>, whole: Walk)
    requires j < |counts| && counts[j].None? && Pending(counts, j, toks, cursor, done, whole)
    ensures Pending(counts, j + 1, toks, cursor, done, whole)
  {
    assert counts[j..][0] == counts[j] && counts[j..][1..] == counts[j + 1..];
  }

  /** A piece that parses contributes the group of the tokens it takes. */
  lemma CountGroupsTake(counts: seq<Option<int>>, j: nat, toks: seq<string>, cursor: nat,
                        done: seq<string>, whole: Walk, group: string, next: nat)
    requires j < |counts| && counts[j].Some? && Pending(counts, j, toks, cursor, done, whole)
    requires next == cursor + Take(counts[j].value, cursor, |toks|)
    requires group == Join("|", toks[cursor..next])
    ensures group == [] ==> Pending(counts, j + 1, toks, next, done, whole)
    ensures group != [] ==> Pending(counts, j + 1, toks, next, done + [group], whole)
  {
    assert counts[j..][0] == counts[j] && counts[j..][1..] == counts[j + 1..];
    var w := CountGroups(counts[j + 1..], toks, next);
    assert CountGroups(counts[j..], toks, cursor)
        == Walk(if group == [] then w.groups else [group] + w.groups, w.cursor);
    if group != [] {
      assert done + ([group] + w.groups) == (done + [group]) + w.groups;
    }
  }

  /** The outer loop over the gene_count pieces: each piece that parses takes
      its tokens from the cursor. */
  method WalkCounts(counts: seq<string>, allPositions: seq<string>) returns (positions: seq<string>, posIndex: nat)
    ensures posIndex <= |allPositions|
    ensures Walk(positions, posIndex) == CountGroups(ParsedCounts(counts), allPositions, 0)
  {
    ghost var parsed := ParsedCounts(counts);
    ghost var whole := CountGroups(parsed, allPositions, 0);
    assert parsed[0..] == parsed;
    positions := [];
    posIndex := 0;
    var j := 0;
    while j < |counts|
      invariant 0 <= j <= |counts| && posIndex <= |allPositions|
      invariant Pending(parsed, j, allPositions, posIndex, positions, whole)
    {
      var count := ParseInt(Trim(counts[j]));
      assert count == parsed[j];
      var done, cursor := positions, posIndex;
      if count.Some? {
        var group, next := TakeGroup(allPositions, posIndex, count.value);
        CountGroupsTake(parsed, j, allPositions, posIndex, positions, whole, group, next);
        if group != [] {
          done := positions + [group];
        }
        cursor := next;
      } else {
        CountGroupsSkip(parsed, j, allPositions, posIndex, positions, whole);
      }
      assert Pending(parsed, j + 1, allPositions, cursor, done, whole);
      positions, posIndex, j := done, cursor, j + 1;
    }
    assert parsed[j..] == [];
  }

  /** The count-driven branch: splits both values, then rebuilds. */
  method RebuildFromCounts(genePos: string, geneCount: string) returns (positions: seq<string>)
    ensures positions == CountDriven(genePos, geneCount)
  {
    var counts := Split(geneCount, Bar);
    var allPositions := Split(genePos, "|");
    positions := RebuildFromTokens(allPositions, counts);
  }

  /** The outer loop, then the final loop over the tokens left after the cursor. */
  method RebuildFromTokens(allPositions: seq<string>, counts: seq<string>) returns (positions: seq<string>)
    ensures positions == Rebuilt(allPositions, ParsedCounts(counts))
  {
    var posIndex;
    positions, posIndex := WalkCounts(counts, allPositions);
    ghost var done := positions;
    assert Rebuilt(allPositions, ParsedCounts(counts)) == done + Remainder(allPositions, posIndex);
    if posIndex < |allPositions| {
      var remaining, _ := TakeGroup(allPositions, posIndex, |allPositions| - posIndex);
      assert allPositions[posIndex..|allPositions|] == allPositions[posIndex..];
      if remaining != [] {
        positions := positions + [remaining];
      }
    }
    assert positions == done + Remainder(allPositions, posIndex);
  }

  /** addGenePosField. Both columns are read first, so a missing one throws
      (ok = false, nothing added). */
  method AddGenePosField(doc: SolrDocument, row: Row) returns (ok: bool)
    modifies doc
    ensures ok == ("gene_pos" in row && "gene_count" in row)
    ensures ok && RepairGenePos(row["gene_pos"], row["gene_count"]).Some? ==>
      doc.State() == AddValue(old(doc.State()), "gene_pos",
                              AtomicSetList(Strs(RepairGenePos(row["gene_pos"], row["gene_count"]).value)))
    ensures !(ok && RepairGenePos(row["gene_pos"], row["gene_count"]).Some?) ==> doc.State() == old(doc.State())
  {
    if "gene_pos" !in row || "gene_count" !in row {
      return false;
    }
    var genePosValue := row["gene_pos"];
    var geneCountValue := row["gene_count"];
    ghost var expected := RepairGenePos(genePosValue, geneCountValue);
    if genePosValue.None? || IsBlank(genePosValue.value) {
      return true;
    }
    var posSplit := Split(genePosValue.value, Bar);
    if |posSplit| > 1 {
      var positions := TrimmedNonEmpty(posSplit);
      if positions != [] {
        assert expected == Some(positions);
        doc.AddField("gene_pos", AtomicSetList(Strs(positions)));
      } else {
        assert expected.None?;
      }
    } else if geneCountValue.Some? && !IsBlank(geneCountValue.value) {
      var positions := RebuildFromCounts(genePosValue.value, geneCountValue.value);
      if positions != [] {
        assert expected == Some(positions);
        doc.AddField("gene_pos", AtomicSetList(Strs(positions)));
      } else {
        assert expected.None?;
      }
    } else {
      assert expected == Some([genePosValue.value]);
      doc.AddField("gene_pos", AtomicSetList(Strs([genePosValue.value])));
    }
    return true;
  }
}

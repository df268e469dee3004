/** The behaviour of the parts of java.lang.String and java.lang.Integer that
    the row-to-document code relies on, over Dafny strings (one char stands for
    one char of the Java string, which is exact for text inside the Basic
    Multilingual Plane). */
module JavaStrings {

  datatype Option<T> = None | Some(value: T)

  // ------------------------------------------------------------------
  // trim() and blank tests

  /** String.trim() removes leading and trailing chars whose code is <= U+0020. */
  predicate IsTrimmable(c: char) { c <= ' ' }

  function TrimLeft(s: string): (r: string)
    ensures |r| <= |s| && r == s[|s| - |r|..]
    ensures r != [] ==> !IsTrimmable(r[0])
    ensures forall i :: 0 <= i < |s| - |r| ==> IsTrimmable(s[i])
    decreases |s|
  {
    if s != [] && IsTrimmable(s[0]) then TrimLeft(s[1..]) else s
  }

  function TrimRight(s: string): (r: string)
    ensures |r| <= |s| && r == s[..|r|]
    ensures r != [] ==> !IsTrimmable(r[|r| - 1])
    ensures forall i :: |r| <= i < |s| ==> IsTrimmable(s[i])
    decreases |s|
  {
    if s != [] && IsTrimmable(s[|s| - 1]) then TrimRight(s[..|s| - 1]) else s
  }

  /** String.trim(). */
  function Trim(s: string): (r: string)
    ensures |r| <= |s|
    ensures r != [] ==> !IsTrimmable(r[0]) && !IsTrimmable(r[|r| - 1])
    ensures r == [] <==> forall i :: 0 <= i < |s| ==> IsTrimmable(s[i])
  {
    var l := TrimLeft(s);
    var r := TrimRight(l);
    assert r != [] ==> r[0] == l[0];
    assert r == [] ==> forall i :: 0 <= i < |s| ==> IsTrimmable(s[i]) by {
      if r == [] {
        assert l == [];
      }
    }
    r
  }

  /** A string whose first and last chars are not trimmable is its own trim. */
  lemma TrimOfTrimmed(s: string)
    requires s != [] && !IsTrimmable(s[0]) && !IsTrimmable(s[|s| - 1])
    ensures Trim(s) == s
  {
  }

  /** A leading space, as a name after ", " keeps, is removed by trim(). */
  lemma TrimLeadingSpace(s: string)
    requires s != [] && !IsTrimmable(s[0]) && !IsTrimmable(s[|s| - 1])
    ensures Trim([' '] + s) == s
  {
    var t := [' '] + s;
    assert t[1..] == s;
    assert TrimLeft(t) == s;
    assert TrimRight(s) == s;
  }

  /** `s.trim().isEmpty()`: the string is null-free but blank. */
  predicate IsBlank(s: string) { Trim(s) == [] }

  /** One option of a nullable column: null or blank. */
  predicate IsNullOrBlank(v: Option<string>) { v.None? || IsBlank(v.value) }

  /** The regular-expression class \s: [ \t\n\x0B\f\r]. */
  predicate IsRegexSpace(c: char) {
    c == ' ' || c == '\t' || c == '\n' || c == '\U{B}' || c == '\U{C}' || c == '\r'
  }

  // ------------------------------------------------------------------
  // toLowerCase(), endsWith()

  /** Case mapping, length preserving; only the ASCII letters are mapped. */
  function LowerChar(c: char): char {
    if 'A' <= c <= 'Z' then (c as int + 32) as char else c
  }

  function Lower(s: string): (r: string)
    ensures |r| == |s|
    ensures forall i :: 0 <= i < |s| ==> r[i] == LowerChar(s[i])
  {
    seq(|s|, i requires 0 <= i < |s| => LowerChar(s[i]))
  }

  predicate EndsWith(s: string, suffix: string) {
    |suffix| <= |s| && s[|s| - |suffix|..] == suffix
  }

  // ------------------------------------------------------------------
  // indexOf()

  /** `t` occurs in `s` starting at index `k`. */
  predicate OccursAt(s: string, t: string, k: int) {
    0 <= k && k + |t| <= |s| && s[k..k + |t|] == t
  }

  /** s.indexOf(t, from) for a non-empty `t`: the least match at or after `from`, or -1. */
  function IndexOf(s: string, t: string, from: nat): (r: int)
    requires |t| > 0
    ensures r == -1 || (from <= r && OccursAt(s, t, r))
    ensures r == -1 ==> forall k :: from <= k ==> !OccursAt(s, t, k)
    ensures r != -1 ==> forall k :: from <= k < r ==> !OccursAt(s, t, k)
    decreases |s| - from
  {
    if from + |t| > |s| then -1
    else if s[from..from + |t|] == t then from
    else IndexOf(s, t, from + 1)
  }

  /** A match with no earlier match at or after `from` is what indexOf finds. */
  lemma IndexOfIsFirst(s: string, t: string, from: nat, j: nat)
    requires |t| > 0 && from <= j && OccursAt(s, t, j)
    requires forall k :: from <= k < j ==> !OccursAt(s, t, k)
    ensures IndexOf(s, t, from) == j
  {
    var r := IndexOf(s, t, from);
    assert r != -1;
  }

  // ------------------------------------------------------------------
  // split()

  /** The pieces between successive leftmost non-overlapping matches of `d`. */
  function SplitPieces(s: string, d: string): (r: seq<string>)
    requires |d| > 0
    ensures |r| >= 1
    decreases |s|
  {
    var i := IndexOf(s, d, 0);
    if i < 0 then [s] else [s[..i]] + SplitPieces(s[i + |d|..], d)
  }

  function DropTrailingEmpty(p: seq<string>): (r: seq<string>)
    ensures |r| <= |p| && r == p[..|r|]
    ensures r != [] ==> r[|r| - 1] != []
    ensures forall i :: |r| <= i < |p| ==> p[i] == []
  {
    if p != [] && p[|p| - 1] == [] then DropTrailingEmpty(p[..|p| - 1]) else p
  }

  /** s.split(regex) for a regex that matches exactly the literal `d`: with no
      match the result is [s]; otherwise trailing empty pieces are removed. */
  function Split(s: string, d: string): (r: seq<string>)
    requires |d| > 0
  {
    if IndexOf(s, d, 0) < 0 then [s] else DropTrailingEmpty(SplitPieces(s, d))
  }

  /** The Java delimiter " | " between entity-level groups. */
  const Bar: string := " | "

  /** `d` does not start anywhere inside `t`, even when `t` is followed by `d`. */
  predicate Separable(t: string, d: string) {
    forall k :: 0 <= k < |t| ==> !OccursAt(t + d, d, k)
  }

  lemma SeparableHasNoMatch(t: string, d: string)
    requires |d| > 0 && Separable(t, d)
    ensures IndexOf(t, d, 0) < 0
  {
    forall k | 0 <= k < |t| ensures !OccursAt(t, d, k) {
      assert !OccursAt(t + d, d, k);
      if k + |d| <= |t| { assert (t + d)[k..k + |d|] == t[k..k + |d|]; }
    }
  }

  /** A token without '|' is separable by " | " and by "|". */
  lemma NoBarSeparable(t: string)
    requires forall i :: 0 <= i < |t| ==> t[i] != '|'
    ensures Separable(t, Bar) && Separable(t, "|")
  {
    var u := t + Bar;
    forall k | 0 <= k < |t| ensures !OccursAt(u, Bar, k) {
      assert u[k..k + 3][1] == u[k + 1];
      if k + 1 < |t| { assert u[k + 1] == t[k + 1]; } else { assert u[k + 1] == ' '; }
    }
    var v := t + "|";
    forall k | 0 <= k < |t| ensures !OccursAt(v, "|", k) {
      assert v[k..k + 1][0] == v[k] == t[k];
    }
  }

  lemma {:induction false} SplitPiecesOfJoin(toks: seq<string>, d: string)
    requires |d| > 0 && toks != []
    requires forall i :: 0 <= i < |toks| ==> Separable(toks[i], d)
    ensures SplitPieces(Join(d, toks), d) == toks
    decreases |toks|
  {
    var t0 := toks[0];
    if |toks| == 1 {
      SeparableHasNoMatch(t0, d);
    } else {
      var rest := Join(d, toks[1..]);
      assert Join(d, toks) == t0 + d + rest;
      SplitPiecesOfHead(t0, d, rest);
      SplitPiecesOfJoin(toks[1..], d);
      assert toks == [t0] + toks[1..];
    }
  }

  /** Splitting `t0 + d + rest` cuts at the `d` right after a separable `t0`. */
  lemma SplitPiecesOfHead(t0: string, d: string, rest: string)
    requires |d| > 0 && Separable(t0, d)
    ensures SplitPieces(t0 + d + rest, d) == [t0] + SplitPieces(rest, d)
  {
    var s := t0 + d + rest;
    forall k | 0 <= k < |t0| ensures !OccursAt(s, d, k) {
      assert !OccursAt(t0 + d, d, k);
      assert s[k..k + |d|] == (t0 + d)[k..k + |d|];
    }
    assert s[|t0|..|t0| + |d|] == d;
    IndexOfIsFirst(s, d, 0, |t0|);
    assert s[..|t0|] == t0;
    assert s[|t0| + |d|..] == rest;
  }

  /** Splitting a join of non-empty separable tokens gives the tokens back. */
  lemma SplitOfJoin(toks: seq<string>, d: string)
    requires |d| > 0 && toks != []
    requires forall i :: 0 <= i < |toks| ==> toks[i] != [] && Separable(toks[i], d)
    ensures Split(Join(d, toks), d) == toks
  {
    SplitPiecesOfJoin(toks, d);
    if |toks| == 1 {
      SeparableHasNoMatch(toks[0], d);
    }
  }

  // ------------------------------------------------------------------
  // String.join()

  function Join(sep: string, parts: seq<string>): string
    decreases |parts|
  {
    if parts == [] then "" else if |parts| == 1 then parts[0] else parts[0] + sep + Join(sep, parts[1..])
  }

  lemma {:induction false} JoinAppend(sep: string, a: seq<string>, b: seq<string>)
    requires a != [] && b != []
    ensures Join(sep, a + b) == Join(sep, a) + sep + Join(sep, b)
    decreases |a|
  {
    if |a| == 1 {
      assert (a + b)[1..] == b;
    } else {
      assert (a + b)[1..] == a[1..] + b;
      JoinAppend(sep, a[1..], b);
    }
  }

  lemma JoinSnoc(sep: string, a: seq<string>, x: string)
    requires a != []
    ensures Join(sep, a + [x]) == Join(sep, a) + sep + x
  {
    JoinAppend(sep, a, [x]);
  }

  // ------------------------------------------------------------------
  // replace(CharSequence, CharSequence)

  /** s.replace(t, r): every leftmost non-overlapping occurrence of `t` becomes `r`. */
  function Replace(s: string, t: string, r: string): string
    requires |t| > 0
    decreases |s|
  {
    if |s| < |t| then s
    else if s[..|t|] == t then r + Replace(s[|t|..], t, r)
    else [s[0]] + Replace(s[1..], t, r)
  }

  lemma {:induction false} ReplaceNotLonger(s: string, t: string, r: string)
    requires |t| > 0 && |r| <= |t|
    ensures |Replace(s, t, r)| <= |s|
    decreases |s|
  {
    if |s| < |t| {
    } else if s[..|t|] == t {
      ReplaceNotLonger(s[|t|..], t, r);
    } else {
      ReplaceNotLonger(s[1..], t, r);
    }
  }

  lemma ReplaceKeepsNonEmpty(s: string, t: string, r: string)
    requires |t| > 0 && r != [] && s != []
    ensures Replace(s, t, r) != []
  {
  }

  /** When the char t[j] occurs nowhere in `s`, replace leaves `s` alone. */
  lemma {:induction false} ReplaceAbsent(s: string, t: string, r: string, j: nat)
    requires j < |t| && forall i :: 0 <= i < |s| ==> s[i] != t[j]
    ensures Replace(s, t, r) == s
    decreases |s|
  {
    if |s| < |t| {
    } else {
      assert s[..|t|][j] == s[j];
      ReplaceAbsent(s[1..], t, r, j);
      assert [s[0]] + s[1..] == s;
    }
  }

  // ------------------------------------------------------------------
  // Integer.parseInt() and Integer.toString()

  predicate IsDigit(c: char) { '0' <= c <= '9' }

  predicate AllDigits(s: string) { forall i :: 0 <= i < |s| ==> IsDigit(s[i]) }

  function DigitsValue(s: string): nat
    requires AllDigits(s)
    decreases |s|
  {
    if s == [] then 0 else DigitsValue(s[..|s| - 1]) * 10 + (s[|s| - 1] as int - '0' as int)
  }

  const IntMin: int := -0x8000_0000
  const IntMax: int := 0x7FFF_FFFF

  predicate InInt32(n: int) { IntMin <= n <= IntMax }

  /** Integer.parseInt(s): an optional sign, then one or more decimal digits,
      and a value in the 32-bit range; anything else is a NumberFormatException. */
  function ParseInt(s: string): Option<int>
  {
    if s == [] then None
    else
      var digits := if s[0] == '-' || s[0] == '+' then s[1..] else s;
      if digits == [] || !AllDigits(digits) then None
      else
        var m: int := DigitsValue(digits);
        var v := if s[0] == '-' then -m else m;
        if InInt32(v) then Some(v) else None
  }

  function DigitChar(d: nat): char
    requires d < 10
  {
    ('0' as int + d) as char
  }

  /** Decimal rendering of a natural number, as Java's int-to-String conversion. */
  function NatToString(n: nat): (r: string)
    ensures r != [] && AllDigits(r) && DigitsValue(r) == n
    decreases n
  {
    if n < 10 then [DigitChar(n)]
    else
      var front := NatToString(n / 10);
      var r := front + [DigitChar(n % 10)];
      assert r[..|r| - 1] == front;
      r
  }

  function IntToString(i: int): string {
    if i < 0 then "-" + NatToString(-i) else NatToString(i)
  }

  /** Integer.parseInt reads back what Integer.toString writes. */
  lemma ParseIntToString(i: int)
    requires InInt32(i)
    ensures ParseInt(IntToString(i)) == Some(i)
  {
    var s := IntToString(i);
    if i < 0 {
      assert s[1..] == NatToString(-i);
    } else {
      assert !(s[0] == '-' || s[0] == '+') by { assert IsDigit(s[0]); }
    }
  }

  lemma IntToStringHasNoBar(i: int)
    ensures forall k :: 0 <= k < |IntToString(i)| ==> IntToString(i)[k] != '|'
  {
    var s := IntToString(i);
    if i < 0 {
      forall k | 1 <= k < |s| ensures s[k] != '|' { assert s[k] == NatToString(-i)[k - 1]; }
    }
  }

  lemma IntToStringIsTrimmed(i: int)
    ensures Trim(IntToString(i)) == IntToString(i)
  {
    var s := IntToString(i);
    if i < 0 {
      var n := NatToString(-i);
      assert s[|s| - 1] == n[|n| - 1];
      assert IsDigit(n[|n| - 1]);
    } else {
      assert IsDigit(s[0]) && IsDigit(s[|s| - 1]);
    }
    TrimOfTrimmed(s);
  }

  // ------------------------------------------------------------------
  // The recurring "split, trim each piece, keep the non-empty ones" loop body

  /** The trimmed pieces that are not empty, in their original order. */
  function TrimmedNonEmpty(pieces: seq<string>): (r: seq<string>)
    ensures |r| <= |pieces|
    ensures forall i :: 0 <= i < |r| ==> r[i] != [] && Trim(r[i]) == r[i]
    decreases |pieces|
  {
    if pieces == [] then []
    else
      var p := Trim(pieces[|pieces| - 1]);
      if p == [] then TrimmedNonEmpty(pieces[..|pieces| - 1])
      else
        TrimOfTrimmed(p);
        TrimmedNonEmpty(pieces[..|pieces| - 1]) + [p]
  }

  /** Pieces that are already trimmed and non-empty pass through unchanged. */
  lemma {:induction false} TrimmedNonEmptyOfTrimmed(pieces: seq<string>)
    requires forall i :: 0 <= i < |pieces| ==> pieces[i] != [] && Trim(pieces[i]) == pieces[i]
    ensures TrimmedNonEmpty(pieces) == pieces
    decreases |pieces|
  {
    if pieces != [] {
      var init, last := pieces[..|pieces| - 1], pieces[|pieces| - 1];
      TrimmedNonEmptyOfTrimmed(init);
      assert Trim(last) == last && last != [];
      calc {
        TrimmedNonEmpty(pieces);
        TrimmedNonEmpty(init) + [Trim(last)];
        init + [last];
        pieces;
      }
    }
  }

  /** A non-empty join of non-empty trimmed pieces is not blank. */
  lemma JoinNotBlank(sep: string, toks: seq<string>)
    requires toks != [] && toks[0] != [] && Trim(toks[0]) == toks[0]
    ensures !IsBlank(Join(sep, toks))
  {
    var s := Join(sep, toks);
    if |toks| > 1 { assert s == toks[0] + (sep + Join(sep, toks[1..])); }
    assert s[0] == toks[0][0];
    assert !IsTrimmable(s[0]);
  }

  // ------------------------------------------------------------------
  // Sequence facts used by the loop proofs

  lemma LastSplit<T>(s: seq<T>)
    requires s != []
    ensures s == s[..|s| - 1] + [s[|s| - 1]]
  {
  }

  lemma TakeSnoc<T>(s: seq<T>, i: nat)
    requires i < |s|
    ensures s[..i + 1] == s[..i] + [s[i]]
  {
  }

  lemma TakeDrop<T>(s: seq<T>, k: nat)
    requires k <= |s|
    ensures s == s[..k] + s[k..]
  {
  }

  lemma SliceSplit<T>(s: seq<T>, a: nat, b: nat, c: nat)
    requires a <= b <= c <= |s|
    ensures s[a..c] == s[a..b] + s[b..c]
  {
  }

  lemma SnocAt<T>(a: seq<T>, x: T, i: nat)
    requires i <= |a|
    ensures (a + [x])[i] == if i < |a| then a[i] else x
  {
  }
}

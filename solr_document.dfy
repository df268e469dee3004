/** The index-side document: SolrJ's SolrInputDocument, an insertion-ordered
    map from field name to the values added under that name, and the
    database row it is built from. */
module SolrModel {
  import opened JavaStrings

  /** A field value: a String, a boxed Integer, or an atomic-update map
      {"set": v} around a single value or around a list. */
  datatype Value = Str(s: string) | Int(i: int) | AtomicSet(v: Value) | AtomicSetList(vs: seq<Value>)

  /** One database row. A column that is not in the map makes ResultSet.getString
      throw SQLException; a column mapped to None holds SQL NULL. */
  type Row = map<string, Option<string>>

  /** Reading a column that exists. */
  function Column(row: Row, name: string): Option<string>
    requires name in row
  {
    row[name]
  }

  function Strs(xs: seq<string>): (r: seq<Value>)
    ensures |r| == |xs| && forall i :: 0 <= i < |xs| ==> r[i] == Str(xs[i])
  {
    seq(|xs|, i requires 0 <= i < |xs| => Str(xs[i]))
  }

  function Ints(xs: seq<int>): (r: seq<Value>)
    ensures |r| == |xs| && forall i :: 0 <= i < |xs| ==> r[i] == Int(xs[i])
  {
    seq(|xs|, i requires 0 <= i < |xs| => Int(xs[i]))
  }

  /** A one-element count list is the one integer value. */
  lemma IntsSingle(x: int)
    ensures Ints([x]) == [Int(x)]
  {
  }

  /** The abstract state of a document: field names in first-insertion order and
      the values of each field in insertion order. */
  datatype DocState = DocState(names: seq<string>, fields: map<string, seq<Value>>)

  const EmptyDoc: DocState := DocState([], map[])

  /** The time of day appended to every publication date (p_date). */
  const DateSuffix: string := "T06:00:00Z"

  /** Names are distinct, name list and map agree, and no field is empty. */
  ghost predicate WellFormed(d: DocState) {
    && (forall i, j :: 0 <= i < j < |d.names| ==> d.names[i] != d.names[j])
    && (forall n :: n in d.fields <==> n in d.names)
    && (forall n :: n in d.fields ==> d.fields[n] != [])
  }

  /** The values held under `name` (none when the field is absent). */
  function Values(d: DocState, name: string): seq<Value> {
    if name in d.fields then d.fields[name] else []
  }

  /** SolrInputDocument.addField(name, v): the value is appended to the field's
      values, and a field seen for the first time goes to the end of the order. */
  function AddValue(d: DocState, name: string, v: Value): (r: DocState)
    ensures WellFormed(d) ==> WellFormed(r)
    ensures r.fields.Keys == d.fields.Keys + {name}
    ensures Values(r, name) == Values(d, name) + [v]
    ensures forall n :: n != name ==> Values(r, n) == Values(d, n)
  {
    var names := if name in d.fields then d.names else d.names + [name];
    DocState(names, d.fields[name := Values(d, name) + [v]])
  }

  /** addField called once per value of `vs`, in order. */
  function AddValues(d: DocState, name: string, vs: seq<Value>): (r: DocState)
    ensures WellFormed(d) ==> WellFormed(r)
    ensures r.fields.Keys == if vs == [] then d.fields.Keys else d.fields.Keys + {name}
    ensures Values(r, name) == Values(d, name) + vs
    ensures forall n :: n != name ==> Values(r, n) == Values(d, n)
    decreases |vs|
  {
    if vs == [] then d
    else
      var front := vs[..|vs| - 1];
      assert vs == front + [vs[|vs| - 1]];
      AddValue(AddValues(d, name, front), name, vs[|vs| - 1])
  }

  /** A SolrInputDocument being filled in by addField calls. */
  class SolrDocument {
    var names: seq<string>
    var fields: map<string, seq<Value>>

    function State(): DocState
      reads this
    {
      DocState(names, fields)
    }

    ghost predicate Valid()
      reads this
    {
      WellFormed(State())
    }

    constructor ()
      ensures Valid() && State() == EmptyDoc
    {
      names := [];
      fields := map[];
    }

    method AddField(name: string, v: Value)
      modifies this
      ensures State() == AddValue(old(State()), name, v)
    {
      var old_values := if name in fields then fields[name] else [];
      if name !in fields {
        names := names + [name];
      }
      fields := fields[name := old_values + [v]];
    }
  }
}

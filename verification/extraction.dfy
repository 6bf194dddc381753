/** The extraction engine of main.go: getValues, getSubFields and the field
    loop of endpointHandler, over the selector/text oracle. */
module Extraction {
  import opened Schema
  import opened Dom
  import opened Trim

  /** A response or a record: field name to extracted value. */
  type Record = map<string, Value>

  /** The shape of a leaf value, fixed by the field's `Type` alone. */
  predicate LeafShape(kind: string, v: Value) {
    if kind == "string" then v.Str?
    else if kind == "count" then v.Int?
    else v.StrList?
  }

  /** Every string in v has no whitespace at either end. */
  predicate StringsTrimmed(v: Value) {
    match v
    case Str(t) => NoEdgeSpace(t)
    case Int(_) => true
    case StrList(items) => forall k :: 0 <= k < |items| ==> NoEdgeSpace(items[k])
    case Records(_) => true
  }

  /** getValues (main.go:70-84): run the field's selector from `scope`; the
      type "string" gives the trimmed text of the first match, "count" the
      number of matches, and any other type the trimmed text of every match. */
  function GetValues<Node>(o: Oracle<Node>, scope: Node, f: Field): (v: Value)
    ensures LeafShape(f.kind, v)
    ensures StringsTrimmed(v)
    ensures f.kind == "string" ==>
      var m := o.find(scope, f.selector);
      && (|m| == 0 ==> v.text == [])
      && (|m| > 0 ==> IsTrimOf(o.text(m[0]), v.text))
    ensures f.kind == "count" ==> v.count == |o.find(scope, f.selector)|
    ensures f.kind != "string" && f.kind != "count" ==>
      var m := o.find(scope, f.selector);
      && |v.items| == |m|
      && forall k :: 0 <= k < |m| ==> IsTrimOf(o.text(m[k]), v.items[k])
  {
    var m := o.find(scope, f.selector);
    if f.kind == "string" then
      Str(TrimSpace(FirstText(o, m)))
    else if f.kind == "count" then
      Int(|m|)
    else
      StrList(TrimmedTexts(o, m))
  }

  /** The Each/append loop of getValues (main.go:78-81): the trimmed text of
      every node, in order. */
  function TrimmedTexts<Node>(o: Oracle<Node>, nodes: seq<Node>): (texts: seq<string>)
    ensures |texts| == |nodes|
    ensures forall k :: 0 <= k < |nodes| ==> IsTrimOf(o.text(nodes[k]), texts[k])
  {
    if |nodes| == 0 then []
    else [TrimSpace(o.text(nodes[0]))] + TrimmedTexts(o, nodes[1..])
  }

  /** Assign `eval(f)` under `f.name` into `acc`, for every field f in order, so
      that a later field overwrites an earlier one of the same name. This is
      the loop shared by getSubFields (main.go:90-92) and endpointHandler
      (main.go:57-63). */
  function Assemble(acc: Record, fields: seq<Field>, eval: Field -> Value): (r: Record)
    ensures AssembledFrom(r, acc, fields, eval)
    decreases |fields|
  {
    if |fields| == 0 then acc
    else
      var f := fields[0];
      var r := Assemble(acc[f.name := eval(f)], fields[1..], eval);
      AssembleStep(acc, fields, eval, r);
      r
  }

  /** What assigning every field in order does to `acc`: the keys are those of
      `acc` plus the field names; a key no field names keeps its value; a key
      some field names holds the value of the last such field. */
  ghost predicate AssembledFrom(r: Record, acc: Record, fields: seq<Field>, eval: Field -> Value) {
    && r.Keys == acc.Keys + Names(fields)
    && (forall k :: k in acc && k !in Names(fields) ==> r[k] == acc[k])
    && (forall k :: k in Names(fields) ==> r[k] == eval(fields[LastIndex(fields, k)]))
  }

  /** Assigning the first field and then the rest is assigning all of them. */
  lemma AssembleStep(acc: Record, fields: seq<Field>, eval: Field -> Value, r: Record)
    requires |fields| > 0
    requires AssembledFrom(r, acc[fields[0].name := eval(fields[0])], fields[1..], eval)
    ensures AssembledFrom(r, acc, fields, eval)
  {
    var f, rest := fields[0], fields[1..];
    var acc' := acc[f.name := eval(f)];
    NamesOfTail(fields);
    forall k | k in acc && k !in Names(fields)
      ensures r[k] == acc[k]
    {
      assert k != f.name && k !in Names(rest);
    }
    forall k | k in Names(fields)
      ensures r[k] == eval(fields[LastIndex(fields, k)])
    {
      if k in Names(rest) {
        LastIndexOfTail(fields, k);
        assert r[k] == eval(rest[LastIndex(rest, k)]);
      } else {
        assert k == f.name;
        assert r[k] == acc'[k];
      }
    }
  }

  lemma NamesOfTail(fields: seq<Field>)
    requires |fields| > 0
    ensures Names(fields) == {fields[0].name} + Names(fields[1..])
  {
    assert fields == [fields[0]] + fields[1..];
  }

  /** Dropping the first field shifts the last position of a name that still
      occurs by one. */
  lemma LastIndexOfTail(fields: seq<Field>, name: string)
    requires |fields| > 0 && name in Names(fields[1..])
    ensures LastIndex(fields, name) == 1 + LastIndex(fields[1..], name)
  {
    var i := LastIndex(fields[1..], name);
    assert fields[1..][i] == fields[1 + i];
  }

  /** The record getSubFields builds for one matched node (main.go:89-92):
      every sub-field evaluated with getValues from that node. */
  function SubRecord<Node>(o: Oracle<Node>, node: Node, subFields: seq<Field>): (r: Record)
    ensures r.Keys == Names(subFields)
    ensures forall k :: k in r ==> r[k] == GetValues(o, node, subFields[LastIndex(subFields, k)])
  {
    Assemble(map[], subFields, g => GetValues(o, node, g))
  }

  /** getSubFields (main.go:86-95): one record per match, in match order. */
  function GetSubFields<Node>(o: Oracle<Node>, scope: Node, f: Field): (rows: seq<Record>)
    ensures |rows| == |o.find(scope, f.selector)|
    ensures forall i :: 0 <= i < |rows| ==> rows[i].Keys == Names(f.subFields)
    ensures forall i :: 0 <= i < |rows| ==>
      rows[i] == SubRecord(o, o.find(scope, f.selector)[i], f.subFields)
  {
    RecordsOf(o, o.find(scope, f.selector), f.subFields)
  }

  /** The Each/append loop of getSubFields (main.go:88-94): one record per
      node, in order. */
  function RecordsOf<Node>(o: Oracle<Node>, nodes: seq<Node>, subFields: seq<Field>): (rows: seq<Record>)
    ensures |rows| == |nodes|
    ensures forall i :: 0 <= i < |nodes| ==> rows[i] == SubRecord(o, nodes[i], subFields)
  {
    if |nodes| == 0 then []
    else [SubRecord(o, nodes[0], subFields)] + RecordsOf(o, nodes[1..], subFields)
  }

  /** The per-field choice in endpointHandler (main.go:58-62): a field without
      sub-fields is extracted by getValues, one with sub-fields by
      getSubFields, whatever its type says. */
  function EvaluateField<Node>(o: Oracle<Node>, scope: Node, f: Field): (v: Value)
    ensures v.Records? <==> |f.subFields| > 0
    ensures |f.subFields| == 0 ==> LeafShape(f.kind, v) && StringsTrimmed(v)
    ensures v.Records? ==> |v.rows| == |o.find(scope, f.selector)|
    ensures |f.subFields| == 0 ==> v == GetValues(o, scope, f)
    ensures v.Records? ==> forall i :: 0 <= i < |v.rows| ==>
      v.rows[i] == SubRecord(o, o.find(scope, f.selector)[i], f.subFields)
  {
    if |f.subFields| == 0 then GetValues(o, scope, f)
    else Records(GetSubFields(o, scope, f))
  }

  /** The response map of endpointHandler (main.go:53-63): "source" holds the
      resolved URL, then every top-level field is evaluated from the document
      root and stored under its name. */
  function Respond<Node>(o: Oracle<Node>, root: Node, url: string, fields: seq<Field>): (r: Record)
    ensures r.Keys == {"source"} + Names(fields)
    ensures "source" !in Names(fields) ==> r["source"] == Str(url)
    ensures forall k :: k in Names(fields) ==>
      r[k] == EvaluateField(o, root, fields[LastIndex(fields, k)])
  {
    Assemble(map["source" := Str(url)], fields, f => EvaluateField(o, root, f))
  }

  /** Composite nesting is one level deep: every value inside a record is a
      leaf shaped by its sub-field's type, because getSubFields calls
      getValues and never itself (main.go:91). */
  lemma RecordsHoldOnlyLeaves<Node>(o: Oracle<Node>, scope: Node, f: Field)
    requires |f.subFields| > 0
    ensures var v := EvaluateField(o, scope, f);
      forall i, k :: 0 <= i < |v.rows| && k in v.rows[i] ==>
        IsLeaf(v.rows[i][k]) && LeafShape(f.subFields[LastIndex(f.subFields, k)].kind, v.rows[i][k])
  {
    var v := EvaluateField(o, scope, f);
    var m := o.find(scope, f.selector);
    forall i, k | 0 <= i < |v.rows| && k in v.rows[i]
      ensures IsLeaf(v.rows[i][k]) && LeafShape(f.subFields[LastIndex(f.subFields, k)].kind, v.rows[i][k])
    {
      var g := f.subFields[LastIndex(f.subFields, k)];
      assert v.rows[i][k] == GetValues(o, m[i], g);
    }
  }

  /** The sub-fields of a sub-field are never looked at: dropping them leaves
      the result of a composite field unchanged. */
  lemma NestedSubFieldsIgnored<Node>(o: Oracle<Node>, scope: Node, f: Field)
    requires |f.subFields| > 0
    ensures EvaluateField(o, scope, f) == EvaluateField(o, scope, f.(subFields := Flatten(f.subFields)))
  {
    var f' := f.(subFields := Flatten(f.subFields));
    var m := o.find(scope, f.selector);
    forall i | 0 <= i < |m|
      ensures SubRecord(o, m[i], f.subFields) == SubRecord(o, m[i], f'.subFields)
    {
      SubRecordIgnoresNesting(o, m[i], f.subFields);
    }
    assert GetSubFields(o, scope, f) == GetSubFields(o, scope, f');
  }

  /** The record for one node does not depend on the sub-fields' own
      sub-fields. */
  lemma SubRecordIgnoresNesting<Node>(o: Oracle<Node>, node: Node, subs: seq<Field>)
    ensures SubRecord(o, node, subs) == SubRecord(o, node, Flatten(subs))
  {
    var flat := Flatten(subs);
    var r1, r2 := SubRecord(o, node, subs), SubRecord(o, node, flat);
    LastIndexOfFlatten(subs);
    forall k | k in r1
      ensures r1[k] == r2[k]
    {
      var j := LastIndex(subs, k);
      assert r1[k] == GetValues(o, node, subs[j]);
      assert r2[k] == GetValues(o, node, flat[j]);
      GetValuesIgnoresSubFields(o, node, subs[j]);
    }
    SameRecord(r1, r2);
  }

  lemma GetValuesIgnoresSubFields<Node>(o: Oracle<Node>, scope: Node, g: Field)
    ensures GetValues(o, scope, g) == GetValues(o, scope, g.(subFields := []))
  {
  }

  lemma SameRecord(r1: Record, r2: Record)
    requires r1.Keys == r2.Keys
    requires forall k :: k in r1 ==> r1[k] == r2[k]
    ensures r1 == r2
  {
  }

  /** The same fields with their own sub-fields removed. */
  function Flatten(fields: seq<Field>): (flat: seq<Field>)
    ensures |flat| == |fields|
    ensures forall i :: 0 <= i < |fields| ==> flat[i] == fields[i].(subFields := [])
  {
    seq(|fields|, i requires 0 <= i < |fields| => fields[i].(subFields := []))
  }

  /** Flattening keeps every name where it was. */
  lemma LastIndexOfFlatten(fields: seq<Field>)
    ensures Names(Flatten(fields)) == Names(fields)
    ensures forall k :: LastIndex(Flatten(fields), k) == LastIndex(fields, k)
  {
    var flat := Flatten(fields);
    assert forall i :: 0 <= i < |fields| ==> flat[i].name == fields[i].name;
  }

  /** Once a field has sub-fields its type plays no part (main.go:58). */
  lemma CompositeIgnoresType<Node>(o: Oracle<Node>, scope: Node, f: Field, kind: string)
    requires |f.subFields| > 0
    ensures EvaluateField(o, scope, f.(kind := kind)) == EvaluateField(o, scope, f)
  {
  }
}

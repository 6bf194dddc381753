/** The configuration records of main.go and the values an extraction
    produces. */
module Schema {

  /** One entry of an endpoint's field list (main.go:12-17). `kind` is the
      configuration's `Type`. */
  datatype Field = Field(name: string, selector: string, kind: string, subFields: seq<Field>)

  /** One configured endpoint (main.go:19-24): the route, the source URL with
      `%name%` placeholders, the query variables to substitute, and the fields
      to extract. */
  datatype Endpoint = Endpoint(path: string, source: string, variables: seq<string>, fields: seq<Field>)

  /** The four shapes main.go puts into a response: a trimmed string, a match
      count, a list of trimmed strings, and a list of records. */
  datatype Value =
    | Str(text: string)
    | Int(count: nat)
    | StrList(items: seq<string>)
    | Records(rows: seq<map<string, Value>>)

  /** A value that getValues can produce, as opposed to a list of records. */
  predicate IsLeaf(v: Value) {
    !v.Records?
  }

  /** The set of names of the given fields. */
  function Names(fields: seq<Field>): set<string> {
    set i | 0 <= i < |fields| :: fields[i].name
  }

  /** Position of the last field called `name`, or -1 if there is none. This
      is the field whose value a map built by assigning in field order ends up
      holding under that name. */
  function LastIndex(fields: seq<Field>, name: string): (i: int)
    ensures -1 <= i < |fields|
    ensures i >= 0 ==> fields[i].name == name
    ensures forall j :: i < j < |fields| ==> fields[j].name != name
    ensures i == -1 <==> name !in Names(fields)
  {
    if |fields| == 0 then -1
    else if fields[|fields| - 1].name == name then |fields| - 1
    else
      var i := LastIndex(fields[..|fields| - 1], name);
      assert Names(fields) == Names(fields[..|fields| - 1]) + {fields[|fields| - 1].name};
      i
  }
}

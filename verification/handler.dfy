/** The request path of endpointHandler (main.go:40-68): substitute the query
    values into the source URL, fetch the document, assemble the response.
    Fetching is a parameter; a failed fetch ends the process (main.go:49-51),
    so no response is produced. */
module Handler {
  import opened Schema
  import opened Dom
  import opened Replace
  import opened Extraction

  datatype Option<T> = None | Some(value: T)

  /** gin's Context.Query: the value of a query parameter, or the empty string
      when the request does not carry it. */
  function QueryValue(query: map<string, string>, key: string): (v: string)
    ensures key in query ==> v == query[key]
    ensures key !in query ==> v == []
  {
    if key in query then query[key] else []
  }

  /** The text a variable is written as inside the source URL. */
  function Placeholder(variable: string): (p: string)
    ensures |p| == |variable| + 2 && p[0] == '%' && p[|p| - 1] == '%'
    ensures p[1..|p| - 1] == variable
  {
    "%" + variable + "%"
  }

  /** main.go:43-46: for each declared variable in order, replace every
      `%variable%` in the URL built so far by the query value. */
  function ResolveSource(source: string, variables: seq<string>, query: map<string, string>): string
    decreases |variables|
  {
    if |variables| == 0 then source
    else
      var v := variables[0];
      ResolveSource(ReplaceAll(source, Placeholder(v), QueryValue(query, v)), variables[1..], query)
  }

  /** One request against an endpoint: the response map, or None when the
      document could not be fetched. */
  function Handle<Node>(o: Oracle<Node>, fetch: string -> Option<Node>, e: Endpoint,
                        query: map<string, string>): (r: Option<Record>)
    ensures
      var url := ResolveSource(e.source, e.variables, query);
      && (r.None? <==> fetch(url).None?)
      && (r.Some? ==> r.value.Keys == {"source"} + Names(e.fields))
      && (r.Some? && "source" !in Names(e.fields) ==> r.value["source"] == Str(url))
      && (r.Some? ==> forall k :: k in Names(e.fields) ==>
            r.value[k] == EvaluateField(o, fetch(url).value, e.fields[LastIndex(e.fields, k)]))
  {
    var url := ResolveSource(e.source, e.variables, query);
    match fetch(url)
    case None => None
    case Some(root) => Some(Respond(o, root, url, e.fields))
  }

  /** Substitution happens in declaration order: resolving a + b is resolving
      a, then b on the result. */
  lemma {:induction false} ResolveSourceInOrder(source: string, a: seq<string>, b: seq<string>,
                                                query: map<string, string>)
    ensures ResolveSource(source, a + b, query) == ResolveSource(ResolveSource(source, a, query), b, query)
    decreases |a|
  {
    if |a| > 0 {
      var v := a[0];
      assert (a + b)[0] == v && (a + b)[1..] == a[1..] + b;
      ResolveSourceInOrder(ReplaceAll(source, Placeholder(v), QueryValue(query, v)), a[1..], b, query);
    } else {
      assert a + b == b;
    }
  }

  /** A source URL containing none of the declared placeholders is used as it
      is, and so is any source when no variables are declared. */
  lemma {:induction false} ResolveSourceWithoutPlaceholders(source: string, variables: seq<string>,
                                                            query: map<string, string>)
    requires forall i :: 0 <= i < |variables| ==> !Occurs(source, Placeholder(variables[i]))
    ensures ResolveSource(source, variables, query) == source
    decreases |variables|
  {
    if |variables| > 0 {
      var v := variables[0];
      ReplaceAllWithoutOccurrence(source, Placeholder(v), QueryValue(query, v));
      assert forall i :: 0 <= i < |variables[1..]| ==> variables[1..][i] == variables[i + 1];
      ResolveSourceWithoutPlaceholders(source, variables[1..], query);
    }
  }

  /** With one variable, the URL is the source cut at every `%variable%` and
      glued back with the query value, and the pieces hold no placeholder. */
  lemma ResolveSourceOneVariable(source: string, v: string, query: map<string, string>)
    ensures ResolveSource(source, [v], query) == Join(Split(source, Placeholder(v)), QueryValue(query, v))
    ensures Join(Split(source, Placeholder(v)), Placeholder(v)) == source
    ensures forall k :: 0 <= k < |Split(source, Placeholder(v))| ==>
      !Occurs(Split(source, Placeholder(v))[k], Placeholder(v))
  {
    var p := Placeholder(v);
    ReplaceAllIsJoinOfSplit(source, p, QueryValue(query, v));
    SplitJoin(source, p);
    SplitPiecesFree(source, p);
  }

  /** A source that is exactly one placeholder becomes the query value, or the
      empty string when the request lacks the variable. */
  lemma WholeSourceIsPlaceholder(v: string, query: map<string, string>)
    ensures ResolveSource(Placeholder(v), [v], query) == QueryValue(query, v)
  {
    var p := Placeholder(v);
    assert p[..|p|] == p && p[|p|..] == [];
    assert ReplaceAll(p, p, QueryValue(query, v)) == QueryValue(query, v) + [];
  }
}

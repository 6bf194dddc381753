# scrapingapi in Dafny

scrapingapi turns web pages into a JSON API. Every configured endpoint has:

- a route;
- a source URL with `%variable%` placeholders;
- a list of query variables;
- a list of fields.

A field has a name, a CSS selector, a type and optional sub-fields. On a
request, the handler substitutes the query values into the source URL, fetches
the document, and answers with a map. The map holds `"source"` (the resolved
URL) plus one entry per field:

- type `"string"` gives the trimmed text of the first match;
- type `"count"` gives the number of matches;
- any other type gives the list of trimmed texts of all matches;
- a field with sub-fields gives one record per match, each built from the
  sub-fields evaluated inside that match.

The model is split into modules:

- `Trim` — Go's `strings.TrimSpace`, specified by what a trim is, with a
  uniqueness lemma.
- `Replace` — Go's `strings.Replace(s, old, new, -1)`. For a non-empty
  pattern it is proved equal to a split at the pattern joined back with the
  replacement. The empty-pattern branch (`InsertEverywhere`) is defined as Go
  defines it but is specified only by its definition and by
  `InsertEverywhereEmpty`; main.go:45 never reaches it, because a placeholder
  has at least two characters. `Split` repeats
  the same left-to-right scan, so it is pinned down separately by
  `SplitCharacterised`: the pieces join back to the string, every cut is at
  the leftmost occurrence, and the last piece holds no occurrence.
- `Schema` (schema.dfy) — the `Field` and `Endpoint` records, the response values, and
  "last field of a name".
- `Dom` (dom.dfy) — the HTML library as an oracle: selector lookup from a scope node, and
  text of a node.
- `Extraction` — `getValues`, `getSubFields`, and the field loop of
  `endpointHandler`.
- `Handler` — URL templating and the whole request path, with fetching as a
  parameter.
- `Scenarios` — small documents with the responses they must produce.

The code gives type `"string"` the first-match text. Every other type, `"text"`
included, takes the list branch (main.go:73-83). The model follows the code.

## Model

| member | source | states |
|---|---|---|
| Trim.TrimSpace | main.go:74 | The result has no whitespace at either end, and it is the input with only whitespace removed before and after it. |
| Trim.TrimUnique | main.go:74 | Two such trims of one string are equal, so the trim is well defined. |
| Trim.TrimSpaceCharacterised | main.go:74 | A string is the trim of s exactly when it equals TrimSpace(s), in both directions. |
| Trim.TrimSpaceOfPadded | main.go:74 | Whitespace around a core with no edge whitespace is removed, and the core is kept exactly. |
| Trim.TrimSpaceIdempotent | main.go:80 | Trimming an already trimmed text changes nothing. |
| Trim.TrimSpaceEmptyIffAllSpace | main.go:74 | The trim is empty exactly when the text is all whitespace. |
| Trim.TrimmedIsOwnTrim | main.go:74 | A text with no edge whitespace is its own trim. |
| Trim.IsSpace | main.go:74 | The whitespace set of Go's unicode.IsSpace, which strings.TrimSpace strips: U+0009-U+000D, space, U+0085, U+00A0, U+1680, U+2000-U+200A, U+2028, U+2029, U+202F, U+205F and U+3000. Specified by this definition alone; the Trim lemmas hold for it. |
| Replace.ReplaceAll | main.go:45 | strings.Replace with count -1: scanning left to right, each non-overlapping occurrence, leftmost first, is replaced; an empty pattern inserts the replacement around every character. Specified by ReplaceAllIsJoinOfSplit together with SplitCharacterised, and by ReplaceAllWithoutOccurrence and ReplaceAllSelf. |
| Replace.Split | main.go:45 | Cutting at a non-empty pattern gives at least one piece, and the first piece is a prefix of the string. |
| Replace.SplitLeftmost | main.go:45 | Every cut is at the leftmost occurrence: no occurrence of the pattern starts inside a piece that is followed by a cut, so "aaa" cut at "aa" is ["", "a"] and never ["a", ""]. |
| Replace.SplitWithoutOccurrence | main.go:45 | A string without the pattern is split into itself alone. |
| Replace.SplitUnique | main.go:45 | Any cutting whose pieces join back to the string, whose cuts are leftmost and whose last piece holds no occurrence is the split. |
| Replace.SplitCharacterised | main.go:45 | A list of pieces is the split exactly when it joins back to the string with the pattern, every cut is leftmost, and the last piece holds no occurrence, in both directions. |
| Replace.SplitJoin | main.go:45 | Joining the pieces of the split with the pattern gives back the original string. |
| Replace.ReplaceAllIsJoinOfSplit | main.go:45 | Replacing all occurrences equals cutting at the pattern and joining with the replacement. |
| Replace.SplitPiecesFree | main.go:45 | No piece of the split contains the pattern, so no occurrence survives inside a piece. Occurrences that overlap a cut are not replaced; in "%a%a%" only the one at index 0 is, as SplitLeftmost states. |
| Replace.ReplaceAllWithoutOccurrence | main.go:45 | A string that does not contain the pattern is left unchanged. |
| Replace.ReplaceAllSelf | main.go:45 | Replacing a pattern by itself is the identity, including for the empty pattern. |
| Replace.InsertEverywhereEmpty | main.go:45 | With an empty pattern, inserting the empty string everywhere changes nothing. |
| Dom.FirstText | main.go:74 | `First().Text()`: the text of the first node of a selection, or "" for an empty selection. Its meaning is stated through GetValues's "string" clauses. |
| Schema.LastIndex | main.go:57-63 | Gives the position of the last field with a name, or -1 exactly when no field has that name. |
| Extraction.GetValues | main.go:70-84 | "string" gives a trim of the first match's text, or "" with no match. "count" gives the number of matches. Any other type gives one trim per match, in order. Every string has no edge whitespace. |
| Extraction.TrimmedTexts | main.go:78-82 | One entry per matched node, in node order, and entry k is the trim of node k's text. |
| Extraction.Assemble | main.go:57-63 | Assigning the fields in order into a map: keys are the old keys plus the field names, a key no field names keeps its old value, and a named key holds the value of the last field with that name. |
| Extraction.SubRecord | main.go:89-92 | The record of one match has exactly the sub-field names as keys. Each key holds getValues of the last sub-field of that name, evaluated inside the match. |
| Extraction.GetSubFields | main.go:86-95 | One record per match of the selector, in match order, each keyed by the sub-field names. |
| Extraction.RecordsOf | main.go:88-94 | Record i is the sub-field record of node i, and there are as many records as nodes. |
| Extraction.EvaluateField | main.go:58-62 | A field without sub-fields is extracted by getValues: its value is GetValues of the field, a leaf shaped by its type. A field with sub-fields is extracted by getSubFields: its value is a list of records, one per match, and row i is the sub-field record of match i. The value is a list of records exactly when the field has sub-fields. |
| Extraction.Respond | main.go:53-63 | Keys are "source" plus the field names. "source" holds the resolved URL unless a field named "source" overrides it. Each named key holds the last same-named field's value, evaluated from the document root. |
| Extraction.RecordsHoldOnlyLeaves | main.go:86-96 | Nesting is one level deep: every value inside a record is a leaf, shaped by its sub-field's type. |
| Extraction.NestedSubFieldsIgnored | main.go:86-96 | Dropping the sub-fields of sub-fields leaves a composite field's result unchanged. |
| Extraction.SubRecordIgnoresNesting | main.go:89-92 | The record built for one match does not depend on the sub-fields' own sub-fields. |
| Extraction.CompositeIgnoresType | main.go:58-61 | Once a field has sub-fields, its type does not affect its value. |
| Handler.QueryValue | main.go:45 | A query variable the request carries stands for its value, and a missing one stands for the empty string. |
| Handler.Placeholder | main.go:45 | The placeholder of a variable is '%', then exactly the variable, then '%'. |
| Handler.ResolveSource | main.go:43-46 | The substitution loop: for each declared variable in order, every `%variable%` in the URL built so far becomes the query value. Specified by ResolveSourceInOrder, ResolveSourceWithoutPlaceholders, ResolveSourceOneVariable and WholeSourceIsPlaceholder. |
| Handler.Handle | main.go:40-68 | There is no response exactly when the resolved URL cannot be fetched. Otherwise the response has "source" plus the field names as keys, "source" is the resolved URL unless a field overrides it, and each field is evaluated from the fetched document's root. |
| Handler.ResolveSourceInOrder | main.go:43-46 | Variables are substituted in declaration order: resolving a + b is resolving a, then b on the result. |
| Handler.ResolveSourceWithoutPlaceholders | main.go:43-46 | A source URL that contains none of the declared placeholders is used as it is. |
| Handler.ResolveSourceOneVariable | main.go:45 | With one variable, the URL is the source cut at every placeholder and joined with the query value. The cut is lossless, and no piece keeps a placeholder. |
| Handler.WholeSourceIsPlaceholder | main.go:43-46 | A source that is exactly one placeholder resolves to the query value, or to "" when the request lacks it. |
| Scenarios.ListOfItems | main.go:77-82 | A list-type field over two matches yields their two texts, in document order. |
| Scenarios.FirstAndCount | main.go:73-76 | "string" takes the first match's text without its padding, and "count" over two matches is 2. |
| Scenarios.NoMatch | main.go:70-84 | A selector matching nothing yields "", 0 and an empty list, never an error. |
| Scenarios.Composite | main.go:86-95 | A composite field over two list items, whose sub-field reads a child element of each item, yields one single-key record per item, in document order. |
| Scenarios.ItemRecord | main.go:89-92 | A single "string" sub-field yields a one-entry record that holds the text of the sub-field's first match inside the node. |
| Scenarios.LastFieldWins | main.go:53-63 | Two fields both named "source" leave one key, holding the value of the later field. The resolved URL is overwritten. |

## Left out

- HTTP serving is not modelled: gin routing, `gin.Default`, `r.Run` and the JSON encoding of the response (main.go:26-37, 65). The response is modelled as a map from field name to value.
- Configuration loading is not modelled: `viper` unmarshalling and `initConfig` with its panic on a missing file (main.go:28-31, 98-109). An endpoint is given as a value.
- Fetching is not modelled: `goquery.NewDocument` does network I/O. It is a parameter `fetch` that returns a document or nothing. Nothing stands for the `log.Fatal` path (main.go:49-51), which ends the process, so no response exists.
- CSS selector matching and text extraction are not modelled: they belong to the HTML library. They are an oracle that gives the matches of a selector from a scope node in document order, and the text of a node. `Selection.Text()` and `Contents().Text()` (main.go:74, 80) are both taken as the node's text.
- Extraction.GetValues: `count` is a `nat`, not Go's machine `int`, because a match count cannot overflow it in practice.
- Handler.QueryValue: gin's `c.Query` returns the first value of a repeated parameter. The model's query map already holds one value per key.
- Selector syntax errors are not modelled: the oracle's `find` is total. Depending on the goquery version, an unparsable selector either panics or matches nothing. Only the second is expressible, as an oracle that returns no nodes.
- Concurrency between requests is not modelled. Requests share no mutable state.
- Strings are sequences of Unicode characters. Invalid UTF-8 and its handling by `strings.TrimSpace` are not modelled.
- The first-match type is sometimes described as `"text"`, but the code tests for `"string"` (main.go:73). The model follows the code, so a field of type `"text"` yields a list.

/** Requests against small documents such as `<ul><li>a</li><li>b</li></ul>`,
    described by what the oracle returns for them: from the root, "li" finds
    the two items in document order. */
module Scenarios {
  import opened Schema
  import opened Dom
  import opened Trim
  import opened Extraction

  function Leaf(name: string, selector: string, kind: string): Field {
    Field(name, selector, kind, [])
  }

  /** Any type other than "string" and "count" -- "text" included -- lists the
      text of every match, in document order. */
  lemma ListOfItems<Node>(o: Oracle<Node>, root: Node, f: Field, a: Node, b: Node, ta: string, tb: string)
    requires o.find(root, f.selector) == [a, b]
    requires o.text(a) == ta && o.text(b) == tb && NoEdgeSpace(ta) && NoEdgeSpace(tb)
    requires f.kind != "string" && f.kind != "count"
    ensures GetValues(o, root, f) == StrList([ta, tb])
  {
    var items := GetValues(o, root, f).items;
    ListItem(o, root, f, 0, ta);
    ListItem(o, root, f, 1, tb);
    PairEquals(items, ta, tb);
  }

  /** Item k of a list extraction is the text of match k when that text has no
      whitespace at its ends. */
  lemma ListItem<Node>(o: Oracle<Node>, root: Node, f: Field, k: nat, t: string)
    requires f.kind != "string" && f.kind != "count"
    requires k < |o.find(root, f.selector)| && o.text(o.find(root, f.selector)[k]) == t && NoEdgeSpace(t)
    ensures k < |GetValues(o, root, f).items| && GetValues(o, root, f).items[k] == t
  {
    TrimmedUnchanged(t, GetValues(o, root, f).items[k]);
  }

  lemma RecordPairEquals(rows: seq<Record>, x: Record, y: Record)
    requires |rows| == 2 && rows[0] == x && rows[1] == y
    ensures rows == [x, y]
  {
  }

  lemma PairEquals(items: seq<string>, x: string, y: string)
    requires |items| == 2 && items[0] == x && items[1] == y
    ensures items == [x, y]
  {
  }

  /** A text without whitespace at its ends is its own trim. */
  lemma TrimmedUnchanged(t: string, r: string)
    requires NoEdgeSpace(t) && IsTrimOf(t, r)
    ensures r == t
  {
    TrimmedIsOwnTrim(t);
    TrimUnique(t, t, r);
  }

  /** "string" takes the text of the first match only, with its padding
      removed; "count" counts the matches. */
  lemma FirstAndCount<Node>(o: Oracle<Node>, root: Node, a: Node, b: Node, ta: string, pad: string)
    requires o.find(root, "li") == [a, b] && AllSpace(pad) && NoEdgeSpace(ta)
    requires o.text(a) == pad + ta + pad
    ensures GetValues(o, root, Leaf("first", "li", "string")) == Str(ta)
    ensures GetValues(o, root, Leaf("count", "li", "count")) == Int(2)
  {
    PaddedFirst(o, root, Leaf("first", "li", "string"), ta, pad);
  }

  lemma PaddedFirst<Node>(o: Oracle<Node>, scope: Node, g: Field, t: string, pad: string)
    requires g.kind == "string" && |o.find(scope, g.selector)| > 0
    requires o.text(o.find(scope, g.selector)[0]) == pad + t + pad && AllSpace(pad) && NoEdgeSpace(t)
    ensures GetValues(o, scope, g) == Str(t)
  {
    var raw := pad + t + pad;
    TrimSpaceOfPadded(pad, t, pad);
    TrimSpaceCharacterised(raw, GetValues(o, scope, g).text);
  }

  /** A selector that matches nothing gives "", 0 and [] -- never an error. */
  lemma NoMatch<Node>(o: Oracle<Node>, root: Node, selector: string)
    requires o.find(root, selector) == []
    ensures GetValues(o, root, Leaf("a", selector, "string")) == Str([])
    ensures GetValues(o, root, Leaf("b", selector, "count")) == Int(0)
    ensures GetValues(o, root, Leaf("c", selector, "list")) == StrList([])
  {
  }

  /** A composite field over `<li><span>Foo</span></li><li><span>Bar</span></li>`
      whose one sub-field reads the span inside each item yields one
      single-key record per item, in document order. */
  lemma Composite<Node>(o: Oracle<Node>, root: Node, f: Field, sel: string,
                        a: Node, b: Node, sa: Node, sb: Node, ta: string, tb: string)
    requires f.subFields == [Leaf("text", sel, "string")]
    requires o.find(root, f.selector) == [a, b]
    requires o.find(a, sel) == [sa] && o.text(sa) == ta && NoEdgeSpace(ta)
    requires o.find(b, sel) == [sb] && o.text(sb) == tb && NoEdgeSpace(tb)
    ensures EvaluateField(o, root, f) == Records([map["text" := Str(ta)], map["text" := Str(tb)]])
  {
    var rows := GetSubFields(o, root, f);
    ItemRecord(o, a, f.subFields[0], ta);
    ItemRecord(o, b, f.subFields[0], tb);
    RecordPairEquals(rows, map["text" := Str(ta)], map["text" := Str(tb)]);
  }

  /** The record of one match under a single "string" sub-field is that
      sub-field's name bound to the text of its first match inside the node. */
  lemma ItemRecord<Node>(o: Oracle<Node>, node: Node, g: Field, t: string)
    requires g.kind == "string" && |o.find(node, g.selector)| > 0
    requires o.text(o.find(node, g.selector)[0]) == t && NoEdgeSpace(t)
    ensures SubRecord(o, node, [g]) == map[g.name := Str(t)]
  {
    FirstString(o, node, g, t);
    SingleName(g);
    SingletonRecord(SubRecord(o, node, [g]), g.name, Str(t));
  }

  /** A "string" field whose first match has text t without edge whitespace
      yields t. */
  lemma FirstString<Node>(o: Oracle<Node>, scope: Node, g: Field, t: string)
    requires g.kind == "string" && |o.find(scope, g.selector)| > 0
    requires o.text(o.find(scope, g.selector)[0]) == t && NoEdgeSpace(t)
    ensures GetValues(o, scope, g) == Str(t)
  {
    TrimmedUnchanged(t, GetValues(o, scope, g).text);
  }

  lemma SingleName(g: Field)
    ensures Names([g]) == {g.name} && LastIndex([g], g.name) == 0
  {
    assert [g][0] == g;
  }

  lemma SingletonRecord(r: Record, k: string, v: Value)
    requires r.Keys == {k} && r[k] == v
    ensures r == map[k := v]
  {
  }

  /** A later field of the same name wins, and a field called "source" hides
      the resolved URL. */
  lemma LastFieldWins<Node>(o: Oracle<Node>, root: Node, url: string, first: Field, last: Field)
    requires first.name == "source" && last.name == "source"
    ensures Respond(o, root, url, [first, last]) == map["source" := EvaluateField(o, root, last)]
  {
    var fields := [first, last];
    SameNameTwice(first, last);
    SingletonRecord(Respond(o, root, url, fields), "source", EvaluateField(o, root, last));
  }

  lemma SameNameTwice(first: Field, last: Field)
    requires first.name == last.name
    ensures Names([first, last]) == {last.name} && LastIndex([first, last], last.name) == 1
  {
    assert [first, last][0] == first && [first, last][1] == last;
  }
}

/**
 * Atlassian Document Format (ADF) trees as the Jira parser sees them, and
 * `extract_text_from_adf`, which flattens such a tree into plain text.
 *
 * The parser duck-types the JSON: a node is any dict, and it only ever looks at
 * the keys `type`, `text` and `content`. A `Value` keeps exactly that much.
 */
module Adf {
  import opened Options
  import opened Strings

  /** A decoded JSON value. An `Obj` records the three keys the parser reads (`None`
    * or `Missing` when the key is absent); a `Scalar` is a string, number or boolean,
    * of which the parser only ever asks whether it is truthy. */
  datatype Value =
    | Null
    | Scalar(truthy: bool)
    | Arr(items: seq<Value>)
    | Obj(kind: Option<string>, text: Option<string>, content: Content)

  /** The `content` key of a dict: absent, or a list of child values. */
  datatype Content = Missing | Nodes(nodes: seq<Value>)

  /** Python truthiness (`if not adf`); a dict is truthy when it has a key. */
  predicate Truthy(v: Value) {
    match v
    case Null => false
    case Scalar(t) => t
    case Arr(items) => |items| > 0
    case Obj(k, t, c) => k.Some? || t.Some? || c.Nodes?
  }

  /** A text run: `{"type": "text", "text": s}`. */
  function TextNode(s: string): Value {
    Obj(Some("text"), Some(s), Missing)
  }

  /** A dict the flattener treats as a text run (`type == "text"` and a `text` key). */
  predicate IsTextRun(v: Value) {
    v.Obj? && v.kind == Some("text") && v.text.Some?
  }

  /** A value whose children the flattener walks: a list, or a dict with `content`
    * that is not a text run. */
  predicate IsContainer(v: Value) {
    v.Arr? || (v.Obj? && !IsTextRun(v) && v.content.Nodes?)
  }

  /** The children a container is flattened from. */
  function Children(v: Value): seq<Value>
    requires IsContainer(v)
  {
    if v.Arr? then v.items else v.content.nodes
  }

  /** `extract_text_from_adf(v)`. The result never has leading or trailing whitespace;
    * a text run yields its text stripped; a value that is neither a text run nor a
    * container (None, a scalar, a dict without `content`) yields "". */
  function ExtractText(v: Value): (r: string)
    ensures IsStripped(r)
    ensures !IsTextRun(v) && !IsContainer(v) ==> r == ""
    decreases v
  {
    if !Truthy(v) then ""
    else
      match v
      case Obj(kind, text, Nodes(nodes)) =>
        if kind == Some("text") && text.Some? then Strip(text.value) else Strip(ChildrenText(nodes))
      case Obj(kind, text, Missing) =>
        if kind == Some("text") && text.Some? then Strip(text.value) else ""
      case Arr(items) => Strip(ChildrenText(items))
      case _ => ""
  }

  /** The accumulator of the two child loops: each child's text followed by a newline,
    * in document order. */
  function ChildrenText(vs: seq<Value>): string
    decreases vs
  {
    if vs == [] then "" else ExtractText(vs[0]) + "\n" + ChildrenText(vs[1..])
  }

  /** The texts of the children, one per child. */
  function ChildTexts(vs: seq<Value>): (ts: seq<string>)
    ensures |ts| == |vs|
  {
    seq(|vs|, i requires 0 <= i < |vs| => ExtractText(vs[i]))
  }

  // ---------------------------------------------------------------------------
  // Properties

  /** A text run yields exactly its text, stripped, whatever its other keys. */
  lemma ExtractTextRun(v: Value)
    requires IsTextRun(v)
    ensures ExtractText(v) == Strip(v.text.value)
  {
  }

  /** A container yields the stripped concatenation of its children's texts, each
    * followed by a newline, whether it is a list or a dict with `content`. */
  lemma ExtractContainer(v: Value)
    requires IsContainer(v)
    ensures ExtractText(v) == Strip(ChildrenText(Children(v)))
  {
    if !Truthy(v) {
      assert Children(v) == [];
    }
  }

  /** Flattening an output again through a text run gives it back: the output is a
    * fixed point. */
  lemma ExtractTextFixedPoint(v: Value)
    ensures ExtractText(TextNode(ExtractText(v))) == ExtractText(v)
  {
    var s := ExtractText(v);
    ExtractTextRun(TextNode(s));
    StripStripped(s, Whitespace);
  }

  /** Children are flattened in document order: the accumulator of a concatenation is
    * the concatenation of the accumulators. */
  lemma {:induction false} ChildrenTextAppend(a: seq<Value>, b: seq<Value>)
    ensures ChildrenText(a + b) == ChildrenText(a) + ChildrenText(b)
    decreases |a|
  {
    if a != [] {
      assert (a + b)[0] == a[0];
      assert (a + b)[1..] == a[1..] + b;
      ChildrenTextAppend(a[1..], b);
    } else {
      assert a + b == b;
    }
  }

  /** The accumulator is the children's texts joined by newlines, with one more newline
    * at the end. */
  lemma {:induction false} ChildrenTextIsJoin(vs: seq<Value>)
    requires vs != []
    ensures ChildrenText(vs) == Join("\n", ChildTexts(vs)) + "\n"
    decreases |vs|
  {
    if |vs| > 1 {
      ChildrenTextIsJoin(vs[1..]);
      assert ChildTexts(vs[1..]) == ChildTexts(vs)[1..];
    }
  }

  /** A container's text is its children's texts joined by newlines and stripped; when
    * no child is empty, the join is already stripped. */
  lemma ExtractContainerJoin(v: Value)
    requires IsContainer(v) && Children(v) != []
    ensures ExtractText(v) == Strip(Join("\n", ChildTexts(Children(v))))
    ensures (forall i :: 0 <= i < |Children(v)| ==> ExtractText(Children(v)[i]) != "") ==>
              ExtractText(v) == Join("\n", ChildTexts(Children(v)))
  {
    var ts := ChildTexts(Children(v));
    ExtractContainer(v);
    ChildrenTextIsJoin(Children(v));
    var j := Join("\n", ts);
    assert AllIn("\n", Whitespace);
    if forall i :: 0 <= i < |ts| ==> ts[i] != "" {
      JoinStripped("\n", ts);
      StripTrailing(j, "\n");
    } else {
      assert ExtractText(v) == Strip(j + "\n");
      StripNewlineLast(j);
    }
  }

  /** Removing one trailing newline before stripping makes no difference. */
  lemma StripNewlineLast(s: string)
    ensures Strip(s + "\n") == Strip(s)
  {
    var r := Strip(s);
    var k := StripCharsSlice(s, Whitespace);
    assert AllIn(s[..k], Whitespace);
    assert AllIn(s[k + |r|..] + "\n", Whitespace);
    assert s == s[..k] + r + s[k + |r|..];
    assert s + "\n" == s[..k] + r + (s[k + |r|..] + "\n");
    StripCharsAround(s[..k], r, s[k + |r|..] + "\n", Whitespace);
  }

  /** A container with a single child, a one-element list or a dict whose `content`
    * holds one node, has the text of that child. */
  lemma ExtractSingleton(v: Value, c: Value)
    requires IsContainer(v) && Children(v) == [c]
    ensures ExtractText(v) == ExtractText(c)
  {
    ExtractContainer(v);
    ChildrenTextSingle(c);
    assert AllIn("\n", Whitespace);
    StripTrailing(ExtractText(c), "\n");
  }

  /** The accumulator of a single child is its text and one newline. */
  lemma ChildrenTextSingle(c: Value)
    ensures ChildrenText([c]) == ExtractText(c) + "\n"
  {
    assert [c][1..] == [];
  }
}

/**
 * `extract_acceptance_criteria`: a scan over the top-level nodes of an ADF
 * description that collects the text runs of bullet lists lying under a heading
 * that mentions "acceptance".
 *
 * Every heading goes through the first branch of the scan and re-sets the
 * in-section flag from its own text, so a later non-acceptance heading only
 * switches collection off, a later acceptance heading switches it on again, and
 * the scan never stops early.
 */
module Acceptance {
  import opened Options
  import opened Strings
  import opened Adf

  // ---------------------------------------------------------------------------
  // Node classification

  /** The `content` list of a dict, or the empty list when the key is absent. */
  function ContentList(n: Value): seq<Value>
    requires n.Obj?
  {
    if n.content.Nodes? then n.content.nodes else []
  }

  predicate IsHeading(n: Value) {
    n.Obj? && n.kind == Some("heading")
  }

  predicate IsBulletList(n: Value) {
    n.Obj? && n.kind == Some("bulletList")
  }

  /** The texts of the direct children of type "text", concatenated (a missing `text` counts as empty):
    * the heading's direct text children only. */
  function DirectText(cs: seq<Value>): string
    decreases |cs|
  {
    if cs == [] then ""
    else
      var own := if cs[0].Obj? && cs[0].kind == Some("text") then cs[0].text.GetOr("") else "";
      own + DirectText(cs[1..])
  }

  /** The heading text the scan tests: joined, stripped and lower-cased. */
  function HeadingText(n: Value): string
    requires n.Obj?
  {
    Lower(Strip(DirectText(ContentList(n))))
  }

  /** The heading text has no surrounding whitespace, and lower-casing it again changes
    * nothing. */
  lemma HeadingTextNormal(n: Value)
    requires n.Obj?
    ensures IsStripped(HeadingText(n)) && Lower(HeadingText(n)) == HeadingText(n)
  {
    var s := Strip(DirectText(ContentList(n)));
    LowerStripped(s);
    LowerIdempotent(s);
  }

  /** A heading whose text contains "acceptance". */
  predicate IsAcceptanceHeading(n: Value) {
    IsHeading(n) && Contains(HeadingText(n), "acceptance")
  }

  /** The children's texts are joined in document order. */
  lemma {:induction false} DirectTextAppend(a: seq<Value>, b: seq<Value>)
    ensures DirectText(a + b) == DirectText(a) + DirectText(b)
    decreases |a|
  {
    if a == [] {
      assert a + b == b;
    } else {
      assert (a + b)[0] == a[0];
      assert (a + b)[1..] == a[1..] + b;
      DirectTextAppend(a[1..], b);
    }
  }

  /** A child that is not a text run (a mention, an emoji, any nested node) adds nothing
    * to the heading text, whatever it contains. */
  lemma DirectTextSkips(a: seq<Value>, c: Value)
    requires !(c.Obj? && c.kind == Some("text"))
    ensures DirectText(a + [c]) == DirectText(a)
  {
    DirectTextAppend(a, [c]);
    assert [c][1..] == [];
  }

  /** The strip before the test changes nothing: a heading is an acceptance heading
    * exactly when its direct text, lower-cased, contains "acceptance". */
  lemma AcceptanceHeadingIgnoresStrip(n: Value)
    requires IsHeading(n)
    ensures IsAcceptanceHeading(n) <==> ContainsCI(DirectText(ContentList(n)), "acceptance")
  {
    var s := DirectText(ContentList(n));
    var r := Strip(s);
    var k := StripCharsSlice(s, Whitespace);
    ContainsCIPadded(s, k, k + |r|, "acceptance");
  }

  // ---------------------------------------------------------------------------
  // The texts of one bullet list: bulletList -> item -> paragraph -> text run

  /** Non-empty and without surrounding whitespace. */
  predicate Trimmed(x: string) {
    x != "" && IsStripped(x)
  }

  /** Every element is trimmed. */
  predicate AllTrimmed(xs: seq<string>) {
    forall x :: x in xs ==> Trimmed(x)
  }

  /** `f` applied to each element of `ts`, the results concatenated in order. */
  function ConcatMap<T>(f: T -> seq<string>, ts: seq<T>): seq<string>
    decreases |ts|
  {
    if ts == [] then [] else ConcatMap(f, ts[..|ts| - 1]) + f(ts[|ts| - 1])
  }

  /** Concatenating trimmed pieces gives trimmed elements. */
  lemma {:induction false} ConcatMapTrimmed<T>(f: T -> seq<string>, ts: seq<T>)
    requires forall i :: 0 <= i < |ts| ==> AllTrimmed(f(ts[i]))
    ensures AllTrimmed(ConcatMap(f, ts))
    decreases |ts|
  {
    if ts != [] {
      var n := |ts| - 1;
      assert forall i :: 0 <= i < n ==> ts[..n][i] == ts[i];
      ConcatMapTrimmed(f, ts[..n]);
    }
  }

  /** When each element gives at most one piece, there are at most as many pieces as
    * elements. */
  lemma {:induction false} ConcatMapAtMostOne<T>(f: T -> seq<string>, ts: seq<T>)
    requires forall i :: 0 <= i < |ts| ==> |f(ts[i])| <= 1
    ensures |ConcatMap(f, ts)| <= |ts|
    decreases |ts|
  {
    if ts != [] {
      var n := |ts| - 1;
      assert forall i :: 0 <= i < n ==> ts[..n][i] == ts[i];
      ConcatMapAtMostOne(f, ts[..n]);
    }
  }

  /** Concatenation is applied piece by piece, in order. */
  lemma {:induction false} ConcatMapAppend<T>(f: T -> seq<string>, a: seq<T>, b: seq<T>)
    ensures ConcatMap(f, a + b) == ConcatMap(f, a) + ConcatMap(f, b)
    decreases |b|
  {
    if b == [] {
      assert a + b == a;
    } else {
      var n := |b| - 1;
      assert (a + b)[..|a + b| - 1] == a + b[..n];
      assert (a + b)[|a + b| - 1] == b[n];
      ConcatMapAppend(f, a, b[..n]);
    }
  }

  /** `x` is in the concatenation exactly when one of the pieces holds it. */
  lemma {:induction false} ConcatMapMembers<T>(f: T -> seq<string>, ts: seq<T>, x: string)
    ensures x in ConcatMap(f, ts) <==> exists c :: 0 <= c < |ts| && x in f(ts[c])
    decreases |ts|
  {
    if ts != [] {
      var n := |ts| - 1;
      ConcatMapMembers(f, ts[..n], x);
      if exists c :: 0 <= c < |ts| && x in f(ts[c]) {
        var c :| 0 <= c < |ts| && x in f(ts[c]);
        if c < n {
          assert ts[..n][c] == ts[c];
        }
      }
    }
  }

  /** What one inline node adds: its `text`, stripped, when that is not blank. */
  function RunText(t: Value): (r: seq<string>)
    ensures AllTrimmed(r) && |r| <= 1
  {
    if t.Obj? && t.text.Some? && Strip(t.text.value) != "" then [Strip(t.text.value)] else []
  }

  /** The texts of a paragraph's inline nodes, in order. */
  function ParagraphText(p: Value): (r: seq<string>)
    ensures AllTrimmed(r)
  {
    if p.Obj? then
      ConcatMapTrimmed(RunText, ContentList(p));
      ConcatMap(RunText, ContentList(p))
    else []
  }

  /** The texts of a list item's paragraphs, in order. */
  function ItemText(item: Value): (r: seq<string>)
    ensures AllTrimmed(r)
  {
    if item.Obj? then
      ConcatMapTrimmed(ParagraphText, ContentList(item));
      ConcatMap(ParagraphText, ContentList(item))
    else []
  }

  /** The texts a bullet list contributes. */
  function BulletItems(n: Value): (r: seq<string>)
    requires n.Obj?
    ensures AllTrimmed(r)
  {
    ConcatMapTrimmed(ItemText, ContentList(n));
    ConcatMap(ItemText, ContentList(n))
  }

  // ---------------------------------------------------------------------------
  // Shape the scan relies on: the source calls `.get` on these values and would
  // raise on anything but a dict.

  predicate ParagraphShaped(p: Value) {
    p.Obj? && forall c :: 0 <= c < |ContentList(p)| ==> ContentList(p)[c].Obj?
  }

  predicate ItemShaped(item: Value) {
    item.Obj? && forall b :: 0 <= b < |ContentList(item)| ==> ParagraphShaped(ContentList(item)[b])
  }

  predicate ListShaped(n: Value) {
    n.Obj? && forall a :: 0 <= a < |ContentList(n)| ==> ItemShaped(ContentList(n)[a])
  }

  /** Every top-level node is a dict, and every bullet list the scan descends into is
    * dicts three levels down. */
  predicate ShapedFrom(nodes: seq<Value>, on: bool)
    decreases |nodes|
  {
    nodes == [] ||
    (nodes[0].Obj?
     && (on && IsBulletList(nodes[0]) ==> ListShaped(nodes[0]))
     && ShapedFrom(nodes[1..], if IsHeading(nodes[0]) then IsAcceptanceHeading(nodes[0]) else on))
  }

  predicate ScanShaped(nodes: seq<Value>) {
    ShapedFrom(nodes, false)
  }

  // ---------------------------------------------------------------------------
  // The scan

  /** The texts collected from `nodes` when the in-section flag starts as `on`. */
  function Scan(nodes: seq<Value>, on: bool): (r: seq<string>)
    ensures AllTrimmed(r)
    decreases |nodes|
  {
    if nodes == [] then []
    else
      var n := nodes[0];
      if IsHeading(n) then Scan(nodes[1..], IsAcceptanceHeading(n))
      else if on && IsBulletList(n) then BulletItems(n) + Scan(nodes[1..], on)
      else Scan(nodes[1..], on)
  }

  /** The in-section flag after scanning `nodes` from `on`. */
  function FlagAfter(nodes: seq<Value>, on: bool): bool
    decreases |nodes|
  {
    if nodes == [] then on
    else FlagAfter(nodes[1..], if IsHeading(nodes[0]) then IsAcceptanceHeading(nodes[0]) else on)
  }

  /** The elements that are not blank, in order: exactly the elements whose strip is
    * not empty. */
  function NonBlank(xs: seq<string>): (r: seq<string>)
    ensures |r| <= |xs|
    ensures forall x :: x in r <==> x in xs && Strip(x) != ""
    decreases |xs|
  {
    if xs == [] then []
    else
      assert forall x :: x in xs <==> x == xs[0] || x in xs[1..];
      (if Strip(xs[0]) != "" then [xs[0]] else []) + NonBlank(xs[1..])
  }

  /** What `extract_acceptance_criteria(nodes)` returns; every criterion is non-empty
    * and stripped. */
  function AcceptanceCriteria(nodes: seq<Value>): (r: seq<string>)
    ensures AllTrimmed(r)
  {
    NonBlankTrimmed(Scan(nodes, false));
    NonBlank(Scan(nodes, false))
  }

  /** `extract_acceptance_criteria`: the loop over the top-level nodes with its
    * in-section flag, then the clean-up filter. */
  method ExtractAcceptanceCriteria(nodes: seq<Value>) returns (criteria: seq<string>)
    requires ScanShaped(nodes)
    ensures criteria == AcceptanceCriteria(nodes)
    ensures AllTrimmed(criteria)
  {
    var found: seq<string> := [];
    var inSection := false;
    for i := 0 to |nodes|
      invariant ShapedFrom(nodes[i..], inSection)
      invariant found + Scan(nodes[i..], inSection) == Scan(nodes, false)
    {
      var node := nodes[i];
      assert nodes[i..][1..] == nodes[i + 1..];
      if node.kind == Some("heading") {
        inSection := Contains(HeadingText(node), "acceptance");
      } else if inSection && node.kind == Some("bulletList") {
        var texts := CollectBulletList(node);
        found := found + texts;
      } else if inSection && node.kind == Some("heading") {
        // The source breaks out of the scan here; every heading has already been
        // taken by the first branch, so this branch is dead.
        assert false;
      }
    }
    assert nodes[|nodes|..] == [];
    assert found == Scan(nodes, false);
    NonBlankTrimmed(found);
    criteria := NonBlank(found);
  }

  /** The outermost of the three nested loops of `extract_acceptance_criteria` over
    * one bullet list: its items, in order. */
  method CollectBulletList(list: Value) returns (texts: seq<string>)
    requires ListShaped(list)
    ensures texts == BulletItems(list)
  {
    texts := [];
    var items := ContentList(list);
    for a := 0 to |items|
      invariant texts == ConcatMap(ItemText, items[..a])
    {
      var more := CollectItem(items[a]);
      texts := texts + more;
      assert items[..a + 1][..a] == items[..a];
    }
    assert items[..|items|] == items;
  }

  /** The middle loop: the paragraphs of one list item, in order. */
  method CollectItem(item: Value) returns (texts: seq<string>)
    requires ItemShaped(item)
    ensures texts == ItemText(item)
  {
    texts := [];
    var paragraphs := ContentList(item);
    for b := 0 to |paragraphs|
      invariant texts == ConcatMap(ParagraphText, paragraphs[..b])
    {
      var more := CollectParagraph(paragraphs[b]);
      texts := texts + more;
      assert paragraphs[..b + 1][..b] == paragraphs[..b];
    }
    assert paragraphs[..|paragraphs|] == paragraphs;
  }

  /** The innermost loop: the inline nodes of one paragraph, keeping each non-blank
    * `text`, stripped. */
  method CollectParagraph(p: Value) returns (texts: seq<string>)
    requires ParagraphShaped(p)
    ensures texts == ParagraphText(p)
  {
    texts := [];
    var runs := ContentList(p);
    for c := 0 to |runs|
      invariant texts == ConcatMap(RunText, runs[..c])
    {
      var t := runs[c];
      if t.text.Some? && Strip(t.text.value) != "" {
        texts := texts + [Strip(t.text.value)];
      }
      assert runs[..c + 1][..c] == runs[..c];
    }
    assert runs[..|runs|] == runs;
  }

  // ---------------------------------------------------------------------------
  // Properties

  /** The final clean-up filter never removes anything: every collected text is
    * already non-blank. */
  lemma {:induction false} NonBlankTrimmed(xs: seq<string>)
    requires AllTrimmed(xs)
    ensures NonBlank(xs) == xs
    decreases |xs|
  {
    if xs != [] {
      assert xs[0] in xs;
      assert forall x :: x in xs[1..] ==> x in xs;
      StripStripped(xs[0], Whitespace);
      NonBlankTrimmed(xs[1..]);
    }
  }

  /** Every criterion is non-empty and trimmed. */
  lemma {:induction false} CriteriaTrimmed(nodes: seq<Value>)
    ensures AcceptanceCriteria(nodes) == Scan(nodes, false)
    ensures AllTrimmed(AcceptanceCriteria(nodes))
  {
    NonBlankTrimmed(Scan(nodes, false));
  }

  /** Scanning a concatenation scans the second part from the flag the first part
    * leaves behind: items come out in document order. */
  lemma {:induction false} ScanAppend(a: seq<Value>, b: seq<Value>, on: bool)
    ensures Scan(a + b, on) == Scan(a, on) + Scan(b, FlagAfter(a, on))
    decreases |a|
  {
    if a == [] {
      assert a + b == b;
    } else {
      assert (a + b)[0] == a[0];
      assert (a + b)[1..] == a[1..] + b;
      var on' := if IsHeading(a[0]) then IsAcceptanceHeading(a[0]) else on;
      ScanAppend(a[1..], b, on');
    }
  }

  /** With the flag off, a run of nodes without an acceptance heading collects nothing
    * and leaves the flag off. */
  lemma {:induction false} ScanOff(nodes: seq<Value>)
    requires forall i :: 0 <= i < |nodes| ==> !IsAcceptanceHeading(nodes[i])
    ensures Scan(nodes, false) == []
    ensures !FlagAfter(nodes, false)
    decreases |nodes|
  {
    if nodes != [] {
      ScanOff(nodes[1..]);
    }
  }

  /** Without a heading that mentions "acceptance" there are no criteria. */
  lemma {:induction false} NoAcceptanceHeading(nodes: seq<Value>)
    requires forall i :: 0 <= i < |nodes| ==> !IsAcceptanceHeading(nodes[i])
    ensures AcceptanceCriteria(nodes) == []
  {
    ScanOff(nodes);
  }

  /** Nodes before the first acceptance heading contribute nothing: bullet lists there
    * are ignored. */
  lemma {:induction false} PrefixIgnored(prefix: seq<Value>, rest: seq<Value>)
    requires forall i :: 0 <= i < |prefix| ==> !IsAcceptanceHeading(prefix[i])
    ensures AcceptanceCriteria(prefix + rest) == AcceptanceCriteria(rest)
  {
    ScanAppend(prefix, rest, false);
    ScanOff(prefix);
    CriteriaTrimmed(prefix + rest);
    CriteriaTrimmed(rest);
  }

  /** An acceptance heading followed by one bullet list and then a different heading
    * yields exactly that list's items, when nothing later mentions "acceptance". */
  lemma {:induction false} SectionEndsAtNextHeading(h: Value, list: Value, next: Value, rest: seq<Value>)
    requires IsAcceptanceHeading(h) && IsBulletList(list)
    requires IsHeading(next) && !IsAcceptanceHeading(next)
    requires forall i :: 0 <= i < |rest| ==> !IsAcceptanceHeading(rest[i])
    ensures AcceptanceCriteria([h, list, next] + rest) == BulletItems(list)
  {
    var head := [h, list, next];
    ScanAppend(head, rest, false);
    ScanOff(rest);
    assert head[1..] == [list, next];
    assert [list, next][1..] == [next];
    assert [next][1..] == [];
    assert FlagAfter(head, false) == FlagAfter([list, next], true) == FlagAfter([next], true) == false;
    assert Scan([next], true) == [];
    assert Scan([list, next], true) == BulletItems(list) + [];
    assert Scan(head, false) == BulletItems(list);
    CriteriaTrimmed(head + rest);
  }

  /** A later acceptance heading opens the section again: the scan does not stop at the
    * first heading after the section. */
  lemma {:induction false} SectionReopens(h1: Value, h2: Value, h3: Value, list: Value)
    requires IsAcceptanceHeading(h1) && IsHeading(h2) && !IsAcceptanceHeading(h2)
    requires IsAcceptanceHeading(h3) && IsBulletList(list)
    ensures AcceptanceCriteria([h1, h2, h3, list]) == BulletItems(list)
  {
    var nodes := [h1, h2, h3, list];
    assert nodes[1..] == [h2, h3, list];
    assert nodes[1..][1..] == [h3, list];
    assert nodes[1..][1..][1..] == [list];
    assert [list][1..] == [];
    assert Scan([list], true) == BulletItems(list) + [];
    assert Scan([h3, list], false) == BulletItems(list);
    assert Scan(nodes, false) == Scan([h2, h3, list], true) == BulletItems(list);
    CriteriaTrimmed(nodes);
  }

  // ---------------------------------------------------------------------------
  // A reference form without the flag: a bullet list counts when the most recent
  // heading before it mentions "acceptance".

  /** The most recent heading before index `i` is an acceptance heading. */
  predicate InSection(nodes: seq<Value>, i: int)
    requires 0 <= i <= |nodes|
  {
    exists j :: 0 <= j < i && IsAcceptanceHeading(nodes[j]) && NoHeadingBetween(nodes, j, i)
  }

  predicate NoHeadingBetween(nodes: seq<Value>, j: int, i: int)
    requires 0 <= j < i <= |nodes|
  {
    forall m :: j < m < i ==> !IsHeading(nodes[m])
  }

  /** The items the node at index `i` contributes. */
  function Contribution(nodes: seq<Value>, i: int): seq<string>
    requires 0 <= i < |nodes|
  {
    if IsBulletList(nodes[i]) && InSection(nodes, i) then BulletItems(nodes[i]) else []
  }

  /** The contributions of the nodes from index `k` on, in document order. */
  function Gather(nodes: seq<Value>, k: int): seq<string>
    requires 0 <= k <= |nodes|
    decreases |nodes| - k
  {
    if k == |nodes| then [] else Contribution(nodes, k) + Gather(nodes, k + 1)
  }

  /** How `InSection` moves one node on: a heading decides it, anything else keeps it. */
  lemma {:induction false} InSectionStep(nodes: seq<Value>, i: int)
    requires 0 <= i < |nodes|
    ensures InSection(nodes, i + 1) == if IsHeading(nodes[i]) then IsAcceptanceHeading(nodes[i]) else InSection(nodes, i)
  {
    if IsHeading(nodes[i]) {
      if IsAcceptanceHeading(nodes[i]) {
        assert NoHeadingBetween(nodes, i, i + 1);
      }
    } else {
      if InSection(nodes, i) {
        var j :| 0 <= j < i && IsAcceptanceHeading(nodes[j]) && NoHeadingBetween(nodes, j, i);
        assert NoHeadingBetween(nodes, j, i + 1);
      }
      if InSection(nodes, i + 1) {
        var j :| 0 <= j < i + 1 && IsAcceptanceHeading(nodes[j]) && NoHeadingBetween(nodes, j, i + 1);
        assert j < i;
        assert NoHeadingBetween(nodes, j, i);
      }
    }
  }

  /** The flag-driven scan from any index agrees with the reference form. */
  lemma {:induction false} ScanIsGather(nodes: seq<Value>, k: int)
    requires 0 <= k <= |nodes|
    ensures Scan(nodes[k..], InSection(nodes, k)) == Gather(nodes, k)
    decreases |nodes| - k
  {
    if k < |nodes| {
      assert nodes[k..][1..] == nodes[k + 1..];
      InSectionStep(nodes, k);
      ScanIsGather(nodes, k + 1);
    }
  }

  /** The criteria are the items of the bullet lists under acceptance headings, in
    * document order. */
  lemma {:induction false} CriteriaAreGathered(nodes: seq<Value>)
    ensures AcceptanceCriteria(nodes) == Gather(nodes, 0)
  {
    CriteriaTrimmed(nodes);
    assert nodes[0..] == nodes;
    assert !InSection(nodes, 0);
    ScanIsGather(nodes, 0);
  }

  /** The node at index `i` is a bullet list under an acceptance heading that yields `x`. */
  predicate Collects(nodes: seq<Value>, i: int, x: string) {
    0 <= i < |nodes| && IsBulletList(nodes[i]) && InSection(nodes, i) && x in BulletItems(nodes[i])
  }

  /** A node contributes `x` exactly when it collects it. */
  lemma ContributionMembers(nodes: seq<Value>, i: int, x: string)
    requires 0 <= i < |nodes|
    ensures x in Contribution(nodes, i) <==> Collects(nodes, i, x)
  {
  }

  /** Membership in the gathered items: `x` is there exactly when some bullet list
    * under an acceptance heading from index `k` on yields it. */
  lemma {:induction false} GatherMembers(nodes: seq<Value>, k: int, x: string)
    requires 0 <= k <= |nodes|
    ensures x in Gather(nodes, k) <==> exists i :: k <= i && Collects(nodes, i, x)
    decreases |nodes| - k
  {
    if k < |nodes| {
      GatherMembers(nodes, k + 1, x);
      ContributionMembers(nodes, k, x);
      assert Gather(nodes, k) == Contribution(nodes, k) + Gather(nodes, k + 1);
      if exists i :: k <= i && Collects(nodes, i, x) {
        var i :| k <= i && Collects(nodes, i, x);
        if i != k {
          assert k + 1 <= i;
        }
      }
    }
  }

  /** `x` is a criterion exactly when some bullet list whose most recent preceding
    * heading mentions "acceptance" yields `x`. */
  lemma {:induction false} CriteriaMembers(nodes: seq<Value>, x: string)
    ensures x in AcceptanceCriteria(nodes) <==> exists i :: Collects(nodes, i, x)
  {
    CriteriaAreGathered(nodes);
    GatherMembers(nodes, 0, x);
  }

  // ---------------------------------------------------------------------------
  // Where a bullet list's items come from: text runs exactly three levels down.

  /** The inline node `ts[c]` has a `text` that, stripped, is the non-empty `x`. */
  predicate RunYields(ts: seq<Value>, c: int, x: string) {
    0 <= c < |ts| && ts[c].Obj? && ts[c].text.Some? && x == Strip(ts[c].text.value) && x != ""
  }

  /** Inline node `c` of paragraph `b` yields `x`. */
  predicate ParagraphYields(ps: seq<Value>, b: int, c: int, x: string) {
    0 <= b < |ps| && ps[b].Obj? && RunYields(ContentList(ps[b]), c, x)
  }

  /** Inline node `c` of paragraph `b` of item `a` yields `x`. */
  predicate ItemYields(items: seq<Value>, a: int, b: int, c: int, x: string) {
    0 <= a < |items| && items[a].Obj? && ParagraphYields(ContentList(items[a]), b, c, x)
  }

  /** A paragraph yields `x` exactly when one of its inline nodes does. */
  lemma {:induction false} ParagraphTextMembers(p: Value, x: string)
    requires p.Obj?
    ensures x in ParagraphText(p) <==> exists c :: RunYields(ContentList(p), c, x)
  {
    var ts := ContentList(p);
    ConcatMapMembers(RunText, ts, x);
    assert forall c :: 0 <= c < |ts| ==> (x in RunText(ts[c]) <==> RunYields(ts, c, x));
  }

  /** A list item yields `x` exactly when one of its paragraphs does. */
  lemma {:induction false} ItemTextMembers(item: Value, x: string)
    requires item.Obj?
    ensures x in ItemText(item) <==> exists b, c :: ParagraphYields(ContentList(item), b, c, x)
  {
    var ps := ContentList(item);
    ConcatMapMembers(ParagraphText, ps, x);
    if x in ItemText(item) {
      var b :| 0 <= b < |ps| && x in ParagraphText(ps[b]);
      ParagraphTextMembers(ps[b], x);
      var c :| RunYields(ContentList(ps[b]), c, x);
      assert ParagraphYields(ps, b, c, x);
    }
    if exists b, c :: ParagraphYields(ps, b, c, x) {
      var b, c :| ParagraphYields(ps, b, c, x);
      ParagraphTextMembers(ps[b], x);
      assert x in ParagraphText(ps[b]);
    }
  }

  /** A bullet list yields `x` exactly when one of its items has a paragraph with an
    * inline node whose `text`, stripped, is the non-empty `x`. */
  lemma {:induction false} BulletItemsMembers(list: Value, x: string)
    requires list.Obj?
    ensures x in BulletItems(list) <==> exists a, b, c :: ItemYields(ContentList(list), a, b, c, x)
  {
    var items := ContentList(list);
    ConcatMapMembers(ItemText, items, x);
    if x in BulletItems(list) {
      var a :| 0 <= a < |items| && x in ItemText(items[a]);
      ItemTextMembers(items[a], x);
      var b, c :| ParagraphYields(ContentList(items[a]), b, c, x);
      assert ItemYields(items, a, b, c, x);
    }
    if exists a, b, c :: ItemYields(items, a, b, c, x) {
      var a, b, c :| ItemYields(items, a, b, c, x);
      ItemTextMembers(items[a], x);
      assert x in ItemText(items[a]);
    }
  }
}

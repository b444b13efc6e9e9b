/**
 * `simplify_jira_issue`: a Jira issue record flattened into the fields a test
 * generator needs (summary, status, assignee, context, acceptance criteria,
 * comments) and a prompt that interpolates them.
 *
 * The issue is a typed record whose optional members stand for keys the JSON may
 * lack; the description and the comment bodies stay ADF values.
 */
module JiraParser {
  import opened Options
  import opened Strings
  import opened Adf
  import opened Acceptance

  // ---------------------------------------------------------------------------
  // The issue record

  /** `fields.status`: only its `name` is read. */
  datatype Status = Status(name: Option<string>)

  /** `fields.assignee`: its `displayName` (`None` when the key is absent or null), and
    * whether the dict is truthy without a non-null display name, that is whether it has
    * any key once a non-null `displayName` is set aside (`{"displayName": null}` has). */
  datatype User = User(displayName: Option<string>, otherKeys: bool)

  /** One entry of `fields.comment.comments`; only its `body` is read. */
  datatype Comment = Comment(body: Option<Value>)

  /** `fields.comment`. */
  datatype CommentField = CommentField(comments: Option<seq<Comment>>)

  /** `issue.fields`; `None` stands for a key that is absent or null where the source
    * treats both alike. */
  datatype Fields = Fields(
    summary: Option<string>,
    status: Option<Status>,
    assignee: Option<User>,
    description: Option<Value>,
    comment: Option<CommentField>)

  datatype Issue = Issue(key: Option<string>, fields: Option<Fields>)

  /** The flat record `simplify_jira_issue` returns. `assignee` is `None` for a truthy
    * assignee without a display name (Python's `None`). */
  datatype SimplifiedIssue = SimplifiedIssue(
    key: Option<string>,
    summary: string,
    status: string,
    assignee: Option<string>,
    context: string,
    acceptanceCriteria: seq<string>,
    comments: seq<string>,
    prompt: string)

  const NoFields := Fields(None, None, None, None, None)

  /** The phrase that ends the context and rules out a fallback line. */
  const Phrase := "acceptance criteria"

  const NoCriteriaText := "No explicit acceptance criteria provided."
  const NoCommentsText := "No comments found."

  /** The issue's `fields`, or an empty dict when absent. */
  function FieldsOf(issue: Issue): (f: Fields)
    ensures issue.fields.None? ==> f == NoFields
    ensures issue.fields.Some? ==> f == issue.fields.value
  {
    issue.fields.GetOr(NoFields)
  }

  /** The status name, or "" when the status or its name is absent. */
  function StatusOf(f: Fields): (r: string)
    ensures f.status.None? || f.status.value.name.None? ==> r == ""
    ensures f.status.Some? && f.status.value.name.Some? ==> r == f.status.value.name.value
  {
    if f.status.Some? then f.status.value.name.GetOr("") else ""
  }

  /** The assignee is present and truthy: a dict is truthy when it has a key. */
  predicate HasAssignee(f: Fields) {
    f.assignee.Some? && (f.assignee.value.displayName.Some? || f.assignee.value.otherKeys)
  }

  /** The assignee: the display name of a truthy assignee, else "Unassigned". */
  function AssigneeOf(f: Fields): (r: Option<string>)
    ensures !HasAssignee(f) ==> r == Some("Unassigned")
    ensures HasAssignee(f) ==> r == f.assignee.value.displayName
  {
    if HasAssignee(f) then f.assignee.value.displayName else Some("Unassigned")
  }

  /** The description value, or an empty dict when absent, which flattens to "". */
  function RawDescription(f: Fields): (r: Value)
    ensures f.description.Some? ==> r == f.description.value
    ensures f.description.None? ==> r.Obj? && !Truthy(r) && ExtractText(r) == ""
  {
    f.description.GetOr(Obj(None, None, Missing))
  }

  /** The top-level nodes of the description: its `content` when it is a dict, else []. */
  function DescriptionContent(f: Fields): (r: seq<Value>)
    ensures f.description.None? ==> r == []
    ensures !RawDescription(f).Obj? ==> r == []
    ensures RawDescription(f).Obj? && RawDescription(f).content.Nodes? ==> r == RawDescription(f).content.nodes
    ensures RawDescription(f).Obj? && RawDescription(f).content.Missing? ==> r == []
  {
    var d := RawDescription(f);
    if d.Obj? then ContentList(d) else []
  }

  // ---------------------------------------------------------------------------
  // The fallback for a description without structured criteria

  /** The characters the fallback strips from both ends of a line. */
  const BulletChars: set<char> := {'-', '•', '*', ' '}

  /** The stripped line starts with one of the markers "•", "-", "*" or with "The ". */
  predicate LooksLikeItem(line: string) {
    var s := Strip(line);
    StartsWith(s, "•") || StartsWith(s, "-") || StartsWith(s, "*") || StartsWith(s, "The ")
  }

  /** A line the fallback keeps: it looks like an item and does not mention the phrase. */
  predicate KeptLine(line: string) {
    !ContainsCI(line, Phrase) && LooksLikeItem(line)
  }

  /** What the fallback stores for a kept line: bullet characters stripped from both
    * ends, then whitespace. */
  function FallbackItem(line: string): (r: string)
    ensures IsStripped(r) && |r| <= |line|
  {
    Strip(StripChars(line, BulletChars))
  }

  /** What one line adds to the fallback criteria. */
  function FallbackLine(line: string): seq<string> {
    if KeptLine(line) then [FallbackItem(line)] else []
  }

  /** The criteria the fallback loop collects from `lines`, in order: at most one per
    * line. */
  function Fallback(lines: seq<string>): (r: seq<string>)
    ensures |r| <= |lines|
  {
    ConcatMapAtMostOne(FallbackLine, lines);
    ConcatMap(FallbackLine, lines)
  }

  // ---------------------------------------------------------------------------
  // Context, comments, texts and prompt

  /** The context: the first piece of a case-insensitive split on the phrase, that is
    * everything before the phrase's first occurrence, stripped. */
  function Context(text: string): (r: string)
    ensures IsStripped(r)
    ensures !ContainsCI(r, Phrase)
  {
    var i := CutIndex(text);
    NoPhraseBeforeCut(text);
    NotContainsCIStrip(text[..i], Whitespace, Phrase);
    Strip(text[..i])
  }

  /** Where `re.split` cuts: the first case-insensitive occurrence, or the end. The cut
    * is before the end exactly when the text mentions the phrase, and the phrase
    * starts there. */
  function CutIndex(text: string): (i: nat)
    ensures i <= |text|
    ensures i < |text| <==> ContainsCI(text, Phrase)
    ensures i < |text| ==> MatchAt(Lower(text), Phrase, i)
  {
    FindFirst(Lower(text), Phrase);
    var m := Find(Lower(text), Phrase);
    if m.Some? then m.value else |text|
  }

  /** The flattened and stripped body of a comment whose body is truthy; nothing for
    * the others. */
  function BodyText(c: Comment): seq<string> {
    if c.body.Some? && Truthy(c.body.value) then [Strip(ExtractText(c.body.value))] else []
  }

  /** `[c for c in xs if c]` */
  function NonEmpty(xs: seq<string>): (r: seq<string>)
    ensures |r| <= |xs|
    decreases |xs|
  {
    if xs == [] then [] else (if xs[0] != "" then [xs[0]] else []) + NonEmpty(xs[1..])
  }

  /** The comment entries, or the empty list when `comment` or its `comments` is absent. */
  function CommentList(f: Fields): (r: seq<Comment>)
    ensures f.comment.None? || f.comment.value.comments.None? ==> r == []
    ensures f.comment.Some? && f.comment.value.comments.Some? ==> r == f.comment.value.comments.value
  {
    if f.comment.Some? then f.comment.value.comments.GetOr([]) else []
  }

  /** The comment texts: the bodies that are truthy, flattened and stripped, then the
    * empty ones dropped; at most one per comment. */
  function CommentTexts(cs: seq<Comment>): (r: seq<string>)
    ensures |r| <= |cs|
  {
    ConcatMapAtMostOne(BodyText, cs);
    NonEmpty(ConcatMap(BodyText, cs))
  }

  /** One criterion as a line of the prompt. */
  function Bullet(c: string): string {
    "- " + c
  }

  /** The criteria as prompt lines. */
  function Bullets(cs: seq<string>): (r: seq<string>)
    ensures |r| == |cs|
  {
    seq(|cs|, i requires 0 <= i < |cs| => Bullet(cs[i]))
  }

  /** `acceptance_text`: the criteria as "- " lines, or the default text when there are
    * none. The default text appears exactly when there are no criteria, since the
    * lines start with "-". */
  function AcceptanceText(cs: seq<string>): (r: string)
    ensures r == NoCriteriaText <==> cs == []
  {
    if cs != [] then
      var bs := Bullets(cs);
      JoinPrefix("\n", bs);
      assert bs[0][0] == '-';
      Join("\n", bs)
    else NoCriteriaText
  }

  /** `comments_text`: the comments joined by newlines and stripped, or the default text
    * when there are none. Either way it has no surrounding whitespace. */
  function CommentsText(cs: seq<string>): (r: string)
    ensures cs == [] ==> r == NoCommentsText
    ensures IsStripped(r)
  {
    if cs != [] then Strip(Join("\n", cs)) else NoCommentsText
  }

  /** An f-string field: Python's `None` renders as "None". */
  function Render(o: Option<string>): string {
    if o.Some? then o.value else "None"
  }

  /** The eight-space indented line break the template is written with. */
  const Indent := "\n        "

  /** The pieces of the `llm_prompt` template between the interpolated values, with the
    * template's first and last `Indent` left out. */
  const PromptHead := "You are a QA automation assistant." + Indent
    + "Below is a Jira issue summary and its relevant details.\n" + Indent + "---" + Indent + "**Summary:** "
  const StatusLabel := "\n" + Indent + "**Status:** "
  const AssigneeLabel := Indent + "**Assignee:** "
  const ContextLabel := "\n" + Indent + "**Context & Description:**" + Indent
  const CriteriaLabel := "\n" + Indent + "**Acceptance Criteria:**" + Indent
  const CommentsLabel := "\n" + Indent + "**Developer Comments:**" + Indent
  const PromptTail := Indent + "---\n" + Indent
    + "Using the above details, generate automated QA test scenarios that validate each acceptance criterion."

  /** The template's text between `PromptHead` and `PromptTail`. */
  function PromptMiddle(summary: string, status: string, assignee: string, context: string,
                        acceptance: string, comments: string): string
  {
    summary + StatusLabel + status + AssigneeLabel + assignee + ContextLabel + context
    + CriteriaLabel + acceptance + CommentsLabel + comments
  }

  /** The template's text between its first and last `Indent`. */
  function PromptBody(summary: string, status: string, assignee: string, context: string,
                      acceptance: string, comments: string): string
  {
    PromptHead + PromptMiddle(summary, status, assignee, context, acceptance, comments) + PromptTail
  }

  /** The f-string of `llm_prompt` before its `.strip()`. */
  function PromptTemplate(summary: string, status: string, assignee: string, context: string,
                          acceptance: string, comments: string): string
  {
    Indent + PromptBody(summary, status, assignee, context, acceptance, comments) + Indent
  }

  /** `llm_prompt`. It holds the six values verbatim and in order: stripping removes
    * only the template's own leading and trailing line break, never part of a value. */
  function Prompt(summary: string, status: string, assignee: string, context: string,
                  acceptance: string, comments: string): (r: string)
    ensures r == PromptBody(summary, status, assignee, context, acceptance, comments)
  {
    var body := PromptBody(summary, status, assignee, context, acceptance, comments);
    assert body[0] == PromptHead[0] == 'Y';
    assert body[|body| - 1] == PromptTail[|PromptTail| - 1] == '.';
    assert AllIn(Indent, Whitespace);
    StripCharsAround(Indent, body, Indent, Whitespace);
    Strip(PromptTemplate(summary, status, assignee, context, acceptance, comments))
  }

  // ---------------------------------------------------------------------------
  // The whole transformation

  /** The lines of the description text. */
  function DescriptionLines(f: Fields): seq<string> {
    SplitLines(ExtractText(RawDescription(f)))
  }

  /** The criteria: the structured ones, or the fallback's when there are none. Every
    * criterion is stripped, whichever path produced it. */
  function CriteriaOf(f: Fields): (r: seq<string>)
    ensures forall x :: x in r ==> IsStripped(x)
  {
    FallbackItems(DescriptionLines(f));
    var structured := AcceptanceCriteria(DescriptionContent(f));
    if structured != [] then structured else Fallback(DescriptionLines(f))
  }

  /** What `simplify_jira_issue(issue)` returns. The context is stripped and free of
    * the phrase, the criteria are stripped, the comments are non-empty and stripped,
    * and the prompt interpolates the record's own values, in template order, with
    * `None` rendered as "None". */
  function Simplified(issue: Issue): (r: SimplifiedIssue)
    ensures IsStripped(r.context) && !ContainsCI(r.context, Phrase)
    ensures forall x :: x in r.acceptanceCriteria ==> IsStripped(x)
    ensures AllTrimmed(r.comments)
    ensures r.prompt == PromptBody(r.summary, r.status, Render(r.assignee), r.context,
                                   AcceptanceText(r.acceptanceCriteria), CommentsText(r.comments))
  {
    var f := FieldsOf(issue);
    CommentsTrimmed(CommentList(f));
    var summary := f.summary.GetOr("");
    var status := StatusOf(f);
    var assignee := AssigneeOf(f);
    var context := Context(ExtractText(RawDescription(f)));
    var criteria := CriteriaOf(f);
    var comments := CommentTexts(CommentList(f));
    var prompt := Prompt(summary, status, Render(assignee), context,
                         AcceptanceText(criteria), CommentsText(comments));
    SimplifiedIssue(issue.key, summary, status, assignee, context, criteria, comments, prompt)
  }

  /** `simplify_jira_issue`: the field reads, the structured scan, the fallback loop
    * over the description's lines, and the assembled record. */
  method SimplifyJiraIssue(issue: Issue) returns (r: SimplifiedIssue)
    requires ScanShaped(DescriptionContent(FieldsOf(issue)))
    ensures r == Simplified(issue)
  {
    var f := FieldsOf(issue);
    var summary := f.summary.GetOr("");
    var status := StatusOf(f);
    var assignee := AssigneeOf(f);
    var rawDescription := RawDescription(f);
    var descriptionText := ExtractText(rawDescription);
    var criteria := ExtractAcceptanceCriteria(DescriptionContent(f));
    if criteria == [] {
      var lines := SplitLines(descriptionText);
      for i := 0 to |lines|
        invariant criteria == Fallback(lines[..i])
      {
        var line := lines[i];
        if !ContainsCI(line, Phrase) && LooksLikeItem(line) {
          criteria := criteria + [Strip(StripChars(line, BulletChars))];
        }
        assert lines[..i + 1][..i] == lines[..i];
      }
      assert lines[..|lines|] == lines;
    }
    assert criteria == CriteriaOf(f);
    var context := Context(descriptionText);
    var comments := CommentTexts(CommentList(f));
    var prompt := Prompt(summary, status, Render(assignee), context,
                         AcceptanceText(criteria), CommentsText(comments));
    r := SimplifiedIssue(issue.key, summary, status, assignee, context, criteria, comments, prompt);
  }

  // ---------------------------------------------------------------------------
  // Properties

  /** No occurrence of the phrase starts before the cut, so the text before it has none. */
  lemma {:induction false} NoPhraseBeforeCut(text: string)
    ensures !ContainsCI(text[..CutIndex(text)], Phrase)
  {
    var i := CutIndex(text);
    var pre := text[..i];
    FindFirst(Lower(text), Phrase);
    FindFirst(Lower(pre), Phrase);
    LowerSlice(text, 0, i);
    if ContainsCI(pre, Phrase) {
      var j := Find(Lower(pre), Phrase).value;
      assert Lower(pre) == Lower(text)[0..i];
      MatchInSlice(Lower(text), Phrase, 0, i, j);
      assert false;
    }
  }

  /** The cut is at the first occurrence of the phrase, ignoring ASCII case, and at
    * the end exactly when there is none. */
  lemma CutIsFirstOccurrence(text: string)
    ensures CutIndex(text) < |text| ==>
              MatchAt(Lower(text), Phrase, CutIndex(text))
              && forall j :: 0 <= j < CutIndex(text) ==> !MatchAt(Lower(text), Phrase, j)
    ensures CutIndex(text) == |text| <==> !ContainsCI(text, Phrase)
  {
    FindFirst(Lower(text), Phrase);
  }

  /** The context is the text before the cut less only the whitespace at its ends: a
    * piece of it, with nothing but whitespace before and after it up to the cut. */
  lemma ContextBeforeCut(text: string) returns (k: nat)
    ensures k + |Context(text)| <= CutIndex(text)
    ensures Context(text) == text[k..k + |Context(text)|]
    ensures forall j :: 0 <= j < k ==> text[j] in Whitespace
    ensures forall j :: k + |Context(text)| <= j < CutIndex(text) ==> text[j] in Whitespace
  {
    var i := CutIndex(text);
    k := StripCharsSlice(text[..i], Whitespace);
  }

  /** A stripped text without the phrase is its own context. */
  lemma ContextWhole(text: string)
    requires IsStripped(text) && !ContainsCI(text, Phrase)
    ensures Context(text) == text
  {
    CutIsFirstOccurrence(text);
    assert text[..|text|] == text;
    StripStripped(text, Whitespace);
  }

  /** A kept line's item is stripped and does not mention the phrase either. */
  lemma FallbackItemNoPhrase(line: string)
    requires !ContainsCI(line, Phrase)
    ensures IsStripped(FallbackItem(line)) && !ContainsCI(FallbackItem(line), Phrase)
  {
    NotContainsCIStrip(line, BulletChars, Phrase);
    NotContainsCIStrip(StripChars(line, BulletChars), Whitespace, Phrase);
  }

  /** What the fallback stores for a line is a piece of it: everything removed before
    * and after it is a bullet character or whitespace. */
  lemma FallbackItemSlice(line: string) returns (k: nat)
    ensures k + |FallbackItem(line)| <= |line|
    ensures FallbackItem(line) == line[k..k + |FallbackItem(line)|]
    ensures forall i :: 0 <= i < k ==> line[i] in BulletChars + Whitespace
    ensures forall i :: k + |FallbackItem(line)| <= i < |line| ==> line[i] in BulletChars + Whitespace
  {
    var m := StripChars(line, BulletChars);
    var k1 := StripCharsSlice(line, BulletChars);
    var k2 := StripCharsSlice(m, Whitespace);
    SliceOfSlice(line, m, Strip(m), k1, k2, BulletChars, Whitespace);
    k := k1 + k2;
  }

  /** Whitespace around a line does not change whether it looks like an item. */
  lemma LooksLikeItemPadded(v: string, line: string, w: string)
    requires AllIn(v, Whitespace) && AllIn(w, Whitespace)
    ensures LooksLikeItem(v + line + w) == LooksLikeItem(line)
  {
    StripCharsPad(v, line, w, Whitespace);
  }

  /** Whitespace around a line does not change whether the fallback keeps it: neither
    * the marker test nor the phrase search sees it. */
  lemma KeptLinePadded(v: string, line: string, w: string)
    requires AllIn(v, Whitespace) && AllIn(w, Whitespace)
    ensures KeptLine(v + line + w) == KeptLine(line)
  {
    var s := v + line + w;
    var a, b := |v|, |v| + |line|;
    assert s[a..b] == line;
    assert forall i :: 0 <= i < a ==> s[i] == v[i];
    assert forall i :: b <= i < |s| ==> s[i] == w[i - b];
    ContainsCIPadded(s, a, b, Phrase);
    LooksLikeItemPadded(v, line, w);
  }

  /** `x` is a fallback criterion exactly when some line is kept and yields `x`. */
  lemma {:induction false} FallbackMembers(lines: seq<string>, x: string)
    ensures x in Fallback(lines) <==>
              exists j :: 0 <= j < |lines| && KeptLine(lines[j]) && x == FallbackItem(lines[j])
  {
    ConcatMapMembers(FallbackLine, lines, x);
    assert forall j :: 0 <= j < |lines| ==>
      (x in FallbackLine(lines[j]) <==> KeptLine(lines[j]) && x == FallbackItem(lines[j]));
  }

  /** Every fallback criterion is stripped and free of the phrase. */
  lemma FallbackItems(lines: seq<string>)
    ensures forall x :: x in Fallback(lines) ==> IsStripped(x) && !ContainsCI(x, Phrase)
  {
    forall x | x in Fallback(lines)
      ensures IsStripped(x) && !ContainsCI(x, Phrase)
    {
      FallbackMembers(lines, x);
      var j :| 0 <= j < |lines| && KeptLine(lines[j]) && x == FallbackItem(lines[j]);
      FallbackItemNoPhrase(lines[j]);
    }
  }

  /** The fallback keeps the lines' order: lines are handled one after the other. */
  lemma FallbackAppend(a: seq<string>, b: seq<string>)
    ensures Fallback(a + b) == Fallback(a) + Fallback(b)
  {
    ConcatMapAppend(FallbackLine, a, b);
  }

  /** Unlike the structured scan, the fallback does not drop blank items: a line that is
    * a lone "-" becomes an empty criterion. */
  lemma FallbackKeepsBlank()
    ensures Fallback(["-"]) == [""]
  {
    var line := "-";
    assert Find(Lower(line), Phrase).None?;
    StripStripped(line, Whitespace);
    assert LooksLikeItem(line);
    assert StripChars(line, BulletChars) == StripChars(line[1..], BulletChars) == "";
    assert FallbackLine(line) == [""];
    assert ["-"][..0] == [];
  }

  /** The fallback finds nothing exactly when it keeps no line. */
  lemma FallbackEmpty(lines: seq<string>)
    ensures Fallback(lines) == [] <==> forall j :: 0 <= j < |lines| ==> !KeptLine(lines[j])
  {
    if exists j :: 0 <= j < |lines| && KeptLine(lines[j]) {
      var j :| 0 <= j < |lines| && KeptLine(lines[j]);
      FallbackMembers(lines, FallbackItem(lines[j]));
    }
    if Fallback(lines) != [] {
      var x := Fallback(lines)[0];
      FallbackMembers(lines, x);
    }
  }

  /** There are no criteria exactly when the structured scan finds none and no line of
    * the description text is kept by the fallback. */
  lemma CriteriaEmpty(f: Fields)
    ensures CriteriaOf(f) == [] <==>
              AcceptanceCriteria(DescriptionContent(f)) == []
              && forall j :: 0 <= j < |DescriptionLines(f)| ==> !KeptLine(DescriptionLines(f)[j])
  {
    FallbackEmpty(DescriptionLines(f));
  }

  /** Every criterion is stripped, whichever path produced it; fallback criteria never
    * mention the phrase. */
  lemma CriteriaStripped(f: Fields)
    ensures forall x :: x in CriteriaOf(f) ==> IsStripped(x)
    ensures AcceptanceCriteria(DescriptionContent(f)) == [] ==>
              forall x :: x in CriteriaOf(f) ==> !ContainsCI(x, Phrase)
  {
    CriteriaTrimmed(DescriptionContent(f));
    FallbackItems(DescriptionLines(f));
  }

  /** `[c for c in xs if c]` keeps exactly the non-empty elements. */
  lemma {:induction false} NonEmptyMembers(xs: seq<string>, x: string)
    ensures x in NonEmpty(xs) <==> x in xs && x != ""
    decreases |xs|
  {
    if xs != [] {
      NonEmptyMembers(xs[1..], x);
      assert xs == [xs[0]] + xs[1..];
    }
  }

  /** The filter works element by element, in order. */
  lemma {:induction false} NonEmptyAppend(a: seq<string>, b: seq<string>)
    ensures NonEmpty(a + b) == NonEmpty(a) + NonEmpty(b)
    decreases |a|
  {
    if a == [] {
      assert a + b == b;
    } else {
      assert (a + b)[0] == a[0];
      assert (a + b)[1..] == a[1..] + b;
      NonEmptyAppend(a[1..], b);
    }
  }

  /** `x` is a comment text exactly when it is the non-empty text of some comment that
    * has a body; the truthiness test on the body changes nothing, since a falsy body
    * flattens to "". */
  lemma {:induction false} CommentMembers(cs: seq<Comment>, x: string)
    ensures x in CommentTexts(cs) <==>
              x != "" && exists j :: 0 <= j < |cs| && cs[j].body.Some? && x == ExtractText(cs[j].body.value)
  {
    NonEmptyMembers(ConcatMap(BodyText, cs), x);
    ConcatMapMembers(BodyText, cs, x);
    forall j | 0 <= j < |cs| && cs[j].body.Some?
      ensures BodyText(cs[j]) == if Truthy(cs[j].body.value) then [ExtractText(cs[j].body.value)] else []
      ensures !Truthy(cs[j].body.value) ==> ExtractText(cs[j].body.value) == ""
    {
      StripStripped(ExtractText(cs[j].body.value), Whitespace);
    }
  }

  /** Every comment text is non-empty and stripped. */
  lemma CommentsTrimmed(cs: seq<Comment>)
    ensures AllTrimmed(CommentTexts(cs))
  {
    forall x | x in CommentTexts(cs)
      ensures Trimmed(x)
    {
      CommentMembers(cs, x);
    }
  }

  /** Comments keep their order: the texts of two runs of comments are concatenated. */
  lemma CommentTextsAppend(a: seq<Comment>, b: seq<Comment>)
    ensures CommentTexts(a + b) == CommentTexts(a) + CommentTexts(b)
  {
    ConcatMapAppend(BodyText, a, b);
    NonEmptyAppend(ConcatMap(BodyText, a), ConcatMap(BodyText, b));
  }

  /** The acceptance text has one "- " line per criterion, in order, when the criteria
    * are single lines. */
  lemma AcceptanceTextLines(cs: seq<string>)
    requires cs != [] && forall j :: 0 <= j < |cs| ==> IsOneLine(cs[j])
    ensures SplitLines(AcceptanceText(cs)) == Bullets(cs)
  {
    var bs := Bullets(cs);
    forall j | 0 <= j < |bs|
      ensures bs[j] != "" && IsOneLine(bs[j])
    {
      assert bs[j] == "- " + cs[j];
    }
    SplitJoin(bs);
  }

  /** The comments text is the default when there are no comments, and otherwise the
    * comments joined by newlines: its `strip()` changes nothing. */
  lemma CommentsTextJoin(cs: seq<string>)
    requires AllTrimmed(cs)
    ensures cs == [] ==> CommentsText(cs) == NoCommentsText
    ensures cs != [] ==> CommentsText(cs) == Join("\n", cs)
  {
    if cs != [] {
      assert forall j :: 0 <= j < |cs| ==> cs[j] in cs;
      JoinStripped("\n", cs);
      StripStripped(Join("\n", cs), Whitespace);
    }
  }

  /** The record's context is stripped and free of the phrase, and is the whole
    * description text when that does not mention the phrase. */
  lemma SimplifiedContext(issue: Issue)
    ensures var text := ExtractText(RawDescription(FieldsOf(issue)));
      var context := Simplified(issue).context;
      && IsStripped(context) && !ContainsCI(context, Phrase)
      && (!ContainsCI(text, Phrase) ==> context == text)
  {
    var text := ExtractText(RawDescription(FieldsOf(issue)));
    assert Simplified(issue).context == Context(text);
    if !ContainsCI(text, Phrase) {
      ContextWhole(text);
    }
  }

  /** An issue without a description has an empty context and no criteria: the
    * absent description is an empty dict, which has no nodes and flattens to "". */
  lemma NoDescription(issue: Issue)
    requires FieldsOf(issue).description.None?
    ensures Simplified(issue).context == "" && Simplified(issue).acceptanceCriteria == []
  {
    var f := FieldsOf(issue);
    assert DescriptionContent(f) == [];
    assert AcceptanceCriteria([]) == [];
    assert DescriptionLines(f) == [];
    assert Fallback([]) == [];
    assert Find(Lower(""), Phrase).None?;
    assert Context("") == "";
  }
}

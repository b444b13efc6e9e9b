# Jira issue flattener

A Dafny model of the Jira-ticket flattener of a QA-automation service
(`app/services/jira_parser.py`). It has three functions:

- `extract_text_from_adf` flattens an Atlassian Document Format (ADF) tree into
  plain text.
- `extract_acceptance_criteria` scans the top-level nodes of an ADF description. It
  collects the text runs of bullet lists that come after a heading mentioning
  "acceptance".
- `simplify_jira_issue` builds the flat record a test generator needs: summary,
  status, assignee, context, acceptance criteria, comments, and a prompt that
  interpolates them.

Modules:

- `Options` (`options.dfy`) — optional values, i.e. keys a JSON dict may lack.
- `Strings` (`strings.dfy`) — the Python `str` operations the parser uses:
  - `strip()` and `strip(chars)`, with the exact `str.isspace()` character set;
  - `lower()`;
  - case-insensitive search;
  - `startswith`;
  - `splitlines()`, with its exact line-boundary set and the `"\r\n"` pair;
  - `sep.join`.
- `Adf` (`adf.dfy`) — the duck-typed JSON value (`Value`) and `ExtractText`, a pure
  recursive function.
- `Acceptance` (`acceptance.dfy`):
  - the scan as a specification function `Scan`;
  - the imperative `ExtractAcceptanceCriteria`: a loop with the in-section flag,
    its nested loops over one bullet list are a chain of three small methods, one per
    nested loop (`CollectBulletList` calls `CollectItem`, which calls `CollectParagraph`);
  - a flag-free reference form (`Gather`), proved equal to the scan.
- `JiraParser` (`jira_parser.dfy`):
  - the issue as a typed record;
  - the specification function `Simplified`;
  - the method `SimplifyJiraIssue`, which contains the fallback loop over the
    description's lines;
  - lemmas about the context, the fallback, the comments, the default texts and the
    prompt.

Behaviour worth knowing (where the code and its comment at line 49 disagree, the model
follows the code):

- **The scan never stops early.** The comment at line 49 says the scan stops at the
  first heading after the acceptance section. But every heading is taken by the
  branch at line 33, which re-sets the flag from that heading's own text (line 39).
  The `break` at lines 50-51 can never run. The model keeps that branch as dead code
  (`assert false`).
  - A later heading without "acceptance" only switches collection off (`SectionEndsAtNextHeading`).
  - A later "acceptance" heading switches it on again (`SectionReopens`).
- **The heading test reads only the heading's direct text children**, joined. Text
  nested inside other inline nodes is not seen (`DirectTextSkips`).
- **Blank items are removed only from the structured path** (line 54). The fallback
  stores `line.strip("-•* ").strip()` without a filter. So a line that is just `-`
  becomes an empty criterion (`FallbackKeepsBlank`).
- **The fallback strips `-`, `•`, `*` and space from both ends of a kept line.** A
  line is tested for the markers after `strip()`.

## Model

| member | source | states |
|---|---|---|
| Strings.StripChars | app/services/jira_parser.py:85 | `s.strip(chars)` neither starts nor ends with a stripped character, and is never longer than `s` |
| Strings.StripCharsSlice | app/services/jira_parser.py:18 | the result of `strip` is a contiguous piece of the input, and every character removed before or after it is in the stripped set |
| Strings.StripCharsAround | app/services/jira_parser.py:18 | conversely, stripping a core that neither starts nor ends with a stripped character, surrounded by stripped characters, gives back exactly that core; with `StripCharsSlice` this pins `strip` down |
| Strings.StripStripped | app/services/jira_parser.py:93 | `strip` of an already stripped string changes nothing |
| Strings.StripTrailing | app/services/jira_parser.py:14-18 | whitespace appended to a stripped string is removed again by `strip` |
| Strings.StripCharsPad | app/services/jira_parser.py:84 | characters of the stripped set around a string make no difference to its `strip` |
| Strings.LowerSlice | app/services/jira_parser.py:38 | lower-casing works character by character, so it commutes with taking a slice |
| Strings.FindFirst | app/services/jira_parser.py:88 | the search returns the first index where the pattern occurs, and returns nothing exactly when it occurs nowhere |
| Strings.NotContainsCISlice | app/services/jira_parser.py:88 | a slice of a string without a case-insensitive occurrence of a pattern has none either |
| Strings.NotContainsCIStrip | app/services/jira_parser.py:85 | stripping cannot create a case-insensitive occurrence of a pattern |
| Strings.ContainsCIPadded | app/services/jira_parser.py:82-88 | whitespace around a slice takes no part in a case-insensitive occurrence of a pattern that neither starts nor ends with whitespace: the slice mentions the pattern exactly when the whole string does |
| Strings.SplitLines | app/services/jira_parser.py:81 | `splitlines()` yields lines without boundary characters; a non-empty string without boundaries is one line; the empty string has no lines |
| Strings.SplitLinesStep | app/services/jira_parser.py:81 | a line ended by any single boundary character (newline, carriage return not followed by a newline, vertical tab, form feed, the separators U+001C-U+001E, U+0085, U+2028, U+2029) comes out as one line, then the lines of the rest; an empty line stays an empty line |
| Strings.SplitLinesCRLF | app/services/jira_parser.py:81 | a line ended by `"\r\n"` comes out as one line, then the lines of the rest: the pair is one boundary |
| Strings.SplitJoin | app/services/jira_parser.py:81 | `splitlines()` of a newline join of one-line pieces gives back the pieces, empty ones included, when the last piece is not empty (a final boundary starts no line) |
| Strings.JoinStripped | app/services/jira_parser.py:103 | a join of non-empty stripped pieces is stripped, and it starts with the first piece's first character and ends with the last piece's last character |
| Adf.ExtractText | app/services/jira_parser.py:3-18 | the flattened text never has leading or trailing whitespace, and a value that is neither a text run nor a container (None, a scalar, a dict without `content`) yields "" |
| Adf.ExtractTextRun | app/services/jira_parser.py:8-11 | a dict with type "text" and a `text` key yields exactly that text, stripped, whatever its other keys (a `content` included) |
| Adf.ExtractContainer | app/services/jira_parser.py:12-17 | a list, or a dict with `content` that is not a text run, yields the strip of its children's texts, each followed by a newline, in document order |
| Adf.ExtractTextFixedPoint | app/services/jira_parser.py:10-18 | wrapping an output in a text node and flattening again returns the same output |
| Adf.ChildrenTextAppend | app/services/jira_parser.py:13-14 | the children's accumulator of a concatenation is the concatenation of the accumulators (document order) |
| Adf.ChildrenTextIsJoin | app/services/jira_parser.py:13-17 | the children's accumulator is their texts joined by newlines, plus a final newline |
| Adf.ExtractContainerJoin | app/services/jira_parser.py:12-18 | a container's text is the strip of its children's texts joined by newlines, and is exactly that join when no child's text is empty |
| Adf.StripNewlineLast | app/services/jira_parser.py:14-18 | the newline after the last child does not change the stripped result |
| Adf.ExtractSingleton | app/services/jira_parser.py:12-18 | a container with one child, a one-element list or a dict whose `content` holds one node, has the text of that child |
| Acceptance.DirectTextAppend | app/services/jira_parser.py:34-37 | the heading text joins the direct text children in document order |
| Acceptance.DirectTextSkips | app/services/jira_parser.py:34-37 | a child that is not a text run adds nothing to the heading text, even when text is nested inside it |
| Acceptance.HeadingTextNormal | app/services/jira_parser.py:34-38 | the tested heading text has no surrounding whitespace and is already lower-case |
| Acceptance.AcceptanceHeadingIgnoresStrip | app/services/jira_parser.py:33-39 | a heading is an acceptance heading exactly when its joined direct text, lower-cased, contains "acceptance": the strip before the test changes nothing |
| Acceptance.RunText | app/services/jira_parser.py:46-47 | an inline node adds at most one item, and that item is non-empty and stripped |
| Acceptance.ParagraphText | app/services/jira_parser.py:45-47 | a paragraph's items are all non-empty and stripped |
| Acceptance.ItemText | app/services/jira_parser.py:44-47 | a list item's items are all non-empty and stripped |
| Acceptance.BulletItems | app/services/jira_parser.py:43-47 | a bullet list's items are all non-empty and stripped |
| Acceptance.Scan | app/services/jira_parser.py:29-51 | everything the flag-driven scan collects is non-empty and stripped |
| Acceptance.NonBlank | app/services/jira_parser.py:54 | the clean-up filter keeps exactly the elements whose strip is not empty, and never lengthens the list |
| Acceptance.AcceptanceCriteria | app/services/jira_parser.py:21-55 | every criterion returned is non-empty and stripped |
| Acceptance.ExtractAcceptanceCriteria | app/services/jira_parser.py:21-55 | the loop with its in-section flag returns exactly the scan's result, and every criterion is non-empty and stripped |
| Acceptance.CollectBulletList | app/services/jira_parser.py:43-47 | the loop over a bullet list's items collects exactly that list's items, in order |
| Acceptance.CollectItem | app/services/jira_parser.py:44-47 | the loop over a list item's paragraphs collects exactly that item's texts, in order |
| Acceptance.CollectParagraph | app/services/jira_parser.py:45-47 | the loop over a paragraph's inline nodes keeps exactly the non-blank texts, stripped, in order |
| Acceptance.NonBlankTrimmed | app/services/jira_parser.py:53-54 | the final blank filter removes nothing from a list whose elements are all non-empty and stripped |
| Acceptance.CriteriaTrimmed | app/services/jira_parser.py:46-55 | the criteria equal the scan's raw result (the blank filter is a no-op), and each is non-empty and stripped |
| Acceptance.ScanAppend | app/services/jira_parser.py:29-51 | scanning a concatenation scans the second part from the flag the first part leaves: items come out in document order |
| Acceptance.ScanOff | app/services/jira_parser.py:27-47 | with the flag off, nodes without an acceptance heading collect nothing and leave the flag off |
| Acceptance.NoAcceptanceHeading | app/services/jira_parser.py:26-55 | without a heading mentioning "acceptance" there are no criteria |
| Acceptance.PrefixIgnored | app/services/jira_parser.py:27-47 | nodes before the first acceptance heading, bullet lists included, contribute nothing |
| Acceptance.SectionEndsAtNextHeading | app/services/jira_parser.py:33-51 | an acceptance heading, one bullet list, then another heading: only that list's items are criteria, when nothing later mentions "acceptance" |
| Acceptance.SectionReopens | app/services/jira_parser.py:33-51 | a later acceptance heading opens the section again after a non-acceptance heading: the scan does not stop |
| Acceptance.InSectionStep | app/services/jira_parser.py:33-39 | "the most recent heading mentions acceptance" moves like the flag: a heading decides it, any other node keeps it |
| Acceptance.ScanIsGather | app/services/jira_parser.py:29-51 | from every index, the flag-driven scan equals the flag-free reference form: each bullet list whose most recent preceding heading mentions "acceptance" contributes its items, in order |
| Acceptance.CriteriaAreGathered | app/services/jira_parser.py:21-55 | the criteria equal the reference form over the whole description |
| Acceptance.GatherMembers | app/services/jira_parser.py:29-47 | an item is gathered from index `k` on exactly when some bullet list there, under an acceptance heading, yields it |
| Acceptance.CriteriaMembers | app/services/jira_parser.py:29-54 | `x` is a criterion exactly when a bullet list whose most recent preceding heading mentions "acceptance" yields `x` |
| Acceptance.ParagraphTextMembers | app/services/jira_parser.py:45-47 | a paragraph yields `x` exactly when one of its inline nodes has a `text` whose strip is the non-empty `x` |
| Acceptance.ItemTextMembers | app/services/jira_parser.py:44-47 | a list item yields `x` exactly when one of its paragraphs does |
| Acceptance.BulletItemsMembers | app/services/jira_parser.py:43-47 | a bullet list yields `x` exactly when a text run exactly three levels down (item, paragraph, inline node) has a `text` whose strip is the non-empty `x` |
| JiraParser.FieldsOf | app/services/jira_parser.py:60 | an absent `fields` reads as an empty dict, and a present one is read as it is |
| JiraParser.StatusOf | app/services/jira_parser.py:64 | the status is "" when `status` or its `name` is absent, and otherwise that name |
| JiraParser.AssigneeOf | app/services/jira_parser.py:65-69 | the assignee is "Unassigned" when `fields.assignee` is missing, null or an empty dict, and otherwise its `displayName` (None when that key is absent) |
| JiraParser.RawDescription | app/services/jira_parser.py:72 | an absent description reads as an empty dict, which is falsy and flattens to ""; a present one is read as it is |
| JiraParser.DescriptionContent | app/services/jira_parser.py:73 | the top-level nodes are the description's `content` when it is a dict with one, and none when the description is absent, not a dict, or a dict without `content` |
| JiraParser.NoDescription | app/services/jira_parser.py:72-88 | an issue without a description has an empty context and no criteria |
| JiraParser.Context | app/services/jira_parser.py:88 | the context is stripped and never contains "acceptance criteria", ignoring case |
| JiraParser.NoPhraseBeforeCut | app/services/jira_parser.py:88 | the text before the cut contains no case-insensitive occurrence of the phrase |
| JiraParser.CutIsFirstOccurrence | app/services/jira_parser.py:88 | the cut is at the first case-insensitive occurrence of the phrase, and at the end of the text exactly when there is none |
| JiraParser.ContextBeforeCut | app/services/jira_parser.py:88 | the context is a contiguous piece of the description text lying wholly before the cut, and everything it leaves out before the cut is whitespace: it is the whole text before the first match, stripped |
| JiraParser.ContextWhole | app/services/jira_parser.py:74-88 | a stripped description text without the phrase is its own context |
| JiraParser.CutIndex | app/services/jira_parser.py:88 | the cut is before the end exactly when the text mentions the phrase, ignoring case, and the phrase starts there |
| JiraParser.SimplifyJiraIssue | app/services/jira_parser.py:58-138 | the field reads, the structured scan, the fallback loop and the assembly produce exactly the record `Simplified` describes |
| JiraParser.FallbackItemNoPhrase | app/services/jira_parser.py:82-85 | the item stored for a line without the phrase is stripped and also free of the phrase |
| JiraParser.FallbackItem | app/services/jira_parser.py:85 | the stored item is stripped and never longer than its line |
| JiraParser.FallbackItemSlice | app/services/jira_parser.py:85 | the stored item is a piece of its line, and everything removed before and after it is `-`, `•`, `*`, a space or whitespace |
| JiraParser.LooksLikeItemPadded | app/services/jira_parser.py:84 | whitespace around a line does not change whether its stripped form starts with "•", "-", "*" or "The " |
| JiraParser.KeptLinePadded | app/services/jira_parser.py:82-84 | whitespace around a line does not change whether the fallback keeps it: neither the marker test nor the phrase search sees it |
| JiraParser.Fallback | app/services/jira_parser.py:81-85 | the fallback stores at most one criterion per line |
| JiraParser.FallbackMembers | app/services/jira_parser.py:81-85 | `x` is a fallback criterion exactly when some line is kept (no phrase, starts with a marker or "The " after stripping) and yields `x` |
| JiraParser.FallbackItems | app/services/jira_parser.py:81-85 | every fallback criterion is stripped and free of the phrase |
| JiraParser.FallbackAppend | app/services/jira_parser.py:81-85 | the fallback keeps the lines' order: the criteria of two runs of lines are concatenated |
| JiraParser.FallbackKeepsBlank | app/services/jira_parser.py:84-85 | a line that is a lone "-" becomes an empty criterion: the fallback does not drop blanks |
| JiraParser.FallbackEmpty | app/services/jira_parser.py:81-85 | the fallback finds nothing exactly when no line is kept |
| JiraParser.CriteriaOf | app/services/jira_parser.py:77-85 | every criterion is stripped, whichever path produced it |
| JiraParser.CriteriaEmpty | app/services/jira_parser.py:77-85 | there are no criteria exactly when the structured scan finds none and no description line is kept by the fallback |
| JiraParser.CriteriaStripped | app/services/jira_parser.py:77-85 | every criterion is stripped on either path, and fallback criteria never mention the phrase |
| JiraParser.NonEmptyMembers | app/services/jira_parser.py:96 | the empty-string filter keeps exactly the non-empty elements |
| JiraParser.NonEmptyAppend | app/services/jira_parser.py:96 | the empty-string filter works element by element, in order |
| JiraParser.CommentList | app/services/jira_parser.py:91 | the comment entries are `[]` when `comment` or its `comments` is absent, and otherwise that list |
| JiraParser.CommentTexts | app/services/jira_parser.py:91-96 | there is at most one comment text per comment |
| JiraParser.CommentMembers | app/services/jira_parser.py:91-96 | `x` is a comment text exactly when it is the non-empty text of a comment with a body; the truthiness test on the body changes nothing |
| JiraParser.CommentsTrimmed | app/services/jira_parser.py:91-96 | every comment text is non-empty and stripped |
| JiraParser.CommentTextsAppend | app/services/jira_parser.py:91-96 | comments keep their order: the texts of two runs of comments are concatenated |
| JiraParser.AcceptanceText | app/services/jira_parser.py:99-101 | the acceptance text is "No explicit acceptance criteria provided." exactly when there are no criteria |
| JiraParser.AcceptanceTextLines | app/services/jira_parser.py:99-101 | for single-line criteria, the acceptance text's lines are "- " followed by each criterion, in order |
| JiraParser.CommentsText | app/services/jira_parser.py:103 | the comments text has no surrounding whitespace, and is "No comments found." when there are no comments |
| JiraParser.CommentsTextJoin | app/services/jira_parser.py:103 | the comments text is "No comments found." without comments, and otherwise the comments joined by newlines: its strip changes nothing |
| JiraParser.Prompt | app/services/jira_parser.py:105-126 | the prompt contains the six values verbatim and in template order; stripping removes only the template's own first and last line break |
| JiraParser.SimplifiedContext | app/services/jira_parser.py:74-88 | the record's context is stripped and free of the phrase, and is the whole description text when that text does not mention the phrase |
| JiraParser.Simplified | app/services/jira_parser.py:58-138 | the record's context is stripped and free of the phrase, its criteria are stripped, its comments are non-empty and stripped, and its prompt interpolates its own summary, status, assignee (None rendered "None"), context, criteria text and comments text, in that order |

## Left out

- Acceptance.ExtractAcceptanceCriteria: requires the nodes the scan reads to be dicts (`ScanShaped`). These are the top-level nodes, and the items, paragraphs and inline nodes of each bullet list in an acceptance section. On a non-dict top-level node, item or paragraph the source raises `AttributeError`, and exceptions are not modelled. A non-dict inline node is different: the source raises only when `"text" in t` holds or cannot be evaluated, and gets past one without a `"text"` member, which this requirement excludes.
- Acceptance.CollectBulletList: requires every item, paragraph and inline node of the list to be a dict (`ListShaped`), for the same reason.
- Acceptance.CollectItem: requires every paragraph and inline node of the item to be a dict (`ItemShaped`), for the same reason.
- Acceptance.CollectParagraph: requires every inline node to be a dict, for the same reason.
- JiraParser.SimplifyJiraIssue: has the same requirement on the description's nodes.
- JSON values beyond the three keys the parser reads are not modelled:
  - a dict keeps only `type`, `text` and `content`;
  - a scalar keeps only its truthiness;
  - a `text` must be a string, and a `content` must be a list.
- Some malformed issues make the source raise, e.g. a null `fields`, `status` or `comment`, or a non-dict comment. The issue is a typed record, so these cannot be written down. A null `summary` or status `name` cannot be written down either; the source would render it as "None".
- Strings.ContainsCI: case-insensitive matching uses ASCII lower-casing. This covers `re.search` and `re.split` with `(?i)` (lines 82 and 88). Python's Unicode matching also lets the `i` of "criteria" match `ı` (U+0131) and `İ` (U+0130); the model does not. The heading test uses `str.lower()` and `"acceptance"` (lines 38-39), and there ASCII lower-casing gives the same answer. Python's `lower()` turns a non-ASCII character into ASCII only for U+0130 and U+212A, and neither the resulting `i` nor `k` occurs in "acceptance".
- Network, threads, HTTP clients, browser automation, routing and configuration are outside this core. `app/services/jira_service.py`, `app/services/openai_service.py`, `app/services/ui_validator.py`, `app/services/ui_playwright_worker.py`, `app/routes/`, `app/main.py`, `app/core/config.py` and `app/models/schema.py` are not part of this model.

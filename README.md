# orgize core, modelled in Dafny

This project models five small pieces of orgize, an Org-mode parser built on a
lossless syntax tree, together with its language server:

- the typed views over HEADLINE, DRAWER, PROPERTY_DRAWER and SNIPPET nodes, which answer questions about a node by searching its direct children: level, TODO keyword, tags, priority, COMMENT/ARCHIVE detection, LOGBOOK clocks, drawer name and content offsets, property pairs and the maps built from them, snippet backend and value;
- the top-level document parser. It takes an optional property drawer, then blank lines, then an optional leading section, then loops over headlines until the input is used up;
- the language server's block-template completion. When the two bytes before the cursor are one of ten `<x` triggers, it offers one edit that replaces them with a `#+BEGIN_…`/`#+END_…` block.

Files:

- `syntax.dfy` (modules `Wrappers` and `Syntax`) is a minimal stand-in for the syntax tree:
  - an element is a token (kind, text) or a node (kind, children);
  - the text of a node is the concatenation of its tokens;
  - lengths are UTF-8 byte counts, as the tree's text ranges are;
  - a child starts at its parent's start plus the lengths of its earlier siblings;
  - the child queries the views use are functions: first token of a kind, all tokens of a kind, first node of a kind, nodes of a kind, first/last child node.
- `headline.dfy` (`HeadlineView`), `drawer.dfy` (`DrawerView`) and `snippet.dfy` (`SnippetView`) are the typed views, written as functions over a node's children (`Level`, `TodoKeyword`, `Iter`, `Get`, `ToHashMap`, `Clocks`, …). The table below names, for each accessor, the function that models it and the member whose contract states its promise.
- `document.dfy` (`DocumentParser`) holds the document parser:
  - it is an imperative method, `DocumentNodeBase`, proved equal to a staged specification function `DocumentSpec`;
  - the four sub-parsers it calls are function-valued parameters (a `Grammar`). Each returns success with the remaining input, a recoverable `Error` or an unrecoverable `Failure`;
  - lemmas state the document's properties under the laws the sub-parsers are expected to obey: lossless, and each builds its own kind of element.
- `completion.dfy` (`Completion`) holds the completion request:
  - the document text is its UTF-8 byte sequence;
  - the cursor is given both as an editor position and as the byte offset it maps to.

## Model

| member | source | states |
|---|---|---|
| `Syntax.LenIsTextLen` | src/syntax/document.rs:102-118 | A node's range length (the sum of its children's lengths) is the UTF-8 byte length of its text, so a DOCUMENT's span `0..n` has `n` equal to the byte length of what it covers |
| `Syntax.ChildRange` | src/ast/drawer.rs:66-79 | A child's range starts where the previous sibling's ends, starts at or after the parent's start, and ends at or before the parent's end |
| `Syntax.FindToken` | src/ast/headline.rs:25-27 | `find_map(filter_token(k))` gives `None` exactly when no direct child is a token of kind `k`; otherwise it gives the text of the first such token |
| `Syntax.TokensOfMembers` | src/ast/headline.rs:213-220 | `filter_map(filter_token(k))` lists exactly the texts of the direct tokens of kind `k` |
| `Syntax.TokensOfCons` | src/ast/drawer.rs:15-20 | One step of `filter_map(filter_token(k))`: the first child contributes its text exactly when it is a token of kind `k`, ahead of the rest's |
| `Syntax.FindTokenIsFirstOfTokens` | src/ast/snippet.rs:12-33 | `find_map` over tokens of a kind returns the first element of the corresponding `filter_map`, and `None` when that is empty |
| `Syntax.NthTokenPosition` | src/ast/snippet.rs:27-33 | The `n`-th token of kind `k` (`nth(n)`) is a direct child preceded by exactly `n` tokens of that kind |
| `Syntax.FindNodeIndex` | src/ast/headline.rs:132-136 | `children().find(kind == k)` gives the first child node of kind `k`, and `None` exactly when there is none |
| `Syntax.NodesOf` | src/ast/headline.rs:263-275 | `children().filter_map(X::cast)` keeps exactly the direct child nodes of the kind, and no more of them than there are children |
| `Syntax.NodesOfAppend` | src/ast/headline.rs:263-275 | `filter_map(X::cast)` keeps the children's order and multiplicity: the nodes of kind `k` among `a + b` are those among `a` followed by those among `b` |
| `Syntax.NodesOfCons` | src/ast/headline.rs:263-275 | One step of `filter_map(X::cast)`: the first child is kept exactly when it is a node of the kind, ahead of the rest's |
| `Syntax.NodesOfNone` | src/ast/headline.rs:263-275 | Children with no node of kind `k` give an empty `filter_map(X::cast)` |
| `Syntax.FirstNodeIndex` | src/ast/drawer.rs:66-71 | `first_child()` is the first child that is a node, `None` when all children are tokens |
| `Syntax.LastNodeIndex` | src/ast/drawer.rs:74-79 | `last_child()` is the last child that is a node, `None` when all children are tokens |
| `HeadlineView.LevelCountsStars` | src/ast/headline.rs:24-35 | `level` (function `Level`) is 0 when there is no HEADLINE_STARS token, and otherwise the number of `*` characters in the first one (its byte length); it is 0 only when that token is missing or empty |
| `HeadlineView.FirstKeyword` | src/ast/headline.rs:43-55 | The search behind `todo_keyword` is `None` exactly when no child is a HEADLINE_KEYWORD_TODO or HEADLINE_KEYWORD_DONE token; otherwise it is the first such child |
| `HeadlineView.TodoKeyword` | src/ast/headline.rs:43-55 | `todo_keyword` is `None` exactly when no direct child is a keyword token; otherwise it is the first direct child that is one |
| `HeadlineView.FirstTodoTypeMatchesKeyword` | src/ast/headline.rs:43-77 | The search behind `todo_type` classifies the very token that `todo_keyword` finds: no type without a keyword, `Todo` for a TODO token, `Done` for a DONE token |
| `HeadlineView.TodoTypeMatchesKeyword` | src/ast/headline.rs:43-101 | `todo_type`, `is_todo` and `is_done` (functions `TodoTypeOf`, `IsTodo`, `IsDone`): `todo_type` is `Some` exactly when `todo_keyword` is. `is_todo` holds iff the keyword is a TODO token and `is_done` iff it is a DONE token, so a headline is never both |
| `HeadlineView.TitleRaw` | src/ast/headline.rs:115-138 | `title_raw` is the concatenated text of the elements `title` (function `Title`, the children of the first HEADLINE_TITLE node) yields, and the empty string when there is no HEADLINE_TITLE child |
| `HeadlineView.FirstWord` | src/ast/headline.rs:158-160 | The leading non-whitespace run of a string is a prefix of it, contains no whitespace, and is followed by whitespace or the end |
| `HeadlineView.FirstWordIs` | src/ast/headline.rs:158-160 | A whitespace-free word `w` is a string's first word iff the string starts with `w` and `w` is followed by whitespace or the end |
| `HeadlineView.CommentedIffFirstWord` | src/ast/headline.rs:152-166 | `is_commented` (predicate `IsCommented`) holds iff the title's first element is a TEXT token whose first word is exactly "COMMENT"; it is false without a title |
| `HeadlineView.Tags` | src/ast/headline.rs:213-220 | `tags` is empty without a HEADLINE_TAGS child; otherwise it lists exactly the TEXT tokens of the first such child |
| `HeadlineView.ArchivedIffArchiveTag` | src/ast/headline.rs:178-180 | `is_archived` (predicate `IsArchived`) holds iff the first HEADLINE_TAGS child holds a TEXT token whose whole text is "ARCHIVE" ("ARCHIVED" does not count) |
| `HeadlineView.Priority` | src/ast/headline.rs:234-242 | `priority` is `None` without a HEADLINE_PRIORITY child; when present, it is a TEXT token of that child |
| `HeadlineView.LogbookClocks` | src/ast/headline.rs:266-274 | A drawer contributes clocks only when its name equals "LOGBOOK" ignoring ASCII case and it has a DRAWER_CONTENT child; they are exactly that child's CLOCK nodes |
| `HeadlineView.ClocksInDrawers` | src/ast/headline.rs:265-274 | The clocks of a sequence of drawers are exactly the clocks each LOGBOOK drawer contributes |
| `HeadlineView.ClocksInSections` | src/ast/headline.rs:263-275 | The clocks of a sequence of sections are exactly those of the DRAWER nodes directly inside them |
| `HeadlineView.Clocks` | src/ast/headline.rs:263-275 | `clocks` yields only CLOCK nodes. They are exactly those inside the DRAWER_CONTENT of a LOGBOOK drawer that sits directly in one of the headline's SECTION children |
| `HeadlineView.ClocksInDrawersAppend` | src/ast/headline.rs:265-274 | Clocks keep drawer order and multiplicity: drawers `a + b` give the clocks of `a`, then those of `b` |
| `HeadlineView.ClocksInSectionsAppend` | src/ast/headline.rs:263-275 | Clocks keep section order and multiplicity: sections `a + b` give the clocks of `a`, then those of `b` |
| `HeadlineView.ClocksChildren` | src/ast/headline.rs:263-275 | `clocks` over children `a + b` is the clocks of `a` followed by those of `b`; a single SECTION child gives its drawers' clocks in order, any other single child none |
| `HeadlineView.NoSectionNoClocks` | src/ast/headline.rs:263-265 | Children without a SECTION node give no clocks |
| `HeadlineView.SectionWithDrawer` | src/ast/headline.rs:264-274 | A section whose children are a paragraph, a drawer and a paragraph contributes exactly that drawer's clocks |
| `HeadlineView.DrawerOfName` | src/ast/drawer.rs:90-100 | The drawer ":name:" … ":END:" has `name` equal to `name` (function `NameText`, absent name shown as "") |
| `HeadlineView.DrawerOfClocks` | src/ast/headline.rs:266-274 | Such a drawer contributes the CLOCK nodes of its content, in order and with repeats, when `name` is "LOGBOOK" up to ASCII case (predicate `IsLogbook`), and none otherwise |
| `HeadlineView.TwoClocksContent` | src/ast/headline.rs:249-258 | The documented logbook content (paragraph, clock, paragraph, the same clock, paragraph) holds two CLOCK nodes |
| `HeadlineView.ClocksExample` | src/ast/headline.rs:244-261 | The `clocks` doc-test: a headline whose section holds a LOGBOOK drawer with two identical CLOCK entries yields both, so the count is 2 |
| `DrawerView.ContentStart` | src/ast/drawer.rs:66-71 | `content_start` lies within the drawer's range, and is the drawer's own start when it has no child node (`Drawer::content_start`, lines 103-108, is the same code) |
| `DrawerView.ContentEnd` | src/ast/drawer.rs:74-79 | `content_end` lies within the drawer's range, and is the drawer's own end when it has no child node (`Drawer::content_end`, lines 111-116, is the same code) |
| `DrawerView.ContentOrdered` | src/ast/drawer.rs:66-79 | With at least two child nodes, `content_start <= content_end` |
| `DrawerView.SingleNodeContentInverted` | src/ast/drawer.rs:103-116 | With exactly one non-empty child node, `content_end < content_start`: the first and last child are the same node |
| `DrawerView.Name` | src/ast/drawer.rs:90-100 | `name` is absent when the drawer has no child node. Otherwise it is a TEXT token of the first child node, absent when there is none |
| `DrawerView.ContentRaw` | src/ast/drawer.rs:119-125 | `content_raw` is "" without a DRAWER_CONTENT child. Otherwise it is the part of the drawer's text between its earlier and later siblings, and its byte length is that child's range length |
| `DrawerView.PairsOfMembers` | src/ast/drawer.rs:14-23 | The pair list behind `iter` holds exactly the (first TEXT, second TEXT) pairs of the property nodes that have two TEXT tokens |
| `DrawerView.PairsOfAppend` | src/ast/drawer.rs:14-23 | `filter_map` over properties keeps their order and multiplicity: properties `a + b` give the pairs of `a` followed by those of `b` |
| `DrawerView.IterChildren` | src/ast/drawer.rs:14-23 | `iter` (function `Iter`) walks the drawer's children in order: children `a + b` give the pairs of `a`, then those of `b`; one child gives its own pair when it is a NODE_PROPERTY with two TEXT tokens, and nothing otherwise |
| `DrawerView.FindValue` | src/ast/drawer.rs:33-35 | `get(key)` (function `Get` applies it to `Iter`) is `None` iff no pair has that key; otherwise it is the value of the first pair with that key |
| `DrawerView.FindValueAppend` | src/ast/drawer.rs:33-35 | The first match in `xs + ys` is the first in `xs`, or, when `xs` has none, the first in `ys` |
| `DrawerView.GetChildren` | src/ast/drawer.rs:33-35 | `get` on a drawer with children `a + b`: a property with the key among `a` answers before any among `b`, and `b` answers only when `a` has none |
| `DrawerView.CollectLastWins` | src/ast/drawer.rs:46-48 | `to_hash_map` (function `ToHashMap`, the overwriting fold `Collect` applied to `Iter`) has one entry per distinct key (its size is the number of distinct keys), and each key maps to the value of its last occurrence |
| `DrawerView.FindValueVsCollect` | src/ast/drawer.rs:33-48 | `get` and `to_hash_map` know the same keys, and agree on a key that occurs once |
| `DrawerView.InsertKeys` | src/ast/drawer.rs:61-63 | `Insert`, inserting into an insertion-ordered map keeps keys distinct and earlier keys in place. A new key is appended; an existing key keeps its position |
| `DrawerView.CollectIndexedKeys` | src/ast/drawer.rs:61-63 | `to_index_map` (function `ToIndexMap`, the fold of insertions `CollectIndexed` applied to `Iter`) holds each distinct key exactly once |
| `DrawerView.CollectIndexedValues` | src/ast/drawer.rs:61-63 | Each `to_index_map` entry carries the value `to_hash_map` gives its key, i.e. the last one |
| `DrawerView.CollectIndexedOrder` | src/ast/drawer.rs:61-63 | `to_index_map` entries are ordered by the first occurrence of their keys |
| `DrawerView.PropertyTexts` | src/ast/drawer.rs:15-20 | The TEXT tokens of the property line ":key: value" are the key and the value, in that order |
| `DrawerView.PropertyNodePair` | src/ast/drawer.rs:14-23 | The NODE_PROPERTY node of the line ":key: value" contributes the pair (key, value) |
| `DrawerView.IterAround` | src/ast/drawer.rs:14-23 | Children that are not NODE_PROPERTY nodes (the drawer's ":PROPERTIES:" and ":END:" lines), before or after the properties, contribute no pair |
| `DrawerView.TwoPropertyIter` | src/ast/drawer.rs:7-13 | The `iter` doc-test: a PROPERTY_DRAWER whose children are its begin lines, two property lines and its end lines yields the two pairs, in order, so the count is 2 |
| `DrawerView.IterOfTwo` | src/ast/drawer.rs:14-23 | A drawer with two children yields the first child's pair, then the second's |
| `DrawerView.DuplicateKeyExample` | src/ast/drawer.rs:37-45 | The `to_hash_map` doc-test, on a PROPERTY_DRAWER node with begin lines, two property lines of the same key and end lines: `iter` counts 2, `get` returns the first value, and the hash map has size 1 and holds the second value |
| `DrawerView.TwoKeysIndexExample` | src/ast/drawer.rs:24-60 | The `get` and `to_index_map` doc-tests, on a PROPERTY_DRAWER node with begin lines, two property lines of different keys and end lines: `iter` counts 2, `get` finds each value, and the index map holds both in order, so index 1 is the second line |
| `SnippetView.Backend` | src/ast/snippet.rs:12-17 | `backend` is the first TEXT child token; a snippet without one is outside the contract |
| `SnippetView.Value` | src/ast/snippet.rs:27-33 | `value` is a TEXT child token; a snippet with fewer than two TEXT tokens is outside the contract |
| `SnippetView.ValueFollowsBackend` | src/ast/snippet.rs:12-33 | The backend token comes strictly before the value token, and is the only TEXT token before it |
| `SnippetView.SnippetExample` | src/ast/snippet.rs:6-26 | In `@@b:v@@` the backend is `b` and the value `v`, including an empty value ("@@BACKEND:@@" gives "") |
| `DocumentParser.Opt` | src/syntax/document.rs:26-29 | `opt` turns a recoverable error into "nothing parsed, input unchanged", keeps a success, and passes an unrecoverable failure on |
| `DocumentParser.OptLossless` | src/syntax/document.rs:26-29 | `opt` of a lossless parser is lossless: the text of the optional child followed by the remaining input is the input, and the child has the kind the parser builds |
| `DocumentParser.HeadlineRun` | src/syntax/document.rs:44-50 | The headline loop, when it succeeds, leaves no input and has run at most once per character of its input |
| `DocumentParser.DocumentNodeBase` | src/syntax/document.rs:19-53 | The parser computes `DocumentSpec`, the staged definition (`DrawerStage`, `BlankStage`, `SectionStage`, `Finish`) of what lines 24-52 build. Empty input gives a DOCUMENT with no children and the input unchanged. Every success is a DOCUMENT node and leaves no input |
| `DocumentParser.HeadlineRunLossless` | src/syntax/document.rs:44-50 | With a lossless headline parser, the headlines the loop collects carry exactly the text it consumed |
| `DocumentParser.HeadlineRunKinds` | src/syntax/document.rs:44-50 | The loop yields only HEADLINE nodes, in parse order: the first parsed headline, then the loop on the rest |
| `DocumentParser.SectionStageLossless` | src/syntax/document.rs:39-52 | The section-and-headlines stage adds exactly the text of the input it receives |
| `DocumentParser.BlankStageLossless` | src/syntax/document.rs:31-52 | The blank-lines stage and everything after it add exactly the text of the input they receive |
| `DocumentParser.DocumentLossless` | src/syntax/document.rs:19-53 | With lossless sub-parsers, a parsed document leaves no input, its text is the whole input, and its length is the input's byte length |
| `DocumentParser.DocumentEndsInput` | src/syntax/document.rs:35-52 | Both ways out of a successful parse leave the remaining input empty |
| `DocumentParser.SectionStageOrder` | src/syntax/document.rs:39-50 | After a prefix of property drawer and blank lines, the optional section and the headlines keep the order |
| `DocumentParser.BlankStageOrder` | src/syntax/document.rs:31-50 | After an optional property drawer, the blank lines and what follows keep the order |
| `DocumentParser.DocumentChildrenOrder` | src/syntax/document.rs:24-50 | Children come in a fixed order: at most one property drawer, then blank lines, then at most one section, then headlines, and nothing else |
| `DocumentParser.BlankOnlyDocument` | src/syntax/document.rs:31-37 | When the blank-line parser takes the whole input, the document holds only BLANK_LINE tokens, and together they carry the input's text |
| `Completion.TriggerLetters` | orgize-lsp/src/completion.rs:23-41 | The table (constant `Triggers`) has ten triggers, with ASCII, pairwise distinct letters |
| `Completion.LookupIn` | orgize-lsp/src/completion.rs:23-41 | The table search finds an entry iff some entry's key bytes equal the typed bytes, and the entry it returns has those key bytes |
| `Completion.Lookup` | orgize-lsp/src/completion.rs:23-41 | The `match` on the filter text answers iff the two bytes are one of the ten keys, and then with that key's entry |
| `Completion.TriggerKeysDistinct` | orgize-lsp/src/completion.rs:24-39 | No two table entries share key bytes |
| `Completion.KeyBytesAreUtf8` | orgize-lsp/src/completion.rs:24-39 | The bytes a trigger matches are the UTF-8 encoding of its two-character key |
| `Completion.EncodeChar` | orgize-lsp/src/completion.rs:24-39 | A character's UTF-8 encoding has the width the syntax tree counts for it, an ASCII character is its own single byte, its first byte is never a continuation byte and all its later bytes are |
| `Completion.Utf8Length` | orgize-lsp/src/completion.rs:43-58 | The UTF-8 bytes of a string number exactly the byte length the syntax tree measures text in |
| `Completion.Slice` | orgize-lsp/src/completion.rs:21 | `text.get(lo..hi)` succeeds iff `lo <= hi <= len` and both ends are character boundaries, and then gives those bytes |
| `Completion.Utf8Append` | orgize-lsp/src/completion.rs:21 | The bytes of `a + b` are the bytes of `a` followed by those of `b` |
| `Completion.BoundaryAtCharStart` | orgize-lsp/src/completion.rs:21 | In the bytes of a text, the start of every character, and the end, is a character boundary |
| `Completion.BoundaryIsCharStart` | orgize-lsp/src/completion.rs:21 | Conversely, every character boundary in the bytes of a text is the start of one of its characters, or the end |
| `Completion.SliceAtCharStarts` | orgize-lsp/src/completion.rs:21 | `get` between the byte offsets of two character starts succeeds and gives the bytes of the characters between |
| `Completion.ColumnMinus2` | orgize-lsp/src/completion.rs:53 | `end.character - 2` on a `u32` column: exact when the column is at least 2, wrapped modulo 2^32 otherwise |
| `Completion.Complete` | orgize-lsp/src/completion.rs:8-59 | No completion when the offset is below 2. There is one iff the offset is within the text, both ends of the two-byte slice before it are character boundaries, and those bytes are a trigger key |
| `Completion.CompletionItemShape` | orgize-lsp/src/completion.rs:43-58 | The item built (function `ItemFor`): when the two bytes before an in-range offset form a valid slice that is a trigger key, there is a completion: one item with the trigger's label, kind TEXT, insert text and edit text both the trigger's template, and filter text the two bytes typed. Its edit range ends at the cursor and starts on the same line, two columns earlier when the column is at least 2 |
| `Completion.TriggersAdvertised` | orgize-lsp/src/completion.rs:61-75 | Every key the table answers to is listed in `trigger_characters` (constant `TriggerCharacters`) |
| `Completion.AdvertisedWithoutCompletion` | orgize-lsp/src/completion.rs:61-75 | "<I" is listed in `trigger_characters`, yet typing it yields no completion |

## Left out

- The syntax tree library itself (green/red nodes, parent pointers, cached lengths) is replaced by the recursive `Elem` datatype. Offsets are unbounded naturals rather than 32-bit `TextSize` values.
- Tokens returned by accessors are modelled by their text. The default (absent) token of `Drawer::name` is `None`, shown as "".
- The `level` accessor's debug assertion for a headline without stars is not modelled. The model returns 0, as a release build does.
- Title inline markup (bold, italic, …) is not parsed. `title` is the title node's children as they are.
- `closed`, `scheduled` and `deadline` delegate to the planning and timestamp code, which is not part of this model.
- `Clock::cast` internals are not part of this model; a CLOCK node counts as a clock.
- `node_properties()` is not part of this model. It is taken to be the drawer's direct NODE_PROPERTY child nodes.
- Hash map and index map internals are not modelled:
  - keys compare by their text;
  - the hash map is a fold that overwrites;
  - the index map is a fold of insertions that keep an existing key's position.
- The doc-tests run the whole parser on source text. The model states them on trees of the shape that parser produces, with the texts, the drawers' begin and end lines and the headline's own tokens as parameters: `SnippetView.SnippetExample`, `DrawerView.TwoPropertyIter`, `DrawerView.DuplicateKeyExample`, `DrawerView.TwoKeysIndexExample` and `HeadlineView.ClocksExample`. The exact token layout of a property line and of a drawer's begin and end lines is taken from the syntax kinds, since the grammar that builds them is not part of this model.
- The combinator library, the `lossless_parser!` wrapper and the tracing instrumentation around the document parser are not modelled. The combinator library's "incomplete input" outcome is folded into `Failure`: `opt` passes both on.
- The sub-parsers for property drawers, blank lines, sections and headlines are parameters. Their grammar is not part of this model.
- The snapshot in which "*heading 1" ends up as PARAGRAPH text inside the preceding headline's section is not modelled, because it depends on that unmodelled grammar.
- DocumentParser.BlankOnlyDocument: the snapshot's premise, "input made only of blank lines", is stated as what the sub-parsers do on it: no property drawer, and blank lines take everything.
- DocumentParser.DocumentNodeBase: the debug assertion that each headline parse shortens the input is a precondition of the parser (`Consuming`). A release build with a headline parser that consumes nothing on non-empty input would loop forever; that case is not modelled.
- The language server's document store is not modelled. A request for an unknown document returns no completion before any of the modelled logic runs.
- The conversion from an editor position (UTF-16 columns) to a byte offset is not modelled: the offset is an input.
- Only the completion item fields the code sets are modelled; the rest keep their defaults.
- Completion.ColumnMinus2: the column arithmetic follows a release build (wrap-around). A debug build panics when the column is below 2.
- The snippet accessors panic when the TEXT tokens are missing; this is modelled as the preconditions of `SnippetView.Backend` and `SnippetView.Value`.

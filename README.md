# TEDS table similarity, modelled in Dafny

This project models the TEDS (Tree-Edit-Distance-based Similarity) scorer of
WebMainBench, `TEDSMetric` and its cost model `TableConfig` in
`webmainbench/metrics/teds_metrics.py`. The scorer compares a predicted table
with a ground-truth table in five steps:

1. The normaliser turns each table into an HTML string. The input may be
   HTML, Markdown, a list of rows or any other value.
2. The tree builder turns the first `<table>` element into a tree of tag,
   attributes, text and children. Tags in the ignore set (`tbody`, `thead`
   and `tfoot` by default) get special treatment.
3. The serialiser writes each tree in bracket notation,
   `label(child,child,...)`.
4. The cost model prices node deletions, insertions and renames for the
   external tree edit distance.
5. The score is `1 - distance / max_nodes`, clamped to [0, 1]. A missing or
   failed prerequisite yields an error result instead.

## Modules

| file | module | what it holds |
|---|---|---|
| `wrappers.dfy` | `Wrappers` | `Option` |
| `text.dfy` | `Text` | Python's `str.isspace`, `strip`, `lower`, `split`, `join` and substring test |
| `values.dfy` | `PyValues` | the Python values a caller passes as a table, and `str()` of them |
| `normalize.dfy` | `Normalize` | `_normalize_to_html`, `_markdown_to_html`, `_list_to_html` |
| `trees.dfy` | `Trees` | the parsed element tree, `_element_to_tree`, `_count_nodes` |
| `costs.dfy` | `TableConfig` | `delete`, `insert`, `rename`, `_parse_node`, `_levenshtein` |
| `bracket.dfy` | `Bracket` | `_to_bracket_notation` |
| `teds.dfy` | `TedsMetric` | `_setup`, `_parse_html_table`, `_tree_edit_distance`, `_calculate_score` |

### Imperative and pure parts

The source builds its HTML and its trees by appending to lists in loops. The
model keeps those as methods with loops:

- `Normalize.MarkdownToHtml`
- `Normalize.ListToHtml`
- `Trees.ElementToTree`

Each method is proved equal to a specification function:

- `MarkdownHtml`
- `ListHtml`
- `BuildTree`

The lemmas are stated about those functions. The rest of the source is
expressions and recursion, and is modelled as functions.

### Ignored tags and attributes

A natural reading of `ignore_nodes` is a splice, where the ignored node
vanishes and its children move into its parent. The code at
`webmainbench/metrics/teds_metrics.py:209-212` does something else, and the
model follows the code:

- It keeps the ignored node, tag and all.
- It replaces that node's children with the concatenation of its element
  children's own children lists.

So for `tbody` it is the `tr` level that disappears. As a result, a table
written with a `tbody` wrapper does not build the same tree as the table
written without it. `Trees.IgnoredWrapperExample` shows this on a concrete
table.

Only tag and text enter the bracket notation. The attributes, `colspan` and
`rowspan` included, are carried in each tree and never compared.

### Tags that hold a colon

The label of a node is `tag` or `tag:text`, and `_parse_node` splits it at
the first colon. The HTML parser keeps namespaced tag names such as `o:p`,
which are common in tables exported from word processors. For such a tag the
cost model reads a shorter tag and part of the tag as text
(`Bracket.ColonTagMisread`). Two textless cells tagged `o:p` and `o:pp` then
cost 0.5 to rename into each other instead of the 1 that two different tags
cost (`Bracket.NamespacedRename`). The model keeps this behaviour.

## Model

| member | source | states |
|---|---|---|
| `Text.StripEmpty` | webmainbench/metrics/teds_metrics.py:148 | `strip()` gives the empty string exactly when every character is white space, so `not x.strip()` is the blank test |
| `Normalize.NormalizeToHtml` | webmainbench/metrics/teds_metrics.py:143-158 | the normaliser tries `None`, a blank string, HTML, Markdown, a plain string, a list and any other value in the source's order. It returns "" exactly for `None`, an all-white-space string and an empty list; every other value becomes a table |
| `Normalize.NormalizeHasTable` | webmainbench/metrics/teds_metrics.py:143-158 | every non-empty normaliser output contains `<table`, compared case-insensitively |
| `Normalize.MarkdownToHtml` | webmainbench/metrics/teds_metrics.py:160-173 | the loop that appends `<tr>` parts returns `MarkdownHtml`: "" when no line holds a `\|`; otherwise `<table>`, one row per data line (header cells for the first, data cells after), `</table>` |
| `Normalize.MarkdownHtmlEmpty` | webmainbench/metrics/teds_metrics.py:161-164 | the Markdown path returns "" exactly when the text contains no `\|` |
| `Normalize.StripNonEmptyFrom` | webmainbench/metrics/teds_metrics.py:161 | every kept line is one of the input lines, stripped |
| `Normalize.StripNonEmptyKeeps` | webmainbench/metrics/teds_metrics.py:161 | every line that is not blank is kept, stripped |
| `Normalize.PipeLinesMember` | webmainbench/metrics/teds_metrics.py:162 | a line is kept as a table line exactly when it contains `\|` |
| `Normalize.DataLinesMember` | webmainbench/metrics/teds_metrics.py:166 | a line is kept as a data line exactly when it is not a separator line (white space, `\|`, `-`, `:` only) |
| `Normalize.DataLineHasCells` | webmainbench/metrics/teds_metrics.py:166-169 | a non-blank line that is not a separator has at least one cell, so the `if cells:` guard never drops a data line |
| `Normalize.CellFacts` | webmainbench/metrics/teds_metrics.py:168 | every cell is non-empty, has no white space at either end and contains no `\|` |
| `Normalize.CellsJoin` | webmainbench/metrics/teds_metrics.py:168 | round trip: splitting cells joined with `\|` gives the cells back |
| `Normalize.MarkdownExample` | webmainbench/metrics/teds_metrics.py:160-173 | `a\|b`, `--\|--`, `1\|2` gives a header row `a`,`b` and a data row `1`,`2`; the separator line is dropped |
| `Normalize.ListToHtml` | webmainbench/metrics/teds_metrics.py:175-188 | the loop returns `ListHtml`: "" for an empty list, otherwise exactly one `<td>` row per item, in order. A dict item gives its values, a list item its elements, any other item its `str()` |
| `Normalize.TableParts` | webmainbench/metrics/teds_metrics.py:171-173 | joining `<table>`, the row parts and `</table>` gives the rendered table |
| `Trees.ElementToTree` | webmainbench/metrics/teds_metrics.py:202-217 | the loop that appends or extends the `children` list returns `BuildTree` of the element |
| `Trees.PlainChildren` | webmainbench/metrics/teds_metrics.py:213-216 | a node whose tag is not ignored has exactly one child tree per element child, in document order; text and comment nodes are skipped |
| `Trees.SplicedChildren` | webmainbench/metrics/teds_metrics.py:209-212 | the children of an ignored node are the children lists of its element children's trees, concatenated in order |
| `Trees.StructureOnlyNoText` | webmainbench/metrics/teds_metrics.py:206 | in structure-only mode every text in the built tree is "" |
| `Trees.IgnoredWrapperExample` | webmainbench/metrics/teds_metrics.py:202-217 | with the default ignore set, `table>tbody>tr>td` builds `table(tbody(td))`: the `tbody` stays, the `tr` level goes, and the tree differs from that of `table>tr>td` |
| `Trees.ElementChildren` | webmainbench/metrics/teds_metrics.py:210-211 | the element children of a node: every one has a non-empty tag name, and there are no more of them than children |
| `Trees.Size` | webmainbench/metrics/teds_metrics.py:264-267 | the node count of a tree, itself plus its descendants, is at least 1 |
| `Trees.ForestSize` | webmainbench/metrics/teds_metrics.py:264-267 | the node count of a sequence of trees is at least its length, because each tree counts at least 1 |
| `Trees.CountNodes` | webmainbench/metrics/teds_metrics.py:264-267 | the count is 0 exactly for `None`; otherwise it is the tree's size, at least 1 |
| `Trees.ForestSizeAppend` | webmainbench/metrics/teds_metrics.py:267 | counting is additive over concatenated child lists |
| `Trees.GrandchildrenSize` | webmainbench/metrics/teds_metrics.py:209-212 | the children lists of spliced trees together hold all their nodes except their roots: one node fewer per element child |
| `TableConfig.ParseNode` | webmainbench/metrics/teds_metrics.py:40-46 | a label without `:` gives `(label, "")`; otherwise the label is `tag + ":" + text` with no `:` in the tag, so it splits at the first colon |
| `TableConfig.ParseLabel` | webmainbench/metrics/teds_metrics.py:40-46 | round trip: parsing `tag:text` with a colon-free tag gives back `(tag, text)`, even when the text holds colons |
| `TableConfig.Delete` | webmainbench/metrics/teds_metrics.py:20-21 | deleting any node costs one unit |
| `TableConfig.Insert` | webmainbench/metrics/teds_metrics.py:23-24 | inserting any node costs one unit |
| `TableConfig.EditDistanceBounds` | webmainbench/metrics/teds_metrics.py:57 | the Levenshtein distance is at least the length difference and at most the longer length |
| `TableConfig.EditDistanceSymmetric` | webmainbench/metrics/teds_metrics.py:57 | the Levenshtein distance is symmetric |
| `TableConfig.EditDistanceZero` | webmainbench/metrics/teds_metrics.py:57 | the Levenshtein distance is 0 exactly between equal strings |
| `TableConfig.Levenshtein` | webmainbench/metrics/teds_metrics.py:48-66 | `_levenshtein` is never negative and is 0 exactly between equal texts; for two non-empty texts it lies in [0, 1] |
| `TableConfig.LevenshteinFacts` | webmainbench/metrics/teds_metrics.py:48-54 | `_levenshtein` is symmetric, and is the other text's length (possibly above 1) when one text is empty |
| `TableConfig.Rename` | webmainbench/metrics/teds_metrics.py:26-38 | `rename` is never negative; it costs 1 when the parsed tags differ and is 0 exactly when both labels parse to the same tag and text |
| `TableConfig.RenameFacts` | webmainbench/metrics/teds_metrics.py:26-38 | `rename` is symmetric, and costs at most 1 when both parsed texts are non-empty |
| `TableConfig.RenameWithinUnitCosts` | webmainbench/metrics/teds_metrics.py:20-38 | unless exactly one of the two labels carries a text, renaming costs no more than deleting the one node and inserting the other |
| `TableConfig.RenameFromEmptyText` | webmainbench/metrics/teds_metrics.py:20-38 | renaming a textless cell to one of the same tag with text `t` costs `len(t)`; once `t` has 3 or more characters that exceeds the delete cost plus the insert cost (1 each) |
| `Bracket.SafeText` | webmainbench/metrics/teds_metrics.py:250-251 | the escaped text has the same length, holds no `(`, `)` or `,`, and differs from the text exactly at those characters |
| `Bracket.Label` | webmainbench/metrics/teds_metrics.py:243-255 | a node's label always starts with its tag, and is the bare tag exactly in structure-only mode or when the text is empty |
| `Bracket.ToBracket` | webmainbench/metrics/teds_metrics.py:257-262 | a node is written as its bare label exactly when it has no children; `BracketCounts` states what the notation encodes |
| `Bracket.JoinBrackets` | webmainbench/metrics/teds_metrics.py:261 | the comma-joined notations of `n` children are at least `n - 1` characters long, one per separating comma; `JoinCounts` counts the commas exactly |
| `Bracket.LabelParses` | webmainbench/metrics/teds_metrics.py:243-255 | parsing a node's label gives its tag, plus its escaped text unless the mode is structure-only, when the tag holds no colon |
| `Bracket.ColonTagMisread` | webmainbench/metrics/teds_metrics.py:40-46 | for a tag holding a colon, parsing the node's label gives a strictly shorter tag than the node's own |
| `Bracket.NamespacedRename` | webmainbench/metrics/teds_metrics.py:26-46 | two textless cells tagged `o:p` and `o:pp` are read as tag `o` with texts `p` and `pp`, so renaming costs 0.5 instead of 1 |
| `Bracket.BracketCounts` | webmainbench/metrics/teds_metrics.py:257-262 | in the bracket notation of a tree whose tags avoid `(`, `)` and `,`, the node count is the number of `(` plus the number of `,` plus one, and `(` and `)` occur equally often |
| `Bracket.JoinCounts` | webmainbench/metrics/teds_metrics.py:261 | the same count for comma-joined children: the node total is the `(` and `,` count plus one |
| `Bracket.NotationDecidesSize` | webmainbench/metrics/teds_metrics.py:238-267 | two trees whose tags avoid `(`, `)` and `,` and whose notations agree have the same node count |
| `Bracket.NotationHidesSize` | webmainbench/metrics/teds_metrics.py:238-267 | without that condition the notation does not fix the count: a leaf tagged `a(b)` and a node `a` with a child `b` are both written `a(b)` |
| `Bracket.ShapeDecidesStructure` | webmainbench/metrics/teds_metrics.py:245-262 | in structure-only mode, two trees with the same tags in the same arrangement serialise to the same string, whatever their texts |
| `Bracket.SameShapeSize` | webmainbench/metrics/teds_metrics.py:264-267 | trees of the same shape have the same node count |
| `TedsMetric.Setup` | webmainbench/metrics/teds_metrics.py:75-78 | structure-only mode exactly when `structure_only` is set to true, so text is compared by default; the ignore set is the configured one, or `tbody`, `thead`, `tfoot` by default |
| `TedsMetric.ParseHtmlTable` | webmainbench/metrics/teds_metrics.py:190-200 | no tree exactly when the HTML is blank or holds no table; otherwise the tree's root is tagged `table` |
| `TedsMetric.TreeEditDistance` | webmainbench/metrics/teds_metrics.py:219-236 | the distance is never negative, whether the external computation answers or the node-count fallback is used |
| `TedsMetric.ScoreFromDistance` | webmainbench/metrics/teds_metrics.py:116-121 | the clamped score always lies in [0, 1] |
| `TedsMetric.FailureReason` | webmainbench/metrics/teds_metrics.py:90 | the failure reason is the printed `error` entry of the details, or `unknown reason` when there is none |
| `TedsMetric.CalculateScore` | webmainbench/metrics/teds_metrics.py:80-136 | the result is an error exactly when `table_edit_result` is missing or failed, with the missing-result message when it is missing and the `error` detail in the message when it failed. When both trees are `None` the score is 1.0 with "Both tables are empty or invalid"; when exactly one is, 0.0 with "One table is empty or invalid". Every score lies in [0, 1] |
| `TedsMetric.ScoreMonotone` | webmainbench/metrics/teds_metrics.py:116-134 | the score does not rise as the distance grows. It is 1 exactly at distance 0 and 0 exactly when the distance reaches the node count |
| `TedsMetric.FallbackScore` | webmainbench/metrics/teds_metrics.py:231-236 | when the external distance raises, the score is the smaller node count divided by the larger |
| `TedsMetric.EqualNotationsZero` | webmainbench/metrics/teds_metrics.py:219-236 | trees with equal notations and counts are at distance 0, given an external distance that is 0 on equal inputs |
| `TedsMetric.IdenticalTablesScoreOne` | webmainbench/metrics/teds_metrics.py:80-136 | a table compared with itself scores 1.0 |
| `TedsMetric.SameShapeScoresOne` | webmainbench/metrics/teds_metrics.py:80-136 | in structure-only mode, tables whose trees have the same shape score 1.0 whatever their cell texts |
| `TedsMetric.EmptyTables` | webmainbench/metrics/teds_metrics.py:93-111 | two empty table values (`None`, blank string, empty list) score 1.0 with "Both tables are empty or invalid". An empty value against a table that parses scores 0.0 with "One table is empty or invalid", whichever side is empty |

## Left out

- HTML parsing (`BeautifulSoup(...).find('table')`): a foreign library. It is the parameter `FindTable`, which returns the first table element or `None`; a parse that raises also gives `None`.
- The APTED algorithm: a foreign call. It is the parameter `Apted`, which returns a non-negative distance or `None` when it raises. Whether APTED accepts the bracket strings it is given is not part of this model. Only the fallback branch is modelled exactly.
- `TedsMetric.TreeEditDistance`: for the APTED branch it states only that the distance is non-negative, because APTED is abstract.
- `TedsMetric.IdenticalTablesScoreOne`, `TedsMetric.SameShapeScoresOne`, `TedsMetric.EqualNotationsZero`: these assume APTED gives 0 between equal notations whenever it returns. Nothing can be proved about its other values, so "full mode scores below 1 for different texts" is not stated.
- rapidfuzz's `Levenshtein.distance`: replaced by the textbook recurrence `TableConfig.EditDistance`.
- The diagnostic `print` at line 233: I/O.
- `MetricResult`, `BaseMetric` and `create_error_result` from `.base`: `.base` is not part of this model. A result is `Scored(score, details)` or `Failure(message)`, and the metric name is not carried.
- The `except Exception` branch of `_calculate_score` (lines 138-141): no modelled step raises, so this branch is not modelled.
- Floating point: costs and scores are `real`, with no rounding. The `int` of `abs(nodes1 - nodes2)` and the `float` of the APTED result are the same real here.
- `StructureTEDSMetric` (lines 270-277): it only sets `structure_only = True` and a name, which is `Settings.structureOnly`.
- `examples/demo.py`, `examples/multi_extractor_compare.py` and `test_apted_import.py`: orchestration and an import check.
- `str()` and `repr()` of lists and dicts (`PyValues.Show`): strings print in single quotes without escaping. Numbers and other objects are given by their printed text (`Scalar`). Python's choice of quote character and its escapes are not modelled.
- `str.lower()` folds only ASCII letters. No other code point lowers to a character of `<table`, so the only use, the `'<table' in s.lower()` test, is unaffected.
- `_setup` reads `structure_only` as a `bool` and `ignore_nodes` as a list of tags. The source accepts any truthy value and any container.
- Element attributes are a string-to-string map. Multi-valued attributes such as `class` are not modelled. The attributes are carried into each tree and never compared, as in the source.

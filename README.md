# ODRL policy pages

This project is a Dafny model of the policy-page generator of the simple data
catalog generator, `src/simple_data_catalog_generator/create_policy_page.py`.
For every subject of a catalog graph typed `odrl:Policy`, the generator renders
an AsciiDoc page with these parts, in order:

- a `= title` heading. The title is the policy's `dcterms:title`, or the
  policy identifier when there is none.
- the policy's `dcterms:description` as a first paragraph, when there is one.
- three sections, Permissions, Obligations and Prohibitions, in that order.
  Each section is an AsciiDoc table with one line per rule (UID, description,
  action and the assignees joined by ", "). A section without rules shows a
  `*No … defined.*` placeholder instead.

Rule descriptions have their `|` characters escaped as `\|` so that they cannot
break the table.

The model has five modules:

- `Wrappers`: the `Option` type.
- `Text`: string operations the generator relies on. These are pipe escaping
  and its inverse, `", ".join`, concatenation of lines, ASCII lower-casing and
  counting characters.
- `RdfGraph`: the part of an RDF graph the generator queries. The graph is a
  sequence of triples, and the model defines `objects`, `subjects` and the
  first-match `value`.
- `PolicyPage`: the generator itself.
  - Pure functions specify the text of a row, a section and a page.
  - Methods follow the source's loops and string building step by step, and are
    proved to produce that text.
  - `CreatePolicyPage` returns the pages as a map from policy identifier to page
    text.
- `PolicyPageProperties`: lemmas about that text. They cover the table
  structure, line counts, column delimiters and the pipe-escaping round trip,
  rule extraction per relation, the title and description fallbacks, and pages
  of policies without rules.

The generator has three quirks, and the model reproduces all of them:

- `str(graph.value(...))` turns a missing title or description into the text
  `"None"`, which the code then compares against. As a result, a title or
  description that is literally `None` is treated as missing
  (`TitleFromFirstTriple`, `DescriptionFromFirstTriple`). The `title is None`
  test that sits beside this comparison can never succeed, so the model leaves
  it out.
- The `policy` parameter of `create_policy_page` is overwritten by the loop
  variable. Whatever is passed, every policy in the graph is rendered.
  `CreatePolicyPage` keeps the parameter and does not use it.
- The docstring of `create_policy_page` (line 45) and the comment at line 68
  say the fallback title is the policy's URI fragment or last path segment.
  The code at line 69 uses `str(policy)`, the whole identifier. The model
  follows the code (`TitleOf`, `HeadingWithoutTitle`,
  `FragmentIdentifierHeading`).

## Model

| member | source | states |
|---|---|---|
| Text.EscapePipes | src/simple_data_catalog_generator/create_policy_page.py:28-29 | escaping adds exactly one character per pipe, and an escaped text never starts with a pipe |
| Text.EscapePipesEscapes | src/simple_data_catalog_generator/create_policy_page.py:28-29 | after escaping, every pipe is preceded by a backslash |
| Text.UnescapeEscape | src/simple_data_catalog_generator/create_policy_page.py:29 | unescaping `\|` gives the original description back (round trip) |
| Text.EscapePipesKeepsCount | src/simple_data_catalog_generator/create_policy_page.py:29 | escaping keeps the number of occurrences of every character other than the pipe and the backslash |
| Text.Join | src/simple_data_catalog_generator/create_policy_page.py:27 | joining no names gives "", one name gives that name, and a join starts with its first element |
| Text.JoinAppend | src/simple_data_catalog_generator/create_policy_page.py:27 | joining two non-empty lists gives the two joins with one separator between them |
| Text.JoinAvoids | src/simple_data_catalog_generator/create_policy_page.py:27 | a character in neither the separator nor any element is not in the join |
| Text.JoinCount | src/simple_data_catalog_generator/create_policy_page.py:27 | a separator character occurs once between each two neighbouring elements |
| Text.Lower | src/simple_data_catalog_generator/create_policy_page.py:23 | lower-casing keeps the length, turns each upper-case ASCII letter into its lower-case letter (code plus 32), leaves none behind and changes no other character |
| Text.EscapePipesNoPipe | src/simple_data_catalog_generator/create_policy_page.py:29 | a description without pipes is written unchanged |
| RdfGraph.Objects | src/simple_data_catalog_generator/create_policy_page.py:81 | an object is listed exactly when a triple with that subject, predicate and object is in the graph; there are no more entries than triples |
| RdfGraph.ObjectsSingle | src/simple_data_catalog_generator/create_policy_page.py:81 | one triple yields its object when subject and predicate match, and nothing otherwise |
| RdfGraph.ObjectsAppend | src/simple_data_catalog_generator/create_policy_page.py:81 | the objects of two graph parts are those of the first followed by those of the second: one entry per matching triple, in graph order |
| RdfGraph.Subjects | src/simple_data_catalog_generator/create_policy_page.py:56 | a subject is listed exactly when a triple with that subject, predicate and object is in the graph; there are no more entries than triples |
| RdfGraph.SubjectsSingle | src/simple_data_catalog_generator/create_policy_page.py:56 | one triple yields its subject when predicate and object match, and nothing otherwise |
| RdfGraph.SubjectsAppend | src/simple_data_catalog_generator/create_policy_page.py:56 | the subjects of two graph parts are those of the first followed by those of the second, in graph order |
| RdfGraph.Value | src/simple_data_catalog_generator/create_policy_page.py:66 | `value` is absent exactly when no triple matches, and otherwise is the object of a matching triple |
| RdfGraph.ValueIsFirstMatch | src/simple_data_catalog_generator/create_policy_page.py:66 | `value` is the object of the first matching triple |
| PolicyPage.RowLines | src/simple_data_catalog_generator/create_policy_page.py:26-30 | a table has one line per rule |
| PolicyPage.FormatRow | src/simple_data_catalog_generator/create_policy_page.py:27-30 | the loop body produces the row text: assignees joined, description escaped, four cells and a line break |
| PolicyPage.AppendRows | src/simple_data_catalog_generator/create_policy_page.py:26-30 | the loop appends the lines of all rules, in input order, to the table built so far |
| PolicyPage.FormatSection | src/simple_data_catalog_generator/create_policy_page.py:11-32 | no rules give the lower-cased placeholder; otherwise the header, the rule lines and the closing delimiter |
| PolicyPage.RuleRowOf | src/simple_data_catalog_generator/create_policy_page.py:82-87 | the uid is the rule; a missing description or action becomes "", and a non-empty one is the object of one of the rule's triples; an assignee is listed exactly when the rule has that `odrl:assignee` triple |
| PolicyPage.ExtractRule | src/simple_data_catalog_generator/create_policy_page.py:82-87 | the loop body reads one rule into exactly the row `RuleRowOf` describes |
| PolicyPage.RowsOfRules | src/simple_data_catalog_generator/create_policy_page.py:81-88 | there is one row per rule |
| PolicyPage.RowsOfRulesAt | src/simple_data_catalog_generator/create_policy_page.py:81-88 | the k-th row is the row of the k-th rule |
| PolicyPage.CollectRows | src/simple_data_catalog_generator/create_policy_page.py:81-88 | the collecting loop appends the rows of the rules in their order |
| PolicyPage.ExtractRules | src/simple_data_catalog_generator/create_policy_page.py:80-108 | one row per linked rule, in query order, each built from that rule |
| PolicyPage.TitleOf | src/simple_data_catalog_generator/create_policy_page.py:66-69 | without a title triple the heading is the policy identifier; otherwise it is the identifier or a title from the graph other than "None" |
| PolicyPage.DescriptionOf | src/simple_data_catalog_generator/create_policy_page.py:72-73 | without a description triple the paragraph is ""; otherwise it is "" or a description from the graph other than "None" |
| PolicyPage.AssemblePage | src/simple_data_catalog_generator/create_policy_page.py:110-118 | the page is the heading, then the paragraph when the description is non-empty, then the three sections in fixed order |
| PolicyPage.RenderPolicy | src/simple_data_catalog_generator/create_policy_page.py:64-118 | the text built for one policy is the page of that policy in the graph |
| PolicyPage.CollectPolicies | src/simple_data_catalog_generator/create_policy_page.py:54-57 | the collected identifiers are exactly the subjects typed `odrl:Policy` |
| PolicyPage.RenderPolicies | src/simple_data_catalog_generator/create_policy_page.py:64-118 | every collected policy gets exactly one page, and that page is its rendered text |
| PolicyPage.CreatePolicyPage | src/simple_data_catalog_generator/create_policy_page.py:36-118 | one page per Policy-typed subject, whatever `policy` argument is given; no pages exactly when the graph has no policy |
| PolicyPageProperties.RowLinesAt | src/simple_data_catalog_generator/create_policy_page.py:26-30 | the k-th table line is the line of the k-th rule |
| PolicyPageProperties.RowsAppend | src/simple_data_catalog_generator/create_policy_page.py:26-30 | the lines of two rule lists are the lines of the first followed by those of the second |
| PolicyPageProperties.RowsSplitAt | src/simple_data_catalog_generator/create_policy_page.py:26-30 | the table body is the rules before k, the line of rule k, then the rules after k |
| PolicyPageProperties.SectionRowAt | src/simple_data_catalog_generator/create_policy_page.py:25-31 | a non-empty section is its header, each rule's line in input order, and the footer |
| PolicyPageProperties.AssigneeCellCommas | src/simple_data_catalog_generator/create_policy_page.py:27 | with comma-free names the assignee cell holds one comma fewer than there are assignees; it is "" for none and the name itself for one |
| PolicyPageProperties.AssigneeCellAppend | src/simple_data_catalog_generator/create_policy_page.py:27 | the cell of two assignee lists is the two cells joined by ", " |
| PolicyPageProperties.RowLineBreaks | src/simple_data_catalog_generator/create_policy_page.py:30 | with line-break-free fields a row is exactly one line, including when the description is escaped |
| PolicyPageProperties.RowsLineCount | src/simple_data_catalog_generator/create_policy_page.py:26-30 | the table body has exactly one line per rule |
| PolicyPageProperties.PlaceholderLineCount | src/simple_data_catalog_generator/create_policy_page.py:22-23 | the placeholder is one line and a blank line |
| PolicyPageProperties.TableHeaderLineCount | src/simple_data_catalog_generator/create_policy_page.py:25 | the header is the title, delimiter, column and blank lines |
| PolicyPageProperties.TableFooterLineCount | src/simple_data_catalog_generator/create_policy_page.py:31 | the footer is the closing delimiter and a blank line |
| PolicyPageProperties.SectionLineCount | src/simple_data_catalog_generator/create_policy_page.py:22-31 | a section has 2 lines without rules and one line per rule plus 6 with rules |
| PolicyPageProperties.EscapedHasNoDelimiters | src/simple_data_catalog_generator/create_policy_page.py:28-29 | an escaped description contains no unescaped pipe, so it adds no column |
| PolicyPageProperties.SeparatorDelimiters | src/simple_data_catalog_generator/create_policy_page.py:30 | each cell separator of a row opens exactly one column |
| PolicyPageProperties.EscapeExample | src/simple_data_catalog_generator/create_policy_page.py:29 | a pipe between `A` and `B` is written with a backslash before it, and unescaping gives `A`, pipe, `B` back |
| PolicyPageProperties.RowExample | src/simple_data_catalog_generator/create_policy_page.py:26-30 | the rule `ex:p1` ("Read only", `read`, assignee "Data Provider") is the line `\| ex:p1 \| Read only \| read \| Data Provider` |
| PolicyPageProperties.RowDelimiterCount | src/simple_data_catalog_generator/create_policy_page.py:30 | with pipe-free uid, action and assignees a row has exactly four column delimiters, whatever the description |
| PolicyPageProperties.RowDelimiterPositions | src/simple_data_catalog_generator/create_policy_page.py:30 | the delimiters stand before the uid, description, action and assignee cells, and the description cell is the escaped description |
| PolicyPageProperties.RowColumns | src/simple_data_catalog_generator/create_policy_page.py:27-30 | a row has exactly four columns at the stated positions, and unescaping the description cell gives the description back |
| PolicyPageProperties.RuleRowPresent | src/simple_data_catalog_generator/create_policy_page.py:80-88 | a rule has a row in a relation's list exactly when the policy links it under that relation |
| PolicyPageProperties.RuleDescriptionFromFirstTriple | src/simple_data_catalog_generator/create_policy_page.py:83 | a rule's description is the object of its first description triple |
| PolicyPageProperties.RuleActionFromFirstTriple | src/simple_data_catalog_generator/create_policy_page.py:84 | a rule's action is the object of its first `odrl:action` triple |
| PolicyPageProperties.RuleRowAssignees | src/simple_data_catalog_generator/create_policy_page.py:85-87 | a rule's assignees are its `odrl:assignee` query result in graph order, repeats included: for a graph in two parts, those of the first part come first |
| PolicyPageProperties.RuleInTwoRelations | src/simple_data_catalog_generator/create_policy_page.py:80-98 | a rule linked as both permission and obligation is listed in both sections |
| PolicyPageProperties.TitleFromFirstTriple | src/simple_data_catalog_generator/create_policy_page.py:66-69 | the heading is the first title triple's object, or the identifier when that object reads "None" |
| PolicyPageProperties.DescriptionFromFirstTriple | src/simple_data_catalog_generator/create_policy_page.py:72-73 | the paragraph is the first description triple's object, or "" when that object reads "None" |
| PolicyPageProperties.HeadingWithoutTitle | src/simple_data_catalog_generator/create_policy_page.py:66-69 | a policy without a title is headed by its whole identifier |
| PolicyPageProperties.FragmentIdentifierHeading | src/simple_data_catalog_generator/create_policy_page.py:66-69 | the title-less policy `http://ex.org/p#frag` is headed `http://ex.org/p#frag`, not by its fragment |
| PolicyPageProperties.NoLinksNoRows | src/simple_data_catalog_generator/create_policy_page.py:80-88 | a relation the policy does not use gives no rows |
| PolicyPageProperties.PermissionsPlaceholder | src/simple_data_catalog_generator/create_policy_page.py:23 | the empty Permissions section reads `*No permissions defined.*` |
| PolicyPageProperties.ObligationsPlaceholder | src/simple_data_catalog_generator/create_policy_page.py:23 | the empty Obligations section reads `*No obligations defined.*` |
| PolicyPageProperties.ProhibitionsPlaceholder | src/simple_data_catalog_generator/create_policy_page.py:23 | the empty Prohibitions section reads `*No prohibitions defined.*` |
| PolicyPageProperties.PageWithoutRules | src/simple_data_catalog_generator/create_policy_page.py:110-118 | a policy without rules gets the heading, the optional paragraph and the three placeholders in order |

## Left out

- Writing each page to `modules/policy/pages/` through `write_file` (lines 120-126) is left out. It is file I/O in a module that is not part of this model. `CreatePolicyPage` returns the pages keyed by policy instead.
- Iteration order over the set of policy identifiers is left out. Python's set order is unspecified, and the model picks policies in any order. The resulting map is the same whatever the order.
- The graph is modelled as a sequence of triples, and `objects` and `value` answer in that sequence's order. rdflib's own store order is not modelled. Neither is the uniqueness check that rdflib's `value` makes only on request; the generator does not request it.
- Typed literals whose Python truth value is false (`0`, `false`) are treated as present by `RuleRowOf`. The source's `value(...) or ""` would turn them into "". RDF terms are modelled as their strings.
- `Text.Lower` lower-cases ASCII letters only. The section names it is applied to are the fixed ASCII words Permissions, Obligations and Prohibitions.
- PolicyPageProperties.RowColumns requires pipe-free uid, action and assignees, because the source escapes only the description. A pipe in any other field does break the table.
- The imports `re`, `get_title`, `get_description` and `create_local_link` are not used by the modelled code. `URIRef` is used only as the type annotation of the `policy` parameter (line 37).

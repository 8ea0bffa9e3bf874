# Org chart roster pipeline, modelled in Dafny

The org_chart scripts take a roster export and turn it into org charts. Each row of the roster has a
"Unique Identifier", a "Name", a "Reports To" reference, a title ("Line Detail 1") and an
"Organization Name". The scripts model:

- **Cleaning** (`clean_data.py`): drops placeholder rows, trims names and picks one canonical id per
  name. It then keeps the first row per name, decodes `prefix_First_Last` manager references into
  canonical ids and blanks self-references.
- **JSON forest** (`convert_to_json.py`): builds a nested JSON forest from the cleaned roster.
- **Interactive hierarchy** (`org_chart/jan_21.py`, `org_chart/jan_22_2.py`): build the hierarchy
  for an OrgChart web page. This covers node dictionaries, parent and child maps, and root detection
  with a virtual root over several roots. `jan_22_2.py` also has short titles, leader, staff and
  trainee sections under a single root, and a recursive pass that sets collapse flags.
- **Graphviz selection** (`build_org_chart.py`, `v3.py`, `org_chart/v2.py`): decides which nodes,
  labels, root marks, department clusters, colours and edges the Graphviz charts get.
- **One team** (`org_chart/department.py`, `org_chart/florence.py`): the label, department-name and
  file-name helpers, plus the stack walk that collects one manager's whole team.

How Python values are represented:

- A cell is `Option<string>`. None is an empty spreadsheet cell, which `read_excel` yields as NaN.
  A cell holding Python's own None is not modelled (see "Left out").
- `astype(str)` turns a missing value into the text "nan" (`Roster.AsStr`), so the scripts'
  "nan"-text handling is explicit.
- A Python dictionary filled row by row is either a map plus its key order, or a function of the
  row sequence.
- Nodes that the scripts share by reference become maps keyed by id, holding child ids.

Modules:

- `Seqs` and `Strings` hold the sequence and text operations the scripts use: filter, first and
  last index, `strip`, `lower`, `in`, `split`, `replace`, the regular expressions `\d{6,}` and
  `[^A-Za-z0-9]+`, and text ordering.
- `Roster` holds the row, the cell conversions and the id-keyed row dictionary.
- `Reports` holds the manager-to-reports map and the closure that the subtree walks compute.
- `Hierarchy` holds the part the two jan scripts share.
- There is one module per remaining script or family of scripts.

## Model

| member | source | states |
|---|---|---|
| Roster.AsStr | build_org_chart.py:28 | `astype(str)` keeps a text and turns a missing value into "nan" |
| Roster.ManagerCell | build_org_chart.py:31 | after `.astype(str).replace({"nan": None})` the manager is missing exactly when the cell was missing or the text "nan"; otherwise it is unchanged |
| Roster.IsNullIff | build_org_chart.py:66-67 | `is_null` holds exactly for a missing value or a text that is empty once stripped |
| Roster.IsNullOrNan | org_chart/jan_22_2.py:44-53 | this `is_null` (and jan_21.py's on a text or None) holds for what the shared one holds for, and also for a text that is "nan" in any mix of cases once stripped, and for nothing else |
| Roster.LowerIsNan | org_chart/jan_22_2.py:50-51 | the lower-cased stripped text is "nan" exactly when it spells n, a, n in any mix of cases |
| Roster.NanNotNull | v3.py:29-34 | the text "nan" is not null for `is_null` |
| Roster.BuildLabel | org_chart/department.py:46-58 | the label starts with the name; it is longer exactly when the title is a non-blank text, and then a newline and the stripped title follow |
| Roster.BuildLabelTitleLine | build_org_chart.py:38-55 | the second line of a two-line label is a stripped, non-empty title |
| Roster.IdColumn | v3.py:48 | the `astype(str)` id of every row, in row order |
| Roster.IdKeys | v3.py:48 | the keys of `id_to_row`: every id once, and no other text |
| Roster.RowById | v3.py:48 | the row a later row with the same id does not overwrite: it has that id and no later row does |
| Roster.RowByIdSnoc | v3.py:48 | one more row overwrites the entry of its own id only |
| Roster.RowsById | v3.py:48 | `id_to_row` is a valid dictionary whose keys are the ids in first-occurrence order and whose values are the last row per id |
| Strings.StripEmptyIff | build_org_chart.py:67 | `x.strip() == ""` exactly when every character is whitespace |
| Strings.BlankIff | convert_to_json.py:9 | a text is blank exactly when stripping leaves nothing |
| Strings.StripByIdempotent | clean_data.py:27 | stripping a stripped text changes nothing |
| Strings.StripBy | clean_data.py:27 | the stripped text neither starts nor ends with a stripped character |
| Strings.RStripBy | org_chart/jan_22_2.py:92 | `rstrip` leaves no trailing stripped character |
| Strings.StripKeeps | org_chart/jan_22_2.py:90 | a text with no whitespace at either end is its own `strip()` |
| Strings.Lower | org_chart/jan_22_2.py:198 | `lower()` keeps the length and lowers each character |
| Strings.Contains | org_chart/jan_22_2.py:200-202 | `t in s` exactly when `t` occurs in `s` as a contiguous piece |
| Strings.ReplaceChar | clean_data.py:55 | `replace` of one character keeps the length and swaps exactly that character |
| Strings.AfterFirst | clean_data.py:52-54 | `split("_", 1)` has two parts exactly when there is an underscore; the second part starts after the first underscore |
| Strings.BeforeFirst | org_chart/department.py:69-70 | `split("(", 1)[0]` is the prefix that ends at the first '(' or at the end |
| Strings.ContainsDigitRun | clean_data.py:20 | `re.search(r"\d{6,}")` succeeds exactly when some window of six characters is all digits |
| Strings.ScanDigitRunCorrect | clean_data.py:20 | the left-to-right scan agrees with the window definition |
| Strings.CollapseNonAlnum | org_chart/department.py:79 | after `re.sub(r"[^A-Za-z0-9]+", "_", s)` there are only alphanumerics and single underscores, an all-alphanumeric text is unchanged, and the result is empty only for an empty text |
| Strings.DropNonAlnum | org_chart/department.py:79 | the rest of the text after its leading run outside `[A-Za-z0-9]`: a suffix that is empty or starts with a letter or digit, every dropped character outside the class |
| Strings.Pieces | org_chart/department.py:79 | `re.split(r"[^A-Za-z0-9]", s)`: at least one piece, the first empty exactly when the text is empty or starts outside the class, every piece made of letters and digits |
| Strings.WordsSkip | org_chart/department.py:79 | a leading character outside the class starts no word |
| Strings.WordsDrop | org_chart/department.py:79 | a whole leading run outside the class starts no word |
| Strings.WordsGrow | org_chart/department.py:79 | a letter or digit in front of a text is a one-letter word when the text starts outside the class, and otherwise joins the text's first word |
| Strings.WordsGap | org_chart/department.py:79 | a letter or digit before a run outside the class is a word of its own, followed by the words after the run |
| Strings.WordsStart | org_chart/department.py:79 | a text starting with a letter or digit has a first word |
| Strings.WordsAlnum | org_chart/department.py:79 | every word is a non-empty run of letters and digits |
| Strings.JoinCons | org_chart/department.py:79 | a letter put in front of the first word is put in front of the joined text |
| Strings.JoinFront | org_chart/department.py:79 | a one-letter word in front of other words is followed by one underscore in the joined text |
| Strings.JoinEnds | org_chart/department.py:79-80 | words joined with underscores start and end with a letter or digit |
| Strings.JoinWordsEnds | org_chart/department.py:79-80 | the joined words of any text start and end with a letter or digit |
| Strings.TrailMarkCons | org_chart/department.py:79 | a character put in front leaves the trailing underscore as it was |
| Strings.TrailMarkGap | org_chart/department.py:79 | the trailing underscore after a run is the run's own when it reaches the end, and the rest's otherwise |
| Strings.CollapseGap | org_chart/department.py:79 | a run outside the class at the front becomes one underscore |
| Strings.GapJoin | org_chart/department.py:79 | the underscore a run leaves after a one-letter word is the one the join puts there, or the trailing one when no word follows |
| Strings.CollapseWordsJoin | org_chart/department.py:79 | a letter in front of a text starting with a word extends the substitution's first word |
| Strings.CollapseWordsGap | org_chart/department.py:79 | a letter in front of a run outside the class gives a one-letter word and one underscore |
| Strings.CollapseWords | org_chart/department.py:79 | on a text starting with a letter or digit the substitution is the words joined by single underscores, plus one underscore when the text ends outside the class |
| Strings.StripMarks | org_chart/department.py:80 | `strip("_")` removes an underscore at either end of the joined words and nothing else |
| Strings.UnderscoredFrom | org_chart/department.py:79-80 | substituting and stripping a text after at most one leading underscore gives its words joined by single underscores |
| Strings.UnderscoredWords | org_chart/department.py:79-80 | substituting and stripping gives exactly `"_".join` of the maximal runs of letters and digits |
| Strings.AlnumsCollapse | org_chart/v2.py:61 | the substitution keeps every letter and digit in order |
| Strings.AlnumsStripUnderscores | org_chart/v2.py:61 | `strip("_")` keeps every letter and digit in order |
| Strings.UnderscoredShape | org_chart/department.py:79-80 | the substituted and stripped text is empty or starts and ends with an alphanumeric, with single underscores between |
| Strings.Slug | org_chart/v2.py:61 | `... or fallback`: the fallback when no letter or digit is present; otherwise the maximal runs of letters and digits joined by single underscores, a safe name with the same letters and digits in order |
| Strings.SlugOfWord | org_chart/department.py:78-81 | a word of letters and digits ("Unknown") is its own slug |
| Strings.LessEqTotal | org_chart/v2.py:90 | Python's text order compares any two texts |
| Strings.LessEqTrans | org_chart/v2.py:90 | the text order is transitive |
| Strings.LessEqAntisym | org_chart/v2.py:90 | the text order is antisymmetric |
| Seqs.Filter | clean_data.py:18-21 | a boolean mask keeps exactly the elements that pass, in order |
| Seqs.FilterAppend | clean_data.py:18-21 | masking commutes with concatenation, so survivors keep their relative order |
| Seqs.Dedup | convert_to_json.py:16 | the keys of a dictionary filled in order: no repetition and the same elements |
| Seqs.DedupOrder | convert_to_json.py:16 | dictionary keys come in first-occurrence order |
| Seqs.FilterOrder | convert_to_json.py:21-26 | filtering a repetition-free key list keeps the key order |
| CleanData.IsPlaceholderId | clean_data.py:18-21 | an id is dropped exactly when its lower-cased text contains "unfilled" or it holds six consecutive digits |
| CleanData.DropPlaceholders | clean_data.py:18-21 | a row survives exactly when its id is no placeholder |
| CleanData.DropPlaceholdersKeepsOrder | clean_data.py:18-21 | survivors keep their relative order |
| CleanData.TrimNames | clean_data.py:27 | only the name changes; it becomes the stripped `astype(str)` text, which is its own strip |
| CleanData.NameCol | clean_data.py:34 | the name column, row by row |
| CleanData.FirstId | clean_data.py:34 | `groupby().first()` on one name gives an id of a row with that name; it is missing exactly when every such row lacks an id |
| CleanData.NameToCanonicalId | clean_data.py:34 | the mapping has exactly the names as keys |
| CleanData.CanonicalIdIsFirstPresent | clean_data.py:34 | a name maps to the id of its first row that has an id |
| CleanData.CanonicalIdMissing | clean_data.py:34 | a name whose rows all lack an id maps to a missing value |
| CleanData.FirstRowIndices | clean_data.py:39 | the positions that are the first of their name, increasing |
| CleanData.FirstOfItsNameIff | clean_data.py:39 | a row is first of its name exactly when it is at the first index of its name |
| CleanData.DropDuplicateNames | clean_data.py:39 | the same set of names, each once, each row the first row with its name, in first-occurrence order |
| CleanData.RewriteIds | clean_data.py:42 | only the id changes; it becomes the mapped id of the row's name, or missing |
| CleanData.RewriteIdsKeepsPresentIds | clean_data.py:39-42 | the rewrite keeps a kept row's id when it has one; otherwise it takes the first id another row of the name has |
| CleanData.ExtractNameFromId | clean_data.py:48-56 | None for a missing value or a text without '_'; otherwise the text after the first '_' with the remaining underscores turned into spaces |
| CleanData.ExtractNameRoundTrip | clean_data.py:48-56 | `prefix + "_" + name.replace(" ", "_")` decodes to `name` when neither part holds '_' |
| CleanData.AfterPrefix | clean_data.py:52-54 | the split happens right after an underscore-free prefix |
| CleanData.SpacesBack | clean_data.py:55 | swapping spaces to underscores and back restores an underscore-free name |
| CleanData.NormalizeReportsTo | clean_data.py:58-64 | a present result is a value of the mapping, reached through a decodable reference whose name is a key |
| CleanData.NormalizeEncodedReference | clean_data.py:58-64 | an encoded reference to a known name becomes that name's canonical id |
| CleanData.NormalizeColumn | clean_data.py:66 | only "Reports To" changes, to its normalised value |
| CleanData.BreakSelfLoops | clean_data.py:71 | only "Reports To" changes; no row reports to itself afterwards; a row changes only when it reported to itself, and then its manager becomes missing |
| CleanData.Canonicalize | clean_data.py:16-71 | the output has at most as many rows as the input and one row per name with the canonical id, in the order of each name's first row; each row's manager is the decoded reference of its name's first row, blanked when it equals the row's own id; every manager is the id of an output row |
| CleanData.ManagersAndOrder | clean_data.py:39-71 | after dedupe, rewrite, normalisation and self-loop removal, rows follow the first occurrence of their names and each manager is the decoded reference of the name's first row, or missing when that equals the row's id |
| CleanData.EncodedManagerDecoded | clean_data.py:58-71 | an encoded reference to a known name that is not the row's own id ends up as that name's canonical id |
| CleanData.OneRowPerName | clean_data.py:34-42 | after dedupe and rewrite, names are distinct and trimmed, each row carries its name's canonical id and its first row's title and department |
| CleanData.ReferencesResolve | clean_data.py:58-71 | every manager left is the id of some output row |
| CleanData.ReferenceResolves | clean_data.py:62-63 | one manager resolves to some output row |
| CleanData.SharedIdSurvives | clean_data.py:34-42 | two names whose first rows share id "P1_A" both keep that id |
| CleanData.SharedIdKept | clean_data.py:39 | in that roster dedupe keeps both rows |
| CleanData.SharedIdCanonical | clean_data.py:34 | in that roster both names map to "P1_A" |
| ConvertToJson.Roots | convert_to_json.py:21-24 | `roots` holds no repetition and exactly the ids whose manager is null or not a key |
| ConvertToJson.Children | convert_to_json.py:21-26 | `children_map[m]` holds no repetition and exactly the ids whose manager text is the key `m` |
| ConvertToJson.ChildrenMap | convert_to_json.py:17 | `children_map` has exactly the row ids as keys |
| ConvertToJson.ScanRows | convert_to_json.py:17-26 | the scan loop produces exactly `ChildrenMap` and `Roots` |
| ConvertToJson.ScanStep | convert_to_json.py:21-26 | one more key extends the root list or one child list, in scan order |
| ConvertToJson.ScanDone | convert_to_json.py:21-26 | after the last key the scan's lists are the whole lists |
| ConvertToJson.PlacedOnce | convert_to_json.py:21-26 | each id is a root exactly when it is nobody's child, and it is a child of at most one manager |
| ConvertToJson.RootIff | convert_to_json.py:23 | an id is a root exactly when its manager is null or not an id |
| ConvertToJson.ScanOrder | convert_to_json.py:21-26 | roots and each child list follow the key order |
| ConvertToJson.KeyOrder | convert_to_json.py:16 | the keys follow the first occurrence of each id in the rows |
| ConvertToJson.ChainBound | convert_to_json.py:28-35 | a chain of distinct ancestors is no longer than the key list (the recursion measure) |
| ConvertToJson.ChainExtends | convert_to_json.py:35 | a child of the chain's head extends the chain |
| ConvertToJson.ChainExtendsAll | convert_to_json.py:35 | every child of the head extends it |
| ConvertToJson.ToNode | convert_to_json.py:28-36 | the node carries the id, name, title and department of the last row with that id, and one child node per entry of `children_map[uid]`, in order |
| ConvertToJson.Forest | convert_to_json.py:38 | one tree per root, in root order |
| ConvertToJson.BuildTree | convert_to_json.py:12-38 | `build_tree` returns exactly `Forest` of the id-keyed rows |
| ConvertToJson.AppendRootNode | convert_to_json.py:38 | adding the next root's node keeps the list a prefix of the forest |
| ConvertToJson.RootChain | convert_to_json.py:38 | a root alone is a chain |
| ConvertToJson.ForestIs | convert_to_json.py:38 | the list of all root nodes is the forest |
| ConvertToJson.ToNodeRooted | convert_to_json.py:28-36 | every id in a tree lies on a manager chain that ends at a root |
| ConvertToJson.CycleNotRooted | convert_to_json.py:21-26 | no id on a manager cycle has a chain ending at a root |
| ConvertToJson.StaysOnCycle | convert_to_json.py:21-26 | walking up the managers from a cycle stays on it |
| ConvertToJson.ManagerUnique | convert_to_json.py:22 | each id reports to one manager |
| ConvertToJson.ForestOmitsCycles | convert_to_json.py:28-38 | no tree of the forest mentions an id on a manager cycle |
| ConvertToJson.MissingManagerJoinsNanKey | convert_to_json.py:14-26 | when some id is the text "nan", a row with a missing manager becomes its child, not a root |
| Reports.RosterLinks | org_chart/department.py:94-96 | each row's id and its "Reports To", with "nan" read as missing |
| Reports.ReportsOf | org_chart/department.py:93-100 | `manager_to_reports[m]` lists exactly the rows with non-null manager `m`, in row order |
| Reports.ReportsOfSnoc | org_chart/department.py:100 | one more row appends its id to its own manager's list only |
| Reports.ManagerToReports | org_chart/department.py:93-100 | the loop builds exactly the map of every manager to its reports |
| Reports.ReportsStep | org_chart/florence.py:34-38 | one loop step updates only the row's manager entry |
| Reports.SameReportsMap | org_chart/department.py:93-100 | a map with the managers as keys and their reports as values is the adjacency map |
| Reports.ReportsOfManager | org_chart/department.py:97-100 | a text is a key exactly when it has a report |
| Reports.UniverseClosed | org_chart/department.py:102-117 | the ids that can be met form a closed set holding the root |
| Reports.LeastClosedHasManager | org_chart/department.py:113-115 | every member of the closure except the root is a report of another member |
| Reports.LeastClosedUnique | org_chart/department.py:102-117 | the least closed set holding the root is unique |
| Reports.WalkSkip | org_chart/department.py:108-109 | popping a seen id keeps the walk invariant |
| Reports.WalkVisit | org_chart/department.py:111-115 | expanding an unseen id keeps the invariant and shrinks the unseen part |
| Reports.ExpandOnce | org_chart/department.py:111 | each id is expanded at most once |
| Reports.WalkDone | org_chart/department.py:106-117 | an empty stack leaves the least closed set |
| Reports.WalkExpand | org_chart/florence.py:47-52 | expanding keeps the stack within the closure and the seen set inside every closed set |
| Reports.FrontierPop | org_chart/florence.py:48-49 | popping a member keeps every member's reports seen or stacked |
| Reports.FrontierExpand | org_chart/florence.py:50-52 | adding a member and stacking its reports keeps that property |
| Department.ExtractDeptName | org_chart/department.py:60-71 | None exactly for a missing value |
| Department.ExtractDeptNameCut | org_chart/department.py:67-71 | the name is the stripped text before the first '(' of the stripped cell; it holds no '(' and is its own strip |
| Department.CutIsWhole | org_chart/department.py:69-70 | the part before the first '(' holds no '(', and is the whole text when there is none |
| Department.ExtractDeptNameIdempotent | org_chart/department.py:60-71 | applying it to its own result changes nothing |
| Department.StripInside | org_chart/department.py:71 | every character of the stripped text is in the text |
| Department.SafeFilename | org_chart/department.py:73-81 | a non-empty text of letters, digits and single inner underscores; "Unknown" when the input is missing or has no letter or digit; otherwise the input's maximal runs of letters and digits joined by single underscores |
| Department.SubtreeNodes | org_chart/department.py:102-117 | returns the least closed set holding the root, even for an unknown root; each id is expanded once, so the walk ends on cycles |
| Department.PushUnseen | org_chart/department.py:113-115 | pushes exactly the unseen reports, in list order |
| Department.PushStep | org_chart/department.py:114-115 | one more report is pushed exactly when it is unseen |
| DeptClusters.OrgName | org_chart/v2.py:29-38 | a present, non-blank department is stripped; a missing or blank one becomes "Unknown"; the result is never empty |
| DeptClusters.SafeName | org_chart/v2.py:59-61 | the maximal runs of letters and digits joined by single underscores (a safe identifier), or "cluster" when there are none |
| DeptClusters.OrgsOf | org_chart/v2.py:72-73 | each id's department, in key order |
| DeptClusters.GroupByOrg | org_chart/v2.py:71-74 | every department occurs once; each department's list is its ids in key order |
| DeptClusters.GroupStep | org_chart/v2.py:72-74 | one more id keeps the grouping invariant |
| DeptClusters.GroupOrder | org_chart/v2.py:74 | a new department joins the key order; a known one does not |
| DeptClusters.GroupStepAt | org_chart/v2.py:74 | appending an id extends its own department's list only |
| DeptClusters.MembersShowOrg | org_chart/v2.py:71-74 | a department without a listed id has no members |
| DeptClusters.GroupsPartition | org_chart/v2.py:71-74 | an id is in a department's list exactly when that is its department, and it is listed once |
| DeptClusters.GroupsNonEmpty | org_chart/v2.py:71-74 | every department of `org_to_ids` holds an id |
| DeptClusters.OrgsOfRows | org_chart/v2.py:71-74 | the departments are exactly those of the id-keyed rows |
| DeptClusters.Insert | org_chart/v2.py:90 | inserting into a sorted list keeps it sorted and adds exactly that element |
| DeptClusters.Sort | org_chart/v2.py:90 | `sorted` returns a sorted permutation |
| DeptClusters.SortDistinct | org_chart/v2.py:90 | sorting distinct names gives distinct names |
| DeptClusters.TwiceCounted | org_chart/v2.py:90 | a repeated element is counted twice |
| DeptClusters.OnceCounted | org_chart/v2.py:90 | a repetition-free list counts each element at most once |
| DeptClusters.OrgColors | org_chart/v2.py:91-93 | every department gets a colour from the palette, and nothing else does |
| DeptClusters.OrgColorAt | org_chart/v2.py:92 | the department at sorted place `i` gets `palette[i % 7]` |
| DeptClusters.OrgColorsAll | org_chart/v2.py:91-93 | this holds for every place |
| DeptClusters.OrgColorsDiffer | org_chart/v2.py:91-93 | departments fewer than seven places apart get different colours |
| DeptClusters.BuildClusters | org_chart/v2.py:67-93 | sorted distinct names, exactly the departments of the rows, each with its ids and the colour of its sorted place |
| DeptClusters.SameMembers | org_chart/v2.py:90 | a permutation has the same elements |
| GraphvizCharts.LabelsByRow | build_org_chart.py:57-60 | the label dictionary has exactly the ids as keys |
| GraphvizCharts.LabelsByKey | v3.py:49 | `id_to_label` has the keys of `id_to_row` |
| GraphvizCharts.LabelsLastRowWins | v3.py:48-49 | building labels row by row, or through `id_to_row`, gives the same dictionary |
| GraphvizCharts.LabelsByLastRow | build_org_chart.py:57-60 | each id's label is that of its last row |
| GraphvizCharts.LabelsAt | build_org_chart.py:57-60 | each id's label is that of its last row, for all ids |
| GraphvizCharts.LabelAt | build_org_chart.py:57-60 | one id's label is that of its last row |
| GraphvizCharts.RootIds | build_org_chart.py:69 | `roots` lists exactly the ids of rows whose manager is null |
| GraphvizCharts.EmitNodes | build_org_chart.py:90-95 | one node per dictionary key, in key order, with its label, marked as a root exactly when listed in `roots`, and no id twice |
| GraphvizCharts.EdgesOf | build_org_chart.py:100-110 | at most one edge per row, only between known ids |
| GraphvizCharts.EmitEdges | v3.py:97-107 | the edge loop draws exactly `EdgesOf`, in row order |
| GraphvizCharts.EdgesOfIff | org_chart/v2.py:174-184 | an edge is drawn exactly when some row with a non-null manager names it and both ends are known |
| Florence.TeamManager | org_chart/florence.py:10-15 | the manager is missing exactly when the stripped `astype(str)` text is "nan", "None" or ""; otherwise it is that stripped text |
| Florence.TeamLinks | org_chart/florence.py:9-15 | each row's stripped id and normalised manager |
| Florence.TruthyIsNotNull | org_chart/florence.py:37 | on the normalised column `if mgr:` agrees with `not is_null(mgr)` |
| Florence.FirstWhere | org_chart/florence.py:22 | the first matching position, or None when nothing matches |
| Florence.FindFlorence | org_chart/florence.py:22 | the first row whose lower-cased name contains "florence"; None exactly when there is none |
| Florence.PushAll | org_chart/florence.py:51-52 | every report is pushed, in list order |
| Florence.TeamOf | org_chart/florence.py:43-52 | the team is the least closed set holding the manager; each id is added once, so the walk ends on cycles |
| Florence.FlorenceChart | org_chart/florence.py:22-94 | fails exactly when no name matches; otherwise gives the matched row's id, the closure of its reports and exactly the edges within the team |
| Florence.TeamEdgesInside | org_chart/florence.py:90-94 | every edge joins two team members and comes from a row with a truthy manager |
| Hierarchy.ParentOf | org_chart/jan_21.py:73-82 | the recorded manager is None exactly when `is_null` holds for it; otherwise it is the cell, which the shared `is_null` also calls non-null |
| Hierarchy.ParentLinks | org_chart/jan_22_2.py:110-119 | each row's id and its recorded manager |
| Hierarchy.ByLastRowSnoc | org_chart/jan_21.py:56-64 | one more row overwrites only its own id's entry |
| Hierarchy.IdKeysSnoc | org_chart/jan_21.py:78-81 | a new id joins the key order at the end; a known one does not |
| Hierarchy.BuildNodes | org_chart/jan_21.py:56-64 | the node loop leaves each id with the node of its last row |
| Hierarchy.ScanParents | org_chart/jan_21.py:73-82 | the scan leaves `parent_map` with keys in first-occurrence order and the last row's manager, and `children_map` with every non-null manager's rows in order |
| Hierarchy.AttachChildren | org_chart/jan_21.py:85-87 | each node that is a manager gets its listed children that have nodes; no other node changes |
| Hierarchy.RootsIff | org_chart/jan_21.py:92 | roots are listed once, and an id is a root exactly when its last row's manager is null |
| Hierarchy.ReportsAreIds | org_chart/jan_22_2.py:122-124 | every listed child is the id of a row |
| Hierarchy.AttachedChildren | org_chart/jan_22_2.py:121-124 | a node's children are all rows naming it, in row order; the `if cid in nodes` test drops nothing |
| Hierarchy.DanglingDropped | org_chart/jan_21.py:85-92 | a single row whose manager is no id is neither a root nor the child of any node |
| Jan21.IsNullWidens | org_chart/jan_21.py:42-49 | whatever the shared `is_null` calls null, this one does too |
| Jan21.NanIsNull | org_chart/jan_21.py:47 | this `is_null` also calls "NaN" null, which the shared one does not |
| Jan21.NewPerson | org_chart/jan_21.py:58-64 | a fresh node has the row's id and no children |
| Jan21.TreeNodes | org_chart/jan_21.py:54-87 | one node per id, from its last row, whose children are every row naming it, in row order |
| Jan21.RootNode | org_chart/jan_21.py:95-112 | no root gives the RuntimeError; one root is the chart root; several hang in order under the node "VIRTUAL_ROOT" named "Organization" with empty title and department |
| Jan21.Jan21Chart | org_chart/jan_21.py:54-112 | fails exactly when there is no root; otherwise the nodes are the attached tree and the root is the single root or the "Organization" virtual root over all roots |
| Jan22.IsLeaderValue | org_chart/jan_22_2.py:56-65 | a leader exactly when `is_null` does not hold for the department |
| Jan22.FullTitle | org_chart/jan_22_2.py:78-82 | a text title stripped, otherwise "" |
| Jan22.ShortTitle | org_chart/jan_22_2.py:86-92 | at most 40 characters; the first comma clause, stripped, when it fits; otherwise at most 37 of its characters right-stripped, plus "…" |
| Jan22.ShortTitleIs | org_chart/jan_22_2.py:86-92 | the short title is the clause, or its first 37 characters right-stripped plus "…" |
| Jan22.ClauseShape | org_chart/jan_22_2.py:88-90 | the clause has no comma and is its own strip |
| Jan22.ShortTitleClean | org_chart/jan_22_2.py:86-92 | the short title has no comma, is its own strip and is its own short title |
| Jan22.ShortTitleNoComma | org_chart/jan_22_2.py:86-92 | the short title has no comma and is its own strip |
| Jan22.ShortTitleFixed | org_chart/jan_22_2.py:86-92 | a short, comma-free, stripped text is its own short title |
| Jan22.NoCharAfterStrip | org_chart/jan_22_2.py:90 | stripping adds no character |
| Jan22.CutShape | org_chart/jan_22_2.py:91-92 | a cut title ends in "…", has no comma, is its own strip and has 1 to 38 characters |
| Jan22.NewCard | org_chart/jan_22_2.py:94-102 | a fresh node has the row's id, no children and no flag; it is a leader exactly when the department is not null; its short title has at most 40 characters |
| Jan22.EmpKeys | org_chart/jan_22_2.py:124 | one employee key per id, in order |
| Jan22.TreeNodes | org_chart/jan_22_2.py:71-124 | one node per id, from its last row, whose children are every row naming it, in row order |
| Jan22.Heap | org_chart/jan_22_2.py:71-102 | the heap holds exactly the employee nodes |
| Jan22.TreeLinked | org_chart/jan_22_2.py:121-124 | every child of a node has a node |
| Jan22.KidsAreIds | org_chart/jan_22_2.py:121-124 | every child is an employee key with a row |
| Jan22.SplitSections | org_chart/jan_22_2.py:196-204 | the sort loop yields exactly each section's children, in child order |
| Jan22.ChildSection | org_chart/jan_22_2.py:197-198 | a child without a node sorts like a blank title |
| Jan22.MembersSnoc | org_chart/jan_22_2.py:200-204 | one more child extends only its own section |
| Jan22.SectionsPartition | org_chart/jan_22_2.py:196-204 | the three sections together hold every child exactly as often as the child list does |
| Jan22.MembersCons | org_chart/jan_22_2.py:196-204 | the first child counts only in its own section |
| Jan22.GroupCard | org_chart/jan_22_2.py:162-194 | a section node has its id, is a leader group, holds its members and has no flag |
| Jan22.GroupKeys | org_chart/jan_22_2.py:208-210 | one section key per kept section, in order |
| Jan22.GroupIds | org_chart/jan_22_2.py:211 | `group_ids` lists the kept sections' ids, in order |
| Jan22.GroupUnderRoot | org_chart/jan_22_2.py:157-213 | the grouping gives exactly the regrouped heap and the ids of the kept sections |
| Jan22.GroupFinish | org_chart/jan_22_2.py:212-213 | replacing the root's children when there are sections completes the regrouping |
| Jan22.RegroupFrom | org_chart/jan_22_2.py:212-213 | the same, from the heap with the section nodes added |
| Jan22.SectionGroupsAre | org_chart/jan_22_2.py:207 | the tuple of section nodes is in the order leaders, staff, trainees |
| Jan22.KeepStart | org_chart/jan_22_2.py:206 | before the loop no section is kept |
| Jan22.KeepAdvance | org_chart/jan_22_2.py:207-210 | a section is kept exactly when it has members |
| Jan22.KeepStep | org_chart/jan_22_2.py:207-210 | the kept list grows by the section when it has members |
| Jan22.AddGroup | org_chart/jan_22_2.py:208-210 | a kept section adds its key, its id and its node |
| Jan22.AddGroupNode | org_chart/jan_22_2.py:208-210 | a kept section adds its node |
| Jan22.GroupNodesAreGroups | org_chart/jan_22_2.py:162-194 | section nodes sit under section keys only |
| Jan22.RegroupShape | org_chart/jan_22_2.py:157-213 | the heap stays linked and only the root changes; sections exist exactly when there are children, replace them, and hold their members |
| Jan22.RegroupOthers | org_chart/jan_22_2.py:157-213 | the grouping leaves every other employee node alone |
| Jan22.RegroupGroups | org_chart/jan_22_2.py:206-210 | every kept section has its node with its members |
| Jan22.GroupNodeOf | org_chart/jan_22_2.py:208-210 | a kept section's node is among the section nodes |
| Jan22.GroupNodeKids | org_chart/jan_22_2.py:196-204 | a section node's children are children of the root |
| Jan22.RegroupLinked | org_chart/jan_22_2.py:157-213 | after grouping every child of a node has a node |
| Jan22.KeptIff | org_chart/jan_22_2.py:206-213 | some section is kept exactly when the root has children |
| Jan22.LeadersId | org_chart/jan_22_2.py:220 | "GROUP_LEADERS" is among `group_ids` exactly when the leaders' section was kept |
| Jan22.Flagged | org_chart/jan_22_2.py:224-235 | a node with children gets the flag, and a leaf is unchanged: open at the root; a section open only when it is the expanded one; any other node open exactly when it is a leader |
| Jan22.FlaggedTwice | org_chart/jan_22_2.py:226-235 | setting a non-root node's flag a second time changes nothing |
| Jan22.ReachesSelf | org_chart/jan_22_2.py:237-238 | a node lies below itself |
| Jan22.ReachesDown | org_chart/jan_22_2.py:237-238 | what a child reaches, its parent reaches |
| Jan22.SameShapeKids | org_chart/jan_22_2.py:223-238 | setting flags keeps every child list |
| Jan22.SameShapeLinked | org_chart/jan_22_2.py:223-238 | setting flags keeps the heap linked |
| Jan22.ApplyCollapseFlags | org_chart/jan_22_2.py:223-238 | it fails exactly when a cycle or a running call lies below `k`; otherwise every node below `k` is flagged (the root flag for `k` only), with the rest unchanged and the children lists kept |
| Jan22.FlagChild | org_chart/jan_22_2.py:237-238 | one turn of the child loop: it fails only when the recursion below `k` is endless, and otherwise extends the flagged part by that child's part, with no endless recursion below the child |
| Jan22.EndsBelowStep | org_chart/jan_22_2.py:237-238 | one more finished child keeps every finished child free of endless recursion |
| Jan22.NotStuck | org_chart/jan_22_2.py:237-238 | when no child is running and no child's recursion is endless, the recursion at `k` is not endless |
| Jan22.FirstStep | org_chart/jan_22_2.py:237-238 | a node below `k` other than `k` lies below one of `k`'s children |
| Jan22.NoWayBack | org_chart/jan_22_2.py:237-238 | when no node below a child has `k` as a child, `k` does not lie below that child |
| Jan22.FlagLoopStart | org_chart/jan_22_2.py:226-235 | before the child loop only `k` is flagged |
| Jan22.FlagLoopStep | org_chart/jan_22_2.py:237-238 | one child's call extends the flagged part |
| Jan22.FlagLoopDone | org_chart/jan_22_2.py:237-238 | after the last child the whole part below `k` is flagged |
| Jan22.StepShape | org_chart/jan_22_2.py:237-238 | the shape is kept across calls |
| Jan22.StepFlags | org_chart/jan_22_2.py:237-238 | a call's flags agree with the flags its part should get |
| Jan22.StepClosed | org_chart/jan_22_2.py:237-238 | the visited part stays closed under children |
| Jan22.StepReached | org_chart/jan_22_2.py:237-238 | the visited part stays below `k` |
| Jan22.StuckHere | org_chart/jan_22_2.py:237-238 | a child already running makes the recursion endless |
| Jan22.StuckBelow | org_chart/jan_22_2.py:237-238 | an endless recursion below a child is endless below its parent |
| Jan22.VisitedIsBelow | org_chart/jan_22_2.py:223-241 | the pass touches exactly the nodes reachable from the root |
| Jan22.PathStaysIn | org_chart/jan_22_2.py:237-238 | a path from a visited node stays visited |
| Jan22.RootsInHeap | org_chart/jan_22_2.py:138-149 | every root has an employee node |
| Jan22.LayoutShape | org_chart/jan_22_2.py:137-215 | the heap is linked and holds its root: a single root, regrouped, or the virtual node over the roots |
| Jan22.VirtualLinked | org_chart/jan_22_2.py:141-152 | adding the virtual node keeps the heap linked |
| Jan22.LayOut | org_chart/jan_22_2.py:137-220 | the script's root, heap and expanded section are those of the layout |
| Jan22.Jan22Chart | org_chart/jan_22_2.py:71-241 | fails with the "no root" error exactly when there is no root; otherwise it flags exactly the nodes below the root and leaves the rest alone, and it fails with a RecursionError exactly when a cycle lies below the root |

## Left out

- Spreadsheet, JSON, HTML and image output are not modelled. This covers `read_excel`, `to_excel`, `json.dump`/`dumps`, the OrgChart page template and Graphviz `render`. The model starts from the rows and ends at the selected nodes, edges and dictionaries.
- Graphviz styling is not modelled: attributes, colours of root nodes, and `cluster_` names beyond `safe_name`. The v2.py cluster emission loop only renders the groups the model computes. florence.py's node labels are rendering too.
- `print` diagnostics are not modelled.
- Numeric cells are not modelled. Every cell is a text or missing, and NaN is a missing value. A float id would print differently under `astype(str)`.
- Case handling is ASCII only. `lower()` and `case=False` are modelled on ASCII letters, and `\d` on ASCII digits; Unicode case folding and other digits are left out.
- The `is_null` of jan_21.py is modelled only on the values it receives, a text or None. Its operator precedence would call `.strip()` on any other value.
- Python's recursion limit is modelled only through its cause, a cycle or a re-entered node below the root.
- `children_map` (a defaultdict) would gain an empty entry when read, but every read here is of a present key. The visiting order of the attach loop does not matter and is not fixed.
- A dangling manager is not turned into a root in the jan scripts. The code drops such a person (`Hierarchy.DanglingDropped`), and the model follows the code.
- The scripts' column-missing branches are not modelled. These are `df["Reports To"] = None` and `df[col] = ""`. A missing "Reports To" column is the same as every manager missing.
- florence.py's set iteration order for nodes is not modelled. The members are a set.
- Jan22.ApplyCollapseFlags: the depth at which Python gives up is not modelled. A deep but finite hierarchy is flagged in full.
- A cell holding Python's own None is not modelled. `astype(str)` would turn it into the text "None", which only florence.py maps back to a missing value; the other scripts would keep it as a name or a manager id.
- DeptClusters.GroupByOrg: the order of the department keys is not stated. Only the names are sorted afterwards and used.

## Where the code departs from its evident intent

The model follows the code in each case:

- clean_data.py's step 4 is headed "BUILD CANONICAL PERSON-LEVEL ID", which suggests one id per
  person. The code takes the first "Unique Identifier" of each name, so two names whose first rows
  share an id both keep it (`CleanData.SharedIdSurvives`).
- `build_tree` in `convert_to_json.py` returns one tree per root, and the jan scripts warn that
  "the chart will have multiple top-level trees", as if each person belonged to some tree. A person
  on a manager cycle appears in no tree of `build_tree` (`ConvertToJson.ForestOmitsCycles`). In the
  jan scripts, a person whose manager is no id is neither a root nor a child
  (`Hierarchy.DanglingDropped`).
- `build_tree` calls `is_null` on the manager only after `astype(str)`, so a missing manager is the
  text "nan" and is never null. It still becomes a root, unless some id is "nan"; that row then gets
  it as a child (`ConvertToJson.MissingManagerJoinsNanKey`).
- `apply_collapse_flags` in `jan_22_2.py` recurses into every child with no visited set. A cycle
  below the root ends the run with a RecursionError (`Jan22.Jan22Chart`).
- The `is_null` helpers differ from script to script. `jan_21.py`'s also calls "NaN" null, which
  the one in `build_org_chart.py` does not (`Jan21.NanIsNull`).

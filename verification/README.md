# clif: code-map algebra, baseline matching, wrapping, and the protocols beside them

A Dafny model of the parts of clif whose correctness is not visible from one function, with
proofs of what they promise. `dafny verify dfyconfig.toml` checks everything.

**Code maps** (`internal/codemap`). A map is a list of nodes and a list of edges with kinds, counts
and a "dynamic" flag.

- `Graphs` – relations as sets of pairs: paths, reachability, closure, strongly connected components.
- `Tarjan`, `Search`, `Cycles` – the iterative component search in three layers: an abstract search
  state with its invariant, the concrete node stack and frame stack that stand for it, and the
  report that grows as components are popped.
- `Walks`, `Islands`, `Annotations` – the breadth-first walk, undirected islands, reachability, roots.
- `Subgraphs` – cutting a map to a set of ids, the detached part, scoping to a folder.
- `Rollup`, `Collapsing` – adding edges up by key, and the quotient to files or packages.
- `Views` – the class `Map`, whose methods annotate it in place and make the views.
- `Collecting` – the class `Collector` that per-file graphs are merged into, in any arrival order.

**Baselines** (`internal/cflint`): `Pairing` says what nearest-line pairing is, `Suppressions` runs it
in place over flag arrays, compacts the run, and returns the stale entries. `Baselines` writes a run's
findings as a report and subtracts that report from the run.

**Wrapping** (`internal/formatter`): `Wrapping` has the specifications and the loops that scan a text,
`Formatting` the output buffer and the greedy line breaker.

**Protocols and files**: `ConnTracking` (the daemon's connection signal and its waiter),
`KnownIssues` (the findings file, printed and parsed), `ConfigCheck` (the upward walk for lint
configuration, with and without its memory).

`CodeMap` is the vocabulary of nodes, edges and identifiers, `Findings` the entry of a findings
file, `Ordering` byte-wise string order and sorting, `Wrappers` a value that may be missing.

Loops of the source are methods with invariants, proved against functions and predicates. Lemmas
whose names end in "Mean" or "Means" then say what those functions and predicates amount to on raw
inputs, without calling them, and the source's promises are proved of them.

## Where the code and its comments differ

The model follows the code.

- `InDegree` is described as counting distinct dependents; it counts structural edges, and a node
  that both calls and extends another is two edges. `Annotations.InDegreeAndDependents` gives the
  exact condition for the two to agree, `Annotations.TwoKindsCountTwice` an input where they do not.
- `WaitForLastClient` is described as waiting until nobody has been connected for the whole grace
  period; it looks at the signal before and at the count after. `ConnTracking.BriefClientMissed` is a
  run in which a client comes and goes unnoticed, and `ConnTracking.GraceKept` says exactly when the
  promise is kept: the signal read on waking is closed and is still the current one at the count. So a
  waiter that compared the two signals would keep it.
- An external's id is said never to collide with a relative path. It can, when the path begins with
  '?' and has no capitals (`Collapsing.ExternalLikeFile`). Then collapsing to files and on to packages
  can differ from collapsing to packages: `Collapsing.ClashHappens` is a map where it does, and
  `Collapsing.RoutesAgreeIff` says exactly which maps are safe.
- A written findings row is not always read back as itself: `KnownIssues.RowReadsBack` gives the exact
  condition, `KnownIssues.OneLetterPathLost` and `KnownIssues.TaggedMessageLost` inputs outside it.
- A baseline is matched on the message as the linter gave it, but the report it is read from has the
  message's whitespace normalised. `Baselines.OwnBaseline` says exactly when a run's own report takes
  out all of it, `Baselines.DoubledSpace` is a finding it leaves.
- A line is to be cut to fit the width, but when the breaker has a choice it takes only breaks strictly
  inside the width, so it can pass over one that fits exactly. `Wrapping.LinesFit` says exactly when,
  `Wrapping.FitNotTaken` is an input.

## Model

| member | source | states |
|---|---|---|
| Tarjan.VisitKeepsInv | internal/codemap/views.go:310-333 | numbering a node that every open node reaches keeps the search invariant: low bounds every followed edge back into the stack, low is the number of a stack node really reached, stack nodes reach an open node no later and are reached by every open node no later |
| Tarjan.LookKeepsInv | internal/codemap/views.go:322-339 | following an edge to a numbered node, lowering low when it is still stacked, keeps the invariant |
| Tarjan.SegmentIsComponent | internal/codemap/views.go:341-353 | when the top frame has no edges left and its low is its own number, the stack from it upwards is a strongly connected component: mutually reachable and maximal |
| Tarjan.PopKeepsInv | internal/codemap/views.go:341-367 | taking that component off the stack keeps the invariant |
| Tarjan.MergeKeepsInv | internal/codemap/views.go:341-367 | a finished frame with a smaller low is never the last one, and handing its low to the frame below keeps the invariant |
| Tarjan.NothingOpen | internal/codemap/views.go:304-369 | when an outer root finishes, the stack is empty and no edge leaves what has been numbered |
| Search.PopComponent | internal/codemap/views.go:342-353 | the pop loop removes exactly the stack from the node's last position up, and returns those nodes |
| Search.PushHolds | internal/codemap/views.go:322-339 | a frame step onto a new node keeps the concrete stacks faithful to the abstract search, for one more round |
| Search.LookHolds | internal/codemap/views.go:322-339 | so does a step onto a node already numbered |
| Search.MergeHolds | internal/codemap/views.go:341-367 | so does leaving a frame that is not a component's first |
| Search.PopHolds | internal/codemap/views.go:341-367 | so does popping a component, which is disjoint from everything popped before |
| Search.AllLeft | internal/codemap/views.go:304-369 | at the end every numbered node has left the frame stack exactly once, and the rounds are one per successor and one per node |
| Cycles.CycleTest | internal/codemap/views.go:355-358 | "more than one member, or an edge to itself" is the test for a component that is a cycle |
| Cycles.FoundMore | internal/codemap/views.go:341-359 | popping a component extends the report by it just when it is a cycle, and loses none found before |
| Cycles.SplitMore | internal/codemap/views.go:341-353 | popping a component keeps the popped components disjoint and covering everything popped |
| Cycles.FoundAll | internal/codemap/views.go:371-379 | once everything reachable is popped, the sorted report lists every cycle once |
| Cycles.Explore | internal/codemap/views.go:310-368 | from one root, the frame loop ends with an empty frame stack and the search invariant, having numbered the root and nothing but edge targets |
| Cycles.DegreesTotal | internal/codemap/views.go:304-369 | the adjacency lists of nodes listed once each hold exactly the structural edges |
| Cycles.RoundsAddUp | internal/codemap/views.go:304-369 | the frame loop makes one round per structural edge plus one per node |
| Cycles.RoundsMean | internal/codemap/views.go:304-369 | those rounds are one for each id and one for each edge that is not containment, and every id leaves the frame stack once |
| Cycles.CyclesMean | internal/codemap/views.go:280-380 | a node is in a listed cycle exactly when one edge or more leads from it back to it; members of a cycle, and they alone, lead to each other; larger cycles come first, then by first member, members ascending |
| Views.Map.Adjacency | internal/codemap/views.go:461-474 | every node's targets, in edge order, structural only when asked |
| Views.Map.Cycles | internal/codemap/views.go:287-380 | the result lists exactly the strongly connected components with more than one member or an edge to itself, each once, members sorted, largest first; the components popped are disjoint and cover every node visited; the loop makes one round per structural edge plus one per node |
| Walks.Walk | internal/codemap/annotate.go:112-154 | the queue loop returns exactly what the seeds reach |
| Walks.ReachedClosed | internal/codemap/views.go:140-178 | what is reached lies in every closed set that holds the seeds |
| Islands.Label | internal/codemap/annotate.go:73-89 | labelling from one node gives the label to exactly what it is joined to, and touches no earlier label |
| Islands.LabelsMakeIslands | internal/codemap/annotate.go:49-99 | two nodes get one number exactly when an undirected path of edges of any kind joins them; numbers run from 0 in order of each island's least id |
| Islands.IslandsDetermined | internal/codemap/annotate.go:49-99 | the numbers depend only on which ids are joined: not on the order of nodes or edges, nor kinds, counts or directions |
| Islands.IslandsMean | internal/codemap/annotate.go:34-99 | numbers are alike exactly when joined, run from 0 to the count with none left out, and the lower of two islands has an id before every id of the other |
| Views.Map.AssignIslands | internal/codemap/annotate.go:49-99 | writes those island numbers, and nothing else, and returns how many islands there are |
| Views.Map.MarkReachable | internal/codemap/annotate.go:112-154 | marks exactly what an entry point reaches along structural edges, and nothing else |
| Annotations.ReachableIsLeast | internal/codemap/annotate.go:112-154 | the marked nodes hold the entries, follow every structural edge, and lie in every set that does both |
| Annotations.MarksMean | internal/codemap/annotate.go:101-194 | reachable: an entry or led to by a non-containment edge from a reachable node, and nothing besides; root: no such edge leads to it, or one leads to every node of its island and its id is the least |
| Annotations.CountDetachedIs | internal/codemap/annotate.go:19-32 | the detached count is the number of places holding an unreached node |
| Views.Map.InDegree | internal/codemap/views.go:268-278 | counts the structural edges to each id |
| Annotations.InDegreeAndDependents | internal/codemap/views.go:267-278 | the in-degree is at least the number of distinct dependents, and equal to it exactly when none of them has two structural edges to the node |
| Annotations.TwoKindsCountTwice | internal/codemap/views.go:267-278 | an input where the in-degree is more than the number of dependents |
| Views.Map.MarkRoots | internal/codemap/annotate.go:163-194 | a node is a root exactly when nothing depends on it, or its island has no such node and it is the island's least id |
| Annotations.IslandHasRoot | internal/codemap/annotate.go:156-194 | every island has a root |
| Annotations.CycleAmong | internal/codemap/annotate.go:156-194 | a set that edges do not leave and where every member has a predecessor holds a cycle entirely |
| Annotations.AppointedRootMeansCycle | internal/codemap/annotate.go:163-194 | when an island's root had to be appointed, the cycle report has a cycle lying wholly in that island |
| Views.Map.Annotate | internal/codemap/annotate.go:19-32 | all three annotations hold together afterwards, with the island and detached counts; no other field changes |
| Views.Map.Subgraph | internal/codemap/views.go:476-497 | the nodes to keep, each as often as the map has it and in its order, the edges between them likewise, annotated afresh, in a new map |
| Subgraphs.PlacesMean | internal/codemap/views.go:476-497 | the cut holds exactly the nodes at the ascending places whose id is to be kept, annotations and boundary apart, and exactly the edges at the ascending places with both ends kept |
| Subgraphs.CutKeepsOrder | internal/codemap/views.go:476-497 | so it has no id twice if the map has none, is in id order if the map is, and has as many nodes as there are to keep |
| Views.Map.Reachable | internal/codemap/views.go:140-178 | keeps exactly what the given ids (or else the entries) reach, each once and in order; with no ids given, every node of the result is reachable in it |
| Views.Map.Detached | internal/codemap/annotate.go:255-265 | keeps exactly the unreached nodes, each once and in order, none of which is reachable in the result |
| Subgraphs.LiveAndDetachedSplit | internal/codemap/annotate.go:255-265 | the reachable view and the detached view split the nodes, and no structural edge leads from the first to the second |
| Subgraphs.LiveStaysReached | internal/codemap/views.go:140-178 | inside the reachable view everything is still reached from an entry kept there |
| Subgraphs.DetachedStaysDetached | internal/codemap/annotate.go:255-265 | the detached view keeps no entry point |
| Views.Map.Orphans | internal/codemap/views.go:188-209 | the nodes at the ascending places that are neither external nor entries and that no non-containment edge leads to |
| Views.Map.FilterUnder | internal/codemap/views.go:399-439 | keeps the nodes in scope and both ends of every structural edge with an end in scope, each once and in order; marks as boundary exactly those outside |
| Subgraphs.ScopeMeans | internal/codemap/views.go:399-431 | in scope are the ids of nodes whose file or id begins with the prefix; kept are those and what a non-containment edge joins to one of them |
| Subgraphs.ScopeKeepsDependents | internal/codemap/views.go:399-439 | a node in scope keeps every structural edge it has, its in-degree and its orphan verdict |
| Rollup.TallyOneMore | internal/codemap/views.go:61-88 | recording one more edge keeps the tally right: one edge per key, the total of its counts, dynamic only if all of its edges were |
| Rollup.TallyMeans | internal/codemap/views.go:61-88 | the tally has a key exactly when an edge has it, with its ends and kind, the sum of the counts, and dynamic exactly when all of its edges are |
| Rollup.SumOne | internal/codemap/views.go:83 | the sum over one edge is its count |
| Rollup.SortedEdges | internal/codemap/views.go:510-530 | lists the tally's edges by from, to and kind, whatever order the map yields them in |
| Rollup.ListingMeans | internal/codemap/views.go:510-530 | the listing holds the tally's edges and no others, by from, then to, then the kind's name |
| Rollup.ListingUnique | internal/codemap/views.go:510-530 | only one list does |
| CodeMap.RankIsNameOrder | internal/codemap/codemap.go:53-82 | kinds rank as their stored names sort |
| CodeMap.EdgeByEdge | internal/codemap/views.go:13-15 | a dependency is an edge of any kind but containment, in its direction; a link is any edge in either |
| Rollup.SumRegroup | internal/codemap/views.go:61-88 | counts added up by key and then over some keys are the original counts over those keys |
| Collapsing.MergedIs | internal/codemap/views.go:36-59 | one node per target id, standing for all nodes that become it: entry if any is, utility only if all are |
| Collapsing.SortedNodes | internal/codemap/views.go:499-508 | lists the merged nodes by id, whatever order the map yields them in |
| Views.Map.Collapse | internal/codemap/views.go:27-95 | the collapse to a level is the merged nodes and the structural edges between different targets tallied by target and kind, annotated; collapsing to the map's own level gives the map itself |
| Collapsing.PathParts | internal/codemap/views.go:97-127 | a path is its folder, a slash and its name; without a slash the folder is "." |
| Collapsing.PackageHolds | internal/codemap/views.go:27-127 | collapsed to packages, the nodes of a folder become the one node named by it, an entry exactly when some node of the folder is and a utility exactly when all are |
| Collapsing.FileHolds | internal/codemap/views.go:27-127 | collapsed to files, the nodes of a file become the one node named by it: its name the last part of the path, an entry exactly when some node of the file but a function is, a utility exactly when all are |
| Collapsing.NotMoved | internal/codemap/views.go:97-127 | externals are left alone, and at file level nodes without a file; nodes of no folder go to the root package |
| Collapsing.CollapsedEdges | internal/codemap/views.go:61-88 | the collapse has an edge of a kind between two targets exactly when the map has one of that kind between nodes going to them, with the sum of their counts, dynamic exactly when all are |
| Collapsing.CollapsedIds | internal/codemap/views.go:27-95 | the collapse's ids are unique and are exactly the targets |
| Collapsing.NamesClash | internal/codemap/codemap.go:219-236 | for identifiers made from paths, function names and labels: they are non-empty; the map is clash-free exactly when no external is named like the file of another node; so it is when every file whose path begins with a question mark is a node of its own |
| Collapsing.ExternalLikeFile | internal/codemap/codemap.go:226-236 | an external can have a file's id exactly when the path begins with a question mark and has no capitals |
| Collapsing.FunctionNamesFold | internal/codemap/codemap.go:219-224 | functions of any two files, their names without colons, share an id exactly when the file is the same and the names differ only in case |
| Collapsing.TalliesCompose | internal/codemap/views.go:61-88 | a tally of a listing of a tally is the tally by the combined key, dynamic flags included |
| Collapsing.FilesThenPackages | internal/codemap/views.go:27-127 | on a clash-free map, collapsing to files and then to packages gives the same edges, counts and dynamic flags included, the same ids and the same utility flags as collapsing straight to packages |
| Collapsing.RoutesAgreeIff | internal/codemap/views.go:27-127 | the two routes agree for every set of edges exactly when the map is clash-free: no node left alone by a file collapse has the file of a node of another package as its id |
| Collapsing.ClashHappens | internal/codemap/views.go:97-127 | a closed map with identifiers as a build makes them, an unresolved call and a route to an unscanned controller, on which the two routes disagree |
| Collapsing.PathsMap | internal/codemap/views.go:27-95 | structural paths map to structural paths, on every closed map with unique, non-empty ids |
| Collapsing.LiveCodeMaps | internal/codemap/views.go:27-127 | what entries reach has a package that entries reach |
| Collapsing.IslandsMap | internal/codemap/views.go:27-95 | what edges of any kind join stays joined |
| Collapsing.IslandsNotSplit | internal/codemap/views.go:27-95 | nodes of one island never land in different islands |
| Collapsing.CountsConserved | internal/codemap/views.go:61-88 | the collapse's counts add up to those of the structural edges whose ends have different targets |
| Collecting.Collector.Merge | internal/codemap/build.go:863-913 | one file graph changes nodes, placeholders, edges and statistics as MergeOneAt describes |
| Collecting.MergeOneAt | internal/codemap/build.go:863-913 | for each id, an owner's node replaces whatever was there and a placeholder never replaces an owner's; edges stay tallied; statistics add |
| Collecting.MergeMeans | internal/codemap/build.go:863-884 | after merging a file, an id it owns holds its own last node; failing that an owned node is left alone; failing that its last placeholder stands |
| Collecting.GivenMeans | internal/codemap/build.go:864-869 | the node a list gives an id is the last one with it |
| Collecting.MergeAllIs | internal/codemap/build.go:863-913 | after a whole run: each id has its last owner's node, the known ids are those some file owns or mentions, edges and statistics are totals |
| Collecting.StatsMean | internal/codemap/build.go:904-912 | each statistic of a run is the sum of it over the files |
| Collecting.Collector.Finish | internal/codemap/build.go:918-952 | every gathered node, by id, and every gathered edge both of whose ends are known, by from, to and kind; no id twice; no edge dangles |
| Collecting.EdgesOrderFree | internal/codemap/build.go:863-913 | any two arrival orders gather the same edges |
| Collecting.StatsOrderFree | internal/codemap/build.go:901-913 | and the same statistics |
| Collecting.IdsOrderFree | internal/codemap/build.go:863-884 | and the same ids, with the same ones owned |
| Collecting.OwnersOrderFreeIff | internal/codemap/build.go:863-884 | every arrival order gives every owned id the same node exactly when files that own one id give it the same node |
| Collecting.ArrivalOrderFree | internal/codemap/build.go:915-952 | two runs over the same files in any orders list the same edges in the same order, the same ids, the same owned nodes, with the same statistics |
| Pairing.Stable | internal/cflint/suppressions.go:237-269 | no finding and entry of one key are nearer to each other than both are to what they were paired with, or left over |
| Pairing.DistancesGrow | internal/cflint/suppressions.go:237-269 | the distances of successive pairs never decrease |
| Pairing.DistanceIs | internal/cflint/suppressions.go:248-256 | the distance is between an entry's line, counted from 0, and a finding's first location's, counted from 1 |
| Pairing.TiesGoFirst | internal/cflint/suppressions.go:243-260 | of pairs as close, the one with the earliest finding is made first, and for that the earliest entry |
| Pairing.PairCount | internal/cflint/suppressions.go:237-269 | as many pairs as the smaller side has members |
| Pairing.PairingUnique | internal/cflint/suppressions.go:237-269 | findings and entries determine the pairing, ties included |
| Pairing.PairsSameLine | internal/cflint/suppressions.go:237-269 | with as many entries as findings on every line, each pair is on one line |
| Suppressions.FindNearest | internal/cflint/suppressions.go:241-260 | the free pair with the closest lines, first in list order on a tie, or none when a side has run out |
| Suppressions.PairNearest | internal/cflint/suppressions.go:237-269 | sets exactly the flags of a greedy pairing of the free findings and entries, run until a side is exhausted, and returns how many pairs |
| Suppressions.Group | internal/cflint/suppressions.go:188-202 | lists each key's positions in ascending order |
| Suppressions.PairAll | internal/cflint/suppressions.go:188-209 | in whatever order the keys are visited, every key of the run ends up paired greedily, the flags and the count are those of all the pairings |
| Suppressions.Run.Compact | internal/cflint/suppressions.go:211-219 | in place, keeps the findings not flagged, in order |
| Suppressions.LeftMeans | internal/cflint/suppressions.go:211-225 | what is dropped is exactly what is flagged; the rest stays, each once and in order |
| Suppressions.SortedUnused | internal/cflint/suppressions.go:221-229 | the entries not used, in order of path and line |
| Suppressions.Run.Subtract | internal/cflint/suppressions.go:187-232 | each key is paired greedily; the run keeps in order what was not paired; stale holds the unpaired entries in order of path and line; matched plus kept is the run, matched plus stale is the baseline |
| Suppressions.SubtractDetermined | internal/cflint/suppressions.go:207-231 | the pairing is the same whatever order the keys are visited in |
| Suppressions.KeyMatches | internal/cflint/suppressions.go:187-269 | each key matches the smaller of its two counts, and its pairing is stable |
| Suppressions.PairsMatch | internal/cflint/suppressions.go:168-209 | a pair is a finding and an entry with one cleaned path, rule and message |
| Suppressions.LeftoversDiffer | internal/cflint/suppressions.go:187-232 | a finding and an entry both left over differ in path, rule or message |
| Suppressions.StaleSorted | internal/cflint/suppressions.go:221-229 | the stale list is a sorted rearrangement of the unpaired entries |
| Baselines.BaselineKeys | internal/cflint/report.go:28-74 | the baseline read back from a run's own report has as many entries as the run has findings, with the same keys but for the normalised message |
| Baselines.OwnBaseline | internal/cflint/suppressions.go:172-232 | subtracting a run's own report from it leaves no finding exactly when every message has single spaces between its words, and then no entry is stale |
| Baselines.ReportedDistance | internal/cflint/suppressions.go:248-256 | against an entry read back from a run's report, a finding's distance is the difference of the two findings' lines |
| Baselines.OwnLines | internal/cflint/suppressions.go:187-269 | against its own report, each finding of a run is paired with an entry reported on its own line |
| Baselines.SeverityMeans | internal/cflint/cflint.go:332-343 | a finding is written as an error when the linter calls it error, fatal or critical in any case, else as a warning |
| Baselines.DoubledSpace | internal/cflint/report.go:44-52 | a finding the report can hold whose message is not so spaced |
| Wrapping.CollapseWhitespace | internal/formatter/element_formatter.go:344-366 | the loop turns each run of whitespace into one space |
| Wrapping.SqueezeTwice | internal/formatter/element_formatter.go:344-366 | collapsing again changes nothing |
| Wrapping.SqueezeConcat | internal/formatter/element_formatter.go:344-366 | collapsing goes piece by piece where no run of whitespace is cut |
| Wrapping.SqueezeGrows | internal/formatter/element_formatter.go:344-366 | a character that is not space, tab, line feed or carriage return stays; of a run of those the first gives a space and the others nothing |
| Wrapping.TrimMeans | internal/formatter/element_formatter.go:317-327 | trimming takes spaces and the five ASCII control spaces off both ends and stops at anything else |
| Wrapping.SafeBreaks | internal/formatter/element_formatter.go:461-496 | the scan with one character of lookahead finds the same breaks as an automaton without it |
| Wrapping.BreaksAre | internal/formatter/element_formatter.go:434-496 | the breaks are exactly the spaces outside every quoted value, ascending |
| Wrapping.NoBreakInValue | internal/formatter/element_formatter.go:434-496 | for prose, a tag without quotes up to a value, and the value between two single or two double quotes with doubled ones allowed in it: no break lies within the value |
| Wrapping.BreakOutsideValue | internal/formatter/element_formatter.go:434-496 | every space of that text before the value, in the rest of the tag, and in the prose after it is a break |
| Wrapping.ValueOnOneLine | internal/formatter/element_formatter.go:370-496 | such a value, quotes and all, is written on one line |
| Wrapping.EmitEach | internal/formatter/element_formatter.go:389-431 | what is written for lines is, for each, an indent (unless it is the first and does not begin a line), the line and a line end |
| Formatting.FindCut | internal/formatter/element_formatter.go:399-424 | the two moving indices find the last break under the width, else the first break past the line's start |
| Formatting.Formatter.WriteWrapped | internal/formatter/element_formatter.go:370-432 | appends the greedy lines of the text, each indented and ended |
| Formatting.Formatter.WriteText | internal/formatter/element_formatter.go:317-327 | a text holding a line comment goes out as it stands, any other collapsed and wrapped |
| Wrapping.WrapLosesNothing | internal/formatter/element_formatter.go:370-432 | the lines joined by single spaces are the text |
| Wrapping.LinesAreGreedy | internal/formatter/element_formatter.go:370-432 | a line wider than the width has no safe break within it; every other line but the last ends at a safe break with no later one under the width |
| Wrapping.LinesFit | internal/formatter/element_formatter.go:370-432 | each line written is a slice of the text; one wider than the width has no safe break within it; any other but the last ends at the last safe break strictly inside the width or else the first there is; a later break that fits is passed over exactly when it is right at the width and there was an earlier one |
| Wrapping.FitNotTaken | internal/formatter/element_formatter.go:403-409 | an input where that happens |
| Wrapping.WrapUndone | internal/formatter/element_formatter.go:344-432 | trimming and collapsing what was written for a collapsed text gives the text back |
| Wrapping.HoldsLineComment | internal/formatter/element_formatter.go:332-341 | the scan agrees with an automaton over the text |
| Wrapping.CommentFound | internal/formatter/formatter.go:987-997 | that automaton finds exactly the `//` that no colon precedes |
| Wrapping.WrittenMeans | internal/formatter/element_formatter.go:317-341 | at the beginning of a line, a text with two slashes that no colon precedes goes out as indent, text and line end; any other collapsed and wrapped |
| Wrapping.SqueezeKeepsComments | internal/formatter/element_formatter.go:317-341 | collapsing neither makes nor unmakes a line comment, so both passes take the same branch |
| Wrapping.WritingTwice | internal/formatter/element_formatter.go:317-432 | formatting what formatting put out changes nothing, for every text, width and indent |
| Wrapping.QuotesStayWhole | internal/formatter/element_formatter.go:434-496 | reading the output, no line end but the last is inside a quoted value, doubled quotes included; the last one is exactly when the text itself ends inside one |
| ConnTracking.ConnTracker.Add | internal/daemon/conntracker.go:44-61 | counts one more, and replaces the signal exactly when it was closed at zero |
| ConnTracking.ConnTracker.Remove | internal/daemon/conntracker.go:64-80 | the count goes down by one, or stays at zero; the signal stays the same and is closed afterwards exactly when it was or the count was one |
| ConnTracking.NextKeepsSound | internal/daemon/conntracker.go:44-133 | every step of every client and the waiter keeps the system invariant |
| ConnTracking.SignalIsRight | internal/daemon/conntracker.go:44-133 | in every interleaving the current signal is closed exactly when the stored count is back at zero, no channel is closed twice, and a waiter on an open channel holds the current one |
| ConnTracking.CountIsConnected | internal/daemon/conntracker.go:44-80 | the stored count is the number of clients connected, counted from the arrivals and departures alone |
| ConnTracking.SignalMeansEmpty | internal/daemon/conntracker.go:44-133 | the signal is closed exactly when somebody has connected and nobody is connected; while somebody is, the waiter does not wake on it, and a count does not end the wait |
| ConnTracking.WaiterLoop | internal/daemon/conntracker.go:112-133 | the waiter asks for the current signal, wakes only on a closed one, lets the grace period pass and counts; it gives up only when the context has ended; none of its steps touches the tracker |
| ConnTracking.LeavesOnlyAtZero | internal/daemon/conntracker.go:112-133 | the wait ends uncancelled only in a step that reads a count of zero, and cancelled only if the context ended |
| ConnTracking.ZeroWasTransient | internal/daemon/conntracker.go:107-133 | a client connected when the waiter counts sends it back to wait on an open channel |
| ConnTracking.CountDecides | internal/daemon/conntracker.go:107-133 | the wait ends on a count exactly when the signal current at that moment is closed, whatever happened since waking |
| ConnTracking.QuietExactly | internal/daemon/conntracker.go:44-80 | from any moment after the first connection, nobody is connected through to a later one exactly when the signal was closed then and is still the same |
| ConnTracking.GraceKept | internal/daemon/conntracker.go:107-133 | nobody is connected from a wake to a later count exactly when the signal read on waking is closed and is still the current one at the count; then the wait ends |
| ConnTracking.BriefClientMissed | internal/daemon/conntracker.go:107-133 | a run in which a client comes and goes during the grace period and the wait ends all the same |
| KnownIssues.SplitUndone | internal/knownissues/knownissues.go:64 | splitting takes out the line feeds, every one and nothing else |
| KnownIssues.Parse | internal/knownissues/knownissues.go:61-103 | the entries of the lines, in order |
| KnownIssues.LineMeans | internal/knownissues/knownissues.go:52-100 | a line of path, number and message, and one with a column, gives an entry with both counted from 0; a line number below 1 or too large gives none; a column that is gives -1 |
| KnownIssues.TagMeans | internal/knownissues/knownissues.go:57-98 | a message not opening a bracket has no tag; a code, or one of the six severity words in any case and a code, in brackets is taken off it |
| KnownIssues.AbsoluteRefused | internal/knownissues/knownissues.go:84-118 | a line beginning with a slash or a backslash gives no entry |
| KnownIssues.DriveRefused | internal/knownissues/knownissues.go:52-118 | nor does one whose path has a drive letter |
| KnownIssues.PrintedMeans | internal/knownissues/knownissues.go:186-212 | a row is printed as path, line, column if any, bracketed severity and code if any, and its words |
| KnownIssues.PrintedCore | internal/knownissues/knownissues.go:186-212 | trimmed, a printed row is path, line, column if any, tag if any, message, with nothing left over |
| KnownIssues.EntryPrinted | internal/knownissues/knownissues.go:52-55 | the entry pattern splits a printed row where it was put together, unless its path reads as a drive |
| KnownIssues.TagPrinted | internal/knownissues/knownissues.go:57-58 | the tag pattern gives back severity, code and message; a code is never taken for a severity word |
| KnownIssues.NormalIff | internal/knownissues/knownissues.go:208-209 | normalising a message leaves it alone exactly when it has single spaces between its words, and always makes it so |
| KnownIssues.NormalKeeps | internal/knownissues/knownissues.go:208-209 | a word is kept, with one space before the next |
| KnownIssues.NormalSkips | internal/knownissues/knownissues.go:208-209 | leading whitespace is dropped |
| KnownIssues.RowReadsBack | internal/knownissues/knownissues.go:55-213 | for a relative path without colons that does not begin like a comment, positions that fit, a code of tag characters and a known severity: a printed row reads back as itself (0-based, severity in lower case, message with single spaces) exactly when its path is not one letter with a column and, with no code, its message has words and does not start with a tag |
| KnownIssues.OneLetterPathLost | internal/knownissues/knownissues.go:52-55 | a row with a one-letter path that does not read back |
| KnownIssues.TaggedMessageLost | internal/knownissues/knownissues.go:57-58 | a row whose bracketed message is read as a code |
| KnownIssues.RowsOrdered | internal/knownissues/knownissues.go:166-185 | the comparison is an ordering a sort may rely on |
| KnownIssues.WrittenOrder | internal/knownissues/knownissues.go:162-184 | rows are written by path, then line, column, code and message |
| KnownIssues.Write | internal/knownissues/knownissues.go:165-213 | sorts the rows in place and prints the header as comments and then the rows, one line each |
| KnownIssues.FileReadsBack | internal/knownissues/knownissues.go:61-213 | reading a written file gives the sorted rows exactly when every row reads back |
| ConfigCheck.WalkFailsAt | internal/cflint/configcheck.go:32-91 | walking a file's ancestors fails at a directory exactly when that is broken and nothing below it is broken or stops the walk |
| ConfigCheck.FileFails | internal/cflint/configcheck.go:32-91 | a file fails exactly when its path cannot be had, or a directory at or above it is broken and every one below that has no configuration or one that inherits |
| ConfigCheck.CheckConfigs | internal/cflint/configcheck.go:32-63 | sharing what has been checked, the outcome is fine exactly when every file on its own is, else that of the first file that is not; no directory is read twice |
| Ordering.SortSorts | internal/codemap/views.go:371-377 | a sort by an ordering leaves no two elements the wrong way round |
| Ordering.SortElements | internal/codemap/views.go:371-377 | and rearranges the elements it was given |
| Ordering.BeforeAt | internal/codemap/views.go:499-530 | one string is before another exactly when they agree up to a place where it ends or has the smaller character |
| Ordering.LowerMeans | internal/codemap/codemap.go:219-224 | lower-casing moves A to Z to a to z and leaves the rest |
| Ordering.SortStable | internal/knownissues/knownissues.go:166-185 | elements that tie keep their order |
| Ordering.IncreasingUnique | internal/codemap/views.go:499-530 | values with distinct keys have only one sorted list |

## Left out

- Parsing, call resolution, routes, caching and everything that makes a file graph: `scanFile` is not part of this model; a file graph is an input.
- Islands(), Hubs, HubsWhere, Filter, CallGraph and the call level of Collapse: easy members beside those modelled.
- The contents of nodes no file owns: the last placeholder to arrive stands, so only their ids are claimed to be independent of order.
- Stats fields counted after the merge (Files, Functions, Utility, BuildMillis) and Root and Fingerprint of a map: bookkeeping.
- Ill-formed maps: the cycle round count and the collapse theorems assume that ids are unique and every edge end is a node, which Collecting.Collector.Finish establishes; collapsed islands also assume that containment joins nodes of one file.
- Whether an entry reaches a file after a file collapse: a function's entry flag is dropped there on purpose, so only packages are claimed.
- Rollup.SortedEdges: the source's unstable library sort is modelled by a stable one; with distinct keys the list is the same.
- Cycles.Explore: the local variables of Map.Cycles are one record here, and its inner loop a method of its own.
- Walks.Walk: the two directed reachability loops of the source are this one method.
- Paths: `path.Dir` and `path.Base` are modelled on clean slash-separated paths; `filepath.Clean` and joining to a base directory are function parameters.
- Texts: a text is a sequence of bytes, and trimming, lower-casing and word splitting see ASCII only, so Unicode spaces and letters and invalid UTF-8 are not modelled; nor is the line number the output buffer keeps.
- Preformatted text (`reindentRawText`, `commonLeadingWhitespace`) and the tree-walking formatters: they need the parser.
- Regular expressions: the two patterns of the findings file are hand-written recognisers with the same preferences.
- KnownIssues.Write: the writer's errors, which the source ignores, and a header line or a path with a line feed in it, are outside KnownIssues.FileReadsBack.
- KnownIssues.RowReadsBack: rows outside its assumptions (a colon or an absolute path, an unknown severity word) are not claimed to be lost or kept, since the format does not promise them.
- Suppressions.Run.Subtract: the order of stale entries on one path and line is not promised, since the source's sort does not.
- Baselines.OwnBaseline: a report split over several target files is taken one file at a time, and the linter's one location to a finding is assumed.
- Diagnostics and re-anchoring of findings: plumbing.
- Real time: the grace period is one step that may happen at any moment. The tracker's mutex is modelled by making each of its operations one step; goroutine scheduling beyond interleaving, and liveness, are not modelled.
- Disk and JSON: what a directory's configuration says is a fixed function of the directory; directories are sequences of names.

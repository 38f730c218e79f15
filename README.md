# treebuilder, modelled in Dafny

treebuilder is a browser application for building recruitment or
organisation trees. A user keeps several projects. Each project is a map
from node id to node; every node has a display name, a recommender id
(`employeeId`), a monetary value, an ordered list of child ids and an
optional parent id. From the tree the application derives the following for
every node:

- the subtree total;
- a rank S1..S8, earned by the children's total and by how many child
  branches reached the tier below;
- the highest rank anywhere in the subtree;
- three rewards: mining, referral and community.

The project models:

- that metrics and rank engine, which the source carries three times
  (chart, sidebar, revenue report) with the same meaning;
- the revenue report with its rewards, its sort by depth and its grand total;
- the chart's three edits: change a node's fields, add a child, and delete a
  node with its subtree;
- the sidebar's member search and its rename form;
- the project list's create, delete, rename and update operations;
- the local login and registration form.

Modules:

- `Types`: the records `OrgNode`, `Project` and `User`.
- `Seqs`: `Filter`.
- `Text`: JavaScript's `trim`, `toLowerCase`, `includes` and decimal
  printing.
- `Tree`: acyclicity, the set of nodes reachable from an id, and the listing
  of a map's values in key order.
- `Metrics`: the engine. `Compute` is the metrics of one node. `Tally` and
  `LevelTable` give the record that a visit from the root leaves, with each
  node's depth. `Calculate` and `ComputeTable` are the recursive visit;
  `VisitChildren` is its loop over the children.
- `OrgChart`: the chart's metrics map and the three edits. The delete works
  in place on a working copy of the map (class `Pruner`).
- `RevenueReport`: mining map, recruits, rows, stable sort, grand total.
- `Sidebar`: the sidebar's metrics table, the search and the rename form
  (class `RenameEditor`).
- `App`: the project list and the selection (class `Workspace`).
- `Auth`: the account form (class `AuthForm`).

Modelling choices:

- Values and rewards are mathematical reals.
- A rank is its tier number: 0 for no rank, k for Sk.
- A tree is any map that admits a ranking: each child that is present ranks
  strictly below its parent. The recursions terminate on that ranking.
- A child id missing from the map yields zero metrics, as the source's
  `if (!node)` guard does.
- `Object.values(nodes)` is modelled by a parameter `order`: a list of the
  map's keys without repeats, in the order in which the runtime lists them.
- `Array.prototype.sort` is stable, so it is modelled as a stable insertion
  sort by level.
- The sidebar's `filteredNodes` takes the same `order`.
- The report's mining rate is a parameter `rate` of every report member.
  The code multiplies by 0.007 both for mining
  (components/RevenueReport.tsx:59) and in the community formula
  (components/RevenueReport.tsx:83). `RevenueReport.MiningRate` is that
  0.007, and `ReportData` runs the report at it. `RateScaling` relates any
  other rate to it.

## Model

| member | source | states |
|---|---|---|
| Metrics.RankFor | components/OrgChart.tsx:60-70 | the rank is at most S8. A rank k > 0 meets tier k's threshold and, above S1, has at least two branches at k-1 or higher. No higher tier's conditions hold. The rank is 0 exactly when the children total is below 5000 |
| Metrics.CountAtLeastBounds | components/OrgChart.tsx:60-61 | `CountAtLeast`, the number of branches that reached a tier, is at most the number of branches. It is 0 exactly when no branch reached the tier, and all of them exactly when every branch did |
| Metrics.CountAtLeastFilter | components/OrgChart.tsx:60-61 | the count is the length of the branch ranks filtered by `lvl >= target` |
| Metrics.CountAtLeastTwo | components/OrgChart.tsx:60-61 | the tier test `>= 2` holds exactly when two different branches reached the target tier |
| Metrics.RankMonotone | components/Sidebar.tsx:95-102 | with the branch ranks fixed, a larger children total never gives a lower rank |
| Metrics.MaxRank | components/OrgChart.tsx:72 | `Math.max(rankLevel, ...childMaxRanks)` is at least the node's own rank and every branch's maximum, and is one of them |
| Metrics.Compute | components/OrgChart.tsx:43-76 | a missing id has zero metrics and no rank. A present node's total is its own value plus the children total. rank <= maxRankInSubtree <= 8 |
| Metrics.BranchRanks | components/OrgChart.tsx:48-53 | `childMaxRanks` has one entry per child, in order: that child's maxRankInSubtree |
| Metrics.ChildResults | components/OrgChart.tsx:50-54 | one result per visited child, each with a subtree maximum of at most 8 |
| Metrics.LeafMetrics | components/OrgChart.tsx:47-70 | a node without children has children total 0, total equal to its own value, and no rank |
| Metrics.MaxRankCoversBranches | components/OrgChart.tsx:72 | a node's subtree maximum is at least each child's subtree maximum |
| Metrics.MaxRankBoundsSubtree | components/OrgChart.tsx:72 | no node in a subtree ranks above the subtree root's maxRankInSubtree |
| Metrics.MaxRankAttained | components/OrgChart.tsx:72 | a non-zero maxRankInSubtree is the rank of some node in the subtree |
| Metrics.SubtreeTotal | components/OrgChart.tsx:50-56 | in a proper tree (every node has at most one parent), a node's total is the sum of the values of every node in its subtree |
| Metrics.ChildrenTotal | components/OrgChart.tsx:50-54 | the children total is the sum of the values of all descendants |
| Metrics.ComputeSameShape | components/OrgChart.tsx:43-76 | the metrics depend only on the ids, the child lists and the values |
| Metrics.ComputeAway | components/OrgChart.tsx:43-76 | with the same ids and child lists, a node whose subtree does not hold `y` has the same metrics whatever `y`'s value |
| Metrics.ZeroBranchNeutral | components/OrgChart.tsx:60-72 | a branch of rank 0 adds to no tier count and raises no maximum |
| Metrics.AppendZeroChild | components/OrgChart.tsx:50-72 | appending a child with zero metrics leaves the parent's metrics as they were |
| Metrics.TallyAt | components/RevenueReport.tsx:17-49 | a visit records exactly the nodes reachable from its start, each with its own metrics, and leaves other entries alone |
| Metrics.TallyStartLevel | components/RevenueReport.tsx:47 | a visit records its start node at the visit's level |
| Metrics.TallyLevelAt | components/RevenueReport.tsx:24-25 | in a proper tree, each recorded child sits one level below its parent |
| Metrics.Calculate | components/RevenueReport.tsx:17-49 | the recursive visit with its children loop returns the node's metrics and leaves the record that `Tally` defines |
| Metrics.VisitChildren | components/RevenueReport.tsx:21-28 | the loop over the children returns the sum of their totals and their subtree ranks in order, and leaves the record the children's visits define |
| Metrics.ComputeTable | components/RevenueReport.tsx:51-52 | the whole computation yields `LevelTable`: empty for an empty root id |
| Metrics.LevelTableFacts | components/RevenueReport.tsx:17-52 | the record's keys are exactly the nodes reachable from a non-empty root id, each entry holds that node's metrics, and the root is at level 0 |
| Metrics.LevelTableDepths | components/RevenueReport.tsx:24-25 | in a proper tree, each recorded node's present children are recorded one level deeper |
| OrgChart.AllMetrics | components/OrgChart.tsx:78-79 | `metricsMap` has exactly the nodes reachable from the root, each with its metrics, and is empty for an empty root id |
| OrgChart.UpdateNode | components/OrgChart.tsx:82-87 | the edit keeps the key set and every other entry |
| OrgChart.UpdateNodeFields | components/OrgChart.tsx:85 | `Merge` at work: the edited entry takes each supplied field (id, name, recommender id, value, children, parent id) and keeps each unsupplied one. Applying the same edit twice equals applying it once |
| OrgChart.UpdateKeepsMetrics | components/OrgChart.tsx:82-87 | an edit to names or recommender ids keeps the tree acyclic and changes no node's metrics |
| OrgChart.ValueEditMetrics | components/OrgChart.tsx:82-87 | a value edit keeps the tree acyclic. The edited node's total moves by exactly the new value minus the old, and its children total stays. A node whose subtree does not hold the edited node keeps all its metrics |
| OrgChart.ValueEditTotals | components/OrgChart.tsx:82-87 | in a proper tree, a value edit moves the total of the edited node and of every node above it by the difference, and no other total |
| OrgChart.NewEmployeeId | components/OrgChart.tsx:94 | the placeholder recommender id starts with `ID-` and has at least one character after it |
| OrgChart.AddChild | components/OrgChart.tsx:89-107 | the new node has value 0, no children and the parent as its parent. The parent's children gain the new id at the end, and the parent keeps its other fields. Every other entry is unchanged |
| OrgChart.AddChildKeepsTree | components/OrgChart.tsx:89-107 | adding a fresh child keeps the map acyclic, and keeps a proper tree a proper tree |
| OrgChart.AddChildKeepsMetrics | components/OrgChart.tsx:89-107 | adding a fresh child changes no existing node's metrics |
| OrgChart.Pruner.RemoveRecursive | components/OrgChart.tsx:114-117 | the in-place removal deletes exactly the subtree of the id from the working copy |
| OrgChart.Pruner.RemoveChild | components/OrgChart.tsx:115 | one turn of the loop over the children deletes that child's subtree on top of those of the children before it |
| OrgChart.Pruner.constructor | components/OrgChart.tsx:113 | the working copy starts as the map |
| OrgChart.DeleteNode | components/OrgChart.tsx:109-121 | the handler's result is `Deleted`: the map itself for the root or a parentless node, and otherwise the map without the subtree, with the id struck from the parent's list |
| OrgChart.DeleteRemovesSubtree | components/OrgChart.tsx:109-121 | a delete that goes ahead removes exactly the subtree and strikes exactly that id (every occurrence) from the parent's list. The parent's remaining children keep their order. The parent's other fields and every other entry are kept. A refused delete changes nothing |
| OrgChart.DeleteKeepsTree | components/OrgChart.tsx:109-121 | deleting keeps the map acyclic, and keeps a proper tree a proper tree |
| OrgChart.DeleteUndoesAddChild | components/OrgChart.tsx:89-121 | deleting a child that was just added gives back the original map |
| RevenueReport.MiningMap | components/RevenueReport.tsx:57-60 | every node's id has a mining entry |
| RevenueReport.MiningOf | components/RevenueReport.tsx:59 | with distinct ids, a node's mining entry (`Mined`) is the rate times its own value, whatever the other nodes hold: 0.7% at `MiningRate` |
| RevenueReport.MiningMapScaled | components/RevenueReport.tsx:57-60 | running the mining map at `k` times a rate keeps its ids and multiplies every entry by `k` |
| RevenueReport.BuildMiningMap | components/RevenueReport.tsx:57-60 | the `forEach` fills `miningRewardsMap` as `MiningMap` defines |
| RevenueReport.Normal | components/RevenueReport.tsx:67-68 | the compared form of a name or recommender id is empty exactly for a blank text, has no capital letter, and has no whitespace at either end |
| RevenueReport.NormalIdempotent | components/RevenueReport.tsx:67-68 | a text already in compared form compares as itself |
| RevenueReport.RecruitsOf | components/RevenueReport.tsx:66-70 | the recruits are exactly the other nodes whose trimmed, lower-cased recommender equals this node's trimmed, lower-cased name. A node never recruits itself |
| RevenueReport.ReferralBaseClosedForm | components/RevenueReport.tsx:72-75 | with distinct ids, the referral base (the sum of `MiningOrZero` over the recruits) is the rate times the recruits' total value |
| RevenueReport.ReferralBaseScaled | components/RevenueReport.tsx:72-75 | the referral base is linear in the mining entries: multiplying every entry by `k` multiplies it by `k` |
| RevenueReport.MetricOf | components/RevenueReport.tsx:63 | a node the traversal never reached gets level 0 and zero metrics, with no rank |
| RevenueReport.ComputeRow | components/RevenueReport.tsx:62-96 | one row's computation is the row that `Row` defines |
| RevenueReport.SumReferralBase | components/RevenueReport.tsx:72-75 | the loop adds up the recruits' mining rewards, a missing one as 0, in list order |
| RevenueReport.CommunityClosedForm | components/RevenueReport.tsx:76-84 | in `RowOf`, community is a tenth of the rate times the children total per rank step (0.07% at `MiningRate`) and 0 without a rank. The row's rank is 0 exactly without a rank. The total is mining plus referral plus community |
| RevenueReport.RowOfScaled | components/RevenueReport.tsx:76-84 | scaling a row's mining reward, referral base and rate by `k` scales its three rewards and its total by `k` and keeps every other field |
| RevenueReport.NoRecruitsNoReferral | components/RevenueReport.tsx:72-76 | a node with no recruits earns no referral reward |
| RevenueReport.RowClosedForm | components/RevenueReport.tsx:59-76 | with distinct ids, a node's `Row` has mining equal to the rate times the node's value and referral equal to a tenth of the rate times its recruits' total value |
| RevenueReport.RowScaled | components/RevenueReport.tsx:56-96 | at `k` times a rate, every row's three rewards and total are `k` times those at the rate, and every other field is the same |
| RevenueReport.RateScaling | components/RevenueReport.tsx:59-84 | at any rate, each row's mining, referral, community and total are `rate / MiningRate` times those at 0.007, with the same level and rank |
| RevenueReport.Rows | components/RevenueReport.tsx:62 | one row per node, in list order |
| RevenueReport.InsertSorted | components/RevenueReport.tsx:97 | inserting into a level-sorted list keeps it sorted and adds exactly that row |
| RevenueReport.InsertPermutes | components/RevenueReport.tsx:97 | inserting adds exactly that row to the multiset of rows |
| RevenueReport.InsertStable | components/RevenueReport.tsx:97 | insertion keeps the relative order of rows at the same level |
| RevenueReport.SortByLevelFacts | components/RevenueReport.tsx:97 | the sort gives a non-decreasing level order and a permutation of its input. Rows of one level keep their original order |
| RevenueReport.GrandTotalAppend | components/RevenueReport.tsx:100-102 | the grand total of two lists joined is the sum of their grand totals |
| RevenueReport.GrandTotalSorted | components/RevenueReport.tsx:97-102 | sorting does not change the grand total |
| RevenueReport.InsertTotal | components/RevenueReport.tsx:97-102 | inserting a row adds exactly its total |
| RevenueReport.Unsorted | components/RevenueReport.tsx:56-96 | one row per node of the map |
| RevenueReport.BuildRows | components/RevenueReport.tsx:62-96 | the `map` over all nodes yields `Rows` |
| RevenueReport.ReportData | components/RevenueReport.tsx:55-98 | the whole `reportData` computation is the report: the rows of all nodes, sorted by level |
| RevenueReport.TotalSummary | components/RevenueReport.tsx:100-102 | the `reduce` is the grand total of the rows |
| RevenueReport.ReportOrder | components/RevenueReport.tsx:97-102 | the report is sorted by level and holds each node's row exactly once. Rows of one level keep the map's key order. The grand total equals that of the unsorted rows |
| RevenueReport.RowOfNode | components/RevenueReport.tsx:56-96 | each node's row carries its id, name and recommender. An unreached node has level 0, no rank and no community reward. A reached node has its recorded level and its own rank |
| Sidebar.NodeMetricsOf | components/Sidebar.tsx:71-112 | the sidebar's table is the engine's record for the selected project, and empty without a selection |
| Sidebar.SidebarTableFacts | components/Sidebar.tsx:72-111 | the table is empty without a selection or a root id. Otherwise it holds exactly the nodes reachable from the root, each with its metrics |
| Sidebar.FilteredNodes | components/Sidebar.tsx:114-124 | no selection yields no nodes. With one, a blank query yields every node of the project in key order. Any other query yields each matching node as often as it is listed, and no other node |
| Sidebar.SearchMembers | components/Sidebar.tsx:117-123 | a blank query keeps every node. Otherwise a node is kept exactly when its lower-cased name or recommender contains the lower-cased query, with its multiplicity |
| Sidebar.SearchKeepsOrder | components/Sidebar.tsx:120-123 | the search distributes over concatenation, so it keeps the original order |
| Sidebar.SearchIgnoresCase | components/Sidebar.tsx:119-123 | lower-casing the query does not change the result |
| Sidebar.RenameRequest | components/Sidebar.tsx:131-134 | a rename is handed on exactly when the title is not blank, and then with the trimmed title and the same id |
| Sidebar.RenameRequestTrimmed | components/Sidebar.tsx:132-133 | a title handed on is non-empty, and trimming it again does not change it |
| Sidebar.RenameEditor.constructor | components/Sidebar.tsx:126-136 | the form starts outside edit mode with an empty title |
| Sidebar.RenameEditor.StartRename | components/Sidebar.tsx:126-129 | edit mode for that id, with the given title |
| Sidebar.RenameEditor.SubmitRename | components/Sidebar.tsx:131-136 | the submitted request is `RenameRequest` of the typed title. Edit mode always ends |
| App.FindProject | App.tsx:150 | a project is found exactly when a selection exists and some project has that id. The found project is in the list and has that id |
| App.FindFirst | App.tsx:150 | the project found is the first one in the list with that id. Every project before it has another id |
| App.FindAt | App.tsx:150 | with distinct ids, each project is found under its own id |
| App.NewProject | App.tsx:113-129 | the new project carries the supplied ids and time and the title `신규 팀 <count + 1>`. Its only node is the root |
| App.NewProjectTree | App.tsx:118-128 | a new project is a one-node proper tree. Its root has no value, no rank and no children total, and is at level 0 |
| App.WithoutProjectFacts | App.tsx:138 | deleting removes exactly the projects with that id, keeps the others with their multiplicity, and leaves none under that id |
| App.WithoutProjectDistinct | App.tsx:138 | deleting keeps project ids distinct |
| App.DeleteUndoesCreate | App.tsx:112-140 | deleting a project that was just created gives back the list |
| App.Renamed | App.tsx:143 | each project with the id gets the new title, and every other project is kept |
| App.RenamedFacts | App.tsx:142-144 | renaming changes only titles and only those of matching projects. Renaming twice equals renaming once |
| App.RenameIsReplace | App.tsx:142-148 | with distinct ids, renaming is updating with the renamed copy, and the renamed project is found under its id |
| App.Replaced | App.tsx:147 | each project with the updated id is replaced, and every other project is kept |
| App.ReplacedFacts | App.tsx:146-148 | updating keeps the length and the ids, and so keeps ids distinct. Updating twice equals updating once. The update is found under its id when that id was present; otherwise nothing changes |
| App.Workspace.constructor | App.tsx:112-148 | no projects and no selection |
| App.Workspace.CreateProject | App.tsx:112-135 | the list gains exactly the new project at its end. It becomes the selection and is found there. Ids stay distinct |
| App.Workspace.DeleteProject | App.tsx:137-140 | the list loses exactly the projects with that id. The selection is cleared exactly when it was that id |
| App.Workspace.RenameProject | App.tsx:142-144 | the list is `Renamed` and the selection is kept |
| App.Workspace.UpdateProject | App.tsx:146-148 | the list is `Replaced` and the selection is kept |
| Auth.FindCredential | components/Auth.tsx:72 | an account is found exactly when the exact name and password pair is stored |
| Auth.FindUser | components/Auth.tsx:80 | an account is found exactly when the name is stored |
| Auth.Authenticate | components/Auth.tsx:51-91 | blank inputs are rejected. A login succeeds exactly when the trimmed pair is stored, and reports the trimmed name. A registration succeeds exactly when the trimmed name is new, and appends the trimmed pair. A failed login is told the credentials are wrong; a taken name is told it is taken |
| Auth.RegisterKeepsDistinct | components/Auth.tsx:80-84 | registration keeps account names distinct |
| Auth.LoginAfterRegister | components/Auth.tsx:70-88 | right after registering, logging in with the same inputs succeeds |
| Auth.OnePasswordPerName | components/Auth.tsx:72 | with distinct names, each name logs in with at most one password |
| Auth.AuthForm.constructor | components/Auth.tsx:51-100 | the form starts in login mode, empty, with no message, not submitting |
| Auth.AuthForm.HandleAuth | components/Auth.tsx:51-100 | blank inputs set the missing-fields message and change nothing else. A failed login or a taken name sets its message. A login reports the trimmed name. A registration appends the account, returns to login mode and clears the password. Submission always ends, and names stay distinct |
| Text.Trim | components/Sidebar.tsx:117 | the trimmed string is empty exactly when the input is all whitespace, and otherwise starts and ends with a non-space |
| Text.TrimStartSuffix | components/Sidebar.tsx:117 | dropping leading whitespace leaves the suffix from the first non-space character, and only whitespace was dropped |
| Text.TrimEndPrefix | components/Sidebar.tsx:117 | dropping trailing whitespace leaves the prefix up to the last non-space character, and only whitespace was dropped |
| Text.TrimIdempotent | components/Sidebar.tsx:132-133 | trimming twice equals trimming once |
| Text.Lower | components/Sidebar.tsx:119 | lower-casing keeps the length. Each ASCII capital becomes its small letter, 32 code points up, and every other character is kept, so no capital remains |
| Text.LowerIdempotent | components/Sidebar.tsx:119-122 | lower-casing twice equals lower-casing once |
| Text.ContainsSpec | components/Sidebar.tsx:121-122 | `includes` holds exactly when the query occurs at some position |
| Text.NatToStringRoundTrip | App.tsx:116 | the decimal text of the project count reads back as that count |
| Tree.Values | components/RevenueReport.tsx:56 | `Object.values` lists the node under each key, in key order |

## Left out

- Rendering, theming, the node box component, and pan and zoom are not
  modelled. They are display and pointer handling with no data rules.
- Browser storage is not modelled. The stored project list, the stored
  accounts and the remembered username become plain values: the
  `Workspace` fields, the `AuthForm.users` field, and the list that
  `HandleAuth` reads and writes.
- `confirm`, `alert`, `window.location.reload`, the 600 ms delay and the
  async suspension in the account form are not modelled.
- The remembered-username branch of `finalizeLogin` is left out because it
  only writes to storage. The model keeps the reported username.
- `crypto.randomUUID`, `Math.random` and `Date.now` are parameters.
  Project and node ids come with a freshness precondition, and the `ID-`
  tag is any natural number. The source's tag lies below 1000.
- The view, zoom and sidebar resets in `createProject` (`resetView`,
  `setCurrentView`, `setIsSidebarOpen`) are left out because they only
  touch display state. The selection it sets is modelled.
- IEEE-754 rounding is not modelled. Values and rewards are mathematical
  reals.
- The `node.value || 0` coercion of `NaN` and of missing values is not
  modelled. Values are taken as given numbers.
- `toLocaleString` formatting is not modelled.
- The rank is carried as its tier number. `parseInt(rank.substring(1))`
  is not re-parsed.
- `toLowerCase` is modelled for ASCII letters only. Other scripts are left
  unchanged.
- OrgChart.DeleteNode: when the delete goes ahead, it requires the parent
  to lie outside the deleted subtree. With the parent inside, the source
  throws a `TypeError` reading the children of the removed parent
  (components/OrgChart.tsx:119). It also requires no dangling child id
  below the deleted node; there the source throws in `removeRecursive`.
  Finally it requires the whole map to be a proper tree, which is more than
  the source needs. The source also completes on a map where nodes outside
  the deleted subtree share children, as long as no id is reached twice from
  the deleted node. For example, with R listing A and B, and A and B both
  listing C, deleting B removes B and C and leaves A listing the removed C.
  The model does not cover such maps.
- OrgChart.UpdateNode: it requires `nodeId` to be in the map. The source
  would otherwise spread `undefined` into a fresh entry, and the chart only
  edits existing cards.
- RevenueReport.MiningOf, RevenueReport.ReferralBaseClosedForm and
  RevenueReport.RowClosedForm: the closed forms are stated for distinct
  node ids (each node's `id` equals its key). With duplicates, the source's
  map keeps the last one, and `MiningMap` models that.
- Auth.AuthForm: every operation requires and keeps the invariant `Valid()`:
  account names are distinct. The source's `handleAuth` reads whatever list
  storage holds and never checks this. The invariant holds for lists that
  the form itself built, because registration refuses a taken name.
- App.Workspace: every operation requires and keeps an invariant: project ids
  are distinct, and a selection names a listed project. The source does not
  check this. It holds because ids are random UUIDs and every operation
  keeps it.
- App.Workspace.CreateProject: it requires a project id that no listed
  project has, in place of the randomness of `crypto.randomUUID`.
- Cyclic maps are not modelled. Every engine and edit member requires an
  acyclic map.
- The key order of `Object.values` is a parameter (`order`) and is not
  derived from JavaScript's property-order rules.

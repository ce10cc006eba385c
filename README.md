# Shortest-death path finder: a Dafny model

This project models the two functions of `dijkstra.js`.

- `dijkstra(graph, start, goal)` runs Dijkstra's algorithm. The graph is an adjacency map from a node name to its outgoing arcs `{to, deaths}`. The search works on four pieces of state:
  - a distance table `dist`;
  - a parent table `parent`;
  - a `visited` set;
  - an array-backed frontier `pq`. Every round the frontier is stably sorted by distance and its head is shifted off.

  It records a trace of `start`, `visit`, `goal` and `update` steps, each holding value snapshots of that state. It stops early at the goal and rebuilds the path by following parent pointers back from the goal.
- `parseInput(text)` reads the line-oriented input format:
  - a header `N M`;
  - `M` edge lines `from to deaths`;
  - a line `start goal`.

  It returns the adjacency map, the node list in first-seen order, the edge list and the start and goal.

The engine is modelled twice. `Engine` holds a functional reference of the main loop:
- `ArcEffect` relaxes one arc, and `RelaxAll` relaxes a node's arcs in adjacency-list order;
- `Next` is one round on a state of distances, parents, frontier, trace and visited set;
- `Run` is the first `k` rounds, stopping once the loop stops.

The methods `RelaxArc`, `Relax`, `VisitNode`, `Round` and `Search` are proved to compute exactly that reference. So the result of `Dijkstra` is the one the reference gives: the same trace step by step, the same parent table, and the same path among equally heavy ones.

The modules follow the structure of the program.

| file | module | contents |
|---|---|---|
| `wrappers.dfy` | `Wrappers` | `Option` and `Result` |
| `graph.dfy` | `Graph` | nodes, arcs, edges, the adjacency map, walks and their weight |
| `frontier.dfy` | `Frontier` | the frontier and the stable sort by distance |
| `trace.dfy` | `Trace` | the step records, the rule linking each step to the one before it, and the properties that hold over the whole trace |
| `engine.dfy` | `Engine` | `dijkstra` as a method with loops over local state |
| `text.dfy` | `Text` | JavaScript `trim`, `split`, `Number` and `parseInt` on `seq<char>` |
| `parser.dfy` | `Parser` | `parseInput` as a method with a `for` loop, proved equal to a functional specification `Parse` |
| `parse_facts.dfy` | `ParseFacts` | what `Parse` produces and when it fails |
| `round_trip.dfy` | `RoundTrip` | writing a graph in the input format and parsing it gives the graph back |
| `ties.dfy` | `Ties` | two inputs with equally heavy choices, and the choice the search makes on each |

## Model

| member | source | states |
|---|---|---|
| Engine.Dijkstra | dijkstra.js:3-89 | Assuming non-negative weights, the result is what the reference reports for a stopped run of the loop from the initial state. That fixes the trace, the table and the path exactly. The trace is valid: it starts with the `start` step, and each step follows the one before it. A `visit` step shows the frontier left after the stale heads are skipped and its entry is shifted off. `allDistances` is the distance snapshot of the last step. `minDeaths` is `dist[goal]`, or -1 when the goal has no distance. The trace ends with a `goal` step exactly when `path` is not empty, and otherwise its last frontier holds only stale entries. `path` is empty exactly when no walk leads from `start` to `goal`; otherwise it is a walk from `start` to `goal` weighing `minDeaths`. `minDeaths` is at most the weight of every walk from `start` to `goal` |
| Engine.Search | dijkstra.js:4-71 | Assuming non-negative weights, the loop stops, and its final table, parents and trace are those of the reference run after some number of rounds, which has stopped there. That state answers the query. The recorded trace is valid and its last distance snapshot is `dist`. `parent` forms a tree of walks back to `start`. A goal with a distance has one no greater than the weight of any walk from `start` to it. A goal without a distance is unreachable. The trace ends with a `goal` step exactly when the goal has a distance, and otherwise its last frontier holds only stale entries, so the loop ran until the frontier was empty |
| Engine.Round | dijkstra.js:22-71 | The new table, parents, frontier, trace, visited set and stop flag are exactly those that `Next` gives for the old state. One round of the loop pops the head `(d, u)` of the stably sorted frontier. If `u` is already visited, nothing changes except that the frontier becomes the rest of the sorted list, and no step is added. Otherwise `u` joins `visited` and the old trace is kept as a prefix. Next comes a `visit` step with the live table, the new visited set and the rest of the sorted list. At the goal, a `goal` step follows, the search stops, and the table, parents and frontier are unchanged. Any other node adds only its `update` steps. The last step shows the new table and frontier, no distance went up, and every arc of `u` is relaxed. Unless the search stops, the loop invariant is kept and either the frontier shrank or the unvisited part of the graph did |
| Engine.VisitNode | dijkstra.js:27-70 | The new state and stop flag are exactly those of `VisitRound`: the visit step, then the goal step or the arcs relaxed in order. Visiting the unvisited popped node `u` at distance `d` adds exactly `u` to `visited`, and `u` is in the graph. The old trace stays a prefix, followed by `Visit(u, d, dist, visited, rest)`. The search ends exactly when `u` is the goal. Then a `goal` step follows, `dist`, `parent` and the frontier are unchanged, and the answer holds. Otherwise only `update` steps of `u` follow, no distance went up, every arc of `u` is relaxed, and the loop invariant is restored |
| Engine.Relax | dijkstra.js:50-70 | The new table, parents, frontier and trace are those of relaxing `u`'s arcs one after the other in adjacency-list order (`RelaxAll`), so there is one `update` step per strict improvement, in that order. After the arc loop of the visited node `u` at distance `d`, every arc `u -> to` of weight `w` leaves `dist[to] <= d + w`. No distance went up, and a visited node's distance did not change. The trace only gained `update` steps from `u`, and the parent tree and the frontier facts still hold |
| Engine.RelaxArc | dijkstra.js:52-67 | The new state is `ArcEffect` of the old one. An arc is relaxed exactly when `to` has no distance or `d + deaths` is strictly smaller. Then `dist[to]` becomes `d + deaths` and `parent[to]` becomes `u`; one entry is pushed; one `update` step is appended whose snapshots are the new table and frontier. Otherwise nothing changes. Either way `dist[to] <= d + deaths` and no distance went up |
| Engine.ReconstructPath | dijkstra.js:73-81 | A goal without a distance gives the empty path. Otherwise the path is the parent chain of the goal: it ends at the goal, each node's parent is the node before it, and the first node has no parent. It is a walk from `start` to `goal` whose arc weights sum to `dist[goal]` |
| Engine.Concludes | dijkstra.js:73-88 | The reported result follows from the final state: `-1` and the empty path exactly when the goal is unreachable, and otherwise a shortest walk. The path is non-empty exactly when the trace ends with a `goal` step |
| Engine.RunStays | dijkstra.js:22-71 | Once the loop has stopped, by reaching the goal or emptying the frontier, further rounds change nothing |
| Engine.RunDetermined | dijkstra.js:22-71 | Any two stopped runs from the same state end in the same state |
| Engine.ChainUnique | dijkstra.js:73-81 | The parent chain of a node is unique |
| Engine.ReportsUnique | dijkstra.js:73-88 | Two results reported from stopped runs from the same state are equal, so the result of `dijkstra` is fixed by its input |
| Engine.RelaxAllStep | dijkstra.js:51-69 | Relaxing the first `k + 1` arcs is relaxing the first `k` and then arc `k` |
| Engine.SearchStarts | dijkstra.js:4-20 | The initial state satisfies the loop invariant: distances `{start: 0}`, frontier `[(0, start)]`, a single `start` step with an empty visited set |
| Engine.SkipKeeps | dijkstra.js:24-27 | Discarding a stale frontier head keeps the loop invariant and shortens the frontier |
| Engine.RoundKeeps | dijkstra.js:24-70 | A round that visits a node and relaxes its arcs restores the loop invariant, with the popped distance as the new lower bound |
| Engine.ExhaustedAnswered | dijkstra.js:22-84 | When the frontier runs empty, the trace is valid and its last snapshot is the live table, and the trace has no `goal` step and its last frontier holds only stale entries. The goal's distance is shortest if it exists, and the goal is unreachable if it has none; so it has none |
| Engine.GoalAnswered | dijkstra.js:39-48 | Reaching the goal with a valid trace that ends in a `goal` step, and with a settled distance table, answers the query |
| Engine.EnterNode | dijkstra.js:24-37 | Popping the unvisited head `(d, u)` of the sorted frontier: `d` is `u`'s recorded distance, every remaining entry is at least `d`, and with `u` visited all visited distances are shortest and the parent tree still holds |
| Engine.PopUnvisited | dijkstra.js:24-28 | The unvisited popped node has the least distance of all unvisited nodes, and the rest of the frontier still covers every other unvisited node |
| Engine.PopVisited | dijkstra.js:24-27 | After discarding a stale head, the rest of the frontier still covers every unvisited node and is shorter |
| Engine.VisitSettles | dijkstra.js:24-28 | Visiting the unvisited node of least distance keeps every visited distance shortest: no walk from `start` is lighter |
| Engine.GoalCompletes | dijkstra.js:39-48 | The `goal` step right after the goal's `visit` step completes a valid trace |
| Trace.VisitedGrows | dijkstra.js:27-37 | The visited snapshot of a step includes that of every earlier step |
| Trace.VisitedOnce | dijkstra.js:27-37 | No node is the current node of two `visit` steps |
| Trace.VisitSeesItself | dijkstra.js:28-36 | A `visit` step's visited snapshot contains its own current node |
| Trace.VisitPopsFrontier | dijkstra.js:24-37 | The frontier of a `visit` step, together with the popped entry, is drawn from the frontier of the step before it. None of its entries is below the visit's distance, and neither is any entry of an unvisited node in that earlier frontier |
| Trace.DistancesNeverIncrease | dijkstra.js:54-56 | A recorded distance is never removed and never increases along the trace |
| Trace.UpdateImproves | dijkstra.js:54-67 | An `update` step's snapshot maps the updated node to the new distance, which is strictly below every distance recorded for it earlier |
| Trace.BaseGrows | dijkstra.js:24-32 | The distance of the current node never decreases along the trace |
| Trace.VisitsInDistanceOrder | dijkstra.js:24-32 | Nodes are visited in order of non-decreasing distance |
| Trace.VisitedNeverRelaxed | dijkstra.js:27-28 | A node in any step's visited snapshot is never the target of a later `update` step |
| Frontier.SortByDistFacts | dijkstra.js:24 | The sort is a permutation and sorted by distance. It is stable: the entries of each distance keep their order |
| Frontier.SortedHeadIsFirstMin | dijkstra.js:24-25 | The entry `shift` removes after the sort is the earliest entry of minimal distance |
| Frontier.StableSortUnique | dijkstra.js:24 | Any sorted arrangement that keeps the order within each distance is the sort's result |
| Frontier.FirstMin | dijkstra.js:24-25 | The earliest index of minimal distance: no entry is smaller, and every earlier entry is larger |
| Frontier.DrainKeeps | dijkstra.js:22-27 | Rounds that pop stale entries only remove entries, never one of an unvisited node. What is left, if anything, has such a node at the head of its sort |
| Frontier.PopsFacts | dijkstra.js:22-28 | The entry a visiting round pops names an unvisited node. It comes from the frontier; the entries left are the others, none of them smaller. No entry of an unvisited node in the frontier before it was smaller |
| Ties.TieRun | dijkstra.js:50-71 | On input `a b 2`, `a c 1`, `c b 1`, the run stops after three rounds with `b` at distance 2 and parent `a`: the tie through `c` is not a strict improvement |
| Ties.TiePath | dijkstra.js:3-89 | On that input the result has the path `a b` and weight 2 |
| Ties.DiamondRun | dijkstra.js:22-71 | On input `a b 1`, `a c 1`, `b d 1`, `c d 1`, the run stops after four rounds, the fifth step visits `b`, and `d` has parent `b` |
| Ties.DiamondOrder | dijkstra.js:3-89 | On that input the stable sort makes `b` the first of the tied nodes to be visited, and the path is `a b d` with weight 2 |
| Graph.WalkSumNonNegative | dijkstra.js:52 | Over non-negative weights, every walk has non-negative total weight |
| Text.TrimSlice | dijkstra.js:92 | `trim` keeps one slice of the string. Everything before and after it is white space, and the slice neither starts nor ends with white space |
| Text.TrimNoSpace | dijkstra.js:100 | A string that neither starts nor ends with white space trims to itself |
| Text.SplitPieces | dijkstra.js:92 | `split(c)` yields one piece more than there are `c`s, and no piece holds a `c` |
| Text.SplitJoin | dijkstra.js:92 | Joining the pieces of a split gives the string back |
| Text.JoinSplit | dijkstra.js:100 | Splitting a join of pieces that do not hold the separator gives the pieces back |
| Text.DigitPrefix | dijkstra.js:103 | The longest prefix made of digits of the radix: a prefix, all digits, and followed by a non-digit or nothing |
| Text.NumberOfIntString | dijkstra.js:93 | `Number` reads every decimal integer numeral as its value |
| Text.ParseIntOfIntString | dijkstra.js:103 | `parseInt` reads a decimal numeral followed by anything that does not continue the numeral as its value |
| Parser.ParseInput | dijkstra.js:91-124 | The method returns exactly `Parse(text)`, the functional specification that `ParseFacts` and `RoundTrip` characterise |
| Parser.ReadEdges | dijkstra.js:99-113 | The edge loop returns the adjacency map, node list and edge list built from the edges of lines 1 to `M`, or the error at the first missing or malformed line |
| Parser.RecordEdge | dijkstra.js:105-112 | Both endpoints are added to the node list `from` first, the edge is appended, and its arc is appended to `from`'s list, which is created first when missing |
| Parser.PushArc | dijkstra.js:109-112 | Creating an absent list and then pushing onto it appends the arc to the list of `from` |
| Parser.ParsedLinesFacts | dijkstra.js:100-103 | Each line's reading as an edge line is kept at that line's index |
| Parser.ErrorPersists | dijkstra.js:99-103 | A failure at edge line `i` is the failure of the whole loop: later lines are not read |
| Parser.AdjacencyStep | dijkstra.js:105-112 | One more edge appends its arc to the adjacency map and its endpoints to the node list |
| ParseFacts.EdgeLinesOk | dijkstra.js:99-107 | Reading lines 1 to `M` succeeds exactly when all of them exist and are well formed. Then there are exactly `max(M, 0)` edges, and edge `k` is the reading of line `k + 1` |
| ParseFacts.EdgeLinesErr | dijkstra.js:99-103 | A failed read names the first missing or malformed line, and every line before it is a well-formed edge line |
| ParseFacts.AdjacencyExact | dijkstra.js:109-112 | Each node's arc list holds exactly the arcs of the edges leaving it, in input order. A node is a key exactly when some edge leaves it |
| ParseFacts.ArcsFromMember | dijkstra.js:112 | `{to, deaths}` is in the arc list of `v` exactly when `v to deaths` is an edge |
| ParseFacts.ArcsSumToEdges | dijkstra.js:99-113 | Summed over the node list, the arc lists hold `M` arcs |
| ParseFacts.FirstSeenOrder | dijkstra.js:96-121 | The node list holds each endpoint once and nothing else, in the order in which the edge lines first name them |
| ParseFacts.AddNodeKeeps | dijkstra.js:105-106 | `nodes.add` keeps first-occurrence order |
| ParseFacts.EdgeLinesOf | dijkstra.js:99-107 | Lines 1 to `M` that read as given edges produce exactly those edges |
| ParseFacts.ParseSucceeds | dijkstra.js:91-124 | Parsing succeeds exactly when line 0 holds an integer `M`, lines 1 to `M` are well-formed edge lines, and line `M + 1` exists and names a start and a goal. The result then has `max(M, 0)` edges, edge `k` is the reading of line `k + 1`, and start and goal are the first two tokens of line `M + 1` |
| ParseFacts.ParseFails | dijkstra.js:92-115 | Every parse error names its cause: a count that is not an integer, the first bad or missing edge line, a missing line `M + 1`, or a line `M + 1` without a goal |
| ParseFacts.TooFewLines | dijkstra.js:115 | Input with fewer than `M + 2` lines fails to parse |
| ParseFacts.FailureOnLines | dijkstra.js:99-103 | The first failing line, restated on the input lines themselves |
| RoundTrip.ParseFormat | dijkstra.js:91-124 | Parsing the text of a graph whose names are non-empty and free of white space gives back its edges in order, with the adjacency map and node list built from them and the start and goal. The count `N` is not read |
| RoundTrip.LinesBack | dijkstra.js:92 | The formatted text trims to itself and splits back into its lines |
| RoundTrip.EdgeTextParses | dijkstra.js:100-103 | An edge line `from to deaths` between plain names reads back as that edge |
| RoundTrip.WordsLine | dijkstra.js:115 | Plain names joined by single spaces trim to themselves and split back into the names |

## Left out

- Engine.Dijkstra: requires non-negative weights; the source does not check them. The proofs of shortest distances and of path termination need them. With a negative weight the source's path walk can loop forever. Example: edges `A B 1`, `B C 1`, `B D 10`, `C B -5` with query `A D`. Visiting `C` re-parents `B` to `C`, so the parent pointers of `B` and `C` form a cycle that the walk back from `D` never leaves.
- The falsy test of `while (current)` in the path walk (dijkstra.js:77) would also stop at a node named by the empty string. The model stops only at a node without a parent.
- The human-readable `message` of each step is not kept. The numbers it shows are fields of the step.
- The distance table is a `map`, so the insertion order of the JavaScript `Map` returned as `allDistances` is not modelled.
- Two conversions that the source carries on with are parse errors in the model:
  - An edge line with fewer than three tokens leaves `to` or `deaths` `undefined`. A weight that `parseInt` cannot read is `NaN` (dijkstra.js:100-103). The model reports `BadEdge` for that line.
  - A last line with a single token leaves `goal` `undefined` (dijkstra.js:115). The model reports `MissingGoal`.

  Both are errors so that every token that does not convert ends the parse with an error. For the same reason, `NaN` arithmetic is not modelled.
- An edge count that is missing or not a number makes the source throw. The edge loop runs zero times, and `lines[M + 1]` is `undefined` (dijkstra.js:93, 99, 115). The model's `BadCount` matches that failure. It differs from the source only for the numeric forms listed under `Text.NumberValue`.
- A line indexed past the end, where the source throws, is `MissingLine`.
- Text.NumberValue: `Number` is modelled for decimal integers with an optional sign, and for the empty string, which is 0. Decimal points, exponents, hexadecimal, octal, binary and `Infinity` give `BadCount` rather than their numeric value.
- Text.ParseIntPrefix: numbers are unbounded integers. The loss of precision of very large values in JavaScript numbers is not modelled.
- The node count `N` of the header is never read. Nothing checks it, as in the source.
- `visualization.js` and `main.js` are not part of this model. They hold DOM rendering, replay timers, a floating-point layout and event wiring, and only read the finished result.

# Pattern site scripts: the relationship graph and the search box

This project models the two client-side scripts of a pattern catalogue
site in Dafny and proves properties of the models.

- **graph.js** draws a force-directed graph of the patterns. It builds one
  node per pattern and one edge per "contains" relationship. An annealed
  physics loop then moves the nodes, and the mouse drags nodes or, on a
  click, opens a pattern's page.
- **search.js** filters a search index as the user types. A query matches
  an entry when every white-space-separated term of the lower-cased,
  trimmed query occurs in a haystack. The haystack is built from the
  entry's number, name, problem, tags and scale. The first 20 matches are
  shown with a 100-character problem snippet and a link to the page.

Modules:

- `Options`: the optional value (`null` or a missing field in the scripts).
- `Links`: the page link `rootPrefix + "pattern/" + number + ".html"`, used by
  both scripts, and its inverse.
- `Graph`: patterns, nodes and edges, and `buildGraph`. The builder is a
  method with loops, proved against the functions `InitialNode`,
  `NumberIndex` and `AllEdges`.
- `GraphPhysics`: the annealing temperature, the pull toward the centre and
  the integrate / damp / clamp pass of one physics step. Positions and
  velocities are exact reals.
- `GraphLabel`: the label drawn under a node.
- `GraphSession`: the running graph as a class. It holds the node array
  that the physics updates in place, the edges as index pairs, the frame
  counter and the drag state. Its methods model `tick`, `nodeAt` and the
  four mouse handlers.
- `SearchText`: the string operations: lower-casing, `trim`,
  `split(/\s+/)` and `indexOf`. It also defines the word of a text as a
  maximal run of non-white-space characters, and the lemmas that relate
  the split terms of a query to its words.
- `Search`: the haystack, `matches`, the filter, `render` and the input
  handler.

## Model

| member | source | states |
|---|---|---|
| Links.PatternHref | graph.js:294 | the link is the root prefix, then `pattern/`, the number and `.html`, piece by piece |
| Links.NumberOfHref | graph.js:294 | whenever it reads a number out of a link, building the link for that number gives the link back |
| Links.HrefRoundTrip | graph.js:294 | every link reads back to exactly its pattern number |
| Links.HrefInjective | search.js:49 | under one root prefix, two patterns with the same link have the same number |
| Graph.IndexOf | graph.js:73 | `indexOf`: -1 exactly when the value is absent, otherwise a position holding it with no earlier occurrence |
| Graph.ScaleIndex | graph.js:73-74 | the band is the first position of the scale in the scale list, or 0 for an unlisted scale, so it is inside the list whenever the list is non-empty |
| Graph.BandCount | graph.js:70 | the band count is exactly the number of scales, and 1 when there are no scales |
| Graph.InitialNode | graph.js:77-87 | a node copies the pattern's number, name, scale and children, takes its scale's band index and starts at rest |
| Graph.Jitter | graph.js:82-83 | a draw in [0, 1) places the coordinate in the middle 60% of its span |
| Graph.BandInsideCanvas | graph.js:76-83 | a point inside one of the equal bands lies inside the canvas height |
| Graph.InitialNodeInBand | graph.js:76-83 | a new node lies in the middle 60% of the width and of its scale's band, hence inside the canvas |
| Graph.NumberIndex | graph.js:89 | `byNumber` after a prefix of the patterns: every key maps to a pattern of that prefix carrying the key |
| Graph.NumberIndexSpec | graph.js:89 | `byNumber` knows exactly the numbers that occur, and maps each to the last pattern carrying it |
| Graph.NumberIndexKeys | graph.js:89 | a number is a key of `byNumber` exactly when some pattern carries it |
| Graph.NumberIndexPoints | graph.js:89 | each key points at a pattern carrying that number, and no later pattern carries it |
| Graph.EdgesFrom | graph.js:94-98 | one node's edges all start at it, each ends at a resolved child, every resolved child gives an edge, and there are no more edges than children |
| Graph.EdgesFromAppend | graph.js:94-98 | the edges of a child list are those of its parts in turn, so edges follow `contains` order |
| Graph.EdgesFromOne | graph.js:95-97 | one child gives exactly one edge when its number resolves and none otherwise, so a child listed twice gives two edges |
| Graph.AllEdges | graph.js:93-99 | every edge of the node list starts at one of its nodes |
| Graph.EdgesSound | graph.js:93-99 | every edge starts at a node and ends where one of its source's child numbers resolves |
| Graph.EdgesComplete | graph.js:93-99 | every child number that resolves gives an edge from its node |
| Graph.EdgesInNodeOrder | graph.js:93-99 | edges come out grouped by source, in node order |
| Graph.EdgeCountBound | graph.js:93-99 | there are never more edges than child entries in total |
| Graph.BuildGraph | graph.js:68-100 | one node per pattern in input order, built by `InitialNode`, and the edges of `AllEdges` under the final number index |
| Graph.CreateNodes | graph.js:72-90 | the node pass: the nodes in input order and the number index after all patterns |
| Graph.CollectEdges | graph.js:93-99 | the edge pass: node by node, the edges of `AllEdges` |
| Graph.EdgesOfNode | graph.js:94-98 | the inner edge loop yields exactly `EdgesFrom` of the node's children, which follows `contains` order with one edge per resolving entry (`EdgesFromAppend`, `EdgesFromOne`) |
| Graph.EdgesTargetChildren | graph.js:89-99 | every built edge joins two nodes, its target's number is a child of its source, and no later node has that number |
| Graph.KnownChildKept | graph.js:89-99 | a child number that some node carries always yields an edge, and the edge goes to the last node carrying it |
| GraphPhysics.Temperature | graph.js:104 | the temperature lies in [0.05, 1], is 1 at frame 0, and sits at its floor exactly from frame 333 on |
| GraphPhysics.TemperatureMonotone | graph.js:104 | a later frame is never hotter |
| GraphPhysics.Clamp | graph.js:161-162 | the clamped value lies in the interval, is unchanged inside it and is the nearer end outside it |
| GraphPhysics.CentrePull | graph.js:141-146 | at a positive temperature the pull points toward the canvas centre on each axis and vanishes at the centre |
| GraphPhysics.Integrate | graph.js:149-163 | a dragged node keeps its place with zero velocity; any other node is damped by 0.85, moved and clamped, so it ends inside the bounds when the canvas is at least one node wide and high |
| GraphLabel.Label | graph.js:222-223 | a name of at most 22 characters is unchanged; a longer one becomes 22 characters: a prefix of the name then an ellipsis |
| GraphLabel.LabelKeepsPrefix | graph.js:223 | two long names that agree on their first 21 characters get the same label |
| GraphLabel.LabelIdempotent | graph.js:223 | labelling a label changes nothing |
| GraphSession.Hits | graph.js:252 | the pointer lies on a node's disc when its squared distance from the centre is at most the squared radius (a definition; `CentreHits` relates it to `Topmost`) |
| GraphSession.Topmost | graph.js:248-255 | the hit node is the highest index whose disc holds the pointer; none is returned only when no disc does |
| GraphSession.CentreHits | graph.js:248-255 | a pointer at a node's centre always hits that node or one drawn over it |
| GraphSession.IsClick | graph.js:293 | a release is a click when the squared distance moved is below 9 (a definition; `ClickThreshold` bounds it) |
| GraphSession.ClickThreshold | graph.js:291-293 | releasing at the start point is a click; moving 3 pixels or more along an axis is not |
| GraphSession.ShouldContinue | graph.js:235 | another frame is requested while the frame is below 350 or a node is held (a definition; `Session.Tick` returns it) |
| GraphSession.TicksToSettle | graph.js:231-238 | the number of ticks an untouched loop runs from a frame is at least one; `TicksToSettleCount` gives its value |
| GraphSession.TicksToSettleCount | graph.js:231-238 | left alone, a graph at frame f runs 350 - f more ticks, or one tick when already past 350: 350 from a fresh graph, 50 after the rewind to frame 300 once the node is released |
| GraphSession.Session.constructor | graph.js:58-63 | loading builds the graph at frame 0 with nothing held; every edge joins two nodes of the array |
| GraphSession.Session.NodeAt | graph.js:248-255 | the reverse scan returns exactly `Topmost` of the node array |
| GraphSession.Session.Force | graph.js:141-146 | at every frame the step's velocity increment exceeds the given repulsion and spring part toward the canvas centre on each axis, and equals it on an axis where the node is centred, because the temperature never falls to zero |
| GraphSession.Session.ApplyForces | graph.js:140-163 | every node of the array is replaced by `Integrate` of its old value, the held one included |
| GraphSession.Session.Tick | graph.js:231-238 | the frame advances by exactly one; another frame is requested iff the frame is below 350 or a node is held; on a canvas at least one node wide and high, every free node ends inside the bounds |
| GraphSession.Session.MouseDown | graph.js:264-276 | a press on a node holds it and records the start; a settled graph is rewound to frame 300 and restarted; a press on empty canvas changes nothing |
| GraphSession.Session.MouseMove | graph.js:278-286 | the held node moves exactly to the pointer and nothing else moves; the pointer cursor shows over a node, always so while dragging |
| GraphSession.Session.MouseUp | graph.js:288-299 | it navigates iff a node was held and the release is a click, to that pattern's page, and it always ends the drag |
| GraphSession.Session.MouseLeave | graph.js:301-304 | the drag ends and nothing else changes |
| SearchText.IsSpace | search.js:19 | the characters `trim` removes and `\s` matches: the ECMAScript white space and line terminators (a definition) |
| SearchText.Lower | search.js:19 | each ASCII capital becomes its own lower-case letter (code point + 32); every other character is unchanged; white space is preserved |
| SearchText.LowerAll | search.js:19 | lower-casing works character by character and keeps the length |
| SearchText.LowerAllIdempotent | search.js:19 | lower-casing twice is lower-casing once |
| SearchText.LowerAllAppend | search.js:19 | lower-casing distributes over concatenation |
| SearchText.Trim | search.js:19 | the trimmed text neither starts nor ends with white space, and is empty exactly when the text is all white space |
| SearchText.TrimStands | search.js:19 | the trimmed text is the text with only white space removed before and after it |
| SearchText.Normalize | search.js:18-20 | a missing string gives ""; the result has no capital letter and no white space at either end, and is empty exactly when the input is blank |
| SearchText.NormalizeLowersTrim | search.js:18-20 | normalizing is trimming the text and lower-casing what remains: the two steps commute |
| SearchText.NormalizeStands | search.js:18-20 | the normalized text stands inside the lower-cased input with only white space outside it |
| SearchText.SplitIn | search.js:25 | `split(/\s+/)` gives at least one piece, none holding white space; the first (last) piece is empty exactly when the text starts (ends) with white space or is empty; every other piece is non-empty |
| SearchText.SplitWs | search.js:25 | the one empty piece comes only from the empty text; a text with no white space at either end splits into non-empty pieces |
| SearchText.Terms | search.js:23-25 | a blank query gives the single empty term; otherwise every term is non-empty and holds no white space |
| SearchText.SplitMembers | search.js:25 | splitting a trimmed text at white space gives exactly its words, with no empty pieces |
| SearchText.SomeWord | search.js:24-25 | a text has a word exactly when it is not all white space |
| SearchText.TermsAreWords | search.js:23-25 | every term of a non-blank query is a word of the lower-cased query |
| SearchText.WordsAreTerms | search.js:23-25 | every word of a non-blank lower-cased query is one of its terms |
| SearchText.WordsPadded | search.js:19-25 | white space around a text adds no words and keeps the text's words, shifted |
| SearchText.WordsOfJoin | search.js:25 | a word of two texts joined by a white-space character is a word of one of them |
| SearchText.WordsOfJoinLeft | search.js:25 | the words of the left text remain words of the join |
| SearchText.WordsOfJoinRight | search.js:25 | the words of the right text remain words of the join, shifted |
| SearchText.TermsContained | search.js:33-35 | all terms of a non-blank query occur in a text exactly when all words of the lower-cased query do |
| SearchText.AllWordsInJoin | search.js:25-35 | the words of a join all occur exactly when those of both sides do |
| SearchText.AllWordsInPadded | search.js:19-25 | surrounding white space changes neither blankness nor which words must occur |
| SearchText.BlankLower | search.js:19 | a text is blank exactly when its lower-cased form is |
| SearchText.IndexFrom | search.js:34 | `indexOf` returns the first occurrence at or after the start, or -1 when there is none |
| SearchText.Contains | search.js:34 | `indexOf(t) !== -1` (a definition; `ContainsIff` gives its meaning) |
| SearchText.ContainsIff | search.js:34 | `indexOf(t) !== -1` holds exactly when `t` occurs somewhere |
| Search.Join | search.js:26-32 | `join` starts with the first part followed by the separator |
| Search.NormalizedTags | search.js:30 | one normalized tag per tag, in order; missing tags count as none (`TagWordFindsEntry` shows each one is searched) |
| Search.Haystack | search.js:26-32 | the haystack starts with the number followed by a space |
| Search.Matches | search.js:22-24 | a blank query matches nothing |
| Search.MatchesSpec | search.js:22-36 | an entry matches iff the query is not blank and every word of the lower-cased query occurs in the haystack |
| Search.MatchesCaseInsensitive | search.js:23 | lower-casing the query changes no match |
| Search.MatchesPaddingInsensitive | search.js:23 | white space around the query changes no match |
| Search.MatchesConjunctive | search.js:33-35 | with a non-blank first part, joining a second part matches iff both parts match (a blank second part changes nothing) |
| Search.NumberFindsEntry | search.js:26-35 | searching for an entry's own number finds that entry |
| Search.NameInHaystack | search.js:26-29 | the normalized name follows the number and a space in the haystack |
| Search.HaystackWordFindsEntry | search.js:22-35 | a single lower-case word occurring anywhere in the haystack finds the entry |
| Search.NameWordFindsEntry | search.js:26-35 | a single lower-case word occurring in an entry's normalized name finds that entry |
| Search.JoinHasPart | search.js:30-32 | every part occurs in the joined text |
| Search.TagInHaystack | search.js:26-32 | each normalized tag occurs in the haystack |
| Search.TagWordFindsEntry | search.js:30-35 | a single lower-case word occurring in one of an entry's normalized tags finds that entry |
| Search.Keep | search.js:74 | filtering never lengthens a list |
| Search.KeepMembers | search.js:74 | exactly the accepted elements are kept |
| Search.KeepAppend | search.js:74 | filtering a concatenation filters each part, in order |
| Search.Filter | search.js:74 | the results are exactly the index entries the query matches |
| Search.FilterAppend | search.js:74 | the results keep the index order |
| Search.Snippet | search.js:46-47 | no snippet for a missing or empty problem; a short one is shown whole; otherwise the first 100 characters then "..." |
| Search.ItemOf | search.js:48-54 | a result shows the entry's number, name and snippet, and links to the page the number reads back from |
| Search.Render | search.js:38-59 | "No patterns found" exactly for no results; otherwise at most 20 items: the first results, in order |
| Search.OnInput | search.js:67-76 | a blank query or a missing index hides the list; otherwise the list renders the filtered index |
| Search.OnInputNoResults | search.js:39-43 | once shown, the list says "No patterns found" exactly when no entry matches |
| Search.OnInputItems | search.js:45-49 | item i of the list links to the i-th matching entry of the index |

## Left out

- The repulsion and spring forces (graph.js:107-138) use square roots and
  floating-point division. They enter `GraphSession.Session.Tick` and
  `ApplyForces` as given per-node velocity increments (`push`). The centre
  pull is modelled exactly.
- Floating-point arithmetic: positions, velocities and the temperature are
  exact reals, so rounding is not modelled.
- `draw`: edge trimming, arrowheads, circles, colours and text placement
  (graph.js:167-228) are drawing only. The label rule they use is modelled.
- `readColors`, `resize`, the resize listener and the device pixel ratio
  (graph.js:34-52, 306-309): the canvas size enters as `width` and `height`.
- `Math.random` in the initial positions: `Graph.InitialNode` takes the
  two draws as a parameter, and `Graph.InitialNodeInBand` assumes they lie
  in [0, 1).
- `fetch` and JSON loading (graph.js:55-66, search.js:13-16): the
  constructor takes the decoded scales and patterns, and `OnInput` takes
  the index as an optional value (missing until it loads).
- `requestAnimationFrame`: `Tick` returns whether another frame is
  requested, and `MouseDown` returns whether it restarts the loop. A
  second loop can run when a mousedown restarts a graph whose last frame
  is still pending; that timing is not modelled.
- `restartIfSettled` (graph.js:240-245) is never called.
- `canvasXY` (graph.js:257-260): the handlers take canvas coordinates.
- `escapeHtml`, the `innerHTML` and `hidden` writes, and the click-outside
  and focus listeners (search.js:61-65, 78-90) only touch the page. The
  rendered list is modelled as a value.
- SearchText.Lower: lower-cases ASCII letters only. Full Unicode case
  mapping is not modelled.
- SearchText.IsSpace follows the white-space and line-terminator set of
  `trim` and `\s`. Lengths count characters, not UTF-16 code units, so
  the 22- and 100-character cuts are exact only for text in the Basic
  Multilingual Plane.
- GraphSession.Session.constructor: `load` ends with a first `tick()`
  (graph.js:64); in the model that is the caller's first `Tick`, so the
  constructor leaves the graph at frame 0 before any physics step.
- Graph.NumberIndex: pattern numbers are modelled as strings, as the keys
  of the `byNumber` object are. Inherited object keys such as
  `constructor`, which `byNumber[cNum]` also finds, are not modelled.
- Graph.InitialNode: a pattern without a `contains` list is given the
  empty one (graph.js:86) before it reaches the model.
- Search.Haystack: the contract states only where the number sits. The
  rest of the layout is the definition itself: the number, normalized
  name, problem, space-joined tags and scale, separated by single spaces.
  `String(number)` on a missing number is not modelled; entries always
  have one.
- Search.Join: the contract states only the first part and separator; the
  rest of the joined text is the definition.

# Trigger Analyzer map-model builder, in Dafny

This project models the part of the Trigger Analyzer that turns the text of a
Red Alert 2 map file into a graph of triggers and variables plus a list of
warnings (`parseMapFile` in `Trigger-Analyzer/main.js`, with `parseINI`,
`parseEvents`, `parseActions`, `addGlobalVariable` and the `findRep`
union-find). It also models `convertWaypoint`, the waypoint-name decoder. Each
piece is a pure function over immutable data, and lemmas prove what the code
promises.

The modules follow the program's structure:

- `Wrappers` holds `Option` and `Result`.
- `JsText` covers the JavaScript string operations the builder relies on:
  - values that may be `undefined` (`Val`) and JavaScript truthiness;
  - `\s` white space and `trim`;
  - `split` and `join` on one character;
  - `parseInt` as an `Option<int>`, with `None` for NaN.
- `OrderedMap` models insertion-ordered maps: a JavaScript `Map`, and a plain
  object used as a dictionary. It includes the key order of a `for ... in`
  loop, where array-index keys come first in ascending order and then the
  other keys in insertion order.
- `Ini` is `parseINI`. It splits the text at runs of CR/LF. It classifies each
  line with the three regular expressions, in the source's order. It folds the
  lines into the result.
- `Waypoint` is `convertWaypoint`: bijective base-26 over `A..Z`, minus one.
- `UnionFind` covers `disjointTrigger` and `findRep`: recursive find with path
  compression. A parent chain with no fixed point (a cyclic `link` chain)
  makes the source recurse without bound; here it is `None`.
- `Streams` covers the `[Events]` and `[Actions]` token formats, their
  decoders, and the opcode tables that decide which records draw edges.
- `MapModel` is the builder. It runs these phases:
  1. the tag loop;
  2. the trigger loop, with the `try` block, the link edge and the duplicate
     check;
  3. the locals loop;
  4. the neighbour pass;
  5. the final "no triggers" warning.

  Inputs that make the source throw outside its `try` block end in a `Crash`:
  - `EndlessRecursion`: a cyclic chain;
  - `NoGroup`: a representative with no `triggerRef` slot, at line 358;
  - `NoTagValue`: a first tag with no `[Tags]` value, at line 372;
  - `UndefinedLink`: a trigger value with no link field, at line 392.

Edge colours are kept only as their `colorType` tag (`Enable`, `Disable`,
`Destroy`, `Force`, `Link`).

The `<none>` test differs between two lines of `parseMapFile`, and the model
keeps both:
- the parent map (line 330) compares the raw `link` field;
- the link edge (line 392) compares its trimmed form.

## Model

| member | source | states |
|---|---|---|
| Waypoint.ConvertWaypoint | Trigger-Analyzer/main.js:273-280 | The loop computes the bijective base-26 value of the string minus one, and this is never negative for a non-empty `A..Z` name; for names of at most eleven characters every value the accumulator takes is below 2^53 |
| Waypoint.ElevenLettersAreSafe | Trigger-Analyzer/main.js:277 | The accumulator of an eleven-character name stays below 2^53, where JavaScript numbers are exact integers |
| Waypoint.LetterValue | Trigger-Analyzer/main.js:274-277 | `alp.indexOf(c) + 1` is at most 26, and at least 1 exactly for capital letters |
| Waypoint.ValueOfAppend | Trigger-Analyzer/main.js:276-277 | One more letter multiplies the value so far by 26 and adds that letter's value |
| Waypoint.ValueOfLetters | Trigger-Analyzer/main.js:273-280 | Writing a value out in letters and reading it back gives the value |
| Waypoint.LettersOfValue | Trigger-Analyzer/main.js:273-280 | Reading a letter string and writing the value out again gives the string back |
| Waypoint.NumberOfWaypointName | Trigger-Analyzer/main.js:273-280 | Every waypoint number is decoded from its name |
| Waypoint.WaypointNameOfNumber | Trigger-Analyzer/main.js:273-280 | Every well-formed name decodes to a number whose name it is, so decoding is a bijection |
| Waypoint.WaypointExamples | Trigger-Analyzer/main.js:273-280 | "A" is 0, "Z" is 25 and "AA" is 26 |
| JsText.Split | Trigger-Analyzer/main.js:444 | A split gives at least one piece, and no piece contains the separator |
| JsText.JoinSplit | Trigger-Analyzer/main.js:444 | Splitting loses nothing: joining the pieces gives back the text |
| JsText.SplitJoin | Trigger-Analyzer/main.js:444 | Separator-free pieces, joined and split again, come back unchanged |
| JsText.Trim | Trigger-Analyzer/main.js:392 | `trim` returns the input with exactly its leading and trailing `\s` runs removed: an infix that starts after the leading spaces, is followed only by spaces, and neither starts nor ends with one |
| JsText.TrimOfPadded | Trigger-Analyzer/main.js:392 | Conversely, any string with no space at either end, padded with spaces on both sides, trims back to itself |
| JsText.ParseInt | Trigger-Analyzer/main.js:448-449 | `parseInt` of a blank string is NaN, and a negative result needs a '-' sign; `ParseIntOfNumeral` shows it reads back every numeral |
| JsText.ParseIntOfNumeral | Trigger-Analyzer/main.js:448-449 | `parseInt` reads back the decimal numeral of every integer |
| OrderedMap.Put | Trigger-Analyzer/main.js:405 | Writing a key binds it and leaves every other key's value alone; a new key goes to the end of the order, an old one keeps its place |
| OrderedMap.Values | Trigger-Analyzer/main.js:437 | `Array.from(nodes.values())` lists one value per key, in key order |
| OrderedMap.ForInOrder | Trigger-Analyzer/main.js:328 | `for ... in` visits each key as often as it was inserted: array-index keys first, in ascending numeric order |
| OrderedMap.ForInOrderKeepsOthers | Trigger-Analyzer/main.js:328 | Keys that are not array indices keep their insertion order |
| OrderedMap.ForInOrderMembers | Trigger-Analyzer/main.js:328 | The enumeration visits exactly the inserted keys |
| Ini.SplitLines | Trigger-Analyzer/main.js:290 | No line contains CR or LF, and every line but the first and last is non-empty, because runs of line breaks collapse |
| Ini.SplitJoinedLines | Trigger-Analyzer/main.js:290 | Lines without line breaks, non-empty except possibly at the ends, survive a join and split |
| Ini.ParamMatch | Trigger-Analyzer/main.js:286 | A matched pair has a non-empty key without '=' and a trimmed value without line terminators |
| Ini.HeaderMatch | Trigger-Analyzer/main.js:285 | A matched header name contains no ']' |
| Ini.ParamLineRoundTrip | Trigger-Analyzer/main.js:286-297 | `key=value` with a trimmed key (no '=', no leading ';') and a trimmed value is classified as that pair |
| Ini.HeaderLineNotParam | Trigger-Analyzer/main.js:294-303 | For a name without '=', `[name]` is neither a comment nor a pair, so the header test is reached |
| Ini.HeaderLineRoundTrip | Trigger-Analyzer/main.js:303-304 | `[name]` is classified as a header for that name |
| Ini.Classify | Trigger-Analyzer/main.js:294-308 | The comment test wins whenever it matches; a line is blank exactly when it is empty; a pair has a non-empty key without '=' and a trimmed value; a header name has no ']' |
| Ini.Step | Trigger-Analyzer/main.js:293-309 | One line keeps the result well-formed, and the current section stays bound to a section object |
| Ini.ParseIni | Trigger-Analyzer/main.js:283-313 | The result and each section in it are well-formed ordered maps |
| Ini.ParseLinesAppend | Trigger-Analyzer/main.js:293 | Parsing two runs of lines is parsing the first and then the second from where it left off |
| Ini.CommentsIgnored | Trigger-Analyzer/main.js:294 | Removing the comment lines does not change the result |
| Ini.StepInSection | Trigger-Analyzer/main.js:298-299 | Inside a section, a pair rebinds only its own key in that section, and a comment changes nothing |
| Ini.SectionHoldsLastValues | Trigger-Analyzer/main.js:298-306 | After a header and its pairs, the section holds, for each key, the value of the last pair for it |
| Ini.StepAtTopLevel | Trigger-Analyzer/main.js:294-308 | Outside every section, a pair binds its key at the top level to the value as a string and no other line but a header changes the top level or opens a section |
| Ini.TopLevelHoldsLastValues | Trigger-Analyzer/main.js:293-308 | Before the first header, each key at the top level holds the value of the last pair for it, and other keys keep their earlier binding |
| Ini.ParseIniWithoutSections | Trigger-Analyzer/main.js:283-313 | A file with no header parses to the top-level keys of its pairs, each bound to the value of its last pair |
| Ini.HeaderOpensSection | Trigger-Analyzer/main.js:303-306 | A header leaves its section empty and current, so a repeated header drops the earlier keys |
| UnionFind.FindRep | Trigger-Analyzer/main.js:335-340 | `findRep` returns exactly when the parent chain reaches a fixed point, and returns that fixed point; `FindRepResult` and `RepIsRootOf` add what compression does |
| UnionFind.FindRepResult | Trigger-Analyzer/main.js:336-339 | The result is the chain's fixed point, it is a fixed point of the compressed map, and every value on the chain now points straight at it |
| UnionFind.FindRepRedirectsTree | Trigger-Analyzer/main.js:337 | Compression changes only the parents of values in the representative's tree, and only to the representative |
| UnionFind.FindRepIdempotent | Trigger-Analyzer/main.js:335-340 | A second call returns the same representative and leaves the map as it was |
| UnionFind.CompressKeepsRoots | Trigger-Analyzer/main.js:337 | Every value reaches the same fixed point before and after a compression |
| UnionFind.CompressKeepsReps | Trigger-Analyzer/main.js:337 | Compression preserves the representative of every value, not only of the one looked up |
| UnionFind.RepIsRootOf | Trigger-Analyzer/main.js:335-340 | The representative is exactly the fixed point of the chain |
| Streams.ParseEvents | Trigger-Analyzer/main.js:441-490 | A falsy value gives no events; otherwise there are at least a quarter and at most a third (rounded up) as many events as tokens after the count, each with one or two parameters; `ParseEventsRoundTrip` shows it inverts the token encoding |
| Streams.ReadEvent | Trigger-Analyzer/main.js:447-457 | A record has two parameters exactly when its flag parses to 2, and one otherwise; the cursor moves by 4 or by 3 |
| Streams.DecodeEvents | Trigger-Analyzer/main.js:447-487 | The number of events is bounded above and below by the tokens left, and every event has one or two parameters |
| Streams.ParseEventsRoundTrip | Trigger-Analyzer/main.js:441-490 | Any events written as tokens after a count are decoded back exactly, whatever the count says |
| Streams.EventEdge | Trigger-Analyzer/main.js:460-484 | An edge is drawn into the trigger for opcodes 36, 37, 27 and 28 only: from `L<p0>` (36/37) or `G<p0>` (27/28), with enable for 36/27 and disable for 37/28, dashed and one-way |
| Streams.EventGlobal | Trigger-Analyzer/main.js:472-474 | Opcodes 27 and 28, and only they, register the global their edge comes from |
| Streams.ReadAction | Trigger-Analyzer/main.js:501-506 | An action has exactly seven parameters, each the token in its slot or '' when the token is missing or empty |
| Streams.DecodeActions | Trigger-Analyzer/main.js:500-539 | The loop yields no more actions than the count allows, each with seven parameters |
| Streams.DecodeActionsCount | Trigger-Analyzer/main.js:500 | The loop yields exactly the smaller of the count and the number of (possibly partial) eight-token records |
| Streams.ParseActions | Trigger-Analyzer/main.js:493-498 | Every action parsed from a value has seven parameters |
| Streams.ParseActionsRoundTrip | Trigger-Analyzer/main.js:493-542 | Actions written as tokens after the numeral of `n` are decoded back, truncated to the first `n` |
| Streams.ParseActionsOfParts | Trigger-Analyzer/main.js:496-500 | A numeric count token makes the loop start at the token after it with that count |
| Streams.ParseActionsNaNCount | Trigger-Analyzer/main.js:498-500 | A count that is not a number yields no actions, whatever follows |
| Streams.ActionEdge | Trigger-Analyzer/main.js:509-536 | An edge leaves the trigger for opcodes 12, 22, 53, 54, 56, 57, 28 and 29 only, to `p[1]` with an `L` prefix (56/57), a `G` prefix (28/29) or none, dashed exactly for the variable opcodes |
| Streams.ActionGlobal | Trigger-Analyzer/main.js:524-525 | Opcodes 28 and 29, and only they, register the global their edge points at |
| MapModel.AddGlobal | Trigger-Analyzer/main.js:545-565 | `G<id>` is then a taken id and a node. A new id adds a global node and changes no other node; a taken id changes nothing |
| MapModel.AddGlobalIdempotent | Trigger-Analyzer/main.js:545-565 | Registering the same global twice is the same as registering it once |
| MapModel.ApplyEventsEffect | Trigger-Analyzer/main.js:460-486 | Applying events appends exactly their edges, in order, keeps every existing node, and leaves a node `G<p0>` for each event with opcode 27 or 28 |
| MapModel.ApplyActionsEffect | Trigger-Analyzer/main.js:520-536 | Applying actions appends exactly their edges, in order, keeps every existing node, and leaves a node `G<p[1]>` for each action with opcode 28 or 29 |
| MapModel.InitialRefs | Trigger-Analyzer/main.js:328-332 | Before the tags, each trigger has an empty tag group |
| MapModel.StringAsObject | Trigger-Analyzer/main.js:328 | A member bound to a string is enumerated as its index keys "0", "1", ..., each bound to one character |
| MapModel.Member | Trigger-Analyzer/main.js:328 | `config.<name>` is missing exactly when the name is unbound, and a section reads as itself |
| MapModel.TagPhase | Trigger-Analyzer/main.js:343-351 | The tag loop only ever fails with endless recursion, keeps every representative, and only appends warnings; `TagPhaseGroups` gives its groups |
| MapModel.AttachTag | Trigger-Analyzer/main.js:343-351 | One tag crashes exactly when its trigger's chain never ends. Otherwise it is appended to its representative's group, or it adds exactly one "refers to non-existent trigger" warning and attaches nothing; no representative changes |
| MapModel.TagPhaseFails | Trigger-Analyzer/main.js:343-345 | The tag loop crashes exactly when some tag's trigger chain never reaches a fixed point |
| MapModel.TagPhaseGroups | Trigger-Analyzer/main.js:343-351 | After the tag loop, each group lists, in tag order, the tags whose trigger has that representative, and the warnings name, in order, the tags with no group |
| MapModel.TagWarningsOnly | Trigger-Analyzer/main.js:347 | The tag loop issues only "refers to non-existent trigger" warnings |
| MapModel.EventsOf | Trigger-Analyzer/main.js:385 | Reading a trigger's events throws exactly when `config.Events` is missing or the trigger is named `length` and `config.Events` is a non-empty string |
| MapModel.ActionsOf | Trigger-Analyzer/main.js:385-386 | The actions are read only after the events, and throw exactly when `config.Actions` is missing or a string whose non-zero `length` the trigger's id reads |
| MapModel.StringMemberLength | Trigger-Analyzer/main.js:385 | With a non-empty string `Events=` pair, a trigger named `length` cannot have its events parsed, an empty string gives it none, and index keys read single characters |
| MapModel.RunStreams | Trigger-Analyzer/main.js:384-390 | The `try` block appends the events' and actions' edges and keeps every node. Its one warning is issued exactly when the actions could not be read |
| MapModel.LinkEdges | Trigger-Analyzer/main.js:392-400 | A two-way link edge from the trigger to its link is drawn exactly when the trimmed link is not `<none>` |
| MapModel.MakeTrigger | Trigger-Analyzer/main.js:363-377 | The trigger node carries its id, its group's tags, the given repeat and its link, with no neighbours |
| MapModel.AddTriggerNode | Trigger-Analyzer/main.js:402-407 | A taken id adds one "duplicated" warning and leaves the nodes alone (the first wins); a fresh id adds the node and the id |
| MapModel.PlaceTrigger | Trigger-Analyzer/main.js:363-407 | Crashes exactly when the first tag has no value or the link field is missing. Otherwise it appends the events', actions' and link edges, in order, and either warns "duplicated" or stores the trigger node with its repeat from the group's first tag |
| MapModel.TriggerPlacedWarnings | Trigger-Analyzer/main.js:384-407 | A trigger whose id is taken gets exactly the `try` warning and the "duplicated" warning; otherwise it gets only the `try` warning and becomes the node |
| MapModel.ProcessTrigger | Trigger-Analyzer/main.js:354-361 | One iteration crashes with endless recursion exactly when the trigger's chain never ends, and with a missing group exactly when its representative has none |
| MapModel.ProcessTriggerOutcome | Trigger-Analyzer/main.js:356-407 | An empty group gives exactly one "doesn't have any tags" warning and no node or edge; a non-empty one takes the id and either warns that it is duplicated or stores a trigger node carrying that group |
| MapModel.ProcessTriggerCrash | Trigger-Analyzer/main.js:356-392 | With the tag loop's groups, an iteration crashes exactly when the trigger is not `TriggerOk`, and never for a missing tag value |
| MapModel.TriggerPhase | Trigger-Analyzer/main.js:354-408 | The trigger loop keeps every node and id and every representative, and only appends edges and warnings; `TriggerPhaseOutcome` gives each trigger's result |
| MapModel.TriggerPhaseOutcome | Trigger-Analyzer/main.js:354-408 | After the trigger loop, every trigger has its warning or its node, as its group decides |
| MapModel.TriggerPhaseCrash | Trigger-Analyzer/main.js:354-408 | The trigger loop succeeds exactly when every trigger is `TriggerOk` |
| MapModel.TriggerStageSucceeds | Trigger-Analyzer/main.js:354-408 | After the tag loop, the trigger loop succeeds exactly when every trigger's chain ends at a trigger and every trigger with tags has a link field (`TriggersBuildable`), a condition on the input sections alone |
| MapModel.LocalNode | Trigger-Analyzer/main.js:412-420 | A local-variable node has id `L<id>` and no neighbours |
| MapModel.LocalNodes | Trigger-Analyzer/main.js:411-421 | One local node per `[VariableNames]` key, in order |
| MapModel.LocalNodesConsistent | Trigger-Analyzer/main.js:413-414 | Two locals with the same node id are the same node, so storing them in any order gives one result |
| MapModel.PutAllKeys | Trigger-Analyzer/main.js:411-421 | The locals loop binds exactly the old ids and the locals' ids |
| MapModel.PutAllWritten | Trigger-Analyzer/main.js:413 | Every local is stored under its id, so a local replaces a trigger with the same id |
| MapModel.AddNeighbour | Trigger-Analyzer/main.js:428-429 | `neighbour.add` adds the id exactly once and changes nothing else |
| MapModel.Connect | Trigger-Analyzer/main.js:424-431 | An edge makes its two ends neighbours when both are nodes, and touches nothing for a dangling edge |
| MapModel.NeighbourPass | Trigger-Analyzer/main.js:424-431 | The neighbour pass keeps the node ids and their order; `NeighbourPassEffect` gives the neighbours it adds |
| MapModel.NeighbourPassEffect | Trigger-Analyzer/main.js:424-431 | After the pass, a node's neighbours are its old ones plus the nodes some edge joins it to, with no repeats; nothing else changes |
| MapModel.FinishIds | Trigger-Analyzer/main.js:411-437 | The result's node ids are the trigger loop's and the locals' |
| MapModel.FinishLocals | Trigger-Analyzer/main.js:411-421 | Every local is a node of the result, as built |
| MapModel.FinishTriggers | Trigger-Analyzer/main.js:402-421 | Every result node whose id no local took is the node from the trigger loop, as built |
| MapModel.FinishNeighbours | Trigger-Analyzer/main.js:423-437 | Each result node's neighbours are exactly the nodes an edge joins it to, listed once each, and ids are unique |
| MapModel.FinishNeighboursSymmetric | Trigger-Analyzer/main.js:424-431 | Being neighbours is symmetric, and neighbours are always nodes |
| MapModel.ParseMapFile | Trigger-Analyzer/main.js:316-438 | `parseMapFile` returns a model exactly when the parsed sections are `Buildable`, never fails on a missing tag value, and returns a symmetric neighbour relation |
| MapModel.BuildModel | Trigger-Analyzer/main.js:316-438 | The builder on a parsed configuration succeeds exactly when its sections are `Buildable`, and never throws at line 372 |
| MapModel.BuildFrom | Trigger-Analyzer/main.js:433-437 | A returned model carries the "no triggers" warning exactly when asked, and then as the last warning |
| MapModel.BuildFromSucceeds | Trigger-Analyzer/main.js:316-438 | The builder returns a model exactly when the configuration is `Buildable`: every tag's and trigger's chain ends, every trigger's chain ends at a trigger, and every trigger with tags has a link field |
| MapModel.BuildFromNoTagValue | Trigger-Analyzer/main.js:372 | The builder never crashes for a missing first-tag value, because group members are always `[Tags]` keys |
| MapModel.BuildFromTagWarnings | Trigger-Analyzer/main.js:343-351 | The result's warnings open with one "tag without trigger" warning per orphaned tag, in tag order |
| MapModel.BuildFromTriggers | Trigger-Analyzer/main.js:354-408 | Every trigger with an empty group has its "no tags" warning in the result, and every other trigger's id is a node id |
| MapModel.BuildModelNoTriggers | Trigger-Analyzer/main.js:433-435 | The "no triggers" warning appears exactly when `config.Triggers` is missing, or bound to the empty string by a top-level `Triggers=` pair, and then it comes last; an empty `[Triggers]` section is a truthy object and does not warn |
| MapModel.BuildModelNeighbours | Trigger-Analyzer/main.js:316-437 | In a returned model, neighbours are exactly the edge-joined nodes, with no repeats; the relation is symmetric and names only nodes, and node ids are unique |

## Left out

- Colours, theming and the DOM are left out: `getTriggerColor`, the colour literals in `addGlobalVariable` and the red border of a disabled trigger. They depend on the page. An edge keeps only its `colorType`, and `DrawnDisabled` says when the border would be red.
- Presentation fields are left out: a node's `shape` and `mass`, an edge's `arrows` string (kept as `bothWays`) and `dashes` (kept as `dashed`). They do not affect the graph's structure.
- `console.error` is left out because it is output only. The warning that accompanies it is modelled.
- The UI around the builder is left out: the vis.js network, `fetch` of the opcode names, the info panels, `filterNode` and the page wiring. They are I/O or an external library.
- Strings are sequences of characters, not UTF-16 code units. Surrogate pairs, which the source would count as two, are not modelled.
- `parseInt` is exact on unbounded integers. Rounding of numerals beyond 2^53 is not modelled because it is floating point. `parseInt` results are compared as numbers, so NaN is `None` and -0 is 0.
- Keys inherited from `Object.prototype` are not modelled (`__proto__`, `constructor`, `toString`, ...). On a plain object such keys read a function instead of `undefined`.
- Stack depth is not modelled. A very long but acyclic `link` chain returns here, where the source could exhaust the stack.
- A node's `neighbour` `Set` is a sequence in insertion order. Its contents and the absence of repeats are stated; JavaScript's `Set` iteration order is the same.
- A top-level `Triggers=...`, `Tags=...`, `Events=...`, `Actions=...` or `VariableNames=...` pair binds a string where a section is expected. That string is read through its character indices, as `for ... in` and indexing would read it. Its own `length` key is modelled where the builder can look it up: a trigger named `length` reads the string's length from `config.Events` and `config.Actions`. Keys that a string inherits from `String.prototype` (`split`, `at`, `charAt`, ...) are not modelled, like those of `Object.prototype`.
- Waypoint.ConvertWaypoint: computes with exact integers. The source's accumulator is a JavaScript number, which rounds once it passes 2^53, from names of twelve or more letters. The contract proves agreement only for names of at most eleven characters.
- Streams.ParseEventsRoundTrip: covers only events whose parameters are comma-free strings and whose flag token is the numeral 0 or 2. These are the event lists that have a token encoding.
- Streams.ParseActionsRoundTrip: covers only actions with seven comma-free parameters and a numeric opcode. These are the action lists that have a token encoding.

# StandardsValidator core, modelled in Dafny

StandardsValidator checks Morrowind plugin files (`.esp`/`.esm`) against the
Tamriel Rebuilt and Project Tamriel modding standards. A parser turns the
file into a sequence of records. One forward pass over those records drives
a set of rules, and each rule prints the problems it finds.

This project models that pass and four of its rules as pure functions. It
also models the shared helpers they use.

- **Wrappers** (`wrappers.dfy`): `Option`.
- **Text** (`text.dfy`): the Rust string operations the code relies on:
  - `trim`, with Unicode White_Space;
  - `split`, `split_once`;
  - ASCII lower-casing and `eq_ignore_ascii_case`;
  - decimal formatting of integers.
- **Esp** (`esp.dfy`): the parsed records, reduced to the fields the rules read.
  - `Float` keeps IEEE ordering, infinities and NaN, but not rounding.
  - `Record` has one constructor per record kind the driver matches on.
- **Util** (`util.dfy`, for `src/util.rs`):
  - the 8192-unit exterior grid and the floor-division grid lookup;
  - the case-insensitive prefix test and cell display names;
  - `is_dead` and `is_persistent`.
- **Validators** (`validators.dfy`, for `src/validators.rs`): the traversal driver. `Validate` maps a
  record sequence to the ordered trace of events the rules observe:
  - one record event per record that is not inert;
  - placement, inventory, leveled, info and script-line events;
  - a closing end event.
  The driver threads the current dialogue topic, which starts as an empty-id
  dummy. It splits script text into lines and each line at its first `;`.
- **Cells** (`cells.dfy`, for `src/validators/cells.rs`): the cell rule.
  - Zero fog density.
  - Path-grid duplicate and unconnected nodes.
  - Far-out and out-of-bounds placements.
  - The broken-id table.
  - Above-water black squares, de-duplicated through a growing `seen` set that is threaded explicitly.
- **Missing** (`missing.dfy`, for `src/validators/missing.rs`): the field rule, which checks icons, meshes and names per record kind.
- **Supplies** (`supplies.dfy`, for `src/validators/supplies.rs`): the supply-chest rule, which checks faction ownership and rank.
- **ToDo** (`todo.dfy`, for `src/validators/todo.rs`): the comment rule. The pattern
  `(^(todo|fixme|to do|fix me))|(^|\s)merge` is written as a predicate, with
  a scanning method proved equivalent to it.
- **Handlers** (`handlers.dfy`): the rules together. Each trace event is
  offered to every rule in order. A run folds the rules' state and
  concatenates their findings.

Printed messages become `Finding` values. Each rule has its own `Finding`
datatype, and the cell names inside them are modelled exactly.

The code compares the number of path-grid nodes with the size of the
connected set using `!=`, and the model follows the code. An isolated node
is not always reported, because a connection naming a node that does not
exist still counts towards the connected set. The set can then reach the
node count while a real node is left unconnected. `Cells.OutOfRangeConnectionHidesNode` shows
such a case. `Cells.CountGuardExact` proves that the count comparison is
exact whenever every connection names an existing node.

## Model

| member | source | states |
|---|---|---|
| Text.Trim | src/validators.rs:264 | the result is bounded by non-whitespace characters, uses only characters of the input, and is empty exactly when the input is all whitespace |
| Text.TrimIsInfix | src/validators.rs:264 | the result is a contiguous infix of the input with only whitespace before and after it |
| Text.TrimUnique | src/validators.rs:264 | any infix with only whitespace around it and non-whitespace at its ends is the trimmed result, so trimming is fully determined |
| Text.SplitOnce | src/validators.rs:267 | `Some` exactly when the separator occurs; then the input is the part before, the separator and the part after, and the part before holds no separator |
| Text.Split | src/validators.rs:264 | at least one piece, no piece holds the separator, and joining the pieces with the separator gives back the input |
| Text.SplitJoin | src/validators.rs:264 | the converse round trip: splitting the join of separator-free pieces gives back those pieces |
| Text.LowerProperties | src/validators.rs:281 | ASCII lower-casing keeps the length and emptiness, yields an ASCII-lower-case string and is idempotent |
| Util.SaturateI32 | src/util.rs:64-65 | Rust's saturating `as i32`: the value itself in range, else the nearest bound |
| Util.GetCellGrid | src/util.rs:62-67 | when the index fits an `i32`, each coordinate lies in the half-open box `[8192*g, 8192*(g+1))` of its grid index |
| Util.CellIndexOfBox | src/util.rs:62-67 | the converse: a grid index whose box holds the coordinate is the index computed |
| Util.CiStartsWith | src/util.rs:69-74 | false when the prefix is longer than the string; otherwise true exactly when the first bytes match the prefix ignoring ASCII case |
| Util.CiStartsWithSelf | src/util.rs:69-74 | the empty prefix always matches, and every string is a prefix of any extension of itself |
| Util.ExteriorBaseName | src/util.rs:52-55 | the cell id when non-empty, else the region, else the empty string |
| Util.GetCellName | src/util.rs:48-60 | interior: the id verbatim; exterior: `x,y` when the base name is empty, otherwise `name x,y` |
| Util.IsDeadOnlyForCreaturesAndNpcs | src/util.rs:5-22 | dead only for a creature whose data has health 0, or an NPC whose data and stats are present with health 0 |
| Util.IsPersistentIff | src/util.rs:24-46 | persistent exactly for the eighteen placeable kinds carrying the persistent flag |
| Validators.DecomposeLine | src/validators.rs:265-276 | the code part holds no `;` and has no leading or trailing whitespace |
| Validators.DecomposeLineSplitsAtFirst | src/validators.rs:267-275 | with a `;`, the line is the text before the first `;`, the `;` and the comment verbatim, and the code is that text trimmed; without one, the comment is empty and the code is the trimmed line |
| Validators.LowerCode | src/validators.rs:281 | lower-casing the code keeps the comment, the length, the absence of `;` and the trimmed shape, and makes the code ASCII lower-case |
| Validators.ReportedLine | src/validators.rs:277-285 | a line is reported exactly when its code or comment is non-empty, and it is then well formed and carries the comment unchanged |
| Validators.KeptLine | src/validators.rs:277-285 | a single line yields one script line, with the comment and the lower-cased code, or none when both are empty |
| Validators.KeptLinesAppend | src/validators.rs:264-286 | lines are decided one at a time: the lines kept from a concatenation are the concatenation of the lines kept |
| Validators.ScriptLines | src/validators.rs:262-286 | no more script lines than `'\n'`-separated lines of the trimmed text, each well formed |
| Validators.ScriptEvents | src/validators.rs:261-288 | none for an absent script; otherwise one script-line event per reported line, in order, with the record and the given topic |
| Validators.InventoryEvents | src/validators.rs:249-259 | none for an absent list; otherwise one inventory event per entry, in order |
| Validators.LeveledEvents | src/validators.rs:241-247 | none for an absent list; otherwise one leveled event per entry, in order |
| Validators.Validate | src/validators.rs:47-239 | the trace ends with the end event, and it occurs nowhere else |
| Validators.SubEventsAreNotRecords | src/validators.rs:84-235 | a record's sub-events are never record or end events, and each kind emits only its own kinds of sub-event |
| Validators.RecordEventsShape | src/validators.rs:55-236 | Header, Landscape, LandscapeTexture and Skill emit nothing; every other record emits its record event first and no further record event |
| Validators.EventIds | src/validators.rs:173-189 | magic effects, path grids and the inert kinds pass an empty id; cells, dialogues and infos pass the id of their inner record; every other kind passes its own id |
| Validators.CellEvents | src/validators.rs:84-98 | a cell with n references emits its record event and then n placement events with indices 0 to n-1 in stored order and the lower-cased reference id |
| Validators.InventoryOnlyForHolders | src/validators.rs:107-116 | inventory events only for Container, Creature and NPC; leveled events only for leveled lists |
| Validators.TopicsOfRecord | src/validators.rs:143-148 | an Info passes the topic in force to its info event and script lines; a Script always passes the dummy topic |
| Validators.WalkHasNoEnd | src/validators.rs:54-237 | the pass over the records never emits the end event |
| Validators.WalkAppend | src/validators.rs:53-237 | walking two record runs in turn is walking their concatenation, with the topic carried across |
| Validators.TopicAfterIsCurrent | src/validators.rs:117-121 | starting from the dummy, the topic after a run of records is the most recent Dialogue in it, or the dummy |
| Validators.WalkAt | src/validators.rs:48-121 | record i's events come between those of the earlier and later records and use the most recent preceding Dialogue, or the dummy, as topic |
| Validators.OneRecordEventPerActiveRecord | src/validators.rs:54-236 | the number of record events equals the number of records that are not inert |
| Cells.PathGridName | src/validators/cells.rs:28-42 | `cell x,y` or `x,y` off the origin; otherwise the cell name or the empty string |
| Cells.GetPointCoords | src/validators/cells.rs:44-56 | the local coordinates always; the world coordinates only off the origin, then equal to local plus 8192 times the grid |
| Cells.Connected | src/validators/cells.rs:90-97 | a node is connected exactly when some connection names it or its own connection count is positive |
| Cells.DuplicatesBelow | src/validators/cells.rs:94-112 | exactly the nodes with a later node at the same location, in strictly increasing order |
| Cells.UnconnectedBelow | src/validators/cells.rs:114-124 | exactly the nodes outside the connected set, in strictly increasing order |
| Cells.ScanPathGrid | src/validators/cells.rs:86-124 | the two-pass scan returns the grid's reference findings |
| Cells.FirstPass | src/validators/cells.rs:90-113 | the first loop builds the connected set and the duplicate reports in node order |
| Cells.FindLaterTwin | src/validators/cells.rs:98-112 | the inner loop finds a twin exactly when some later node shares the location |
| Cells.ReportUnconnected | src/validators/cells.rs:115-123 | the second loop reports exactly the unconnected nodes, in order |
| Cells.PathGridDuplicates | src/validators/cells.rs:94-112 | a node gets a duplicate report exactly when a strictly later node has the same location |
| Cells.PathGridUnconnected | src/validators/cells.rs:114-124 | a node gets an unconnected report exactly when it is outside the connected set and the node count differs from the set's size |
| Cells.PathGridOrder | src/validators/cells.rs:86-124 | nothing for absent or empty points; duplicate reports first; each kind in increasing node order, so at most one of each per node |
| Cells.CountGuardExact | src/validators/cells.rs:114 | when every connection names an existing node, the counts differ exactly when some node is unconnected |
| Cells.OutOfRangeConnectionHidesNode | src/validators/cells.rs:90-124 | a connection to a missing node hides an unconnected node: the grid yields no findings |
| Cells.OnRecord | src/validators/cells.rs:68-129 | zero fog is reported exactly for an interior cell with zero fog density outside every project; path grids give their findings; other kinds nothing |
| Cells.BoundsFinding | src/validators/cells.rs:140-179 | findings only for live references in exterior cells; far out wins; otherwise a report exactly when the position lies outside the cell's 8192-unit box, naming the grid cell computed from the position |
| Cells.OutOfBoundsIffOtherCell | src/validators/cells.rs:162-178 | for a checked reference that is not far out and whose grid index fits an `i32`, out of bounds exactly when its grid cell differs from the cell's own, and the named cell holds it |
| Cells.OutOfBoundsSaturated | src/validators/cells.rs:162-178 | when the grid index does not fit an `i32`, the reference is always out of bounds and the named cell is clamped to `i32::MAX` or `i32::MIN` on that axis |
| Cells.OutOfBoundsOwnCellExample | src/validators/cells.rs:162-178 | in cell (2147483647, 0), a reference at x = 2^50 is reported out of bounds and said to belong in (2147483647, 0), its own cell |
| Cells.OutOfBoundsExample | src/validators/cells.rs:140-179 | in cell (0, 0), a reference at (8192.5, 100, 0) should be in (1, 0) |
| Cells.BrokenFinding | src/validators/cells.rs:181-196 | a report exactly when the lower-case id is in the table: plain for an empty replacement, otherwise naming the replacement |
| Cells.GetWaterHeight | src/validators/cells.rs:58-65 | -1 outdoors; the recorded height in an interior with the water flag; none otherwise |
| Cells.AboveWaterOnlyInWateredInteriors | src/validators/cells.rs:197-206 | an above-water black square only occurs in an interior with the water flag and a water height, and its lower-cased id is in the list |
| Cells.BlackSquaresLowerCase | src/validators/cells.rs:16-21 | the black-square ids are lower case |
| Cells.SeenKeyInjective | src/validators/cells.rs:207-208 | for black-square ids, the `name_id` key determines both the cell name and the id |
| Cells.BlackSquareStep | src/validators/cells.rs:197-216 | reported exactly when above water and the key is new; the key is remembered whenever the reference is above water |
| Cells.OnCellRef | src/validators/cells.rs:131-217 | bounds, then broken, then black-square findings; the table unchanged and `seen` only grows |
| Cells.OnCellRefBlackCount | src/validators/cells.rs:197-216 | one placement adds as many black-square reports as new keys |
| Cells.BlackSquaresReportedOncePerKey | src/validators/cells.rs:197-216 | over any run of placements, the black-square reports equal the newly remembered keys, and every above-water key ends up remembered |
| Missing.Check | src/validators/missing.rs:7-15 | missing exactly for a blank value; invalid exactly for a non-blank icon or mesh without `.`; otherwise nothing, so at most one report |
| Missing.NamePassesWhenPresent | src/validators/missing.rs:9 | a non-blank name always passes, with or without a dot |
| Missing.CheckedFieldsByKind | src/validators/missing.rs:19-104 | NPC: name; Activator, Container, Creature, Static: mesh; Door: mesh and name; carryable Light, non-marker Book and the ten item kinds: icon, mesh, name; others nothing |
| Missing.CheckAll | src/validators/missing.rs:19-104 | every report comes from a checked field that failed, and every failing field is reported |
| Missing.OnRecord | src/validators/missing.rs:18-105 | unchecked kinds give nothing; every report carries the record's id |
| Missing.OnRecordReportsFailedFields | src/validators/missing.rs:7-105 | blank fields are reported missing, dot-less icons and meshes invalid, and every report is about a checked field |
| Supplies.OnCellRef | src/validators/supplies.rs:16-49 | nothing when the id is not a chest or the owner and rank are right; not owned exactly when the owner faction is absent or different ignoring ASCII case |
| Supplies.OwnerCaseIrrelevant | src/validators/supplies.rs:26-30 | lower-casing the owner faction does not change the outcome |
| Supplies.RankReportMeansRestrictedRank | src/validators/supplies.rs:39-46 | a rank report means the faction matched and the rank is present and neither 0 nor 4294967295 |
| ToDo.MatchesAt | src/validators/todo.rs:34-36 | the character-by-character comparison agrees with the case-insensitive word predicate |
| ToDo.IsMatch | src/validators/todo.rs:34-36 | the scan answers true exactly when the comment matches the pattern |
| ToDo.NoMergeWithoutM | src/validators/todo.rs:34 | without an `m` or `M` there is no `merge` match |
| ToDo.NoMarkerWithoutLeadingLetter | src/validators/todo.rs:34 | the anchored alternatives need a leading `t` or `f`, so " TODO" does not match them |
| ToDo.MatchingExamples | src/validators/todo.rs:34-36 | "TODO: fix", "Fix me later", "Merge conflict here" and "x merge" match |
| ToDo.NonMatchingExamples | src/validators/todo.rs:34-36 | "undertodo", "Amerge" and " TODO" do not match |
| ToDo.OnScriptLine | src/validators/todo.rs:11-29 | a report exactly for a matching comment on a Script or Info, naming the script, or the info and the topic; the code is not consulted |
| Handlers.Step | src/validators.rs:54-238 | each rule keeps its kind and tables; inventory, leveled, info and end events change nothing |
| Handlers.RunKeepsRules | src/validators.rs:54-237 | a run keeps every rule's kind and tables |
| Handlers.RunAppend | src/validators.rs:54-237 | running two traces in turn is running their concatenation, for the rules and for the findings |
| Handlers.EndAddsNothing | src/validators.rs:238 | the findings of the whole validation are those of the record pass alone |
| Handlers.StepFindingsAppend | src/validators.rs:54-238 | offering an event to two groups of rules gives the first group's findings, then the second's |
| Handlers.RecordHookHasNoBlackSquares | src/validators/cells.rs:68-129 | the cell rule's record hook never reports a black square |
| Handlers.CellStepBlackCount | src/validators/cells.rs:197-216 | one event adds as many black-square reports as new keys |
| Handlers.BlackSquaresOncePerKeyOverRun | src/validators/cells.rs:197-216 | over any trace, a cell rule's black-square reports equal the keys it newly remembers |
| Handlers.FieldRuleOverRun | src/validators/missing.rs:17-106 | over any trace, the field rule reports what its record hook reports for each record event, in order, and keeps no state |

## Left out

- Output text: messages become `Finding` values. The record type name is dropped from events because only the text uses it. Cell names are modelled exactly.
- Float rounding: `Float` keeps ordering, infinities and NaN but computes on reals. The `f32` to `f64` widening is exact, so only the constants are affected.
- Cells.OutsideSafeRange: compares against the literal ±9007199254740991. The `f32` constant rounds to ±2^53, so a coordinate of exactly ±9007199254740992 counts as far out here but not in the code.
- Cells.GetPointCoords: the world coordinates are computed on unbounded integers. `x_pos + x * 8192` on `i32` can overflow for grids beyond about ±262000; that case is not modelled.
- Cells.ScanPathGrid: the node index cast `i as u32` is taken to be exact. Grids with more than 2^32 points are not modelled.
- The order in which a cell's reference map yields its values is not modelled. `Cell.references` is that order, given.
- Project matching (`Context::projects`, `matches`) is a function parameter `projectMatches`. How projects match ids is not part of this model.
- `is_marker` is not part of this model. A Book's `marker` field stands for its answer.
- `Cell::is_interior` and `is_exterior` are not part of this model. `Cell.interior` stands for them.
- The generated tables (`gen_broken.rs`, `gen_supplies.rs`) are map parameters `broken` and `chests`.
- The `Handler` trait and the `Handlers` dispatcher are not part of this model. `Handlers` stands for them as an ordered broadcast to a list of the four rules modelled here. None of those rules has an end, info, inventory or leveled hook.
- Regex engine: the pattern is a predicate over the string.
  - `\s` is Unicode White_Space, as the regex crate uses by default.
  - Case folding is ASCII. No non-ASCII character simple-folds to any letter of "todo", "fixme", "to do", "fix me" or "merge".
  - Regex construction failure is left out, since the pattern is a constant.
- The other twenty validator modules, `Validator::new`, command-line handling and rule selection are left out.
- The binary plugin parser is left out. Records carry only the fields the modelled rules read.
- Cells.CountGuardExact: assumes every connection names an existing node. Without that assumption, the count comparison can hide an unconnected node (`Cells.OutOfRangeConnectionHidesNode`).
- Cells.OutOfBoundsIffOtherCell: states the "other cell" reading only when the grid index fits an `i32`. Beyond that (coordinates past about ±1.76e13 but inside the ±2^53 far-out limit) the named cell is clamped. It can then be the reference's own cell, as `Cells.OutOfBoundsSaturated` and `Cells.OutOfBoundsOwnCellExample` state.
- Util.GetCellGrid: the box property is stated only when the index fits an `i32`. Outside that range the cast saturates, which `Util.SaturateI32` states.

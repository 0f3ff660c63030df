/**
 * The traversal driver (`Validator::validate`): one forward pass over the
 * records producing the ordered trace of events the rules observe. The
 * calls into the rule dispatcher become the events of the trace.
 */
module Validators {
  import opened Wrappers
  import opened Text
  import opened Esp

  /** Process-wide read-only configuration (`Context`): whether some
      configured project matches an id. How projects match is not part of
      this model. */
  datatype Context = Context(projectMatches: string -> bool)

  /** A script line split at its first ';': code trimmed and lower-cased, comment verbatim. */
  datatype ScriptLine = ScriptLine(code: string, comment: string)

  /** One call into the rule dispatcher. */
  datatype Event =
    | RecordSeen(record: Record, id: string)
    | CellRefSeen(cell: Cell, reference: Reference, id: string, refs: seq<Reference>, index: nat)
    | InventorySeen(record: Record, item: InventoryEntry)
    | LeveledSeen(record: Record, entry: LeveledEntry)
    | InfoSeen(info: Info, topic: Dialogue)
    | ScriptLineSeen(record: Record, code: string, comment: string, topic: Dialogue)
    | End

  /** The topic in force before any Dialogue record: an empty-id dummy. */
  const NoTopic: Dialogue := Dialogue.Dialogue("", {}, None)

  /** Splits one line at its first ';' (`str::split_once`). */
  function DecomposeLine(line: string): (l: ScriptLine)
    ensures ';' !in l.code
    ensures l.code == [] || (!IsWhitespace(l.code[0]) && !IsWhitespace(l.code[|l.code| - 1]))
  {
    if ';' in line then
      var k := IndexOf(line, ';');
      TrimKeepsOut(line[..k], ';');
      ScriptLine(Trim(line[..k]), line[k + 1..])
    else
      TrimKeepsOut(line, ';');
      ScriptLine(Trim(line), [])
  }

  /** The comment is everything after the first ';' and the code is the
      trimmed text before it; without a ';' the whole line is code. */
  lemma DecomposeLineSplitsAtFirst(line: string)
    ensures var l := DecomposeLine(line);
      && (';' in line ==>
            exists before :: ';' !in before && line == before + [';'] + l.comment && l.code == Trim(before))
      && (';' !in line ==> l.comment == [] && l.code == Trim(line))
  {
    if ';' in line {
      var k := IndexOf(line, ';');
      var before := line[..k];
      assert line == before + [';'] + line[k + 1..];
    }
  }

  lemma TrimKeepsOut(s: string, c: char)
    requires c !in s
    ensures c !in Trim(s)
  {
  }

  /** A decomposed line is worth reporting when it has code or a comment. */
  predicate IsKept(l: ScriptLine) {
    l.code != [] || l.comment != []
  }

  /** Lower-cases the code of a line, keeping its shape. */
  function LowerCode(l: ScriptLine): (m: ScriptLine)
    requires ';' !in l.code
    requires l.code == [] || (!IsWhitespace(l.code[0]) && !IsWhitespace(l.code[|l.code| - 1]))
    ensures m.comment == l.comment && |m.code| == |l.code|
    ensures IsAsciiLowercase(m.code) && ';' !in m.code
    ensures m.code == [] || (!IsWhitespace(m.code[0]) && !IsWhitespace(m.code[|m.code| - 1]))
    ensures IsKept(l) ==> WellFormedLine(m)
  {
    LowerProperties(l.code);
    var code := Lower(l.code);
    assert forall i :: 0 <= i < |code| ==> code[i] == ToAsciiLower(l.code[i]);
    forall i | 0 <= i < |code| ensures code[i] != ';' && (IsWhitespace(code[i]) <==> IsWhitespace(l.code[i])) {
      ToAsciiLowerKeepsClass(l.code[i]);
    }
    ScriptLine(code, l.comment)
  }

  /** A well-formed reported line: non-empty, its code trimmed, lower-case and free of ';'. */
  predicate WellFormedLine(l: ScriptLine) {
    && IsKept(l)
    && ';' !in l.code
    && IsAsciiLowercase(l.code)
    && (l.code == [] || (!IsWhitespace(l.code[0]) && !IsWhitespace(l.code[|l.code| - 1])))
  }

  /** What one line of script text reports: nothing, or its decomposition
      with the code lower-cased. */
  function ReportedLine(line: string): (r: seq<ScriptLine>)
    ensures |r| <= 1
    ensures IsKept(DecomposeLine(line)) <==> |r| == 1
    ensures |r| == 1 ==> WellFormedLine(r[0]) && r[0].comment == DecomposeLine(line).comment
  {
    var l := DecomposeLine(line);
    if IsKept(l) then [LowerCode(l)] else []
  }

  /** The reported lines among `lines`, in order. */
  function KeptLines(lines: seq<string>): (r: seq<ScriptLine>)
    ensures |r| <= |lines|
    ensures forall i :: 0 <= i < |r| ==> WellFormedLine(r[i])
  {
    if lines == [] then []
    else
      var head := ReportedLine(lines[0]);
      var rest := KeptLines(lines[1..]);
      WellFormedConcat(head, rest);
      head + rest
  }

  lemma WellFormedConcat(a: seq<ScriptLine>, b: seq<ScriptLine>)
    requires forall i :: 0 <= i < |a| ==> WellFormedLine(a[i])
    requires forall i :: 0 <= i < |b| ==> WellFormedLine(b[i])
    ensures forall i :: 0 <= i < |a + b| ==> WellFormedLine((a + b)[i])
  {
  }

  /** A single line is reported exactly when its code or its comment is non-empty. */
  lemma KeptLine(line: string)
    ensures IsKept(DecomposeLine(line)) ==> |KeptLines([line])| == 1
    ensures !IsKept(DecomposeLine(line)) ==> KeptLines([line]) == []
    ensures IsKept(DecomposeLine(line)) ==>
      KeptLines([line])[0].comment == DecomposeLine(line).comment &&
      KeptLines([line])[0].code == Lower(DecomposeLine(line).code)
  {
    assert [line][1..] == [];
  }

  /** Lines are decided one by one: the reported lines of a concatenation are
      the concatenation of the reported lines. */
  lemma {:induction false} KeptLinesAppend(a: seq<string>, b: seq<string>)
    ensures KeptLines(a + b) == KeptLines(a) + KeptLines(b)
    decreases |a|
  {
    if a != [] {
      assert (a + b)[1..] == a[1..] + b;
      KeptLinesAppend(a[1..], b);
    } else {
      assert a + b == b;
    }
  }

  /** The lines `on_script` reports for a script text: the text is trimmed,
      split on '\n', and each line decomposed. */
  function ScriptLines(text: string): (r: seq<ScriptLine>)
    ensures |r| <= |Split(Trim(text), '\n')|
    ensures forall i :: 0 <= i < |r| ==> WellFormedLine(r[i])
  {
    KeptLines(Split(Trim(text), '\n'))
  }

  /** `on_script`: one event per reported line, none for an absent script. */
  function ScriptEvents(record: Record, script: Option<string>, topic: Dialogue): (ev: seq<Event>)
    ensures script.None? ==> ev == []
    ensures forall e :: e in ev ==> e.ScriptLineSeen? && e.record == record && e.topic == topic
    ensures script.Some? ==> |ev| == |ScriptLines(script.value)|
    ensures script.Some? ==> forall i :: 0 <= i < |ev| ==>
      ev[i] == ScriptLineSeen(record, ScriptLines(script.value)[i].code,
                              ScriptLines(script.value)[i].comment, topic)
  {
    match script
    case None => []
    case Some(text) =>
      var lines := ScriptLines(text);
      seq(|lines|, i requires 0 <= i < |lines| => ScriptLineSeen(record, lines[i].code, lines[i].comment, topic))
  }

  /** `on_inventory`: one event per line of a present inventory. */
  function InventoryEvents(record: Record, inventory: Option<seq<InventoryEntry>>): (ev: seq<Event>)
    ensures inventory.None? ==> ev == []
    ensures forall e :: e in ev ==> e.InventorySeen? && e.record == record
    ensures inventory.Some? ==> |ev| == |inventory.value|
    ensures inventory.Some? ==> forall i :: 0 <= i < |ev| ==> ev[i] == InventorySeen(record, inventory.value[i])
  {
    match inventory
    case None => []
    case Some(list) => seq(|list|, i requires 0 <= i < |list| => InventorySeen(record, list[i]))
  }

  /** `on_leveled`: one event per entry of a present leveled list. */
  function LeveledEvents(record: Record, entries: Option<seq<LeveledEntry>>): (ev: seq<Event>)
    ensures entries.None? ==> ev == []
    ensures forall e :: e in ev ==> e.LeveledSeen? && e.record == record
    ensures entries.Some? ==> |ev| == |entries.value|
    ensures entries.Some? ==> forall i :: 0 <= i < |ev| ==> ev[i] == LeveledSeen(record, entries.value[i])
  {
    match entries
    case None => []
    case Some(list) => seq(|list|, i requires 0 <= i < |list| => LeveledSeen(record, list[i]))
  }

  /** One placement event per reference of the cell, in stored order. */
  function CellRefEvents(cell: Cell): (ev: seq<Event>)
    ensures forall e :: e in ev ==> e.CellRefSeen? && e.cell == cell
  {
    var refs := cell.references;
    seq(|refs|, i requires 0 <= i < |refs| => CellRefSeen(cell, refs[i], Lower(refs[i].id), refs, i))
  }

  /** The kinds the driver passes over without any event. */
  predicate IsInert(record: Record) {
    record.Header? || record.Landscape? || record.LandscapeTexture? || record.Skill?
  }

  /** The id each kind passes with its record event: its own id, except for
      magic effects and path grids, which have none. */
  function EventId(record: Record): string {
    if record.Cell? then record.cell.id
    else if record.Dialogue? then record.dialogue.id
    else if record.Info? then record.info.id
    else if record.MagicEffect? || record.PathGrid? || IsInert(record) then []
    else record.id
  }

  /** The events that follow a record's own event: placements of a Cell,
      inventory lines, leveled entries, and the info event and script lines. */
  function SubEvents(record: Record, topic: Dialogue): seq<Event> {
    if record.Cell? then CellRefEvents(record.cell)
    else if record.Container? || record.Creature? || record.Npc? then InventoryEvents(record, record.inventory)
    else if record.LeveledCreature? then LeveledEvents(record, record.creatures)
    else if record.LeveledItem? then LeveledEvents(record, record.items)
    else if record.Info? then [InfoSeen(record.info, topic)] + ScriptEvents(record, record.info.scriptText, topic)
    else if record.Script? then ScriptEvents(record, record.scriptText, NoTopic)
    else []
  }

  /** The events one record produces, given the topic in force: nothing for
      the inert kinds, otherwise its record event and then its sub-events. */
  function RecordEvents(record: Record, topic: Dialogue): seq<Event> {
    if IsInert(record) then [] else [RecordSeen(record, EventId(record))] + SubEvents(record, topic)
  }

  /** The topic after `record`: a Dialogue record opens a new one. */
  function NextTopic(record: Record, topic: Dialogue): Dialogue {
    if record.Dialogue? then record.dialogue else topic
  }

  /** The pass over `records`, threading the current topic. */
  function Walk(records: seq<Record>, topic: Dialogue): seq<Event>
    decreases |records|
  {
    if records == [] then []
    else RecordEvents(records[0], topic) + Walk(records[1..], NextTopic(records[0], topic))
  }

  /** `Validator::validate`: the whole trace, closed by the end event. */
  function Validate(records: seq<Record>): (trace: seq<Event>)
    ensures |trace| >= 1 && trace[|trace| - 1] == End
    ensures forall i :: 0 <= i < |trace| - 1 ==> !trace[i].End?
  {
    WalkHasNoEnd(records, NoTopic);
    Walk(records, NoTopic) + [End]
  }

  // ---------------------------------------------------------------------
  // Properties of the per-record events

  /** The events after a record's own event are never record or end events,
      and each kind produces only its own kinds of sub-event. */
  lemma SubEventsAreNotRecords(record: Record, topic: Dialogue)
    ensures forall e :: e in SubEvents(record, topic) ==> SubEventFits(record, topic, e)
  {
    if record.Cell? {
      SubEventsOfCell(record, topic);
    } else if record.Container? || record.Creature? || record.Npc? {
      SubEventsOfHolder(record, topic);
    } else if record.LeveledCreature? || record.LeveledItem? {
      SubEventsOfLeveled(record, topic);
    } else if record.Info? {
      SubEventsOfInfo(record, topic);
    } else if record.Script? {
      SubEventsOfScript(record, topic);
    } else {
      assert SubEvents(record, topic) == [];
    }
  }

  lemma SubEventsOfCell(record: Record, topic: Dialogue)
    requires record.Cell?
    ensures forall e :: e in SubEvents(record, topic) ==> SubEventFits(record, topic, e)
  {
    assert SubEvents(record, topic) == CellRefEvents(record.cell);
  }

  lemma SubEventsOfHolder(record: Record, topic: Dialogue)
    requires record.Container? || record.Creature? || record.Npc?
    ensures forall e :: e in SubEvents(record, topic) ==> SubEventFits(record, topic, e)
  {
    assert SubEvents(record, topic) == InventoryEvents(record, record.inventory);
  }

  lemma SubEventsOfLeveled(record: Record, topic: Dialogue)
    requires record.LeveledCreature? || record.LeveledItem?
    ensures forall e :: e in SubEvents(record, topic) ==> SubEventFits(record, topic, e)
  {
  }

  lemma SubEventsOfInfo(record: Record, topic: Dialogue)
    requires record.Info?
    ensures forall e :: e in SubEvents(record, topic) ==> SubEventFits(record, topic, e)
  {
    var script := ScriptEvents(record, record.info.scriptText, topic);
    assert SubEvents(record, topic) == [InfoSeen(record.info, topic)] + script;
    forall e | e in SubEvents(record, topic) ensures SubEventFits(record, topic, e) {
      if e != InfoSeen(record.info, topic) {
        assert e in script;
        ScriptLineFits(record, topic, e);
      }
    }
  }

  lemma ScriptLineFits(record: Record, topic: Dialogue, e: Event)
    requires record.Info? || record.Script?
    requires e.ScriptLineSeen?
    requires record.Info? ==> e.topic == topic
    requires record.Script? ==> e.topic == NoTopic
    ensures SubEventFits(record, topic, e)
  {
  }

  lemma SubEventsOfScript(record: Record, topic: Dialogue)
    requires record.Script?
    ensures forall e :: e in SubEvents(record, topic) ==> SubEventFits(record, topic, e)
  {
    var script := ScriptEvents(record, record.scriptText, NoTopic);
    assert SubEvents(record, topic) == script;
    forall e | e in script ensures SubEventFits(record, topic, e) {
      ScriptLineFits(record, topic, e);
    }
  }

  /** What may follow a record's own event: placements only after a Cell,
      inventory lines only after a Container, Creature or NPC, leveled entries
      only after a leveled list, the info event only after an Info with the
      topic in force, and script lines only after an Info (with that topic) or
      a Script (with the dummy topic). */
  predicate SubEventFits(record: Record, topic: Dialogue, e: Event) {
    match e
    case RecordSeen(_, _) => false
    case End => false
    case CellRefSeen(_, _, _, _, _) => record.Cell?
    case InventorySeen(_, _) => record.Container? || record.Creature? || record.Npc?
    case LeveledSeen(_, _) => record.LeveledCreature? || record.LeveledItem?
    case InfoSeen(_, t) => record.Info? && t == topic
    case ScriptLineSeen(_, _, _, t) => (record.Info? && t == topic) || (record.Script? && t == NoTopic)
  }

  /** Inert records emit nothing; every other record emits exactly one record
      event, first, carrying its id. No record emits the end event. */
  lemma RecordEventsShape(record: Record, topic: Dialogue)
    ensures IsInert(record) <==> RecordEvents(record, topic) == []
    ensures !IsInert(record) ==> RecordEvents(record, topic)[0] == RecordSeen(record, EventId(record))
    ensures forall i :: 0 < i < |RecordEvents(record, topic)| ==> !RecordEvents(record, topic)[i].RecordSeen?
    ensures forall e :: e in RecordEvents(record, topic) ==> !e.End?
  {
    if !IsInert(record) {
      RecordEventsTail(record, topic);
    }
  }

  lemma RecordEventsTail(record: Record, topic: Dialogue)
    requires !IsInert(record)
    ensures forall i :: 0 < i < |RecordEvents(record, topic)| ==>
      !RecordEvents(record, topic)[i].RecordSeen? && !RecordEvents(record, topic)[i].End?
  {
    var ev := RecordEvents(record, topic);
    var sub := SubEvents(record, topic);
    assert ev == [RecordSeen(record, EventId(record))] + sub;
    SubEventsAreNotRecords(record, topic);
    forall i | 0 < i < |ev| ensures !ev[i].RecordSeen? && !ev[i].End? {
      assert ev[i] == sub[i - 1];
      assert SubEventFits(record, topic, sub[i - 1]);
    }
  }

  /** Magic effects, path grids and the inert kinds pass an empty id; cells,
      dialogues and infos the id of their inner record; every other kind its
      own id. */
  lemma EventIds(record: Record)
    ensures record.MagicEffect? || record.PathGrid? ==> EventId(record) == []
    ensures record.Cell? ==> EventId(record) == record.cell.id
    ensures record.Dialogue? ==> EventId(record) == record.dialogue.id
    ensures record.Info? ==> EventId(record) == record.info.id
    ensures !record.Cell? && !record.Dialogue? && !record.Info? && !record.MagicEffect? && !record.PathGrid? && !IsInert(record) ==>
      EventId(record) == record.id
    ensures IsInert(record) ==> EventId(record) == []
  {
  }

  /** A Cell's record event is followed by one placement event per reference,
      indexed in stored order and carrying the lower-cased reference id. */
  lemma CellEvents(cell: Cell, topic: Dialogue)
    ensures var ev := RecordEvents(Record.Cell(cell), topic);
      && |ev| == 1 + |cell.references|
      && ev[0] == RecordSeen(Record.Cell(cell), cell.id)
      && forall i :: 0 <= i < |cell.references| ==>
           ev[1 + i] == CellRefSeen(cell, cell.references[i], Lower(cell.references[i].id), cell.references, i)
  {
    var record := Record.Cell(cell);
    assert !IsInert(record) && EventId(record) == cell.id;
    assert SubEvents(record, topic) == CellRefEvents(cell);
    assert RecordEvents(record, topic) == [RecordSeen(record, cell.id)] + CellRefEvents(cell);
  }

  /** Only Containers, Creatures and NPCs emit inventory events, and only
      leveled lists emit leveled events. */
  lemma InventoryOnlyForHolders(record: Record, topic: Dialogue)
    ensures forall e :: e in RecordEvents(record, topic) && e.InventorySeen? ==>
      record.Container? || record.Creature? || record.Npc?
    ensures forall e :: e in RecordEvents(record, topic) && e.LeveledSeen? ==>
      record.LeveledCreature? || record.LeveledItem?
  {
    SubEventsAreNotRecords(record, topic);
    if !IsInert(record) {
      assert RecordEvents(record, topic) == [RecordSeen(record, EventId(record))] + SubEvents(record, topic);
    }
  }

  /** An Info passes the topic in force to its info event and script lines;
      a Script always passes the dummy topic; no other kind emits either. */
  lemma TopicsOfRecord(record: Record, topic: Dialogue)
    ensures forall e :: e in RecordEvents(record, topic) && (e.InfoSeen? || e.ScriptLineSeen?) ==>
      (record.Info? && e.topic == topic) || (record.Script? && e.ScriptLineSeen? && e.topic == NoTopic)
  {
    SubEventsAreNotRecords(record, topic);
    if !IsInert(record) {
      assert RecordEvents(record, topic) == [RecordSeen(record, EventId(record))] + SubEvents(record, topic);
    }
  }

  // ---------------------------------------------------------------------
  // Properties of the whole trace

  lemma {:induction false} WalkHasNoEnd(records: seq<Record>, topic: Dialogue)
    ensures forall e :: e in Walk(records, topic) ==> !e.End?
    decreases |records|
  {
    if records != [] {
      RecordEventsShape(records[0], topic);
      WalkHasNoEnd(records[1..], NextTopic(records[0], topic));
    }
  }

  /** The most recent Dialogue among `records`, or the dummy when there is none. */
  function CurrentTopic(records: seq<Record>): Dialogue
    decreases |records|
  {
    if records == [] then NoTopic
    else if records[|records| - 1].Dialogue? then records[|records| - 1].dialogue
    else CurrentTopic(records[..|records| - 1])
  }

  /** The topic the pass holds after `records`, having started with `topic`. */
  function TopicAfter(records: seq<Record>, topic: Dialogue): Dialogue
    decreases |records|
  {
    if records == [] then topic else TopicAfter(records[1..], NextTopic(records[0], topic))
  }

  lemma {:induction false} WalkAppend(a: seq<Record>, b: seq<Record>, topic: Dialogue)
    ensures Walk(a + b, topic) == Walk(a, topic) + Walk(b, TopicAfter(a, topic))
    decreases |a|
  {
    if a == [] {
      assert a + b == b;
    } else {
      assert (a + b)[1..] == a[1..] + b;
      WalkAppend(a[1..], b, NextTopic(a[0], topic));
    }
  }

  lemma {:induction false} TopicAfterSnoc(a: seq<Record>, x: Record, topic: Dialogue)
    ensures TopicAfter(a + [x], topic) == NextTopic(x, TopicAfter(a, topic))
    decreases |a|
  {
    if a == [] {
      assert [x][1..] == [];
    } else {
      assert (a + [x])[1..] == a[1..] + [x];
      TopicAfterSnoc(a[1..], x, NextTopic(a[0], topic));
    }
  }

  /** Threading the topic from the dummy yields the most recent Dialogue. */
  lemma {:induction false} TopicAfterIsCurrent(records: seq<Record>)
    ensures TopicAfter(records, NoTopic) == CurrentTopic(records)
    decreases |records|
  {
    if records != [] {
      var init := records[..|records| - 1];
      assert records == init + [records[|records| - 1]];
      TopicAfterSnoc(init, records[|records| - 1], NoTopic);
      TopicAfterIsCurrent(init);
    }
  }

  /** The events of record `i` sit between those of the records before and
      after it, and are computed with the most recent preceding Dialogue (or
      the dummy) as the topic. */
  lemma WalkAt(records: seq<Record>, i: nat)
    requires i < |records|
    ensures Walk(records, NoTopic) ==
      Walk(records[..i], NoTopic)
      + RecordEvents(records[i], CurrentTopic(records[..i]))
      + Walk(records[i + 1..], CurrentTopic(records[..i + 1]))
  {
    var a := Walk(records[..i], NoTopic);
    var b := RecordEvents(records[i], CurrentTopic(records[..i]));
    var c := Walk(records[i + 1..], CurrentTopic(records[..i + 1]));
    WalkSplit(records, i);
    WalkHead(records, i);
    assert a + (b + c) == a + b + c;
  }

  lemma WalkSplit(records: seq<Record>, i: nat)
    requires i < |records|
    ensures Walk(records, NoTopic) == Walk(records[..i], NoTopic) + Walk(records[i..], CurrentTopic(records[..i]))
  {
    var before := records[..i];
    var after := records[i..];
    assert records == before + after;
    WalkAppend(before, after, NoTopic);
    TopicAfterIsCurrent(before);
  }

  lemma WalkHead(records: seq<Record>, i: nat)
    requires i < |records|
    ensures Walk(records[i..], CurrentTopic(records[..i])) ==
      RecordEvents(records[i], CurrentTopic(records[..i])) + Walk(records[i + 1..], CurrentTopic(records[..i + 1]))
  {
    var t := CurrentTopic(records[..i]);
    assert records[i..] == [records[i]] + records[i + 1..];
    WalkCons(records[i], records[i + 1..], t);
    CurrentTopicStep(records, i);
  }

  lemma CurrentTopicStep(records: seq<Record>, i: nat)
    requires i < |records|
    ensures CurrentTopic(records[..i + 1]) == NextTopic(records[i], CurrentTopic(records[..i]))
  {
    var p := records[..i + 1];
    assert p[|p| - 1] == records[i];
    assert p[..|p| - 1] == records[..i];
  }

  lemma WalkCons(x: Record, rest: seq<Record>, topic: Dialogue)
    ensures Walk([x] + rest, topic) == RecordEvents(x, topic) + Walk(rest, NextTopic(x, topic))
  {
    assert ([x] + rest)[1..] == rest;
  }

  /** How many record events a trace holds. */
  function CountRecordEvents(trace: seq<Event>): nat
    decreases |trace|
  {
    if trace == [] then 0
    else (if trace[0].RecordSeen? then 1 else 0) + CountRecordEvents(trace[1..])
  }

  /** How many records are not inert. */
  function CountActive(records: seq<Record>): nat
    decreases |records|
  {
    if records == [] then 0 else (if IsInert(records[0]) then 0 else 1) + CountActive(records[1..])
  }

  lemma {:induction false} CountRecordEventsAppend(a: seq<Event>, b: seq<Event>)
    ensures CountRecordEvents(a + b) == CountRecordEvents(a) + CountRecordEvents(b)
    decreases |a|
  {
    if a == [] {
      assert a + b == b;
    } else {
      assert (a + b)[1..] == a[1..] + b;
      CountRecordEventsAppend(a[1..], b);
    }
  }

  lemma CountRecordEventsOfRecord(record: Record, topic: Dialogue)
    ensures CountRecordEvents(RecordEvents(record, topic)) == if IsInert(record) then 0 else 1
  {
    if !IsInert(record) {
      var sub := SubEvents(record, topic);
      SubEventsAreNotRecords(record, topic);
      NoRecordEventsCountZero(sub);
      assert RecordEvents(record, topic)[1..] == sub;
    }
  }

  lemma {:induction false} NoRecordEventsCountZero(trace: seq<Event>)
    requires forall e :: e in trace ==> !e.RecordSeen?
    ensures CountRecordEvents(trace) == 0
    decreases |trace|
  {
    if trace != [] {
      assert trace[0] in trace;
      NoRecordEventsCountZero(trace[1..]);
    }
  }

  /** Every record that is not inert contributes exactly one record event to the trace. */
  lemma {:induction false} OneRecordEventPerActiveRecord(records: seq<Record>, topic: Dialogue)
    ensures CountRecordEvents(Walk(records, topic)) == CountActive(records)
    decreases |records|
  {
    if records != [] {
      CountRecordEventsAppend(RecordEvents(records[0], topic), Walk(records[1..], NextTopic(records[0], topic)));
      CountRecordEventsOfRecord(records[0], topic);
      OneRecordEventPerActiveRecord(records[1..], NextTopic(records[0], topic));
    }
  }
}

/**
 * The rule dispatcher: every event of the trace is offered to each rule in
 * turn, and each rule answers with its findings and, for the cell rule, its
 * new state. A rule ignores the events it has no hook for.
 */
module Handlers {
  import opened Wrappers
  import opened Esp
  import opened Validators
  import Cells
  import Missing
  import Supplies
  import ToDo

  /** The rules of this model, with their state and tables. */
  datatype Rule =
    | CellRule(cells: Cells.CellValidator)
    | FieldRule
    | SupplyRule(chests: map<string, string>)
    | ToDoRule

  datatype Finding =
    | CellFinding(cell: Cells.Finding)
    | FieldFinding(field: Missing.Finding)
    | SupplyFinding(supply: Supplies.Finding)
    | ToDoFinding(todo: ToDo.Finding)

  function CellFindings(fs: seq<Cells.Finding>): (r: seq<Finding>)
    ensures |r| == |fs| && forall k :: 0 <= k < |fs| ==> r[k] == CellFinding(fs[k])
  {
    seq(|fs|, k requires 0 <= k < |fs| => CellFinding(fs[k]))
  }

  function FieldFindings(fs: seq<Missing.Finding>): (r: seq<Finding>)
    ensures |r| == |fs| && forall k :: 0 <= k < |fs| ==> r[k] == FieldFinding(fs[k])
  {
    seq(|fs|, k requires 0 <= k < |fs| => FieldFinding(fs[k]))
  }

  /** Whether two rules are of the same kind with the same tables. */
  predicate SameRule(a: Rule, b: Rule) {
    match a
    case CellRule(v) => b.CellRule? && b.cells.broken == v.broken && v.seen <= b.cells.seen
    case FieldRule => b == FieldRule
    case SupplyRule(chests) => b == SupplyRule(chests)
    case ToDoRule => b == ToDoRule
  }

  /** One rule's answer to one event. */
  function Step(context: Context, rule: Rule, event: Event): (r: (Rule, seq<Finding>))
    ensures SameRule(rule, r.0)
    ensures event.End? || event.InventorySeen? || event.LeveledSeen? || event.InfoSeen? ==> r == (rule, [])
    ensures !rule.CellRule? ==> r.0 == rule
    ensures rule.CellRule? && !event.CellRefSeen? ==> r.0 == rule
  {
    match rule
    case CellRule(v) =>
      if event.RecordSeen? then (rule, CellFindings(Cells.OnRecord(context, event.record)))
      else if event.CellRefSeen? then
        var (v2, fs) := Cells.OnCellRef(v, event.cell, event.reference, event.id);
        (CellRule(v2), CellFindings(fs))
      else (rule, [])
    case FieldRule =>
      if event.RecordSeen? then (rule, FieldFindings(Missing.OnRecord(event.record, event.id)))
      else (rule, [])
    case SupplyRule(chests) =>
      if event.CellRefSeen? then
        var f := Supplies.OnCellRef(chests, event.cell, event.reference, event.id);
        (rule, if f.Some? then [SupplyFinding(f.value)] else [])
      else (rule, [])
    case ToDoRule =>
      if event.ScriptLineSeen? then
        var f := ToDo.OnScriptLine(event.record, event.code, event.comment, event.topic);
        (rule, if f.Some? then [ToDoFinding(f.value)] else [])
      else (rule, [])
  }

  /** The rules after an event has been offered to each of them. */
  function Broadcast(context: Context, rules: seq<Rule>, event: Event): (r: seq<Rule>)
    ensures |r| == |rules|
    ensures forall k :: 0 <= k < |rules| ==> SameRule(rules[k], r[k])
  {
    seq(|rules|, k requires 0 <= k < |rules| => Step(context, rules[k], event).0)
  }

  /** The findings for an event: each rule's, one rule after another. */
  function StepFindings(context: Context, rules: seq<Rule>, event: Event): seq<Finding>
    decreases |rules|
  {
    if rules == [] then [] else Step(context, rules[0], event).1 + StepFindings(context, rules[1..], event)
  }

  /** The rules after the whole trace. */
  function RunRules(context: Context, rules: seq<Rule>, trace: seq<Event>): (r: seq<Rule>)
    ensures |r| == |rules|
    decreases |trace|
  {
    if trace == [] then rules else RunRules(context, Broadcast(context, rules, trace[0]), trace[1..])
  }

  /** The findings of the whole trace, event by event. */
  function RunFindings(context: Context, rules: seq<Rule>, trace: seq<Event>): seq<Finding>
    decreases |trace|
  {
    if trace == [] then []
    else StepFindings(context, rules, trace[0]) + RunFindings(context, Broadcast(context, rules, trace[0]), trace[1..])
  }

  /** A run keeps every rule's kind and tables; the cell rule's memory only grows. */
  lemma {:induction false} RunKeepsRules(context: Context, rules: seq<Rule>, trace: seq<Event>)
    ensures forall k :: 0 <= k < |rules| ==> SameRule(rules[k], RunRules(context, rules, trace)[k])
    decreases |trace|
  {
    if trace != [] {
      var rules1 := Broadcast(context, rules, trace[0]);
      RunKeepsRules(context, rules1, trace[1..]);
      forall k | 0 <= k < |rules| ensures SameRule(rules[k], RunRules(context, rules, trace)[k]) {
        SameRuleTransitive(rules[k], rules1[k], RunRules(context, rules1, trace[1..])[k]);
      }
    }
  }

  lemma SameRuleTransitive(a: Rule, b: Rule, c: Rule)
    requires SameRule(a, b) && SameRule(b, c)
    ensures SameRule(a, c)
  {
  }

  /** Running two traces one after the other is running their concatenation. */
  lemma {:induction false} RunAppend(context: Context, rules: seq<Rule>, a: seq<Event>, b: seq<Event>)
    ensures RunRules(context, rules, a + b) == RunRules(context, RunRules(context, rules, a), b)
    ensures RunFindings(context, rules, a + b)
         == RunFindings(context, rules, a) + RunFindings(context, RunRules(context, rules, a), b)
    decreases |a|
  {
    if a == [] {
      assert a + b == b;
    } else {
      assert (a + b)[0] == a[0];
      assert (a + b)[1..] == a[1..] + b;
      var rules1 := Broadcast(context, rules, a[0]);
      RunAppend(context, rules1, a[1..], b);
      var f1 := StepFindings(context, rules, a[0]);
      var f2 := RunFindings(context, rules1, a[1..]);
      var f3 := RunFindings(context, RunRules(context, rules1, a[1..]), b);
      assert f1 + (f2 + f3) == (f1 + f2) + f3;
    }
  }

  /** Validation as a whole: the rules run over the trace of the records. */
  function ValidateAll(context: Context, rules: seq<Rule>, records: seq<Record>): seq<Finding> {
    RunFindings(context, rules, Validate(records))
  }

  /** None of these rules has an end hook: the final event adds nothing. */
  lemma EndAddsNothing(context: Context, rules: seq<Rule>, records: seq<Record>)
    ensures ValidateAll(context, rules, records) == RunFindings(context, rules, Walk(records, NoTopic))
  {
    var walk := Walk(records, NoTopic);
    assert Validate(records) == walk + [End];
    RunAppend(context, rules, walk, [End]);
    var rules1 := RunRules(context, rules, walk);
    EndFindsNothing(context, rules1);
    assert RunFindings(context, rules1, [End]) == [];
  }

  lemma {:induction false} EndFindsNothing(context: Context, rules: seq<Rule>)
    ensures StepFindings(context, rules, End) == []
    decreases |rules|
  {
    if rules != [] {
      EndFindsNothing(context, rules[1..]);
    }
  }

  /** The cell rule's findings among all findings, in order. */
  function CellPart(fs: seq<Finding>): (r: seq<Cells.Finding>)
    ensures |r| <= |fs|
  {
    if fs == [] then []
    else (if fs[0].CellFinding? then [fs[0].cell] else []) + CellPart(fs[1..])
  }

  lemma {:induction false} CellPartAppend(a: seq<Finding>, b: seq<Finding>)
    ensures CellPart(a + b) == CellPart(a) + CellPart(b)
    decreases |a|
  {
    if a == [] {
      assert a + b == b;
    } else {
      assert (a + b)[0] == a[0];
      assert (a + b)[1..] == a[1..] + b;
      CellPartAppend(a[1..], b);
    }
  }

  /** Wrapping cell findings and picking them out again gives them back. */
  lemma {:induction false} CellPartOfCellFindings(fs: seq<Cells.Finding>)
    ensures CellPart(CellFindings(fs)) == fs
    decreases |fs|
  {
    if fs != [] {
      assert CellFindings(fs)[1..] == CellFindings(fs[1..]);
      CellPartOfCellFindings(fs[1..]);
    }
  }

  /** The field rule's findings hold no cell finding. */
  lemma {:induction false} CellPartOfFieldFindings(fs: seq<Missing.Finding>)
    ensures CellPart(FieldFindings(fs)) == []
    decreases |fs|
  {
    if fs != [] {
      assert FieldFindings(fs)[1..] == FieldFindings(fs[1..]);
      CellPartOfFieldFindings(fs[1..]);
    }
  }

  /** Number of black-square reports among the findings. */
  function CountBlackSquares(fs: seq<Finding>): nat {
    Cells.CountBlackSquares(CellPart(fs))
  }

  /** The cell rule's record hook never reports a black square. */
  lemma {:induction false} RecordHookHasNoBlackSquares(context: Context, record: Record)
    ensures Cells.CountBlackSquares(Cells.OnRecord(context, record)) == 0
  {
    var fs := Cells.OnRecord(context, record);
    if record.PathGrid? {
      Cells.PathGridOrder(record.pathgrid);
      PathGridHasNoBlackSquares(fs);
    }
  }

  lemma {:induction false} PathGridHasNoBlackSquares(fs: seq<Cells.Finding>)
    requires forall a :: 0 <= a < |fs| ==> fs[a].DuplicateNode? || fs[a].UnconnectedNode?
    ensures Cells.CountBlackSquares(fs) == 0
    decreases |fs|
  {
    if fs != [] {
      PathGridHasNoBlackSquares(fs[1..]);
    }
  }

  /** One step of a lone cell rule: the black squares it reports are the
      keys it newly remembers. */
  lemma CellStepBlackCount(context: Context, v: Cells.CellValidator, event: Event)
    ensures var (rule, fs) := Step(context, CellRule(v), event);
      CountBlackSquares(fs) == |rule.cells.seen - v.seen|
  {
    var (rule, fs) := Step(context, CellRule(v), event);
    if event.RecordSeen? {
      RecordHookHasNoBlackSquares(context, event.record);
      CellPartOfCellFindings(Cells.OnRecord(context, event.record));
      assert rule.cells.seen - v.seen == {};
    } else if event.CellRefSeen? {
      var p := Cells.Placement(event.cell, event.reference, event.id);
      Cells.OnCellRefBlackCount(v, p);
      CellPartOfCellFindings(Cells.OnCellRef(v, event.cell, event.reference, event.id).1);
    } else {
      assert rule.cells.seen - v.seen == {};
    }
  }

  /** Over the whole lifetime of a cell rule, whatever the trace, each
      black-square key is reported once at most: the number of reports is the
      number of keys it came to remember. */
  lemma {:induction false} BlackSquaresOncePerKeyOverRun(context: Context, v: Cells.CellValidator, trace: seq<Event>)
    ensures var rules := RunRules(context, [CellRule(v)], trace);
      && rules[0].CellRule?
      && v.seen <= rules[0].cells.seen
      && CountBlackSquares(RunFindings(context, [CellRule(v)], trace)) == |rules[0].cells.seen - v.seen|
    decreases |trace|
  {
    if trace == [] {
      assert v.seen - v.seen == {};
    } else {
      var step := Step(context, CellRule(v), trace[0]);
      var rules1 := Broadcast(context, [CellRule(v)], trace[0]);
      assert rules1 == [step.0];
      var f1 := StepFindings(context, [CellRule(v)], trace[0]);
      assert [CellRule(v)][1..] == [];
      assert StepFindings(context, [], trace[0]) == [];
      assert f1 == step.1 + StepFindings(context, [CellRule(v)][1..], trace[0]);
      assert f1 == step.1;
      CellStepBlackCount(context, v, trace[0]);
      BlackSquaresOncePerKeyOverRun(context, step.0.cells, trace[1..]);
      var f2 := RunFindings(context, rules1, trace[1..]);
      CellPartAppend(f1, f2);
      Cells.CountBlackSquaresAppend(CellPart(f1), CellPart(f2));
      Cells.CardinalityOfDifferences(v.seen, step.0.cells.seen, RunRules(context, rules1, trace[1..])[0].cells.seen);
    }
  }

  /** The field rule's findings, by reference: the record hook over the record events. */
  function FieldRuleFindings(trace: seq<Event>): seq<Finding> {
    if trace == [] then []
    else
      (if trace[0].RecordSeen? then FieldFindings(Missing.OnRecord(trace[0].record, trace[0].id)) else [])
      + FieldRuleFindings(trace[1..])
  }

  /** The field rule reports, for a trace, exactly what its record hook
      reports for each record event, in order, and stays as it was. */
  lemma {:induction false} FieldRuleOverRun(context: Context, trace: seq<Event>)
    ensures RunFindings(context, [FieldRule], trace) == FieldRuleFindings(trace)
    ensures RunRules(context, [FieldRule], trace) == [FieldRule]
    decreases |trace|
  {
    if trace != [] {
      SingleRule(context, FieldRule, trace[0]);
      FieldRuleOverRun(context, trace[1..]);
    }
  }

  /** A lone rule's step is the step of that rule. */
  lemma SingleRule(context: Context, rule: Rule, event: Event)
    ensures Broadcast(context, [rule], event) == [Step(context, rule, event).0]
    ensures StepFindings(context, [rule], event) == Step(context, rule, event).1
  {
    assert [rule][1..] == [];
    assert StepFindings(context, [rule], event) == Step(context, rule, event).1 + [];
  }

  /** Offering an event to two groups of rules gives the first group's
      findings, then the second's. */
  lemma {:induction false} StepFindingsAppend(context: Context, a: seq<Rule>, b: seq<Rule>, event: Event)
    ensures StepFindings(context, a + b, event) == StepFindings(context, a, event) + StepFindings(context, b, event)
    decreases |a|
  {
    if a == [] {
      assert a + b == b;
    } else {
      assert (a + b)[0] == a[0];
      assert (a + b)[1..] == a[1..] + b;
      StepFindingsAppend(context, a[1..], b, event);
    }
  }
}

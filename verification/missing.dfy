/**
 * The field rule (`FieldValidator`): the icon, mesh and name of the kinds of
 * record that have them must be present, and an icon or mesh must name a
 * file (contain a '.').
 */
module Missing {
  import opened Wrappers
  import opened Text
  import opened Esp

  datatype Field = Icon | Mesh | Name

  datatype Finding =
    | MissingField(id: string, field: Field)
    | InvalidField(id: string, field: Field, value: string)

  /** Empty, or whitespace only. */
  predicate Blank(value: string) {
    forall i :: 0 <= i < |value| ==> IsWhitespace(value[i])
  }

  /** `check`: a blank value is missing; a present icon or mesh without a
      '.' is invalid; anything else passes. */
  function Check(id: string, field: Field, value: string): (f: Option<Finding>)
    ensures f == Some(MissingField(id, field)) <==> Blank(value)
    ensures f == Some(InvalidField(id, field, value)) <==> !Blank(value) && field != Name && '.' !in value
    ensures f.None? <==> !Blank(value) && (field == Name || '.' in value)
    ensures f.Some? ==> f.value == MissingField(id, field) || f.value == InvalidField(id, field, value)
  {
    if value != [] && Trim(value) != [] then
      if field != Name && '.' !in value then Some(InvalidField(id, field, value)) else None
    else Some(MissingField(id, field))
  }

  /** A name is never invalid: once present it passes, dot or no dot. */
  lemma NamePassesWhenPresent(id: string, value: string)
    requires !Blank(value)
    ensures Check(id, Name, value).None?
  {
  }

  /** The fields checked for each kind of record, in the order they are checked. */
  function CheckedFields(record: Record): (fields: seq<(Field, string)>)
    ensures |fields| <= 3
  {
    if record.Activator? || record.Container? || record.Creature? || record.Static? then
      [(Mesh, record.mesh)]
    else if record.Npc? then [(Name, record.name)]
    else if record.Door? then [(Mesh, record.mesh), (Name, record.name)]
    else if record.Book? then
      if record.marker then [] else [(Icon, record.icon), (Mesh, record.mesh), (Name, record.name)]
    else if record.Light? then
      if CanCarry in record.lightFlags then [(Icon, record.icon), (Mesh, record.mesh), (Name, record.name)] else []
    else if IsItemKind(record) then
      [(Icon, record.icon), (Mesh, record.mesh), (Name, record.name)]
    else []
  }

  /** Which kinds check what: Npc only its name; Activator, Container,
      Creature and Static only their mesh; Door its mesh and name; a carryable
      Light, a Book that is no marker and the ten item kinds their icon, mesh
      and name; every other kind nothing. */
  lemma CheckedFieldsByKind(record: Record)
    ensures var fields := CheckedFields(record);
      var kinds := seq(|fields|, k requires 0 <= k < |fields| => fields[k].0);
      && (record.Npc? ==> kinds == [Name])
      && (record.Activator? || record.Container? || record.Creature? || record.Static? ==> kinds == [Mesh])
      && (record.Door? ==> kinds == [Mesh, Name])
      && (record.Light? ==> kinds == if CanCarry in record.lightFlags then [Icon, Mesh, Name] else [])
      && (record.Book? ==> kinds == if record.marker then [] else [Icon, Mesh, Name])
      && (IsItemKind(record) ==> kinds == [Icon, Mesh, Name])
      && (!IsCheckedKind(record) ==> kinds == [])
  {
  }

  /** The ten kinds of carryable item that always check icon, mesh and name. */
  predicate IsItemKind(record: Record) {
    || record.Alchemy? || record.Apparatus? || record.Armor? || record.Clothing?
    || record.Ingredient? || record.Lockpick? || record.MiscItem? || record.Probe?
    || record.RepairItem? || record.Weapon?
  }

  /** `f` is a report about the `j`th checked field. */
  predicate AboutField(f: Finding, id: string, fields: seq<(Field, string)>, j: int)
    requires 0 <= j < |fields|
  {
    f == MissingField(id, fields[j].0) || f == InvalidField(id, fields[j].0, fields[j].1)
  }

  /** The eighteen kinds the rule looks at. */
  predicate IsCheckedKind(record: Record) {
    || record.Activator? || record.Alchemy? || record.Apparatus? || record.Armor?
    || record.Book? || record.Clothing? || record.Container? || record.Creature?
    || record.Door? || record.Ingredient? || record.Light? || record.Lockpick?
    || record.MiscItem? || record.Npc? || record.Probe? || record.RepairItem?
    || record.Static? || record.Weapon?
  }

  /** Each check's outcome, in order, the passes dropped. */
  function CheckAll(id: string, fields: seq<(Field, string)>): (fs: seq<Finding>)
    ensures |fs| <= |fields|
    ensures forall k :: 0 <= k < |fs| ==> exists j :: 0 <= j < |fields| && Check(id, fields[j].0, fields[j].1) == Some(fs[k])
    ensures forall j :: 0 <= j < |fields| && Check(id, fields[j].0, fields[j].1).Some? ==>
      Check(id, fields[j].0, fields[j].1).value in fs
  {
    if fields == [] then []
    else
      var head := Check(id, fields[0].0, fields[0].1);
      var rest := CheckAll(id, fields[1..]);
      assert forall j :: 1 <= j < |fields| ==> fields[1..][j - 1] == fields[j];
      (if head.Some? then [head.value] else []) + rest
  }

  /** The rule's record hook. */
  function OnRecord(record: Record, id: string): (fs: seq<Finding>)
    ensures !IsCheckedKind(record) ==> fs == []
    ensures |fs| <= |CheckedFields(record)|
    ensures forall k :: 0 <= k < |fs| ==> fs[k].id == id
  {
    CheckAll(id, CheckedFields(record))
  }

  /** A checked field is reported exactly when its value is blank (missing)
      or, for an icon or mesh, lacks a '.' (invalid); nothing else is reported. */
  lemma OnRecordReportsFailedFields(record: Record, id: string)
    ensures var fields := CheckedFields(record);
      var fs := OnRecord(record, id);
      && (forall j :: 0 <= j < |fields| && Blank(fields[j].1) ==> MissingField(id, fields[j].0) in fs)
      && (forall j :: 0 <= j < |fields| && !Blank(fields[j].1) && fields[j].0 != Name && '.' !in fields[j].1 ==>
            InvalidField(id, fields[j].0, fields[j].1) in fs)
      && (forall f :: f in fs ==> exists j :: 0 <= j < |fields| && AboutField(f, id, fields, j))
  {
    var fields := CheckedFields(record);
    CheckAllReportsMissing(id, fields);
    CheckAllReportsInvalid(id, fields);
    CheckAllReportsOnlyFields(id, fields);
  }

  /** The same, for any list of fields: blank values are reported missing, */
  lemma CheckAllReportsMissing(id: string, fields: seq<(Field, string)>)
    ensures forall j :: 0 <= j < |fields| && Blank(fields[j].1) ==> MissingField(id, fields[j].0) in CheckAll(id, fields)
  {
    forall j | 0 <= j < |fields| && Blank(fields[j].1)
      ensures MissingField(id, fields[j].0) in CheckAll(id, fields)
    {
      assert Check(id, fields[j].0, fields[j].1) == Some(MissingField(id, fields[j].0));
    }
  }

  /** present icons and meshes without a '.' are reported invalid, */
  lemma CheckAllReportsInvalid(id: string, fields: seq<(Field, string)>)
    ensures forall j :: 0 <= j < |fields| && !Blank(fields[j].1) && fields[j].0 != Name && '.' !in fields[j].1 ==>
      InvalidField(id, fields[j].0, fields[j].1) in CheckAll(id, fields)
  {
    forall j | 0 <= j < |fields| && !Blank(fields[j].1) && fields[j].0 != Name && '.' !in fields[j].1
      ensures InvalidField(id, fields[j].0, fields[j].1) in CheckAll(id, fields)
    {
      assert Check(id, fields[j].0, fields[j].1) == Some(InvalidField(id, fields[j].0, fields[j].1));
    }
  }

  /** and every report is about one of the fields. */
  lemma CheckAllReportsOnlyFields(id: string, fields: seq<(Field, string)>)
    ensures forall f :: f in CheckAll(id, fields) ==> exists j :: 0 <= j < |fields| && AboutField(f, id, fields, j)
  {
    var fs := CheckAll(id, fields);
    forall f | f in fs
      ensures exists j :: 0 <= j < |fields| && AboutField(f, id, fields, j)
    {
      var k :| 0 <= k < |fs| && fs[k] == f;
      var j :| 0 <= j < |fields| && Check(id, fields[j].0, fields[j].1) == Some(fs[k]);
      assert f == MissingField(id, fields[j].0) || f == InvalidField(id, fields[j].0, fields[j].1);
      assert AboutField(f, id, fields, j);
    }
  }
}

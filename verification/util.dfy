/** Shared helpers: the exterior grid, cell names and record predicates. */
module Util {
  import opened Wrappers
  import opened Text
  import opened Esp

  /** Width of an exterior cell in world units. */
  const CELL_SIZE: int := 8192

  /** Rust's saturating `as i32` cast of an integer value. */
  function SaturateI32(n: int): (r: i32)
    ensures I32_MIN <= n <= I32_MAX ==> r == n
    ensures n < I32_MIN ==> r == I32_MIN
    ensures n > I32_MAX ==> r == I32_MAX
  {
    if n < I32_MIN then I32_MIN else if n > I32_MAX then I32_MAX else n
  }

  /** `f64::floor(v / CELL_SIZE) as i32`: NaN casts to 0, infinities saturate. */
  function CellIndex(v: Float): i32 {
    match v
    case Finite(r) => SaturateI32((r / CELL_SIZE as real).Floor)
    case PosInf => I32_MAX
    case NegInf => I32_MIN
    case NaN => 0
  }

  /** A world coordinate whose cell index fits an `i32`, so the cast is exact. */
  predicate IndexFits(r: real) {
    I32_MIN <= (r / CELL_SIZE as real).Floor <= I32_MAX
  }

  /** The grid cell `(x, y)` lies in (`get_cell_grid`). */
  function GetCellGrid(x: Float, y: Float): (g: (i32, i32))
    ensures x.Finite? && IndexFits(x.value) ==>
      (CELL_SIZE * g.0) as real <= x.value < (CELL_SIZE * (g.0 + 1)) as real
    ensures y.Finite? && IndexFits(y.value) ==>
      (CELL_SIZE * g.1) as real <= y.value < (CELL_SIZE * (g.1 + 1)) as real
  {
    FloorBounds(x);
    FloorBounds(y);
    (CellIndex(x), CellIndex(y))
  }

  lemma FloorBounds(v: Float)
    ensures v.Finite? && IndexFits(v.value) ==>
      (CELL_SIZE * CellIndex(v)) as real <= v.value < (CELL_SIZE * (CellIndex(v) + 1)) as real
  {
    if v.Finite? && IndexFits(v.value) {
      var q := v.value / CELL_SIZE as real;
      assert q.Floor as real <= q < q.Floor as real + 1.0;
      assert v.value == q * 8192.0;
    }
  }

  /** The converse: a cell index whose box holds `r` is the index `get_cell_grid` computes. */
  lemma {:induction false} CellIndexOfBox(r: real, g: i32)
    requires (CELL_SIZE * g) as real <= r < (CELL_SIZE * (g + 1)) as real
    ensures IndexFits(r) && CellIndex(Finite(r)) == g
  {
    var q := r / CELL_SIZE as real;
    assert g as real <= q < g as real + 1.0;
    assert q.Floor == g;
  }

  type byte = x: int | 0 <= x < 256

  function ToAsciiLowerByte(b: byte): byte {
    if 65 <= b <= 90 then b + 32 else b
  }

  /** Byte-wise `eq_ignore_ascii_case` over two slices. */
  predicate BytesEqIgnoreAsciiCase(a: seq<byte>, b: seq<byte>)
    decreases |a|
  {
    |a| == |b| && (|a| == 0 || (ToAsciiLowerByte(a[0]) == ToAsciiLowerByte(b[0])
                                && BytesEqIgnoreAsciiCase(a[1..], b[1..])))
  }

  /** `ci_starts_with`: false when the prefix is longer than `s`, otherwise
      whether the first `|prefix|` bytes agree up to ASCII case. */
  function CiStartsWith(s: seq<byte>, prefix: seq<byte>): (r: bool)
    ensures |prefix| > |s| ==> !r
    ensures |prefix| <= |s| ==>
      (r <==> forall i :: 0 <= i < |prefix| ==> ToAsciiLowerByte(s[i]) == ToAsciiLowerByte(prefix[i]))
  {
    if |s| >= |prefix| then
      BytesEqPointwise(s[..|prefix|], prefix);
      BytesEqIgnoreAsciiCase(s[..|prefix|], prefix)
    else false
  }

  lemma {:induction false} BytesEqPointwise(a: seq<byte>, b: seq<byte>)
    requires |a| == |b|
    ensures BytesEqIgnoreAsciiCase(a, b) <==>
      forall i :: 0 <= i < |a| ==> ToAsciiLowerByte(a[i]) == ToAsciiLowerByte(b[i])
    decreases |a|
  {
    if |a| > 0 {
      BytesEqPointwise(a[1..], b[1..]);
      assert forall i :: 1 <= i < |a| ==> a[1..][i - 1] == a[i] && b[1..][i - 1] == b[i];
    }
  }

  /** Every byte string starts with the empty prefix, and with itself in any case. */
  lemma CiStartsWithSelf(s: seq<byte>, t: seq<byte>)
    ensures CiStartsWith(s, [])
    ensures CiStartsWith(s + t, s)
  {
    assert forall i :: 0 <= i < |s| ==> (s + t)[i] == s[i];
  }

  /** The grid part of an exterior cell's name, `x,y`. */
  function GridText(grid: (i32, i32)): string {
    IntToString(grid.0) + "," + IntToString(grid.1)
  }

  /** The id of an exterior cell, else its region, else nothing. */
  function ExteriorBaseName(cell: Cell): (base: string)
    ensures cell.id != [] ==> base == cell.id
    ensures cell.id == [] ==> base == cell.region.UnwrapOr([])
  {
    if cell.id != [] then cell.id else cell.region.UnwrapOr([])
  }

  /** `get_cell_name`: an interior cell is named by its id; an exterior one by
      `name x,y`, or by `x,y` alone when it has neither id nor region. */
  function GetCellName(cell: Cell): (name: string)
    ensures cell.interior ==> name == cell.id
    ensures !cell.interior && ExteriorBaseName(cell) == [] ==> name == GridText(cell.grid)
    ensures !cell.interior && ExteriorBaseName(cell) != [] ==>
      name == ExteriorBaseName(cell) + " " + GridText(cell.grid)
  {
    if cell.interior then cell.id
    else
      var base := if cell.id != [] then cell.id else cell.region.UnwrapOr([]);
      if base == [] then GridText(cell.grid) else base + " " + GridText(cell.grid)
  }

  /** `is_dead`: a creature whose data reports no health, or an NPC whose data
      carries stats reporting no health. */
  predicate IsDead(record: Record) {
    match record
    case Creature(_, _, _, data, _) =>
      data.Some? && data.value.health == 0
    case Npc(_, _, _, data, _) =>
      data.Some? && data.value.stats.Some? && data.value.stats.value.health == 0
    case _ => false
  }

  lemma IsDeadOnlyForCreaturesAndNpcs(record: Record)
    ensures IsDead(record) ==> record.Creature? || record.Npc?
    ensures record.Creature? ==>
      (IsDead(record) <==> record.creatureData == Some(CreatureData(0)))
    ensures record.Npc? ==>
      (IsDead(record) <==> record.npcData.Some? && record.npcData.value.stats == Some(NpcStats(0)))
  {
  }

  /** `is_persistent`: the object flag, for the eighteen kinds of placeable object. */
  predicate IsPersistent(record: Record) {
    match record
    case Activator(_, flags, _) => Persistent in flags
    case Alchemy(_, flags, _, _, _) => Persistent in flags
    case Apparatus(_, flags, _, _, _) => Persistent in flags
    case Armor(_, flags, _, _, _) => Persistent in flags
    case Book(_, flags, _, _, _, _) => Persistent in flags
    case Clothing(_, flags, _, _, _) => Persistent in flags
    case Container(_, flags, _, _) => Persistent in flags
    case Creature(_, flags, _, _, _) => Persistent in flags
    case Door(_, flags, _, _) => Persistent in flags
    case Ingredient(_, flags, _, _, _) => Persistent in flags
    case Light(_, flags, _, _, _, _) => Persistent in flags
    case Lockpick(_, flags, _, _, _) => Persistent in flags
    case MiscItem(_, flags, _, _, _) => Persistent in flags
    case Npc(_, flags, _, _, _) => Persistent in flags
    case Probe(_, flags, _, _, _) => Persistent in flags
    case RepairItem(_, flags, _, _, _) => Persistent in flags
    case Static(_, flags, _) => Persistent in flags
    case Weapon(_, flags, _, _, _) => Persistent in flags
    case _ => false
  }

  /** The eighteen kinds `is_persistent` inspects. */
  predicate IsPlaceableObject(record: Record) {
    || record.Activator? || record.Alchemy? || record.Apparatus? || record.Armor?
    || record.Book? || record.Clothing? || record.Container? || record.Creature?
    || record.Door? || record.Ingredient? || record.Light? || record.Lockpick?
    || record.MiscItem? || record.Npc? || record.Probe? || record.RepairItem?
    || record.Static? || record.Weapon?
  }

  lemma IsPersistentIff(record: Record)
    ensures IsPersistent(record) <==> IsPlaceableObject(record) && Persistent in record.flags
  {
  }
}

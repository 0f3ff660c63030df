/**
 * The parsed plugin records, reduced to the fields the validators read.
 * This stands for the tes3 crate's `esp` types; the parser that produces
 * them is not part of this model.
 */
module Esp {
  import opened Wrappers

  type u32 = x: int | 0 <= x < 0x1_0000_0000
  type i32 = x: int | -0x8000_0000 <= x < 0x8000_0000

  const I32_MIN: i32 := -0x8000_0000
  const I32_MAX: i32 := 0x7FFF_FFFF

  /** An `f32`/`f64` value: its ordering and finiteness, not its rounding. */
  datatype Float = Finite(value: real) | PosInf | NegInf | NaN {

    predicate IsFinite() {
      Finite?
    }

    /** IEEE `<`: false whenever either side is NaN. */
    predicate Less(other: Float) {
      match (this, other)
      case (Finite(a), Finite(b)) => a < b
      case (NegInf, Finite(_)) => true
      case (NegInf, PosInf) => true
      case (Finite(_), PosInf) => true
      case _ => false
    }

    /** IEEE `>=`. */
    predicate AtLeast(other: Float) {
      other.Less(this) || (this == other && !NaN?)
    }

    /** IEEE `== 0.`, which also holds of negative zero. */
    predicate IsZero() {
      this == Finite(0.0)
    }
  }

  datatype Vec3 = Vec3(x: Float, y: Float, z: Float)

  datatype ObjectFlag = Modified | Deleted | Persistent | Ignored | Blocked

  datatype LightFlag =
    | Dynamic | CanCarry | Negative | Flicker | Fire
    | OffByDefault | FlickerSlow | Pulse | PulseSlow

  /** A placed instance of a base object inside a cell. */
  datatype Reference = Reference(
    id: string,
    translation: Vec3,
    rotation: Vec3,
    deleted: Option<bool>,
    ownerFaction: Option<string>,
    ownerFactionRank: Option<u32>)

  datatype AtmosphereData = AtmosphereData(fogDensity: Float)

  /** A cell; `interior` is what the tes3 crate's `is_interior` reports,
      `flags` and `grid` are its `data.flags` and `data.grid`, and the
      references are in stored order. */
  datatype Cell = Cell(
    id: string,
    interior: bool,
    flags: bv32,
    grid: (i32, i32),
    region: Option<string>,
    waterHeight: Option<Float>,
    atmosphereData: Option<AtmosphereData>,
    references: seq<Reference>)

  datatype PathGridPoint = PathGridPoint(location: (i32, i32, i32), connectionCount: nat)

  datatype PathGridData = PathGridData(grid: (i32, i32))

  datatype PathGrid = PathGrid(
    cell: Option<string>,
    data: Option<PathGridData>,
    points: Option<seq<PathGridPoint>>,
    connections: Option<seq<u32>>)

  datatype DialogueKind = Topic | Voice | Greeting | Persuasion | Journal

  datatype Dialogue = Dialogue(id: string, flags: set<ObjectFlag>, kind: Option<DialogueKind>)

  datatype Info = Info(id: string, scriptText: Option<string>)

  datatype CreatureData = CreatureData(health: int)

  datatype NpcStats = NpcStats(health: int)

  datatype NpcData = NpcData(stats: Option<NpcStats>)

  /** An inventory line: a count and an item id. */
  type InventoryEntry = (int, string)

  /** A leveled-list entry: an id and the level it appears from. */
  type LeveledEntry = (string, nat)

  /** One record of a plugin, tagged by its kind (`TES3Object`). `marker` on
      a Book stands for the crate's `is_marker`, which is not part of this model. */
  datatype Record =
    | Activator(id: string, flags: set<ObjectFlag>, mesh: string)
    | Alchemy(id: string, flags: set<ObjectFlag>, icon: string, mesh: string, name: string)
    | Apparatus(id: string, flags: set<ObjectFlag>, icon: string, mesh: string, name: string)
    | Armor(id: string, flags: set<ObjectFlag>, icon: string, mesh: string, name: string)
    | Birthsign(id: string)
    | Bodypart(id: string)
    | Book(id: string, flags: set<ObjectFlag>, icon: string, mesh: string, name: string, marker: bool)
    | Cell(cell: Cell)
    | Class(id: string)
    | Clothing(id: string, flags: set<ObjectFlag>, icon: string, mesh: string, name: string)
    | Container(id: string, flags: set<ObjectFlag>, mesh: string, inventory: Option<seq<InventoryEntry>>)
    | Creature(id: string, flags: set<ObjectFlag>, mesh: string, creatureData: Option<CreatureData>,
               inventory: Option<seq<InventoryEntry>>)
    | Dialogue(dialogue: Dialogue)
    | Door(id: string, flags: set<ObjectFlag>, mesh: string, name: string)
    | Enchanting(id: string)
    | Faction(id: string)
    | GameSetting(id: string)
    | GlobalVariable(id: string)
    | Header
    | Info(info: Info)
    | Ingredient(id: string, flags: set<ObjectFlag>, icon: string, mesh: string, name: string)
    | Landscape
    | LandscapeTexture
    | LeveledCreature(id: string, creatures: Option<seq<LeveledEntry>>)
    | LeveledItem(id: string, items: Option<seq<LeveledEntry>>)
    | Light(id: string, flags: set<ObjectFlag>, icon: string, mesh: string, name: string,
            lightFlags: set<LightFlag>)
    | Lockpick(id: string, flags: set<ObjectFlag>, icon: string, mesh: string, name: string)
    | MagicEffect
    | MiscItem(id: string, flags: set<ObjectFlag>, icon: string, mesh: string, name: string)
    | Npc(id: string, flags: set<ObjectFlag>, name: string, npcData: Option<NpcData>,
          inventory: Option<seq<InventoryEntry>>)
    | PathGrid(pathgrid: PathGrid)
    | Probe(id: string, flags: set<ObjectFlag>, icon: string, mesh: string, name: string)
    | Race(id: string)
    | Region(id: string)
    | RepairItem(id: string, flags: set<ObjectFlag>, icon: string, mesh: string, name: string)
    | Script(id: string, scriptText: Option<string>)
    | Skill
    | Sound(id: string)
    | SoundGen(id: string)
    | Spell(id: string)
    | StartScript(id: string)
    | Static(id: string, flags: set<ObjectFlag>, mesh: string)
    | Weapon(id: string, flags: set<ObjectFlag>, icon: string, mesh: string, name: string)
}

/**
 * The supply-chest rule (`SupplyChestValidator`): a chest listed in the
 * supply table must be owned by the listed faction and open to all its ranks.
 */
module Supplies {
  import opened Wrappers
  import opened Text
  import opened Esp
  import opened Util

  /** The rank value that stands for "every rank". */
  const ALL_RANKS: u32 := 4294967295

  datatype Finding =
    | NotOwnedBy(cell: string, refId: string, faction: string)
    | NotAvailableToAllRanks(cell: string, refId: string)

  /** The reference is owned by `faction`, compared ignoring ASCII case. */
  predicate OwnedBy(reference: Reference, faction: string) {
    reference.ownerFaction.Some? && EqIgnoreAsciiCase(reference.ownerFaction.value, faction)
  }

  /** No rank, rank 0 and `ALL_RANKS` all leave the chest open to every rank. */
  predicate OpenToAllRanks(reference: Reference) {
    reference.ownerFactionRank.None? || reference.ownerFactionRank.value in {0, ALL_RANKS}
  }

  /** The rule's reference hook, for a chest table from lower-case base ids to factions. */
  function OnCellRef(chests: map<string, string>, cell: Cell, reference: Reference, id: string): (f: Option<Finding>)
    ensures f.None? <==> id !in chests || (OwnedBy(reference, chests[id]) && OpenToAllRanks(reference))
    ensures f.Some? && f.value.NotOwnedBy? <==> id in chests && !OwnedBy(reference, chests[id])
    ensures f.Some? ==> f.value.cell == GetCellName(cell) && f.value.refId == reference.id
    ensures f.Some? && f.value.NotOwnedBy? ==> f.value.faction == chests[id]
  {
    if id in chests then
      var faction := chests[id];
      if !(reference.ownerFaction.Some? && EqIgnoreAsciiCase(reference.ownerFaction.value, faction)) then
        Some(NotOwnedBy(GetCellName(cell), reference.id, faction))
      else
        var rank := reference.ownerFactionRank.UnwrapOr(0);
        if rank != 0 && rank != ALL_RANKS then Some(NotAvailableToAllRanks(GetCellName(cell), reference.id))
        else None
    else None
  }

  /** The owner's spelling does not matter: writing the owning faction in any
      ASCII case gives the same outcome. */
  lemma OwnerCaseIrrelevant(chests: map<string, string>, cell: Cell, reference: Reference, id: string, owner: string)
    requires reference.ownerFaction == Some(owner)
    ensures OnCellRef(chests, cell, reference.(ownerFaction := Some(Lower(owner))), id)
         == OnCellRef(chests, cell, reference, id)
  {
    LowerProperties(owner);
  }

  /** A rank reported as not open to all is any rank but 0 and `ALL_RANKS`,
      and only on a chest its faction owns. */
  lemma RankReportMeansRestrictedRank(chests: map<string, string>, cell: Cell, reference: Reference, id: string)
    requires OnCellRef(chests, cell, reference, id).Some?
    requires OnCellRef(chests, cell, reference, id).value.NotAvailableToAllRanks?
    ensures id in chests && OwnedBy(reference, chests[id])
    ensures reference.ownerFactionRank.Some?
    ensures 0 < reference.ownerFactionRank.value < ALL_RANKS
  {
  }
}

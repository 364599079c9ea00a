/**
  The four achievement-diary tiers, their rank and their badge text, and how
  a tier name is read from an item label: it is the first parenthesised group
  of the label, whatever else the label holds.
*/
module Tiers {
  import opened Common
  import opened Text
  import opened Types

  /** `tierOrder`: the tiers from easiest to hardest. */
  const TierOrder: seq<string> := ["Easy", "Medium", "Hard", "Elite"]

  /** `tierOrder.indexOf(name)`: the rank of a tier name, -1 for any other name. */
  function TierIndex(name: string): (r: int)
    ensures -1 <= r < |TierOrder|
    ensures r >= 0 ==> TierOrder[r] == name
    ensures r == -1 <==> name !in TierOrder
  {
    if name == "Easy" then 0
    else if name == "Medium" then 1
    else if name == "Hard" then 2
    else if name == "Elite" then 3
    else -1
  }

  /** The tier name of an item: the first parenthesised group of its label, non-empty and free of `)`. */
  function TierName(item: Item): (r: Option<string>)
    ensures r.Some? ==> |r.value| > 0 && ')' !in r.value
  {
    FirstParenGroup(item.labelText)
  }

  /** The rank of an item's tier name, -1 when the label has no group or the group is no tier. */
  function TierRank(item: Item): (r: int)
    ensures -1 <= r < |TierOrder|
    ensures r >= 0 <==> TierName(item).Some? && TierName(item).value in TierOrder
  {
    match TierName(item)
    case None => -1
    case Some(name) => TierIndex(name)
  }

  /** `tierMap`: the short badge text of each tier; it starts with the tier's first letter. */
  function TierAbbreviation(name: string): (r: Option<string>)
    ensures r.Some? <==> name in TierOrder
    ensures r.Some? ==> |r.value| > 0 && r.value[0] == name[0]
  {
    if name == "Easy" then Some("E")
    else if name == "Medium" then Some("M")
    else if name == "Hard" then Some("H")
    else if name == "Elite" then Some("El")
    else None
  }

  /**
    The text of a tier's checkbox badge: `tierMap[tierName] || tierName.charAt(0)`,
    where `tierName` is the label's first parenthesised group or "" without one.
  */
  function BadgeText(item: Item): (r: string)
    ensures TierName(item).None? ==> r == ""
    ensures TierName(item).Some? && TierName(item).value in TierOrder ==>
              Some(r) == TierAbbreviation(TierName(item).value) && r[0] == TierName(item).value[0]
    ensures TierName(item).Some? && TierName(item).value !in TierOrder ==>
              r == TierName(item).value[..1]
  {
    match TierName(item)
    case None => ""
    case Some(name) =>
      match TierAbbreviation(name)
      case Some(short) => short
      case None => name[..1]
  }

  /** The four tiers get the badges E, M, H and El. */
  lemma BadgesOfKnownTiers()
    ensures TierAbbreviation(TierOrder[0]) == Some("E")
    ensures TierAbbreviation(TierOrder[1]) == Some("M")
    ensures TierAbbreviation(TierOrder[2]) == Some("H")
    ensures TierAbbreviation(TierOrder[3]) == Some("El")
    ensures forall name :: TierAbbreviation(name).Some? <==> name in TierOrder
  {
  }

  /** A checkbox whose label names a tier shows E, M, H or El, by the tier's rank. */
  lemma BadgeTextOfTierItem(item: Item)
    requires TierRank(item) >= 0
    ensures BadgeText(item) == ["E", "M", "H", "El"][TierRank(item)]
  {
    BadgesOfKnownTiers();
  }
}

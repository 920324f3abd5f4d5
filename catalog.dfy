/**
 * The static configuration of legilimens.py: the logical tables that are
 * queried (QUERIES, in dictionary order), the collectible categories each
 * table's failure affects (AFFECTED_TYPES), the collectible types and the
 * table each one is looked up in (TABLES), and the catalog record.
 */
module Catalog {
  import opened Results

  /** The keys of QUERIES. The SQL text of each query is not modelled. */
  datatype Table =
    | CollectionDynamic
    | SphinxPuzzleDynamic
    | LootDropComponentDynamic
    | EconomicExpiryDynamic
    | MiscDataDynamic
    | MapLocationDataDynamic
    | AchievementDynamic
    | PlayerStatsDynamic
    | CollectionDynamic2

  /** The order in which the tables are queried (the insertion order of QUERIES). */
  const QueryOrder: seq<Table> := [
    CollectionDynamic, SphinxPuzzleDynamic, LootDropComponentDynamic, EconomicExpiryDynamic,
    MiscDataDynamic, MapLocationDataDynamic, AchievementDynamic, PlayerStatsDynamic, CollectionDynamic2
  ]

  /** Every table is queried, exactly once. */
  lemma QueryOrderComplete(t: Table)
    ensures t in QueryOrder
    ensures forall i, j :: 0 <= i < j < |QueryOrder| ==> QueryOrder[i] != QueryOrder[j]
  {
    match t
    case CollectionDynamic => assert QueryOrder[0] == t;
    case SphinxPuzzleDynamic => assert QueryOrder[1] == t;
    case LootDropComponentDynamic => assert QueryOrder[2] == t;
    case EconomicExpiryDynamic => assert QueryOrder[3] == t;
    case MiscDataDynamic => assert QueryOrder[4] == t;
    case MapLocationDataDynamic => assert QueryOrder[5] == t;
    case AchievementDynamic => assert QueryOrder[6] == t;
    case PlayerStatsDynamic => assert QueryOrder[7] == t;
    case CollectionDynamic2 => assert QueryOrder[8] == t;
  }

  /** The collectible categories named in AFFECTED_TYPES, one constructor per display name. */
  datatype Category =
    | RevelioPages | MerlinTrials | VivariumChests | ButterflyChests
    | BrazierMothStatuePages | DaedalianKeys
    | FlyingPages | CollectionChests | DemiguiseMoons | BalloonSets
    | LandingPlatforms | AstronomyTables | AncientMagicHotspots | InfamousFoes
    | FinishingTouchesEnemies | ButterflyQuestDetector | ConjurationDetector

  /** The text printed for a category in the "could not read" message. */
  function DisplayName(c: Category): (name: string)
    ensures name != []
  {
    match c
    case RevelioPages => "Revelio field guide pages"
    case MerlinTrials => "Merlin trials"
    case VivariumChests => "Vivarium chests"
    case ButterflyChests => "Butterfly chests"
    case BrazierMothStatuePages => "Brazier/Moth/Statue field guide pages"
    case DaedalianKeys => "Daedalian Keys"
    case FlyingPages => "Flying field guide pages"
    case CollectionChests => "Collection Chests"
    case DemiguiseMoons => "Demiguise Moons"
    case BalloonSets => "Balloon Sets"
    case LandingPlatforms => "Landing Platforms"
    case AstronomyTables => "Astronomy Tables"
    case AncientMagicHotspots => "Ancient Magic Hotspots"
    case InfamousFoes => "Infamous Foes"
    case FinishingTouchesEnemies => "Finishing Touches enemies"
    case ButterflyQuestDetector => "Butterfly quest bug detector"
    case ConjurationDetector => "Conjuration bug detector"
  }

  /** AFFECTED_TYPES: the categories reported when a table cannot be read. */
  function AffectedTypes(t: Table): (categories: seq<Category>)
    ensures categories != []
  {
    match t
    case CollectionDynamic => [RevelioPages]
    case SphinxPuzzleDynamic => [MerlinTrials]
    case LootDropComponentDynamic => [VivariumChests]
    case EconomicExpiryDynamic => [ButterflyChests]
    case MiscDataDynamic => [BrazierMothStatuePages, DaedalianKeys]
    case MapLocationDataDynamic => [
      FlyingPages, CollectionChests, DemiguiseMoons, BalloonSets,
      LandingPlatforms, AstronomyTables, AncientMagicHotspots, InfamousFoes
    ]
    case AchievementDynamic => [FinishingTouchesEnemies]
    case PlayerStatsDynamic => [ButterflyQuestDetector]
    case CollectionDynamic2 => [ConjurationDetector]
  }

  /** Each category is affected by exactly one table. */
  lemma AffectedByOneTable(c: Category, t: Table, u: Table)
    requires c in AffectedTypes(t) && c in AffectedTypes(u)
    ensures t == u
  {
  }

  /** The keys of TABLES: every `type` a catalog record can have. */
  datatype CollectibleType =
    | Revelio | Merlin | VivariumChest | ButterflyChest
    | Moth | Brazier | Statue | DaedalianKey
    | Flying | ArithmancyChest | MiscConjChest | MiscWandChest | DungeonChest | CampChest
    | Demiguise | Astronomy | Landing | Balloon | AncientMagic | Foe
    | FinishingTouchEnemy

  /** TABLES: the table whose rows say whether a collectible of this type was obtained. */
  function TableOf(k: CollectibleType): Table {
    match k
    case Revelio => CollectionDynamic
    case Merlin => SphinxPuzzleDynamic
    case VivariumChest => LootDropComponentDynamic
    case ButterflyChest => EconomicExpiryDynamic
    case Moth | Brazier | Statue | DaedalianKey => MiscDataDynamic
    case Flying | ArithmancyChest | MiscConjChest | MiscWandChest | DungeonChest | CampChest
      | Demiguise | Astronomy | Landing | Balloon | AncientMagic | Foe => MapLocationDataDynamic
    case FinishingTouchEnemy => AchievementDynamic
  }

  /** Two tables only feed the bug heuristics: no collectible is looked up in them. */
  lemma HeuristicOnlyTables(k: CollectibleType)
    ensures TableOf(k) != PlayerStatsDynamic && TableOf(k) != CollectionDynamic2
  {
  }

  /**
   * One record of collectibles.json. `collected` is the only field the program
   * writes; it is absent (None) until a save has been read.
   */
  datatype Collectible = Collectible(
    kind: CollectibleType,
    index: int,
    key: string,
    region: string,
    video: Option<string>,
    time: Option<int>,
    collected: Option<bool>)

  /** `c['collected']` read as a truth value: an absent flag is not "collected". */
  predicate IsCollected(c: Collectible) {
    c.collected == Some(true)
  }
}

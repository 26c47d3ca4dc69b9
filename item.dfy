/** A collectible item and the player stats its pick-up changes. */
module Items {
  import opened Tiles

  /** The three item kinds the generator creates. */
  datatype ItemType = Health | Speed | Damage

  /** The effect table of the item constructor: the health restored, the speed
      added or the attack power added. */
  function EffectValue(kind: ItemType): (v: nat)
    ensures v > 0
  {
    match kind
    case Health => 25
    case Speed => 50
    case Damage => 10
  }

  /** Points a pick-up adds to the score. */
  const COLLECT_SCORE := 50

  /** The player stats a pick-up reads and writes. */
  datatype PlayerStats = PlayerStats(health: int, maxHealth: int, speed: int, attackPower: int, score: int, items: seq<ItemType>)

  /** The stats after picking up an item of `kind`: the matching stat gets the
      effect value (health capped at the maximum), the kind joins the
      inventory and the score goes up by 50. */
  function AfterCollect(s: PlayerStats, kind: ItemType): (r: PlayerStats)
    ensures r.maxHealth == s.maxHealth
    ensures r.items == s.items + [kind] && r.score == s.score + COLLECT_SCORE
    ensures r.health == if kind == Health then Min(s.maxHealth, s.health + EffectValue(kind)) else s.health
    ensures r.speed == if kind == Speed then s.speed + EffectValue(kind) else s.speed
    ensures r.attackPower == if kind == Damage then s.attackPower + EffectValue(kind) else s.attackPower
  {
    var s' := match kind
      case Health => s.(health := Min(s.maxHealth, s.health + EffectValue(kind)))
      case Speed => s.(speed := s.speed + EffectValue(kind))
      case Damage => s.(attackPower := s.attackPower + EffectValue(kind));
    s'.(items := s.items + [kind], score := s.score + COLLECT_SCORE)
  }

  /** A heal never lifts health above the maximum and never lowers it, as
      long as it was not above the maximum before. */
  lemma HealthStaysBounded(s: PlayerStats, kind: ItemType)
    requires s.health <= s.maxHealth
    ensures s.health <= AfterCollect(s, kind).health <= s.maxHealth
  {
  }

  /** Health above the maximum (which the pick-up does not guard against) is
      cut down to the maximum by a heal. */
  lemma HealCapsExcessHealth(s: PlayerStats)
    requires s.health > s.maxHealth
    ensures AfterCollect(s, Health).health == s.maxHealth < s.health
  {
  }

  /** Of health, speed and attack power, only the stat matching the kind changes. */
  lemma OnlyMatchingStatChanges(s: PlayerStats, kind: ItemType)
    ensures kind != Health ==> AfterCollect(s, kind).health == s.health
    ensures kind != Speed ==> AfterCollect(s, kind).speed == s.speed
    ensures kind != Damage ==> AfterCollect(s, kind).attackPower == s.attackPower
    ensures kind == Health ==> AfterCollect(s, kind).health == Min(s.maxHealth, s.health + 25)
    ensures kind == Speed ==> AfterCollect(s, kind).speed == s.speed + 50
    ensures kind == Damage ==> AfterCollect(s, kind).attackPower == s.attackPower + 10
  {
  }

  /** Picking up items of several kinds one after another: the inventory is
      the kinds in order and the score grows by 50 per item. */
  function AfterCollectAll(s: PlayerStats, kinds: seq<ItemType>): (r: PlayerStats)
    ensures r.items == s.items + kinds
    ensures r.score == s.score + COLLECT_SCORE * |kinds|
    ensures r.maxHealth == s.maxHealth
    decreases |kinds|
  {
    if kinds == [] then s
    else
      var r := AfterCollectAll(AfterCollect(s, kinds[0]), kinds[1..]);
      assert s.items + [kinds[0]] + kinds[1..] == s.items + kinds;
      r
  }

  /** Any run of pick-ups keeps health within the maximum once it is there. */
  lemma {:induction false} CollectAllHealthBounded(s: PlayerStats, kinds: seq<ItemType>)
    requires s.health <= s.maxHealth
    ensures s.health <= AfterCollectAll(s, kinds).health <= s.maxHealth
    decreases |kinds|
  {
    if kinds != [] {
      HealthStaysBounded(s, kinds[0]);
      CollectAllHealthBounded(AfterCollect(s, kinds[0]), kinds[1..]);
    }
  }

  /** The fields of the player object a pick-up touches. */
  class Player {
    var health: int
    var maxHealth: int
    var speed: int
    var attackPower: int
    var score: int
    var items: seq<ItemType>

    function Stats(): PlayerStats
      reads this
    {
      PlayerStats(health, maxHealth, speed, attackPower, score, items)
    }
  }

  /** An item on the map: its pixel position, size and kind, whether it has
      been picked up, and its effect value. */
  class Item {
    const x: int
    const y: int
    const size: int
    const itemType: ItemType
    const effectValue: nat := EffectValue(itemType)
    var collected: bool

    constructor (x: int, y: int, size: int, itemType: ItemType)
      ensures this.x == x && this.y == y && this.size == size && this.itemType == itemType
      ensures effectValue == EffectValue(itemType) && !collected
    {
      this.x := x;
      this.y := y;
      this.size := size;
      this.itemType := itemType;
      collected := false;
    }

    /** `collect`: marks the item collected and applies its effect to the player. */
    method Collect(player: Player)
      modifies this, player
      ensures collected
      ensures player.Stats() == AfterCollect(old(player.Stats()), itemType)
    {
      collected := true;
      match itemType {
        case Health => player.health := Min(player.maxHealth, player.health + effectValue);
        case Speed => player.speed := player.speed + effectValue;
        case Damage => player.attackPower := player.attackPower + effectValue;
      }
      player.items := player.items + [itemType];
      player.score := player.score + COLLECT_SCORE;
    }
  }
}

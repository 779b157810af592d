/// context/CardContext.js: the player's card, its XP and level-up rule, and the
/// merge of a saved card into the current one at load time.
module CardContext {
  import opened Common

  /** A card as the app stores it. A saved JSON object may lack any field (`None`);
      `extra` stands for every other field a card object carries. */
  datatype Card = Card(
    name: Option<string>,
    bio: Option<string>,
    attack: Option<int>,
    defense: Option<int>,
    photo: Option<string>,
    xp: Option<int>,
    level: Option<int>,
    extra: map<string, string>)

  /** The card the provider starts with, before anything is loaded. */
  const DefaultCard: Card :=
    Card(Some(""), Some(""), Some(0), Some(0), None, Some(0), Some(1), map[])

  /** Each level L costs 100 * L experience points to leave. */
  const XpPerLevel: int := 100

  /** The values `addXp` starts from when a field is missing. */
  function XpOf(c: Card): int { c.xp.GetOr(0) }
  function LevelOf(c: Card): int { c.level.GetOr(1) }
  function AttackOf(c: Card): int { c.attack.GetOr(0) }
  function DefenseOf(c: Card): int { c.defense.GetOr(0) }

  /** XP spent climbing from level `base` to level `top`: the sum of 100 * L for
      L = base, ..., top - 1. */
  function LevelCost(base: int, top: int): int
    requires base <= top
    decreases top - base
  {
    if base == top then 0 else LevelCost(base, top - 1) + XpPerLevel * (top - 1)
  }

  /** Climbing from `base` with `total` XP ends at `level` with `xp` left: every level
      on the way was paid for in turn, nothing was lost, and the remainder does not
      pay for the next level. */
  ghost predicate Settles(total: int, base: int, xp: int, level: int) {
    && base <= level
    && total == xp + LevelCost(base, level)
    && xp < level * XpPerLevel
    && forall l :: base <= l < level ==> total - LevelCost(base, l) >= l * XpPerLevel
  }

  /** The effect of one `addXp` update on a card: level and XP settle as above from the
      defaulted xp and level, attack and defense each rise by the number of levels
      gained, and every other field is copied. */
  ghost predicate LevelledUp(prev: Card, amount: int, next: Card) {
    && next.xp.Some? && next.level.Some? && next.attack.Some? && next.defense.Some?
    && Settles(XpOf(prev) + amount, LevelOf(prev), XpOf(next), LevelOf(next))
    && AttackOf(next) == AttackOf(prev) + (LevelOf(next) - LevelOf(prev))
    && DefenseOf(next) == DefenseOf(prev) + (LevelOf(next) - LevelOf(prev))
    && next == prev.(xp := next.xp, level := next.level, attack := next.attack, defense := next.defense)
  }

  /** The state updater inside `addXp`: adds `amount` XP and converts XP into levels
      while it pays for the current level. */
  method ApplyXp(prev: Card, amount: int) returns (next: Card)
    ensures LevelledUp(prev, amount, next)
    ensures LevelOf(next) >= LevelOf(prev)
    ensures XpOf(next) < LevelOf(next) * XpPerLevel
    ensures LevelOf(next) > LevelOf(prev) ==> XpOf(next) >= 0
  {
    var prevXp := prev.xp.GetOr(0);
    var prevLevel := prev.level.GetOr(1);
    var newXp := prevXp + amount;
    var newLevel := prevLevel;
    var newAttack := prev.attack.GetOr(0);
    var newDefense := prev.defense.GetOr(0);
    while newXp >= newLevel * XpPerLevel
      invariant prevLevel <= newLevel
      invariant prevXp + amount == newXp + LevelCost(prevLevel, newLevel)
      invariant forall l :: prevLevel <= l < newLevel ==> prevXp + amount - LevelCost(prevLevel, l) >= l * XpPerLevel
      invariant newAttack == AttackOf(prev) + (newLevel - prevLevel)
      invariant newDefense == DefenseOf(prev) + (newLevel - prevLevel)
      invariant newLevel > prevLevel ==> newXp >= 0
      decreases if newLevel < 1 then 1 - newLevel else 0, newXp
    {
      newXp := newXp - newLevel * XpPerLevel;
      newLevel := newLevel + 1;
      newAttack := newAttack + 1;
      newDefense := newDefense + 1;
    }
    next := prev.(xp := Some(newXp), level := Some(newLevel), attack := Some(newAttack), defense := Some(newDefense));
  }

  /** The outcome of an update is determined: two settlements of the same XP from the
      same level agree. */
  lemma SettlesUnique(total: int, base: int, xp1: int, level1: int, xp2: int, level2: int)
    requires Settles(total, base, xp1, level1) && Settles(total, base, xp2, level2)
    ensures xp1 == xp2 && level1 == level2
  {
  }

  /** Closed form of the cost: 50 * (top - base) * (base + top - 1). From level 1,
      reaching level L takes 50 * L * (L - 1) XP in all. */
  lemma {:induction false} LevelCostClosedForm(base: int, top: int)
    requires base <= top
    ensures LevelCost(base, top) == 50 * (top - base) * (base + top - 1)
    decreases top - base
  {
    if base < top {
      LevelCostClosedForm(base, top - 1);
      assert 50 * (top - base) * (base + top - 1)
          == 50 * (top - 1 - base) * (base + top - 2) + 100 * (top - 1);
    }
  }

  /** `loadCard`'s merge: each field of the saved card unless it is null or missing,
      else the current field; xp and level finally fall back to 0 and 1. The merged
      object has exactly these seven fields. */
  function MergeSaved(parsed: Card, prev: Card): (r: Card)
    ensures r.xp.Some? && r.level.Some? && r.extra == map[]
    ensures parsed.name.Some? ==> r.name == parsed.name
    ensures parsed.bio.Some? ==> r.bio == parsed.bio
    ensures parsed.attack.Some? ==> r.attack == parsed.attack
    ensures parsed.defense.Some? ==> r.defense == parsed.defense
    ensures parsed.photo.Some? ==> r.photo == parsed.photo
    ensures parsed.xp.Some? ==> r.xp == parsed.xp
    ensures parsed.level.Some? ==> r.level == parsed.level
    ensures parsed.name.None? ==> r.name == prev.name
    ensures parsed.bio.None? ==> r.bio == prev.bio
    ensures parsed.attack.None? ==> r.attack == prev.attack
    ensures parsed.defense.None? ==> r.defense == prev.defense
    ensures parsed.photo.None? ==> r.photo == prev.photo
    ensures parsed.xp.None? ==> r.xp == Some(XpOf(prev))
    ensures parsed.level.None? ==> r.level == Some(LevelOf(prev))
  {
    Card(
      name := if parsed.name.Some? then parsed.name else prev.name,
      bio := if parsed.bio.Some? then parsed.bio else prev.bio,
      attack := if parsed.attack.Some? then parsed.attack else prev.attack,
      defense := if parsed.defense.Some? then parsed.defense else prev.defense,
      photo := if parsed.photo.Some? then parsed.photo else prev.photo,
      xp := Some(parsed.xp.GetOr(prev.xp.GetOr(0))),
      level := Some(parsed.level.GetOr(prev.level.GetOr(1))),
      extra := map[])
  }

  /** Loading the same save twice is the same as loading it once. */
  lemma MergeIdempotent(parsed: Card, prev: Card)
    ensures MergeSaved(parsed, MergeSaved(parsed, prev)) == MergeSaved(parsed, prev)
  {
  }

  /** A save from before XP existed still loads: merged into the default card it keeps
      its own fields and gets xp 0 and level 1. */
  lemma OldSaveLoads(parsed: Card)
    requires parsed.xp.None? && parsed.level.None?
    ensures MergeSaved(parsed, DefaultCard).xp == Some(0)
    ensures MergeSaved(parsed, DefaultCard).level == Some(1)
  {
  }

  /** The card state of `CardProvider` (`useState` plus its updaters). */
  class CardProvider {
    var card: Card

    constructor ()
      ensures card == DefaultCard
    {
      card := DefaultCard;
    }

    /** `loadCard`: `saved` is the parsed stored card, `None` when nothing is stored. */
    method LoadCard(saved: Option<Card>)
      modifies this
      ensures saved.None? ==> card == old(card)
      ensures saved.Some? ==> card == MergeSaved(saved.value, old(card))
    {
      if saved.Some? {
        card := MergeSaved(saved.value, card);
      }
    }

    /** `addXp`: a missing, zero or negative amount changes nothing. */
    method AddXp(amount: Option<int>)
      modifies this
      ensures amount.None? || amount.value <= 0 ==> card == old(card)
      ensures amount.Some? && amount.value > 0 ==> LevelledUp(old(card), amount.value, card)
    {
      if amount.None? || amount.value <= 0 {
        return;
      }
      card := ApplyXp(card, amount.value);
    }
  }
}

/**
  The arithmetic of the `/dealDamage` and `/addTemporaryHP` handlers of app.js, as pure
  functions over a character's numbers. The handlers themselves, which update a character
  in place, are in module Characters and are specified by these functions.
 */
module Resolver {
  import opened Wrappers

  /** One entry of a character's `defenses` list: the damage type it names and the defense against it. */
  datatype Defense = Defense(damageType: string, defense: string)

  const Immunity: string := "immunity"
  const Resistance: string := "resistance"

  /** Entry `i` is the first entry of `defenses` whose type is exactly `damageType`. */
  predicate IsFirstMatch(defenses: seq<Defense>, damageType: string, i: int)
  {
    && 0 <= i < |defenses|
    && defenses[i].damageType == damageType
    && forall j :: 0 <= j < i ==> defenses[j].damageType != damageType
  }

  /** The entry consulted for `damageType` exists and its defense is exactly `defense`. */
  ghost predicate MatchedDefenseIs(defenses: seq<Defense>, damageType: string, defense: string)
  {
    exists i :: IsFirstMatch(defenses, damageType, i) && defenses[i].defense == defense
  }

  /** The index of the entry that `defenses.find(def => def.type === damageType)` yields, if any. */
  function FirstMatch(defenses: seq<Defense>, damageType: string): (r: Option<nat>)
    ensures r.Some? ==> IsFirstMatch(defenses, damageType, r.value)
    ensures r.None? ==> forall j :: 0 <= j < |defenses| ==> defenses[j].damageType != damageType
  {
    if defenses == [] then None
    else if defenses[0].damageType == damageType then Some(0)
    else match FirstMatch(defenses[1..], damageType)
      case None => None
      case Some(i) => Some(i + 1)
  }

  /** Two first matches are the same entry. */
  lemma FirstMatchUnique(defenses: seq<Defense>, damageType: string, i: int, k: int)
    requires IsFirstMatch(defenses, damageType, i) && IsFirstMatch(defenses, damageType, k)
    ensures i == k
  {
  }

  /** What the defense list does to an incoming hit: nothing gets through, or `finalDamage` does. */
  datatype Mitigation = Nullified | Takes(finalDamage: int)

  /** The defense lookup of the damage handler: immunity stops the hit, resistance halves it (rounding down). */
  function Mitigate(defenses: seq<Defense>, damageType: string, damage: int): (r: Mitigation)
    ensures r.Nullified? <==> MatchedDefenseIs(defenses, damageType, Immunity)
    ensures r.Takes? && MatchedDefenseIs(defenses, damageType, Resistance) ==>
              2 * r.finalDamage <= damage < 2 * r.finalDamage + 2
    ensures r.Takes? && !MatchedDefenseIs(defenses, damageType, Resistance) ==>
              r.finalDamage == damage
  {
    match FirstMatch(defenses, damageType)
    case None => Takes(damage)
    case Some(i) =>
      if defenses[i].defense == Immunity then Nullified
      else if defenses[i].defense == Resistance then Takes(damage / 2)
      else Takes(damage)
  }

  /** The temporary-HP buffer after a hit and the damage that reaches the hit points. */
  datatype Absorption = Absorption(tempHP: int, passThrough: int)

  /**
    Temporary-HP absorption as the handler writes it: a buffer at least as large as the hit
    absorbs all of it; otherwise the buffer is zeroed BEFORE the pass-through is computed, so
    the whole hit reaches the hit points and the buffer is lost as well.
   */
  function Absorb(tempHP: int, finalDamage: int): (r: Absorption)
    ensures r.tempHP >= 0
    ensures tempHP >= finalDamage ==> r.passThrough == 0 && r.tempHP + finalDamage == tempHP
    ensures tempHP < finalDamage ==> r.tempHP == 0 && r.passThrough == finalDamage
  {
    if tempHP >= finalDamage then Absorption(tempHP - finalDamage, 0)
    else Absorption(0, finalDamage)
  }

  /** The reading in which only what exceeds the buffer passes through; NOT what the handler does. */
  function AbsorbBufferFirst(tempHP: int, finalDamage: int): Absorption
  {
    if tempHP >= finalDamage then Absorption(tempHP - finalDamage, 0)
    else Absorption(0, finalDamage - tempHP)
  }

  /** The handler agrees with the buffer-first reading exactly when the buffer covers the hit or is empty. */
  lemma AbsorbAgreesWithBufferFirstIff(tempHP: int, finalDamage: int)
    ensures Absorb(tempHP, finalDamage) == AbsorbBufferFirst(tempHP, finalDamage)
            <==> tempHP >= finalDamage || tempHP == 0
  {
  }

  /** A buffer of 10 against a hit of 15: the handler lets all 15 through, the buffer-first reading 5. */
  lemma AbsorbTenAgainstFifteen()
    ensures Absorb(10, 15) == Absorption(0, 15)
    ensures AbsorbBufferFirst(10, 15) == Absorption(0, 5)
  {
  }

  /** The hit-point update: subtract what passes through, but never go below zero. */
  function HitPointsAfter(hitPoints: int, passThrough: int): (r: int)
    ensures r >= 0
    ensures r == Max(0, hitPoints - passThrough)
  {
    if hitPoints > passThrough then hitPoints - passThrough else 0
  }

  /** Result of the damage handler: the character is immune, or it took `finalDamage` and has these numbers. */
  datatype Outcome = Immune | Hit(finalDamage: int, hitPoints: int, tempHP: int)

  /** The whole damage calculation of the `/dealDamage` handler. */
  function Resolve(hitPoints: int, tempHP: int, defenses: seq<Defense>, damageType: string, damage: int): (r: Outcome)
    ensures r.Immune? <==> MatchedDefenseIs(defenses, damageType, Immunity)
    ensures r.Hit? && MatchedDefenseIs(defenses, damageType, Resistance) ==>
              2 * r.finalDamage <= damage < 2 * r.finalDamage + 2
    ensures r.Hit? && !MatchedDefenseIs(defenses, damageType, Resistance) ==> r.finalDamage == damage
    ensures r.Hit? ==> r.hitPoints >= 0 && r.tempHP >= 0
    ensures r.Hit? && tempHP >= r.finalDamage ==>
              r.tempHP == tempHP - r.finalDamage && r.hitPoints == Max(0, hitPoints)
    ensures r.Hit? && tempHP < r.finalDamage ==>
              r.tempHP == 0 && r.hitPoints == Max(0, hitPoints - r.finalDamage)
  {
    match Mitigate(defenses, damageType, damage)
    case Nullified => Immune
    case Takes(finalDamage) =>
      var a := Absorb(tempHP, finalDamage);
      Hit(finalDamage, HitPointsAfter(hitPoints, a.passThrough), a.tempHP)
  }

  /** Damage never raises hit points or the buffer above what they were (or zero). */
  lemma DamageNeverHeals(hitPoints: int, tempHP: int, defenses: seq<Defense>, damageType: string, damage: int)
    requires damage >= 0
    ensures var r := Resolve(hitPoints, tempHP, defenses, damageType, damage);
            r.Hit? ==> r.finalDamage >= 0 && r.hitPoints <= Max(0, hitPoints) && r.tempHP <= Max(0, tempHP)
  {
  }

  /** With a non-negative buffer, a larger hit of the same type never leaves more hit points or more buffer than a smaller one. */
  lemma ResolveMonotone(hitPoints: int, tempHP: int, defenses: seq<Defense>, damageType: string,
                          small: int, large: int)
    requires tempHP >= 0 && small <= large
    ensures var s := Resolve(hitPoints, tempHP, defenses, damageType, small);
            var l := Resolve(hitPoints, tempHP, defenses, damageType, large);
            s.Hit? == l.Hit? &&
            (s.Hit? ==> s.finalDamage <= l.finalDamage && l.hitPoints <= s.hitPoints && l.tempHP <= s.tempHP)
  {
  }

  /** Entries after the first match are never consulted: appending entries changes nothing once a match exists. */
  lemma EntriesAfterFirstMatchIgnored(hitPoints: int, tempHP: int, defenses: seq<Defense>, extra: seq<Defense>,
                                      damageType: string, damage: int)
    requires FirstMatch(defenses, damageType).Some?
    ensures Resolve(hitPoints, tempHP, defenses + extra, damageType, damage)
            == Resolve(hitPoints, tempHP, defenses, damageType, damage)
  {
    var i := FirstMatch(defenses, damageType).value;
    assert IsFirstMatch(defenses + extra, damageType, i);
    var k := FirstMatch(defenses + extra, damageType).value;
    FirstMatchUnique(defenses + extra, damageType, i, k);
  }

  /**
    A plain hit (no defense for the type, an empty buffer, less damage than hit points) takes
    exactly the reported damage off the hit points.
   */
  lemma PlainHitLosesExactlyTheDamage(hitPoints: int, defenses: seq<Defense>, damageType: string, damage: int)
    requires FirstMatch(defenses, damageType).None?
    requires 0 <= damage < hitPoints
    ensures var r := Resolve(hitPoints, 0, defenses, damageType, damage);
            r.Hit? && r.tempHP == 0 && r.hitPoints + r.finalDamage == hitPoints
  {
  }

  /**
    The condition of `/addTemporaryHP`: a new amount replaces an empty buffer or a smaller one.
    `!character.tempHP` is read as `current == 0`.
   */
  predicate ReplacesTempHP(current: int, amount: int)
  {
    current == 0 || amount > current
  }

  /** The buffer after `/addTemporaryHP`: the new amount if it replaces, otherwise the current buffer. */
  function NewTempHP(current: int, amount: int): (r: int)
    ensures r == current || r == amount
    ensures current == 0 ==> r == amount
    ensures current != 0 || amount >= 0 ==> r == Max(current, amount)
  {
    if ReplacesTempHP(current, amount) then amount else current
  }

  /** Granting the same temporary HP twice is the same as granting it once. */
  lemma NewTempHPIdempotent(current: int, amount: int)
    ensures NewTempHP(NewTempHP(current, amount), amount) == NewTempHP(current, amount)
  {
  }
}

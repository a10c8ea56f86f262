/**
  A stored character as the three mutating route handlers of app.js see it: a document whose
  `hitPoints` and `tempHP` fields the handlers reassign in place before saving it.
 */
module Characters {
  import opened Wrappers
  import opened Resolver

  class Character {
    var name: string
    var hitPoints: int
    var tempHP: int
    var defenses: seq<Defense>

    constructor (name: string, hitPoints: int, tempHP: int, defenses: seq<Defense>)
      ensures this.name == name && this.hitPoints == hitPoints
      ensures this.tempHP == tempHP && this.defenses == defenses
    {
      this.name := name;
      this.hitPoints := hitPoints;
      this.tempHP := tempHP;
      this.defenses := defenses;
    }

    /**
      The body of `/dealDamage` once the character is found. `immune` tells which of the two
      responses is sent; `finalDamage` is the amount the other response reports.
     */
    method DealDamage(damageType: string, damage: int) returns (immune: bool, finalDamage: int)
      modifies this`hitPoints, this`tempHP
      ensures var r := Resolve(old(hitPoints), old(tempHP), defenses, damageType, damage);
              && (immune <==> r.Immune?)
              && (r.Immune? ==> hitPoints == old(hitPoints) && tempHP == old(tempHP))
              && (r.Hit? ==> finalDamage == r.finalDamage && hitPoints == r.hitPoints && tempHP == r.tempHP)
      ensures !immune ==> hitPoints >= 0 && tempHP >= 0
    {
      finalDamage := damage;
      var found := FirstMatch(defenses, damageType);
      if found.Some? {
        var defense := defenses[found.value];
        if defense.defense == Immunity {
          return true, finalDamage;
        } else if defense.defense == Resistance {
          finalDamage := damage / 2;
        }
      }

      var notAbsorbed := finalDamage;
      var buffer := tempHP;
      if buffer >= finalDamage {
        buffer := buffer - finalDamage;
        notAbsorbed := 0;
      } else {
        buffer := 0;
        notAbsorbed := finalDamage - buffer;
      }
      tempHP := buffer;

      var hp := hitPoints;
      if hp > notAbsorbed {
        hp := hp - notAbsorbed;
      } else {
        hp := 0;
      }
      hitPoints := hp;
      immune := false;
    }

    /** The body of `/heal`: the amount is added with no upper cap; nothing else changes. */
    method Heal(healingAmount: int)
      modifies this`hitPoints
      ensures hitPoints == old(hitPoints) + healingAmount
    {
      hitPoints := hitPoints + healingAmount;
    }

    /**
      The body of `/addTemporaryHP`: an empty buffer, or one smaller than the new amount, is
      replaced; otherwise nothing changes. `replaced` tells which response is sent.
     */
    method AddTemporaryHP(amount: int) returns (replaced: bool)
      modifies this`tempHP
      ensures replaced <==> ReplacesTempHP(old(tempHP), amount)
      ensures tempHP == NewTempHP(old(tempHP), amount)
      ensures !replaced ==> tempHP == old(tempHP)
      ensures old(tempHP) >= 0 && amount >= 0 ==> tempHP == Max(old(tempHP), amount)
    {
      if tempHP == 0 || amount > tempHP {
        tempHP := amount;
        replaced := true;
      } else {
        replaced := false;
      }
    }
  }

  /**
    A client of the handlers: with no defense for the type, an empty buffer and less damage
    than hit points, healing the damage `/dealDamage` reports restores the hit points.
   */
  method HealUndoesPlainHit(c: Character, damageType: string, damage: int)
    requires FirstMatch(c.defenses, damageType).None?
    requires c.tempHP == 0 && 0 <= damage < c.hitPoints
    modifies c
    ensures c.hitPoints == old(c.hitPoints) && c.tempHP == 0
  {
    var immune, finalDamage := c.DealDamage(damageType, damage);
    PlainHitLosesExactlyTheDamage(old(c.hitPoints), c.defenses, damageType, damage);
    c.Heal(finalDamage);
  }
}

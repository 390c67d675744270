/** A character's investment in one character class: its level, hit points,
    base attack bonus and saving throws, derived from the class description. */
module ClassInstances {

  /** The fields of a class description that the investment reads. `saves`
      maps each save name to its progression flag (1 for a good save). The
      description is loaded from a JSON file; that loading is not modelled. */
  datatype PFClass = PFClass(name: string, hitDie: int, baseAttack: real, saves: map<string, int>)

  /** The fields of an investment, as values. */
  datatype Investment = Investment(name: string, level: int, hitDie: int, hitPoints: int, bab: real, saves: map<string, int>)

  /** A good save: 2 plus half the level, rounded down. */
  function GoodSave(level: int): int
  {
    2 + level / 2
  }

  /** A bad save: a third of the level, rounded down. */
  function BadSave(level: int): int
  {
    level / 3
  }

  /** The save for one progression flag. */
  function SaveFor(flag: int, level: int): int
  {
    if flag == 1 then GoodSave(level) else BadSave(level)
  }

  /** Hit points: the full hit die at level 1, and half the die plus one,
      rounded down, for each further level. */
  function HitPoints(hitDie: int, level: int): int
  {
    if level == 1 then hitDie
    else
      var perLevel := hitDie / 2 + 1;
      hitDie + perLevel * (level - 1)
  }

  /** The saves of an investment: one per save of the class. */
  function SaveTable(flags: map<string, int>, level: int): (t: map<string, int>)
    ensures t.Keys == flags.Keys
  {
    map k | k in flags :: SaveFor(flags[k], level)
  }

  /** What investing `level` levels in class `c` gives. */
  function Invest(c: PFClass, level: int): Investment
  {
    Investment(c.name, level, c.hitDie, HitPoints(c.hitDie, level), c.baseAttack * level as real, SaveTable(c.saves, level))
  }

  // ---------------------------------------------------------------- properties

  /** Dafny's `/` with divisor 2 or 3 is Python 2's floor division, also for
      negative levels: the quotient is the largest integer not above the
      exact one. */
  lemma SavesAreFloors(level: int)
    ensures 2 * (GoodSave(level) - 2) <= level < 2 * (GoodSave(level) - 2) + 2
    ensures 3 * BadSave(level) <= level < 3 * BadSave(level) + 3
  {
  }

  /** From level 0 up, a good save is never below a bad one. */
  lemma GoodAtLeastBad(level: int)
    requires level >= 0
    ensures GoodSave(level) >= BadSave(level)
    ensures GoodSave(level) - BadSave(level) >= 2
  {
    SavesAreFloors(level);
  }

  /** The level-1 case agrees with the general formula, so hit points are
      one closed form for every level. */
  lemma HitPointsClosedForm(hitDie: int, level: int)
    ensures HitPoints(hitDie, level) == hitDie + (hitDie / 2 + 1) * (level - 1)
  {
  }

  /** Each further level adds half the hit die plus one. */
  lemma {:induction false} HitPointsStep(hitDie: int, level: int)
    ensures HitPoints(hitDie, level + 1) == HitPoints(hitDie, level) + hitDie / 2 + 1
  {
    HitPointsClosedForm(hitDie, level);
    HitPointsClosedForm(hitDie, level + 1);
  }

  /** With a non-negative hit die, hit points never decrease as the level rises,
      and from level 1 up they are at least the hit die. */
  lemma {:induction false} HitPointsMonotonic(hitDie: int, low: int, high: int)
    requires hitDie >= 0 && low <= high
    ensures HitPoints(hitDie, low) <= HitPoints(hitDie, high)
    ensures low >= 1 ==> HitPoints(hitDie, low) >= hitDie
  {
    HitPointsClosedForm(hitDie, low);
    HitPointsClosedForm(hitDie, high);
    var perLevel := hitDie / 2 + 1;
    assert perLevel >= 1;
    MultiplyMonotonic(perLevel, low - 1, high - 1);
    if low >= 1 {
      MultiplyMonotonic(perLevel, 0, low - 1);
    }
  }

  lemma MultiplyMonotonic(k: int, a: int, b: int)
    requires k >= 0 && a <= b
    ensures k * a <= k * b
  {
  }

  /** The save table has the class's save names, and each save follows the
      class's flag: good for 1, bad otherwise. */
  lemma SaveTableValues(flags: map<string, int>, level: int)
    ensures forall k :: k in SaveTable(flags, level) <==> k in flags
    ensures forall k :: k in flags && flags[k] == 1 ==> SaveTable(flags, level)[k] == 2 + level / 2
    ensures forall k :: k in flags && flags[k] != 1 ==> SaveTable(flags, level)[k] == level / 3
    ensures level >= 0 ==> forall k :: k in flags ==> SaveTable(flags, level)[k] >= level / 3
  {
    if level >= 0 {
      GoodAtLeastBad(level);
    }
  }

  // ---------------------------------------------------------------- the object

  /** `PFClassInstance`. */
  class ClassInstance {
    /** The class description the investment was made in. */
    const pfClass: PFClass
    var name: string
    var level: int
    var hitPoints: int
    var hitDie: int
    var bab: real
    var saves: map<string, int>

    function Fields(): Investment
      reads this
    {
      Investment(name, level, hitDie, hitPoints, bab, saves)
    }

    /** Copies the class's name and hit die, then computes hit points, base
        attack bonus and saves. */
    constructor (c: PFClass, level: int)
      ensures pfClass == c
      ensures Fields() == Invest(c, level)
    {
      pfClass := c;
      name := c.name;
      this.level := level;
      hitPoints := 0;
      hitDie := c.hitDie;
      new;
      CalculateHitPoints();
      bab := c.baseAttack * level as real;
      saves := map[];
      CalculateSavingThrows();
    }

    /** `__calculate_hit_points`. */
    method CalculateHitPoints()
      modifies this
      ensures Fields() == old(Fields()).(hitPoints := HitPoints(hitDie, level))
    {
      if level == 1 {
        hitPoints := hitDie;
      } else {
        var perLevel := hitDie / 2 + 1;
        hitPoints := hitDie + perLevel * (level - 1);
      }
    }

    /** `__calculate_saving_throws`: one save per save name of the class, in
        any order, written into `saves`. */
    method CalculateSavingThrows()
      modifies this
      ensures Fields() == old(Fields()).(saves := old(saves) + SaveTable(pfClass.saves, level))
    {
      var todo := pfClass.saves.Keys;
      while todo != {}
        invariant todo <= pfClass.saves.Keys
        invariant Fields() == old(Fields()).(saves := saves)
        invariant saves == old(saves) + map k | k in pfClass.saves.Keys - todo :: SaveFor(pfClass.saves[k], level)
        decreases todo
      {
        var key :| key in todo;
        if pfClass.saves[key] == 1 {
          saves := saves[key := GoodSave(level)];
        } else {
          saves := saves[key := BadSave(level)];
        }
        todo := todo - {key};
      }
    }
  }
}

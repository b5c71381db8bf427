/** Receiving experience and levelling up (silkroad-agent/src/game/exp.rs and comp/exp.rs), and the
    amount that the "level" command sends (silkroad-agent/src/chat/command/system.rs). */
module ExperienceLoop {
  import opened Words

  const EXP_PER_SP := 400
  const MAX_LEVEL := 255

  /** Experience required at each level. */
  type LevelMap = map<u8, u64>

  // ---------------------------------------------------------------- Climbing

  /** The loop gets somewhere at the last level, where the level number no longer grows. */
  predicate Terminates(levels: LevelMap) {
    MAX_LEVEL in levels ==> levels[MAX_LEVEL] > 0
  }

  predicate CanLevel(levels: LevelMap, level: u8, exp: nat) {
    level in levels && exp >= levels[level]
  }

  function NextLevel(level: u8): u8 {
    if level < MAX_LEVEL then level + 1 else MAX_LEVEL
  }

  /** The requirements that experience `exp` pays for, from a level upwards. */
  function Passed(levels: LevelMap, level: u8, exp: nat): (r: seq<u64>)
    requires Terminates(levels)
    ensures Sum(r) <= exp
    decreases MAX_LEVEL - level + exp
  {
    if CanLevel(levels, level, exp) then [levels[level]] + Passed(levels, NextLevel(level), exp - levels[level]) else []
  }

  function Sum(s: seq<u64>): nat {
    if s == [] then 0 else s[0] + Sum(s[1..])
  }

  function LevelAfter(level: u8, steps: nat): u8 {
    if level + steps < MAX_LEVEL then level + steps else MAX_LEVEL
  }

  /** Where the climb ends: below the next requirement, or at a level without one. */
  lemma {:induction false} ClimbEnds(levels: LevelMap, level: u8, exp: nat)
    requires Terminates(levels)
    ensures var passed := Passed(levels, level, exp);
      !CanLevel(levels, LevelAfter(level, |passed|), exp - Sum(passed))
    decreases MAX_LEVEL - level + exp
  {
    if CanLevel(levels, level, exp) {
      ClimbEnds(levels, NextLevel(level), exp - levels[level]);
      var later := Passed(levels, NextLevel(level), exp - levels[level]);
      assert Passed(levels, level, exp)[1..] == later;
      assert LevelAfter(level, 1 + |later|) == LevelAfter(NextLevel(level), |later|);
    }
  }

  // ---------------------------------------------------------------- Components

  datatype ExperienceGained = ExperienceGained(exp: u64, spExp: u64, triggeredLevelUp: bool)

  class Experienced {
    var experience: u64
    var spExp: u64
    var gains: seq<ExperienceGained>

    constructor (experience: u64, spExp: u64)
      ensures this.experience == experience && this.spExp == spExp && gains == []
    {
      this.experience, this.spExp, gains := experience, spExp, [];
    }

    method Receive(exp: u64, sp: u64)
      requires experience + exp < 0x1_0000_0000_0000_0000 && spExp + sp < 0x1_0000_0000_0000_0000
      modifies this
      ensures experience == old(experience) + exp && spExp == old(spExp) + sp
      ensures gains == old(gains) + [ExperienceGained(exp, sp, false)]
    {
      experience := experience + exp;
      spExp := spExp + sp;
      gains := gains + [ExperienceGained(exp, sp, false)];
    }

    method TryLevelUp(required: u64) returns (up: bool)
      modifies this`experience, this`gains
      ensures up <==> old(experience) >= required
      ensures experience == old(experience) - (if up then required else 0)
      ensures gains == if up then Triggered(old(gains)) else old(gains)
    {
      if experience >= required {
        experience := experience - required;
        if gains != [] {
          gains := gains[|gains| - 1 := gains[|gains| - 1].(triggeredLevelUp := true)];
        }
        return true;
      }
      return false;
    }

    /** Whole skill points leave the skill experience. */
    method ConvertSp() returns (points: u32)
      requires spExp / EXP_PER_SP < 0x1_0000_0000
      modifies this`spExp
      ensures 400 * points + spExp == old(spExp) && spExp < 400
    {
      points := spExp / EXP_PER_SP;
      spExp := spExp % EXP_PER_SP;
    }
  }

  function Triggered(gains: seq<ExperienceGained>): (r: seq<ExperienceGained>)
    ensures |r| == |gains|
  {
    if gains == [] then [] else gains[|gains| - 1 := gains[|gains| - 1].(triggeredLevelUp := true)]
  }

  class SP {
    var sp: u32

    constructor (sp: u32)
      ensures this.sp == sp
    {
      this.sp := sp;
    }

    method Gain(amount: u32)
      requires sp + amount < 0x1_0000_0000
      modifies this
      ensures sp == old(sp) + amount
    {
      sp := sp + amount;
    }
  }

  class Leveled {
    var level: u8
    var maxLevel: u8
    var leveledUp: int

    constructor (level: u8, maxLevel: u8)
      ensures this.level == level && this.maxLevel == maxLevel && leveledUp == 0
    {
      this.level, this.maxLevel, leveledUp := level, maxLevel, 0;
    }

    /** The counter of level-ups is a signed byte. */
    method LevelUp()
      requires leveledUp < 127
      modifies this
      ensures level == NextLevel(old(level)) && leveledUp == old(leveledUp) + 1
      ensures maxLevel == if level > old(maxLevel) then level else old(maxLevel)
    {
      level := NextLevel(level);
      maxLevel := if level > maxLevel then level else maxLevel;
      leveledUp := leveledUp + 1;
    }
  }

  /** One event of `receive_experience`. It terminates, conserves experience and skill experience and
      stops where no further level can be paid. The bounds are the ones past which a counter overflows. */
  method ReceiveExperience(levels: LevelMap, level: Leveled, experienced: Experienced, points: SP, exp: u64, sp: u64)
    requires Terminates(levels)
    requires experienced.experience + exp < 0x1_0000_0000_0000_0000 && experienced.spExp + sp < 0x1_0000_0000_0000_0000
    requires points.sp + (experienced.spExp + sp) / EXP_PER_SP < 0x1_0000_0000
    requires level.leveledUp + |Passed(levels, level.level, experienced.experience + exp)| <= 127
    modifies level, experienced, points
    ensures var passed :=
              if exp == 0 && sp == 0 then [] else Passed(levels, old(level.level), old(experienced.experience) + exp);
      && experienced.experience + Sum(passed) == old(experienced.experience) + exp
      && level.level == LevelAfter(old(level.level), |passed|)
      && level.leveledUp == old(level.leveledUp) + |passed|
      && level.maxLevel == (if passed != [] && level.level > old(level.maxLevel) then level.level else old(level.maxLevel))
      && experienced.gains == old(experienced.gains)
           + if exp == 0 && sp == 0 then [] else [ExperienceGained(exp, sp, passed != [])]
    ensures 400 * points.sp + experienced.spExp == 400 * old(points.sp) + old(experienced.spExp) + sp
    ensures exp + sp > 0 ==> !CanLevel(levels, level.level, experienced.experience) && experienced.spExp < 400
  {
    if exp == 0 && sp == 0 {
      return;
    }
    experienced.Receive(exp, sp);
    var received := experienced.ConvertSp();
    if received > 0 {
      points.Gain(received);
    }
    ClimbEnds(levels, level.level, experienced.experience);
    LevelUpAll(levels, level, experienced);
  }

  /** The loop of `receive_experience`. */
  method LevelUpAll(levels: LevelMap, level: Leveled, experienced: Experienced)
    requires Terminates(levels)
    requires level.leveledUp + |Passed(levels, level.level, experienced.experience)| <= 127
    modifies level, experienced`experience, experienced`gains
    ensures var passed := Passed(levels, old(level.level), old(experienced.experience));
      && experienced.experience == old(experienced.experience) - Sum(passed)
      && level.level == LevelAfter(old(level.level), |passed|)
      && level.leveledUp == old(level.leveledUp) + |passed|
      && level.maxLevel == (if passed != [] && level.level > old(level.maxLevel) then level.level else old(level.maxLevel))
      && experienced.gains == if passed != [] then Triggered(old(experienced.gains)) else old(experienced.gains)
  {
    ghost var total, start, steps := experienced.experience, level.level, 0;
    ghost var all := Passed(levels, start, total);
    ghost var left := all;
    while level.level in levels
      invariant level.level == LevelAfter(start, steps) && steps + |left| == |all|
      invariant left == Passed(levels, level.level, experienced.experience)
      invariant experienced.experience - Sum(left) == total - Sum(all)
      invariant level.leveledUp == old(level.leveledUp) + steps
      invariant level.maxLevel ==
        if steps > 0 && level.level > old(level.maxLevel) then level.level else old(level.maxLevel)
      invariant experienced.gains == if steps > 0 then Triggered(old(experienced.gains)) else old(experienced.gains)
      decreases MAX_LEVEL - level.level + experienced.experience
    {
      var up := experienced.TryLevelUp(levels[level.level]);
      if !up {
        break;
      }
      assert left[1..] == Passed(levels, NextLevel(level.level), experienced.experience);
      level.LevelUp();
      left, steps := left[1..], steps + 1;
    }
  }

  // ---------------------------------------------------------------- The level command

  /** `Overflow`: the sum or the difference does not fit 64 bits. */
  datatype LevelAnswer = NotHigher | NotPossible | Overflow | Grant(exp: u64)

  /** The sum over the mapped levels of [low, high). */
  function TotalRequired(levels: LevelMap, low: nat, high: nat): nat
    requires high <= 0x100
    decreases high - low
  {
    if low >= high then 0
    else (if low in levels then levels[low] else 0) + TotalRequired(levels, low + 1, high)
  }

  function LevelCommand(levels: LevelMap, playerLevel: u8, playerExp: u64, target: u8): LevelAnswer {
    if target <= playerLevel then NotHigher
    else
      var total := TotalRequired(levels, playerLevel, target);
      if total >= 0x1_0000_0000_0000_0000 then Overflow
      else if total == 0 then NotPossible
      else if total < playerExp then Overflow
      else Grant(total - playerExp)
  }

  predicate AllMapped(levels: LevelMap, low: u8, high: u8) {
    forall l: u8 :: low <= l < high ==> l in levels
  }

  lemma {:induction false} ClimbExactly(levels: LevelMap, low: u8, target: u8)
    requires Terminates(levels) && low <= target && AllMapped(levels, low, target)
    requires target in levels ==> levels[target] > 0
    ensures var total := TotalRequired(levels, low, target); var passed := Passed(levels, low, total);
      Sum(passed) == total && |passed| == target - low
    decreases target - low
  {
    if low < target {
      ClimbExactly(levels, low + 1, target);
      var total := TotalRequired(levels, low, target);
      assert Passed(levels, low, total)[1..] == Passed(levels, low + 1, total - levels[low]);
    }
  }

  lemma {:induction false} ClimbStopsAtGap(levels: LevelMap, level: u8, gap: u8, exp: nat)
    requires Terminates(levels) && level <= gap && gap !in levels
    ensures |Passed(levels, level, exp)| <= gap - level
    decreases MAX_LEVEL - level + exp
  {
    if CanLevel(levels, level, exp) {
      ClimbStopsAtGap(levels, NextLevel(level), gap, exp - levels[level]);
    }
  }

  /** The experience that the "level" command grants takes a synced character to the target level with
      nothing left over, exactly when every level on the way is mapped. */
  lemma LevelCommandIsExact(levels: LevelMap, playerLevel: u8, playerExp: u64, target: u8)
    requires Terminates(levels) && (target in levels ==> levels[target] > 0)
    requires LevelCommand(levels, playerLevel, playerExp, target).Grant?
    ensures var exp := playerExp + LevelCommand(levels, playerLevel, playerExp, target).exp;
      var passed := Passed(levels, playerLevel, exp);
      (LevelAfter(playerLevel, |passed|) == target && exp - Sum(passed) == 0) <==> AllMapped(levels, playerLevel, target)
  {
    if AllMapped(levels, playerLevel, target) {
      ClimbExactly(levels, playerLevel, target);
    } else {
      var gap: u8 :| playerLevel <= gap < target && gap !in levels;
      ClimbStopsAtGap(levels, playerLevel, gap, playerExp + LevelCommand(levels, playerLevel, playerExp, target).exp);
    }
  }

  /** For a character below its current requirement, with all levels in the range mapped and some
      requirement positive, the command does grant. */
  lemma LevelCommandGrants(levels: LevelMap, playerLevel: u8, playerExp: u64, target: u8)
    requires playerLevel < target && AllMapped(levels, playerLevel, target)
    requires playerExp < levels[playerLevel] && TotalRequired(levels, playerLevel, target) < 0x1_0000_0000_0000_0000
    ensures LevelCommand(levels, playerLevel, playerExp, target).Grant?
  {
  }

  /** When the command grants nothing: the target is not higher, or every mapped level on the way is free, or the
      sum or the difference does not fit. */
  lemma LevelCommandAnswers(levels: LevelMap, playerLevel: u8, playerExp: u64, target: u8)
    ensures var answer := LevelCommand(levels, playerLevel, playerExp, target);
      var total := TotalRequired(levels, playerLevel, target);
      && (answer.NotHigher? <==> target <= playerLevel)
      && (answer.NotPossible? <==>
            target > playerLevel && forall l: u8 :: playerLevel <= l < target && l in levels ==> levels[l] == 0)
      && (answer.Overflow? <==>
            target > playerLevel && total > 0 && (total >= 0x1_0000_0000_0000_0000 || total < playerExp))
      && (answer.Grant? ==> answer.exp == total - playerExp)
  {
    NothingRequired(levels, playerLevel, target);
  }

  lemma {:induction false} NothingRequired(levels: LevelMap, low: nat, high: nat)
    requires high <= 0x100
    ensures TotalRequired(levels, low, high) == 0 <==> forall l: u8 :: low <= l < high && l in levels ==> levels[l] == 0
    decreases high - low
  {
    if low < high {
      NothingRequired(levels, low + 1, high);
      assert forall l: u8 :: low <= l < high && l in levels ==> l == low || low + 1 <= l < high;
    }
  }
}

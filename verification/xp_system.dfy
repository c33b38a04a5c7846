/**
 Experience-point arithmetic: the award for one completion and the
 conversion of a running total into level-ups. Holds no state.
 */
module XpSystem {

  const BaseXpPerAction := 10
  const XpPerLevel := 100

  /** The award for one action; a progress amount below 1 counts as 1. */
  function CalculateXp(progressAmount: int): (xp: int)
    ensures xp >= BaseXpPerAction
    ensures xp % BaseXpPerAction == 0
    ensures progressAmount <= 1 ==> xp == BaseXpPerAction
    ensures progressAmount >= 1 ==> xp == BaseXpPerAction * progressAmount
  {
    BaseXpPerAction * (if progressAmount < 1 then 1 else progressAmount)
  }

  /** A larger progress amount never earns less. */
  lemma CalculateXpMonotone(p: int, q: int)
    requires p <= q
    ensures CalculateXp(p) <= CalculateXp(q)
  {
  }

  /**
   Adds `deltaXp` to `currentXp` and takes away whole levels until less than
   one level is left; returns what is left and how many levels were taken.
   */
  method ApplyXp(currentXp: int, deltaXp: int) returns (remainder: int, levelUps: nat)
    ensures remainder + XpPerLevel * levelUps == currentXp + deltaXp
    ensures remainder < XpPerLevel
    ensures levelUps > 0 ==> 0 <= remainder
    ensures currentXp + deltaXp >= 0 ==>
      remainder == (currentXp + deltaXp) % XpPerLevel &&
      levelUps == (currentXp + deltaXp) / XpPerLevel
    ensures currentXp + deltaXp < XpPerLevel ==>
      remainder == currentXp + deltaXp && levelUps == 0
  {
    var total := currentXp + deltaXp;
    levelUps := 0;
    while total >= XpPerLevel
      invariant total + XpPerLevel * levelUps == currentXp + deltaXp
      invariant levelUps > 0 ==> total >= 0
      decreases total
    {
      total := total - XpPerLevel;
      levelUps := levelUps + 1;
    }
    remainder := total;
  }

  /** Worked examples of `CalculateXp` and `ApplyXp`: the awards for amounts 0, 1 and 5, and three level computations. */
  method Examples()
  {
    assert CalculateXp(0) == 10 && CalculateXp(1) == 10 && CalculateXp(5) == 50;
    var r, n := ApplyXp(95, 20);
    assert r == 15 && n == 1;
    r, n := ApplyXp(0, 250);
    assert r == 50 && n == 2;
    r, n := ApplyXp(-30, 10);
    assert r == -20 && n == 0;
  }
}

/**
 * src/Weapon.cpp: the fire-rate limiter. A weapon remembers when it last
 * fired and accepts a trigger pull only once its type's delay has passed; a
 * pistol also refuses while the left button is being held.
 */
module Weapons {

  /** Weapon::Type, by its position in the delay table: Pistol is 0, MachineGun is 1 */
  datatype WeaponType = Pistol | MachineGun

  /** m_shootDelaysMs: 100 ms between pistol shots, 25 ms between machine-gun shots */
  const ShootDelaysMs: seq<real> := [100.0, 25.0]

  function Index(kind: WeaponType): (i: nat)
    ensures i < |ShootDelaysMs|
  {
    match kind
    case Pistol => 0
    case MachineGun => 1
  }

  function DelayMs(kind: WeaponType): (d: real)
    ensures d > 0.0
  {
    ShootDelaysMs[Index(kind)]
  }

  /**
   * Whether tryShoot accepts a pull at currentTimeMs, given when the weapon
   * last fired: a held pistol never fires, the machine gun ignores the hold
   * flag and fires once 25 ms have passed, and a fresh weapon (last fired at
   * 0) first fires only at or after its delay.
   */
  function Fires(kind: WeaponType, lastTimeFiredMs: real, currentTimeMs: real, holdingMouseLeft: bool): (r: bool)
    ensures kind == Pistol && holdingMouseLeft ==> !r
    ensures kind == Pistol && !holdingMouseLeft ==> (r <==> currentTimeMs - lastTimeFiredMs >= 100.0)
    ensures kind == MachineGun ==> (r <==> currentTimeMs - lastTimeFiredMs >= 25.0)
    ensures lastTimeFiredMs == 0.0 && r ==> currentTimeMs >= DelayMs(kind)
  {
    if kind == Pistol && holdingMouseLeft then false
    else currentTimeMs - lastTimeFiredMs >= DelayMs(kind)
  }

  class Weapon {
    var kind: WeaponType
    var lastTimeFiredMs: real

    /** A new weapon is a pistol that last fired at time 0 */
    constructor ()
      ensures kind == Pistol && lastTimeFiredMs == 0.0
    {
      kind := Pistol;
      lastTimeFiredMs := 0.0;
    }

    /**
     * Fires exactly when Fires says so; a shot moves the last firing time to
     * now, a refusal leaves it alone.
     */
    method TryShoot(currentTimeMs: real, holdingMouseLeft: bool) returns (fired: bool)
      modifies this
      ensures fired == Fires(kind, old(lastTimeFiredMs), currentTimeMs, holdingMouseLeft)
      ensures lastTimeFiredMs == if fired then currentTimeMs else old(lastTimeFiredMs)
      ensures kind == old(kind)
    {
      if kind == Pistol && holdingMouseLeft {
        return false;
      }
      if currentTimeMs - lastTimeFiredMs >= ShootDelaysMs[Index(kind)] {
        lastTimeFiredMs := currentTimeMs;
        return true;
      }
      return false;
    }
  }

  /** One call of tryShoot: the time it is called at and whether the button is held */
  datatype Pull = Pull(currentTimeMs: real, holdingMouseLeft: bool)

  /** The times at which a weapon that last fired at lastTimeFiredMs fires over the pulls, in order */
  function FiredTimes(kind: WeaponType, lastTimeFiredMs: real, pulls: seq<Pull>): seq<real>
    decreases |pulls|
  {
    if pulls == [] then []
    else
      var p := pulls[0];
      if Fires(kind, lastTimeFiredMs, p.currentTimeMs, p.holdingMouseLeft)
      then [p.currentTimeMs] + FiredTimes(kind, p.currentTimeMs, pulls[1..])
      else FiredTimes(kind, lastTimeFiredMs, pulls[1..])
  }

  /** Every shot in a run comes at least one delay after the weapon last fired before the run */
  lemma {:induction false} FiredAfterDelay(kind: WeaponType, lastTimeFiredMs: real, pulls: seq<Pull>)
    ensures forall j | 0 <= j < |FiredTimes(kind, lastTimeFiredMs, pulls)| ::
              FiredTimes(kind, lastTimeFiredMs, pulls)[j] - lastTimeFiredMs >= DelayMs(kind)
    decreases |pulls|
  {
    if pulls != [] {
      var p := pulls[0];
      if Fires(kind, lastTimeFiredMs, p.currentTimeMs, p.holdingMouseLeft) {
        FiredAfterDelay(kind, p.currentTimeMs, pulls[1..]);
      } else {
        FiredAfterDelay(kind, lastTimeFiredMs, pulls[1..]);
      }
    }
  }

  /** Any two shots of a run, taken in order, are at least the delay apart */
  lemma {:induction false} ShotsSpaced(kind: WeaponType, lastTimeFiredMs: real, pulls: seq<Pull>)
    ensures forall i, j | 0 <= i < j < |FiredTimes(kind, lastTimeFiredMs, pulls)| ::
              FiredTimes(kind, lastTimeFiredMs, pulls)[j] - FiredTimes(kind, lastTimeFiredMs, pulls)[i] >= DelayMs(kind)
    decreases |pulls|
  {
    if pulls != [] {
      var p := pulls[0];
      if Fires(kind, lastTimeFiredMs, p.currentTimeMs, p.holdingMouseLeft) {
        ShotsSpaced(kind, p.currentTimeMs, pulls[1..]);
        FiredAfterDelay(kind, p.currentTimeMs, pulls[1..]);
      } else {
        ShotsSpaced(kind, lastTimeFiredMs, pulls[1..]);
      }
    }
  }
}

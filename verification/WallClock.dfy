/** Wall-clock shifts across offset changes (`backend-rs/src/clock.rs`, `UTC(t)` of ECMA-262 section 21.4.1.26). */
module WallClock {
  import opened Clock

  /** The offset from UTC in force at a moment, both in milliseconds. */
  type Zone = int -> int

  predicate Shows(zone: Zone, utc: int, wall: int) { utc + zone(utc) == wall }

  ghost predicate Bounded(zone: Zone) { forall t :: -DAY <= zone(t) <= DAY }

  /** Around `wall` the offset changes at `change` at most. */
  ghost predicate OneChangeAt(zone: Zone, wall: int, change: int)
  {
    forall t :: wall - DAY <= t <= wall + DAY ==>
      zone(t) == if t < change then zone(wall - DAY) else zone(wall + DAY)
  }

  /** `from_local_wall`: the lower of the two candidates that show `wall`, else the first candidate. */
  function FromLocalWall(zone: Zone, wall: int): int
  {
    var before := zone(wall - DAY);
    var after := zone(wall + DAY);
    var shown := [wall - before, wall - after];
    if Shows(zone, shown[0], wall) && Shows(zone, shown[1], wall) then
      if shown[1] < shown[0] then shown[1] else shown[0]
    else if Shows(zone, shown[0], wall) then shown[0]
    else if Shows(zone, shown[1], wall) then shown[1]
    else wall - before
  }

  lemma OnlyTwoCandidates(zone: Zone, wall: int, change: int, t: int)
    requires Bounded(zone) && OneChangeAt(zone, wall, change) && Shows(zone, t, wall)
    ensures t == wall - zone(wall - DAY) || t == wall - zone(wall + DAY)
  {
    assert wall - DAY <= t <= wall + DAY;
  }

  /** The earliest of all moments that show the wall time. */
  lemma EarliestMoment(zone: Zone, wall: int, change: int, t: int)
    requires Bounded(zone) && OneChangeAt(zone, wall, change) && Shows(zone, t, wall)
    ensures var r := FromLocalWall(zone, wall); Shows(zone, r, wall) && r <= t
  {
    OnlyTwoCandidates(zone, wall, change, t);
  }

  /** A skipped wall time is read with the offset before the change, so it shows later by the width of the gap. */
  lemma SkippedTime(zone: Zone, wall: int, change: int)
    requires Bounded(zone) && OneChangeAt(zone, wall, change)
    requires forall t :: !Shows(zone, t, wall)
    ensures var r, gap := FromLocalWall(zone, wall), zone(wall + DAY) - zone(wall - DAY);
            r == wall - zone(wall - DAY) && gap > 0 && Shows(zone, r, wall + gap)
            && r - gap < change <= r
  {
    var before, after := zone(wall - DAY), zone(wall + DAY);
    assert !Shows(zone, wall - before, wall) && !Shows(zone, wall - after, wall);
    assert wall - DAY <= wall - before <= wall + DAY && wall - DAY <= wall - after <= wall + DAY;
  }

  // ------------------------------------------------ more than one change

  /**
   * Whatever the zone does, the result shows the wall time exactly when one of the two offsets tried is in force
   * then.
   */
  lemma ShownExactly(zone: Zone, wall: int)
    ensures var before, after := zone(wall - DAY), zone(wall + DAY);
            Shows(zone, FromLocalWall(zone, wall), wall)
            <==> zone(wall - before) == before || zone(wall - after) == after
  {
  }

  ghost predicate IsEarliest(zone: Zone, r: int, wall: int)
  {
    Shows(zone, r, wall) && forall t :: Shows(zone, t, wall) ==> r <= t
  }

  /** Whatever the zone does, the earliest moment is found exactly when its offset is one of the two tried. */
  lemma EarliestExactly(zone: Zone, wall: int, t: int)
    requires IsEarliest(zone, t, wall)
    ensures FromLocalWall(zone, wall) == t <==> zone(t) == zone(wall - DAY) || zone(t) == zone(wall + DAY)
  {
    assert t == wall - zone(t);
  }

  /** Around `wall` the offset changes twice at most, to `mid` at `first` and on at `second`. */
  ghost predicate TwoChangesAt(zone: Zone, wall: int, first: int, mid: int, second: int)
  {
    first <= second && -DAY <= mid <= DAY
    && forall t :: wall - DAY <= t <= wall + DAY ==>
         zone(t) == if t < first then zone(wall - DAY) else if t < second then mid else zone(wall + DAY)
  }

  /**
   * With two changes, a wall time that some moment shows is read as the earliest one exactly unless the offset in
   * between shows it, the one before the changes doesn't, and the one in between is neither of the others.
   */
  lemma EarliestOfTwoChanges(zone: Zone, wall: int, first: int, mid: int, second: int, t: int)
    requires Bounded(zone) && TwoChangesAt(zone, wall, first, mid, second) && Shows(zone, t, wall)
    ensures var before, after := zone(wall - DAY), zone(wall + DAY);
            IsEarliest(zone, FromLocalWall(zone, wall), wall)
            <==> !(first <= wall - mid < second && first <= wall - before && mid != before && mid != after)
  {
    var before, after := zone(wall - DAY), zone(wall + DAY);
    forall s | Shows(zone, s, wall) ensures s == wall - before || s == wall - mid || s == wall - after {
      assert wall - DAY <= s <= wall + DAY;
    }
    assert wall - DAY <= wall - before <= wall + DAY && wall - DAY <= wall - after <= wall + DAY;
    assert wall - DAY <= wall - mid <= wall + DAY;
    assert Shows(zone, wall - mid, wall) <==> zone(wall - mid) == mid;
  }

  /** With two changes inside the window the moment in between can be missed. */
  lemma TwoChangesMissTheMoment() returns (zone: Zone, wall: int)
    ensures Bounded(zone) && exists t :: Shows(zone, t, wall)
    ensures !Shows(zone, FromLocalWall(zone, wall), wall)
  {
    var hour := 3_600_000;
    zone := t => if 0 <= t < 2 * hour then hour else 0;
    wall := hour + hour / 2;
    assert Shows(zone, hour / 2, wall);
  }

  /** And the moment found can be a later one. */
  lemma TwoChangesMissTheEarliest() returns (zone: Zone, wall: int)
    ensures Bounded(zone) && Shows(zone, FromLocalWall(zone, wall), wall)
    ensures !IsEarliest(zone, FromLocalWall(zone, wall), wall)
  {
    var hour := 3_600_000;
    zone := t => if 0 <= t < 3 * hour then 2 * hour else 0;
    wall := 4 * hour;
    assert Shows(zone, 2 * hour, wall);
  }

  /** `local_days_before`: the moment that shows the same wall time `days` calendar days earlier. */
  function LocalDaysBefore(zone: Zone, now: int, days: int): int
  {
    FromLocalWall(zone, now + zone(now) - days * DAY)
  }

  /**
   * The result is the earliest moment that shows the same wall time `days` calendar days earlier, when one does; else
   * it shows it later by the width of the gap.
   */
  lemma DaysBefore(zone: Zone, now: int, wall: int, days: int, change: int)
    requires Bounded(zone) && Shows(zone, now, wall) && OneChangeAt(zone, wall - days * DAY, change)
    ensures var r, there := LocalDaysBefore(zone, now, days), wall - days * DAY;
            (forall t :: Shows(zone, t, there) ==> Shows(zone, r, there) && r <= t)
            && ((forall t :: !Shows(zone, t, there)) ==>
                  Shows(zone, r, there + (zone(there + DAY) - zone(there - DAY))))
  {
    hide FromLocalWall;
    var there := wall - days * DAY;
    assert now + zone(now) - days * DAY == there;
    forall t | Shows(zone, t, there)
      ensures var r := FromLocalWall(zone, there); Shows(zone, r, there) && r <= t
    {
      EarliestMoment(zone, there, change, t);
    }
    if forall t :: !Shows(zone, t, there) { SkippedTime(zone, there, change); }
  }

  /**
   * Going back some days and forward again returns to the start, when the wall time `wall` that `now` shows
   * exists on the other day too (`there` shows it) and `now` isn't the second showing of it.
   */
  lemma DaysThereAndBack(zone: Zone, now: int, wall: int, days: int, change: int, changeThere: int, there: int)
    requires Bounded(zone) && OneChangeAt(zone, wall, change) && OneChangeAt(zone, wall - days * DAY, changeThere)
    requires Shows(zone, now, wall) && Shows(zone, there, wall - days * DAY)
    requires forall t :: Shows(zone, t, wall) ==> now <= t
    ensures LocalDaysBefore(zone, LocalDaysBefore(zone, now, days), -days) == now
  {
    hide FromLocalWall;
    var past := LocalDaysBefore(zone, now, days);
    EarliestMoment(zone, wall - days * DAY, changeThere, there);
    EarliestMoment(zone, wall, change, now);
    assert (-days) * DAY == -(days * DAY);
    assert past + zone(past) - (-days) * DAY == wall;
  }
}

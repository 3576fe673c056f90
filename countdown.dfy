/**
 * `getDiff` of both client files: the time left until the party, split into
 * days, hours, minutes and seconds. Instants are integer milliseconds, which
 * is what subtracting two `Date`s yields.
 */
module Countdown {

  datatype Countdown = Countdown(days: int, hours: int, minutes: int, seconds: int)

  /** A split of `secs` whole seconds into days and a time of day. */
  predicate Splits(c: Countdown, secs: int) {
    && c.days >= 0
    && 0 <= c.hours < 24 && 0 <= c.minutes < 60 && 0 <= c.seconds < 60
    && c.days * 86400 + c.hours * 3600 + c.minutes * 60 + c.seconds == secs
  }

  /** `Math.max(0, target - current)`, in whole seconds. */
  function SecondsLeft(target: int, current: int): (secs: nat)
    ensures target <= current ==> secs == 0
    ensures target > current ==> secs * 1000 <= target - current < secs * 1000 + 1000
  {
    var diff := if target - current > 0 then target - current else 0;
    diff / 1000
  }

  /**
   * The four fields `getDiff` computes from the whole seconds left. Every
   * quantity is non-negative, so `Math.floor` of a quotient and `%` agree
   * with Dafny's division and remainder.
   */
  function Split(secs: nat): (c: Countdown)
    ensures Splits(c, secs)
  {
    var days := secs / (3600 * 24);
    var hours := (secs % (3600 * 24)) / 3600;
    var minutes := (secs % 3600) / 60;
    var seconds := secs % 60;
    assert secs % 3600 == (secs % 86400) % 3600;
    Countdown(days, hours, minutes, seconds)
  }

  /** `getDiff(target, current)`. */
  function GetDiff(target: int, current: int): (c: Countdown)
    ensures Splits(c, SecondsLeft(target, current))
    ensures target <= current ==> c == Countdown(0, 0, 0, 0)
  {
    var secs := SecondsLeft(target, current);
    SplitUnique(0, Countdown(0, 0, 0, 0));
    Split(secs)
  }

  /**
   * The split is the only one: any countdown within the clock bounds that
   * adds up to `secs` is the one `getDiff` computes from it.
   */
  lemma SplitUnique(secs: nat, c: Countdown)
    requires Splits(c, secs)
    ensures c == Split(secs)
  {
    var a := c.hours * 3600 + c.minutes * 60 + c.seconds;
    assert secs / 86400 == c.days && secs % 86400 == a;
    assert a / 3600 == c.hours;
    assert secs % 3600 == c.minutes * 60 + c.seconds;
  }
}

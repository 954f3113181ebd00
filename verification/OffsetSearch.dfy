/** The bounded search for an instant whose reading in a time zone is a wanted one.

    A clock is any function from instants to readings, both in seconds.  Near the present a clock shows
    t + offset(t); readings before year 100 are misread, which `Clock` describes. */
module OffsetSearch {
  import opened Calendar

  const MAX_OFFSET: int := DAY

  /** Four attempts to correct the candidate by the error of its reading. */
  function Settle(expected: int, read: int -> int, candidate: int, attempts: nat): int
    decreases attempts
  {
    if attempts == 0 || read(candidate) == expected then candidate
    else Settle(expected, read, candidate + (expected - read(candidate)), attempts - 1)
  }

  ghost predicate LocalTimeExists(expected: int, offset: int -> int) {
    exists t :: t + offset(t) == expected
  }

  ghost predicate Bounded(offset: int -> int) {
    forall t :: -MAX_OFFSET <= offset(t) <= MAX_OFFSET
  }

  /** Within the largest offset of the target the zone shows no offset besides a and b. */
  ghost predicate TwoOffsets(expected: int, offset: int -> int, a: int, b: int) {
    forall t :: expected - MAX_OFFSET <= t <= expected + MAX_OFFSET ==> offset(t) == a || offset(t) == b
  }

  /** The first two readings stay in year 100 or later. */
  predicate ReadingsStayModern(expected: int, offset: int -> int) {
    && expected + offset(expected) >= YEAR_100
    && var next := expected - offset(expected);
       next + offset(next) >= YEAR_100
  }

  /** The first correction, if it is a solution; else the second, made by the offset at the first. */
  function Corrected(expected: int, offset: int -> int): int {
    var first := expected - offset(expected);
    if first + offset(first) == expected then first else expected - offset(first)
  }

  /** Candidates before this one are only ever corrected further back. */
  const FAR: int := YEAR_MINUS_1000 - MAX_OFFSET

  /** How the reading and the final comparison behave, era by era. */
  ghost predicate Clock(read: int -> int, shows: int -> bool, expected: int, offset: int -> int) {
    && (forall t {:trigger read(t)} :: t + offset(t) >= YEAR_100 ==> read(t) == t + offset(t))
    && (forall t {:trigger read(t)} :: YEAR_100 - 300 * DAY <= t + offset(t) < YEAR_100 ==> read(t) >= YEAR_1900)
    && (forall t {:trigger read(t)} :: t + offset(t) < YEAR_MINUS_1000 ==> read(t) >= YEAR_900)
    && (forall t {:trigger shows(t)} :: t + offset(t) >= YEAR_1 ==> (shows(t) <==> t + offset(t) == expected))
    && (forall t {:trigger shows(t)} :: expected < YEAR_101 && t + offset(t) < YEAR_MINUS_1000 ==> !shows(t))
  }

  lemma {:induction false} FarStaysFar(read: int -> int, shows: int -> bool, expected: int, offset: int -> int,
                                       t: int, attempts: nat)
    requires Clock(read, shows, expected, offset) && Bounded(offset)
    requires expected < YEAR_101 && t < FAR
    ensures !shows(Settle(expected, read, t, attempts))
    decreases attempts
  {
    assert t + offset(t) < YEAR_MINUS_1000;
    if attempts > 0 {
      FarStaysFar(read, shows, expected, offset, t + (expected - read(t)), attempts - 1);
    }
  }

  /** A reading that slips into year 99 throws the candidate out of reach. */
  lemma EarlyReadingFails(read: int -> int, shows: int -> bool, expected: int, offset: int -> int,
                          t: int, attempts: nat)
    requires Clock(read, shows, expected, offset) && Bounded(offset) && attempts > 0
    requires YEAR_100 <= expected && expected - MAX_OFFSET <= t <= expected + MAX_OFFSET
    requires t + offset(t) < YEAR_100
    ensures !shows(Settle(expected, read, t, attempts))
  {
    assert -MAX_OFFSET <= offset(t);
    assert read(t) >= YEAR_1900;
    FarStaysFar(read, shows, expected, offset, t + (expected - read(t)), attempts - 1);
  }

  lemma {:induction false} NoPreimageNoMatch(read: int -> int, shows: int -> bool, expected: int, offset: int -> int,
                                             t: int, attempts: nat)
    requires Clock(read, shows, expected, offset) && Bounded(offset)
    requires !LocalTimeExists(expected, offset)
    requires YEAR_100 <= expected && expected - MAX_OFFSET <= t <= expected + MAX_OFFSET
    ensures !shows(Settle(expected, read, t, attempts))
    decreases attempts
  {
    assert -MAX_OFFSET <= offset(t) <= MAX_OFFSET;
    assert t + offset(t) != expected;
    if attempts > 0 {
      if t + offset(t) >= YEAR_100 {
        assert read(t) == t + offset(t);
        NoPreimageNoMatch(read, shows, expected, offset, expected - offset(t), attempts - 1);
      } else {
        EarlyReadingFails(read, shows, expected, offset, t, attempts);
      }
    }
  }

  /** With two offsets near the target, one of the first two corrections is a preimage if there is any. */
  lemma PreimageReached(expected: int, offset: int -> int, a: int, b: int)
    requires Bounded(offset) && TwoOffsets(expected, offset, a, b) && LocalTimeExists(expected, offset)
    ensures var c1 := expected - offset(expected);
            var c2 := expected - offset(c1);
            c1 + offset(c1) == expected || c2 + offset(c2) == expected
  {
    var t :| t + offset(t) == expected;
    assert t == expected - offset(t) && -MAX_OFFSET <= offset(t) <= MAX_OFFSET;
    var c1 := expected - offset(expected);
    assert -MAX_OFFSET <= offset(expected) <= MAX_OFFSET && -MAX_OFFSET <= offset(c1) <= MAX_OFFSET;
    assert offset(expected) == a || offset(expected) == b;
    assert offset(c1) == a || offset(c1) == b;
    assert offset(t) == a || offset(t) == b;
    var c2 := expected - offset(c1);
    if c1 + offset(c1) != expected {
      assert offset(c1) != offset(expected);
      assert t != c1;
      assert t == c2;
    }
  }

  /** Two attempts are enough: the search succeeds exactly when a preimage exists and nothing is misread. */
  lemma SearchSucceedsExactly(read: int -> int, shows: int -> bool, expected: int, offset: int -> int,
                              a: int, b: int, attempts: nat)
    requires Clock(read, shows, expected, offset) && Bounded(offset) && TwoOffsets(expected, offset, a, b)
    requires YEAR_100 <= expected && attempts >= 2
    ensures var t := Settle(expected, read, expected, attempts);
            && (shows(t) <==> LocalTimeExists(expected, offset) && ReadingsStayModern(expected, offset))
            && (shows(t) ==> t == Corrected(expected, offset) && t + offset(t) == expected)
  {
    var c1 := expected - offset(expected);
    var c2 := expected - offset(c1);
    assert -MAX_OFFSET <= offset(expected) <= MAX_OFFSET && -MAX_OFFSET <= offset(c1) <= MAX_OFFSET;
    assert expected + offset(expected) >= YEAR_100 ==> read(expected) == expected + offset(expected);
    if expected + offset(expected) < YEAR_100 {
      EarlyReadingFails(read, shows, expected, offset, expected, attempts);
    } else if !LocalTimeExists(expected, offset) {
      NoPreimageNoMatch(read, shows, expected, offset, expected, attempts);
    } else {
      FirstCorrection(read, expected, offset, attempts);
      if c1 + offset(c1) < YEAR_100 {
        EarlyReadingFails(read, shows, expected, offset, c1, attempts - 1);
      } else {
        PreimageReached(expected, offset, a, b);
        SecondCorrection(read, shows, expected, offset, attempts);
      }
    }
  }

  lemma FirstCorrection(read: int -> int, expected: int, offset: int -> int, attempts: nat)
    requires attempts > 0 && read(expected) == expected + offset(expected)
    ensures Settle(expected, read, expected, attempts)
         == Settle(expected, read, expected - offset(expected), attempts - 1)
  {
    if offset(expected) == 0 {
      assert read(expected) == expected;
    }
  }

  lemma SecondCorrection(read: int -> int, shows: int -> bool, expected: int, offset: int -> int, attempts: nat)
    requires Clock(read, shows, expected, offset) && YEAR_100 <= expected && attempts >= 2
    requires var c1 := expected - offset(expected);
             var c2 := expected - offset(c1);
             c1 + offset(c1) >= YEAR_100 && (c1 + offset(c1) == expected || c2 + offset(c2) == expected)
    ensures var t := Settle(expected, read, expected - offset(expected), attempts - 1);
            shows(t) && t == Corrected(expected, offset) && t + offset(t) == expected
  {
    var c1 := expected - offset(expected);
    assert read(c1) == c1 + offset(c1);
    var t := if c1 + offset(c1) == expected then c1 else expected - offset(c1);
    assert read(t) == t + offset(t) == expected;
    assert shows(t);
  }
}

/** How many rows `generateHistory` makes, as a function of the merges that its rolls allow. */
module Rolls {

  /** The merges that happen: in which round, at which site, with which other site. */
  type Roll = set<(nat, nat, nat)>

  /** The merges of a site's turn with the first `upto` sites. */
  function Merges(roll: Roll, round: nat, site: nat, upto: nat): nat {
    if upto == 0 then 0
    else Merges(roll, round, site, upto - 1) + if upto - 1 != site && (round, site, upto - 1) in roll then 1 else 0
  }

  /** The rows of a whole turn: a tick and its merges. */
  function TurnRows(roll: Roll, sites: nat, round: nat, site: nat): nat {
    1 + Merges(roll, round, site, sites)
  }

  /** The rows of all turns before one, each of them whole. */
  function RowsBefore(roll: Roll, sites: nat, round: nat, site: nat): nat
    decreases round, site
  {
    if site > 0 then RowsBefore(roll, sites, round, site - 1) + TurnRows(roll, sites, round, site - 1)
    else if round > 0 then RowsBefore(roll, sites, round - 1, sites)
    else 0
  }

  /** Some turn ends with exactly ops rows. */
  ghost predicate Reaches(roll: Roll, sites: nat, ops: int) {
    exists round: nat, site: nat :: ReachesAt(roll, sites, ops, round, site)
  }

  ghost predicate ReachesAt(roll: Roll, sites: nat, ops: int, round: nat, site: nat) {
    site <= sites && RowsBefore(roll, sites, round, site) == ops
  }

  lemma {:induction false} MergesGrow(roll: Roll, round: nat, site: nat, a: nat, b: nat)
    requires a <= b
    ensures Merges(roll, round, site, a) <= Merges(roll, round, site, b)
    decreases b
  {
    if a < b { MergesGrow(roll, round, site, a, b - 1); }
  }

  lemma {:induction false} MergesFit(roll: Roll, round: nat, site: nat, upto: nat)
    ensures Merges(roll, round, site, upto) <= if site < upto then upto - 1 else upto
  {
    if upto > 0 { MergesFit(roll, round, site, upto - 1); }
  }

  /** The counter when the merges of a turn from start stop: all are made, or the bound is met. */
  ghost predicate StopsAt(roll: Roll, sites: nat, ops: int, round: nat, site: nat, start: int, i: int) {
    && 0 <= i - start < sites
    && var whole := start + TurnRows(roll, sites, round, site); i + 1 == if whole <= ops then whole else ops + 1
  }

  lemma TurnEnd(roll: Roll, sites: nat, ops: int, round: nat, site: nat, start: int, i: int, upto: nat)
    requires site < sites && start <= i <= ops && upto <= sites && i - start == Merges(roll, round, site, upto)
    requires upto == sites || i == ops
    ensures StopsAt(roll, sites, ops, round, site, start, i)
  {
    MergesGrow(roll, round, site, upto, sites);
    MergesFit(roll, round, site, upto);
  }

  lemma {:induction false} RowsGrow(roll: Roll, sites: nat, r: nat, s: nat, round: nat, site: nat)
    requires s <= sites && site <= sites && (r < round || (r == round && s <= site))
    ensures RowsBefore(roll, sites, r, s) <= RowsBefore(roll, sites, round, site)
    decreases round, site
  {
    if r == round && s == site {
    } else if site > 0 {
      RowsGrow(roll, sites, r, s, round, site - 1);
    } else {
      RowsGrow(roll, sites, r, s, round - 1, sites);
    }
  }

  /** A bound that falls inside a turn is met exactly by no turn. */
  lemma InsideIsNotReached(roll: Roll, sites: nat, ops: int, round: nat, site: nat)
    requires site < sites && RowsBefore(roll, sites, round, site) < ops < RowsBefore(roll, sites, round, site + 1)
    ensures !Reaches(roll, sites, ops)
  {
    forall r: nat, s: nat ensures !ReachesAt(roll, sites, ops, r, s) {
      if s <= sites {
        if r < round || (r == round && s <= site) {
          RowsGrow(roll, sites, r, s, round, site);
        } else {
          RowsGrow(roll, sites, round, site + 1, r, s);
        }
      }
    }
  }

  /** Two sites of which the first merges at once: a bound of one row falls inside its turn. */
  lemma MergingAtOnceMisses(roll: Roll)
    requires (0, 0, 1) in roll
    ensures !Reaches(roll, 2, 1)
  {
    assert Merges(roll, 0, 0, 1) == 0;
    assert Merges(roll, 0, 0, 2) == 1;
    assert RowsBefore(roll, 2, 0, 1) == RowsBefore(roll, 2, 0, 0) + TurnRows(roll, 2, 0, 0) == 2;
    InsideIsNotReached(roll, 2, 1, 0, 0);
  }

  lemma {:induction false} RoundsGrow(roll: Roll, sites: nat, rounds: nat)
    ensures if sites > 0 then rounds <= RowsBefore(roll, sites, rounds, 0) else RowsBefore(roll, sites, rounds, 0) == 0
  {
    if rounds > 0 {
      RoundsGrow(roll, sites, rounds - 1);
      if sites > 0 {
        RowsGrow(roll, sites, rounds - 1, 1, rounds - 1, sites);
      }
    }
  }

  /** Enough rounds of whole turns exist exactly when there are sites, or nothing to do. */
  lemma EndsIff(roll: Roll, sites: nat, ops: int)
    ensures (exists rounds: nat :: RowsBefore(roll, sites, rounds, 0) >= ops) <==> sites > 0 || ops <= 0
  {
    if ops <= 0 {
      assert RowsBefore(roll, sites, 0, 0) >= ops;
    } else if sites > 0 {
      RoundsGrow(roll, sites, ops);
    } else {
      forall rounds: nat ensures RowsBefore(roll, sites, rounds, 0) < ops { RoundsGrow(roll, sites, rounds); }
    }
  }
}

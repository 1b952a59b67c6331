/** How often a schedule picks a server, over stretches of calls. */
module Windows {
  import opened ServerWeights
  import opened Wrappers

  /** What each call, counted from zero, picks. */
  type Schedule = nat -> Option<Id>

  /** How often `k` is picked in the calls from `from` up to, not including, `until`. */
  function Picks(choice: Schedule, k: Id, from: nat, until: nat): nat {
    if until <= from then 0 else Picks(choice, k, from, until - 1) + (if choice(until - 1) == Some(k) then 1 else 0)
  }

  /** In the hundred calls from number `from` on the server is picked `share` times. */
  predicate Exact(choice: Schedule, k: Id, share: int, from: nat) {
    Picks(choice, k, from, from + 100) == share
  }

  lemma PicksLast(choice: Schedule, k: Id, from: nat, until: nat)
    requires from <= until
    ensures Picks(choice, k, from, until + 1)
         == Picks(choice, k, from, until) + (if choice(until) == Some(k) then 1 else 0)
  {
  }

  lemma {:induction false} PicksFirst(choice: Schedule, k: Id, from: nat, until: nat)
    requires from < until
    ensures Picks(choice, k, from, until)
         == (if choice(from) == Some(k) then 1 else 0) + Picks(choice, k, from + 1, until)
    decreases until
  {
    PicksLast(choice, k, from, until - 1);
    if until == from + 1 {
      assert Picks(choice, k, from + 1, until) == 0 && Picks(choice, k, from, from) == 0;
    } else {
      PicksFirst(choice, k, from, until - 1);
      PicksLast(choice, k, from + 1, until - 1);
    }
  }

  ghost predicate Repeats(choice: Schedule) {
    forall n: nat :: choice(n) == choice(n + 100)
  }

  lemma NextExact(choice: Schedule, k: Id, share: int, from: nat)
    requires choice(from) == choice(from + 100) && Exact(choice, k, share, from)
    ensures Exact(choice, k, share, from + 1)
  {
    PicksFirst(choice, k, from, from + 100);
    PicksLast(choice, k, from + 1, from + 100);
  }

  /** If the schedule repeats, every window of a hundred calls is like the first. */
  lemma {:induction false} AllExact(choice: Schedule, k: Id, share: int, from: nat)
    requires Repeats(choice) && Exact(choice, k, share, 0)
    ensures Exact(choice, k, share, from)
    decreases from
  {
    if from != 0 {
      AllExact(choice, k, share, from - 1);
      NextExact(choice, k, share, from - 1);
    }
  }

  /** An exact share is not negative, and none but a configured server has one. */
  lemma ExactShareIsFair(choice: Schedule, k: Id, share: int, configured: bool)
    requires Exact(choice, k, share, 0)
    requires !configured ==> forall n: nat :: choice(n) != Some(k)
    ensures share >= 0 && (share > 0 ==> configured)
  {
    if !configured {
      NeverPicked(choice, k, 0, 0 + 100);
    }
  }

  lemma {:induction false} NeverPicked(choice: Schedule, k: Id, from: nat, until: nat)
    requires forall n: nat :: choice(n) != Some(k)
    ensures Picks(choice, k, from, until) == 0
    decreases until
  {
    if until > from {
      NeverPicked(choice, k, from, until - 1);
    }
  }
}

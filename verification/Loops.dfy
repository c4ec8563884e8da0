/** Loops whose every turn is a function of one state: when they never end, and how a repeated state shows it. */
module Loops {
  import opened Bytes

  /** The state after n turns; None if the loop has ended before. */
  function After<T>(step: T -> Option<T>, s: T, n: nat): Option<T> {
    if n == 0 then Some(s)
    else
      match After(step, s, n - 1)
      case None => None
      case Some(t) => step(t)
  }

  /** There is always another turn. */
  ghost predicate Forever<T(!new)>(step: T -> Option<T>, s: T) {
    forall n: nat :: After(step, s, n).Some?
  }

  lemma {:induction false} Earlier<T>(step: T -> Option<T>, s: T, n: nat, m: nat)
    requires m <= n && After(step, s, n).Some?
    ensures After(step, s, m).Some?
  {
    if m < n { Earlier(step, s, n - 1, m); }
  }

  lemma {:induction false} Periodic<T>(step: T -> Option<T>, s: T, j: nat, k: nat, m: nat)
    requires After(step, s, j) == After(step, s, k)
    ensures After(step, s, j + m) == After(step, s, k + m)
  {
    if m > 0 { Periodic(step, s, j, k, m - 1); }
  }

  /** A state that comes back keeps coming back. */
  lemma {:induction false} ReturnsAt<T>(step: T -> Option<T>, s: T, j: nat, k: nat, n: nat)
    requires j < k && After(step, s, k).Some? && After(step, s, j) == After(step, s, k)
    ensures After(step, s, n).Some?
  {
    if n <= k {
      Earlier(step, s, k, n);
    } else {
      ReturnsAt(step, s, j, k, n - (k - j));
      Periodic(step, s, j, k, n - k);
    }
  }

  lemma Returns<T(!new)>(step: T -> Option<T>, s: T, j: nat, k: nat)
    requires j < k && After(step, s, k).Some? && After(step, s, j) == After(step, s, k)
    ensures Forever(step, s)
  {
    forall n: nat ensures After(step, s, n).Some? { ReturnsAt(step, s, j, k, n); }
  }

  lemma Ends<T(!new)>(step: T -> Option<T>, s: T, k: nat)
    requires After(step, s, k).None?
    ensures !Forever(step, s)
  {
  }

  // ---- a walk that remembers where it was -------------------------------------------------------

  /** seen are the states of the first k turns. */
  ghost predicate Visited<T(!new)>(step: T -> Option<T>, s: T, k: nat, seen: set<T>) {
    forall t :: t in seen ==> exists j :: 0 <= j < k && After(step, s, j) == Some(t)
  }

  lemma StartsFresh<T(!new)>(step: T -> Option<T>, s: T)
    ensures Visited(step, s, 0, {}) && After(step, s, 0) == Some(s)
  {
  }

  lemma VisitedMore<T(!new)>(step: T -> Option<T>, s: T, k: nat, seen: set<T>, t: T)
    requires Visited(step, s, k, seen) && After(step, s, k) == Some(t)
    ensures Visited(step, s, k + 1, seen + {t})
  {
    forall u | u in seen + {t} ensures exists j :: 0 <= j < k + 1 && After(step, s, j) == Some(u) {
      if u in seen {
        var j :| 0 <= j < k && After(step, s, j) == Some(u);
      }
    }
  }

  /** Coming to a state for the second time is what never ending means. */
  lemma SeenAgain<T(!new)>(step: T -> Option<T>, s: T, k: nat, seen: set<T>, t: T)
    requires Visited(step, s, k, seen) && After(step, s, k) == Some(t) && t in seen
    ensures Forever(step, s)
  {
    var j :| 0 <= j < k && After(step, s, j) == Some(t);
    Returns(step, s, j, k);
  }
}

/** What blocking means, said without recursion over instants: the store is the one
    the other processes have produced, and the instant is the first of its kind. */
module Instants {
  import opened Verinum
  import opened PExprs
  import opened World

  /** The store after the other processes have acted k times from instant t. */
  function Trajectory(W: World, s: Store, t: nat, k: nat): Store {
    if k == 0 then s else W.step(t + k - 1, Trajectory(W, s, t, k - 1))
  }

  lemma {:induction false} TrajectoryShift(W: World, s: Store, t: nat, k: nat)
    ensures Trajectory(W, W.step(t, s), t + 1, k) == Trajectory(W, s, t, k + 1)
    decreases k
  {
    if k == 0 {
      assert Trajectory(W, s, t, 0) == s;
    } else {
      TrajectoryShift(W, s, t, k - 1);
    }
  }

  predicate HoldsAt(W: World, e: PExpr, s: Store, t: nat, u: nat)
    requires t <= u
  {
    Truth(Eval(W.I, e, Trajectory(W, s, t, u - t)))
  }

  /** The condition is true at t' for the first time since t. */
  ghost predicate FirstTrue(W: World, e: PExpr, s: Store, t: nat, t': nat) {
    t <= t' && HoldsAt(W, e, s, t, t') && forall u | t <= u < t' :: !HoldsAt(W, e, s, t, u)
  }

  lemma {:induction false} FirstTrueStep(W: World, e: PExpr, s: Store, t: nat, t': nat)
    requires !Truth(Eval(W.I, e, s))
    ensures FirstTrue(W, e, s, t, t') <==> t < t' && FirstTrue(W, e, W.step(t, s), t + 1, t')
  {
    var s1 := W.step(t, s);
    assert !HoldsAt(W, e, s, t, t) by { assert Trajectory(W, s, t, 0) == s; }
    var t1 := t + 1;
    forall u | t1 <= u
      ensures HoldsAt(W, e, s1, t1, u) <==> HoldsAt(W, e, s, t, u)
    {
      TrajectoryShift(W, s, t, u - t1);
    }
    if FirstTrue(W, e, s, t, t') {
      forall u | t1 <= u < t' ensures !HoldsAt(W, e, s1, t1, u) {
        assert !HoldsAt(W, e, s, t, u);
      }
    }
    if t < t' && FirstTrue(W, e, s1, t1, t') {
      forall u | t <= u < t' ensures !HoldsAt(W, e, s, t, u) {
        assert u == t || !HoldsAt(W, e, s1, t1, u);
      }
    }
  }

  /** The condition is true for the first time at t', with the store s'. */
  ghost predicate ResumesTrue(W: World, e: PExpr, s: Store, t: nat, s': Store, t': nat) {
    t' <= W.last && FirstTrue(W, e, s, t, t') && s' == Trajectory(W, s, t, t' - t)
  }

  lemma ResumesStep(W: World, e: PExpr, s: Store, t: nat, s': Store, t': nat)
    requires t < W.last && !Truth(Eval(W.I, e, s))
    ensures ResumesTrue(W, e, s, t, s', t') <==> ResumesTrue(W, e, W.step(t, s), t + 1, s', t')
  {
    FirstTrueStep(W, e, s, t, t');
    var s1, t1 := W.step(t, s), t + 1;
    if FirstTrue(W, e, s, t, t') {
      ShiftTo(W, s, t, t');
      assert FirstTrue(W, e, s1, t1, t');
    } else {
      assert !FirstTrue(W, e, s1, t1, t');
    }
  }

  lemma ShiftTo(W: World, s: Store, t: nat, t': nat)
    requires t < t'
    ensures Trajectory(W, W.step(t, s), t + 1, t' - (t + 1)) == Trajectory(W, s, t, t' - t)
  {
    TrajectoryShift(W, s, t, t' - t - 1);
  }

  /** `wait` resumes at the first instant at which its condition is true, and not
      before the horizon if there is none. */
  lemma {:induction false} AwaitTrueExact(W: World, e: PExpr, s: Store, t: nat, s': Store, t': nat)
    requires t <= W.last
    ensures AwaitTrue(W, e, s, t) == Done(s', t') <==> ResumesTrue(W, e, s, t, s', t')
    decreases W.last - t
  {
    if Truth(Eval(W.I, e, s)) {
      ResumesNow(W, e, s, t, s', t');
    } else if t < W.last {
      ResumesStep(W, e, s, t, s', t');
      AwaitTrueExact(W, e, W.step(t, s), t + 1, s', t');
    } else {
      FirstTrueStep(W, e, s, t, t');
    }
  }

  lemma ResumesNow(W: World, e: PExpr, s: Store, t: nat, s': Store, t': nat)
    requires t <= W.last && Truth(Eval(W.I, e, s))
    ensures ResumesTrue(W, e, s, t, s', t') <==> s' == s && t' == t
  {
    assert Trajectory(W, s, t, 0) == s;
    assert HoldsAt(W, e, s, t, t);
  }

  /** `#d` resumes at the first later instant whose clock has reached the due time. */
  lemma {:induction false} AwaitTimeExact(W: World, due: nat, s: Store, t: nat, s': Store, t': nat)
    requires t <= W.last
    ensures AwaitTime(W, due, s, t) == Done(s', t') <==>
            && t < t' <= W.last
            && s' == Trajectory(W, s, t, t' - t)
            && W.clock(t') >= due
            && forall u | t < u < t' :: W.clock(u) < due
    decreases W.last - t
  {
    if t < W.last {
      var s1 := W.step(t, s);
      assert Trajectory(W, s, t, 1) == s1 by { assert Trajectory(W, s, t, 0) == s; }
      if W.clock(t + 1) < due {
        AwaitTimeExact(W, due, s1, t + 1, s', t');
        if t < t' {
          TrajectoryShift(W, s, t, t' - t - 1);
        }
      }
    }
  }

  /** How many of the instants in [t, u) end with an occurrence. */
  function Count(W: World, evs: seq<Event>, s: Store, t: nat, u: nat): nat
    decreases u - t
  {
    if u <= t then 0
    else
      var s1 := W.step(t, s);
      (if SomeOccurs(W, evs, t, s, s1) then 1 else 0) + Count(W, evs, s1, t + 1, u)
  }

  lemma {:induction false} CountMonotone(W: World, evs: seq<Event>, s: Store, t: nat, u: nat, v: nat)
    requires u <= v
    ensures Count(W, evs, s, t, u) <= Count(W, evs, s, t, v)
    decreases v - t
  {
    if t < u {
      CountMonotone(W, evs, W.step(t, s), t + 1, u, v);
    }
  }

  /** The instant t' is the one at which the n-th occurrence has just happened. */
  ghost predicate Nth(W: World, evs: seq<Event>, n: nat, s: Store, t: nat, t': nat) {
    && t <= t'
    && Count(W, evs, s, t, t') == n
    && forall u | t <= u < t' :: Count(W, evs, s, t, u) < n
  }

  lemma {:induction false} NthStep(W: World, evs: seq<Event>, n: nat, s: Store, t: nat, t': nat)
    requires n > 0
    ensures Nth(W, evs, n, s, t, t') <==>
            && t < t'
            && Nth(W, evs, if SomeOccurs(W, evs, t, s, W.step(t, s)) then n - 1 else n, W.step(t, s), t + 1, t')
  {
    var s1 := W.step(t, s);
    var hit := if SomeOccurs(W, evs, t, s, s1) then 1 else 0;
    var t1 := t + 1;
    if Nth(W, evs, n, s, t, t') {
      forall u | t1 <= u < t' ensures Count(W, evs, s1, t1, u) < n - hit {
        assert Count(W, evs, s, t, u) == hit + Count(W, evs, s1, t1, u);
      }
    }
    if t < t' && Nth(W, evs, n - hit, s1, t1, t') {
      forall u | t <= u < t' ensures Count(W, evs, s, t, u) < n {
        assert u == t || Count(W, evs, s, t, u) == hit + Count(W, evs, s1, t1, u);
      }
    }
  }

  lemma {:induction false} NthZero(W: World, evs: seq<Event>, s: Store, t: nat, t': nat)
    ensures Nth(W, evs, 0, s, t, t') <==> t' == t
  {
    assert Count(W, evs, s, t, t) == 0;
  }

  /** Blocking on n occurrences resumes exactly when the n-th one has happened. */
  lemma {:induction false} AwaitEventsExact(W: World, evs: seq<Event>, n: nat, s: Store, t: nat, s': Store, t': nat)
    requires t <= W.last
    ensures AwaitEvents(W, evs, n, s, t) == Done(s', t') <==>
            && t' <= W.last
            && Nth(W, evs, n, s, t, t')
            && s' == Trajectory(W, s, t, t' - t)
    decreases n, W.last - t
  {
    assert Trajectory(W, s, t, 0) == s;
    if n == 0 {
      NthZero(W, evs, s, t, t');
    } else {
      NthStep(W, evs, n, s, t, t');
      if t < W.last {
        var s1 := W.step(t, s);
        var o := AwaitEvent(W, evs, s, t);
        if t < t' {
          TrajectoryShift(W, s, t, t' - t - 1);
        }
        if SomeOccurs(W, evs, t, s, s1) {
          AwaitEventsExact(W, evs, n - 1, s1, t + 1, s', t');
        } else {
          AwaitEventsExact(W, evs, n, s1, t + 1, s', t');
        }
      }
    }
  }

  /** The same for a single occurrence. */
  lemma AwaitEventExact(W: World, evs: seq<Event>, s: Store, t: nat, s': Store, t': nat)
    requires t <= W.last
    ensures AwaitEvent(W, evs, s, t) == Done(s', t') <==>
            && t' <= W.last
            && Nth(W, evs, 1, s, t, t')
            && s' == Trajectory(W, s, t, t' - t)
  {
    AwaitEventsExact(W, evs, 1, s, t, s', t');
    var o := AwaitEvent(W, evs, s, t);
    if o.Done? {
      assert AwaitEvents(W, evs, 0, o.store, o.at) == o;
    }
  }
}

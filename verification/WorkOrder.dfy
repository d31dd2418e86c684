/** The staging of the work list: what is queued in one round runs in the next, so a
    complete run of the defparams always lies between. */
module WorkOrder {
  import opened PExprs
  import opened Scopes
  import opened ScopeElab
  import opened ScopeSteps
  import opened WorkList

  /** The place in line of the step at `i`: how many ran, or were queued, before it. */
  function RunsBefore(t: seq<Event>, i: nat): nat
    requires i <= |t|
  {
    |Runs(t[..i])|
  }

  function QueuedBefore(t: seq<Event>, i: nat): nat
    requires i <= |t|
  {
    |Queue(t[..i])|
  }

  lemma StepAt(t: seq<Event>, i: nat)
    requires i < |t|
    ensures t[i].Ran? ==> RunsBefore(t, i) < |Runs(t)| && Runs(t)[RunsBefore(t, i)] == t[i].item
    ensures t[i].Queued? ==> QueuedBefore(t, i) < |Queue(t)| && Queue(t)[QueuedBefore(t, i)] == t[i].item
  {
    var a, b := t[..i], t[i..];
    assert t == a + b;
    AppendCounts(a, b);
    assert b[0] == t[i];
  }

  lemma {:induction false} NthRun(t: seq<Event>, n: nat) returns (j: nat)
    requires n < |Runs(t)|
    ensures j < |t| && t[j].Ran? && RunsBefore(t, j) == n
  {
    if t[0].Ran? && n == 0 {
      j := 0;
    } else {
      var j' := NthRun(t[1..], if t[0].Ran? then n - 1 else n);
      j := j' + 1;
      assert t[..j] == [t[0]] + t[1..][..j'];
      AppendCounts([t[0]], t[1..][..j']);
      assert [t[0]][1..] == [];
    }
  }

  /** Counting past the front part of a sequence of steps. */
  lemma Past(a: seq<Event>, b: seq<Event>, i: nat)
    requires |a| <= i <= |a| + |b|
    ensures RunsBefore(a + b, i) == |Runs(a)| + RunsBefore(b, i - |a|)
    ensures QueuedBefore(a + b, i) == |Queue(a)| + QueuedBefore(b, i - |a|)
  {
    assert (a + b)[..i] == a + b[..i - |a|];
    AppendCounts(a, b[..i - |a|]);
  }

  lemma Within(a: seq<Event>, b: seq<Event>, i: nat)
    requires i <= |a|
    ensures RunsBefore(a + b, i) == RunsBefore(a, i)
    ensures QueuedBefore(a + b, i) == QueuedBefore(a, i)
  {
    assert (a + b)[..i] == a[..i];
  }

  lemma TopsCut(t: seq<Event>, i: nat)
    requires i <= |t|
    ensures Tops(t) == Tops(t[..i]) + Tops(t[i..])
    ensures |Runs(t)| == RunsBefore(t, i) + |Runs(t[i..])|
  {
    assert t == t[..i] + t[i..];
    AppendCounts(t[..i], t[i..]);
  }

  /** In a round, the defparams run last. */
  lemma RoundShape(d: Source, list: seq<Item>, r: int, i: nat)
    requires Waiting(d, list, r) && i < |Round(d, list)|
    ensures Round(d, list)[0] == Queued(TopDefparams) && Round(d, list)[|Round(d, list)| - 1] == Ran(TopDefparams)
    ensures Tops(Round(d, list)[..i]) == 0
    ensures i > 0 ==> QueuedBefore(Round(d, list), i) >= 1
    ensures Round(d, list)[i].Ran? && RunsBefore(Round(d, list), i) < |list| ==> i < |Round(d, list)| - 1
  {
    var t, a, z := Round(d, list), [Queued(TopDefparams)] + RunAll(d, list), [Ran(TopDefparams)];
    assert t == a + z && z[1..] == [];
    AppendCounts(a, z);
    RoundCounts(d, list, r);
    assert t[..i] == a[..i];
    TopsCut(a, i);
    if i > 0 {
      assert t[..i] == [Queued(TopDefparams)] + t[1..i];
      AppendCounts([Queued(TopDefparams)], t[1..i]);
    }
    if i == |t| - 1 {
      TopsCut(t, i);
      assert t[i..] == z;
    }
  }

  /** Before the first `|list|` items have run, no defparams have. */
  lemma FirstRound(d: Source, list: seq<Item>, r: nat, j: nat)
    requires Waiting(d, list, r) && j < |Trace(d, list, r)|
    requires Trace(d, list, r)[j].Ran? && RunsBefore(Trace(d, list, r), j) < |list|
    ensures Tops(Trace(d, list, r)[..j]) == 0
  {
    var a, b := Round(d, list), Tail(d, list, r);
    assert Trace(d, list, r) == a + b;
    RoundCounts(d, list, r);
    if j < |a| {
      assert (a + b)[..j] == a[..j];
      RoundShape(d, list, r, j);
    } else {
      Past(a, b, j);
    }
  }

  predicate Scheduled(item: Item) {
    !item.TopDefparams? && !item.LaterDefparams?
  }

  /** A round `a` of `n` waiting items that leaves `m` of them, and the rounds `t` after it. */
  predicate RoundThen(a: seq<Event>, n: nat, m: nat) {
    && a != [] && a[|a| - 1] == Ran(TopDefparams) && Tops(a) == 1
    && |Runs(a)| == n + 1 && |Queue(a)| == m + 1
  }

  const LATER: seq<Event> := [Queued(LaterDefparams)]

  /** The step at `i` is queued in line with the run at `j`. */
  predicate InLine(t: seq<Event>, n: nat, i: nat, j: nat) {
    && i < |t| && t[i].Queued? && Scheduled(t[i].item)
    && j < |t| && t[j].Ran?
    && RunsBefore(t, j) == n + QueuedBefore(t, i)
  }

  lemma StepsPast(a: seq<Event>, t: seq<Event>, i: nat)
    requires |a| < i < |a + (LATER + t)|
    ensures RunsBefore(a + (LATER + t), i) == |Runs(a)| + RunsBefore(t, i - |a| - 1)
    ensures QueuedBefore(a + (LATER + t), i) == |Queue(a)| + 1 + QueuedBefore(t, i - |a| - 1)
    ensures (a + (LATER + t))[i] == t[i - |a| - 1]
  {
    Past(a, LATER + t, i);
    Past(LATER, t, i - |a|);
    assert LATER[1..] == [];
  }

  /** What runs in the round itself was waiting before it. */
  lemma RunInRound(a: seq<Event>, t: seq<Event>, n: nat, m: nat, j: nat)
    requires RoundThen(a, n, m) && j < |a + (LATER + t)| && (a + (LATER + t))[j].Ran?
    requires RunsBefore(a + (LATER + t), j) > n
    ensures j > |a|
  {
    if j < |a| {
      Within(a, LATER + t, j);
      StepAt(a, j);
    }
  }

  lemma LaterInLine(a: seq<Event>, t: seq<Event>, n: nat, m: nat, i: nat, j: nat)
    requires RoundThen(a, n, m) && InLine(a + (LATER + t), n, i, j) && i >= |a|
    ensures i > |a| && j > |a| && InLine(t, m + 1, i - |a| - 1, j - |a| - 1)
  {
    assert (a + (LATER + t))[|a|] == LATER[0];
    StepsPast(a, t, i);
    RunInRound(a, t, n, m, j);
    StepsPast(a, t, j);
  }

  lemma SlicePast(a: seq<Event>, t: seq<Event>, i: nat, j: nat)
    requires |a| < i <= j < |a + (LATER + t)|
    ensures (a + (LATER + t))[i..j] == t[i - |a| - 1..j - |a| - 1]
  {
    assert a + (LATER + t) == (a + LATER) + t;
  }

  lemma LaterSteps(a: seq<Event>, t: seq<Event>, n: nat, m: nat, i: nat, j: nat) returns (i': nat, j': nat)
    requires RoundThen(a, n, m) && InLine(a + (LATER + t), n, i, j) && i >= |a|
    ensures InLine(t, m + 1, i', j')
    ensures i' < j' ==> i < j && (a + (LATER + t))[i..j] == t[i'..j']
  {
    LaterInLine(a, t, n, m, i, j);
    i', j' := i - |a| - 1, j - |a| - 1;
    if i <= j {
      SlicePast(a, t, i, j);
    }
  }

  lemma HereInLine(a: seq<Event>, t: seq<Event>, n: nat, m: nat, i: nat, j: nat)
    requires RoundThen(a, n, m) && InLine(a + (LATER + t), n, i, j) && i < |a|
    requires QueuedBefore(a, i) >= 1
    ensures j > |a| && t[j - |a| - 1].Ran? && RunsBefore(t, j - |a| - 1) < m + 1
  {
    Within(a, LATER + t, i);
    RunInRound(a, t, n, m, j);
    StepsPast(a, t, j);
    StepAt(a, i);
  }

  lemma HereRun(a: seq<Event>, t: seq<Event>, n: nat, m: nat, i: nat, j: nat) returns (k: nat)
    requires RoundThen(a, n, m) && InLine(a + (LATER + t), n, i, j) && i < |a|
    requires QueuedBefore(a, i) >= 1
    ensures j == |a| + 1 + k && k < |t| && t[k].Ran? && RunsBefore(t, k) < m + 1
  {
    HereInLine(a, t, n, m, i, j);
    k := j - |a| - 1;
  }

  lemma HereTops(a: seq<Event>, t: seq<Event>, i: nat, j: nat)
    requires i < |a| < j < |a + (LATER + t)|
    requires Tops(a) == 1 && Tops(a[..i]) == 0 && Tops(t[..j - |a| - 1]) == 0
    ensures Tops((a + (LATER + t))[i..j]) == 1
  {
    TopsCut(a, i);
    var rest := t[..j - |a| - 1];
    assert (a + (LATER + t))[i..j] == a[i..] + (LATER + rest);
    AppendCounts(a[i..], LATER + rest);
    AppendCounts(LATER, rest);
    assert LATER[1..] == [];
  }

  /** The item queued at `i` runs at its place in line, later, with exactly one complete
      run of the defparams in between. */
  lemma {:induction false} Staged(d: Source, list: seq<Item>, r: nat, i: nat, j: nat)
    requires Waiting(d, list, r) && InLine(Trace(d, list, r), |list|, i, j)
    ensures i < j && Tops(Trace(d, list, r)[i..j]) == 1
    decreases r
  {
    LastRound(d, list, r, i, j);
    if i < |Round(d, list)| {
      StagedHere(d, list, r, i, j);
    } else {
      var i', j' := StagedLater(d, list, r, i, j);
      var t := Rest(d, list, r);
      Staged(d, Next(d, list) + [LaterDefparams], r - 1, i', j');
    }
  }

  lemma StagedLater(d: Source, list: seq<Item>, r: nat, i: nat, j: nat) returns (i': nat, j': nat)
    requires Waiting(d, list, r) && InLine(Trace(d, list, r), |list|, i, j)
    requires Next(d, list) != [] && i >= |Round(d, list)|
    ensures InLine(Rest(d, list, r), |Next(d, list)| + 1, i', j')
    ensures i' < j' ==> i < j && Trace(d, list, r)[i..j] == Rest(d, list, r)[i'..j']
  {
    RoundFits(d, list, r);
    i', j' := LaterSteps(Round(d, list), Rest(d, list, r), |list|, |Next(d, list)|, i, j);
  }

  lemma LastRound(d: Source, list: seq<Item>, r: nat, i: nat, j: nat)
    requires Waiting(d, list, r) && InLine(Trace(d, list, r), |list|, i, j)
    ensures Next(d, list) != []
  {
    if Next(d, list) == [] {
      assert Trace(d, list, r) == Round(d, list);
      RoundCounts(d, list, r);
      RoundShape(d, list, r, i);
      StepAt(Round(d, list), i);
    }
  }

  lemma StagedHere(d: Source, list: seq<Item>, r: nat, i: nat, j: nat)
    requires Waiting(d, list, r) && InLine(Trace(d, list, r), |list|, i, j)
    requires Next(d, list) != [] && i < |Round(d, list)|
    ensures i < j && Tops(Trace(d, list, r)[i..j]) == 1
  {
    RoundFits(d, list, r);
    RoundTops(d, list, r, i);
    var k := HereRun(Round(d, list), Rest(d, list, r), |list|, |Next(d, list)|, i, j);
    RestTops(d, list, r, k);
    HereTops(Round(d, list), Rest(d, list, r), i, j);
  }

  lemma RoundTops(d: Source, list: seq<Item>, r: nat, i: nat)
    requires Waiting(d, list, r) && i < |Round(d, list)|
    requires Round(d, list)[i].Queued? && Scheduled(Round(d, list)[i].item)
    ensures Tops(Round(d, list)[..i]) == 0 && QueuedBefore(Round(d, list), i) >= 1
  {
    RoundShape(d, list, r, i);
  }

  lemma RestTops(d: Source, list: seq<Item>, r: nat, k: nat)
    requires Waiting(d, list, r) && Next(d, list) != []
    requires k < |Rest(d, list, r)| && Rest(d, list, r)[k].Ran? && RunsBefore(Rest(d, list, r), k) < |Next(d, list)| + 1
    ensures Tops(Rest(d, list, r)[..k]) == 0
  {
    FirstRound(d, Next(d, list) + [LaterDefparams], r - 1, k);
  }

  /** The rounds after the first. */
  function Rest(d: Source, list: seq<Item>, r: nat): (t: seq<Event>)
    requires Waiting(d, list, r) && Next(d, list) != []
    ensures r > 1 && Waiting(d, Next(d, list) + [LaterDefparams], r - 1)
    ensures t == Trace(d, Next(d, list) + [LaterDefparams], r - 1)
    ensures Trace(d, list, r) == Round(d, list) + (LATER + t)
  {
    NextWaits(d, list, r);
    Trace(d, Next(d, list) + [LaterDefparams], r - 1)
  }

  lemma RoundFits(d: Source, list: seq<Item>, r: nat)
    requires Waiting(d, list, r)
    ensures RoundThen(Round(d, list), |list|, |Next(d, list)|)
  {
    RoundCounts(d, list, r);
  }

  /** A root that is run queues its generate schemes at once. */
  predicate Expanded(ev: seq<Event>) {
    forall i: nat | i < |ev| && ev[i].Ran? && ev[i].item.Root? ::
      i + 1 < |ev| && ev[i + 1] == Queued(Generates(RootPath(ev[i].item.mod), ev[i].item.mod))
  }

  lemma ExpandedAppend(a: seq<Event>, b: seq<Event>)
    requires Expanded(a) && Expanded(b)
    ensures Expanded(a + b)
  {
    var ev := a + b;
    forall i: nat | i < |ev| && ev[i].Ran? && ev[i].item.Root?
      ensures i + 1 < |ev| && ev[i + 1] == Queued(Generates(RootPath(ev[i].item.mod), ev[i].item.mod))
    {
      if i < |a| {
        assert a[i] == ev[i] && a[i + 1] == ev[i + 1];
      } else {
        assert b[i - |a|] == ev[i];
        var k := i - |a|;
        assert b[k + 1] == ev[i + 1];
      }
    }
  }

  lemma ItemExpanded(d: Source, item: Item)
    requires ValidItem(d, item)
    ensures Expanded([Ran(item)] + Effects(d, item))
  {
    var head := Effects(d, item);
    EffectsKeep(d, item);
    forall e <- head ensures !e.Ran? {
      assert SaneEvent(d, e, Rank(d, item) - 1);
    }
    if item.Root? {
      assert head[0] == Queued(Generates(RootPath(item.mod), item.mod));
    }
    var ev := [Ran(item)] + head;
    forall i: nat | 0 < i < |ev| ensures !ev[i].Ran? {
      assert ev[i] == head[i - 1];
    }
  }

  lemma {:induction false} RunAllExpanded(d: Source, items: seq<Item>)
    requires Ready(d, items)
    ensures Expanded(RunAll(d, items))
  {
    if items != [] {
      ItemExpanded(d, items[0]);
      RunAllExpanded(d, items[1..]);
      ExpandedAppend([Ran(items[0])] + Effects(d, items[0]), RunAll(d, items[1..]));
    }
  }

  lemma {:induction false} TraceExpanded(d: Source, list: seq<Item>, r: nat)
    requires Waiting(d, list, r)
    ensures Expanded(Trace(d, list, r))
    decreases r
  {
    if list != [] {
      assert list[0] in list;
      var a := [Queued(TopDefparams)];
      RunAllExpanded(d, list);
      ExpandedAppend(a, RunAll(d, list));
      ExpandedAppend(a + RunAll(d, list), [Ran(TopDefparams)]);
      if Next(d, list) != [] {
        NextWaits(d, list, r);
        var t := Trace(d, Next(d, list) + [LaterDefparams], r - 1);
        TraceExpanded(d, Next(d, list) + [LaterDefparams], r - 1);
        ExpandedAppend(LATER, t);
        ExpandedAppend(Round(d, list), LATER + t);
      }
    }
  }

  /** The steps before the first round: scopes of roots, each with its item. */
  predicate Rooted(s: seq<Event>) {
    forall i: nat | i < |s| && s[i].Created? ::
      i + 1 < |s| && s[i + 1].Queued? && s[i + 1].item.Root? && s[i].path == RootPath(s[i + 1].item.mod)
  }

  lemma RootedAppend(a: seq<Event>, b: seq<Event>)
    requires Rooted(a) && Rooted(b)
    ensures Rooted(a + b)
  {
    var s: seq<Event> := a + b;
    forall i: nat | i < |s| && s[i].Created?
      ensures i + 1 < |s| && s[i + 1].Queued? && s[i + 1].item.Root? && s[i].path == RootPath(s[i + 1].item.mod)
    {
      if i < |a| {
        assert a[i] == s[i] && a[i + 1] == s[i + 1];
      } else {
        var k := i - |a|;
        assert b[k] == s[i] && b[k + 1] == s[i + 1];
      }
    }
  }

  lemma {:induction false} StartUpRooted(d: Source, roots: seq<string>)
    ensures Rooted(StartUp(d, roots))
  {
    if roots != [] {
      StartUpRooted(d, roots[1..]);
      RootedAppend(RootStart(d, roots[0]), StartUp(d, roots[1..]));
    }
  }

  /** Steps `t` of rounds that start with what `s` queued: everything queued runs at its
      place, with one run of the defparams in between, and with none for what `s` queued. */
  ghost predicate StagedSteps(s: seq<Event>, t: seq<Event>) {
    && Runs(s) == [] && Tops(s) == 0 && Runs(t) == Queue(s) + Queue(t)
    && Rooted(s) && Followed(t) && Expanded(t)
    && InOrder(t, |Queue(s)|) && FirstRuns(t, |Queue(s)|)
  }

  /** With `n` items waiting at the start. */
  ghost predicate InOrder(t: seq<Event>, n: nat) {
    forall i: nat, j: nat | InLine(t, n, i, j) :: i < j && Tops(t[i..j]) == 1
  }

  ghost predicate FirstRuns(t: seq<Event>, n: nat) {
    forall j: nat | j < |t| && t[j].Ran? && RunsBefore(t, j) < n :: Tops(t[..j]) == 0
  }

  lemma TraceStaged(d: Source, s: seq<Event>, list: seq<Item>, r: nat)
    requires Waiting(d, list, r) && Runs(s) == [] && Tops(s) == 0 && Queue(s) == list && Rooted(s)
    ensures StagedSteps(s, Trace(d, list, r))
  {
    TraceConserves(d, list, r);
    TraceExpanded(d, list, r);
    forall i: nat, j: nat | InLine(Trace(d, list, r), |list|, i, j)
      ensures i < j && Tops(Trace(d, list, r)[i..j]) == 1
    {
      Staged(d, list, r, i, j);
    }
    forall j: nat | j < |Trace(d, list, r)| && Trace(d, list, r)[j].Ran? && RunsBefore(Trace(d, list, r), j) < |list|
      ensures Tops(Trace(d, list, r)[..j]) == 0
    {
      FirstRound(d, list, r, j);
    }
  }

  lemma ElaborationStaged(d: Source, roots: seq<string>) returns (s: seq<Event>, t: seq<Event>)
    ensures s == StartUp(d, roots) && Elaboration(d, roots) == s + t && StagedSteps(s, t)
  {
    StartUpReady(d, roots);
    StartUpRooted(d, roots);
    s := StartUp(d, roots);
    t := Trace(d, Queue(s), RoundLimit(d));
    TraceStaged(d, s, Queue(s), RoundLimit(d));
  }

  lemma SamePlace(log: seq<Event>, i: nat) returns (j: nat)
    requires Runs(log) == Queue(log) && i < |log| && log[i].Queued?
    ensures j < |log| && log[j] == Ran(log[i].item) && RunsBefore(log, j) == QueuedBefore(log, i)
  {
    StepAt(log, i);
    j := NthRun(log, QueuedBefore(log, i));
    StepAt(log, j);
  }

  lemma NoEarlyRun(s: seq<Event>, t: seq<Event>, j: nat)
    requires Runs(s) == [] && j < |s + t| && (s + t)[j].Ran?
    ensures j >= |s|
  {
    if j < |s| {
      StepAt(s, j);
    }
  }

  /** The item queued at `i` is run at `j`, its place in line. */
  predicate RunAt(log: seq<Event>, i: nat, j: nat) {
    i < j < |log| && log[i].Queued? && log[j] == Ran(log[i].item) && RunsBefore(log, j) == QueuedBefore(log, i)
  }

  lemma RunOf(s: seq<Event>, t: seq<Event>, i: nat) returns (j: nat)
    requires StagedSteps(s, t)
    requires |s| <= i < |s + t| && (s + t)[i].Queued? && Scheduled((s + t)[i].item)
    ensures RunAt(s + t, i, j) && Tops((s + t)[i..j]) == 1
  {
    JoinStartUp(s, t, Queue(s));
    j := SamePlace(s + t, i);
    NoEarlyRun(s, t, j);
    Past(s, t, i);
    Past(s, t, j);
    var i', j' := i - |s|, j - |s|;
    assert InLine(t, |Queue(s)|, i', j');
    assert (s + t)[i..j] == t[i'..j'];
  }

  lemma FirstRunOf(s: seq<Event>, t: seq<Event>, i: nat) returns (j: nat)
    requires StagedSteps(s, t) && i < |s| && s[i].Queued?
    ensures j >= |s| && RunAt(s + t, i, j) && Tops((s + t)[..j]) == 0
  {
    JoinStartUp(s, t, Queue(s));
    j := SamePlace(s + t, i);
    NoEarlyRun(s, t, j);
    Within(s, t, i);
    StepAt(s, i);
    Past(s, t, j);
    assert t[j - |s|] == (s + t)[j];
    assert (s + t)[..j] == s + t[..j - |s|];
    AppendCounts(s, t[..j - |s|]);
  }

  /** The item queued at `i` is run in the very next round: with one complete run of the
      defparams since it was queued. */
  ghost predicate RunNext(log: seq<Event>, i: nat) {
    exists j: nat :: RunAt(log, i, j) && Tops(log[i..j]) == 1
  }

  /** The item queued at `i` is run in the first round, before any run of the defparams. */
  ghost predicate RunFirst(log: seq<Event>, i: nat) {
    exists j: nat :: RunAt(log, i, j) && Tops(log[..j]) == 0
  }

  /** The items of the roots are run in the first round, and every item that is queued
      while others run is run in the very next round. */
  lemma QueuedThenRun(d: Source, roots: seq<string>)
    ensures var log := Elaboration(d, roots);
      forall i: nat | i < |log| && log[i].Queued? && Scheduled(log[i].item) ::
        if i < |StartUp(d, roots)| then RunFirst(log, i) else RunNext(log, i)
  {
    var s, t := ElaborationStaged(d, roots);
    AllRun(s, t);
  }

  lemma AllRun(s: seq<Event>, t: seq<Event>)
    requires StagedSteps(s, t)
    ensures forall i: nat | i < |s + t| && (s + t)[i].Queued? && Scheduled((s + t)[i].item) ::
              if i < |s| then RunFirst(s + t, i) else RunNext(s + t, i)
  {
    forall i: nat | i < |s + t| && (s + t)[i].Queued? && Scheduled((s + t)[i].item)
      ensures if i < |s| then RunFirst(s + t, i) else RunNext(s + t, i)
    {
      if i < |s| {
        var j := FirstRunOf(s, t, i);
      } else {
        var j := RunOf(s, t, i);
      }
    }
  }

  predicate ModuleCreated(e: Event) {
    e.Created? && e.path != [] && e.path[|e.path| - 1].ModuleScope?
  }

  function GeneratesOf(path: Path): Item
    requires path != [] && path[|path| - 1].ModuleScope?
  {
    Generates(path, path[|path| - 1].mod)
  }

  /** The generate schemes of the module scope created at `i` are queued at `k`: by the
      next step, or by the run of the item of the root that was queued by the next step. */
  predicate GeneratesQueued(log: seq<Event>, i: nat, k: nat) {
    && i < k < |log| && ModuleCreated(log[i]) && log[k] == Queued(GeneratesOf(log[i].path))
    && (k == i + 1
        || (log[i + 1] == Queued(Root(log[i].path[|log[i].path| - 1].mod)) && RunAt(log, i + 1, k - 1)))
  }

  /** They are run at their place in line, with exactly one complete run of the defparams
      since the scope was created. */
  ghost predicate GeneratesNext(log: seq<Event>, i: nat) {
    exists k: nat, j: nat :: GeneratesQueued(log, i, k) && RunAt(log, k, j) && Tops(log[i..j]) == 1
  }

  lemma TopsBetween(log: seq<Event>, i: nat, k: nat, j: nat)
    requires i <= k <= j <= |log|
    ensures Tops(log[i..j]) == Tops(log[i..k]) + Tops(log[k..j])
  {
    assert log[i..j] == log[i..k] + log[k..j];
    AppendCounts(log[i..k], log[k..j]);
  }

  lemma TopsWithin(log: seq<Event>, i: nat, k: nat)
    requires i <= k < |log| && Tops(log[..k]) == 0 && log[k] != Ran(TopDefparams)
    ensures Tops(log[i..k + 1]) == 0
  {
    assert log[..k] == log[0..k] && log[0..k] == log[..i] + log[i..k];
    AppendCounts(log[..i], log[i..k]);
    assert log[i..k + 1] == log[i..k] + [log[k]];
    AppendCounts(log[i..k], [log[k]]);
    assert [log[k]][1..] == [];
  }

  /** A module scope created while items run. */
  lemma InnerGenerates(s: seq<Event>, t: seq<Event>, i: nat)
    requires StagedSteps(s, t) && |s| <= i < |s + t| && ModuleCreated((s + t)[i])
    ensures GeneratesNext(s + t, i)
  {
    var log, k := s + t, i + 1;
    assert log[i] == t[i - |s|] && log[k] == t[i - |s| + 1];
    var j := RunOf(s, t, k);
    TopsBetween(log, i, k, j);
    assert log[i..k] == [log[i]] && [log[i]][1..] == [];
    assert GeneratesQueued(log, i, k);
  }

  /** The scope of a root. */
  lemma RootGenerates(s: seq<Event>, t: seq<Event>, i: nat)
    requires StagedSteps(s, t) && i < |s| && ModuleCreated(s[i])
    ensures GeneratesNext(s + t, i)
  {
    var log := s + t;
    var ran := FirstRunOf(s, t, i + 1);
    var ran', k := ran - |s|, ran + 1;
    assert t[ran'] == log[ran] && t[ran' + 1] == log[k];
    var j := RunOf(s, t, k);
    TopsWithin(log, i, ran);
    TopsBetween(log, i, k, j);
    assert GeneratesQueued(log, i, k);
  }

  /** Between the creation of any module scope, of a root or not, and the run of its
      generate schemes, the defparams are run completely, once. */
  lemma DefparamsBeforeGenerates(d: Source, roots: seq<string>)
    ensures var log := Elaboration(d, roots);
      forall i: nat | i < |log| && ModuleCreated(log[i]) :: GeneratesNext(log, i)
  {
    var s, t := ElaborationStaged(d, roots);
    AllGenerates(s, t);
  }

  lemma AllGenerates(s: seq<Event>, t: seq<Event>)
    requires StagedSteps(s, t)
    ensures forall i: nat | i < |s + t| && ModuleCreated((s + t)[i]) :: GeneratesNext(s + t, i)
  {
    forall i: nat | i < |s + t| && ModuleCreated((s + t)[i])
      ensures GeneratesNext(s + t, i)
    {
      if i < |s| {
        RootGenerates(s, t, i);
      } else {
        InnerGenerates(s, t, i);
      }
    }
  }
}

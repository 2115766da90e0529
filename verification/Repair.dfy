/**
 Repairing a broken replication cluster: the retry loop of fix_replication, with its inner
 budget of attempts and its outer budget of clean-ups.
 */
module Repair {
  datatype Action = UnblockAll | StopNodes | StartReplication | CleanupNodes

  const OPENING: seq<Action> := [UnblockAll, StartReplication]

  /** The second attempt of a round, the clean-up, and the first attempt of the next round. */
  const ROUND: seq<Action> := [StopNodes, StartReplication, StopNodes, CleanupNodes, StartReplication, StartReplication]

  const CLOSING: seq<Action> := [StopNodes, StartReplication]

  /** Everything fix_replication does when nothing helps, in order. */
  const PLAN: seq<Action> := OPENING + ROUND + ROUND + CLOSING

  /** How much of the plan is done when the loop has these budgets left. */
  function Progress(attempts: nat, cleanups: nat): nat
    requires attempts <= 2 && cleanups <= 2
  {
    1 + 6 * (2 - cleanups) + if attempts == 2 then 0 else if attempts == 1 then 1 else 3
  }

  /** The part of the plan that is done when the loop has these budgets left. */
  function UpTo(attempts: nat, cleanups: nat): (r: seq<Action>)
    requires attempts <= 2 && cleanups <= 2
    ensures |r| == Progress(attempts, cleanups)
    decreases 2 - cleanups, 2 - attempts
  {
    if attempts == 1 then UpTo(2, cleanups) + [StartReplication]
    else if attempts == 0 then UpTo(1, cleanups) + [StopNodes, StartReplication]
    else if cleanups == 2 then [UnblockAll]
    else UpTo(0, cleanups + 1) + [StopNodes, CleanupNodes, StartReplication]
  }

  lemma Longer(plan: seq<Action>, p: nat, more: seq<Action>)
    requires p + |more| <= |plan| && forall k :: 0 <= k < |more| ==> plan[p + k] == more[k]
    ensures plan[..p + |more|] == plan[..p] + more
  {
  }

  /** The plan, action by action. */
  predicate IsPlan(plan: seq<Action>) {
    && |plan| == 16 && plan[0] == UnblockAll && plan[1] == StartReplication
    && plan[2] == StopNodes && plan[3] == StartReplication
    && plan[4] == StopNodes && plan[5] == CleanupNodes && plan[6] == StartReplication && plan[7] == StartReplication
    && plan[8] == StopNodes && plan[9] == StartReplication
    && plan[10] == StopNodes && plan[11] == CleanupNodes && plan[12] == StartReplication
    && plan[13] == StartReplication && plan[14] == StopNodes && plan[15] == StartReplication
  }

  lemma UpToIsPart(plan: seq<Action>, attempts: nat, cleanups: nat)
    requires attempts <= 2 && cleanups <= 2 && IsPlan(plan)
    ensures UpTo(attempts, cleanups) == plan[..Progress(attempts, cleanups)]
    decreases 2 - cleanups, 2 - attempts
  {
    var p := Progress(attempts, cleanups);
    if attempts == 1 {
      UpToIsPart(plan, 2, cleanups);
      Longer(plan, p - 1, [StartReplication]);
    } else if attempts == 0 {
      UpToIsPart(plan, 1, cleanups);
      Longer(plan, p - 2, [StopNodes, StartReplication]);
    } else if cleanups < 2 {
      UpToIsPart(plan, 0, cleanups + 1);
      Longer(plan, p - 3, [StopNodes, CleanupNodes, StartReplication]);
    }
  }

  lemma PlanIsPlan()
    ensures IsPlan(PLAN)
    ensures PLAN == [
      UnblockAll, StartReplication,
      StopNodes, StartReplication, StopNodes, CleanupNodes, StartReplication, StartReplication,
      StopNodes, StartReplication, StopNodes, CleanupNodes, StartReplication, StartReplication,
      StopNodes, StartReplication]
  {
  }

  lemma UpToIsPlan(attempts: nat, cleanups: nat)
    requires attempts <= 2 && cleanups <= 2
    ensures UpTo(attempts, cleanups) == PLAN[..Progress(attempts, cleanups)]
  {
    PlanIsPlan();
    UpToIsPart(PLAN, attempts, cleanups);
  }

  /** The places of the plan where the cluster is checked, by their numbers. */
  predicate CheckedAfter(done: nat) {
    || done == 0 || done == 1 || done == 2 || done == 4 || done == 7
    || done == 8 || done == 10 || done == 13 || done == 14 || done == 16
  }

  /** What may help: the unblocking, and every start. */
  predicate MayHelp(action: Action) {
    action == UnblockAll || action == StartReplication
  }

  /** They are: before anything is done, and after every action that may help. */
  lemma WhereChecked(done: nat)
    requires done <= |PLAN|
    ensures CheckedAfter(done) <==> done == 0 || MayHelp(PLAN[done - 1])
  {
  }

  /**
   check_nodes: one probe for each node, all of them sent to node 0. ssh(node, i) is the exit
   code of probe i when it goes to that node.
   */
  method CheckNodes(nodes: nat, ssh: (nat, nat) -> int) returns (res: nat)
    ensures res == 0 <==> forall i :: 0 <= i < nodes ==> ssh(0, i) == 0
    ensures res == |set i | 0 <= i < nodes && ssh(0, i) != 0|
  {
    res := 0;
    for i := 0 to nodes
      invariant res == |set j | 0 <= j < i && ssh(0, j) != 0|
      invariant res == 0 <==> forall j :: 0 <= j < i ==> ssh(0, j) == 0
    {
      ghost var before := set j | 0 <= j < i && ssh(0, j) != 0;
      assert (set j | 0 <= j < i + 1 && ssh(0, j) != 0) == if ssh(0, i) != 0 then before + {i} else before;
      if ssh(0, i) != 0 {
        res := res + 1;
      }
    }
  }

  /**
   The checks in the order they were made: after how many actions, and whether the cluster
   was found broken.
   */
  type Checks = seq<(nat, bool)>

  /** The answers are those of the cluster, and no check comes before one made earlier. */
  ghost predicate Recorded(broken: (nat, nat) -> bool, asked: Checks, actions: nat) {
    && (forall c :: 0 <= c < |asked| ==> asked[c].1 == broken(asked[c].0, c) && asked[c].0 <= actions)
    && (forall c, d :: 0 <= c < d < |asked| ==> asked[c].0 <= asked[d].0)
  }

  /** Two attempts were made since the last clean-up, and no other. */
  predicate UsedUp(actions: nat) {
    actions == 4 || actions == 10 || actions == 16
  }

  /**
   The last check was made after all the actions and found the cluster whole. When the attempts
   are used up that was the last but one: the loop asks once more and does not look at the answer.
   */
  ghost predicate FoundWhole(asked: Checks, actions: nat) {
    if UsedUp(actions) then
      |asked| > 1 && asked[|asked| - 2] == (actions, false) && asked[|asked| - 1].0 == actions
    else
      |asked| > 0 && asked[|asked| - 1] == (actions, false)
  }

  /** No place is checked twice, but for the last when the attempts are used up and the cluster was found whole. */
  ghost predicate OncePerPlace(asked: Checks) {
    forall c, d :: 0 <= c < d < |asked| ==>
      || asked[c].0 < asked[d].0
      || (c == |asked| - 2 && UsedUp(asked[c].0) && !asked[c].1)
  }

  /**
   In terms of the actions: none was taken without a check that called for it, and no check was
   made but at the start and after an action that may help.
   */
  ghost predicate Necessary(asked: Checks, actions: seq<Action>) {
    && (forall c :: 0 <= c < |asked| && asked[c].0 < |actions| ==> asked[c].1)
    && (forall a :: 0 <= a < |actions| && (a == 0 || MayHelp(actions[a - 1])) ==> (a, true) in asked)
    && (forall c :: 0 <= c < |asked| && 0 < asked[c].0 <= |actions| ==> MayHelp(actions[asked[c].0 - 1]))
  }

  // ----- the checks as the loop makes them

  /** The place of the plan that is checked next. */
  function NextPlace(place: nat): (next: nat)
    ensures next > place
  {
    if place == 2 then 4 else if place == 4 then 7 else if place == 8 then 10
    else if place == 10 then 13 else if place == 14 then 16 else place + 1
  }

  /** Checks at one place after the other, each but the last having found the cluster broken. */
  ghost predicate Chain(broken: (nat, nat) -> bool, asked: Checks) {
    asked != [] &&
    var n := |asked| - 1;
    asked[n].1 == broken(asked[n].0, n) && asked[n].0 <= 16 &&
    if n == 0 then asked[n].0 == 0
    else Chain(broken, asked[..n]) && asked[n - 1].1 && asked[n].0 == NextPlace(asked[n - 1].0)
  }

  /** The next check is due after so many actions. */
  ghost predicate Due(asked: Checks, actions: nat) {
    asked != [] && asked[|asked| - 1].1 && NextPlace(asked[|asked| - 1].0) == actions
  }

  lemma {:induction false} ChainMore(broken: (nat, nat) -> bool, asked: Checks, actions: nat)
    requires Chain(broken, asked) && Due(asked, actions) && actions <= 16
    ensures Chain(broken, asked + [(actions, broken(actions, |asked|))])
  {
    var more := asked + [(actions, broken(actions, |asked|))];
    assert more[..|asked|] == asked;
  }

  lemma {:induction false} ChainPrefix(broken: (nat, nat) -> bool, asked: Checks, n: nat)
    requires Chain(broken, asked) && 0 < n <= |asked|
    ensures Chain(broken, asked[..n])
  {
    if n == |asked| {
      assert asked[..n] == asked;
    } else {
      ChainPrefix(broken, asked[..|asked| - 1], n);
      assert asked[..|asked| - 1][..n] == asked[..n];
    }
  }

  /** One check of a chain. */
  lemma {:induction false} ChainAt(broken: (nat, nat) -> bool, asked: Checks, c: nat)
    requires Chain(broken, asked) && c < |asked|
    ensures asked[c].1 == broken(asked[c].0, c) && CheckedAfter(asked[c].0)
    ensures c < |asked| - 1 ==> asked[c].1 && asked[c].0 < asked[|asked| - 1].0
    ensures asked[0].0 == 0
  {
    var n := |asked| - 1;
    if n > 0 {
      ChainAt(broken, asked[..n], if c < n then c else 0);
      PlaceAfter(broken, asked);
    }
  }

  lemma {:induction false} PlaceAfter(broken: (nat, nat) -> bool, asked: Checks)
    requires Chain(broken, asked)
    ensures CheckedAfter(asked[|asked| - 1].0)
  {
    if |asked| > 1 {
      PlaceAfter(broken, asked[..|asked| - 1]);
      NextIsChecked(asked[|asked| - 2].0);
    }
  }

  lemma NextIsChecked(place: nat)
    requires CheckedAfter(place) && NextPlace(place) <= 16
    ensures CheckedAfter(NextPlace(place)) && forall a :: place < a < NextPlace(place) ==> !CheckedAfter(a)
  {
  }

  /** No place before the last is left out. */
  lemma {:induction false} ChainHas(broken: (nat, nat) -> bool, asked: Checks, a: nat)
    requires Chain(broken, asked) && CheckedAfter(a) && a < asked[|asked| - 1].0
    ensures (a, true) in asked
  {
    var n := |asked| - 1;
    var before := asked[..n];
    PlaceAfter(broken, before);
    NextIsChecked(before[n - 1].0);
    if a < before[n - 1].0 {
      ChainHas(broken, before, a);
    } else {
      assert asked[n - 1] == (a, true);
    }
  }

  lemma {:induction false} ChainOrder(broken: (nat, nat) -> bool, asked: Checks, c: nat, d: nat)
    requires Chain(broken, asked) && c < d < |asked|
    ensures asked[c].0 < asked[d].0
  {
    ChainPrefix(broken, asked, d + 1);
    ChainAt(broken, asked[..d + 1], c);
  }

  lemma {:induction false} ChainFacts(broken: (nat, nat) -> bool, asked: Checks)
    requires Chain(broken, asked)
    ensures forall c :: 0 <= c < |asked| ==>
      asked[c].1 == broken(asked[c].0, c) && CheckedAfter(asked[c].0)
    ensures forall c, d :: 0 <= c < d < |asked| ==> asked[c].0 < asked[d].0
    ensures forall c :: 0 <= c < |asked| - 1 ==> asked[c].1
    ensures forall a :: 0 <= a < asked[|asked| - 1].0 && CheckedAfter(a) ==> (a, true) in asked
    ensures asked[0] == (0, broken(0, 0))
  {
    forall c | 0 <= c < |asked|
      ensures asked[c].1 == broken(asked[c].0, c) && CheckedAfter(asked[c].0)
      ensures c < |asked| - 1 ==> asked[c].1
    {
      ChainAt(broken, asked, c);
    }
    forall c, d | 0 <= c < d < |asked|
      ensures asked[c].0 < asked[d].0
    {
      ChainOrder(broken, asked, c, d);
    }
    forall a | 0 <= a < asked[|asked| - 1].0 && CheckedAfter(a)
      ensures (a, true) in asked
    {
      ChainHas(broken, asked, a);
    }
    ChainAt(broken, asked, 0);
  }

  /** The checks of a chain that ends after these actions, in terms of the actions. */
  lemma {:induction false} ChainInPlan(broken: (nat, nat) -> bool, asked: Checks, actions: seq<Action>)
    requires Chain(broken, asked) && actions <= PLAN && asked[|asked| - 1].0 == |actions|
    ensures Recorded(broken, asked, |actions|) && Necessary(asked, actions) && OncePerPlace(asked)
    ensures (|actions|, false) in asked <==> !asked[|asked| - 1].1
  {
    ChainFacts(broken, asked);
    forall a | 0 <= a <= |actions|
      ensures CheckedAfter(a) <==> a == 0 || MayHelp(actions[a - 1])
    {
      WhereChecked(a);
    }
  }

  lemma RecordedMore(broken: (nat, nat) -> bool, asked: Checks, actions: nat)
    requires Recorded(broken, asked, actions)
    ensures Recorded(broken, asked + [(actions, broken(actions, |asked|))], actions)
  {
  }

  lemma NecessaryMore(asked: Checks, actions: seq<Action>, answer: bool)
    requires Necessary(asked, actions) && (|actions|, false) in asked
    ensures Necessary(asked + [(|actions|, answer)], actions)
  {
    var more := asked + [(|actions|, answer)];
    forall a | 0 <= a < |actions| && (a == 0 || MayHelp(actions[a - 1]))
      ensures (a, true) in more
    {
      assert (a, true) in asked;
    }
  }

  lemma OnceMore(asked: Checks, actions: nat, answer: bool)
    requires forall c, d :: 0 <= c < d < |asked| ==> asked[c].0 < asked[d].0
    requires asked != [] && asked[|asked| - 1] == (actions, false) && UsedUp(actions)
    ensures OncePerPlace(asked + [(actions, answer)])
  {
  }

  /** The same with the check that is made and ignored. */
  lemma {:induction false} IgnoredCheck(broken: (nat, nat) -> bool, asked: Checks, actions: seq<Action>, answer: bool)
    requires Chain(broken, asked) && actions <= PLAN && asked[|asked| - 1] == (|actions|, false)
    requires UsedUp(|actions|) && answer == broken(|actions|, |asked|)
    ensures var more := asked + [(|actions|, answer)];
      && Recorded(broken, more, |actions|) && Necessary(more, actions) && OncePerPlace(more)
      && (|actions|, false) in more && more[0] == (0, broken(0, 0))
  {
    ChainFacts(broken, asked);
    ChainInPlan(broken, asked, actions);
    RecordedMore(broken, asked, |actions|);
    NecessaryMore(asked, actions, answer);
    OnceMore(asked, |actions|, answer);
  }

  predicate ProbesFail(nodes: nat, ssh: (nat, nat) -> int) {
    exists i :: 0 <= i < nodes && ssh(0, i) != 0
  }

  /** Where the loop stands before a pass, with these budgets left. */
  ghost predicate Ready(broken: (nat, nat) -> bool, actions: seq<Action>, attempts: nat, cleanups: nat, asked: Checks) {
    && attempts <= 2 && cleanups <= 2 && actions == UpTo(attempts, cleanups) && Chain(broken, asked)
    && if attempts == 0 then asked[|asked| - 1] == (|actions|, false) else Due(asked, |actions|)
  }

  /** Where it stops: what is asked is a chain, or one and the check that is ignored. */
  ghost predicate Over(broken: (nat, nat) -> bool, fixed: bool, actions: seq<Action>,
                       attempts: nat, cleanups: nat, asked: Checks)
  {
    && attempts <= 2 && cleanups <= 2 && actions == UpTo(attempts, cleanups) && asked != []
    && var n := |asked| - 1;
    if !fixed then attempts == 0 && cleanups == 0 && Chain(broken, asked) && asked[n] == (|actions|, true)
    else if attempts > 0 then Chain(broken, asked) && asked[n] == (|actions|, false)
    else if n == 0 then false
    else
      && Chain(broken, asked[..n]) && asked[n - 1] == (|actions|, false)
      && asked[n] == (|actions|, broken(|actions|, n))
  }

  /** The check that ends the loop, or the one before it, found the cluster whole. */
  lemma {:induction false} LoopEnds(broken: (nat, nat) -> bool, actions: seq<Action>, attempts: nat, cleanups: nat,
                                    asked: Checks, stillBroken: bool)
    requires Ready(broken, actions, attempts, cleanups, asked) && stillBroken == broken(|actions|, |asked|)
    requires !(stillBroken && attempts > 0)
    ensures Over(broken, true, actions, attempts, cleanups, asked + [(|actions|, stillBroken)])
  {
    assert (asked + [(|actions|, stillBroken)])[..|asked|] == asked;
    if attempts > 0 {
      ChainMore(broken, asked, |actions|);
    }
  }

  /** The retry loop; the first check and the unblocking are behind. */
  method RepairLoop(broken: (nat, nat) -> bool, ghost asked: Checks)
    returns (fixed: bool, actions: seq<Action>, ghost left: (nat, nat), ghost asked': Checks)
    requires Ready(broken, [UnblockAll], 2, 2, asked) && |asked| == 1
    ensures Over(broken, fixed, actions, left.0, left.1, asked')
  {
    var attempts, attemptsWithCleanup, checks := 2, 2, 1;
    actions, asked' := [UnblockAll], asked;
    while true
      invariant 0 <= attempts && 0 <= attemptsWithCleanup && checks == |asked'|
      invariant Ready(broken, actions, attempts, attemptsWithCleanup, asked')
      decreases attemptsWithCleanup, attempts
    {
      ghost var before := asked';
      var stillBroken;
      stillBroken, asked' := Check(broken, |actions|, checks, asked');
      checks := checks + 1;
      if !(stillBroken && attempts > 0) {
        LoopEnds(broken, actions, attempts, attemptsWithCleanup, before, stillBroken);
        left := (attempts, attemptsWithCleanup);
        return true, actions, left, asked';
      }
      actions := Attempt(actions, attempts, attemptsWithCleanup);
      attempts := attempts - 1;
      if attempts == 0 {
        var givenUp;
        givenUp, actions, attempts, attemptsWithCleanup, asked' :=
          AttemptsUsedUp(broken, actions, attemptsWithCleanup, checks, asked');
        checks := checks + 1;
        if givenUp {
          left := (attempts, attemptsWithCleanup);
          return false, actions, left, asked';
        }
      }
    }
  }

  /** The inner if of the loop: another check, and a clean-up while there is one left. */
  method AttemptsUsedUp(broken: (nat, nat) -> bool, actions: seq<Action>, cleanups: nat, checks: nat,
                        ghost asked: Checks)
    returns (givenUp: bool, more: seq<Action>, attempts: nat, cleanups': nat, ghost asked': Checks)
    requires cleanups <= 2 && actions == UpTo(0, cleanups) && checks == |asked|
    requires Chain(broken, asked) && Due(asked, |actions|)
    ensures |asked'| == |asked| + 1
    ensures givenUp ==> Over(broken, false, more, attempts, cleanups', asked')
    ensures !givenUp ==> Ready(broken, more, attempts, cleanups', asked')
    ensures !givenUp ==> cleanups' < cleanups || (cleanups' == cleanups && attempts == 0)
  {
    more, attempts, cleanups' := actions, 0, cleanups;
    var stillBroken;
    stillBroken, asked' := Check(broken, |actions|, checks, asked);
    givenUp := stillBroken && cleanups == 0;
    if stillBroken && cleanups > 0 {
      more := CleanUp(actions, cleanups);
      cleanups' := cleanups - 1;
      attempts := 2;
    }
  }

  /** check_replication, after so many actions and as the check with this number. */
  method Check(broken: (nat, nat) -> bool, actions: nat, checks: nat, ghost asked: Checks)
    returns (answer: bool, ghost more: Checks)
    requires checks == |asked| && Chain(broken, asked) && actions <= 16
    ensures answer == broken(actions, checks) && more == asked + [(actions, answer)]
    ensures Due(asked, actions) ==> Chain(broken, more) && |more| > 1 && more[|more| - 1] == (actions, answer)
  {
    answer := broken(actions, checks);
    more := asked + [(actions, answer)];
    if Due(asked, actions) {
      ChainMore(broken, asked, actions);
    }
  }

  /** stop_nodes before the second attempt only, then start_replication. */
  method Attempt(actions: seq<Action>, attempts: nat, cleanups: nat) returns (more: seq<Action>)
    requires 0 < attempts <= 2 && cleanups <= 2 && actions == UpTo(attempts, cleanups)
    ensures more == UpTo(attempts - 1, cleanups) && |more| == NextPlace(|actions|)
  {
    more := actions;
    if attempts != 2 {
      more := more + [StopNodes];
    }
    more := more + [StartReplication];
  }

  method CleanUp(actions: seq<Action>, cleanups: nat) returns (more: seq<Action>)
    requires 0 < cleanups <= 2 && actions == UpTo(0, cleanups)
    ensures more == UpTo(2, cleanups - 1) && |more| == NextPlace(|actions|)
  {
    more := actions + [StopNodes] + [CleanupNodes] + [StartReplication];
  }

  /**
   broken(a, c) is the answer to check number c when it is made after a actions; for a
   cluster that changes only through the actions it does not depend on c. Whatever the
   answers are, the actions are a prefix of the plan. The cluster is checked once at the
   start and once after every action that may have helped, and it goes on only after a check
   that found it broken. Success means that a check made after the last action found it
   whole, whatever an ignored one after that found. Failure means that the probes failed
   after nothing but the unblocking, or that the plan was spent and the last check, made
   after it, found the cluster broken.
   */
  method FixReplication(broken: (nat, nat) -> bool, nodes: nat, ssh: (nat, nat) -> int)
    returns (fixed: bool, actions: seq<Action>, ghost asked: Checks)
    ensures actions <= PLAN && Recorded(broken, asked, |actions|) && Necessary(asked, actions)
    ensures |asked| > 0 && asked[0] == (0, broken(0, 0))
    ensures actions == [] <==> !broken(0, 0)
    ensures OncePerPlace(asked)
    ensures fixed <==> (|actions|, false) in asked
    ensures fixed ==> FoundWhole(asked, |actions|)
    ensures !fixed ==>
      || (actions == [UnblockAll] && ProbesFail(nodes, ssh))
      || (actions == PLAN && asked[|asked| - 1] == (|PLAN|, true))
    ensures broken(0, 0) && ProbesFail(nodes, ssh) ==> !fixed && actions == [UnblockAll] && |asked| == 1
  {
    var stillBroken := broken(0, 0);
    fixed, actions, asked := true, [], [(0, stillBroken)];
    assert PLAN[..0] == [] && PLAN[..1] == [UnblockAll];
    FirstCheck(broken, asked);
    if !stillBroken {
      return;
    }
    actions := [UnblockAll];
    var res := CheckNodes(nodes, ssh);
    if res != 0 {
      return false, actions, asked;
    }
    ghost var left;
    fixed, actions, left, asked := RepairLoop(broken, asked);
    LoopResult(broken, fixed, actions, left.0, left.1, asked);
  }

  lemma {:induction false} FirstCheck(broken: (nat, nat) -> bool, asked: Checks)
    requires asked == [(0, broken(0, 0))]
    ensures Chain(broken, asked) && OncePerPlace(asked)
    ensures Recorded(broken, asked, 0) && Recorded(broken, asked, 1) && Necessary(asked, [])
    ensures broken(0, 0) ==> Ready(broken, [UnblockAll], 2, 2, asked) && Necessary(asked, [UnblockAll])
    ensures (0, false) in asked <==> !broken(0, 0)
    ensures (1, false) !in asked
  {
    assert asked[0] == (0, broken(0, 0));
  }

  lemma {:induction false} LoopResult(broken: (nat, nat) -> bool, fixed: bool, actions: seq<Action>,
                                      attempts: nat, cleanups: nat, asked: Checks)
    requires Over(broken, fixed, actions, attempts, cleanups, asked)
    ensures actions <= PLAN && actions != [] && Necessary(asked, actions) && Recorded(broken, asked, |actions|)
    ensures OncePerPlace(asked) && asked[0] == (0, broken(0, 0)) && (fixed <==> (|actions|, false) in asked)
    ensures fixed ==> FoundWhole(asked, |actions|)
    ensures !fixed ==> actions == PLAN
  {
    UpToIsPlan(attempts, cleanups);
    assert PLAN[..|PLAN|] == PLAN;
    var n := |asked| - 1;
    if fixed && attempts == 0 {
      assert asked == asked[..n] + [asked[n]];
      IgnoredCheck(broken, asked[..n], actions, asked[n].1);
    } else {
      ChainInPlan(broken, asked, actions);
      ChainFacts(broken, asked);
    }
  }

  /**
   A cluster whose health depends on the actions alone, whole(a) after the first a of them.
   A whole cluster is left alone. Failing probes end the repair after the unblocking, with
   failure, even if the unblocking has helped. Otherwise the loop stops at the first check
   that finds the cluster whole, says so, and gives up only after the whole plan.
   */
  method RepairSteadyCluster(whole: nat -> bool, nodes: nat, ssh: (nat, nat) -> int)
    returns (fixed: bool, actions: seq<Action>)
    ensures whole(0) ==> fixed && actions == []
    ensures !whole(0) && ProbesFail(nodes, ssh) ==> !fixed && actions == [UnblockAll]
    ensures !whole(0) && !ProbesFail(nodes, ssh) ==>
      && 0 < |actions| && actions <= PLAN && (fixed <==> whole(|actions|))
      && (!fixed ==> actions == PLAN)
      && forall a :: 0 <= a < |actions| && (a == 0 || MayHelp(actions[a - 1])) ==> !whole(a)
  {
    var broken := (a: nat, c: nat) => !whole(a);
    ghost var asked;
    fixed, actions, asked := FixReplication(broken, nodes, ssh);
    forall a | 0 <= a < |actions| && (a == 0 || MayHelp(actions[a - 1]))
      ensures !whole(a)
    {
      var c :| 0 <= c < |asked| && asked[c] == (a, true);
    }
  }

  lemma PrefixCount(actions: seq<Action>, all: seq<Action>, a: Action)
    requires actions <= all
    ensures multiset(actions)[a] <= multiset(all)[a]
  {
    assert all == actions + all[|actions|..];
  }

  lemma OpeningCounts()
    ensures multiset(OPENING) == multiset{UnblockAll, StartReplication}
  {
  }

  lemma RoundCounts()
    ensures multiset(ROUND)[StartReplication] == 3
    ensures multiset(ROUND)[StopNodes] == 2 && multiset(ROUND)[CleanupNodes] == 1
  {
  }

  lemma ClosingCounts()
    ensures multiset(CLOSING) == multiset{StopNodes, StartReplication}
  {
  }

  lemma Joined(a: seq<Action>, b: seq<Action>, c: seq<Action>, d: seq<Action>, x: Action)
    ensures multiset(a + b + c + d)[x] == multiset(a)[x] + multiset(b)[x] + multiset(c)[x] + multiset(d)[x]
  {
  }

  lemma PlanCounts()
    ensures multiset(PLAN)[StartReplication] == 8 && multiset(PLAN)[StopNodes] == 5 && multiset(PLAN)[CleanupNodes] == 2
  {
    OpeningCounts();
    RoundCounts();
    ClosingCounts();
    Joined(OPENING, ROUND, ROUND, CLOSING, StartReplication);
    Joined(OPENING, ROUND, ROUND, CLOSING, StopNodes);
    Joined(OPENING, ROUND, ROUND, CLOSING, CleanupNodes);
  }

  /** The budgets as numbers: at most eight starts, five stops and two clean-ups. */
  lemma Budgets(actions: seq<Action>)
    requires actions <= PLAN
    ensures multiset(actions)[StartReplication] <= 8
    ensures multiset(actions)[StopNodes] <= 5
    ensures multiset(actions)[CleanupNodes] <= 2
  {
    PrefixCount(actions, PLAN, StartReplication);
    PrefixCount(actions, PLAN, StopNodes);
    PrefixCount(actions, PLAN, CleanupNodes);
    PlanCounts();
  }
}

/**
 Blocking and unblocking the database port of a node: the INPUT chains of iptables and
 ip6tables, edited at their heads, and the flags the test framework keeps about them.
 */
module Firewalls {
  import opened Decimal

  datatype Target = Accept | Reject | PassOn

  /** listing is the line "iptables -n -L INPUT 1" prints for the rule; dport is the port it matches. */
  datatype Rule = Rule(listing: string, dport: int, target: Target)

  /** grep finds the text somewhere in the line. */
  predicate Contains(line: string, text: string) {
    text <= line || (line != "" && Contains(line[1..], text))
  }

  lemma {:induction false} ContainsBehind(before: string, text: string)
    ensures Contains(before + text, text)
  {
    if before == "" {
      assert before + text == text;
    } else {
      assert (before + text)[1..] == before[1..] + text;
      ContainsBehind(before[1..], text);
    }
  }

  predicate Mentions(rule: Rule, port: int) {
    Contains(rule.listing, PrintInt(port))
  }

  /** The chain without the rules at its head that mention the port. */
  function DropLeading(rules: seq<Rule>, port: int): (r: seq<Rule>)
    ensures |r| <= |rules|
  {
    if rules != [] && Mentions(rules[0], port) then DropLeading(rules[1..], port) else rules
  }

  /** What happens to a packet for the port: the first rule for it that decides, or the default. */
  function Fate(rules: seq<Rule>, port: int): Target {
    if rules == [] then Accept
    else if rules[0].dport == port && rules[0].target != PassOn then rules[0].target
    else Fate(rules[1..], port)
  }

  function Verb(reject: bool): string {
    if reject then "REJECT" else "ACCEPT"
  }

  function Addresses(): string {
    " tcp -- 0.0.0.0/0 0.0.0.0/0 tcp dpt:"
  }

  /** What the listing of an own rule has before its port number. */
  function Head(reject: bool): string {
    Verb(reject) + Addresses()
  }

  /** And behind it. */
  function Tail(reject: bool): string {
    if reject then " reject-with icmp-port-unreachable" else ""
  }

  /** The rule "-p tcp --dport port -j REJECT" or "... -j ACCEPT". */
  function OwnRule(port: int, reject: bool): Rule {
    Rule(Head(reject) + PrintInt(port) + Tail(reject), port, if reject then Reject else Accept)
  }

  lemma {:induction false} ContainsAhead(line: string, after: string, text: string)
    requires Contains(line, text)
    ensures Contains(line + after, text)
  {
    if !(text <= line) {
      assert (line + after)[1..] == line[1..] + after;
      ContainsAhead(line[1..], after, text);
    }
  }

  lemma Inside(before: string, text: string, after: string)
    ensures Contains(before + text + after, text)
  {
    ContainsBehind(before, text);
    ContainsAhead(before + text, after, text);
  }

  lemma OwnRuleIsFound(port: int, reject: bool)
    ensures Mentions(OwnRule(port, reject), port)
  {
    Inside(Head(reject), PrintInt(port), Tail(reject));
  }

  /** Text in front without the first digit does not help to find digits. */
  lemma {:induction false} OtherHead(before: string, line: string, digits: string)
    requires digits != "" && digits[0] !in before
    ensures Contains(before + line, digits) <==> Contains(line, digits)
  {
    if before == "" {
      assert before + line == line;
    } else {
      assert (before + line)[1..] == before[1..] + line;
      assert (before + line)[0] == before[0];
      OtherHead(before[1..], line, digits);
    }
  }

  predicate DigitFree(s: string) {
    forall k :: 0 <= k < |s| ==> !IsDigit(s[k])
  }

  lemma {:induction false} NotInTail(after: string, digits: string)
    requires digits != "" && AllDigits(digits) && DigitFree(after)
    ensures !Contains(after, digits)
  {
    if after != "" {
      assert IsDigit(digits[0]) && !IsDigit(after[0]);
      NotInTail(after[1..], digits);
    }
  }

  /** Nor does text behind without a digit. */
  lemma {:induction false} DigitFreeTail(line: string, after: string, digits: string)
    requires digits != "" && AllDigits(digits) && DigitFree(after)
    ensures Contains(line + after, digits) <==> Contains(line, digits)
  {
    PrefixTail(line, after, digits);
    if line == "" {
      assert line + after == after;
      NotInTail(after, digits);
    } else {
      assert (line + after)[1..] == line[1..] + after;
      DigitFreeTail(line[1..], after, digits);
    }
  }

  lemma PrefixTail(line: string, after: string, digits: string)
    requires digits != "" && AllDigits(digits) && DigitFree(after)
    ensures digits <= line + after <==> digits <= line
  {
    if |line| < |digits| <= |line + after| {
      assert !IsDigit((line + after)[|line|]) && IsDigit(digits[|line|]);
    } else if |digits| <= |line| {
      assert (line + after)[..|digits|] == line[..|digits|];
    }
  }

  /** The search takes a rule for port q for one of port p. */
  predicate TakenFor(q: nat, p: nat) {
    p == 0 || Contains(PrintInt(q), PrintInt(p))
  }

  /** The zero of the addresses is in every own rule. */
  lemma ZeroIsFound(q: nat, reject: bool)
    ensures Mentions(OwnRule(q, reject), 0)
  {
    var before, after := Addresses()[..8], Addresses()[9..];
    var line := OwnRule(q, reject).listing;
    assert Addresses()[8] == '0';
    assert Addresses() == before + "0" + after;
    assert PrintInt(0) == "0";
    Around(Verb(reject), before, PrintInt(0), after, PrintInt(q) + Tail(reject));
    assert line == Verb(reject) + (before + PrintInt(0) + after) + (PrintInt(q) + Tail(reject));
  }

  lemma Around(a: string, b: string, text: string, c: string, d: string)
    ensures Contains(a + (b + text + c) + d, text)
  {
    Inside(a + b, text, c + d);
    assert a + (b + text + c) + d == (a + b) + text + (c + d);
  }

  /** A digit other than 0 is not in front of the port number. */
  lemma NoOtherDigit(c: char, reject: bool)
    requires '1' <= c <= '9'
    ensures c !in Head(reject)
  {
    assert c !in Verb(reject) && c !in Addresses();
  }

  lemma TailHasNoDigit(reject: bool)
    ensures DigitFree(Tail(reject))
  {
  }

  lemma PortInLine(before: string, q: string, after: string, p: string)
    requires p != "" && AllDigits(p) && p[0] !in before && DigitFree(after)
    ensures Contains(before + q + after, p) <==> Contains(q, p)
  {
    assert before + (q + after) == before + q + after;
    OtherHead(before, q + after, p);
    DigitFreeTail(q, after, p);
  }

  /**
   The search is for a substring: a rule for port q is taken for one of port p exactly if p's
   digits occur in q's, or p is 0.
   */
  lemma TakenForPort(p: nat, q: nat, reject: bool)
    ensures Mentions(OwnRule(q, reject), p) <==> TakenFor(q, p)
  {
    if p == 0 {
      ZeroIsFound(q, reject);
    } else {
      FirstDigit(p);
      NoOtherDigit(PrintInt(p)[0], reject);
      TailHasNoDigit(reject);
      PortInLine(Head(reject), PrintInt(q), Tail(reject), PrintInt(p));
    }
  }

  /** A positive number is printed without a leading zero, in digits. */
  lemma {:induction false} FirstDigit(p: nat)
    requires p > 0
    ensures PrintInt(p) != "" && AllDigits(PrintInt(p)) && '1' <= PrintInt(p)[0] <= '9'
  {
    if p >= 10 {
      FirstDigit(p / 10);
    }
  }

  /** How many rules at the head of the chain mention the port. */
  function LeadingRun(rules: seq<Rule>, port: int): nat {
    if rules != [] && Mentions(rules[0], port) then 1 + LeadingRun(rules[1..], port) else 0
  }

  lemma {:induction false} DropLeadingIsRun(rules: seq<Rule>, port: int)
    ensures LeadingRun(rules, port) <= |rules|
    ensures DropLeading(rules, port) == rules[LeadingRun(rules, port)..]
    ensures forall k :: 0 <= k < LeadingRun(rules, port) ==> Mentions(rules[k], port)
    ensures LeadingRun(rules, port) < |rules| ==> !Mentions(rules[LeadingRun(rules, port)], port)
  {
    if rules != [] && Mentions(rules[0], port) {
      DropLeadingIsRun(rules[1..], port);
      var n := LeadingRun(rules, port);
      assert forall k :: 0 < k < |rules| ==> rules[k] == rules[1..][k - 1];
    }
  }

  /** Every rule that is deleted, that is every rule missing from the front, is for this port. */
  predicate DeletesOnly(rules: seq<Rule>, port: int) {
    forall k :: 0 <= k < |rules| - |DropLeading(rules, port)| ==> rules[k].dport == port
  }

  /** A rule for another port is reached by the search: it mentions this one, and so do all before it. */
  predicate OtherPortReached(rules: seq<Rule>, port: int, k: nat) {
    k < |rules| && rules[k].dport != port && forall j :: 0 <= j <= k ==> Mentions(rules[j], port)
  }

  /** For every chain: cleaning up for a port spares the other ports unless one of their rules is reached. */
  lemma OtherPortsAreSpared(rules: seq<Rule>, port: int)
    ensures DeletesOnly(rules, port) <==> !exists k: nat :: OtherPortReached(rules, port, k)
  {
    DropLeadingIsRun(rules, port);
    var n := LeadingRun(rules, port);
    if k: nat :| OtherPortReached(rules, port, k) {
      assert k < n;
    }
    forall k: nat | k < n && rules[k].dport != port
      ensures OtherPortReached(rules, port, k)
    {
    }
  }

  /** The chain holds rules the framework made: the one at k for port ports[k]. */
  predicate MadeHere(rules: seq<Rule>, ports: seq<nat>) {
    |rules| == |ports| && forall k :: 0 <= k < |rules| ==>
      rules[k] == OwnRule(ports[k], true) || rules[k] == OwnRule(ports[k], false)
  }

  /**
   For chains of such rules the condition is about port numbers alone: cleaning up for port
   spares the others iff no other port's number, with all those before it, has the digits of
   port in it.
   */
  lemma SparedByDigits(rules: seq<Rule>, ports: seq<nat>, port: nat)
    requires MadeHere(rules, ports)
    ensures DeletesOnly(rules, port) <==>
      !exists k: nat :: k < |ports| && ports[k] != port
        && forall j :: 0 <= j <= k ==> TakenFor(ports[j], port)
  {
    OtherPortsAreSpared(rules, port);
    forall j | 0 <= j < |rules|
      ensures Mentions(rules[j], port) <==> TakenFor(ports[j], port)
      ensures rules[j].dport == ports[j]
    {
      TakenForPort(port, ports[j], true);
      TakenForPort(port, ports[j], false);
    }
    if k: nat :| k < |ports| && ports[k] != port
                && forall j :: 0 <= j <= k ==> TakenFor(ports[j], port) {
      assert OtherPortReached(rules, port, k);
    }
    if k: nat :| OtherPortReached(rules, port, k) {
      assert ports[k] != port;
    }
  }

  /** Such ports exist: a rule for 33060 is deleted along with those for 3306. */
  lemma OtherPortIsSwept(reject: bool)
    ensures !DeletesOnly([OwnRule(33060, reject)], 3306)
  {
    assert 33060 / 10 == 3306 && 33060 % 10 == 0;
    assert PrintInt(33060) == PrintInt(3306) + "0";
    TakenForPort(3306, 33060, reject);
    assert OtherPortReached([OwnRule(33060, reject)], 3306, 0);
    OtherPortsAreSpared([OwnRule(33060, reject)], 3306);
  }

  /** The chain after blocking or unblocking: one own rule, and the old chain without its head. */
  function Edited(rules: seq<Rule>, port: int, reject: bool): seq<Rule> {
    [OwnRule(port, reject)] + DropLeading(rules, port)
  }

  lemma {:induction false} DropLeadingDone(rules: seq<Rule>, port: int)
    ensures DropLeading(DropLeading(rules, port), port) == DropLeading(rules, port)
  {
    if rules != [] && Mentions(rules[0], port) {
      DropLeadingDone(rules[1..], port);
    }
  }

  /** Editing again replaces the own rule and leaves the rest alone. */
  lemma EditedTwice(rules: seq<Rule>, port: int, first: bool, second: bool)
    ensures Edited(Edited(rules, port, first), port, second) == Edited(rules, port, second)
  {
    OwnRuleIsFound(port, first);
    DropLeadingDone(rules, port);
    assert Edited(rules, port, first)[1..] == DropLeading(rules, port);
  }

  /** What survives of a chain: all from the first rule on that does not mention the port. */
  predicate Rest(rules: seq<Rule>, port: int, rest: seq<Rule>) {
    && |rest| <= |rules| && rest == rules[|rules| - |rest|..]
    && (forall k :: 0 <= k < |rules| - |rest| ==> Mentions(rules[k], port))
    && (rest != [] ==> !Mentions(rest[0], port))
  }

  lemma EditedKeepsRest(rules: seq<Rule>, port: int, reject: bool)
    ensures var r := Edited(rules, port, reject);
      r != [] && r[0] == OwnRule(port, reject) && Rest(rules, port, r[1..])
  {
    DropLeadingIsRun(rules, port);
    assert Edited(rules, port, reject)[1..] == DropLeading(rules, port);
  }

  lemma {:induction false} FateBehind(rules: seq<Rule>, port: int, n: nat)
    requires n <= |rules| && forall k :: 0 <= k < n ==> rules[k].dport != port
    ensures Fate(rules[n..], port) == Fate(rules, port)
    decreases n
  {
    if n == 0 {
      assert rules[0..] == rules;
    } else {
      assert rules[1..][n - 1..] == rules[n..];
      FateBehind(rules[1..], port, n - 1);
    }
  }

  /** Where cleaning up spares the other ports, blocking and unblocking change nothing for their packets. */
  lemma OthersKeepTheirFate(rules: seq<Rule>, port: int, reject: bool, other: int)
    requires other != port && DeletesOnly(rules, port)
    ensures Fate(Edited(rules, port, reject), other) == Fate(rules, other)
  {
    DropLeadingIsRun(rules, port);
    var n := |rules| - |DropLeading(rules, port)|;
    FateBehind(rules, other, n);
    assert Edited(rules, port, reject)[1..] == rules[n..];
  }

  // ----- runs of calls

  /** blocked[i], and the chains of iptables and ip6tables of node i. */
  datatype State = State(blocked: seq<bool>, rules4: seq<seq<Rule>>, rules6: seq<seq<Rule>>)

  predicate Shaped(s: State, ports: seq<int>) {
    |s.blocked| == |s.rules4| == |s.rules6| == |ports|
  }

  function Touch(s: State, ports: seq<int>, node: nat, reject: bool): State
    requires Shaped(s, ports) && node < |ports|
  {
    State(s.blocked[node := reject],
          s.rules4[node := Edited(s.rules4[node], ports[node], reject)],
          s.rules6[node := Edited(s.rules6[node], ports[node], reject)])
  }

  datatype Call = Block(node: nat) | Unblock(node: nat) | UnblockAll

  predicate Names(calls: seq<Call>, nodes: nat) {
    forall k :: 0 <= k < |calls| ==> calls[k].UnblockAll? || calls[k].node < nodes
  }

  /** unblock_all_nodes up to node n. */
  function UnblockUpTo(s: State, ports: seq<int>, n: nat): (s': State)
    requires Shaped(s, ports) && n <= |ports|
    ensures Shaped(s', ports)
  {
    if n == 0 then s else Touch(UnblockUpTo(s, ports, n - 1), ports, n - 1, false)
  }

  function Apply(s: State, ports: seq<int>, call: Call): (s': State)
    requires Shaped(s, ports) && (call.UnblockAll? || call.node < |ports|)
    ensures Shaped(s', ports)
  {
    match call
    case Block(node) => Touch(s, ports, node, true)
    case Unblock(node) => Touch(s, ports, node, false)
    case UnblockAll => UnblockUpTo(s, ports, |ports|)
  }

  function Run(s: State, ports: seq<int>, calls: seq<Call>): (s': State)
    requires Shaped(s, ports) && Names(calls, |ports|)
    ensures Shaped(s', ports)
  {
    if calls == [] then s
    else Apply(Run(s, ports, calls[..|calls| - 1]), ports, calls[|calls| - 1])
  }

  lemma OneMoreCall(s: State, ports: seq<int>, calls: seq<Call>, k: nat)
    requires Shaped(s, ports) && Names(calls, |ports|) && k < |calls|
    ensures Run(s, ports, calls[..k + 1]) == Apply(Run(s, ports, calls[..k]), ports, calls[k])
  {
    assert calls[..k + 1][..k] == calls[..k];
  }

  predicate Concerns(call: Call, node: nat) {
    call.UnblockAll? || call.node == node
  }

  predicate Touched(calls: seq<Call>, node: nat) {
    exists k :: 0 <= k < |calls| && Concerns(calls[k], node)
  }

  /** Whether the last call that concerned the node blocked it. */
  function LastBlocks(calls: seq<Call>, node: nat): bool {
    if calls == [] then false
    else if Concerns(calls[|calls| - 1], node) then calls[|calls| - 1].Block?
    else LastBlocks(calls[..|calls| - 1], node)
  }

  /** How a node looks in s' against s: edited for the last time with reject, or not touched. */
  predicate Looks(s: State, s': State, ports: seq<int>, node: nat, touched: bool, reject: bool)
    requires Shaped(s, ports) && Shaped(s', ports) && node < |ports|
  {
    if touched then
      && s'.blocked[node] == reject
      && s'.rules4[node] == Edited(s.rules4[node], ports[node], reject)
      && s'.rules6[node] == Edited(s.rules6[node], ports[node], reject)
    else
      s'.blocked[node] == s.blocked[node] && s'.rules4[node] == s.rules4[node] && s'.rules6[node] == s.rules6[node]
  }

  lemma LooksThen(s: State, t: State, u: State, ports: seq<int>, node: nat,
                  first: bool, reject: bool, again: bool, reject': bool)
    requires Shaped(s, ports) && Shaped(t, ports) && Shaped(u, ports) && node < |ports|
    requires Looks(s, t, ports, node, first, reject) && Looks(t, u, ports, node, again, reject')
    ensures Looks(s, u, ports, node, first || again, if again then reject' else reject)
  {
    if first && again {
      EditedTwice(s.rules4[node], ports[node], reject, reject');
      EditedTwice(s.rules6[node], ports[node], reject, reject');
    }
  }

  lemma TouchLooks(s: State, ports: seq<int>, edited: nat, reject: bool, node: nat)
    requires Shaped(s, ports) && edited < |ports| && node < |ports|
    ensures Looks(s, Touch(s, ports, edited, reject), ports, node, edited == node, reject)
  {
  }

  lemma {:induction false} UnblockUpToLooks(s: State, ports: seq<int>, n: nat, node: nat)
    requires Shaped(s, ports) && n <= |ports| && node < |ports|
    ensures Looks(s, UnblockUpTo(s, ports, n), ports, node, node < n, false)
  {
    if n > 0 {
      UnblockUpToLooks(s, ports, n - 1, node);
      UnblockStep(s, UnblockUpTo(s, ports, n - 1), ports, n, node);
    }
  }

  lemma UnblockStep(s: State, before: State, ports: seq<int>, n: nat, node: nat)
    requires Shaped(s, ports) && Shaped(before, ports) && 0 < n <= |ports| && node < |ports|
    requires Looks(s, before, ports, node, node < n - 1, false)
    ensures Looks(s, Touch(before, ports, n - 1, false), ports, node, node < n, false)
  {
    TouchLooks(before, ports, n - 1, false, node);
    LooksThen(s, before, Touch(before, ports, n - 1, false), ports, node, node < n - 1, false, n - 1 == node, false);
  }

  /** One call: the node it concerns is edited, and no other. */
  lemma ApplyLooks(s: State, ports: seq<int>, call: Call, node: nat)
    requires Shaped(s, ports) && (call.UnblockAll? || call.node < |ports|) && node < |ports|
    ensures Looks(s, Apply(s, ports, call), ports, node, Concerns(call, node), call.Block?)
  {
    match call
    case Block(edited) => TouchLooks(s, ports, edited, true, node);
    case Unblock(edited) => TouchLooks(s, ports, edited, false, node);
    case UnblockAll => UnblockUpToLooks(s, ports, |ports|, node);
  }

  lemma TouchedMore(before: seq<Call>, call: Call, node: nat)
    ensures Touched(before + [call], node) <==> Touched(before, node) || Concerns(call, node)
    ensures LastBlocks(before + [call], node) == if Concerns(call, node) then call.Block? else LastBlocks(before, node)
  {
    var calls := before + [call];
    assert calls[..|before|] == before;
    if Touched(before, node) {
      var k :| 0 <= k < |before| && Concerns(before[k], node);
      assert Concerns(calls[k], node);
    }
    assert calls[|before|] == call;
  }

  /**
   However often a node was blocked and unblocked, its chains hold one own rule, that of the
   last call, and behind it the first chain without its leading rules for the port. A node
   that no call concerned is as it was.
   */
  lemma {:induction false} RunLooks(s: State, ports: seq<int>, calls: seq<Call>, node: nat)
    requires Shaped(s, ports) && Names(calls, |ports|) && node < |ports|
    ensures Looks(s, Run(s, ports, calls), ports, node, Touched(calls, node), LastBlocks(calls, node))
  {
    if calls != [] {
      var before, call := calls[..|calls| - 1], calls[|calls| - 1];
      assert calls == before + [call];
      RunLooks(s, ports, before, node);
      ApplyLooks(Run(s, ports, before), ports, call, node);
      TouchedMore(before, call, node);
      LooksThen(s, Run(s, ports, before), Run(s, ports, calls), ports, node,
                Touched(before, node), LastBlocks(before, node), Concerns(call, node), call.Block?);
    }
  }

  /** So the port of a touched node is refused, in both chains, exactly when the node is marked as blocked. */
  lemma MarkedIsRefused(s: State, ports: seq<int>, calls: seq<Call>, node: nat)
    requires Shaped(s, ports) && Names(calls, |ports|) && node < |ports| && Touched(calls, node)
    ensures var s' := Run(s, ports, calls);
      && (s'.blocked[node] <==> Fate(s'.rules4[node], ports[node]) == Reject)
      && (s'.blocked[node] <==> Fate(s'.rules6[node], ports[node]) == Reject)
      && |s'.rules4[node]| <= |s.rules4[node]| + 1 && |s'.rules6[node]| <= |s.rules6[node]| + 1
  {
    RunLooks(s, ports, calls, node);
  }

  /** Apart from the own rule at its head, a chain of a touched node keeps what it had behind its leading rules. */
  lemma RestSurvives(s: State, ports: seq<int>, calls: seq<Call>, node: nat)
    requires Shaped(s, ports) && Names(calls, |ports|) && node < |ports| && Touched(calls, node)
    ensures var r := Run(s, ports, calls).rules4[node];
      r != [] && r[0] == OwnRule(ports[node], LastBlocks(calls, node)) && Rest(s.rules4[node], ports[node], r[1..])
    ensures var r := Run(s, ports, calls).rules6[node];
      r != [] && r[0] == OwnRule(ports[node], LastBlocks(calls, node)) && Rest(s.rules6[node], ports[node], r[1..])
  {
    RunLooks(s, ports, calls, node);
    EditedKeepsRest(s.rules4[node], ports[node], LastBlocks(calls, node));
    EditedKeepsRest(s.rules6[node], ports[node], LastBlocks(calls, node));
  }

  /** After unblock_all_nodes no node refuses its port, whatever went before. */
  lemma AllOpen(s: State, ports: seq<int>, calls: seq<Call>, node: nat)
    requires Shaped(s, ports) && Names(calls, |ports|) && node < |ports|
    ensures var s' := Run(s, ports, calls + [UnblockAll]);
      !s'.blocked[node] && Fate(s'.rules4[node], ports[node]) == Accept && Fate(s'.rules6[node], ports[node]) == Accept
  {
    var all := calls + [UnblockAll];
    assert Concerns(all[|all| - 1], node);
    RunLooks(s, ports, all, node);
  }

  /** The destructor up to node n. */
  function OpenBlocked(s: State, ports: seq<int>, n: nat): (s': State)
    requires Shaped(s, ports) && n <= |ports|
    ensures Shaped(s', ports)
  {
    if n == 0 then s else
    var t := OpenBlocked(s, ports, n - 1);
    if t.blocked[n - 1] then Touch(t, ports, n - 1, false) else t
  }

  lemma {:induction false} OpenBlockedLooks(s: State, ports: seq<int>, n: nat, node: nat)
    requires Shaped(s, ports) && n <= |ports| && node < |ports|
    ensures Looks(s, OpenBlocked(s, ports, n), ports, node, node < n && s.blocked[node], false)
  {
    if n > 0 {
      OpenBlockedLooks(s, ports, n - 1, node);
      var t := OpenBlocked(s, ports, n - 1);
      if t.blocked[n - 1] {
        TouchLooks(t, ports, n - 1, false, node);
        LooksThen(s, t, OpenBlocked(s, ports, n), ports, node,
                  node < n - 1 && s.blocked[node], false, n - 1 == node, false);
      }
    }
  }

  /** After any run from a fresh start, the destructor leaves every touched node open and unmarked. */
  lemma DestructorOpens(s: State, ports: seq<int>, calls: seq<Call>, node: nat)
    requires Shaped(s, ports) && Names(calls, |ports|) && node < |ports| && Touched(calls, node)
    ensures var end := OpenBlocked(Run(s, ports, calls), ports, |ports|);
      && !end.blocked[node]
      && end.rules4[node] == Edited(s.rules4[node], ports[node], false) && Fate(end.rules4[node], ports[node]) == Accept
      && end.rules6[node] == Edited(s.rules6[node], ports[node], false) && Fate(end.rules6[node], ports[node]) == Accept
  {
    var t := Run(s, ports, calls);
    RunLooks(s, ports, calls, node);
    OpenBlockedLooks(t, ports, |ports|, node);
    LooksThen(s, t, OpenBlocked(t, ports, |ports|), ports, node, true, LastBlocks(calls, node), t.blocked[node], false);
  }

  // ----- the class

  /** The part of Mariadb_nodes that deals with the firewall, and the chains on the nodes. */
  class MariadbNodes {
    const N: nat
    const port: seq<int>
    const blocked: array<bool>
    var rules4: seq<seq<Rule>>
    var rules6: seq<seq<Rule>>

    ghost predicate Valid()
      reads this
    {
      N <= 256 && blocked.Length == 256 && |port| == |rules4| == |rules6| == N
    }

    ghost function View(): (s: State)
      requires Valid()
      reads this, blocked
      ensures Shaped(s, port)
    {
      State(blocked[..N], rules4, rules6)
    }

    constructor (ports: seq<int>, rules4: seq<seq<Rule>>, rules6: seq<seq<Rule>>)
      requires |ports| == |rules4| == |rules6| <= 256
      ensures Valid() && fresh(blocked) && port == ports
      ensures View() == State(seq(|ports|, _ => false), rules4, rules6)
    {
      N, port := |ports|, ports;
      blocked := new bool[256](_ => false);
      this.rules4, this.rules6 := rules4, rules6;
    }

    /** The script clean_iptables.sh: delete the first rule while it mentions the port. */
    method CleanIptables(node: nat)
      requires Valid() && node < N
      modifies this
      ensures Valid()
      ensures rules4 == old(rules4)[node := DropLeading(old(rules4[node]), port[node])]
      ensures rules6 == old(rules6)[node := DropLeading(old(rules6[node]), port[node])]
    {
      var chain := rules4[node];
      while chain != [] && Mentions(chain[0], port[node])
        invariant DropLeading(chain, port[node]) == DropLeading(rules4[node], port[node])
        decreases |chain|
      {
        chain := chain[1..];
      }
      rules4 := rules4[node := chain];
      chain := rules6[node];
      while chain != [] && Mentions(chain[0], port[node])
        invariant DropLeading(chain, port[node]) == DropLeading(rules6[node], port[node])
        decreases |chain|
      {
        chain := chain[1..];
      }
      rules6 := rules6[node := chain];
    }

    method BlockNode(node: nat)
      requires Valid() && node < N
      modifies this, blocked
      ensures Valid() && View() == Touch(old(View()), port, node, true)
    {
      CleanIptables(node);
      rules4 := rules4[node := [OwnRule(port[node], true)] + rules4[node]];
      rules6 := rules6[node := [OwnRule(port[node], true)] + rules6[node]];
      blocked[node] := true;
    }

    method UnblockNode(node: nat)
      requires Valid() && node < N
      modifies this, blocked
      ensures Valid() && View() == Touch(old(View()), port, node, false)
    {
      CleanIptables(node);
      rules4 := rules4[node := [OwnRule(port[node], false)] + rules4[node]];
      rules6 := rules6[node := [OwnRule(port[node], false)] + rules6[node]];
      blocked[node] := false;
    }

    method UnblockAllNodes()
      requires Valid()
      modifies this, blocked
      ensures Valid() && View() == UnblockUpTo(old(View()), port, N)
    {
      for i := 0 to N
        invariant Valid() && View() == UnblockUpTo(old(View()), port, i)
      {
        UnblockNode(i);
      }
    }

    /** Any sequence of calls. */
    method Play(calls: seq<Call>)
      requires Valid() && Names(calls, N)
      modifies this, blocked
      ensures Valid() && View() == Run(old(View()), port, calls)
    {
      for k := 0 to |calls|
        invariant Valid() && View() == Run(old(View()), port, calls[..k])
      {
        OneMoreCall(old(View()), port, calls, k);
        Perform(calls[k]);
      }
      assert calls[..|calls|] == calls;
    }

    method Perform(call: Call)
      requires Valid() && (call.UnblockAll? || call.node < N)
      modifies this, blocked
      ensures Valid() && View() == Apply(old(View()), port, call)
    {
      match call {
        case Block(node) => BlockNode(node);
        case Unblock(node) => UnblockNode(node);
        case UnblockAll => UnblockAllNodes();
      }
    }

    /** ~Mariadb_nodes: nodes marked as blocked are opened, and the others left alone. */
    method Destroy()
      requires Valid()
      modifies this, blocked
      ensures Valid() && View() == OpenBlocked(old(View()), port, N)
    {
      for i := 0 to N
        invariant Valid() && View() == OpenBlocked(old(View()), port, i)
      {
        assert View().blocked[i] == blocked[i];
        if blocked[i] {
          UnblockNode(i);
        }
      }
    }
  }
}

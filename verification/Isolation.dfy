/** Host isolation: cutting every connection except the one to the control
    plane. Each backend runs a few firewall commands; every command is one
    atomic step with its own outcome, and the claims are about every state in
    between. */
module Isolation {
  import opened Text

  // ----- Packets and chains -----------------------------------------------

  datatype Ip = V4(bits: int) | V6(bits: int)

  datatype Direction = Inbound | Outbound | Forwarded

  /** `remote` is the source of an inbound and the destination of an outbound
      packet. */
  datatype Packet = Packet(direction: Direction, remote: Ip, loopback: bool, established: bool)

  datatype Action = Accept | Drop

  datatype Match = Loopback | Established | Remote(ip: Ip) {
    predicate Matches(p: Packet) {
      match this
      case Loopback => p.loopback
      case Established => p.established
      case Remote(ip) => p.remote == ip
    }
  }

  datatype Rule = Rule(when: Match, action: Action)

  datatype Chain = Chain(rules: seq<Rule>, policy: Action)

  /** The first matching rule decides, else the policy. */
  function Verdict(rules: seq<Rule>, policy: Action, p: Packet): Action {
    if rules == [] then policy
    else if rules[0].when.Matches(p) then rules[0].action
    else Verdict(rules[1..], policy, p)
  }

  predicate Allows(c: Chain, p: Packet) { Verdict(c.rules, c.policy, p) == Accept }

  /** Only accept rules. */
  predicate AcceptsOnly(rules: seq<Rule>) {
    forall i :: 0 <= i < |rules| ==> rules[i].action == Accept
  }

  predicate SomeMatch(rules: seq<Rule>, p: Packet) {
    exists i :: 0 <= i < |rules| && rules[i].when.Matches(p)
  }

  /** A default-drop chain of accept rules lets through what some rule names. */
  lemma {:induction false} AllowListVerdict(rules: seq<Rule>, p: Packet)
    requires AcceptsOnly(rules)
    ensures Verdict(rules, Drop, p) == Accept <==> SomeMatch(rules, p)
  {
    if rules == [] {
    } else {
      AllowListVerdict(rules[1..], p);
      if SomeMatch(rules[1..], p) {
        var i :| 0 <= i < |rules[1..]| && rules[1..][i].when.Matches(p);
        assert rules[i + 1].when.Matches(p);
      }
      if SomeMatch(rules, p) && !rules[0].when.Matches(p) {
        var i :| 0 <= i < |rules| && rules[i].when.Matches(p);
        assert rules[1..][i - 1].when.Matches(p);
      }
    }
  }

  /** Loopback, established connections, and the control plane if given. */
  function IsolationRules(cp: Option<Ip>): seq<Rule> {
    [Rule(Loopback, Accept), Rule(Established, Accept)]
    + (if cp.Some? then [Rule(Remote(cp.value), Accept)] else [])
  }

  /** Traffic isolation is meant to stop. */
  predicate Stray(cp: Ip, p: Packet) { !p.loopback && !p.established && p.remote != cp }

  // ----- Runs --------------------------------------------------------------

  /** The state an operation ends in, the last of the states it passes through. */
  function After<S, Op>(states: (S, Op) -> seq<S>, s: S, op: Op): S {
    var passed := states(s, op);
    if |passed| == 0 then s else passed[|passed| - 1]
  }

  /** Every state a run passes through. */
  function Trace<S, Op>(states: (S, Op) -> seq<S>, s: S, ops: seq<Op>): seq<S>
    decreases |ops|
  {
    if ops == [] then [] else states(s, ops[0]) + Trace(states, After(states, s, ops[0]), ops[1..])
  }

  /** The state before operation `k` of a run. */
  function Before<S, Op>(states: (S, Op) -> seq<S>, s: S, ops: seq<Op>, k: nat): S
    requires k <= |ops|
    decreases k
  {
    if k == 0 then s else Before(states, After(states, s, ops[0]), ops[1..], k - 1)
  }

  /** The states of operation `k` stand in the trace after those of the earlier ones. */
  lemma {:induction false} TraceSplits<S, Op>(states: (S, Op) -> seq<S>, s: S, ops: seq<Op>, k: nat)
    requires k <= |ops|
    ensures Trace(states, s, ops) == Trace(states, s, ops[..k]) + Trace(states, Before(states, s, ops, k), ops[k..])
    decreases k
  {
    if k == 0 {
      assert ops[0..] == ops && ops[..0] == [];
    } else {
      var after, rest := After(states, s, ops[0]), ops[1..];
      TraceSplits(states, after, rest, k - 1);
      assert ops[..k][0] == ops[0] && ops[..k][1..] == rest[..k - 1] && ops[k..] == rest[k - 1..];
    }
  }

  // ----- nftables ---------------------------------------------------------

  /** The agent's own isolation table: the chain it has at each hook. */
  datatype Table = Table(hooks: map<Direction, Chain>)

  /** A table drops only what a chain of its own drops. */
  predicate TablePasses(t: Table, p: Packet) { p.direction in t.hooks ==> Allows(t.hooks[p.direction], p) }

  /** A packet must pass every table: `others` is the verdict of the tables
      these operations leave alone, the blocklist among them. */
  predicate NftAccepts(others: Packet -> bool, t: Option<Table>, p: Packet) {
    others(p) && (t.Some? ==> TablePasses(t.value, p))
  }

  /** The chains the ruleset declares. */
  const DECLARED: set<Direction> := {Inbound, Outbound}

  function RulesAt(t: Option<Table>, d: Direction): seq<Rule> {
    if t.Some? && d in t.value.hooks then t.value.hooks[d].rules else []
  }

  /** `nft -f` with the ruleset for `cp`, one transaction. Loading over a table
      that is still there appends to its chains. */
  function Load(t: Option<Table>, cp: Ip): Table {
    var kept := if t.Some? then t.value.hooks else map[];
    Table(kept[Inbound := Chain(RulesAt(t, Inbound) + IsolationRules(Some(cp)), Drop)]
              [Outbound := Chain(RulesAt(t, Outbound) + IsolationRules(Some(cp)), Drop)])
  }

  datatype NftOp = NftIsolate(cp: Ip, deleted: bool, loaded: bool) | NftDeisolate(deleted: bool)

  /** The state after each command of one operation. */
  function NftStates(t: Option<Table>, op: NftOp): (r: seq<Option<Table>>)
    ensures |r| > 0
  {
    var cleared := if op.deleted then None else t;
    match op
    case NftIsolate(cp, _, loaded) => [cleared, if loaded then Some(Load(cleared, cp)) else cleared]
    case NftDeisolate(_) => [cleared]
  }

  function NftAfter(t: Option<Table>, op: NftOp): Option<Table> { After(NftStates, t, op) }

  /** What every operation keeps: the table is absent, or has the declared chains
      and no other, which drop by default with accept rules that include loopback
      and established connections. */
  predicate NftInvariant(t: Option<Table>) {
    t.Some? ==> t.value.hooks.Keys == DECLARED && forall d :: d in t.value.hooks ==> ProperChain(t.value.hooks[d])
  }

  predicate ProperChain(c: Chain) {
    && c.policy == Drop && AcceptsOnly(c.rules)
    && Rule(Loopback, Accept) in c.rules && Rule(Established, Accept) in c.rules
  }

  class NftHost {
    var table: Option<Table>
    ghost var trace: seq<Option<Table>>

    constructor ()
      ensures table == None && trace == []
    {
      table, trace := None, [];
    }

    method Isolate(cp: Ip, deleted: bool, loaded: bool) returns (ok: bool)
      modifies this
      ensures trace == old(trace) + NftStates(old(table), NftIsolate(cp, deleted, loaded))
      ensures table == NftAfter(old(table), NftIsolate(cp, deleted, loaded))
      ensures ok == loaded
    {
      if deleted {
        table := None;
      }
      trace := trace + [table];
      if loaded {
        table := Some(Load(table, cp));
      }
      trace := trace + [table];
      ok := loaded;
    }

    method Deisolate(deleted: bool)
      modifies this
      ensures trace == old(trace) + NftStates(old(table), NftDeisolate(deleted))
      ensures table == NftAfter(old(table), NftDeisolate(deleted))
    {
      if deleted {
        table := None;
      }
      trace := trace + [table];
    }
  }

  lemma AppendedRuleMatches(before: seq<Rule>, cp: Ip, p: Packet)
    ensures SomeMatch(before + IsolationRules(Some(cp)), p) <==>
            SomeMatch(before, p) || p.loopback || p.established || p.remote == cp
  {
    var added := IsolationRules(Some(cp));
    var all := before + added;
    assert all[|before|] == added[0] && all[|before| + 1] == added[1] && all[|before| + 2] == added[2];
    if SomeMatch(before, p) {
      var i :| 0 <= i < |before| && before[i].when.Matches(p);
      assert all[i].when.Matches(p);
    }
    if SomeMatch(all, p) {
      var i :| 0 <= i < |all| && all[i].when.Matches(p);
      if i < |before| {
        assert before[i].when.Matches(p);
      } else {
        assert added[i - |before|].when.Matches(p);
      }
    }
  }

  lemma KeptChain(t: Option<Table>, d: Direction)
    requires NftInvariant(t) && d in DECLARED
    ensures AcceptsOnly(RulesAt(t, d)) && (t.None? <==> RulesAt(t, d) == [])
    ensures t.Some? ==> t.value.hooks[d] == Chain(RulesAt(t, d), Drop)
  {
  }

  lemma LoadKeepsInvariant(t: Option<Table>, cp: Ip)
    requires NftInvariant(t)
    ensures NftInvariant(Some(Load(t, cp)))
  {
    KeptChain(t, Inbound);
    KeptChain(t, Outbound);
    ProperAppend(RulesAt(t, Inbound), cp);
    ProperAppend(RulesAt(t, Outbound), cp);
    assert Load(t, cp).hooks.Keys == DECLARED;
  }

  lemma LoadAllows(t: Option<Table>, cp: Ip, p: Packet)
    requires NftInvariant(t)
    ensures NftInvariant(Some(Load(t, cp)))
    ensures TablePasses(Load(t, cp), p) <==>
            || p.direction == Forwarded || p.loopback || p.established || p.remote == cp
            || (t.Some? && TablePasses(t.value, p))
  {
    LoadKeepsInvariant(t, cp);
    if p.direction in DECLARED {
      var rules := RulesAt(t, p.direction);
      KeptChain(t, p.direction);
      assert Load(t, cp).hooks[p.direction] == Chain(rules + IsolationRules(Some(cp)), Drop);
      AppendAllows(rules, cp, p);
    }
  }

  lemma AppendAllows(rules: seq<Rule>, cp: Ip, p: Packet)
    requires AcceptsOnly(rules)
    ensures ProperChain(Chain(rules + IsolationRules(Some(cp)), Drop))
    ensures Allows(Chain(rules + IsolationRules(Some(cp)), Drop), p) <==>
            (rules != [] && Allows(Chain(rules, Drop), p)) || p.loopback || p.established || p.remote == cp
  {
    ProperAppend(rules, cp);
    AllowListVerdict(rules, p);
    AllowListVerdict(rules + IsolationRules(Some(cp)), p);
    AppendedRuleMatches(rules, cp, p);
  }

  lemma ProperAppend(rules: seq<Rule>, cp: Ip)
    requires AcceptsOnly(rules)
    ensures ProperChain(Chain(rules + IsolationRules(Some(cp)), Drop))
  {
    var added := IsolationRules(Some(cp));
    assert added[0] in rules + added && added[1] in rules + added;
  }

  /** In every state an operation passes through, the invariant holds, and a
      packet to or from its control plane that was accepted still is. */
  lemma NftStepKeepsControlPlane(
    others: Packet -> bool, t: Option<Table>, op: NftOp, p: Packet, i: nat)
    requires NftInvariant(t) && i < |NftStates(t, op)|
    requires op.NftIsolate? ==> p.remote == op.cp
    ensures NftInvariant(NftStates(t, op)[i])
    ensures NftAccepts(others, t, p) ==> NftAccepts(others, NftStates(t, op)[i], p)
  {
    if op.NftIsolate? {
      LoadAllows(if op.deleted then None else t, op.cp, p);
    }
  }

  /** Over every run of isolations and de-isolations with any failures, the
      control plane is never cut off at any point. */
  lemma {:induction false} NftRunKeepsControlPlane(
    others: Packet -> bool, t: Option<Table>, ops: seq<NftOp>, cp: Ip, p: Packet, i: nat)
    requires NftInvariant(t) && NftAccepts(others, t, p) && p.remote == cp
    requires forall k :: 0 <= k < |ops| && ops[k].NftIsolate? ==> ops[k].cp == cp
    requires i < |Trace(NftStates, t, ops)|
    ensures NftAccepts(others, Trace(NftStates, t, ops)[i], p)
    decreases |ops|
  {
    var states := NftStates(t, ops[0]);
    if i < |states| {
      NftStepKeepsControlPlane(others, t, ops[0], p, i);
    } else {
      NftStepKeepsControlPlane(others, t, ops[0], p, |states| - 1);
      NftRunKeepsControlPlane(others, NftAfter(t, ops[0]), ops[1..], cp, p, i - |states|);
    }
  }

  lemma {:induction false} NftBeforeInvariant(t: Option<Table>, ops: seq<NftOp>, k: nat)
    requires NftInvariant(t) && k <= |ops|
    ensures NftInvariant(Before(NftStates, t, ops, k))
    decreases k
  {
    if k == 0 {
    } else {
      var cp := if ops[0].NftIsolate? then ops[0].cp else V4(0);
      NftStepKeepsControlPlane(_ => true, t, ops[0], Packet(Inbound, cp, true, true), |NftStates(t, ops[0])| - 1);
      NftBeforeInvariant(NftAfter(t, ops[0]), ops[1..], k - 1);
    }
  }

  /** The address may be another one for each operation: at every point of a run,
      packets of the address of the operation in progress that were accepted
      before that operation still are. */
  lemma NftRunKeepsCurrentAddress(
    others: Packet -> bool, t: Option<Table>, ops: seq<NftOp>, k: nat, p: Packet, i: nat)
    requires NftInvariant(t) && k < |ops| && i < |NftStates(Before(NftStates, t, ops, k), ops[k])|
    requires ops[k].NftIsolate? ==> p.remote == ops[k].cp
    ensures var at := |Trace(NftStates, t, ops[..k])| + i;
            && at < |Trace(NftStates, t, ops)|
            && (NftAccepts(others, Before(NftStates, t, ops, k), p) ==>
                  NftAccepts(others, Trace(NftStates, t, ops)[at], p))
  {
    NftBeforeInvariant(t, ops, k);
    TraceSplits(NftStates, t, ops, k);
    NftStepKeepsControlPlane(others, Before(NftStates, t, ops, k), ops[k], p, i);
  }

  /** What a successful isolation accepts, packet by packet: of what the other
      tables accept, forwarded traffic, for which the ruleset has no chain,
      loopback, established connections and the control plane; and, if the old
      table could not be deleted, whatever that one let through. */
  lemma NftIsolationConfines(others: Packet -> bool, t: Option<Table>, op: NftOp, p: Packet)
    requires NftInvariant(t) && op.NftIsolate? && op.loaded
    ensures NftAccepts(others, NftAfter(t, op), p) <==>
            && others(p)
            && (|| p.direction == Forwarded || p.loopback || p.established || p.remote == op.cp
                || (!op.deleted && t.Some? && TablePasses(t.value, p)))
  {
    LoadAllows(if op.deleted then None else t, op.cp, p);
  }

  /** Whether a table lets stray traffic of its hooks through. */
  ghost predicate Leaks(t: Option<Table>, cp: Ip) {
    exists p: Packet :: Stray(cp, p) && p.direction != Forwarded && t.Some? && TablePasses(t.value, p)
  }

  /** What deleting the table does, packet by packet, as the only step of a
      de-isolation or as the first one of an isolation: if it worked, all that the
      other tables accept is accepted, and if not, every verdict is as before. */
  lemma NftDeleteOpens(others: Packet -> bool, t: Option<Table>, op: NftOp, p: Packet)
    ensures NftAccepts(others, NftStates(t, op)[0], p) <==> others(p) && (op.deleted || NftAccepts(others, t, p))
    ensures op.NftDeisolate? || !op.loaded ==> NftAfter(t, op) == NftStates(t, op)[0]
  {
  }

  /** After a successful isolation stray traffic passes exactly when the table
      before it was not deleted and let some through itself. */
  lemma NftLeaksExactly(t: Option<Table>, op: NftOp)
    requires NftInvariant(t) && op.NftIsolate? && op.loaded
    ensures Leaks(NftAfter(t, op), op.cp) <==> !op.deleted && Leaks(t, op.cp)
  {
    forall p: Packet
      ensures Stray(op.cp, p) && p.direction != Forwarded ==>
                (TablePasses(NftAfter(t, op).value, p) <==> !op.deleted && t.Some? && TablePasses(t.value, p))
    {
      NftIsolationConfines(_ => true, t, op, p);
    }
  }

  lemma NftStepStaysTight(t: Option<Table>, op: NftOp, cp: Ip, i: nat)
    requires NftInvariant(t) && !Leaks(t, cp) && i < |NftStates(t, op)| && (op.NftIsolate? ==> op.cp == cp)
    ensures NftInvariant(NftStates(t, op)[i]) && !Leaks(NftStates(t, op)[i], cp)
  {
    NftStepKeepsControlPlane(_ => true, t, op, Packet(Inbound, cp, true, true), i);
    if op.NftIsolate? && op.loaded && i == 1 {
      NftLeaksExactly(t, op);
    }
  }

  /** As long as one address is ever isolated for, no state of any run leaks,
      even when tables cannot be deleted. */
  lemma {:induction false} NftOneAddressNeverLeaks(t: Option<Table>, ops: seq<NftOp>, cp: Ip, i: nat)
    requires NftInvariant(t) && !Leaks(t, cp)
    requires forall k :: 0 <= k < |ops| && ops[k].NftIsolate? ==> ops[k].cp == cp
    requires i < |Trace(NftStates, t, ops)|
    ensures !Leaks(Trace(NftStates, t, ops)[i], cp)
    decreases |ops|
  {
    var n := |NftStates(t, ops[0])|;
    if i < n {
      NftStepStaysTight(t, ops[0], cp, i);
    } else {
      NftStepStaysTight(t, ops[0], cp, n - 1);
      NftOneAddressNeverLeaks(NftAfter(t, ops[0]), ops[1..], cp, i - n);
    }
  }

  /** Isolating for a second address over a table that could not be deleted
      leaves the first address reachable. */
  lemma UndeletedTableLeaks(cp: Ip, previous: Ip)
    requires cp != previous
    ensures Leaks(NftAfter(NftAfter(None, NftIsolate(previous, true, true)), NftIsolate(cp, false, true)), cp)
  {
    var p := Packet(Outbound, previous, false, false);
    var t := NftAfter(None, NftIsolate(previous, true, true));
    LoadAllows(None, previous, p);
    assert NftInvariant(t) && TablePasses(t.value, p);
    assert Stray(cp, p);
    NftLeaksExactly(t, NftIsolate(cp, false, true));
  }

  // ----- iptables ---------------------------------------------------------

  datatype Filter = Filter(input: Chain, output: Chain, forward: Chain)

  datatype Tables = Tables(v4: Filter, v6: Filter)

  function ChainFor(f: Filter, d: Direction): Chain {
    match d
    case Inbound => f.input
    case Outbound => f.output
    case Forwarded => f.forward
  }

  predicate IptAccepts(t: Tables, p: Packet) {
    Allows(ChainFor(if p.remote.V4? then t.v4 else t.v6, p.direction), p)
  }

  /** The ruleset for one family; only the control plane's own family names it. */
  function IsolationFilter(cp: Option<Ip>): Filter {
    Filter(Chain(IsolationRules(cp), Drop), Chain(IsolationRules(cp), Drop), Chain([], Drop))
  }

  const OPEN := Filter(Chain([], Accept), Chain([], Accept), Chain([], Accept))

  datatype IptOp = IptIsolate(cp: Ip, v4ok: bool, v6ok: bool) | IptDeisolate(v4ok: bool, v6ok: bool)

  /** Each `iptables-restore` replaces one family's filter table in one step. A
      failed IPv4 isolation stops there; de-isolation tries both. */
  function IptStates(t: Tables, op: IptOp): (r: seq<Tables>)
    ensures |r| > 0
  {
    match op
    case IptIsolate(cp, v4ok, v6ok) =>
      if !v4ok then [t] else
        var t4 := t.(v4 := IsolationFilter(if cp.V4? then Some(cp) else None));
        [t4, if v6ok then t4.(v6 := IsolationFilter(if cp.V6? then Some(cp) else None)) else t4]
    case IptDeisolate(v4ok, v6ok) =>
      var t4 := if v4ok then t.(v4 := OPEN) else t;
      [t4, if v6ok then t4.(v6 := OPEN) else t4]
  }

  function IptAfter(t: Tables, op: IptOp): Tables { After(IptStates, t, op) }

  class IptablesHost {
    var tables: Tables
    ghost var trace: seq<Tables>

    constructor (tables: Tables)
      ensures this.tables == tables && trace == []
    {
      this.tables, trace := tables, [];
    }

    method Isolate(cp: Ip, v4ok: bool, v6ok: bool) returns (ok: bool)
      modifies this
      ensures trace == old(trace) + IptStates(old(tables), IptIsolate(cp, v4ok, v6ok))
      ensures tables == IptAfter(old(tables), IptIsolate(cp, v4ok, v6ok))
      ensures ok == (v4ok && v6ok)
    {
      var v4match := if cp.V4? then Some(cp) else None;
      var v6match := if cp.V6? then Some(cp) else None;
      if v4ok {
        tables := tables.(v4 := IsolationFilter(v4match));
      }
      trace := trace + [tables];
      if !v4ok {
        return false;
      }
      if v6ok {
        tables := tables.(v6 := IsolationFilter(v6match));
      }
      trace := trace + [tables];
      ok := v6ok;
    }

    method Deisolate(v4ok: bool, v6ok: bool) returns (ok: bool)
      modifies this
      ensures trace == old(trace) + IptStates(old(tables), IptDeisolate(v4ok, v6ok))
      ensures tables == IptAfter(old(tables), IptDeisolate(v4ok, v6ok))
      ensures ok == (v4ok && v6ok)
    {
      if v4ok {
        tables := tables.(v4 := OPEN);
      }
      trace := trace + [tables];
      if v6ok {
        tables := tables.(v6 := OPEN);
      }
      trace := trace + [tables];
      ok := v4ok && v6ok;
    }
  }

  lemma IsolationFilterAllows(cp: Option<Ip>, d: Direction, p: Packet)
    ensures Allows(ChainFor(IsolationFilter(cp), d), p) <==>
            d != Forwarded && (p.loopback || p.established || cp == Some(p.remote))
  {
    var rules := IsolationRules(cp);
    AllowListVerdict(rules, p);
    assert rules[0].when == Loopback && rules[1].when == Established;
    if cp.Some? {
      assert rules[2].when == Remote(cp.value);
    }
  }

  /** Control-plane input and output that was accepted stays accepted between
      and after the two restores, on either family. */
  lemma IptStepKeepsControlPlane(t: Tables, op: IptOp, p: Packet, i: nat)
    requires i < |IptStates(t, op)| && p.direction != Forwarded
    requires op.IptIsolate? ==> p.remote == op.cp
    ensures IptAccepts(t, p) ==> IptAccepts(IptStates(t, op)[i], p)
  {
    if op.IptIsolate? {
      IsolationFilterAllows(Some(op.cp), p.direction, p);
    }
  }

  lemma {:induction false} IptRunKeepsControlPlane(t: Tables, ops: seq<IptOp>, cp: Ip, p: Packet, i: nat)
    requires IptAccepts(t, p) && p.remote == cp && p.direction != Forwarded
    requires forall k :: 0 <= k < |ops| && ops[k].IptIsolate? ==> ops[k].cp == cp
    requires i < |Trace(IptStates, t, ops)|
    ensures IptAccepts(Trace(IptStates, t, ops)[i], p)
    decreases |ops|
  {
    var states := IptStates(t, ops[0]);
    if i < |states| {
      IptStepKeepsControlPlane(t, ops[0], p, i);
    } else {
      IptStepKeepsControlPlane(t, ops[0], p, |states| - 1);
      IptRunKeepsControlPlane(IptAfter(t, ops[0]), ops[1..], cp, p, i - |states|);
    }
  }

  /** What any isolation leaves, packet by packet: IPv4 is confined if its restore
      worked, IPv6 if both did, and every other verdict is as before. */
  lemma IptIsolationByFamily(t: Tables, cp: Ip, v4ok: bool, v6ok: bool, p: Packet)
    ensures IptAccepts(IptAfter(t, IptIsolate(cp, v4ok, v6ok)), p) <==>
            if v4ok && (p.remote.V4? || v6ok)
            then p.direction != Forwarded && (p.loopback || p.established || p.remote == cp)
            else IptAccepts(t, p)
  {
    IsolationFilterAllows(Some(cp), p.direction, p);
    IsolationFilterAllows(None, p.direction, p);
  }

  /** What any de-isolation leaves: all traffic of the families whose restore
      worked, and every other verdict as before. */
  lemma IptDeisolationByFamily(t: Tables, v4ok: bool, v6ok: bool, p: Packet)
    ensures IptAccepts(IptAfter(t, IptDeisolate(v4ok, v6ok)), p) <==>
            (if p.remote.V4? then v4ok else v6ok) || IptAccepts(t, p)
  {
  }

  /** At every point of a run whose addresses may differ, input and output of the
      address of the operation in progress that was accepted before it still is. */
  lemma IptRunKeepsCurrentAddress(t: Tables, ops: seq<IptOp>, k: nat, p: Packet, i: nat)
    requires k < |ops| && i < |IptStates(Before(IptStates, t, ops, k), ops[k])| && p.direction != Forwarded
    requires ops[k].IptIsolate? ==> p.remote == ops[k].cp
    ensures var at := |Trace(IptStates, t, ops[..k])| + i;
            && at < |Trace(IptStates, t, ops)|
            && (IptAccepts(Before(IptStates, t, ops, k), p) ==> IptAccepts(Trace(IptStates, t, ops)[at], p))
  {
    TraceSplits(IptStates, t, ops, k);
    IptStepKeepsControlPlane(Before(IptStates, t, ops, k), ops[k], p, i);
  }

  /** A successful isolation accepts exactly loopback, established and
      control-plane input and output, whatever was there before. */
  lemma IptIsolationConfines(t: Tables, cp: Ip, p: Packet)
    ensures IptAccepts(IptAfter(t, IptIsolate(cp, true, true)), p) <==>
            p.direction != Forwarded && (p.loopback || p.established || p.remote == cp)
  {
    IptIsolationByFamily(t, cp, true, true, p);
  }

  /** What is accepted after a successful isolation and a de-isolation: all
      traffic of the families it could open, and in the others what isolation
      accepts. */
  lemma IptDeisolationOpens(t: Tables, cp: Ip, v4ok: bool, v6ok: bool, p: Packet)
    ensures IptAccepts(IptAfter(IptAfter(t, IptIsolate(cp, true, true)), IptDeisolate(v4ok, v6ok)), p) <==>
            || (if p.remote.V4? then v4ok else v6ok)
            || (p.direction != Forwarded && (p.loopback || p.established || p.remote == cp))
  {
    IptIsolationConfines(t, cp, p);
  }

  /** Isolating and de-isolating gives every packet the verdict it had before
      exactly when nothing was dropped before: what the blocklist and any other
      rule dropped is accepted afterwards. */
  lemma IptRoundTripExactly(t: Tables, cp: Ip)
    ensures (forall p: Packet ::
               IptAccepts(IptAfter(IptAfter(t, IptIsolate(cp, true, true)), IptDeisolate(true, true)), p) ==
               IptAccepts(t, p)) <==>
            forall p: Packet :: IptAccepts(t, p)
  {
    var after := IptAfter(IptAfter(t, IptIsolate(cp, true, true)), IptDeisolate(true, true));
    forall p: Packet ensures IptAccepts(after, p) {
      IptDeisolationOpens(t, cp, true, true, p);
    }
  }

  // ----- Windows Defender Firewall ----------------------------------------

  datatype Group = IsolationGroup | OtherGroup

  /** `remote` is the address the rule is limited to, if any. */
  datatype WinRule = WinRule(group: Group, direction: Direction, remote: Option<Ip>, action: Action) {
    predicate Applies(p: Packet) { direction == p.direction && (remote.None? || remote.value == p.remote) }
  }

  datatype Win = Win(rules: seq<WinRule>, inbound: Action, outbound: Action)

  predicate HasRule(rules: seq<WinRule>, action: Action, p: Packet) {
    exists r :: r in rules && r.action == action && r.Applies(p)
  }

  function DefaultFor(w: Win, d: Direction): Action {
    match d
    case Inbound => w.inbound
    case Outbound => w.outbound
    case Forwarded => Accept
  }

  /** Loopback is never filtered; block rules win over allow rules, allow rules
      over the default. */
  predicate WinAccepts(w: Win, p: Packet) {
    || p.loopback
    || (!HasRule(w.rules, Drop, p) && (HasRule(w.rules, Accept, p) || DefaultFor(w, p.direction) == Accept))
  }

  function Outside(rules: seq<WinRule>): (r: seq<WinRule>)
    ensures forall x :: x in r <==> x in rules && x.group == OtherGroup
  {
    if rules == [] then [] else
      (if rules[0].group == OtherGroup then [rules[0]] else []) + Outside(rules[1..])
  }

  function AllowRule(d: Direction, cp: Ip): WinRule { WinRule(IsolationGroup, d, Some(cp), Accept) }

  /** How far the isolation script gets: removing the group's old rules may fail
      silently, any later failure ends it. */
  datatype WinEnv = WinEnv(removed: bool, addedIn: bool, addedOut: bool, blocked: bool)

  /** The state after each statement of the isolation script that ran. */
  function WinIsolateStates(w: Win, cp: Ip, env: WinEnv): (r: seq<Win>)
    ensures |r| > 0
  {
    var s1 := if env.removed then w.(rules := Outside(w.rules)) else w;
    if !env.addedIn then [s1] else
      var s2 := s1.(rules := s1.rules + [AllowRule(Inbound, cp)]);
      if !env.addedOut then [s1, s2] else
        var s3 := s2.(rules := s2.rules + [AllowRule(Outbound, cp)]);
        if !env.blocked then [s1, s2, s3] else [s1, s2, s3, s3.(inbound := Drop, outbound := Drop)]
  }

  function WinDeisolateStates(w: Win, reopened: bool, removed: bool): (r: seq<Win>)
    ensures |r| > 0
  {
    if !reopened then [w] else
      var s1 := w.(inbound := Accept, outbound := Accept);
      [s1, if removed then s1.(rules := Outside(s1.rules)) else s1]
  }

  class WindowsHost {
    var state: Win
    ghost var trace: seq<Win>

    constructor (state: Win)
      ensures this.state == state && trace == []
    {
      this.state, trace := state, [];
    }

    method Isolate(cp: Ip, env: WinEnv) returns (ok: bool)
      modifies this
      ensures trace == old(trace) + WinIsolateStates(old(state), cp, env)
      ensures state == trace[|trace| - 1]
      ensures ok == (env.addedIn && env.addedOut && env.blocked)
    {
      if env.removed {
        state := state.(rules := Outside(state.rules));
      }
      trace := trace + [state];
      if !env.addedIn {
        return false;
      }
      state := state.(rules := state.rules + [AllowRule(Inbound, cp)]);
      trace := trace + [state];
      if !env.addedOut {
        return false;
      }
      state := state.(rules := state.rules + [AllowRule(Outbound, cp)]);
      trace := trace + [state];
      if !env.blocked {
        return false;
      }
      state := state.(inbound := Drop, outbound := Drop);
      trace := trace + [state];
      ok := true;
    }

    method Deisolate(reopened: bool, removed: bool) returns (ok: bool)
      modifies this
      ensures trace == old(trace) + WinDeisolateStates(old(state), reopened, removed)
      ensures state == trace[|trace| - 1]
      ensures ok == reopened
    {
      if reopened {
        state := state.(inbound := Accept, outbound := Accept);
      }
      trace := trace + [state];
      if !reopened {
        return false;
      }
      if removed {
        state := state.(rules := Outside(state.rules));
      }
      trace := trace + [state];
      ok := true;
    }
  }

  /** A control-plane packet that was accepted stays accepted throughout exactly
      when, once the isolation group's own rules are taken away, the default or
      some other rule still allows it. */
  lemma WinIsolateKeepsControlPlane(w: Win, cp: Ip, env: WinEnv, p: Packet)
    requires p.remote == cp && p.direction != Forwarded && WinAccepts(w, p)
    ensures (forall i :: 0 <= i < |WinIsolateStates(w, cp, env)| ==>
                           WinAccepts(WinIsolateStates(w, cp, env)[i], p)) <==>
            || !env.removed || p.loopback
            || DefaultFor(w, p.direction) == Accept
            || HasRule(Outside(w.rules), Accept, p)
  {
    var states := WinIsolateStates(w, cp, env);
    var s1 := states[0];
    assert HasRule(s1.rules, Drop, p) ==> HasRule(w.rules, Drop, p);
    if WinAccepts(s1, p) && !p.loopback {
      forall i | 0 <= i < |states| ensures WinAccepts(states[i], p) {
        GrowingAllows(w, cp, env, p, i);
      }
    }
  }

  lemma GrowingAllows(w: Win, cp: Ip, env: WinEnv, p: Packet, i: nat)
    requires p.remote == cp && p.direction != Forwarded && !p.loopback
    requires i < |WinIsolateStates(w, cp, env)|
    requires WinAccepts(WinIsolateStates(w, cp, env)[0], p)
    ensures WinAccepts(WinIsolateStates(w, cp, env)[i], p)
  {
    var states := WinIsolateStates(w, cp, env);
    var rules0, rules := states[0].rules, states[i].rules;
    assert forall r :: r in rules ==> r in rules0 || r == AllowRule(Inbound, cp) || r == AllowRule(Outbound, cp);
    assert forall r :: r in rules0 ==> r in rules;
    if i == 3 {
      assert AllowRule(p.direction, cp) in rules && AllowRule(p.direction, cp).Applies(p);
    }
  }

  datatype WinOp = WinIsolate(cp: Ip, env: WinEnv) | WinDeisolate(reopened: bool, removed: bool)

  function WinStates(w: Win, op: WinOp): (r: seq<Win>)
    ensures |r| > 0
  {
    match op
    case WinIsolate(cp, env) => WinIsolateStates(w, cp, env)
    case WinDeisolate(reopened, removed) => WinDeisolateStates(w, reopened, removed)
  }

  function WinAfter(w: Win, op: WinOp): Win { After(WinStates, w, op) }

  /** Whether the host can do without the isolation group's rules for `p` when
      the script takes them away. */
  predicate SafeToStart(w: Win, op: WinOp, p: Packet) {
    op.WinIsolate? ==>
      || !op.env.removed || p.loopback
      || DefaultFor(w, p.direction) == Accept
      || HasRule(Outside(w.rules), Accept, p)
  }

  predicate SafeRun(w: Win, ops: seq<WinOp>, p: Packet)
    decreases |ops|
  {
    ops == [] || (SafeToStart(w, ops[0], p) && SafeRun(WinAfter(w, ops[0]), ops[1..], p))
  }

  ghost predicate AcceptedThroughout(states: seq<Win>, p: Packet) {
    forall i :: 0 <= i < |states| ==> WinAccepts(states[i], p)
  }

  lemma WinStepExactly(w: Win, op: WinOp, p: Packet)
    requires p.direction != Forwarded && WinAccepts(w, p) && (op.WinIsolate? ==> op.cp == p.remote)
    ensures AcceptedThroughout(WinStates(w, op), p) <==> SafeToStart(w, op, p)
  {
    match op
    case WinIsolate(cp, env) => WinIsolateKeepsControlPlane(w, cp, env, p);
    case WinDeisolate(reopened, removed) =>
      forall i | 0 <= i < |WinStates(w, op)| ensures WinAccepts(WinStates(w, op)[i], p) {
        WinDeisolateKeepsEverything(w, reopened, removed, p, i);
      }
  }

  /** Over every run of isolations and de-isolations with any failures, the
      control plane is never cut off at any point exactly when each isolation
      was safe to start. */
  lemma {:induction false} WinRunKeepsControlPlane(w: Win, ops: seq<WinOp>, cp: Ip, p: Packet)
    requires p.remote == cp && p.direction != Forwarded && WinAccepts(w, p)
    requires forall k :: 0 <= k < |ops| && ops[k].WinIsolate? ==> ops[k].cp == cp
    ensures AcceptedThroughout(Trace(WinStates, w, ops), p) <==> SafeRun(w, ops, p)
    decreases |ops|
  {
    if ops == [] {
    } else {
      var states, rest := WinStates(w, ops[0]), Trace(WinStates, WinAfter(w, ops[0]), ops[1..]);
      WinStepExactly(w, ops[0], p);
      ThroughoutConcat(states, rest, p);
      if AcceptedThroughout(states, p) {
        WinRunKeepsControlPlane(WinAfter(w, ops[0]), ops[1..], cp, p);
      }
    }
  }

  /** In every run whose addresses may differ, input and output of the address of
      operation `k` that is accepted before it stays accepted throughout that
      operation exactly when it is safe to start. */
  lemma {:induction false} WinRunKeepsCurrentAddress(w: Win, ops: seq<WinOp>, k: nat, p: Packet)
    requires k < |ops| && p.direction != Forwarded && WinAccepts(Before(WinStates, w, ops, k), p)
    requires ops[k].WinIsolate? ==> ops[k].cp == p.remote
    ensures var before, from := Before(WinStates, w, ops, k), |Trace(WinStates, w, ops[..k])|;
            && from + |WinStates(before, ops[k])| <= |Trace(WinStates, w, ops)|
            && (AcceptedThroughout(Trace(WinStates, w, ops)[from..from + |WinStates(before, ops[k])|], p) <==>
                SafeToStart(before, ops[k], p))
  {
    var before, from := Before(WinStates, w, ops, k), |Trace(WinStates, w, ops[..k])|;
    TraceSplits(WinStates, w, ops, k);
    WinStepExactly(before, ops[k], p);
    assert Trace(WinStates, w, ops)[from..from + |WinStates(before, ops[k])|] == WinStates(before, ops[k]);
  }

  lemma ThroughoutConcat(a: seq<Win>, b: seq<Win>, p: Packet)
    ensures AcceptedThroughout(a + b, p) <==> AcceptedThroughout(a, p) && AcceptedThroughout(b, p)
  {
    assert forall i :: 0 <= i < |a| ==> (a + b)[i] == a[i];
    assert forall i :: 0 <= i < |b| ==> (a + b)[|a| + i] == b[i];
  }

  /** As documented, the first isolation of an open host never cuts it off. */
  lemma WinFirstIsolationIsSafe(w: Win, cp: Ip, env: WinEnv, p: Packet, i: nat)
    requires w.inbound == Accept && w.outbound == Accept
    requires p.remote == cp && p.direction != Forwarded && WinAccepts(w, p)
    requires i < |WinIsolateStates(w, cp, env)|
    ensures WinAccepts(WinIsolateStates(w, cp, env)[i], p)
  {
    WinIsolateKeepsControlPlane(w, cp, env, p);
  }

  /** Repeating it on an isolated host does, until the new rules are added, and
      for good if they cannot be. */
  lemma WinRepeatedIsolationCuts(cp: Ip)
    ensures var all := WinEnv(true, true, true, true);
            var isolated := WinIsolateStates(Win([], Accept, Accept), cp, all)[3];
            var p := Packet(Outbound, cp, false, false);
            && WinAccepts(isolated, p)
            && !WinAccepts(WinIsolateStates(isolated, cp, all)[0], p)
            && !WinAccepts(WinIsolateStates(isolated, cp, all.(addedIn := false))[0], p)
  {
    var all := WinEnv(true, true, true, true);
    var isolated := WinIsolateStates(Win([], Accept, Accept), cp, all)[3];
    var p := Packet(Outbound, cp, false, false);
    assert isolated.rules == [AllowRule(Inbound, cp), AllowRule(Outbound, cp)];
    assert isolated.rules[1].Applies(p);
    assert HasRule(isolated.rules, Accept, p);
    assert forall r :: r in Outside(isolated.rules) ==> false;
  }

  /** What a successful isolation accepts: unblocked control-plane traffic, and
      whatever other allow rules already let through. */
  lemma WinIsolationConfines(w: Win, cp: Ip, p: Packet)
    requires p.direction != Forwarded
    ensures var after := WinIsolateStates(w, cp, WinEnv(true, true, true, true))[3];
            WinAccepts(after, p) <==>
            || p.loopback
            || (!HasRule(Outside(w.rules), Drop, p) && (p.remote == cp || HasRule(Outside(w.rules), Accept, p)))
  {
    var after := WinIsolateStates(w, cp, WinEnv(true, true, true, true))[3];
    var kept := Outside(w.rules);
    assert after.rules == kept + [AllowRule(Inbound, cp)] + [AllowRule(Outbound, cp)];
    assert forall r :: r in after.rules <==> r in kept || r == AllowRule(Inbound, cp) || r == AllowRule(Outbound, cp);
    if p.remote == cp {
      assert AllowRule(p.direction, cp).Applies(p) && AllowRule(p.direction, cp) in after.rules;
    }
  }

  /** What any isolation leaves: the group's rules as far as the script came, the
      other rules, and blocking by default if and only if it came to the end. */
  lemma WinIsolationLeaves(w: Win, cp: Ip, env: WinEnv, r: WinRule)
    ensures var after := WinAfter(w, WinIsolate(cp, env));
            && (r in after.rules <==>
                || (r in w.rules && (env.removed ==> r.group == OtherGroup))
                || (env.addedIn && r == AllowRule(Inbound, cp))
                || (env.addedIn && env.addedOut && r == AllowRule(Outbound, cp)))
            && forall d :: d != Forwarded ==>
                 DefaultFor(after, d) == if env.addedIn && env.addedOut && env.blocked then Drop else DefaultFor(w, d)
  {
  }

  /** What a de-isolation accepts: whatever no remaining rule blocks if the
      default could be opened, and otherwise what was accepted before. */
  lemma WinDeisolationOpens(w: Win, reopened: bool, removed: bool, p: Packet)
    requires p.direction != Forwarded
    ensures WinAccepts(WinAfter(w, WinDeisolate(reopened, removed)), p) <==>
            if reopened
            then p.loopback || !HasRule(if removed then Outside(w.rules) else w.rules, Drop, p)
            else WinAccepts(w, p)
  {
  }

  /** De-isolating opens the default first, so it never cuts anything off. */
  lemma WinDeisolateKeepsEverything(w: Win, reopened: bool, removed: bool, p: Packet, i: nat)
    requires WinAccepts(w, p) && i < |WinDeisolateStates(w, reopened, removed)|
    ensures WinAccepts(WinDeisolateStates(w, reopened, removed)[i], p)
  {
    var s := WinDeisolateStates(w, reopened, removed)[i];
    assert HasRule(s.rules, Drop, p) ==> HasRule(w.rules, Drop, p);
  }
}

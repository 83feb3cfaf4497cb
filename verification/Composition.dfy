/** The names of the exchange's states, and the pipeline that takes a packet from the port it came in
    by through the participants' policies to the port it leaves by. */
module Composition {
  import opened Wrappers
  import opened Texts
  import opened Pyretic

  datatype PhysicalPort = PhysicalPort(id: Value, mac: Value)

  datatype Participant = Participant(id: string, physPorts: seq<PhysicalPort>, policies: Policy)

  /** A packet is forwarded to a physical port, or to the virtual port of a participant. */
  datatype Port = Physical(port: PhysicalPort) | Virtual(id: string)

  // ----- names -----

  function UpperChar(c: char): char {
    if 'a' <= c <= 'z' then c - 'a' + 'A' else c
  }

  function Upper(s: string): (u: string)
    ensures |u| == |s|
  {
    seq(|s|, i requires 0 <= i < |s| => UpperChar(s[i]))
  }

  /** Letters become capitals, and nothing else changes. */
  lemma UpperLetters(c: char)
    ensures if 'a' <= c && c <= 'z' then UpperChar(c) as int == c as int - 32 && 'A' <= UpperChar(c) <= 'Z'
            else UpperChar(c) == c
  {
  }

  function InVar(id: string): string {
    "in" + Upper(id)
  }

  function OutVar(id: string, i: nat): string {
    "out" + Upper(id) + "_" + Decimal(i)
  }

  /** Where the digits at the end start: after the last underscore. */
  lemma LastUnderscore(a: string, m: string, b: string, n: string)
    requires a + "_" + m == b + "_" + n && |m| >= |n|
    requires '_' !in m && '_' !in n
    ensures a == b && m == n
  {
    var s := a + "_" + m;
    assert s[|b|] == '_' && s[|a|] == '_';
    assert forall k | |a| < k < |s| :: s[k] == m[k - |a| - 1] && s[k] in m;
    assert |a| == |b|;
    assert a == s[..|a|] && b == s[..|b|];
    assert m == s[|a| + 1..] && n == s[|b| + 1..];
  }

  /** Different ports have different states unless their participants' names differ in case only. */
  lemma OutVarInjective(a: string, i: nat, b: string, j: nat)
    ensures OutVar(a, i) == OutVar(b, j) <==> Upper(a) == Upper(b) && i == j
  {
    if OutVar(a, i) == OutVar(b, j) {
      var u, v, m, n := "out" + Upper(a), "out" + Upper(b), Decimal(i), Decimal(j);
      assert u + "_" + m == v + "_" + n;
      if |m| >= |n| {
        LastUnderscore(u, m, v, n);
      } else {
        LastUnderscore(v, n, u, m);
      }
      assert Upper(a) == u[3..] && Upper(b) == v[3..];
      DecimalInjective(i, j);
    }
  }

  lemma InVarInjective(a: string, b: string)
    ensures InVar(a) == InVar(b) <==> Upper(a) == Upper(b)
  {
    assert Upper(a) == InVar(a)[2..] && Upper(b) == InVar(b)[2..];
  }

  lemma InIsNotOut(a: string, b: string, j: nat)
    ensures InVar(a) != OutVar(b, j)
  {
    assert InVar(a)[0] == 'i' && OutVar(b, j)[0] == 'o';
  }

  /** The states of a participant "A1". */
  lemma NamesExample()
    ensures InVar("a1") == "inA1" && OutVar("a1", 0) == "outA1_0"
  {
    assert Upper("a1") == "A1" && Decimal(0) == "0";
  }

  // ----- the platform -----

  /** The output states of the first `n` ports. */
  function OutVars(outVar: map<Value, string>, id: string, ports: seq<PhysicalPort>, n: nat): map<Value, string>
    requires n <= |ports|
  {
    if n == 0 then outVar else OutVars(outVar, id, ports, n - 1)[ports[n - 1].id := OutVar(id, n - 1)]
  }

  function PortsOf(portOf: map<string, PhysicalPort>, id: string, ports: seq<PhysicalPort>, n: nat)
      : map<string, PhysicalPort>
    requires n <= |ports|
  {
    if n == 0 then portOf else PortsOf(portOf, id, ports, n - 1)[OutVar(id, n - 1) := ports[n - 1]]
  }

  /** The platform's dictionaries. */
  datatype Platform = Platform(
    participants: map<string, Participant>,
    inVar: map<string, string>,
    outVar: map<Value, string>,
    portOf: map<string, PhysicalPort>)

  const EMPTY := Platform(map[], map[], map[], map[])

  /** The dictionaries after a participant was added. */
  function Added(x: Platform, p: Participant, name: string): Platform {
    Platform(
      x.participants[name := p],
      x.inVar[p.id := InVar(p.id)],
      OutVars(x.outVar, p.id, p.physPorts, |p.physPorts|),
      PortsOf(x.portOf, p.id, p.physPorts, |p.physPorts|))
  }

  /** What every sequence of additions keeps: each participant has its input state, and the output
      states are named after participants and port numbers. */
  ghost predicate Valid(x: Platform) {
    && (forall id | id in x.inVar :: x.inVar[id] == InVar(id))
    && (forall n | n in x.participants :: x.participants[n].id in x.inVar)
    && (forall v | v in x.portOf :: IsOutVar(v))
    && (forall k | k in x.outVar :: IsOutVar(x.outVar[k]) && x.outVar[k] in x.portOf)
  }

  ghost predicate IsOutVar(v: string) {
    exists id: string, i: nat :: v == OutVar(id, i)
  }

  lemma {:induction false} PortsAdded(x: Platform, id: string, ports: seq<PhysicalPort>, n: nat)
    requires Valid(x) && n <= |ports|
    ensures var outVar, portOf := OutVars(x.outVar, id, ports, n), PortsOf(x.portOf, id, ports, n);
            Valid(x.(outVar := outVar, portOf := portOf))
  {
    if n > 0 {
      PortsAdded(x, id, ports, n - 1);
      assert IsOutVar(OutVar(id, n - 1));
    }
  }

  lemma AddedValid(x: Platform, p: Participant, name: string)
    requires Valid(x)
    ensures Valid(Added(x, p, name))
  {
    PortsAdded(x, p.id, p.physPorts, |p.physPorts|);
  }

  class Sdx {
    var participants: map<string, Participant>
    var inVar: map<string, string>
    var outVar: map<Value, string>
    var portOf: map<string, PhysicalPort>

    constructor ()
      ensures View() == EMPTY
    {
      participants, inVar, outVar, portOf := map[], map[], map[], map[];
    }

    function View(): Platform
      reads this
    {
      Platform(participants, inVar, outVar, portOf)
    }

    method AddParticipant(p: Participant, name: string)
      modifies this
      ensures View() == Added(old(View()), p, name)
    {
      participants := participants[name := p];
      inVar := inVar[p.id := InVar(p.id)];
      var i := 0;
      while i < |p.physPorts|
        invariant i <= |p.physPorts|
        invariant participants == old(participants)[name := p] && inVar == old(inVar)[p.id := InVar(p.id)]
        invariant outVar == OutVars(old(outVar), p.id, p.physPorts, i)
        invariant portOf == PortsOf(old(portOf), p.id, p.physPorts, i)
      {
        var port := p.physPorts[i];
        outVar := outVar[port.id := OutVar(p.id, i)];
        portOf := portOf[OutVar(p.id, i) := port];
        i := i + 1;
      }
    }
  }

  // ----- states -----

  ghost predicate InState(packet: Packet, v: string) {
    "state" in packet && packet["state"] == Text(v)
  }

  /** The packet has reached a port. */
  ghost predicate Finished(x: Platform, packet: Packet) {
    exists v :: v in x.portOf && InState(packet, v)
  }

  /** The participant of that name sees the packet. */
  ghost predicate Sees(x: Platform, name: string, packet: Packet)
    requires Valid(x)
  {
    name in x.participants && InState(packet, x.inVar[x.participants[name].id])
  }

  lemma SeenIsNotFinished(x: Platform, name: string, packet: Packet)
    requires Valid(x) && Sees(x, name, packet)
    ensures !Finished(x, packet)
  {
    var id := x.participants[name].id;
    forall v | v in x.portOf
      ensures v != InVar(id)
    {
      var other: string, i: nat :| v == OutVar(other, i);
      InIsNotOut(id, other, i);
    }
  }

  /** A packet in a participant's input state is seen by that participant, and by another if and only
      if their names differ in case only. */
  lemma SeenByOneOnly(x: Platform, a: string, b: string, packet: Packet)
    requires Valid(x) && a in x.participants && b in x.participants && Sees(x, a, packet)
    ensures Sees(x, b, packet) <==> Upper(x.participants[a].id) == Upper(x.participants[b].id)
  {
    InVarInjective(x.participants[a].id, x.participants[b].id);
  }

  // ----- the stages -----

  /** Loops over a dictionary visit its keys in some order; the policies they build mean the same
      whatever the order is. */
  ghost predicate MatchesStates(policy: Policy, vars: set<string>) {
    forall packet: Packet :: Eval(policy, packet) != {} <==> exists v :: v in vars && InState(packet, v)
  }

  lemma MatchOneMore(policy: Policy, vars: set<string>, v: string)
    requires MatchesStates(policy, vars)
    ensures MatchesStates(Parallel([policy, Match("state", Text(v))]), vars + {v})
  {
    var more := Parallel([policy, Match("state", Text(v))]);
    forall packet: Packet
      ensures Eval(more, packet) != {} <==> exists u :: u in vars + {v} && InState(packet, u)
    {
      ParallelOfTwo(policy, Match("state", Text(v)), packet);
      assert v in vars + {v};
      assert forall u | u in vars :: u in vars + {v};
    }
  }

  /** What a participant's restricted policy does. */
  ghost function Restricted(x: Platform, name: string, packet: Packet): set<Packet>
    requires Valid(x) && name in x.participants
  {
    if Finished(x, packet) then {packet}
    else if Sees(x, name, packet) then Eval(x.participants[name].policies, packet)
    else {}
  }

  method SdxRestrictState(x: Platform, name: string) returns (policy: Policy)
    requires Valid(x) && name in x.participants
    ensures forall packet: Packet :: Eval(policy, packet) == Restricted(x, name, packet)
  {
    var matchAll := NoPackets;
    var left := x.portOf.Keys;
    while left != {}
      invariant left <= x.portOf.Keys && MatchesStates(matchAll, x.portOf.Keys - left)
      decreases left
    {
      var v :| v in left;
      MatchOneMore(matchAll, x.portOf.Keys - left, v);
      matchAll := Parallel([matchAll, Match("state", Text(v))]);
      assert x.portOf.Keys - left + {v} == x.portOf.Keys - (left - {v});
      left := left - {v};
    }
    assert x.portOf.Keys - left == x.portOf.Keys;
    var p := x.participants[name];
    var mine := Sequential([Match("state", Text(x.inVar[p.id])), p.policies]);
    policy := If(matchAll, Passthrough, mine);
    forall packet: Packet
      ensures Eval(policy, packet) == Restricted(x, name, packet)
    {
      RestrictedMeaning(x, name, matchAll, packet);
    }
  }

  lemma RestrictedMeaning(x: Platform, name: string, matchAll: Policy, packet: Packet)
    requires Valid(x) && name in x.participants && MatchesStates(matchAll, x.portOf.Keys)
    ensures var p := x.participants[name];
            Eval(If(matchAll, Passthrough, Sequential([Match("state", Text(x.inVar[p.id])), p.policies])), packet)
            == Restricted(x, name, packet)
  {
    var p := x.participants[name];
    var only := Match("state", Text(x.inVar[p.id]));
    GuardMeaning(only, p.policies, packet);
    assert Eval(matchAll, packet) != {} <==> Finished(x, packet);
  }

  /** A filter in front of a policy. */
  lemma GuardMeaning(filter: Policy, policy: Policy, packet: Packet)
    requires filter.Match?
    ensures Eval(Sequential([filter, policy]), packet) ==
            if Eval(filter, packet) == {} then {} else Eval(policy, packet)
  {
    forall r
      ensures r in Eval(Sequential([filter, policy]), packet) <==>
              Eval(filter, packet) != {} && r in Eval(policy, packet)
    {
      SequentialOfTwo(filter, policy, packet, r);
      assert Eval(filter, packet) == {} || Eval(filter, packet) == {packet};
      assert packet in {packet};
    }
  }

  /** One round: every participant's restricted policy, in parallel. */
  ghost predicate RoundHas(x: Platform, packet: Packet, q: Packet)
    requires Valid(x)
  {
    exists name :: name in x.participants && q in Restricted(x, name, packet)
  }

  lemma GivesOneMore(policies: seq<Policy>, policy: Policy, packet: Packet)
    ensures EvalParallel(policies + [policy], packet) == EvalParallel(policies, packet) + Eval(policy, packet)
  {
    forall q
      ensures q in EvalParallel(policies + [policy], packet) <==>
              q in EvalParallel(policies, packet) || q in Eval(policy, packet)
    {
      ParallelHas(policies + [policy], packet, q);
      ParallelHas(policies, packet, q);
      var more := policies + [policy];
      assert more[|policies|] == policy && forall i | 0 <= i < |policies| :: more[i] == policies[i];
    }
  }

  method Round(x: Platform) returns (policy: Policy)
    requires Valid(x)
    ensures forall packet: Packet, q: Packet :: q in Eval(policy, packet) <==> RoundHas(x, packet, q)
  {
    var policies := [];
    var left := x.participants.Keys;
    while left != {}
      invariant left <= x.participants.Keys
      invariant forall packet: Packet, q: Packet ::
                  q in EvalParallel(policies, packet) <==>
                  exists name :: name in x.participants.Keys - left && q in Restricted(x, name, packet)
      decreases left
    {
      var name :| name in left;
      var restricted := SdxRestrictState(x, name);
      forall packet: Packet {
        GivesOneMore(policies, restricted, packet);
      }
      policies := policies + [restricted];
      assert x.participants.Keys - (left - {name}) == x.participants.Keys - left + {name};
      left := left - {name};
    }
    policy := Parallel(policies);
  }

  /** The packet comes in by a port of a participant and is put into that participant's input state. */
  ghost predicate EntersAt(x: Platform, name: string, packet: Packet, m: Packet)
    requires Valid(x) && name in x.participants
  {
    var p := x.participants[name];
    "inport" in packet && HasPort(p.physPorts, packet["inport"]) && m == packet["state" := Text(x.inVar[p.id])]
  }

  ghost predicate HasPort(ports: seq<PhysicalPort>, id: Value) {
    exists i: nat :: i < |ports| && ports[i].id == id
  }

  ghost predicate Enters(x: Platform, packet: Packet, m: Packet)
    requires Valid(x)
  {
    exists name :: name in x.participants && EntersAt(x, name, packet, m)
  }

  lemma EnterMeaning(port: PhysicalPort, v: string, packet: Packet, m: Packet)
    ensures m in Eval(Sequential([Match("inport", port.id), Modify("state", Text(v))]), packet) <==>
            "inport" in packet && packet["inport"] == port.id && m == packet["state" := Text(v)]
  {
    GuardMeaning(Match("inport", port.id), Modify("state", Text(v)), packet);
  }

  method PortPolicies(x: Platform, name: string, before: seq<Policy>) returns (policies: seq<Policy>)
    requires Valid(x) && name in x.participants
    ensures forall packet: Packet, m: Packet ::
              m in EvalParallel(policies, packet) <==> m in EvalParallel(before, packet) || EntersAt(x, name, packet, m)
  {
    var p := x.participants[name];
    policies := before;
    for i := 0 to |p.physPorts|
      invariant forall packet: Packet, m: Packet ::
                  m in EvalParallel(policies, packet) <==>
                  m in EvalParallel(before, packet) ||
                  ("inport" in packet && HasPort(p.physPorts[..i], packet["inport"])
                   && m == packet["state" := Text(x.inVar[p.id])])
    {
      var port, v := p.physPorts[i], x.inVar[p.id];
      var enter := Sequential([Match("inport", port.id), Modify("state", Text(v))]);
      forall packet: Packet, m: Packet
        ensures m in EvalParallel(policies + [enter], packet) <==>
                m in EvalParallel(policies, packet) ||
                ("inport" in packet && packet["inport"] == port.id && m == packet["state" := Text(v)])
      {
        GivesOneMore(policies, enter, packet);
        EnterMeaning(port, v, packet, m);
      }
      forall id: Value {
        HasPortNext(p.physPorts, i, id);
      }
      policies := policies + [enter];
    }
    assert p.physPorts[..|p.physPorts|] == p.physPorts;
  }

  lemma HasPortNext(ports: seq<PhysicalPort>, i: nat, id: Value)
    requires i < |ports|
    ensures HasPort(ports[..i + 1], id) <==> HasPort(ports[..i], id) || ports[i].id == id
  {
  }

  method Preprocessing(x: Platform) returns (policy: Policy)
    requires Valid(x)
    ensures forall packet: Packet, m: Packet :: m in Eval(policy, packet) <==> Enters(x, packet, m)
  {
    var policies := [];
    var left := x.participants.Keys;
    while left != {}
      invariant left <= x.participants.Keys
      invariant forall packet: Packet, m: Packet ::
                  m in EvalParallel(policies, packet) <==>
                  exists name :: name in x.participants.Keys - left && EntersAt(x, name, packet, m)
      decreases left
    {
      var name :| name in left;
      policies := PortPolicies(x, name, policies);
      assert x.participants.Keys - (left - {name}) == x.participants.Keys - left + {name};
      left := left - {name};
    }
    policy := Parallel(policies);
  }

  /** A packet in an output state leaves by the port of that state. */
  ghost predicate EmittedAt(x: Platform, v: string, r: Packet, q: Packet) {
    v in x.portOf && InState(r, v) && q == r["state" := NoValue]["outport" := x.portOf[v].id]
  }

  ghost predicate Emitted(x: Platform, r: Packet, q: Packet) {
    exists v :: EmittedAt(x, v, r, q)
  }

  function EmitPolicy(v: string, port: PhysicalPort): Policy {
    Sequential([Sequential([Match("state", Text(v)), Modify("state", NoValue)]), Modify("outport", port.id)])
  }

  lemma EmitMeaning(x: Platform, v: string, r: Packet, q: Packet)
    requires v in x.portOf
    ensures q in Eval(EmitPolicy(v, x.portOf[v]), r) <==> EmittedAt(x, v, r, q)
  {
    var filter, clear, out := Match("state", Text(v)), Modify("state", NoValue), Modify("outport", x.portOf[v].id);
    SequentialOfTwo(Sequential([filter, clear]), out, r, q);
    GuardMeaning(filter, clear, r);
    assert Eval(clear, r) == {r["state" := NoValue]};
    assert EmittedAt(x, v, r, q) ==> r["state" := NoValue] in Eval(Sequential([filter, clear]), r);
  }

  method Postprocessing(x: Platform) returns (policy: Policy)
    ensures forall r: Packet, q: Packet :: q in Eval(policy, r) <==> Emitted(x, r, q)
  {
    var policies := [];
    var left := x.portOf.Keys;
    while left != {}
      invariant left <= x.portOf.Keys
      invariant forall r: Packet, q: Packet ::
                  q in EvalParallel(policies, r) <==> exists v :: v in x.portOf.Keys - left && EmittedAt(x, v, r, q)
      decreases left
    {
      var v :| v in left;
      var emit := EmitPolicy(v, x.portOf[v]);
      forall r: Packet, q: Packet
        ensures q in EvalParallel(policies + [emit], r) <==> q in EvalParallel(policies, r) || EmittedAt(x, v, r, q)
      {
        GivesOneMore(policies, emit, r);
        EmitMeaning(x, v, r, q);
      }
      policies := policies + [emit];
      assert x.portOf.Keys - (left - {v}) == x.portOf.Keys - left + {v};
      left := left - {v};
    }
    policy := Parallel(policies);
  }

  // ----- the whole pipeline -----

  /** Some participant that sees the packet turns it into `r`. */
  ghost predicate Handles(x: Platform, packet: Packet, r: Packet)
    requires Valid(x)
  {
    exists name :: Sees(x, name, packet) && r in Eval(x.participants[name].policies, packet)
  }

  /** A packet reaches `r` by the policy of a participant that sees it, or by that and the policy of one
      that sees what came out. */
  ghost predicate WithinTwoHops(x: Platform, m: Packet, r: Packet)
    requires Valid(x)
  {
    Handles(x, m, r) || exists a: Packet :: Handles(x, m, a) && Handles(x, a, r)
  }

  ghost predicate Delivered(x: Platform, packet: Packet, q: Packet)
    requires Valid(x)
  {
    exists m: Packet, r: Packet :: Enters(x, packet, m) && WithinTwoHops(x, m, r) && Emitted(x, r, q)
  }

  lemma HandledIsNotFinished(x: Platform, packet: Packet, r: Packet)
    requires Valid(x) && Handles(x, packet, r)
    ensures !Finished(x, packet) && x.participants != map[]
  {
    var name :| Sees(x, name, packet) && r in Eval(x.participants[name].policies, packet);
    SeenIsNotFinished(x, name, packet);
  }

  /** Two rounds: what has reached a port after the first passes the second unchanged. */
  lemma TwoRounds(x: Platform, m: Packet, a: Packet, r: Packet)
    requires Valid(x) && !Finished(x, m) && Finished(x, r)
    ensures RoundHas(x, m, a) && RoundHas(x, a, r) <==>
            (a == r && Handles(x, m, r)) || (Handles(x, m, a) && Handles(x, a, r))
  {
    if Handles(x, m, a) {
      HandledIsNotFinished(x, m, a);
    }
    if Handles(x, a, r) {
      HandledIsNotFinished(x, a, r);
    }
  }

  lemma EnteredIsNotFinished(x: Platform, packet: Packet, m: Packet)
    requires Valid(x) && Enters(x, packet, m)
    ensures !Finished(x, m)
  {
    var name :| name in x.participants && EntersAt(x, name, packet, m);
    assert Sees(x, name, m);
    SeenIsNotFinished(x, name, m);
  }

  lemma PipelineStep(pre: Policy, rounds: Policy, post: Policy, packet: Packet, q: Packet)
    ensures q in Eval(Sequential([Sequential([pre, rounds]), post]), packet) <==>
            exists m: Packet, r: Packet :: m in Eval(pre, packet) && r in Eval(rounds, m) && q in Eval(post, r)
  {
    var two := Sequential([pre, rounds]);
    SequentialOfTwo(two, post, packet, q);
    if q in Eval(Sequential([two, post]), packet) {
      var r :| r in Eval(two, packet) && q in Eval(post, r);
      SequentialOfTwo(pre, rounds, packet, r);
    }
    if m: Packet, r: Packet :| m in Eval(pre, packet) && r in Eval(rounds, m) && q in Eval(post, r) {
      PipelineReaches(pre, rounds, post, packet, m, r, q);
    }
  }

  lemma PipelineReaches(pre: Policy, rounds: Policy, post: Policy, packet: Packet, m: Packet, r: Packet, q: Packet)
    requires m in Eval(pre, packet) && r in Eval(rounds, m) && q in Eval(post, r)
    ensures q in Eval(Sequential([Sequential([pre, rounds]), post]), packet)
  {
    SequentialStep(pre, rounds, packet, m, r);
    SequentialStep(Sequential([pre, rounds]), post, packet, r, q);
  }

  lemma RoundsStep(first: Policy, second: Policy, m: Packet, r: Packet)
    ensures r in Eval(Sequential([Sequential([Passthrough, first]), second]), m) <==>
            exists a: Packet :: a in Eval(first, m) && r in Eval(second, a)
  {
    SequentialOfTwo(Sequential([Passthrough, first]), second, m, r);
    forall a: Packet
      ensures a in Eval(Sequential([Passthrough, first]), m) <==> a in Eval(first, m)
    {
      SequentialOfTwo(Passthrough, first, m, a);
      assert m in Eval(Passthrough, m);
    }
  }

  /** The meaning of the composed policy: a packet is delivered exactly when a participant's port took
      it in and it reached an output state within two hops. */
  method SimpleCompose(x: Platform) returns (policy: Policy)
    requires Valid(x)
    ensures forall packet: Packet, q: Packet :: q in Eval(policy, packet) <==> Delivered(x, packet, q)
  {
    var pre := Preprocessing(x);
    var first := Round(x);
    var second := Round(x);
    var post := Postprocessing(x);
    var rounds := Sequential([Sequential([Passthrough, first]), second]);
    policy := Sequential([Sequential([pre, rounds]), post]);
    forall packet: Packet, q: Packet
      ensures q in Eval(policy, packet) <==> Delivered(x, packet, q)
    {
      PipelineMeaning(x, pre, first, second, post, packet, q);
    }
  }

  lemma RoundsReachBy(first: Policy, second: Policy, m: Packet, a: Packet, r: Packet)
    requires a in Eval(first, m) && r in Eval(second, a)
    ensures r in Eval(Sequential([Sequential([Passthrough, first]), second]), m)
  {
    RoundsStep(first, second, m, r);
  }

  lemma RoundsRelate(x: Platform, first: Policy, second: Policy, m: Packet, r: Packet)
    requires Valid(x)
    requires forall packet: Packet, q: Packet :: q in Eval(first, packet) <==> RoundHas(x, packet, q)
    requires forall packet: Packet, q: Packet :: q in Eval(second, packet) <==> RoundHas(x, packet, q)
    ensures r in Eval(Sequential([Sequential([Passthrough, first]), second]), m) <==>
            exists a: Packet :: RoundHas(x, m, a) && RoundHas(x, a, r)
  {
    hide RoundHas;
    RoundsStep(first, second, m, r);
    if a: Packet :| RoundHas(x, m, a) && RoundHas(x, a, r) {
      RoundsReachBy(first, second, m, a, r);
    }
    if a: Packet :| a in Eval(first, m) && r in Eval(second, a) {
      assert RoundHas(x, m, a) && RoundHas(x, a, r);
      RoundsReachBy(first, second, m, a, r);
    }
  }

  lemma RoundsReach(x: Platform, first: Policy, second: Policy, packet: Packet, m: Packet, r: Packet, q: Packet)
    requires Valid(x) && Enters(x, packet, m) && Emitted(x, r, q)
    requires forall packet: Packet, q: Packet :: q in Eval(first, packet) <==> RoundHas(x, packet, q)
    requires forall packet: Packet, q: Packet :: q in Eval(second, packet) <==> RoundHas(x, packet, q)
    ensures r in Eval(Sequential([Sequential([Passthrough, first]), second]), m) <==> WithinTwoHops(x, m, r)
  {
    EnteredIsNotFinished(x, packet, m);
    var v :| EmittedAt(x, v, r, q);
    assert Finished(x, r);
    RoundsRelate(x, first, second, m, r);
    hide RoundHas, Handles, Finished, Enters, Emitted;
    forall a: Packet
      ensures RoundHas(x, m, a) && RoundHas(x, a, r) <==>
              (a == r && Handles(x, m, r)) || (Handles(x, m, a) && Handles(x, a, r))
    {
      TwoRounds(x, m, a, r);
    }
    if Handles(x, m, r) {
      assert RoundHas(x, m, r) && RoundHas(x, r, r);
    } else if a: Packet :| Handles(x, m, a) && Handles(x, a, r) {
      assert RoundHas(x, m, a) && RoundHas(x, a, r);
    }
  }

  lemma PipelineMeaning(x: Platform, pre: Policy, first: Policy, second: Policy, post: Policy,
                        packet: Packet, q: Packet)
    requires Valid(x)
    requires forall packet: Packet, m: Packet :: m in Eval(pre, packet) <==> Enters(x, packet, m)
    requires forall packet: Packet, q: Packet :: q in Eval(first, packet) <==> RoundHas(x, packet, q)
    requires forall packet: Packet, q: Packet :: q in Eval(second, packet) <==> RoundHas(x, packet, q)
    requires forall r: Packet, q: Packet :: q in Eval(post, r) <==> Emitted(x, r, q)
    ensures var rounds := Sequential([Sequential([Passthrough, first]), second]);
            q in Eval(Sequential([Sequential([pre, rounds]), post]), packet) <==> Delivered(x, packet, q)
  {
    var rounds := Sequential([Sequential([Passthrough, first]), second]);
    PipelineStep(pre, rounds, post, packet, q);
    hide Enters, Emitted, WithinTwoHops, RoundHas;
    forall m: Packet, r: Packet | Enters(x, packet, m) && Emitted(x, r, q)
      ensures r in Eval(rounds, m) <==> WithinTwoHops(x, m, r)
    {
      RoundsReach(x, first, second, packet, m, r, q);
    }
    var whole := Sequential([Sequential([pre, rounds]), post]);
    if q in Eval(whole, packet) {
      var m: Packet, r: Packet :| m in Eval(pre, packet) && r in Eval(rounds, m) && q in Eval(post, r);
      assert Enters(x, packet, m) && Emitted(x, r, q);
    }
    if m: Packet, r: Packet :| Enters(x, packet, m) && WithinTwoHops(x, m, r) && Emitted(x, r, q) {
      PipelineReaches(pre, rounds, post, packet, m, r, q);
    }
  }

  /** No two participants' names differ in case only. */
  ghost predicate CaseDistinct(x: Platform) {
    forall a, b
      | a in x.participants && b in x.participants && Upper(x.participants[a].id) == Upper(x.participants[b].id) ::
      a == b
  }

  /** One of the packets leaves as `q`, at once or after one participant has handled it. */
  ghost predicate PassedOn(x: Platform, packets: set<Packet>, q: Packet)
    requires Valid(x)
  {
    exists a: Packet, r: Packet :: a in packets && (a == r || Handles(x, a, r)) && Emitted(x, r, q)
  }

  /** A packet that comes in by a port of one participant only is first handled by that participant's
      policy alone; then it leaves, or one further participant handles it. */
  lemma IngressFirst(x: Platform, name: string, packet: Packet, q: Packet)
    requires Valid(x) && CaseDistinct(x) && name in x.participants && "inport" in packet
    requires forall other | other in x.participants ::
               HasPort(x.participants[other].physPorts, packet["inport"]) <==> other == name
    ensures var m := packet["state" := Text(x.inVar[x.participants[name].id])];
            Delivered(x, packet, q) <==> PassedOn(x, Eval(x.participants[name].policies, m), q)
  {
    var p := x.participants[name];
    var m := packet["state" := Text(x.inVar[p.id])];
    assert Sees(x, name, m);
    HandledByOnly(x, name, m);
    OnlyEntry(x, name, packet);
    hide Handles, Emitted, Enters, Valid, Sees, CaseDistinct, HasPort, Delivered;
    DeliveredOnce(x, packet, m, q);
  }

  lemma DeliveredOnce(x: Platform, packet: Packet, m: Packet, q: Packet)
    requires Valid(x) && forall m': Packet :: Enters(x, packet, m') <==> m' == m
    ensures Delivered(x, packet, q) <==>
            exists a: Packet, r: Packet :: Handles(x, m, a) && (a == r || Handles(x, a, r)) && Emitted(x, r, q)
  {
    hide Handles, Emitted, Enters;
    if Delivered(x, packet, q) {
      var m': Packet, r: Packet :| Enters(x, packet, m') && WithinTwoHops(x, m', r) && Emitted(x, r, q);
      if Handles(x, m, r) {
        assert r == r && Emitted(x, r, q);
      } else {
        var a: Packet :| Handles(x, m, a) && Handles(x, a, r);
      }
    }
    if a: Packet, r: Packet :| Handles(x, m, a) && (a == r || Handles(x, a, r)) && Emitted(x, r, q) {
      assert Enters(x, packet, m) && WithinTwoHops(x, m, r);
    }
  }

  lemma HandledByOnly(x: Platform, name: string, m: Packet)
    requires Valid(x) && CaseDistinct(x) && Sees(x, name, m)
    ensures forall a: Packet :: Handles(x, m, a) <==> a in Eval(x.participants[name].policies, m)
  {
    hide Handles, Valid, CaseDistinct;
    forall a: Packet
      ensures Handles(x, m, a) <==> a in Eval(x.participants[name].policies, m)
    {
      HandledByOne(x, name, m, a);
    }
  }

  lemma HandledByOne(x: Platform, name: string, m: Packet, a: Packet)
    requires Valid(x) && CaseDistinct(x) && Sees(x, name, m)
    ensures Handles(x, m, a) <==> a in Eval(x.participants[name].policies, m)
  {
    forall other | other in x.participants
      ensures Sees(x, other, m) <==> other == name
    {
      SeenByOneOnly(x, name, other, m);
    }
  }

  lemma OnlyEntry(x: Platform, name: string, packet: Packet)
    requires Valid(x) && name in x.participants && "inport" in packet
    requires forall other | other in x.participants ::
               HasPort(x.participants[other].physPorts, packet["inport"]) <==> other == name
    ensures forall m: Packet ::
              Enters(x, packet, m) <==> m == packet["state" := Text(x.inVar[x.participants[name].id])]
  {
  }

  // ----- forwarding -----

  /** Forwarding changes the state, and the destination address if the port is a physical one; an
      unknown port fails. */
  function Fwd(x: Platform, port: Port): Option<Policy> {
    match port
    case Physical(p) =>
      if p.id in x.outVar then Some(Sequential([Modify("state", Text(x.outVar[p.id])), Modify("dstmac", p.mac)]))
      else None
    case Virtual(id) =>
      if id in x.inVar then Some(Modify("state", Text(x.inVar[id]))) else None
  }

  /** Forwarding never drops or copies: it puts the packet into the input state of the participant, or
      into the state of the port with the port's address; it fails exactly for unknown ports. */
  lemma FwdMeaning(x: Platform, port: Port, packet: Packet)
    requires Valid(x)
    ensures Fwd(x, port).None? <==> match port case Physical(p) => p.id !in x.outVar case Virtual(id) => id !in x.inVar
    ensures Fwd(x, port).Some? ==>
              Eval(Fwd(x, port).value, packet) ==
              match port
              case Physical(p) => {packet["state" := Text(x.outVar[p.id])]["dstmac" := p.mac]}
              case Virtual(id) => {packet["state" := Text(InVar(id))]}
  {
    if port.Physical? && port.port.id in x.outVar {
      var p := port.port;
      var first, second := Modify("state", Text(x.outVar[p.id])), Modify("dstmac", p.mac);
      var m := packet["state" := Text(x.outVar[p.id])];
      forall r
        ensures r in Eval(Sequential([first, second]), packet) <==> r == m["dstmac" := p.mac]
      {
        SequentialOfTwo(first, second, packet, r);
        assert Eval(first, packet) == {m} && Eval(second, m) == {m["dstmac" := p.mac]};
      }
    }
  }

  /** The state of the port leads back to the port. */
  ghost predicate LeadsBack(x: Platform, port: PhysicalPort) {
    port.id in x.outVar && x.outVar[port.id] in x.portOf && x.portOf[x.outVar[port.id]] == port
  }

  /** A packet forwarded to a port that its state leads back to leaves by that port, and by no other. */
  lemma ForwardedPacketLeaves(x: Platform, port: PhysicalPort, packet: Packet, r: Packet, q: Packet)
    requires Valid(x) && LeadsBack(x, port) && r in Eval(Fwd(x, Physical(port)).value, packet)
    ensures Emitted(x, r, q) <==> q == packet["dstmac" := port.mac]["state" := NoValue]["outport" := port.id]
  {
    var v := x.outVar[port.id];
    SequentialOfTwo(Modify("state", Text(v)), Modify("dstmac", port.mac), packet, r);
    assert r == packet["state" := Text(v)]["dstmac" := port.mac];
    assert EmittedAt(x, v, r, q) <==> q == r["state" := NoValue]["outport" := port.id];
    assert r["state" := NoValue] == packet["dstmac" := port.mac]["state" := NoValue];
    assert forall u | u != v :: !EmittedAt(x, u, r, q);
  }

  /** A packet forwarded to a participant is seen by that participant. */
  lemma ForwardedPacketIsSeen(x: Platform, name: string, packet: Packet, r: Packet)
    requires Valid(x) && name in x.participants
    ensures Fwd(x, Virtual(x.participants[name].id)).Some?
    ensures r in Eval(Fwd(x, Virtual(x.participants[name].id)).value, packet) ==> Sees(x, name, r)
  {
  }

  // ----- building the platform -----

  function AddedAll(ps: seq<Participant>): (x: Platform) {
    if ps == [] then EMPTY
    else
      var last := ps[|ps| - 1];
      Added(AddedAll(ps[..|ps| - 1]), last, last.id)
  }

  lemma {:induction false} AddedAllValid(ps: seq<Participant>)
    ensures Valid(AddedAll(ps))
  {
    if ps != [] {
      AddedAllValid(ps[..|ps| - 1]);
      AddedValid(AddedAll(ps[..|ps| - 1]), ps[|ps| - 1], ps[|ps| - 1].id);
    }
  }

  /** No two ports of the participants have the same number. */
  ghost predicate PortsDistinct(ps: seq<Participant>) {
    forall k: nat, i: nat, l: nat, j: nat
      | k < |ps| && i < |ps[k].physPorts| && l < |ps| && j < |ps[l].physPorts|
        && ps[k].physPorts[i].id == ps[l].physPorts[j].id ::
      k == l && i == j
  }

  /** The state of port `i` of participant `k` is also that of a port of participant `l`. */
  ghost predicate SharesState(ps: seq<Participant>, k: nat, i: nat, l: nat)
    requires k < |ps| && l < |ps|
  {
    Upper(ps[k].id) == Upper(ps[l].id) && i < |ps[l].physPorts|
  }

  lemma {:induction false} OutVarsAt(outVar: map<Value, string>, id: string, ports: seq<PhysicalPort>, n: nat, k: Value)
    requires n <= |ports| && forall i: nat, j: nat | i < j < |ports| :: ports[i].id != ports[j].id
    ensures var o := OutVars(outVar, id, ports, n);
            && (forall i: nat | i < n && ports[i].id == k :: k in o && o[k] == OutVar(id, i))
            && ((forall i: nat | i < n :: ports[i].id != k) ==>
                  (k in o <==> k in outVar) && (k in outVar ==> o[k] == outVar[k]))
  {
    if n > 0 {
      OutVarsAt(outVar, id, ports, n - 1, k);
    }
  }

  lemma {:induction false} PortsOfAt(portOf: map<string, PhysicalPort>, id: string, ports: seq<PhysicalPort>, n: nat,
                                     a: string, i: nat)
    requires n <= |ports|
    ensures var o := PortsOf(portOf, id, ports, n);
            if Upper(a) == Upper(id) && i < n then OutVar(a, i) in o && o[OutVar(a, i)] == ports[i]
            else (OutVar(a, i) in o <==> OutVar(a, i) in portOf)
                 && (OutVar(a, i) in portOf ==> o[OutVar(a, i)] == portOf[OutVar(a, i)])
  {
    if n > 0 {
      PortsOfAt(portOf, id, ports, n - 1, a, i);
      OutVarInjective(a, i, id, n - 1);
    }
  }

  lemma {:induction false} StateOfPort(ps: seq<Participant>, k: nat, i: nat)
    requires PortsDistinct(ps) && k < |ps| && i < |ps[k].physPorts|
    ensures var x, id := AddedAll(ps), ps[k].physPorts[i].id;
            id in x.outVar && x.outVar[id] == OutVar(ps[k].id, i)
  {
    var init, last := ps[..|ps| - 1], ps[|ps| - 1];
    assert PortsDistinct(init);
    var port := ps[k].physPorts[i];
    OutVarsAt(AddedAll(init).outVar, last.id, last.physPorts, |last.physPorts|, port.id);
    if k < |init| {
      StateOfPort(init, k, i);
    }
  }

  /** The port that a state leads to is that of the last participant that shares the state. */
  lemma {:induction false} PortOfState(ps: seq<Participant>, k: nat, i: nat) returns (l: nat)
    requires k < |ps| && i < |ps[k].physPorts|
    ensures k <= l < |ps| && SharesState(ps, k, i, l)
    ensures forall m: nat | l < m < |ps| :: !SharesState(ps, k, i, m)
    ensures var x, v := AddedAll(ps), OutVar(ps[k].id, i);
            v in x.portOf && x.portOf[v] == ps[l].physPorts[i]
  {
    var init, last := ps[..|ps| - 1], ps[|ps| - 1];
    PortsOfAt(AddedAll(init).portOf, last.id, last.physPorts, |last.physPorts|, ps[k].id, i);
    if SharesState(ps, k, i, |init|) {
      l := |init|;
    } else {
      l := PortOfState(init, k, i);
      forall m: nat | l < m < |ps|
        ensures !SharesState(ps, k, i, m)
      {
        if m < |init| {
          assert !SharesState(init, k, i, m);
        }
      }
    }
  }

  /** Every port's state leads back to the port if and only if no two participants with ports have names
      that differ in case only. */
  lemma PortsLeadBackIff(ps: seq<Participant>)
    requires PortsDistinct(ps)
    ensures (forall k: nat, i: nat | k < |ps| && i < |ps[k].physPorts| :: LeadsBack(AddedAll(ps), ps[k].physPorts[i]))
            <==>
            (forall k: nat, l: nat | k < l < |ps| && Upper(ps[k].id) == Upper(ps[l].id) ::
               ps[k].physPorts == [] || ps[l].physPorts == [])
  {
    var x := AddedAll(ps);
    forall k: nat, i: nat | k < |ps| && i < |ps[k].physPorts|
      ensures LeadsBack(x, ps[k].physPorts[i]) <==> forall m: nat | k < m < |ps| :: !SharesState(ps, k, i, m)
    {
      StateOfPort(ps, k, i);
      var l := PortOfState(ps, k, i);
      assert LeadsBack(x, ps[k].physPorts[i]) <==> ps[l].physPorts[i] == ps[k].physPorts[i];
      assert ps[l].physPorts[i] == ps[k].physPorts[i] <==> l == k;
    }
    if k: nat, l: nat :| k < l < |ps| && Upper(ps[k].id) == Upper(ps[l].id)
                         && ps[k].physPorts != [] && ps[l].physPorts != [] {
      assert SharesState(ps, k, 0, l);
      assert !LeadsBack(x, ps[k].physPorts[0]);
    }
  }

  /** Two participants named "a" and "A", each with one port: the state of the first one's port leads to
      the port of the second. */
  lemma PortLostExample(p: PhysicalPort, q: PhysicalPort, f: Policy, g: Policy)
    requires p.id != q.id
    ensures var x := AddedAll([Participant("a", [p], f), Participant("A", [q], g)]);
            && p.id in x.outVar && x.outVar[p.id] in x.portOf && x.portOf[x.outVar[p.id]] == q
            && !LeadsBack(x, p)
  {
    var ps := [Participant("a", [p], f), Participant("A", [q], g)];
    assert Upper("a") == Upper("A");
    StateOfPort(ps, 0, 0);
    assert SharesState(ps, 0, 0, 1);
    var l := PortOfState(ps, 0, 0);
    assert l == 1;
  }

  // ----- packets through a platform that was built -----

  /** No two participants' names differ in case only, or not at all. */
  ghost predicate NamesDistinct(ps: seq<Participant>) {
    forall k: nat, l: nat | k < l < |ps| :: Upper(ps[k].id) != Upper(ps[l].id)
  }

  lemma {:induction false} ParticipantsOf(ps: seq<Participant>)
    requires NamesDistinct(ps)
    ensures var x := AddedAll(ps).participants;
            && (forall k: nat | k < |ps| :: ps[k].id in x && x[ps[k].id] == ps[k])
            && (forall name | name in x :: exists k: nat :: k < |ps| && name == ps[k].id)
  {
    if ps != [] {
      var init, last := ps[..|ps| - 1], ps[|ps| - 1];
      assert NamesDistinct(init);
      ParticipantsOf(init);
      var before, x := AddedAll(init).participants, AddedAll(ps).participants;
      assert x == before[last.id := last];
      hide AddedAll, Upper;
      OneMoreParticipant(init, last, before);
      assert init + [last] == ps;
    }
  }

  lemma OneMoreParticipant(init: seq<Participant>, last: Participant, before: map<string, Participant>)
    requires NamesDistinct(init + [last])
    requires forall k: nat | k < |init| :: init[k].id in before && before[init[k].id] == init[k]
    requires forall name | name in before :: exists k: nat :: k < |init| && name == init[k].id
    ensures var ps, x := init + [last], before[last.id := last];
            && (forall k: nat | k < |ps| :: ps[k].id in x && x[ps[k].id] == ps[k])
            && (forall name | name in x :: exists k: nat :: k < |ps| && name == ps[k].id)
  {
    hide Upper;
    var ps, x := init + [last], before[last.id := last];
    forall name | name in x
      ensures exists k: nat :: k < |ps| && name == ps[k].id
    {
      if name == last.id {
        assert ps[|init|].id == name;
      } else {
        var k: nat :| k < |init| && name == init[k].id;
        assert ps[k].id == name;
      }
    }
    forall k: nat | k < |ps|
      ensures ps[k].id in x && x[ps[k].id] == ps[k]
    {
      assert k < |init| ==> Upper(ps[k].id) != Upper(ps[|init|].id);
    }
  }

  lemma {:induction false} StatesOf(portOf: map<string, PhysicalPort>, id: string, ports: seq<PhysicalPort>, n: nat,
                                    v: string)
    requires n <= |ports|
    ensures v in PortsOf(portOf, id, ports, n) <==> v in portOf || exists j: nat :: j < n && v == OutVar(id, j)
  {
    hide OutVar;
    if n > 0 {
      StatesOf(portOf, id, ports, n - 1, v);
      var before := PortsOf(portOf, id, ports, n - 1);
      assert PortsOf(portOf, id, ports, n) == before[OutVar(id, n - 1) := ports[n - 1]];
    }
  }

  lemma {:induction false} StatesOfAll(ps: seq<Participant>, v: string)
    ensures v in AddedAll(ps).portOf <==>
            exists l: nat, j: nat :: l < |ps| && j < |ps[l].physPorts| && v == OutVar(ps[l].id, j)
  {
    hide OutVar;
    if ps != [] {
      var init, last := ps[..|ps| - 1], ps[|ps| - 1];
      StatesOfAll(init, v);
      StatesOf(AddedAll(init).portOf, last.id, last.physPorts, |last.physPorts|, v);
      assert forall l: nat | l < |init| :: ps[l] == init[l];
      if j: nat :| j < |last.physPorts| && v == OutVar(last.id, j) {
        assert ps[|init|] == last;
      }
    }
  }

  /** A participant in whose input state the packet is turns it into `r`. */
  ghost predicate HandledBy(ps: seq<Participant>, a: Packet, r: Packet) {
    exists l: nat :: l < |ps| && InState(a, InVar(ps[l].id)) && r in Eval(ps[l].policies, a)
  }

  /** The packet is in the output state of a port and leaves by that port. */
  ghost predicate LeavesBy(ps: seq<Participant>, r: Packet, q: Packet) {
    exists l: nat, j: nat ::
      && l < |ps| && j < |ps[l].physPorts| && InState(r, OutVar(ps[l].id, j))
      && q == r["state" := NoValue]["outport" := ps[l].physPorts[j].id]
  }

  /** One of the packets leaves as `q`, at once or after one participant has handled it. */
  ghost predicate PassedOnAmong(ps: seq<Participant>, packets: set<Packet>, q: Packet) {
    exists a: Packet, r: Packet :: a in packets && (a == r || HandledBy(ps, a, r)) && LeavesBy(ps, r, q)
  }

  lemma EmittedIsLeaving(ps: seq<Participant>, r: Packet, q: Packet)
    requires NamesDistinct(ps)
    ensures Emitted(AddedAll(ps), r, q) <==> LeavesBy(ps, r, q)
  {
    var x := AddedAll(ps);
    hide OutVar, Upper;
    forall l: nat, j: nat | l < |ps| && j < |ps[l].physPorts|
      ensures OutVar(ps[l].id, j) in x.portOf && x.portOf[OutVar(ps[l].id, j)] == ps[l].physPorts[j]
    {
      var m := PortOfState(ps, l, j);
      assert m == l;
    }
    if v :| EmittedAt(x, v, r, q) {
      StatesOfAll(ps, v);
    }
    if l: nat, j: nat :| l < |ps| && j < |ps[l].physPorts| && InState(r, OutVar(ps[l].id, j))
                         && q == r["state" := NoValue]["outport" := ps[l].physPorts[j].id] {
      assert EmittedAt(x, OutVar(ps[l].id, j), r, q);
    }
  }

  lemma HandlingIsByState(ps: seq<Participant>, a: Packet, r: Packet)
    requires NamesDistinct(ps) && Valid(AddedAll(ps))
    ensures Handles(AddedAll(ps), a, r) <==> HandledBy(ps, a, r)
  {
    var x := AddedAll(ps);
    ParticipantsOf(ps);
    hide AddedAll, InVar;
    if l: nat :| l < |ps| && InState(a, InVar(ps[l].id)) && r in Eval(ps[l].policies, a) {
      assert Sees(x, ps[l].id, a);
    }
  }

  /** Once participants were added whose names differ in more than case and whose ports have different
      numbers: a packet that comes in by a port is delivered exactly as the policy of the port's owner
      says, alone or with that of the participant it forwards to, by the port it is then sent to. */
  lemma BuiltPlatformDelivers(ps: seq<Participant>, k: nat, i: nat, packet: Packet, q: Packet)
    requires NamesDistinct(ps) && PortsDistinct(ps) && k < |ps| && i < |ps[k].physPorts|
    requires "inport" in packet && packet["inport"] == ps[k].physPorts[i].id
    ensures Valid(AddedAll(ps))
    ensures Delivered(AddedAll(ps), packet, q) <==>
            PassedOnAmong(ps, Eval(ps[k].policies, packet["state" := Text(InVar(ps[k].id))]), q)
  {
    var x := AddedAll(ps);
    AddedAllValid(ps);
    ParticipantsOf(ps);
    BuiltIsDistinct(ps, k, i);
    hide AddedAll, HasPort, CaseDistinct, Delivered, Handles, HandledBy, Emitted, LeavesBy, InVar;
    hide NamesDistinct, PortsDistinct, Eval, PassedOn, PassedOnAmong;
    IngressFirst(x, ps[k].id, packet, q);
    SamePaths(ps, Eval(ps[k].policies, packet["state" := Text(InVar(ps[k].id))]), q);
  }

  lemma SamePaths(ps: seq<Participant>, first: set<Packet>, q: Packet)
    requires NamesDistinct(ps) && Valid(AddedAll(ps))
    ensures PassedOn(AddedAll(ps), first, q) <==> PassedOnAmong(ps, first, q)
  {
    hide AddedAll, Handles, HandledBy, Emitted, LeavesBy, NamesDistinct, Valid;
    var x := AddedAll(ps);
    forall a: Packet, r: Packet
      ensures Handles(x, a, r) <==> HandledBy(ps, a, r)
    {
      HandlingIsByState(ps, a, r);
    }
    forall r: Packet
      ensures Emitted(x, r, q) <==> LeavesBy(ps, r, q)
    {
      EmittedIsLeaving(ps, r, q);
    }
  }

  /** A participant that forwards everything to another, which forwards everything to one of its ports: a
      packet that comes in leaves by that port, once, with its address and without a state. */
  lemma ForwardedAcross(ps: seq<Participant>, k: nat, i: nat, l: nat, j: nat, packet: Packet, q: Packet)
    requires NamesDistinct(ps) && PortsDistinct(ps) && k < |ps| && i < |ps[k].physPorts|
    requires l < |ps| && l != k && j < |ps[l].physPorts|
    requires "inport" in packet && packet["inport"] == ps[k].physPorts[i].id
    requires Fwd(AddedAll(ps), Virtual(ps[l].id)) == Some(ps[k].policies)
    requires Fwd(AddedAll(ps), Physical(ps[l].physPorts[j])) == Some(ps[l].policies)
    ensures Valid(AddedAll(ps))
    ensures Delivered(AddedAll(ps), packet, q) <==>
            var port := ps[l].physPorts[j];
            q == packet["state" := NoValue]["dstmac" := port.mac]["outport" := port.id]
  {
    var x, port := AddedAll(ps), ps[l].physPorts[j];
    BuiltPlatformDelivers(ps, k, i, packet, q);
    StateOfPort(ps, l, j);
    var a := packet["state" := Text(InVar(ps[l].id))];
    var m := packet["state" := Text(InVar(ps[k].id))];
    FwdMeaning(x, Virtual(ps[l].id), m);
    FwdMeaning(x, Physical(port), a);
    assert m["state" := Text(InVar(ps[l].id))] == a;
    hide AddedAll, Fwd, Delivered, Eval, NamesDistinct, PortsDistinct, OutVar, InVar;
    var r := a["state" := Text(OutVar(ps[l].id, j))]["dstmac" := port.mac];
    assert Eval(ps[l].policies, a) == {r};
    PassedToOne(ps, l, j, a, r, q);
    StateIsCleared(packet, Text(InVar(ps[l].id)), Text(OutVar(ps[l].id, j)), port);
  }

  lemma StateIsCleared(packet: Packet, u: Value, v: Value, port: PhysicalPort)
    ensures packet["state" := u]["state" := v]["dstmac" := port.mac]["state" := NoValue]["outport" := port.id] ==
            packet["state" := NoValue]["dstmac" := port.mac]["outport" := port.id]
  {
  }

  lemma PassedToOne(ps: seq<Participant>, l: nat, j: nat, a: Packet, r: Packet, q: Packet)
    requires NamesDistinct(ps) && l < |ps| && j < |ps[l].physPorts|
    requires InState(a, InVar(ps[l].id)) && Eval(ps[l].policies, a) == {r} && InState(r, OutVar(ps[l].id, j))
    ensures PassedOnAmong(ps, {a}, q) <==> q == r["state" := NoValue]["outport" := ps[l].physPorts[j].id]
  {
    hide Eval;
    forall m: nat | m < |ps|
      ensures InState(a, InVar(ps[m].id)) <==> m == l
    {
      InVarInjective(ps[l].id, ps[m].id);
    }
    forall m: nat, n: nat | m < |ps|
      ensures !InState(a, OutVar(ps[m].id, n))
      ensures InState(r, OutVar(ps[m].id, n)) <==> m == l && n == j
    {
      InIsNotOut(ps[l].id, ps[m].id, n);
      OutVarInjective(ps[l].id, j, ps[m].id, n);
    }
    hide InVar, OutVar, Upper, InState, NamesDistinct;
    assert forall b: Packet :: HandledBy(ps, a, b) <==> b == r;
    assert !LeavesBy(ps, a, q);
    assert LeavesBy(ps, r, q) <==> q == r["state" := NoValue]["outport" := ps[l].physPorts[j].id];
  }

  lemma BuiltIsDistinct(ps: seq<Participant>, k: nat, i: nat)
    requires NamesDistinct(ps) && PortsDistinct(ps) && k < |ps| && i < |ps[k].physPorts|
    ensures var x := AddedAll(ps);
            && CaseDistinct(x)
            && forall other | other in x.participants ::
                 HasPort(x.participants[other].physPorts, ps[k].physPorts[i].id) <==> other == ps[k].id
  {
    ParticipantsOf(ps);
    hide AddedAll, Upper;
    var x := AddedAll(ps);
    forall a, b
      | a in x.participants && b in x.participants && Upper(x.participants[a].id) == Upper(x.participants[b].id)
      ensures a == b
    {
      var m: nat :| m < |ps| && a == ps[m].id;
      var n: nat :| n < |ps| && b == ps[n].id;
      assert m == n;
    }
    forall other | other in x.participants
      ensures HasPort(x.participants[other].physPorts, ps[k].physPorts[i].id) <==> other == ps[k].id
    {
      var m: nat :| m < |ps| && other == ps[m].id;
    }
  }
}
/** The meaning of the policies that the exchange composes: a policy maps a packet to a set of
    packets. */
module Pyretic {
  import opened Partition

  datatype Value = NoValue | Text(text: string) | Mac(address: nat)

  /** A packet's headers, with the state that the exchange keeps in a virtual one. */
  type Packet = map<string, Value>

  datatype Policy =
    | Passthrough
    | NoPackets
    | Match(field: string, value: Value)
    | MatchPrefixesSet(pfxes: set<Prefix>)
    | Modify(field: string, value: Value)
    | Parallel(policies: seq<Policy>)
    | Sequential(policies: seq<Policy>)
    | If(pred: Policy, tBranch: Policy, fBranch: Policy)

  /** The packet's destination lies in one of the prefixes: `dstip` names the prefix it falls in. */
  predicate InPrefixes(packet: Packet, pfxes: set<Prefix>) {
    "dstip" in packet && packet["dstip"].Text? && packet["dstip"].text in pfxes
  }

  ghost function Eval(policy: Policy, packet: Packet): set<Packet>
    decreases policy, 0
  {
    match policy
    case Passthrough => {packet}
    case NoPackets => {}
    case Match(field, value) => if field in packet && packet[field] == value then {packet} else {}
    case MatchPrefixesSet(pfxes) => if InPrefixes(packet, pfxes) then {packet} else {}
    case Modify(field, value) => {packet[field := value]}
    case Parallel(ps) => EvalParallel(ps, packet)
    case Sequential(ps) => EvalSequential(ps, packet)
    case If(pred, t, f) => if Eval(pred, packet) != {} then Eval(t, packet) else Eval(f, packet)
  }

  ghost function EvalParallel(ps: seq<Policy>, packet: Packet): set<Packet>
    decreases ps, 1
  {
    if ps == [] then {} else Eval(ps[0], packet) + EvalParallel(ps[1..], packet)
  }

  ghost function EvalSequential(ps: seq<Policy>, packet: Packet): set<Packet>
    decreases ps, 1
  {
    if ps == [] then {packet} else EvalAll(ps[1..], Eval(ps[0], packet))
  }

  /** The rest of a sequence, run on every packet that has come this far. */
  ghost function EvalAll(ps: seq<Policy>, packets: set<Packet>): set<Packet>
    decreases ps, 2
  {
    set q, r | q in packets && r in EvalSequential(ps, q) :: r
  }

  lemma {:induction false} ParallelHas(ps: seq<Policy>, packet: Packet, q: Packet)
    ensures q in EvalParallel(ps, packet) <==> exists i :: 0 <= i < |ps| && q in Eval(ps[i], packet)
  {
    if ps != [] {
      ParallelHas(ps[1..], packet, q);
      if i :| 0 <= i < |ps[1..]| && q in Eval(ps[1..][i], packet) {
        assert ps[1..][i] == ps[i + 1];
      }
      if i :| 0 <= i < |ps| && q in Eval(ps[i], packet) {
        assert i > 0 ==> ps[i] == ps[1..][i - 1];
      }
    }
  }

  lemma ParallelOfTwo(a: Policy, b: Policy, packet: Packet)
    ensures Eval(Parallel([a, b]), packet) == Eval(a, packet) + Eval(b, packet)
  {
    assert [a, b][1..] == [b] && [b][1..] == [];
    assert EvalParallel([b], packet) == Eval(b, packet) + EvalParallel([], packet);
  }

  lemma SequentialHas(first: Policy, rest: seq<Policy>, packet: Packet, r: Packet)
    ensures r in EvalSequential([first] + rest, packet) <==>
            exists q :: q in Eval(first, packet) && r in EvalSequential(rest, q)
  {
    var ps, qs := [first] + rest, Eval(first, packet);
    assert ps[1..] == rest;
    assert EvalSequential(ps, packet) == EvalAll(rest, qs);
    assert r in EvalAll(rest, qs) <==> exists q :: q in qs && r in EvalSequential(rest, q);
  }

  lemma SequentialStep(first: Policy, second: Policy, packet: Packet, q: Packet, r: Packet)
    requires q in Eval(first, packet) && r in Eval(second, q)
    ensures r in Eval(Sequential([first, second]), packet)
  {
    SequentialOfTwo(first, second, packet, r);
  }

  lemma SequentialOfOne(only: Policy, packet: Packet)
    ensures EvalSequential([only], packet) == Eval(only, packet)
  {
    forall r
      ensures r in EvalSequential([only], packet) <==> r in Eval(only, packet)
    {
      SequentialHas(only, [], packet, r);
      assert [only] + [] == [only];
      assert r in EvalSequential([], r);
    }
  }

  lemma SequentialOfTwo(first: Policy, second: Policy, packet: Packet, r: Packet)
    ensures r in Eval(Sequential([first, second]), packet) <==>
            exists q :: q in Eval(first, packet) && r in Eval(second, q)
  {
    SequentialHas(first, [second], packet, r);
    assert [first] + [second] == [first, second];
    forall q | q in Eval(first, packet)
      ensures EvalSequential([second], q) == Eval(second, q)
    {
      SequentialOfOne(second, q);
    }
  }
}

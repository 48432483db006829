/** The loop of `parse_lines` (crates/proxy-core/src/parser.rs), over whatever reads one line. */
module LineLoop {
  import opened Wrappers
  import opened Model
  import Lists
  import Utf8

  type Reader = string -> Outcome<ProxyNode>

  /** Nodes in order, and how many lines gave none. */
  datatype Parsed = Parsed(nodes: seq<ProxyNode>, skipped: nat)

  const MAX_LINE: nat := 1024 * 1024

  predicate IsTooLong(line: string) {
    Utf8.Size(line) > MAX_LINE
  }

  /** What looking at one line brings: a node, a skipped line, or a panic. */
  datatype Look = Found(node: ProxyNode) | Skipped | Panicked

  function LookAt(read: Reader, line: string): Look {
    if IsTooLong(line) then Skipped
    else match read(line)
         case Done(n) => Found(n)
         case Failed(_) => Skipped
         case Panic => Panicked
  }

  function LookAll(read: Reader, lines: seq<string>): (r: seq<Look>)
    ensures |r| == |lines| && forall i :: 0 <= i < |r| ==> r[i] == LookAt(read, lines[i])
  {
    seq(|lines|, i requires 0 <= i < |lines| => LookAt(read, lines[i]))
  }

  function AsList(look: Look): seq<ProxyNode> {
    if look.Found? then [look.node] else []
  }

  /** Every node that was found. */
  function Nodes(looks: seq<Look>): (r: seq<ProxyNode>)
    ensures |r| <= |looks|
  {
    if looks == [] then [] else AsList(looks[0]) + Nodes(looks[1..])
  }

  /** How many lines are looked at before `max` nodes are there. */
  function Consumed(looks: seq<Look>, max: nat): (k: nat)
    ensures k <= |looks|
  {
    if max == 0 || looks == [] then 0
    else 1 + Consumed(looks[1..], max - |AsList(looks[0])|)
  }

  /** What `parse_lines` means: the nodes of the lines that are looked at; a panic in one of them is a panic. */
  function FirstNodes(looks: seq<Look>, max: nat): Outcome<Parsed> {
    var seen := looks[..Consumed(looks, max)];
    if exists i :: 0 <= i < |seen| && seen[i] == Panicked then Panic
    else Done(Parsed(Nodes(seen), |seen| - |Nodes(seen)|))
  }

  lemma TailOfConcat(a: seq<Look>, b: seq<Look>)
    requires a != []
    ensures a + b != [] && (a + b)[0] == a[0] && (a + b)[1..] == a[1..] + b
  {
  }

  lemma {:induction false} NodesOfConcat(a: seq<Look>, b: seq<Look>)
    ensures Nodes(a + b) == Nodes(a) + Nodes(b)
  {
    if a == [] {
      assert a + b == b;
    } else {
      NodesOfConcat(a[1..], b);
      TailOfConcat(a, b);
      Lists.Associative(AsList(a[0]), Nodes(a[1..]), Nodes(b));
    }
  }

  lemma NodesStep(looks: seq<Look>, i: nat)
    requires i < |looks|
    ensures Nodes(looks[..i + 1]) == Nodes(looks[..i]) + AsList(looks[i])
  {
    var last := [looks[i]];
    assert looks[..i + 1] == looks[..i] + last;
    NodesOfConcat(looks[..i], last);
    assert last[1..] == [];
  }

  lemma ConsumedStep(looks: seq<Look>, i: nat, max: nat)
    requires i < |looks| && max > 0
    ensures Consumed(looks[i..], max) == 1 + Consumed(looks[i + 1..], max - |AsList(looks[i])|)
  {
    assert looks[i..][1..] == looks[i + 1..];
  }

  /** The state of the loop in front of line `i`. */
  predicate Reached(looks: seq<Look>, max: nat, i: nat, nodes: seq<ProxyNode>) {
    && i <= |looks| && |nodes| <= max
    && nodes == Nodes(looks[..i])
    && Consumed(looks, max) == i + Consumed(looks[i..], max - |nodes|)
  }

  lemma BeforeFirstLook(looks: seq<Look>, max: nat)
    ensures Reached(looks, max, 0, [])
  {
    assert looks[0..] == looks && looks[..0] == [];
  }

  lemma Step(looks: seq<Look>, max: nat, i: nat, nodes: seq<ProxyNode>)
    requires Reached(looks, max, i, nodes) && i < |looks| && |nodes| < max
    ensures Reached(looks, max, i + 1, nodes + AsList(looks[i]))
    ensures i < Consumed(looks, max)
  {
    NodesStep(looks, i);
    ConsumedStep(looks, i, max - |nodes|);
  }

  lemma End(looks: seq<Look>, max: nat, i: nat, nodes: seq<ProxyNode>)
    requires Reached(looks, max, i, nodes) && (i == |looks| || |nodes| == max)
    requires forall j :: 0 <= j < i ==> looks[j] != Panicked
    ensures FirstNodes(looks, max) == Done(Parsed(nodes, i - |nodes|))
  {
    assert i == Consumed(looks, max);
  }

  lemma Stop(looks: seq<Look>, max: nat, i: nat)
    requires i < Consumed(looks, max) && looks[i] == Panicked
    ensures FirstNodes(looks, max) == Panic
  {
    assert looks[..Consumed(looks, max)][i] == Panicked;
  }

  /** `parse_lines` over the lines of a text */
  method ReadLines(read: Reader, lines: seq<string>, max: nat) returns (r: Outcome<Parsed>)
    ensures r == FirstNodes(LookAll(read, lines), max)
  {
    var nodes, skipped := [], 0;
    var i := 0;
    ghost var looks := LookAll(read, lines);
    BeforeFirstLook(looks, max);
    while i < |lines|
      invariant Reached(looks, max, i, nodes) && skipped + |nodes| == i
      invariant forall j :: 0 <= j < i ==> looks[j] != Panicked
    {
      if |nodes| >= max {
        break;
      }
      Step(looks, max, i, nodes);
      assert looks[i] == LookAt(read, lines[i]);
      if IsTooLong(lines[i]) {
        skipped := skipped + 1;
      } else {
        match read(lines[i]) {
          case Done(n) => nodes := nodes + [n];
          case Failed(_) => skipped := skipped + 1;
          case Panic =>
            Stop(looks, max, i);
            return Panic;
        }
      }
      i := i + 1;
    }
    End(looks, max, i, nodes);
    return Done(Parsed(nodes, skipped));
  }

  function FirstOf<T>(s: seq<T>, n: nat): seq<T> {
    if |s| <= n then s else s[..n]
  }

  /** The loop returns the first `max` nodes of all the lines and stops right behind the last of them. */
  lemma {:induction false} FirstMax(looks: seq<Look>, max: nat)
    ensures var k := Consumed(looks, max);
            var nodes := Nodes(looks[..k]);
            && nodes == FirstOf(Nodes(looks), max)
            && (|nodes| < max ==> k == |looks|)
            && (|nodes| == max && k > 0 ==> looks[k - 1].Found?)
  {
    var k := Consumed(looks, max);
    if max == 0 || looks == [] {
      assert looks[..k] == [];
    } else {
      var rest := looks[1..];
      FirstMax(rest, max - |AsList(looks[0])|);
      assert looks[..k][1..] == rest[..k - 1];
      if k >= 2 {
        assert looks[k - 1] == rest[k - 2];
      }
    }
  }

  /** Nodes and skipped lines add up to the lines that were looked at, and there are never more than `max`
      nodes. */
  lemma EveryLineCounts(looks: seq<Look>, max: nat)
    requires FirstNodes(looks, max).Done?
    ensures var p := FirstNodes(looks, max).value;
            && |p.nodes| + p.skipped == Consumed(looks, max)
            && p.nodes == FirstOf(Nodes(looks), max)
            && |p.nodes| <= max
  {
    FirstMax(looks, max);
  }

  function FoundAll(nodes: seq<ProxyNode>): (r: seq<Look>)
    ensures |r| == |nodes|
  {
    seq(|nodes|, i requires 0 <= i < |nodes| => Found(nodes[i]))
  }

  lemma {:induction false} NodesOfFound(nodes: seq<ProxyNode>)
    ensures Nodes(FoundAll(nodes)) == nodes
  {
    if nodes != [] {
      NodesOfFound(nodes[1..]);
      assert FoundAll(nodes)[1..] == FoundAll(nodes[1..]);
    }
  }

  lemma {:induction false} ConsumedOfFound(nodes: seq<ProxyNode>, max: nat)
    ensures Consumed(FoundAll(nodes), max) == |FirstOf(nodes, max)|
  {
    if max > 0 && nodes != [] {
      ConsumedOfFound(nodes[1..], max - 1);
      assert FoundAll(nodes)[1..] == FoundAll(nodes[1..]);
    }
  }

  /** Lines that are all read: the first `max` nodes, nothing skipped. */
  lemma AllFound(nodes: seq<ProxyNode>, max: nat)
    ensures FirstNodes(FoundAll(nodes), max) == Done(Parsed(FirstOf(nodes, max), 0))
  {
    NodesOfFound(nodes);
    ConsumedOfFound(nodes, max);
    FirstMax(FoundAll(nodes), max);
  }
}

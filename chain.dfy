/** `walk_main_chain`: from the `root` node, follow the first child of every
    node and produce the nodes met on the way, stopping at a missing or empty
    node. A chain that comes back to a node it already produced never stops;
    the model reports that as `RunsForever`. */
module Chain {
  import opened Schema

  const RootId := "root"

  /** The loop yields the node stored under `id`: the id is not empty (a
      missing or null id is the empty string here) and `mapping.get(id)` is a
      non-empty node. */
  predicate Yields(m: map<string, Entry>, id: string) {
    id != "" && id in m && m[id].NodeDict?
  }

  /** `mapping.get(id)` when the loop yields it. */
  function Lookup(m: map<string, Entry>, id: string): (r: Option<Node>)
    ensures r.Some? <==> Yields(m, id)
  {
    if Yields(m, id) then Some(m[id].node) else None
  }

  /** The id the loop moves to after a node: its first child, or none. */
  function Next(n: Node): string {
    if n.children == [] then "" else n.children[0]
  }

  /** The first id the loop looks at: the first child of `root`, or none when
      `root` is missing, empty or has no children. */
  function Start(m: map<string, Entry>): string {
    if RootId in m && m[RootId].NodeDict? && m[RootId].node.children != [] then
      m[RootId].node.children[0]
    else ""
  }

  /** One turn of the loop on the id it looks at; once it has stopped it
      stays stopped. */
  function Step(m: map<string, Entry>, id: string): string {
    if Yields(m, id) then Next(m[id].node) else ""
  }

  /** The id the loop looks at after `k` turns from `id`. */
  function Iterate(m: map<string, Entry>, id: string, k: nat): string {
    if k == 0 then id else Step(m, Iterate(m, id, k - 1))
  }

  /** The ids of the first `k` turns from `id`. */
  function Seen(m: map<string, Entry>, id: string, k: nat): set<string> {
    if k == 0 then {} else Seen(m, id, k - 1) + {Iterate(m, id, k - 1)}
  }

  /** The nodes yielded from `id` on, given the ids `visited` already yielded
      on the way to `id`: meeting one of those again means a cycle. */
  function WalkFrom(m: map<string, Entry>, id: string, visited: set<string>): Run<seq<Node>>
    decreases m.Keys - visited
  {
    if !Yields(m, id) then Returns([])
    else if id in visited then RunsForever
    else
      match WalkFrom(m, Next(m[id].node), visited + {id})
      case RunsForever => RunsForever
      case Returns(rest) => Returns([m[id].node] + rest)
  }

  /** Everything `walk_main_chain(mapping)` yields, when it stops. */
  function MainChain(m: map<string, Entry>): Run<seq<Node>> {
    WalkFrom(m, Start(m), {})
  }

  /** `nodes` followed by what `r` yields. */
  function Prepend(nodes: seq<Node>, r: Run<seq<Node>>): Run<seq<Node>> {
    match r
    case RunsForever => RunsForever
    case Returns(rest) => Returns(nodes + rest)
  }

  /** `walk_main_chain(mapping)`, collected: the loop of the source, with the
      ids it has yielded kept so that a revisit is recognised as a cycle. */
  method WalkMainChain(m: map<string, Entry>) returns (r: Run<seq<Node>>)
    ensures r == MainChain(m)
  {
    if RootId !in m || m[RootId].EmptyDict? || m[RootId].node.children == [] {
      return Returns([]);
    }
    var id := m[RootId].node.children[0];
    var visited: set<string> := {};
    var nodes: seq<Node> := [];
    assert Start(m) == id;
    var walk := WalkFrom(m, id, visited);
    assert walk.Returns? ==> nodes + walk.value == walk.value;
    while id != ""
      invariant Prepend(nodes, WalkFrom(m, id, visited)) == MainChain(m)
      decreases m.Keys - visited
    {
      if id !in m || m[id].EmptyDict? {
        break;
      }
      if id in visited {
        return RunsForever;
      }
      var node := m[id].node;
      var rest := WalkFrom(m, Next(node), visited + {id});
      assert WalkFrom(m, id, visited) == Prepend([node], rest);
      assert rest.Returns? ==> nodes + ([node] + rest.value) == (nodes + [node]) + rest.value;
      nodes := nodes + [node];
      visited := visited + {id};
      id := if node.children == [] then "" else node.children[0];
    }
    assert nodes + [] == nodes;
    return Returns(nodes);
  }

  lemma {:induction false} IterateAdd(m: map<string, Entry>, id: string, a: nat, b: nat)
    ensures Iterate(m, id, a + b) == Iterate(m, Iterate(m, id, a), b)
    decreases b
  {
    if b > 0 {
      IterateAdd(m, id, a, b - 1);
    }
  }

  /** An id among the first `k` turns is the id of one of them. */
  lemma {:induction false} SeenMember(m: map<string, Entry>, id: string, k: nat, x: string)
    requires x in Seen(m, id, k)
    ensures exists j :: 0 <= j < k && Iterate(m, id, j) == x
    decreases k
  {
    if x != Iterate(m, id, k - 1) {
      SeenMember(m, id, k - 1, x);
    }
  }

  /** Coming back after `p` turns, the loop repeats itself: every turn from
      `j` on has the id of one of the `p` turns from `j` to `j + p - 1`. */
  lemma {:induction false} Periodic(m: map<string, Entry>, id: string, j: nat, p: nat, i: nat)
    returns (r: nat)
    requires 0 < p && j <= i && Iterate(m, id, j + p) == Iterate(m, id, j)
    ensures r < p && Iterate(m, id, i) == Iterate(m, id, j + r)
    decreases i
  {
    if i < j + p {
      r := i - j;
    } else {
      r := Periodic(m, id, j, p, i - p);
      calc {
        Iterate(m, id, i);
        { IterateAdd(m, id, i - p, p); }
        Iterate(m, Iterate(m, id, i - p), p);
        Iterate(m, Iterate(m, id, j + r), p);
        { IterateAdd(m, id, j + r, p); }
        Iterate(m, id, j + r + p);
        { assert j + r + p == (j + p) + r; IterateAdd(m, id, j + p, r); }
        Iterate(m, Iterate(m, id, j + p), r);
        Iterate(m, Iterate(m, id, j), r);
        { IterateAdd(m, id, j, r); }
        Iterate(m, id, j + r);
      }
    }
  }

  /** When turn `k` comes back to the id of an earlier turn and every turn
      before `k` yields, every turn whatsoever yields. */
  lemma CycleYieldsForever(m: map<string, Entry>, id: string, j: nat, k: nat)
    requires j < k && Iterate(m, id, k) == Iterate(m, id, j)
    requires forall i :: 0 <= i < k ==> Yields(m, Iterate(m, id, i))
    ensures forall i :: Yields(m, Iterate(m, id, i))
  {
    forall i: nat
      ensures Yields(m, Iterate(m, id, i))
    {
      if k <= i {
        var r := Periodic(m, id, j, k - j, i);
        assert Yields(m, Iterate(m, id, j + r));
      }
    }
  }

  /** What the walk yields from turn `k` on, having yielded at every earlier
      turn: it never stops exactly when every turn yields, and otherwise it
      yields the node of each turn from `k` on up to the first turn that does
      not yield. */
  lemma {:induction false} WalkFromTurns(m: map<string, Entry>, id: string, k: nat)
    requires forall i :: 0 <= i < k ==> Yields(m, Iterate(m, id, i))
    ensures var r := WalkFrom(m, Iterate(m, id, k), Seen(m, id, k));
      && (r.RunsForever? <==> forall i :: Yields(m, Iterate(m, id, i)))
      && (r.Returns? ==>
            && (forall i :: 0 <= i < |r.value| ==> Lookup(m, Iterate(m, id, k + i)) == Some(r.value[i]))
            && Lookup(m, Iterate(m, id, k + |r.value|)) == None)
    decreases m.Keys - Seen(m, id, k)
  {
    var x := Iterate(m, id, k);
    var r := WalkFrom(m, x, Seen(m, id, k));
    if !Yields(m, x) {
      assert r == Returns([]);
    } else if x in Seen(m, id, k) {
      SeenMember(m, id, k, x);
      var j :| 0 <= j < k && Iterate(m, id, j) == x;
      CycleYieldsForever(m, id, j, k);
    } else {
      assert Iterate(m, id, k + 1) == Next(m[x].node);
      assert Seen(m, id, k + 1) == Seen(m, id, k) + {x};
      WalkFromTurns(m, id, k + 1);
      var r' := WalkFrom(m, Iterate(m, id, k + 1), Seen(m, id, k + 1));
      assert r == Prepend([m[x].node], r');
      if r'.Returns? {
        ShiftTurns(m, id, k, m[x].node, r'.value);
      }
    }
  }

  /** Turn `k` yielding `n`, followed by the turns from `k + 1` on. */
  lemma ShiftTurns(m: map<string, Entry>, id: string, k: nat, n: Node, rest: seq<Node>)
    requires Lookup(m, Iterate(m, id, k)) == Some(n)
    requires forall i :: 0 <= i < |rest| ==> Lookup(m, Iterate(m, id, k + 1 + i)) == Some(rest[i])
    requires Lookup(m, Iterate(m, id, k + 1 + |rest|)) == None
    ensures var all := [n] + rest;
      && (forall i :: 0 <= i < |all| ==> Lookup(m, Iterate(m, id, k + i)) == Some(all[i]))
      && Lookup(m, Iterate(m, id, k + |all|)) == None
  {
    var all := [n] + rest;
    forall i | 0 <= i < |all|
      ensures Lookup(m, Iterate(m, id, k + i)) == Some(all[i])
    {
      if i > 0 {
        assert all[i] == rest[i - 1];
        assert k + i == k + 1 + (i - 1);
      }
    }
    assert k + |all| == k + 1 + |rest|;
  }

  /** The walk never stops exactly when every turn of the loop yields a
      node. */
  lemma MainChainForever(m: map<string, Entry>)
    ensures MainChain(m).RunsForever? <==> forall i :: Yields(m, Iterate(m, Start(m), i))
  {
    WalkFromTurns(m, Start(m), 0);
  }

  /** When the walk stops, it has yielded the node of each turn in turn order,
      and the turn after the last one does not yield. */
  lemma MainChainTurns(m: map<string, Entry>)
    requires MainChain(m).Returns?
    ensures var nodes := MainChain(m).value;
      && (forall i :: 0 <= i < |nodes| ==> Lookup(m, Iterate(m, Start(m), i)) == Some(nodes[i]))
      && Lookup(m, Iterate(m, Start(m), |nodes|)) == None
  {
    WalkFromTurns(m, Start(m), 0);
    assert Iterate(m, Start(m), 0) == Start(m) && Seen(m, Start(m), 0) == {};
    var nodes := MainChain(m).value;
    forall i | 0 <= i < |nodes|
      ensures Lookup(m, Iterate(m, Start(m), i)) == Some(nodes[i])
    {
      assert 0 + i == i;
    }
  }

  /** The chain in the terms of the mapping: the first node is the first
      child of `root`, each further node is the first child of the node
      before it, and the chain ends where that child is missing, empty or not
      given. */
  lemma ChainLinks(m: map<string, Entry>)
    requires MainChain(m).Returns?
    ensures var nodes := MainChain(m).value;
      && (nodes == [] ==> Lookup(m, Start(m)) == None)
      && (nodes != [] ==> Lookup(m, Start(m)) == Some(nodes[0]))
      && (forall i :: 0 <= i < |nodes| - 1 ==> Lookup(m, Next(nodes[i])) == Some(nodes[i + 1]))
      && (nodes != [] ==> Lookup(m, Next(nodes[|nodes| - 1])) == None)
  {
    MainChainTurns(m);
    var s := Start(m);
    var nodes := MainChain(m).value;
    forall i | 0 <= i < |nodes| - 1
      ensures Lookup(m, Next(nodes[i])) == Some(nodes[i + 1])
    {
      assert Iterate(m, s, i + 1) == Next(nodes[i]);
    }
    if nodes != [] {
      assert Iterate(m, s, |nodes|) == Next(nodes[|nodes| - 1]);
    }
  }

  /** A node whose first child is itself: the walk never stops. */
  lemma SelfLoopExample()
    ensures MainChain(map[RootId := NodeDict(Node(["a"], None)), "a" := NodeDict(Node(["a"], None))]).RunsForever?
  {
    var m := map[RootId := NodeDict(Node(["a"], None)), "a" := NodeDict(Node(["a"], None))];
    assert Start(m) == "a";
    assert WalkFrom(m, "a", {"a"}) == RunsForever;
    assert WalkFrom(m, "a", {}) == RunsForever;
  }

  /** A mapping without `root` yields nothing. */
  lemma NoRootExample(m: map<string, Entry>)
    requires RootId !in m
    ensures MainChain(m) == Returns([])
  {
  }
}

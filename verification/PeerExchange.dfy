/** Gossip of neighbour lists: every node shares its peers with its peers, and receivers dial the unknown ones. */
module PeerExchange {

  type Link = (string, string)
  type Graph = set<Link>

  /** Connections have two ends and never lead back to the same node. */
  ghost predicate Symmetric(g: Graph) {
    && (forall u, v | (u, v) in g :: (v, u) in g)
    && (forall u, v | (u, v) in g :: u != v)
  }

  function Neighbours(g: Graph, u: string): set<string> {
    set l | l in g && l.0 == u :: l.1
  }

  lemma NeighbourIff(g: Graph, u: string, v: string)
    ensures v in Neighbours(g, u) <==> (u, v) in g
  {
  }

  datatype Msg = Exchange(from: string, to: string, peers: set<string>)

  /** The messages node `u` sends when it shares its peer list: to each peer, all the others. */
  function Outgoing(u: string, connected: set<string>): set<Msg> {
    set v | v in connected && connected - {v} != {} :: Exchange(u, v, connected - {v})
  }

  /** The peers in a message that the receiver does not know yet. */
  function Unknown(m: Msg, connected: set<string>): set<string> {
    m.peers - {m.to} - connected
  }

  function Dial(g: Graph, v: string, reached: set<string>): Graph {
    g + (set w | w in reached :: (v, w)) + (set w | w in reached :: (w, v))
  }

  lemma DialIff(g: Graph, v: string, reached: set<string>, x: string, y: string)
    ensures (x, y) in Dial(g, v, reached) <==> (x, y) in g || (x == v && y in reached) || (y == v && x in reached)
  {
  }

  // ---------------------------------------------------------------- asynchronous runs

  /** Links that are up, and every message ever sent: delivery may be late, out of order or repeated. */
  datatype Net = Net(links: Graph, msgs: set<Msg>)

  datatype Step =
    | Share(u: string)                          // the periodic timer, or a cascade after a successful dial
    | Deliver(m: Msg, reached: set<string>)     // some of the dials succeed
    | Drop(u: string, v: string)                // a connection is lost

  ghost predicate Enabled(n: Net, step: Step) {
    match step
    case Share(_) => true
    case Deliver(m, reached) => m in n.msgs && reached <= Unknown(m, Neighbours(n.links, m.to))
    case Drop(_, _) => true
  }

  function Next(n: Net, step: Step): Net {
    match step
    case Share(u) => n.(msgs := n.msgs + Outgoing(u, Neighbours(n.links, u)))
    case Deliver(m, reached) => n.(links := Dial(n.links, m.to, reached))
    case Drop(u, v) => n.(links := n.links - {(u, v), (v, u)})
  }

  function Run(n: Net, steps: seq<Step>): Net {
    if steps == [] then n else Next(Run(n, steps[..|steps| - 1]), steps[|steps| - 1])
  }

  ghost predicate Allowed(n: Net, steps: seq<Step>) {
    forall i | 0 <= i < |steps| :: Enabled(Run(n, steps[..i]), steps[i])
  }

  // ---------------------------------------------------------------- paths

  ghost predicate Path(g: Graph, p: seq<string>, u: string, v: string) {
    |p| > 0 && p[0] == u && p[|p| - 1] == v && forall i | 0 <= i < |p| - 1 :: (p[i], p[i + 1]) in g
  }

  /** `u` and `v` are in the same component. */
  ghost predicate Reach(g: Graph, u: string, v: string) {
    exists p :: Path(g, p, u, v)
  }

  lemma ReachSelf(g: Graph, u: string)
    ensures Reach(g, u, u)
  {
    assert Path(g, [u], u, u);
  }

  lemma ReachLink(g: Graph, u: string, v: string)
    requires (u, v) in g
    ensures Reach(g, u, v)
  {
    assert Path(g, [u, v], u, v);
  }

  lemma PathConcat(g: Graph, p: seq<string>, q: seq<string>, u: string, v: string, w: string)
    requires Path(g, p, u, v) && Path(g, q, v, w)
    ensures Path(g, p + q[1..], u, w)
  {
  }

  lemma ReachTrans(g: Graph, u: string, v: string, w: string)
    requires Reach(g, u, v) && Reach(g, v, w)
    ensures Reach(g, u, w)
  {
    var p :| Path(g, p, u, v);
    var q :| Path(g, q, v, w);
    PathConcat(g, p, q, u, v, w);
  }

  lemma {:induction false} ReachFlip(g: Graph, p: seq<string>, u: string, v: string)
    requires Symmetric(g) && Path(g, p, u, v)
    ensures Reach(g, v, u)
    decreases |p|
  {
    if |p| == 1 {
      ReachSelf(g, u);
    } else {
      assert (p[0], p[1]) in g;
      ReachFlip(g, p[1..], p[1], v);
      ReachLink(g, p[1], u);
      ReachTrans(g, v, p[1], u);
    }
  }

  lemma ReachSym(g: Graph, u: string, v: string)
    requires Symmetric(g) && Reach(g, u, v)
    ensures Reach(g, v, u)
  {
    var p :| Path(g, p, u, v);
    ReachFlip(g, p, u, v);
  }

  // ---------------------------------------------------------------- components are never joined

  /** All links, and everything in flight, stay within components of `g`. */
  ghost predicate Within(g: Graph, n: Net) {
    && (forall u, v | (u, v) in n.links :: Reach(g, u, v))
    && (forall m, w | m in n.msgs && w in m.peers :: Reach(g, m.to, w))
  }

  lemma ShareStaysWithin(g: Graph, n: Net, u: string)
    requires Symmetric(g) && Within(g, n)
    ensures Within(g, Next(n, Share(u)))
  {
    forall m, w | m in Outgoing(u, Neighbours(n.links, u)) && w in m.peers
      ensures Reach(g, m.to, w)
    {
      NeighbourIff(n.links, u, m.to);
      NeighbourIff(n.links, u, w);
      ReachSym(g, u, m.to);
      ReachTrans(g, m.to, u, w);
    }
  }

  lemma DeliverStaysWithin(g: Graph, n: Net, m: Msg, reached: set<string>)
    requires Symmetric(g) && Within(g, n) && Enabled(n, Deliver(m, reached))
    ensures Within(g, Next(n, Deliver(m, reached)))
  {
    forall x, y | (x, y) in Dial(n.links, m.to, reached)
      ensures Reach(g, x, y)
    {
      DialIff(n.links, m.to, reached, x, y);
      if (x, y) !in n.links {
        if x == m.to && y in reached {
        } else {
          ReachSym(g, m.to, x);
        }
      }
    }
  }

  /**
   * No dial ever joins two components: in every run, with failed dials, lost links and late or repeated
   * messages, two nodes that are linked were in the same component at the start.
   */
  lemma {:induction false} ComponentsNeverJoin(g: Graph, steps: seq<Step>)
    requires Symmetric(g) && Allowed(Net(g, {}), steps)
    ensures Within(g, Run(Net(g, {}), steps))
  {
    var n0 := Net(g, {});
    if steps == [] {
      forall u, v | (u, v) in g
        ensures Reach(g, u, v)
      {
        ReachLink(g, u, v);
      }
    } else {
      var init, last := steps[..|steps| - 1], steps[|steps| - 1];
      assert forall i | 0 <= i < |init| :: init[..i] == steps[..i] && init[i] == steps[i];
      ComponentsNeverJoin(g, init);
      assert Enabled(Run(n0, init), last);
      match last
      case Share(u) => ShareStaysWithin(g, Run(n0, init), u);
      case Deliver(m, reached) => DeliverStaysWithin(g, Run(n0, init), m, reached);
      case Drop(u, v) =>
    }
  }

  /** Links within components add no reachability. */
  lemma {:induction false} ReachWithin(g: Graph, h: Graph, p: seq<string>, u: string, v: string)
    requires (forall x, y | (x, y) in h :: Reach(g, x, y)) && Path(h, p, u, v)
    ensures Reach(g, u, v)
    decreases |p|
  {
    if |p| == 1 {
      ReachSelf(g, u);
    } else {
      assert (p[0], p[1]) in h;
      ReachWithin(g, h, p[1..], p[1], v);
      ReachTrans(g, u, p[1], v);
    }
  }

  lemma {:induction false} LinksGrow(n: Net, steps: seq<Step>)
    requires forall i | 0 <= i < |steps| :: !steps[i].Drop?
    ensures n.links <= Run(n, steps).links
    decreases |steps|
  {
    if steps != [] { LinksGrow(n, steps[..|steps| - 1]); }
  }

  /** While no connection is lost, the components are exactly those of the start. */
  lemma ComponentsPreserved(g: Graph, steps: seq<Step>, u: string, v: string)
    requires Symmetric(g) && Allowed(Net(g, {}), steps) && forall i | 0 <= i < |steps| :: !steps[i].Drop?
    ensures Reach(Run(Net(g, {}), steps).links, u, v) <==> Reach(g, u, v)
  {
    var h := Run(Net(g, {}), steps).links;
    ComponentsNeverJoin(g, steps);
    LinksGrow(Net(g, {}), steps);
    if Reach(h, u, v) {
      var p :| Path(h, p, u, v);
      ReachWithin(g, h, p, u, v);
    }
    if Reach(g, u, v) {
      var p :| Path(g, p, u, v);
      assert Path(h, p, u, v);
    }
  }

  // ---------------------------------------------------------------- synchronous rounds

  /** Everything sent when all nodes share at once. */
  ghost predicate SentIn(g: Graph, m: Msg) {
    m in Outgoing(m.from, Neighbours(g, m.from))
  }

  /** The list holds every message of a round, in any order, possibly more than once. */
  ghost predicate RoundTraffic(g: Graph, ms: seq<Msg>) {
    && (forall i | 0 <= i < |ms| :: SentIn(g, ms[i]))
    && (forall m | SentIn(g, m) :: m in ms)
  }

  /** Handle the messages one after the other, every dial succeeding. */
  function HandleAll(g: Graph, ms: seq<Msg>): Graph {
    if ms == [] then g
    else
      var h := HandleAll(g, ms[..|ms| - 1]);
      var m := ms[|ms| - 1];
      Dial(h, m.to, Unknown(m, Neighbours(h, m.to)))
  }

  /** Two nodes are linked after the messages iff they were before, or one was told of the other. */
  lemma {:induction false} HandleAllIff(g: Graph, ms: seq<Msg>, x: string, y: string)
    requires Symmetric(g)
    ensures (x, y) in HandleAll(g, ms) <==>
            (x, y) in g || (x != y && exists m :: m in ms && ((m.to == x && y in m.peers) || (m.to == y && x in m.peers)))
    decreases |ms|
  {
    if ms != [] {
      var init, m := ms[..|ms| - 1], ms[|ms| - 1];
      var h := HandleAll(g, init);
      HandleAllIff(g, init, x, y);
      HandleAllIff(g, init, y, x);
      DialIff(h, m.to, Unknown(m, Neighbours(h, m.to)), x, y);
      NeighbourIff(h, m.to, x);
      NeighbourIff(h, m.to, y);
      assert forall k :: k in ms <==> k in init || k == m;
    }
  }

  /** Distance at most two. */
  ghost predicate Near(g: Graph, x: string, y: string) {
    (x, y) in g || (x != y && exists u :: (x, u) in g && (u, y) in g)
  }

  /** One round squares the connection graph, in whatever order its messages are handled. */
  lemma RoundSquares(g: Graph, ms: seq<Msg>, x: string, y: string)
    requires Symmetric(g) && RoundTraffic(g, ms)
    ensures (x, y) in HandleAll(g, ms) <==> Near(g, x, y)
  {
    HandleAllIff(g, ms, x, y);
    if x != y && (exists m :: m in ms && ((m.to == x && y in m.peers) || (m.to == y && x in m.peers))) {
      var m :| m in ms && ((m.to == x && y in m.peers) || (m.to == y && x in m.peers));
      NeighbourIff(g, m.from, x);
      NeighbourIff(g, m.from, y);
      assert (x, m.from) in g && (m.from, y) in g;
    }
    if x != y && (exists u :: (x, u) in g && (u, y) in g) {
      var u :| (x, u) in g && (u, y) in g;
      NeighbourIff(g, u, x);
      NeighbourIff(g, u, y);
      var m := Exchange(u, x, Neighbours(g, u) - {x});
      assert y in m.peers;
      assert SentIn(g, m);
    }
  }

  lemma RoundStaysSymmetric(g: Graph, ms: seq<Msg>)
    requires Symmetric(g) && RoundTraffic(g, ms)
    ensures Symmetric(HandleAll(g, ms))
  {
    forall x, y | (x, y) in HandleAll(g, ms)
      ensures (y, x) in HandleAll(g, ms) && x != y
    {
      RoundSquares(g, ms, x, y);
      RoundSquares(g, ms, y, x);
    }
  }

  /** Consecutive synchronous rounds, each with its own traffic. */
  ghost predicate Rounds(gs: seq<Graph>, traffic: seq<seq<Msg>>) {
    && |gs| == |traffic| + 1 && Symmetric(gs[0])
    && forall i | 0 <= i < |traffic| :: RoundTraffic(gs[i], traffic[i]) && gs[i + 1] == HandleAll(gs[i], traffic[i])
  }

  function Pow2(r: nat): nat {
    if r == 0 then 1 else 2 * Pow2(r - 1)
  }

  lemma {:induction false} RoundsSymmetric(gs: seq<Graph>, traffic: seq<seq<Msg>>, r: nat)
    requires Rounds(gs, traffic) && r < |gs|
    ensures Symmetric(gs[r])
  {
    if r > 0 {
      RoundsSymmetric(gs, traffic, r - 1);
      RoundStaysSymmetric(gs[r - 1], traffic[r - 1]);
    }
  }

  /** A path of at most 2^r links becomes a direct connection within r rounds. */
  lemma {:induction false} PathCollapses(gs: seq<Graph>, traffic: seq<seq<Msg>>, r: nat, p: seq<string>, u: string, v: string)
    requires Rounds(gs, traffic) && r < |gs| && Path(gs[0], p, u, v) && |p| - 1 <= Pow2(r)
    ensures u == v || (u, v) in gs[r]
    decreases r
  {
    if r == 0 {
      if |p| == 2 { assert (p[0], p[1]) in gs[0]; }
    } else {
      var mid := (|p| - 1) / 2;
      PathCollapses(gs, traffic, r - 1, p[..mid + 1], u, p[mid]);
      PathCollapses(gs, traffic, r - 1, p[mid..], p[mid], v);
      RoundsSymmetric(gs, traffic, r - 1);
      RoundSquares(gs[r - 1], traffic[r - 1], u, v);
    }
  }

  /** A direct connection after r rounds comes from a path of at most 2^r links. */
  lemma {:induction false} LinkHasPath(gs: seq<Graph>, traffic: seq<seq<Msg>>, r: nat, u: string, v: string) returns (p: seq<string>)
    requires Rounds(gs, traffic) && r < |gs| && (u, v) in gs[r]
    ensures Path(gs[0], p, u, v) && |p| - 1 <= Pow2(r)
    decreases r
  {
    if r == 0 {
      p := [u, v];
    } else {
      RoundsSymmetric(gs, traffic, r - 1);
      RoundSquares(gs[r - 1], traffic[r - 1], u, v);
      if (u, v) in gs[r - 1] {
        p := LinkHasPath(gs, traffic, r - 1, u, v);
      } else {
        var w :| (u, w) in gs[r - 1] && (w, v) in gs[r - 1];
        var a := LinkHasPath(gs, traffic, r - 1, u, w);
        var b := LinkHasPath(gs, traffic, r - 1, w, v);
        PathConcat(gs[0], a, b, u, w, v);
        p := a + b[1..];
      }
    }
  }

  /** After r rounds two nodes are directly connected iff a path of at most 2^r links joined them at the start. */
  lemma RoundsReachExactly(gs: seq<Graph>, traffic: seq<seq<Msg>>, r: nat, u: string, v: string)
    requires Rounds(gs, traffic) && r < |gs| && u != v
    ensures (u, v) in gs[r] <==> exists p :: Path(gs[0], p, u, v) && |p| - 1 <= Pow2(r)
  {
    if (u, v) in gs[r] {
      var p := LinkHasPath(gs, traffic, r, u, v);
    }
    forall p | Path(gs[0], p, u, v) && |p| - 1 <= Pow2(r)
      ensures (u, v) in gs[r]
    {
      PathCollapses(gs, traffic, r, p, u, v);
    }
  }

  // ---------------------------------------------------------------- cliques, and how soon

  /** No message of a round would cause a dial. */
  ghost predicate Quiet(g: Graph) {
    forall m | SentIn(g, m) :: Unknown(m, Neighbours(g, m.to)) == {}
  }

  /** A disjoint union of cliques. */
  ghost predicate Cliques(g: Graph) {
    forall u, v | u != v && Reach(g, u, v) :: (u, v) in g
  }

  lemma {:induction false} QuietPath(g: Graph, p: seq<string>, u: string, v: string)
    requires Symmetric(g) && Quiet(g) && Path(g, p, u, v)
    ensures u == v || (u, v) in g
    decreases |p|
  {
    if |p| > 1 {
      var w := p[1];
      assert (p[0], p[1]) in g;
      QuietPath(g, p[1..], w, v);
      if u != v && w != v {
        NeighbourIff(g, w, u);
        NeighbourIff(g, w, v);
        NeighbourIff(g, u, v);
        var m := Exchange(w, u, Neighbours(g, w) - {u});
        assert v in m.peers;
        assert SentIn(g, m);
        assert v !in Unknown(m, Neighbours(g, u));
      }
    }
  }

  /** Exchange stops dialling exactly when every component is a clique. */
  lemma QuietIffCliques(g: Graph)
    requires Symmetric(g)
    ensures Quiet(g) <==> Cliques(g)
  {
    if Quiet(g) {
      forall u, v | u != v && Reach(g, u, v)
        ensures (u, v) in g
      {
        var p :| Path(g, p, u, v);
        QuietPath(g, p, u, v);
      }
    }
    if Cliques(g) {
      forall m | SentIn(g, m)
        ensures Unknown(m, Neighbours(g, m.to)) == {}
      {
        forall w | w in m.peers && w != m.to
          ensures w in Neighbours(g, m.to)
        {
          NeighbourIff(g, m.from, m.to);
          NeighbourIff(g, m.from, w);
          NeighbourIff(g, m.to, w);
          assert Path(g, [m.to, m.from, w], m.to, w);
        }
      }
    }
  }

  ghost predicate On(g: Graph, nodes: set<string>) {
    forall u, v | (u, v) in g :: u in nodes && v in nodes
  }

  /** Pairs of distinct nodes without a connection. */
  function Missing(g: Graph, nodes: set<string>): set<Link> {
    set u, v | u in nodes && v in nodes && u != v && (u, v) !in g :: (u, v)
  }

  /** Every delivery that reaches a new peer strictly reduces the missing connections. */
  lemma DialShrinksMissing(n: Net, m: Msg, reached: set<string>, nodes: set<string>)
    requires Enabled(n, Deliver(m, reached)) && reached != {} && m.to in nodes && m.peers <= nodes
    ensures |Missing(Next(n, Deliver(m, reached)).links, nodes)| < |Missing(n.links, nodes)|
  {
    var before, after := Missing(n.links, nodes), Missing(Next(n, Deliver(m, reached)).links, nodes);
    assert after <= before;
    var w :| w in reached;
    NeighbourIff(n.links, m.to, w);
    assert (m.to, w) in before && (m.to, w) !in after;
    assert after <= before - {(m.to, w)};
    SubsetSize(after, before - {(m.to, w)});
  }

  lemma {:induction false} SubsetSize<T>(a: set<T>, b: set<T>)
    requires a <= b
    ensures |a| <= |b|
    decreases a
  {
    if a != {} {
      var x :| x in a;
      SubsetSize(a - {x}, b - {x});
    }
  }

  ghost predicate NetOn(n: Net, nodes: set<string>) {
    On(n.links, nodes) && forall m | m in n.msgs :: m.to in nodes && m.peers <= nodes
  }

  lemma StepStaysOn(n: Net, step: Step, nodes: set<string>)
    requires NetOn(n, nodes) && Enabled(n, step) && !step.Drop?
    ensures NetOn(Next(n, step), nodes)
  {
    if step.Share? {
      forall m | m in Outgoing(step.u, Neighbours(n.links, step.u))
        ensures m.to in nodes && m.peers <= nodes
      {
        NeighbourIff(n.links, step.u, m.to);
        forall w | w in m.peers ensures w in nodes { NeighbourIff(n.links, step.u, w); }
      }
    }
  }

  /** Deliveries of a run that reached somebody new. */
  function Dials(steps: seq<Step>): nat {
    if steps == [] then 0
    else
      var last := steps[|steps| - 1];
      Dials(steps[..|steps| - 1]) + if last.Deliver? && last.reached != {} then 1 else 0
  }

  /** Dialling ends: a run without losses has at most as many successful deliveries as connections were missing. */
  lemma {:induction false} DialsBounded(g: Graph, steps: seq<Step>, nodes: set<string>)
    requires On(g, nodes) && Allowed(Net(g, {}), steps) && forall i | 0 <= i < |steps| :: !steps[i].Drop?
    ensures NetOn(Run(Net(g, {}), steps), nodes)
    ensures Dials(steps) + |Missing(Run(Net(g, {}), steps).links, nodes)| <= |Missing(g, nodes)|
  {
    if steps != [] {
      var init, last := steps[..|steps| - 1], steps[|steps| - 1];
      assert forall i | 0 <= i < |init| :: init[..i] == steps[..i] && init[i] == steps[i];
      DialsBounded(g, init, nodes);
      var n := Run(Net(g, {}), init);
      assert Enabled(n, last) && !last.Drop?;
      StepStaysOn(n, last, nodes);
      if last.Deliver? {
        if last.reached == {} { assert Next(n, last).links == n.links; }
        else { DialShrinksMissing(n, last.m, last.reached, nodes); }
      }
    }
  }

  lemma {:induction false} Pigeonhole(p: seq<string>, nodes: set<string>) returns (i: nat, j: nat)
    requires (forall k | 0 <= k < |p| :: p[k] in nodes) && |p| > |nodes|
    ensures i < j < |p| && p[i] == p[j]
    decreases |p|
  {
    var last := |p| - 1;
    if k :| 0 <= k < last && p[k] == p[last] {
      i, j := k, last;
    } else {
      i, j := Pigeonhole(p[..last], nodes - {p[last]});
    }
  }

  /** Every reachable pair is joined by a path that visits no more nodes than there are. */
  lemma {:induction false} ShortPath(g: Graph, nodes: set<string>, p: seq<string>, u: string, v: string) returns (q: seq<string>)
    requires Path(g, p, u, v) && forall k | 0 <= k < |p| :: p[k] in nodes
    ensures Path(g, q, u, v) && |q| <= |nodes|
    decreases |p|
  {
    if |p| <= |nodes| {
      q := p;
    } else {
      var i, j := Pigeonhole(p, nodes);
      var shorter := p[..i] + p[j..];
      forall k | 0 <= k < |shorter| - 1
        ensures (shorter[k], shorter[k + 1]) in g
      {
        if k + 1 < i {
          assert (p[k], p[k + 1]) in g;
        } else if k + 1 == i {
          assert (p[k], p[k + 1]) in g;
          assert shorter[k + 1] == p[j];
        } else {
          assert (p[k - i + j], p[k - i + j + 1]) in g;
        }
      }
      q := ShortPath(g, nodes, shorter, u, v);
    }
  }

  /** Once 2^r reaches the number of nodes, r rounds have turned every component into a clique. */
  lemma LogarithmicClosure(gs: seq<Graph>, traffic: seq<seq<Msg>>, r: nat, nodes: set<string>)
    requires Rounds(gs, traffic) && r < |gs| && On(gs[0], nodes) && |nodes| <= Pow2(r)
    ensures forall u, v | u != v && Reach(gs[0], u, v) :: (u, v) in gs[r]
  {
    forall u, v | u != v && Reach(gs[0], u, v)
      ensures (u, v) in gs[r]
    {
      var p :| Path(gs[0], p, u, v);
      forall k | 0 <= k < |p|
        ensures p[k] in nodes
      {
        if k < |p| - 1 { assert (p[k], p[k + 1]) in gs[0]; } else { assert (p[k - 1], p[k]) in gs[0]; }
      }
      var q := ShortPath(gs[0], nodes, p, u, v);
      PathCollapses(gs, traffic, r, q, u, v);
    }
  }

  /** From then on no exchange causes a dial. */
  lemma ClosureIsQuiet(gs: seq<Graph>, traffic: seq<seq<Msg>>, r: nat, nodes: set<string>)
    requires Rounds(gs, traffic) && r < |gs| && On(gs[0], nodes) && |nodes| <= Pow2(r)
    ensures Quiet(gs[r])
  {
    LogarithmicClosure(gs, traffic, r, nodes);
    forall x, y | (x, y) in gs[r]
      ensures Reach(gs[0], x, y)
    {
      var p := LinkHasPath(gs, traffic, r, x, y);
    }
    forall u, v | u != v && Reach(gs[r], u, v)
      ensures (u, v) in gs[r]
    {
      var p :| Path(gs[r], p, u, v);
      ReachWithin(gs[0], gs[r], p, u, v);
    }
    RoundsSymmetric(gs, traffic, r);
    QuietIffCliques(gs[r]);
  }

  // ---------------------------------------------------------------- one node's handlers

  class Node {
    const id: string
    var connected: set<string>

    constructor (id: string)
      ensures this.id == id && connected == {}
    {
      this.id := id;
      connected := {};
    }

    /** The periodic sender: one message per peer, with everyone else. */
    method SharePeers() returns (sent: set<Msg>)
      ensures sent == Outgoing(id, connected)
      ensures forall m :: m in sent <==> m.from == id && m.to in connected && m.peers == connected - {m.to} && m.peers != {}
    {
      sent := {};
      var left := connected;
      while left != {}
        invariant left <= connected
        invariant sent == set v | v in connected && v !in left && connected - {v} != {} :: Exchange(id, v, connected - {v})
        decreases left
      {
        var peer :| peer in left;
        var toShare := connected - {peer};
        if toShare != {} {
          sent := sent + {Exchange(id, peer, toShare)};
        }
        left := left - {peer};
      }
    }

    /** The receiver: dial what is unknown; the first success triggers one re-share. */
    method HandleExchange(peers: seq<string>, answers: set<string>) returns (cascaded: bool)
      modifies this
      ensures var m := Exchange(id, id, set p | p in peers);
              && connected == old(connected) + Unknown(m, old(connected)) * answers
              && cascaded == (Unknown(m, old(connected)) * answers != {})
      ensures forall p :: p in connected <==>
                p in old(connected) || (p in peers && p != id && p in answers)
      ensures cascaded <==> connected != old(connected)
    {
      var known := connected;
      cascaded := false;
      var i := 0;
      while i < |peers|
        invariant 0 <= i <= |peers|
        invariant known == old(connected)
        invariant connected == known + (set p | p in peers[..i] && p != id && p !in known && p in answers)
        invariant cascaded == exists p :: p in peers[..i] && p != id && p !in known && p in answers
      {
        var peer := peers[i];
        assert peers[..i + 1] == peers[..i] + [peer];
        if peer != id && peer !in known && peer in answers {
          connected := connected + {peer};
          cascaded := true;
        }
        i := i + 1;
      }
      assert peers[..i] == peers;
      ghost var m := Exchange(id, id, set p | p in peers);
      assert forall p :: p in Unknown(m, known) * answers <==> p in peers && p != id && p !in known && p in answers;
    }
  }
}

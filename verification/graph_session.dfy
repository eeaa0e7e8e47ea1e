/**
 * The interactive graph: the node array the physics moves in place, the
 * edges as index pairs, the frame counter that drives the annealing, and
 * the drag state the mouse handlers keep.
 */
module GraphSession {
  import opened Options
  import opened Links
  import opened Graph
  import opened GraphPhysics

  /** Mousedown on a settled graph rewinds the frame counter to here,
      leaving 50 more frames of animation. */
  const RewindFrame: nat := TotalFrames - 50

  /** A pointer at (mx, my) lies on the disc of node `n`. */
  predicate Hits(n: Node, mx: real, my: real) {
    (mx - n.x) * (mx - n.x) + (my - n.y) * (my - n.y) <= NodeRadius * NodeRadius
  }

  /** The node drawn on top at (mx, my): later nodes are drawn over earlier
      ones, so the highest index whose disc holds the pointer wins. */
  function Topmost(ns: seq<Node>, mx: real, my: real): (r: Option<nat>)
    ensures r.Some? ==> r.value < |ns| && Hits(ns[r.value], mx, my)
    ensures r.Some? ==> forall j | r.value < j < |ns| :: !Hits(ns[j], mx, my)
    ensures r.None? ==> forall j | 0 <= j < |ns| :: !Hits(ns[j], mx, my)
  {
    if |ns| == 0 then None
    else if Hits(ns[|ns| - 1], mx, my) then Some(|ns| - 1)
    else Topmost(ns[..|ns| - 1], mx, my)
  }

  /** A pointer at the centre of node `i` always finds a node, `i` itself
      or one drawn over it. */
  lemma {:induction false} CentreHits(ns: seq<Node>, i: nat)
    requires i < |ns|
    ensures var r := Topmost(ns, ns[i].x, ns[i].y);
            r.Some? && i <= r.value
  {
    assert Hits(ns[i], ns[i].x, ns[i].y);
  }

  /** The release counts as a click when the pointer moved less than 3
      pixels from where the drag started. */
  predicate IsClick(start: Vec, end: Vec) {
    (end.x - start.x) * (end.x - start.x) + (end.y - start.y) * (end.y - start.y) < 9.0
  }

  /** Releasing where the drag started is a click; moving 3 pixels or more
      along either axis is a drag. */
  lemma {:induction false} ClickThreshold(start: Vec, end: Vec)
    ensures end == start ==> IsClick(start, end)
    ensures (end.x - start.x >= 3.0 || start.x - end.x >= 3.0
             || end.y - start.y >= 3.0 || start.y - end.y >= 3.0) ==> !IsClick(start, end)
  {
    var dx := end.x - start.x;
    var dy := end.y - start.y;
    SquareAtLeast(dx);
    SquareAtLeast(dy);
    assert dx * dx >= 0.0 && dy * dy >= 0.0;
  }

  /** A square is non-negative, and at least 9 once the value is 3 away
      from zero. */
  lemma SquareAtLeast(d: real)
    ensures d * d >= 0.0
    ensures d >= 3.0 || d <= -3.0 ==> d * d >= 9.0
  {
    if d >= 0.0 {
      MulMonotone(0.0, d, d);
      if d >= 3.0 { MulMonotone(3.0, d, d); MulMonotone(3.0, d, 3.0); }
    } else {
      MulMonotone(0.0, -d, -d);
      if d <= -3.0 { MulMonotone(3.0, -d, -d); MulMonotone(3.0, -d, 3.0); }
    }
  }

  /** After a tick has advanced the counter to `frame`, the animation asks
      for another frame while it is still annealing or a node is held. */
  predicate ShouldContinue(frame: nat, dragActive: bool) {
    frame < TotalFrames || dragActive
  }

  /** How many ticks run from `frame` with nothing dragged before the loop
      stops; the tick that crosses the limit is the last one. */
  function TicksToSettle(frame: nat): (r: nat)
    ensures r >= 1
    decreases if frame < TotalFrames then TotalFrames - frame else 0
  {
    if ShouldContinue(frame + 1, false) then 1 + TicksToSettle(frame + 1) else 1
  }

  /** Untouched, a graph at `frame` animates for the frames left until 350,
      and for one last tick when it is already past: 350 ticks for a fresh
      graph, and 50 for one rewound to frame 300 by a mousedown once its
      node is released. */
  lemma {:induction false} TicksToSettleCount(frame: nat)
    ensures TicksToSettle(frame) == if frame < TotalFrames then TotalFrames - frame else 1
    decreases if frame < TotalFrames then TotalFrames - frame else 0
  {
    if ShouldContinue(frame + 1, false) {
      TicksToSettleCount(frame + 1);
    }
  }

  class Session {
    const nodes: array<Node>
    const edges: seq<Edge>
    const width: real
    const height: real
    const rootPrefix: string
    var frame: nat
    var dragging: Option<nat>
    var dragStart: Option<Vec>

    /** Edges join nodes of the array; a held node is one of them; a drag
        always has its start point. */
    ghost predicate Valid()
      reads this
    {
      && (forall e | e in edges :: e.source < nodes.Length && e.target < nodes.Length)
      && (dragging.Some? ==> dragging.value < nodes.Length)
      && dragging.Some? == dragStart.Some?
    }

    /** Loading the pattern data: build the graph at frame 0, nothing held.
        `draws` holds the random draws for the initial positions. */
    constructor (scaleIds: seq<string>, patterns: seq<Pattern>, draws: seq<Vec>,
                 width: real, height: real, rootPrefix: string)
      requires |draws| == |patterns|
      ensures Valid() && fresh(nodes)
      ensures nodes.Length == |patterns|
      ensures forall i | 0 <= i < |patterns| :: nodes[i] == InitialNode(scaleIds, patterns[i], draws[i], width, height)
      ensures edges == AllEdges(nodes[..], NumberIndex(patterns))
      ensures this.width == width && this.height == height && this.rootPrefix == rootPrefix
      ensures frame == 0 && dragging.None? && dragStart.None?
    {
      var ns, es := BuildGraph(scaleIds, patterns, draws, width, height);
      EdgesTargetChildren(patterns, ns);
      nodes := new Node[|ns|](i requires 0 <= i < |ns| => ns[i]);
      edges := es;
      this.width := width;
      this.height := height;
      this.rootPrefix := rootPrefix;
      frame := 0;
      dragging := None;
      dragStart := None;
      new;
      assert nodes[..] == ns;
    }

    /** The hit test: scans from the last node down and stops at the first
        node under the pointer. */
    method NodeAt(mx: real, my: real) returns (hit: Option<nat>)
      ensures hit == Topmost(nodes[..], mx, my)
    {
      var i := nodes.Length;
      while i > 0
        invariant 0 <= i <= nodes.Length
        invariant Topmost(nodes[..], mx, my) == Topmost(nodes[..i], mx, my)
      {
        assert nodes[..i][..i - 1] == nodes[..i - 1];
        if Hits(nodes[i - 1], mx, my) {
          return Some(i - 1);
        }
        i := i - 1;
      }
      return None;
    }

    /**
     * The velocity and position update of one physics step. `push[i]` is
     * what repulsion and the springs added to node `i`'s velocity; the
     * centre pull at the current temperature is added here, then each node
     * is integrated.
     */
    method ApplyForces(push: seq<Vec>)
      requires |push| == nodes.Length
      modifies nodes
      ensures forall i | 0 <= i < nodes.Length ::
                nodes[i] == Integrate(old(nodes[i]), Force(old(nodes[i]), push[i]), dragging == Some(i), width, height)
    {
      var t := Temperature(frame);
      for i := 0 to nodes.Length
        invariant forall j | 0 <= j < i ::
                    nodes[j] == Integrate(old(nodes[j]), Force(old(nodes[j]), push[j]), dragging == Some(j), width, height)
        invariant forall j | i <= j < nodes.Length :: nodes[j] == old(nodes[j])
      {
        var n := nodes[i];
        nodes[i] := Integrate(n, Force(n, push[i]), dragging == Some(i), width, height);
      }
    }

    /** All velocity increments of a step for node `n`: the given repulsion
        and spring terms plus the centre pull at this frame's temperature.
        The temperature never drops to zero, so at every frame the pull
        moves the node's velocity toward the canvas centre on each axis. */
    function Force(n: Node, pushed: Vec): (dv: Vec)
      reads this
      ensures (n.x < width / 2.0 <==> dv.x > pushed.x) && (n.x > width / 2.0 <==> dv.x < pushed.x)
      ensures (n.y < height / 2.0 <==> dv.y > pushed.y) && (n.y > height / 2.0 <==> dv.y < pushed.y)
    {
      var g := CentrePull(n, width, height, Temperature(frame));
      Vec(pushed.x + g.x, pushed.y + g.y)
    }

    /** One animation frame: a physics step, then the frame counter
        advances; `again` says whether another frame is requested. */
    method Tick(push: seq<Vec>) returns (again: bool)
      requires |push| == nodes.Length
      modifies this, nodes
      ensures frame == old(frame) + 1
      ensures again == ShouldContinue(frame, dragging.Some?)
      ensures dragging == old(dragging) && dragStart == old(dragStart)
      ensures forall i | 0 <= i < nodes.Length ::
                nodes[i] == Integrate(old(nodes[i]), old(Force(nodes[i], push[i])), dragging == Some(i), width, height)
      ensures width >= 2.0 * NodeRadius && height >= 2.0 * NodeRadius ==>
                forall i | 0 <= i < nodes.Length && dragging != Some(i) :: InBounds(nodes[i], width, height)
    {
      ApplyForces(push);
      frame := frame + 1;
      again := ShouldContinue(frame, dragging.Some?);
    }

    /** Mousedown: a press on a node holds it and remembers where the drag
        began; a settled graph is rewound and its animation restarted
        (`restart`). A press on empty canvas changes nothing. */
    method MouseDown(px: real, py: real) returns (restart: bool)
      requires Valid()
      modifies this
      ensures Valid()
      ensures var hit := Topmost(nodes[..], px, py);
              && (hit.None? ==> frame == old(frame) && dragging == old(dragging)
                                && dragStart == old(dragStart) && !restart)
              && (hit.Some? ==> dragging == hit && dragStart == Some(Vec(px, py))
                                && restart == (old(frame) >= TotalFrames)
                                && frame == (if restart then RewindFrame else old(frame)))
    {
      restart := false;
      var hit := NodeAt(px, py);
      if hit.Some? {
        dragging := hit;
        dragStart := Some(Vec(px, py));
        if frame >= TotalFrames {
          frame := RewindFrame;
          restart := true;
        }
      }
    }

    /** Mousemove: a held node follows the pointer exactly; `overNode`
        reports whether the pointer is over a node afterwards (the cursor
        shape). */
    method MouseMove(px: real, py: real) returns (overNode: bool)
      requires Valid()
      modifies nodes
      ensures dragging.Some? ==> nodes[dragging.value] == old(nodes[dragging.value]).(x := px, y := py)
      ensures forall i | 0 <= i < nodes.Length && dragging != Some(i) :: nodes[i] == old(nodes[i])
      ensures overNode == Topmost(nodes[..], px, py).Some?
      ensures dragging.Some? ==> overNode
    {
      if dragging.Some? {
        var d := dragging.value;
        nodes[d] := nodes[d].(x := px, y := py);
        CentreHits(nodes[..], d);
      }
      var hit := NodeAt(px, py);
      overNode := hit.Some?;
    }

    /** Mouseup: releasing a held node that barely moved opens that
        pattern's page (`nav`); the drag always ends. */
    method MouseUp(px: real, py: real) returns (nav: Option<string>)
      requires Valid()
      modifies this
      ensures Valid()
      ensures dragging.None? && dragStart.None? && frame == old(frame)
      ensures nav.Some? <==> old(dragging).Some? && IsClick(old(dragStart).value, Vec(px, py))
      ensures nav.Some? ==> nav.value == PatternHref(rootPrefix, nodes[old(dragging).value].number)
      ensures nav.Some? ==> NumberOfHref(rootPrefix, nav.value) == Some(nodes[old(dragging).value].number)
    {
      nav := None;
      if dragging.Some? && dragStart.Some? {
        if IsClick(dragStart.value, Vec(px, py)) {
          var number := nodes[dragging.value].number;
          nav := Some(PatternHref(rootPrefix, number));
          HrefRoundTrip(rootPrefix, number);
        }
      }
      dragging := None;
      dragStart := None;
    }

    /** Mouseleave: the drag ends without navigating. */
    method MouseLeave()
      requires Valid()
      modifies this
      ensures Valid()
      ensures dragging.None? && dragStart.None? && frame == old(frame)
    {
      dragging := None;
      dragStart := None;
    }
  }
}

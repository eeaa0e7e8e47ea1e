/**
 * One physics step of the pattern graph, in exact real arithmetic: the
 * annealing temperature, the pull toward the canvas centre, and the
 * integrate / damp / clamp pass that ends every step. The repulsion and
 * spring terms (square roots) enter as given velocity increments.
 */
module GraphPhysics {
  import opened Graph

  const NodeRadius: real := 18.0
  const Damping: real := 0.85
  const Gravity: real := 0.02
  const TotalFrames: nat := 350
  const MinTemperature: real := 0.05

  /** The annealing temperature at `frame`: it falls linearly from 1 over
      the first frames and then stays at its floor of 0.05. */
  function Temperature(frame: nat): (t: real)
    ensures MinTemperature <= t <= 1.0
    ensures frame == 0 ==> t == 1.0
    ensures t == MinTemperature <==> frame >= 333
  {
    var cooled := 1.0 - frame as real / TotalFrames as real;
    if MinTemperature > cooled then MinTemperature else cooled
  }

  /** Cooling never reverses: a later frame is never hotter. */
  lemma {:induction false} TemperatureMonotone(f1: nat, f2: nat)
    requires f1 <= f2
    ensures Temperature(f2) <= Temperature(f1)
  {
    assert f1 as real / TotalFrames as real <= f2 as real / TotalFrames as real;
  }

  /** `Math.max(lo, Math.min(hi, v))`. */
  function Clamp(v: real, lo: real, hi: real): (r: real)
    ensures lo <= r
    ensures lo <= hi ==> r <= hi
    ensures lo <= v <= hi ==> r == v
    ensures lo <= hi ==> (v < lo ==> r == lo) && (hi < v ==> r == hi)
  {
    var m := if hi < v then hi else v;
    if lo > m then lo else m
  }

  /** The centre pull on a node at temperature `t` on a `w` x `h` canvas:
      it points toward the centre on each axis and vanishes there. */
  function CentrePull(n: Node, w: real, h: real, t: real): (g: Vec)
    ensures t > 0.0 ==> (n.x < w / 2.0 <==> g.x > 0.0) && (n.x > w / 2.0 <==> g.x < 0.0)
    ensures t > 0.0 ==> (n.y < h / 2.0 <==> g.y > 0.0) && (n.y > h / 2.0 <==> g.y < 0.0)
  {
    var gx := (w / 2.0 - n.x) * Gravity * t;
    var gy := (h / 2.0 - n.y) * Gravity * t;
    SignOfProduct(w / 2.0 - n.x, Gravity * t);
    SignOfProduct(h / 2.0 - n.y, Gravity * t);
    Vec(gx, gy)
  }

  /** A product with a positive factor has the sign of the other factor. */
  lemma SignOfProduct(a: real, k: real)
    ensures k > 0.0 ==> (a > 0.0 <==> a * k > 0.0) && (a < 0.0 <==> a * k < 0.0)
  {
    if k > 0.0 {
      if a > 0.0 { MulMonotone(0.0, a, k); assert a * k != 0.0; }
      if a < 0.0 { MulMonotone(a, 0.0, k); assert a * k != 0.0; }
    }
  }

  predicate InBounds(n: Node, w: real, h: real) {
    NodeRadius <= n.x <= w - NodeRadius && NodeRadius <= n.y <= h - NodeRadius
  }

  /**
   * The integrate pass for one node after the forces added `dv` to its
   * velocity. The dragged node is held: its velocity is zeroed and it does
   * not move, not even into bounds. Any other node has its velocity damped,
   * moves by it, and is clamped into the canvas.
   */
  function Integrate(n: Node, dv: Vec, dragged: bool, w: real, h: real): (r: Node)
    ensures r.number == n.number && r.name == n.name && r.scale == n.scale
    ensures r.scaleIdx == n.scaleIdx && r.contains == n.contains
    ensures dragged ==> r.x == n.x && r.y == n.y && r.vx == 0.0 && r.vy == 0.0
    ensures !dragged ==> r.vx == Damping * (n.vx + dv.x) && r.vy == Damping * (n.vy + dv.y)
    ensures !dragged ==> (r.x == Clamp(n.x + r.vx, NodeRadius, w - NodeRadius)
                          && r.y == Clamp(n.y + r.vy, NodeRadius, h - NodeRadius))
    ensures !dragged && w >= 2.0 * NodeRadius && h >= 2.0 * NodeRadius ==> InBounds(r, w, h)
  {
    if dragged then n.(vx := 0.0, vy := 0.0)
    else
      var vx := Damping * (n.vx + dv.x);
      var vy := Damping * (n.vy + dv.y);
      n.(vx := vx, vy := vy,
         x := Clamp(n.x + vx, NodeRadius, w - NodeRadius),
         y := Clamp(n.y + vy, NodeRadius, h - NodeRadius))
  }
}

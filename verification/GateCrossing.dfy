/** The start/finish gate test of the dash, over the reals. */
module GateCrossing {

  datatype Vec = Vec(x: real, y: real)

  datatype Fix = Fix(lat: real, lon: real)

  datatype Gate = Gate(lat1: real, lon1: real, lat2: real, lon2: real)

  function Minus(p: Vec, q: Vec): Vec { Vec(p.x - q.x, p.y - q.y) }

  function Cross(u: Vec, v: Vec): real { u.x * v.y - u.y * v.x }

  /** The point a fraction `s` of the way from `p` to `q`. */
  function Along(p: Vec, q: Vec, s: real): Vec {
    Vec(p.x + s * (q.x - p.x), p.y + s * (q.y - p.y))
  }

  function Car(f: Fix): Vec { Vec(f.lon, f.lat) }

  function End1(g: Gate): Vec { Vec(g.lon1, g.lat1) }

  function End2(g: Gate): Vec { Vec(g.lon2, g.lat2) }

  /** Signed area of the triangle p, q, r, doubled. */
  function Orient(p: Vec, q: Vec, r: Vec): real {
    (q.x - p.x) * (r.y - p.y) - (q.y - p.y) * (r.x - p.x)
  }

  predicate Opposite(x: real, y: real) {
    (x > 0.0 && y < 0.0) || (x < 0.0 && y > 0.0)
  }

  predicate SegmentsCross(prev: Fix, cur: Fix, gate: Gate) {
    var a, b, c, d := Car(prev), Car(cur), End1(gate), End2(gate);
    && Opposite(Orient(c, d, a), Orient(c, d, b))
    && Opposite(Orient(a, b, c), Orient(a, b, d))
  }

  /** The open segments share a point and are not parallel. */
  ghost predicate Meet(a: Vec, b: Vec, c: Vec, d: Vec) {
    && Cross(Minus(b, a), Minus(d, c)) != 0.0
    && exists s: real, t: real :: MeetAt(a, b, c, d, s, t)
  }

  predicate MeetAt(a: Vec, b: Vec, c: Vec, d: Vec, s: real, t: real) {
    0.0 < s < 1.0 && 0.0 < t < 1.0 && Along(a, b, s) == Along(c, d, t)
  }

  /** The four areas in terms of the directions u = b-a, v = d-c and w = a-c. */
  lemma Areas(a: Vec, b: Vec, c: Vec, d: Vec)
    ensures var u, v, w := Minus(b, a), Minus(d, c), Minus(a, c);
      && Orient(c, d, a) == Cross(v, w)
      && Orient(c, d, b) == Cross(v, w) - Cross(u, v)
      && Orient(a, b, c) == Cross(w, u)
      && Orient(a, b, d) == Cross(w, u) + Cross(u, v)
  {
    var u, v, w := Minus(b, a), Minus(d, c), Minus(a, c);
    Bilinear(v, w, u);
    Bilinear(u, v, w);
  }

  lemma Bilinear(p: Vec, q: Vec, r: Vec)
    ensures Cross(p, Vec(q.x + r.x, q.y + r.y)) == Cross(p, q) + Cross(p, r)
    ensures Cross(p, Vec(q.x - r.x, q.y - r.y)) == Cross(p, q) - Cross(p, r)
    ensures Cross(p, q) == -Cross(q, p)
  {
  }

  /** Any three plane vectors: (u x v) w + (v x w) u + (w x u) v = 0. */
  lemma Jacobi(u: Vec, v: Vec, w: Vec)
    ensures Cross(u, v) * w.x + Cross(v, w) * u.x + Cross(w, u) * v.x == 0.0
    ensures Cross(u, v) * w.y + Cross(v, w) * u.y + Cross(w, u) * v.y == 0.0
  {
  }

  lemma CrossImpliesMeet(prev: Fix, cur: Fix, gate: Gate)
    requires SegmentsCross(prev, cur, gate)
    ensures Meet(Car(prev), Car(cur), End1(gate), End2(gate))
  {
    var a, b, c, d := Car(prev), Car(cur), End1(gate), End2(gate);
    var u, v, w := Minus(b, a), Minus(d, c), Minus(a, c);
    Areas(a, b, c, d);
    Fraction(Cross(v, w), Cross(u, v));
    Fraction(-Cross(w, u), Cross(u, v));
    SharedPoint(a, b, c, d, u, v, w);
  }

  lemma SharedPoint(a: Vec, b: Vec, c: Vec, d: Vec, u: Vec, v: Vec, w: Vec)
    requires u == Minus(b, a) && v == Minus(d, c) && w == Minus(a, c)
    requires Cross(u, v) != 0.0
    requires 0.0 < Cross(v, w) / Cross(u, v) < 1.0 && 0.0 < -Cross(w, u) / Cross(u, v) < 1.0
    ensures Meet(a, b, c, d)
  {
    var area, p, q := Cross(u, v), Cross(v, w), Cross(w, u);
    var s, t := p / area, -q / area;
    Jacobi(u, v, w);
    SamePoint(area, w.x, p, u.x, q, v.x);
    SamePoint(area, w.y, p, u.y, q, v.y);
    OnBoth(a, b, c, d, s, t);
  }

  lemma OnBoth(a: Vec, b: Vec, c: Vec, d: Vec, s: real, t: real)
    requires 0.0 < s < 1.0 && 0.0 < t < 1.0
    requires a.x - c.x + s * (b.x - a.x) == t * (d.x - c.x)
    requires a.y - c.y + s * (b.y - a.y) == t * (d.y - c.y)
    ensures MeetAt(a, b, c, d, s, t)
  {
    Move(a.x, c.x, s * (b.x - a.x), t * (d.x - c.x));
    Move(a.y, c.y, s * (b.y - a.y), t * (d.y - c.y));
  }

  lemma Move(a: real, c: real, e: real, f: real)
    requires a - c + e == f
    ensures a + e == c + f
  {
  }

  lemma Fraction(part: real, whole: real)
    requires Opposite(part, part - whole)
    ensures whole != 0.0 && 0.0 < part / whole < 1.0
  {
    var f := part / whole;
    assert f * whole == part;
    if f >= 1.0 {
      SameSign(f - 1.0, whole);
    } else if f <= 0.0 {
      SameSign(-f, whole);
    }
  }

  lemma SameSign(k: real, whole: real)
    requires k >= 0.0
    ensures whole > 0.0 ==> k * whole >= 0.0
    ensures whole < 0.0 ==> k * whole <= 0.0
  {
  }

  lemma SamePoint(area: real, w: real, p: real, u: real, q: real, v: real)
    requires area != 0.0 && area * w + p * u + q * v == 0.0
    ensures w + p / area * u == -q / area * v
  {
    var k, l := p / area, -q / area;
    assert k * area == p && l * area == -q;
    var r := w + k * u - l * v;
    assert area * r == area * w + (k * area) * u - (l * area) * v;
    assert area * r == 0.0;
  }

  lemma MeetImpliesCross(prev: Fix, cur: Fix, gate: Gate)
    requires Meet(Car(prev), Car(cur), End1(gate), End2(gate))
    ensures SegmentsCross(prev, cur, gate)
  {
    var a, b, c, d := Car(prev), Car(cur), End1(gate), End2(gate);
    var u, v, w := Minus(b, a), Minus(d, c), Minus(a, c);
    var s: real, t: real :| MeetAt(a, b, c, d, s, t);
    Areas(a, b, c, d);
    assert w.x == t * v.x - s * u.x && w.y == t * v.y - s * u.y;
    Combination(u, v, w, s, t);
    Signs(Cross(u, v), s);
    Signs(Cross(u, v), t);
  }

  lemma Combination(u: Vec, v: Vec, w: Vec, s: real, t: real)
    requires w.x == t * v.x - s * u.x && w.y == t * v.y - s * u.y
    ensures Cross(v, w) == s * Cross(u, v) && Cross(w, u) == -t * Cross(u, v)
  {
  }

  lemma Signs(area: real, f: real)
    requires area != 0.0 && 0.0 < f < 1.0
    ensures Opposite(f * area, f * area - area) && Opposite(-f * area, -f * area + area)
  {
    assert f * area - area == -((1.0 - f) * area);
  }

  /** The test is true exactly when the path and the gate meet at a point interior to
      both and are not parallel. */
  lemma CrossIffMeet(prev: Fix, cur: Fix, gate: Gate)
    ensures SegmentsCross(prev, cur, gate) <==> Meet(Car(prev), Car(cur), End1(gate), End2(gate))
  {
    if SegmentsCross(prev, cur, gate) {
      CrossImpliesMeet(prev, cur, gate);
    }
    if Meet(Car(prev), Car(cur), End1(gate), End2(gate)) {
      MeetImpliesCross(prev, cur, gate);
    }
  }

  /** Neither the driving direction nor the order of the gate's ends matters. */
  lemma CrossIsSymmetric(prev: Fix, cur: Fix, gate: Gate)
    ensures SegmentsCross(cur, prev, gate) == SegmentsCross(prev, cur, gate)
    ensures SegmentsCross(prev, cur, Gate(gate.lat2, gate.lon2, gate.lat1, gate.lon1)) == SegmentsCross(prev, cur, gate)
  {
    var a, b, c, d := Car(prev), Car(cur), End1(gate), End2(gate);
    Reversed(a, b, c);
    Reversed(a, b, d);
    Reversed(c, d, a);
    Reversed(c, d, b);
  }

  lemma Reversed(p: Vec, q: Vec, r: Vec)
    ensures Orient(q, p, r) == -Orient(p, q, r)
  {
  }

  // ---- parts of a path that crosses ------------------------------------------

  /** On which side of the gate's line a point is; 0 on it. */
  function Side(gate: Gate, p: Vec): real { Orient(End1(gate), End2(gate), p) }

  lemma SideAlong(gate: Gate, a: Vec, b: Vec, s: real)
    ensures Side(gate, Along(a, b, s)) == Side(gate, a) + s * (Side(gate, b) - Side(gate, a))
  {
    var c, d := End1(gate), End2(gate);
    Stretched(d.x - c.x, a.y - c.y, b.y - a.y, s);
    Stretched(d.y - c.y, a.x - c.x, b.x - a.x, s);
  }

  lemma Stretched(k: real, x: real, u: real, s: real)
    ensures k * (x + s * u) == k * x + s * (k * u)
  {
  }

  lemma PathAlong(a: Vec, b: Vec, s: real, t: real, r: Vec)
    ensures Orient(Along(a, b, s), Along(a, b, t), r) == (t - s) * Orient(a, b, r)
  {
    var u, v := b.x - a.x, b.y - a.y;
    var p, q := Along(a, b, s), Along(a, b, t);
    assert q.x - p.x == (t - s) * u && q.y - p.y == (t - s) * v;
    Area(t - s, u, v, r.x - a.x, r.y - a.y, s);
  }

  /** Moving the corner along the path does not change the area. */
  lemma Area(k: real, u: real, v: real, x: real, y: real, s: real)
    ensures (k * u) * (y - s * v) - (k * v) * (x - s * u) == k * (u * y - v * x)
  {
    assert (k * u) * (s * v) == (k * v) * (s * u);
  }

  /** Part of a path that crosses the gate crosses it exactly if its ends are on opposite
      sides of the gate's line. */
  lemma PartCrossesIff(before: Fix, after: Fix, gate: Gate, from: Fix, to: Fix, s: real, t: real)
    requires SegmentsCross(before, after, gate) && s <= t
    requires Car(from) == Along(Car(before), Car(after), s) && Car(to) == Along(Car(before), Car(after), t)
    ensures SegmentsCross(from, to, gate) <==> Opposite(Side(gate, Car(from)), Side(gate, Car(to)))
  {
    EndsOpposite(Car(before), Car(after), s, t, End1(gate), End2(gate));
    assert s == t ==> Car(from) == Car(to);
  }

  lemma EndsOpposite(a: Vec, b: Vec, s: real, t: real, c: Vec, d: Vec)
    requires s <= t && Opposite(Orient(a, b, c), Orient(a, b, d))
    ensures Opposite(Orient(Along(a, b, s), Along(a, b, t), c), Orient(Along(a, b, s), Along(a, b, t), d)) <==> s < t
  {
    PathAlong(a, b, s, t, c);
    PathAlong(a, b, s, t, d);
    OppositeScaled(t - s, Orient(a, b, c), Orient(a, b, d));
  }

  lemma OppositeScaled(k: real, x: real, y: real)
    requires k >= 0.0 && Opposite(x, y)
    ensures Opposite(k * x, k * y) <==> k > 0.0
  {
    if k > 0.0 {
      Scaled(k, x);
      Scaled(k, y);
    }
  }

  lemma Scaled(k: real, x: real)
    requires k > 0.0
    ensures (k * x > 0.0 <==> x > 0.0) && (k * x < 0.0 <==> x < 0.0)
  {
  }

  /** Along a path that crosses, the side changes in one direction only. */
  lemma SideIsMonotone(before: Fix, after: Fix, gate: Gate, s: real, t: real)
    requires SegmentsCross(before, after, gate) && s <= t
    ensures var a, b := Car(before), Car(after); var x, y := Side(gate, Along(a, b, s)), Side(gate, Along(a, b, t));
      if Side(gate, a) > 0.0 then y <= x && (s < t ==> y < x) else x <= y && (s < t ==> x < y)
  {
    var a, b := Car(before), Car(after);
    var slope := Side(gate, b) - Side(gate, a);
    SideAlong(gate, a, b, s);
    SideAlong(gate, a, b, t);
    assert t * slope - s * slope == (t - s) * slope;
    if s < t {
      Scaled(t - s, slope);
    }
  }
}

/**
 * Resolution of a node's position (the `Node.position` getter): the renderer's answer is an
 * input, the stored position and the relative flag are the node's own state.
 */
module Positions {
  import opened Wrappers

  /** The renderer's answer to a position query: live x and y, canvas width and height, each possibly missing. */
  datatype Probe = Probe(x: Option<real>, y: Option<real>, width: Option<real>, height: Option<real>)

  /** Python's `int()` on a number: truncation toward zero. */
  function Trunc(v: real): (t: int)
    ensures 0.0 <= v ==> 0 <= t && t as real <= v < t as real + 1.0
    ensures v < 0.0 ==> t <= 0 && t as real - 1.0 < v <= t as real
  {
    if v >= 0.0 then v.Floor else -((-v).Floor)
  }

  /** A stored fraction times a reported canvas extent. */
  function Scale(fraction: real, extent: real): real
  {
    fraction * extent
  }

  /** The renderer's live coordinates win while the node is a member and both are reported. */
  predicate Live(member: bool, data: Option<Probe>)
  {
    member && data.Some? && data.value.x.Some? && data.value.y.Some?
  }

  /** The renderer reported the canvas extent. */
  predicate HasExtent(data: Option<Probe>)
  {
    data.Some? && data.value.width.Some? && data.value.height.Some?
  }

  /**
   * The four-way choice: live coordinates; otherwise nothing when nothing is stored; otherwise
   * the stored fractions times the canvas extent when relative and the extent is known;
   * otherwise the stored coordinates. Every number is truncated toward zero.
   */
  function Resolve(member: bool, data: Option<Probe>, stored: Option<(real, real)>, relative: bool): (r: Option<(int, int)>)
    ensures r.None? <==> !Live(member, data) && stored.None?
    ensures !Live(member, data) && stored.Some? && !(relative && HasExtent(data)) ==>
      r == Some((Trunc(stored.value.0), Trunc(stored.value.1)))
  {
    if Live(member, data) then
      Some((Trunc(data.value.x.value), Trunc(data.value.y.value)))
    else if stored.None? then
      None
    else if relative && HasExtent(data) then
      Some((Trunc(Scale(stored.value.0, data.value.width.value)), Trunc(Scale(stored.value.1, data.value.height.value))))
    else
      Some((Trunc(stored.value.0), Trunc(stored.value.1)))
  }

  /** Truncation leaves a whole number unchanged. */
  lemma TruncWhole(k: int)
    ensures Trunc(k as real) == k
  {
    if k < 0 {
      assert (-(k as real)).Floor == -k;
    }
  }

  /** An absolute whole-number position that was stored reads back unchanged when no live value wins. */
  lemma AbsoluteRoundTrip(member: bool, data: Option<Probe>, x: int, y: int)
    requires !Live(member, data)
    ensures Resolve(member, data, Some((x as real, y as real)), false) == Some((x, y))
  {
    TruncWhole(x);
    TruncWhole(y);
  }

  /** While the node is a member and the renderer reports both coordinates, the stored state is ignored. */
  lemma LiveWins(data: Option<Probe>, s1: Option<(real, real)>, r1: bool, s2: Option<(real, real)>, r2: bool)
    requires Live(true, data)
    ensures Resolve(true, data, s1, r1) == Resolve(true, data, s2, r2)
            == Some((Trunc(data.value.x.value), Trunc(data.value.y.value)))
  {
  }

  /** A fraction of an extent lies between zero and the extent. */
  lemma ScaledWithin(f: real, w: real)
    requires 0.0 <= f <= 1.0 && 0.0 <= w
    ensures 0.0 <= Scale(f, w) <= w
  {
    var g := 1.0 - f;
    assert 0.0 <= g;
    assert 0.0 <= f * w && 0.0 <= g * w;
    assert f * w + g * w == (f + g) * w == w;
  }

  /** Truncating a value between zero and a bound stays between zero and the bound. */
  lemma TruncWithin(v: real, bound: real)
    requires 0.0 <= v <= bound
    ensures 0 <= Trunc(v) && Trunc(v) as real <= bound
  {
    var t := Trunc(v);
    assert t as real <= v;
  }

  /** With no live answer, a stored relative position is scaled by the reported extent. */
  lemma ResolveScaled(member: bool, data: Option<Probe>, fx: real, fy: real)
    requires !Live(member, data) && HasExtent(data)
    ensures Resolve(member, data, Some((fx, fy)), true) ==
      Some((Trunc(Scale(fx, data.value.width.value)), Trunc(Scale(fy, data.value.height.value))))
  {
  }

  /** A relative position inside the unit square resolves to a point inside the reported canvas. */
  lemma RelativeWithinCanvas(member: bool, data: Option<Probe>, fx: real, fy: real)
    requires !Live(member, data) && HasExtent(data)
    requires 0.0 <= fx <= 1.0 && 0.0 <= fy <= 1.0
    requires 0.0 <= data.value.width.value && 0.0 <= data.value.height.value
    ensures var r := Resolve(member, data, Some((fx, fy)), true);
      && r.Some?
      && 0 <= r.value.0 && r.value.0 as real <= data.value.width.value
      && 0 <= r.value.1 && r.value.1 as real <= data.value.height.value
  {
    ResolveScaled(member, data, fx, fy);
    var w, h := data.value.width.value, data.value.height.value;
    var sx, sy := Scale(fx, w), Scale(fy, h);
    ScaledWithin(fx, w);
    ScaledWithin(fy, h);
    assert 0.0 <= sx <= w && 0.0 <= sy <= h;
    TruncWithin(sx, w);
    TruncWithin(sy, h);
  }

  /** (0.5, 0.5) relative on a 200 x 100 canvas resolves to (100, 50). */
  lemma RelativeScaledExample()
    ensures Resolve(true, Some(Probe(None, None, Some(200.0), Some(100.0))), Some((0.5, 0.5)), true) == Some((100, 50))
  {
    assert Scale(0.5, 200.0) == 100.0 && Scale(0.5, 100.0) == 50.0;
    TruncWhole(100);
    TruncWhole(50);
  }

  /**
   * Without a reported extent the stored fractions themselves are truncated: (0.5, 0.5)
   * relative resolves to (0, 0), not to (0.5, 0.5).
   */
  lemma RelativeWithoutExtentExample()
    ensures Resolve(true, Some(Probe(None, None, None, None)), Some((0.5, 0.5)), true) == Some((0, 0))
  {
    assert Trunc(0.5) == 0;
  }
}

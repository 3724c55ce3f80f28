/** Lights, shadow tests and the Phong-style shading of `getColorPtLight` and
    `getColor`, as functions of the scene. The tracer's methods are proved to
    compute these. */
module Shading {
  import opened Numerics
  import V = Vectors
  import C = Colors
  import G = Geometry
  import S = Sampling

  /** A point light. */
  datatype Light = Light(pos: V.Vector, color: C.Color)

  /** A rectangular area light spanned by `u` and `v` around `center`. */
  datatype AreaLight = AreaLight(center: V.Vector, color: C.Color, u: V.Vector, v: V.Vector)

  /** The scene lists and the ambient intensity `Ia`. */
  datatype Scene = Scene(geos: seq<G.Geo>, lights: seq<Light>, areaLights: seq<AreaLight>, ambient: C.Color)

  /** The surface point being shaded: the eye (the ray's start), the hit point
      and the primitive hit. */
  datatype Surface = Surface(eye: V.Vector, pos: V.Vector, geo: G.Geo)

  // ---------------------------------------------------------------- shadows

  /** The ray `isBlocked` casts: it starts 0.001 along the unit direction to the
      light and runs along the unnormalised `lightPos − pos`, so that time 1 is
      the light moved by the same offset. */
  function ShadowRay(m: MathLib, lightPos: V.Vector, pos: V.Vector): (r: G.Ray)
    ensures G.PointAt(r, 1.0) == V.Plus(lightPos, V.Minus(r.start, pos))
    ensures Sound(m) && V.Mag(m, V.Minus(lightPos, pos)) != 0.0 ==>
              V.Dot(V.Minus(r.start, pos), V.Minus(r.start, pos)) == 0.001 * 0.001
  {
    var direction := V.Minus(lightPos, pos);
    var offset := V.Times(0.001, V.Norm(m, direction));
    V.DotTimes(0.001, V.Norm(m, direction), offset);
    V.DotTimes(0.001, V.Norm(m, direction), V.Norm(m, direction));
    G.Ray(V.Plus(pos, offset), direction)
  }

  /** Primitive `g` reports a hit on `ray` before time 1. */
  predicate Occludes(m: MathLib, g: G.Geo, ray: G.Ray)
  {
    var h := G.Collide(m, g, ray);
    h.Some? && h.value < 1.0
  }

  /** `isBlocked(lightPos, pos)`: some primitive occludes the shadow ray. */
  predicate Blocked(m: MathLib, geos: seq<G.Geo>, lightPos: V.Vector, pos: V.Vector)
  {
    exists g :: g in geos && Occludes(m, g, ShadowRay(m, lightPos, pos))
  }

  /** The shadow test does not depend on the order of the primitives. */
  lemma BlockedOrderFree(m: MathLib, geos: seq<G.Geo>, geos': seq<G.Geo>, lightPos: V.Vector, pos: V.Vector)
    requires multiset(geos) == multiset(geos')
    ensures Blocked(m, geos, lightPos, pos) == Blocked(m, geos', lightPos, pos)
  {
    forall g | g in geos
      ensures g in geos'
    {
      assert g in multiset(geos);
    }
    forall g | g in geos'
      ensures g in geos
    {
      assert g in multiset(geos');
    }
  }

  // ---------------------------------------------------------------- one light

  /** The unit direction from `from` towards `to`. */
  function Towards(m: MathLib, to: V.Vector, from: V.Vector): V.Vector
  {
    V.Norm(m, V.Minus(to, from))
  }

  /** `L` mirrored about `N`: 2(N·L)N − L. */
  function Mirror(n: V.Vector, l: V.Vector): V.Vector
  {
    V.Minus(V.Times(2.0 * V.Dot(n, l), n), l)
  }

  /** About a unit normal, the mirror image makes the same angle with the normal
      and has the same length, and the two add up to a multiple of the normal. */
  lemma MirrorReflects(n: V.Vector, l: V.Vector)
    requires V.Dot(n, n) == 1.0
    ensures V.Dot(Mirror(n, l), n) == V.Dot(l, n)
    ensures V.Dot(Mirror(n, l), Mirror(n, l)) == V.Dot(l, l)
    ensures V.Plus(Mirror(n, l), l) == V.Times(2.0 * V.Dot(n, l), n)
  {
    var k := 2.0 * V.Dot(n, l);
    var r := Mirror(n, l);
    var kn := V.Times(k, n);
    V.DotSymmetric(n, l);
    V.DotSymmetric(n, r);
    V.DotSymmetric(l, r);
    V.DotMinus(kn, l, n);
    V.DotMinus(kn, l, l);
    V.DotMinus(kn, l, r);
    V.DotTimes(k, n, n);
    V.DotTimes(k, n, l);
    V.DotTimes(k, n, r);
    MirrorArithmetic(k, V.Dot(n, l), V.Dot(l, l), V.Dot(r, n), V.Dot(r, l), V.Dot(r, r));
  }

  /** The scalar identities behind `MirrorReflects`, with rn = r·n, rl = r·l and
      rr = r·r expanded by linearity. */
  lemma MirrorArithmetic(k: real, nl: real, ll: real, rn: real, rl: real, rr: real)
    requires k == 2.0 * nl
    requires rn == k * 1.0 - nl && rl == k * nl - ll && rr == k * rn - rl
    ensures rn == nl && rr == ll
  {
  }

  /** `getColorPtLight`: the diffuse and the specular term of one light at one
      surface point. Each term is black when its cosine is negative; for
      non-negative light and surface colours the diffuse term is non-negative,
      and with a non-negative `ks` and power so is the specular term. */
  function GetColorPtLight(m: MathLib, eyePos: V.Vector, lightPos: V.Vector, pos: V.Vector,
                           geo: G.Geo, lightColor: C.Color): (terms: (C.Color, C.Color))
    ensures var n := G.GetNorm(m, geo, pos);
            var li := Towards(m, lightPos, pos);
            V.Dot(n, li) < 0.0 ==> terms.0 == C.Black
    ensures var n := G.GetNorm(m, geo, pos);
            var ri := V.Norm(m, Mirror(n, Towards(m, lightPos, pos)));
            V.Dot(ri, Towards(m, eyePos, pos)) < 0.0 ==> terms.1 == C.Black
    ensures C.NonNegative(lightColor) && C.NonNegative(geo.kd) ==> C.NonNegative(terms.0)
    ensures var n := G.GetNorm(m, geo, pos);
            var ri := V.Norm(m, Mirror(n, Towards(m, lightPos, pos)));
            var rv := V.Dot(ri, Towards(m, eyePos, pos));
            C.NonNegative(lightColor) && 0.0 <= geo.ks && 0.0 <= m.pow(rv, geo.specularPow) ==>
              C.NonNegative(terms.1)
  {
    var n := G.GetNorm(m, geo, pos);
    var v := Towards(m, eyePos, pos);
    var li := Towards(m, lightPos, pos);
    var ri := V.Norm(m, Mirror(n, li));
    var nl := V.Dot(n, li);
    var rv := V.Dot(ri, v);
    var diffuse := if nl < 0.0 then C.Black else C.Scale(nl, C.Times(lightColor, geo.kd));
    var specular := if rv < 0.0 then C.Black else C.Scale(geo.ks * m.pow(rv, geo.specularPow), lightColor);
    C.TimesNonNegative(lightColor, geo.kd);
    C.ScaleNonNegative(nl, C.Times(lightColor, geo.kd));
    NonNegativeProduct(geo.ks, m.pow(rv, geo.specularPow));
    C.ScaleNonNegative(geo.ks * m.pow(rv, geo.specularPow), lightColor);
    (diffuse, specular)
  }

  lemma NonNegativeProduct(a: real, b: real)
    ensures 0.0 <= a && 0.0 <= b ==> 0.0 <= a * b
  {
  }

  // ---------------------------------------------------------------- area lights

  /** The point of an area light a sample stands for: center + s·u + t·v. */
  function SamplePos(a: AreaLight, sp: S.Sample): V.Vector
  {
    V.Plus(V.Plus(a.center, V.Times(sp.s, a.u)), V.Times(sp.t, a.v))
  }

  /** What one sample of an area light contributes: whether its light point is
      visible from the surface point, and the two terms `getColorPtLight`
      gives for it. */
  datatype Shot = Shot(lit: bool, diffuse: C.Color, specular: C.Color)

  function SampleShot(m: MathLib, geos: seq<G.Geo>, h: Surface, a: AreaLight, sp: S.Sample): Shot
  {
    var terms := GetColorPtLight(m, h.eye, SamplePos(a, sp), h.pos, h.geo, a.color);
    Shot(!Blocked(m, geos, SamplePos(a, sp), h.pos), terms.0, terms.1)
  }

  /** The shots of all samples, in sample order. */
  function Shots(m: MathLib, geos: seq<G.Geo>, h: Surface, a: AreaLight, distr: seq<S.Sample>): seq<Shot>
  {
    seq(|distr|, j requires 0 <= j < |distr| => SampleShot(m, geos, h, a, distr[j]))
  }

  /** For non-negative light and surface colours every shot's diffuse term is
      non-negative. */
  lemma ShotsDiffuseNonNegative(m: MathLib, geos: seq<G.Geo>, h: Surface, a: AreaLight, distr: seq<S.Sample>)
    requires C.NonNegative(a.color) && C.NonNegative(h.geo.kd)
    ensures forall j :: 0 <= j < |distr| ==> C.NonNegative(Shots(m, geos, h, a, distr)[j].diffuse)
  {
  }

  /** The diffuse terms of the lit shots, summed in list order. */
  function LitDiffuseSum(shots: seq<Shot>): C.Color
  {
    if |shots| == 0 then C.Black
    else
      var acc := LitDiffuseSum(shots[..|shots| - 1]);
      var last := shots[|shots| - 1];
      if last.lit then C.Plus(acc, last.diffuse) else acc
  }

  /** The diffuse terms of all shots, shadows ignored. */
  function FullDiffuseSum(shots: seq<Shot>): C.Color
  {
    if |shots| == 0 then C.Black
    else C.Plus(FullDiffuseSum(shots[..|shots| - 1]), shots[|shots| - 1].diffuse)
  }

  /** The specular term kept by the reducer over the shots: it starts black and
      is replaced by a lit shot's term whenever that is strictly lighter. */
  function BrightestSpecular(m: MathLib, shots: seq<Shot>): C.Color
  {
    if |shots| == 0 then C.Black
    else
      var acc := BrightestSpecular(m, shots[..|shots| - 1]);
      var last := shots[|shots| - 1];
      if last.lit && C.Lightness(m, acc) < C.Lightness(m, last.specular) then last.specular else acc
  }

  /** The kept specular term is at least as light as that of every lit shot;
      with every shot in shadow it is black. */
  lemma {:induction false} BrightestSpecularIsMax(m: MathLib, shots: seq<Shot>)
    ensures forall j :: 0 <= j < |shots| && shots[j].lit ==>
              C.Lightness(m, shots[j].specular) <= C.Lightness(m, BrightestSpecular(m, shots))
    ensures (forall j :: 0 <= j < |shots| ==> !shots[j].lit) ==> BrightestSpecular(m, shots) == C.Black
  {
    if |shots| > 0 {
      var front := shots[..|shots| - 1];
      BrightestSpecularIsMax(m, front);
      assert forall j :: 0 <= j < |front| ==> front[j] == shots[j];
    }
  }

  /** The kept specular term is black or the term of a lit shot that is strictly
      lighter than that of every earlier lit shot: among the lightest, the first
      one wins. */
  lemma {:induction false} BrightestSpecularIsFirst(m: MathLib, shots: seq<Shot>)
    ensures var r := BrightestSpecular(m, shots);
            r == C.Black ||
            exists i :: 0 <= i < |shots| && shots[i].lit && r == shots[i].specular &&
              forall j :: 0 <= j < i && shots[j].lit ==> C.Lightness(m, shots[j].specular) < C.Lightness(m, r)
  {
    if |shots| > 0 {
      var front := shots[..|shots| - 1];
      var last := shots[|shots| - 1];
      var acc := BrightestSpecular(m, front);
      assert forall j :: 0 <= j < |front| ==> front[j] == shots[j];
      if last.lit && C.Lightness(m, acc) < C.Lightness(m, last.specular) {
        BrightestSpecularIsMax(m, front);
      } else {
        BrightestSpecularIsFirst(m, front);
      }
    }
  }

  /** Shadows only darken: with non-negative diffuse terms, the lit sum lies
      between black and the sum with every shot lit. */
  lemma {:induction false} LitDiffuseSumBounds(shots: seq<Shot>)
    requires forall j :: 0 <= j < |shots| ==> C.NonNegative(shots[j].diffuse)
    ensures C.NonNegative(LitDiffuseSum(shots))
    ensures C.AtMost(LitDiffuseSum(shots), FullDiffuseSum(shots))
  {
    if |shots| > 0 {
      LitDiffuseSumBounds(shots[..|shots| - 1]);
    }
  }

  /** With every shot lit the lit sum is the full sum; with none lit it is black. */
  lemma {:induction false} LitDiffuseSumExtremes(shots: seq<Shot>)
    ensures (forall j :: 0 <= j < |shots| ==> shots[j].lit) ==> LitDiffuseSum(shots) == FullDiffuseSum(shots)
    ensures (forall j :: 0 <= j < |shots| ==> !shots[j].lit) ==> LitDiffuseSum(shots) == C.Black
  {
    if |shots| > 0 {
      var front := shots[..|shots| - 1];
      assert forall j :: 0 <= j < |front| ==> front[j] == shots[j];
      LitDiffuseSumExtremes(front);
    }
  }

  /** The full sum of equal diffuse terms `d` is |shots|·d. */
  lemma {:induction false} FullSumOfConstant(shots: seq<Shot>, d: C.Color)
    requires forall j :: 0 <= j < |shots| ==> shots[j].diffuse == d
    ensures FullDiffuseSum(shots) == C.Scale(|shots| as real, d)
  {
    if |shots| > 0 {
      var front := shots[..|shots| - 1];
      assert forall j :: 0 <= j < |front| ==> front[j] == shots[j];
      FullSumOfConstant(front, d);
      ScaleStep(|front| as real, d);
    }
  }

  lemma ScaleStep(k: real, d: C.Color)
    ensures C.Plus(C.Scale(k, d), d) == C.Scale(k + 1.0, d)
  {
  }

  /** One area light's diffuse contribution: the lit sum averaged over n². */
  function AreaDiffuse(m: MathLib, geos: seq<G.Geo>, h: Surface, a: AreaLight, n: int, distr: seq<S.Sample>): C.Color
    requires 1 <= n
  {
    C.Scale(1.0 / ((n * n) as real), LitDiffuseSum(Shots(m, geos, h, a, distr)))
  }

  /** If every sample of an n×n grid is lit and gives the same diffuse term `d`,
      the area light's averaged diffuse term is `d`. */
  lemma AreaDiffuseUniform(m: MathLib, geos: seq<G.Geo>, h: Surface, a: AreaLight, n: int, distr: seq<S.Sample>, d: C.Color)
    requires 1 <= n && |distr| == n * n
    requires forall j :: 0 <= j < |distr| ==> Shots(m, geos, h, a, distr)[j] == Shot(true, d, Shots(m, geos, h, a, distr)[j].specular)
    ensures AreaDiffuse(m, geos, h, a, n, distr) == d
  {
    var shots := Shots(m, geos, h, a, distr);
    LitSumOfConstant(shots, d);
    ScaleInverse((n * n) as real, d);
  }

  /** The lit sum of shots that are all lit with the same diffuse term `d` is |shots|·d. */
  lemma LitSumOfConstant(shots: seq<Shot>, d: C.Color)
    requires forall j :: 0 <= j < |shots| ==> shots[j].lit && shots[j].diffuse == d
    ensures LitDiffuseSum(shots) == C.Scale(|shots| as real, d)
  {
    LitDiffuseSumExtremes(shots);
    FullSumOfConstant(shots, d);
  }

  lemma ScaleInverse(k: real, d: C.Color)
    requires 0.0 < k
    ensures C.Scale(1.0 / k, C.Scale(k, d)) == d
  {
    assert (1.0 / k) * (k * d.r) == d.r && (1.0 / k) * (k * d.g) == d.g && (1.0 / k) * (k * d.b) == d.b;
  }

  // ---------------------------------------------------------------- totals

  /** The averaged diffuse terms of the area lights, summed in list order. */
  function AreaDiffuseTotal(m: MathLib, geos: seq<G.Geo>, h: Surface, n: int, distr: seq<S.Sample>, areaLights: seq<AreaLight>): C.Color
    requires 1 <= n
  {
    if |areaLights| == 0 then C.Black
    else C.Plus(AreaDiffuseTotal(m, geos, h, n, distr, areaLights[..|areaLights| - 1]),
                AreaDiffuse(m, geos, h, areaLights[|areaLights| - 1], n, distr))
  }

  /** The kept specular terms of the area lights, summed in list order. */
  function AreaSpecularTotal(m: MathLib, geos: seq<G.Geo>, h: Surface, distr: seq<S.Sample>, areaLights: seq<AreaLight>): C.Color
  {
    if |areaLights| == 0 then C.Black
    else C.Plus(AreaSpecularTotal(m, geos, h, distr, areaLights[..|areaLights| - 1]),
                BrightestSpecular(m, Shots(m, geos, h, areaLights[|areaLights| - 1], distr)))
  }

  /** One more area light extends both running sums as the folds above do. */
  lemma AreaTotalsStep(m: MathLib, geos: seq<G.Geo>, h: Surface, n: int, distr: seq<S.Sample>,
                       areaLights: seq<AreaLight>, k: nat, d: C.Color, s: C.Color)
    requires 1 <= n && k < |areaLights|
    requires d == AreaDiffuseTotal(m, geos, h, n, distr, areaLights[..k])
    requires s == AreaSpecularTotal(m, geos, h, distr, areaLights[..k])
    ensures C.Plus(d, AreaDiffuse(m, geos, h, areaLights[k], n, distr)) ==
            AreaDiffuseTotal(m, geos, h, n, distr, areaLights[..k + 1])
    ensures C.Plus(s, BrightestSpecular(m, Shots(m, geos, h, areaLights[k], distr))) ==
            AreaSpecularTotal(m, geos, h, distr, areaLights[..k + 1])
  {
    assert areaLights[..k + 1][..k] == areaLights[..k];
  }

  /** The point light's position is visible from the surface point. */
  predicate LightVisible(m: MathLib, geos: seq<G.Geo>, h: Surface, l: Light)
  {
    !Blocked(m, geos, l.pos, h.pos)
  }

  /** Both terms of one point light. */
  function LightTerms(m: MathLib, h: Surface, l: Light): (C.Color, C.Color)
  {
    GetColorPtLight(m, h.eye, l.pos, h.pos, h.geo, l.color)
  }

  /** The diffuse terms of the visible point lights, summed in list order. */
  function PointDiffuseTotal(m: MathLib, geos: seq<G.Geo>, h: Surface, lights: seq<Light>): C.Color
  {
    if |lights| == 0 then C.Black
    else
      var acc := PointDiffuseTotal(m, geos, h, lights[..|lights| - 1]);
      var l := lights[|lights| - 1];
      if LightVisible(m, geos, h, l) then C.Plus(acc, LightTerms(m, h, l).0) else acc
  }

  /** The specular terms of the visible point lights, summed in list order. */
  function PointSpecularTotal(m: MathLib, geos: seq<G.Geo>, h: Surface, lights: seq<Light>): C.Color
  {
    if |lights| == 0 then C.Black
    else
      var acc := PointSpecularTotal(m, geos, h, lights[..|lights| - 1]);
      var l := lights[|lights| - 1];
      if LightVisible(m, geos, h, l) then C.Plus(acc, LightTerms(m, h, l).1) else acc
  }

  /** One more point light extends both running sums as the folds above do. */
  lemma PointTotalsStep(m: MathLib, geos: seq<G.Geo>, h: Surface, lights: seq<Light>, l: nat,
                        d0: C.Color, s0: C.Color, d: C.Color, s: C.Color, d': C.Color, s': C.Color)
    requires l < |lights|
    requires d == C.Plus(d0, PointDiffuseTotal(m, geos, h, lights[..l]))
    requires s == C.Plus(s0, PointSpecularTotal(m, geos, h, lights[..l]))
    requires if LightVisible(m, geos, h, lights[l])
             then d' == C.Plus(d, LightTerms(m, h, lights[l]).0) && s' == C.Plus(s, LightTerms(m, h, lights[l]).1)
             else d' == d && s' == s
    ensures d' == C.Plus(d0, PointDiffuseTotal(m, geos, h, lights[..l + 1]))
    ensures s' == C.Plus(s0, PointSpecularTotal(m, geos, h, lights[..l + 1]))
  {
    assert lights[..l + 1][..l] == lights[..l];
  }

  /** The ambient term ka·Ia·kd. */
  function Ambient(scene: Scene, geo: G.Geo): C.Color
  {
    C.Times(C.Scale(geo.ka, scene.ambient), geo.kd)
  }

  /** The colour `getColor` returns: ambient, plus the diffuse of the area lights
      and then the point lights, plus their specular terms in the same order. */
  function Shade(m: MathLib, scene: Scene, h: Surface, n: int, distr: seq<S.Sample>): C.Color
    requires 1 <= n
  {
    var diffuse := C.Plus(AreaDiffuseTotal(m, scene.geos, h, n, distr, scene.areaLights),
                          PointDiffuseTotal(m, scene.geos, h, scene.lights));
    var specular := C.Plus(AreaSpecularTotal(m, scene.geos, h, distr, scene.areaLights),
                           PointSpecularTotal(m, scene.geos, h, scene.lights));
    C.Plus(C.Plus(Ambient(scene, h.geo), diffuse), specular)
  }

  /** A point in full shadow, from every point light and every sample of every
      area light, gets the ambient term alone. */
  lemma ShadeInShadow(m: MathLib, scene: Scene, h: Surface, n: int, distr: seq<S.Sample>)
    requires 1 <= n
    requires forall l :: l in scene.lights ==> Blocked(m, scene.geos, l.pos, h.pos)
    requires forall a, j :: a in scene.areaLights && 0 <= j < |distr| ==> Blocked(m, scene.geos, SamplePos(a, distr[j]), h.pos)
    ensures Shade(m, scene, h, n, distr) == Ambient(scene, h.geo)
  {
    forall a | a in scene.areaLights
      ensures LitDiffuseSum(Shots(m, scene.geos, h, a, distr)) == C.Black
      ensures BrightestSpecular(m, Shots(m, scene.geos, h, a, distr)) == C.Black
    {
      LitDiffuseSumExtremes(Shots(m, scene.geos, h, a, distr));
      BrightestSpecularIsMax(m, Shots(m, scene.geos, h, a, distr));
    }
    AreaTotalsDark(m, scene.geos, h, n, distr, scene.areaLights);
    PointTotalsDark(m, scene.geos, h, scene.lights);
  }

  lemma {:induction false} AreaTotalsDark(m: MathLib, geos: seq<G.Geo>, h: Surface, n: int, distr: seq<S.Sample>, areaLights: seq<AreaLight>)
    requires 1 <= n
    requires forall a :: a in areaLights ==>
               LitDiffuseSum(Shots(m, geos, h, a, distr)) == C.Black && BrightestSpecular(m, Shots(m, geos, h, a, distr)) == C.Black
    ensures AreaDiffuseTotal(m, geos, h, n, distr, areaLights) == C.Black
    ensures AreaSpecularTotal(m, geos, h, distr, areaLights) == C.Black
  {
    if |areaLights| > 0 {
      var front := areaLights[..|areaLights| - 1];
      assert forall a :: a in front ==> a in areaLights;
      assert areaLights[|areaLights| - 1] in areaLights;
      AreaTotalsDark(m, geos, h, n, distr, front);
    }
  }

  lemma {:induction false} PointTotalsDark(m: MathLib, geos: seq<G.Geo>, h: Surface, lights: seq<Light>)
    requires forall l :: l in lights ==> Blocked(m, geos, l.pos, h.pos)
    ensures PointDiffuseTotal(m, geos, h, lights) == C.Black
    ensures PointSpecularTotal(m, geos, h, lights) == C.Black
  {
    if |lights| > 0 {
      var front := lights[..|lights| - 1];
      assert forall l :: l in front ==> l in lights;
      assert lights[|lights| - 1] in lights;
      PointTotalsDark(m, geos, h, front);
    }
  }
}

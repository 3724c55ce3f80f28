/** The `RayTracer` application object: the scene lists and settings its
    commands update, and the tracing methods that read them. */
module Tracer {
  import opened Numerics
  import V = Vectors
  import C = Colors
  import G = Geometry
  import S = Sampling
  import Sh = Shading

  class RayTracer {
    /** The host's math library. */
    const math: MathLib
    const width: real
    const height: real
    const screenWidth: real
    const screenHeight: real
    /** `DEG2RAD` */
    const deg2Rad: real

    var jitter: bool
    var samples: int

    var geos: seq<G.Geo>
    var lights: seq<Sh.Light>
    var areaLights: seq<Sh.AreaLight>
    var Ia: C.Color
    var backgroundColor: C.Color

    /** The field of view, in degrees. */
    var fov: real
    var cameraPos: V.Vector
    var lookAtVec: V.Vector
    var upVec: V.Vector

    /** The field initialisers of the source; the canvas set-up is not modelled. */
    constructor (math: MathLib, width: real, height: real, screenWidth: real, screenHeight: real)
      ensures this.math == math && this.width == width && this.height == height
      ensures this.screenWidth == screenWidth && this.screenHeight == screenHeight
      ensures deg2Rad == math.pi / 180.0
      ensures !jitter && samples == 1
      ensures geos == [] && lights == [] && areaLights == []
      ensures Ia == C.Black && backgroundColor == C.Black
      ensures fov == 90.0 && cameraPos == V.Zero
      ensures lookAtVec == V.Vector(0.0, 0.0, 1.0) && upVec == V.Vector(0.0, 1.0, 0.0)
    {
      this.math := math;
      this.width := width;
      this.height := height;
      this.screenWidth := screenWidth;
      this.screenHeight := screenHeight;
      deg2Rad := math.pi / 180.0;
      jitter := false;
      samples := 1;
      geos := [];
      lights := [];
      areaLights := [];
      Ia := C.Black;
      backgroundColor := C.Black;
      fov := 90.0;
      cameraPos := V.Zero;
      lookAtVec := V.Vector(0.0, 0.0, 1.0);
      upVec := V.Vector(0.0, 1.0, 0.0);
    }

    /** The scene as the shading functions see it. */
    function Scene(): Sh.Scene
      reads this
    {
      Sh.Scene(geos, lights, areaLights, Ia)
    }

    /** The camera and the sampling settings. */
    function View(): (real, V.Vector, V.Vector, V.Vector, bool, int, C.Color)
      reads this
    {
      (fov, cameraPos, lookAtVec, upVec, jitter, samples, backgroundColor)
    }

    // ------------------------------------------------------------ scene commands

    /** `new_sphere`: appends one sphere and changes nothing else. */
    method NewSphere(center: V.Vector, radius: real, kd: C.Color, ka: real, ks: real, specularPow: real)
      modifies this
      ensures geos == old(geos) + [G.Sphere(radius, center, kd, ka, ks, specularPow)]
      ensures lights == old(lights) && areaLights == old(areaLights) && Ia == old(Ia) && View() == old(View())
    {
      geos := geos + [G.Sphere(radius, center, kd, ka, ks, specularPow)];
    }

    /** `new_disk`: appends one disk and changes nothing else. */
    method NewDisk(center: V.Vector, radius: real, normal: V.Vector, kd: C.Color, ka: real, ks: real, specularPow: real)
      modifies this
      ensures geos == old(geos) + [G.Disk(radius, center, normal, kd, ka, ks, specularPow)]
      ensures lights == old(lights) && areaLights == old(areaLights) && Ia == old(Ia) && View() == old(View())
    {
      geos := geos + [G.Disk(radius, center, normal, kd, ka, ks, specularPow)];
    }

    /** `new_light`: appends one point light and changes nothing else. */
    method NewLight(color: C.Color, pos: V.Vector)
      modifies this
      ensures lights == old(lights) + [Sh.Light(pos, color)]
      ensures geos == old(geos) && areaLights == old(areaLights) && Ia == old(Ia) && View() == old(View())
    {
      lights := lights + [Sh.Light(pos, color)];
    }

    /** `area_light`: appends one area light and changes nothing else. */
    method AreaLight(color: C.Color, center: V.Vector, u: V.Vector, v: V.Vector)
      modifies this
      ensures areaLights == old(areaLights) + [Sh.AreaLight(center, color, u, v)]
      ensures geos == old(geos) && lights == old(lights) && Ia == old(Ia) && View() == old(View())
    {
      areaLights := areaLights + [Sh.AreaLight(center, color, u, v)];
    }

    /** `ambient_light` */
    method AmbientLight(color: C.Color)
      modifies this
      ensures Ia == color
      ensures geos == old(geos) && lights == old(lights) && areaLights == old(areaLights) && View() == old(View())
    {
      Ia := color;
    }

    /** `set_background` */
    method SetBackground(color: C.Color)
      modifies this
      ensures backgroundColor == color
      ensures geos == old(geos) && lights == old(lights) && areaLights == old(areaLights) && Ia == old(Ia)
      ensures fov == old(fov) && cameraPos == old(cameraPos) && lookAtVec == old(lookAtVec) && upVec == old(upVec)
      ensures jitter == old(jitter) && samples == old(samples)
    {
      backgroundColor := color;
    }

    /** `set_fov` */
    method SetFov(theta: real)
      modifies this
      ensures fov == theta
      ensures geos == old(geos) && lights == old(lights) && areaLights == old(areaLights) && Ia == old(Ia)
      ensures cameraPos == old(cameraPos) && lookAtVec == old(lookAtVec) && upVec == old(upVec)
      ensures jitter == old(jitter) && samples == old(samples) && backgroundColor == old(backgroundColor)
    {
      fov := theta;
    }

    /** `set_eye`: the camera sits at `eye`; `lookAtVec` is the normalised vector
        from the looked-at point back to the eye and `upVec` the normalised up
        vector (unit vectors by `Vectors.Norm` when the square root is sound). */
    method SetEye(eye: V.Vector, lookUpPos: V.Vector, up: V.Vector)
      modifies this
      ensures cameraPos == eye
      ensures lookAtVec == V.Norm(math, V.Minus(eye, lookUpPos)) && upVec == V.Norm(math, up)
      ensures geos == old(geos) && lights == old(lights) && areaLights == old(areaLights) && Ia == old(Ia)
      ensures fov == old(fov) && jitter == old(jitter) && samples == old(samples) && backgroundColor == old(backgroundColor)
    {
      cameraPos := eye;
      lookAtVec := V.Norm(math, V.Minus(cameraPos, lookUpPos));
      upVec := V.Norm(math, up);
    }

    /** `reset_scene`: empties the three lists, sets the ambient light to black
        and the background to white, and puts the camera back at the origin
        looking down −z with +y up (exactly the initial camera when the square
        root is sound, by `Vectors.AxesAreUnit`). */
    method ResetScene()
      modifies this
      ensures geos == [] && lights == [] && areaLights == []
      ensures Ia == C.Black && backgroundColor == C.White
      ensures fov == 90.0 && cameraPos == V.Zero
      ensures lookAtVec == V.Norm(math, V.Vector(0.0, 0.0, 1.0)) && upVec == V.Norm(math, V.Vector(0.0, 1.0, 0.0))
      ensures jitter == old(jitter) && samples == old(samples)
    {
      SetFov(90.0);
      SetEye(V.Zero, V.Vector(0.0, 0.0, -1.0), V.Vector(0.0, 1.0, 0.0));
      assert V.Minus(V.Zero, V.Vector(0.0, 0.0, -1.0)) == V.Vector(0.0, 0.0, 1.0);
      geos := [];
      lights := [];
      areaLights := [];
      Ia := C.Black;
      SetBackground(C.White);
    }

    /** `set_sample_level`: n² rays per pixel and per area light from now on. */
    method SetSampleLevel(num: int)
      modifies this
      ensures samples == num
      ensures geos == old(geos) && lights == old(lights) && areaLights == old(areaLights) && Ia == old(Ia)
      ensures jitter == old(jitter) && backgroundColor == old(backgroundColor)
      ensures fov == old(fov) && cameraPos == old(cameraPos) && lookAtVec == old(lookAtVec) && upVec == old(upVec)
    {
      samples := num;
    }

    /** `jitter_on` */
    method JitterOn()
      modifies this
      ensures jitter
      ensures geos == old(geos) && lights == old(lights) && areaLights == old(areaLights) && Ia == old(Ia)
      ensures samples == old(samples) && backgroundColor == old(backgroundColor)
      ensures fov == old(fov) && cameraPos == old(cameraPos) && lookAtVec == old(lookAtVec) && upVec == old(upVec)
    {
      jitter := true;
    }

    /** `jitter_off` */
    method JitterOff()
      modifies this
      ensures !jitter
      ensures geos == old(geos) && lights == old(lights) && areaLights == old(areaLights) && Ia == old(Ia)
      ensures samples == old(samples) && backgroundColor == old(backgroundColor)
      ensures fov == old(fov) && cameraPos == old(cameraPos) && lookAtVec == old(lookAtVec) && upVec == old(upVec)
    {
      jitter := false;
    }

    // ------------------------------------------------------------ tracing

    /** `createDistribution`: the two counting loops over real counters, stopped
        by `greaterEpsilon(1 - i)`, push the n² samples of the grid in row-major
        order. `draws(k)` is the k-th value `Math.random` returns during the call. */
    method CreateDistribution(draws: nat -> real) returns (res: seq<S.Sample>)
      requires S.SampleLevelOk(samples)
      ensures res == S.Distribution(samples, jitter, draws)
    {
      var n := samples;
      var step := S.Step(n);
      res := [];
      var i := -1.0;
      ghost var k := 0;
      S.LoopTest(n, 0);
      while GreaterEpsilon(1.0 - i)
        invariant 0 <= k <= n && i == S.CellLo(n, k)
        invariant res == S.Grid(n, jitter, draws, k)
        decreases n - k
      {
        S.LoopTest(n, k);
        res := PushRow(draws, res, i, k);
        i := i + step;
        k := k + 1;
      }
      S.LoopTest(n, k);
    }

    /** The inner loop of `createDistribution`: pushes the n samples of the
        row whose outer counter is `i`, the k-th value of the counter. */
    method PushRow(draws: nat -> real, prefix: seq<S.Sample>, i: real, ghost k: nat) returns (res: seq<S.Sample>)
      requires S.SampleLevelOk(samples) && i == S.CellLo(samples, k)
      ensures res == prefix + S.Row(samples, jitter, draws, k, |prefix|, samples)
    {
      var n := samples;
      var step := S.Step(n);
      res := prefix;
      var j := -1.0;
      ghost var l := 0;
      S.LoopTest(n, 0);
      while GreaterEpsilon(1.0 - j)
        invariant 0 <= l <= n && j == S.CellLo(n, l)
        invariant |res| == |prefix| + l
        invariant res == prefix + S.Row(n, jitter, draws, k, |prefix|, l)
        decreases n - l
      {
        S.LoopTest(n, l);
        var idx := |res|;
        var curr;
        if jitter {
          var u, v := draws(2 * idx), draws(2 * idx + 1);
          curr := S.Sample(i + step * u, j + step * v);
          S.CoordinateOfCounter(n, k, i, step, u);
          S.CoordinateOfCounter(n, l, j, step, v);
        } else {
          curr := S.Sample(i + step * 0.5, j + step * 0.5);
          S.CoordinateOfCounter(n, k, i, step, 0.5);
          S.CoordinateOfCounter(n, l, j, step, 0.5);
        }
        assert curr == S.Cell(n, jitter, draws, k, l, idx);
        res := res + [curr];
        j := j + step;
        l := l + 1;
      }
      S.LoopTest(n, l);
    }

    /** `isBlocked`: scans every primitive for a hit before time 1 on the shadow ray. */
    method IsBlocked(lightPos: V.Vector, pos: V.Vector) returns (res: bool)
      ensures res == Sh.Blocked(math, geos, lightPos, pos)
    {
      var direction := V.Minus(lightPos, pos);
      var currRay := G.Ray(V.Plus(pos, V.Times(0.001, V.Norm(math, direction))), direction);
      assert currRay == Sh.ShadowRay(math, lightPos, pos);
      res := false;
      var i := 0;
      while i < |geos|
        invariant 0 <= i <= |geos|
        invariant res == exists j :: 0 <= j < i && Sh.Occludes(math, geos[j], currRay)
      {
        var timeX := G.Collide(math, geos[i], currRay);
        if timeX.Some? && timeX.value < 1.0 {
          res := true;
        }
        assert res == ((exists j :: 0 <= j < i && Sh.Occludes(math, geos[j], currRay)) || Sh.Occludes(math, geos[i], currRay));
        i := i + 1;
      }
    }

    /** `getColor`: shades the point at time `t` of `ray` on `geo`, summing over
        the area lights (averaged diffuse, brightest lit specular) and then the
        visible point lights, on top of the ambient term. */
    method GetColor(t: real, ray: G.Ray, geo: G.Geo, draws: nat -> real) returns (c: C.Color)
      requires S.SampleLevelOk(samples)
      ensures c == Sh.Shade(math, Scene(), Sh.Surface(ray.start, G.PointAt(ray, t), geo),
                            samples, S.Distribution(samples, jitter, draws))
    {
      var pos := V.Plus(ray.start, V.Times(t, ray.dir));
      var distr := CreateDistribution(draws);
      var diffuseTermSum, specularTermSum := AreaLightsTerms(ray.start, pos, geo, distr);
      diffuseTermSum, specularTermSum := PointLightsTerms(ray.start, pos, geo, diffuseTermSum, specularTermSum);
      c := C.Black;
      c := C.Plus(c, C.Times(C.Scale(geo.ka, Ia), geo.kd));
      c := C.Plus(c, diffuseTermSum);
      c := C.Plus(c, specularTermSum);
    }

    /** The `areaLights.forEach` of `getColor`: the sums of the area lights'
        averaged diffuse terms and of their kept specular terms. */
    method AreaLightsTerms(eye: V.Vector, pos: V.Vector, geo: G.Geo, distr: seq<S.Sample>)
      returns (diffuseTermSum: C.Color, specularTermSum: C.Color)
      requires 1 <= samples
      ensures diffuseTermSum == Sh.AreaDiffuseTotal(math, geos, Sh.Surface(eye, pos, geo), samples, distr, areaLights)
      ensures specularTermSum == Sh.AreaSpecularTotal(math, geos, Sh.Surface(eye, pos, geo), distr, areaLights)
    {
      ghost var h := Sh.Surface(eye, pos, geo);
      diffuseTermSum := C.Black;
      specularTermSum := C.Black;
      var k := 0;
      while k < |areaLights|
        invariant 0 <= k <= |areaLights|
        invariant diffuseTermSum == Sh.AreaDiffuseTotal(math, geos, h, samples, distr, areaLights[..k])
        invariant specularTermSum == Sh.AreaSpecularTotal(math, geos, h, distr, areaLights[..k])
      {
        var dTerm, sTerm := AreaLightTerms(eye, pos, geo, areaLights[k], distr);
        Sh.AreaTotalsStep(math, geos, h, samples, distr, areaLights, k, diffuseTermSum, specularTermSum);
        diffuseTermSum := C.Plus(diffuseTermSum, dTerm);
        specularTermSum := C.Plus(specularTermSum, sTerm);
        k := k + 1;
      }
      assert areaLights[..|areaLights|] == areaLights;
    }

    /** The `lights.forEach` of `getColor`: adds the two terms of every point
        light visible from `pos` to the running sums. */
    method PointLightsTerms(eye: V.Vector, pos: V.Vector, geo: G.Geo, diffuse0: C.Color, specular0: C.Color)
      returns (diffuseTermSum: C.Color, specularTermSum: C.Color)
      ensures diffuseTermSum == C.Plus(diffuse0, Sh.PointDiffuseTotal(math, geos, Sh.Surface(eye, pos, geo), lights))
      ensures specularTermSum == C.Plus(specular0, Sh.PointSpecularTotal(math, geos, Sh.Surface(eye, pos, geo), lights))
    {
      ghost var h := Sh.Surface(eye, pos, geo);
      diffuseTermSum, specularTermSum := diffuse0, specular0;
      var l := 0;
      while l < |lights|
        invariant 0 <= l <= |lights|
        invariant diffuseTermSum == C.Plus(diffuse0, Sh.PointDiffuseTotal(math, geos, h, lights[..l]))
        invariant specularTermSum == C.Plus(specular0, Sh.PointSpecularTotal(math, geos, h, lights[..l]))
      {
        var d, s := AddPointLight(eye, pos, geo, lights[l], diffuseTermSum, specularTermSum);
        Sh.PointTotalsStep(math, geos, h, lights, l, diffuse0, specular0, diffuseTermSum, specularTermSum, d, s);
        diffuseTermSum, specularTermSum := d, s;
        l := l + 1;
      }
      assert lights[..|lights|] == lights;
    }

    /** The callback `getColor` runs for one point light: when the light is
        visible from `pos`, its two terms are added to the running sums. */
    method AddPointLight(eye: V.Vector, pos: V.Vector, geo: G.Geo, light: Sh.Light, diffuse0: C.Color, specular0: C.Color)
      returns (diffuseTermSum: C.Color, specularTermSum: C.Color)
      ensures var h := Sh.Surface(eye, pos, geo);
              if Sh.LightVisible(math, geos, h, light)
              then diffuseTermSum == C.Plus(diffuse0, Sh.LightTerms(math, h, light).0) &&
                   specularTermSum == C.Plus(specular0, Sh.LightTerms(math, h, light).1)
              else diffuseTermSum == diffuse0 && specularTermSum == specular0
    {
      diffuseTermSum, specularTermSum := diffuse0, specular0;
      var blocked := IsBlocked(light.pos, pos);
      if !blocked {
        var terms := Sh.GetColorPtLight(math, eye, light.pos, pos, geo, light.color);
        diffuseTermSum := C.Plus(diffuseTermSum, terms.0);
        specularTermSum := C.Plus(specularTermSum, terms.1);
      }
    }

    /** The callback `getColor` runs for one area light: over the samples it sums
        the diffuse terms of the unblocked light points, averaged over n², and
        keeps the lightest unblocked specular term. */
    method AreaLightTerms(eye: V.Vector, pos: V.Vector, geo: G.Geo, aLight: Sh.AreaLight, distr: seq<S.Sample>)
      returns (dTerm: C.Color, sTerm: C.Color)
      requires 1 <= samples
      ensures dTerm == Sh.AreaDiffuse(math, geos, Sh.Surface(eye, pos, geo), aLight, samples, distr)
      ensures sTerm == Sh.BrightestSpecular(math, Sh.Shots(math, geos, Sh.Surface(eye, pos, geo), aLight, distr))
    {
      ghost var shots := Sh.Shots(math, geos, Sh.Surface(eye, pos, geo), aLight, distr);
      dTerm := C.Black;
      sTerm := C.Black;
      var j := 0;
      while j < |distr|
        invariant 0 <= j <= |distr|
        invariant dTerm == Sh.LitDiffuseSum(shots[..j])
        invariant sTerm == Sh.BrightestSpecular(math, shots[..j])
      {
        var sp := distr[j];
        var lightPos := V.Plus(V.Plus(aLight.center, V.Times(sp.s, aLight.u)), V.Times(sp.t, aLight.v));
        var terms := Sh.GetColorPtLight(math, eye, lightPos, pos, geo, aLight.color);
        var blocked := IsBlocked(lightPos, pos);
        assert shots[j] == Sh.Shot(!blocked, terms.0, terms.1);
        if !blocked {
          dTerm := C.Plus(dTerm, terms.0);
          if C.Lightness(math, sTerm) < C.Lightness(math, terms.1) {
            sTerm := terms.1;
          }
        }
        assert shots[..j + 1][..j] == shots[..j];
        j := j + 1;
      }
      assert shots[..|distr|] == shots;
      S.SampleCountPositive(samples);
      dTerm := C.Scale(1.0 / ((samples * samples) as real), dTerm);
    }

    /** `traceRay`: the background colour when no primitive is hit; otherwise the
        colour of the nearest hit, the first primitive among equal minima. */
    method TraceRay(ray: G.Ray, draws: nat -> real) returns (c: C.Color)
      requires S.SampleLevelOk(samples) || G.NoHit(G.HitTimes(math, geos, ray), |geos|)
      ensures var hits := G.HitTimes(math, geos, ray);
              G.NoHit(hits, |geos|) ==> c == backgroundColor
      ensures var hits := G.HitTimes(math, geos, ray);
              !G.NoHit(hits, |geos|) ==>
                exists i: nat :: G.IsNearest(hits, |geos|, i) &&
                  c == Sh.Shade(math, Scene(), Sh.Surface(ray.start, G.PointAt(ray, hits[i].value), geos[i]),
                                samples, S.Distribution(samples, jitter, draws))
    {
      ghost var hits := G.HitTimes(math, geos, ray);
      if |geos| == 0 {
        return backgroundColor;
      }
      var t := 0.0;
      var geoIdx := -1;
      var i := 0;
      while i < |geos|
        invariant 0 <= i <= |geos| && -1 <= geoIdx < i
        invariant geoIdx < 0 ==> G.NoHit(hits, i)
        invariant 0 <= geoIdx ==> G.IsNearest(hits, i, geoIdx) && t == hits[geoIdx].value
      {
        var time := G.Collide(math, geos[i], ray);
        if time.Some? && (geoIdx < 0 || time.value < t) {
          t := time.value;
          geoIdx := i;
        }
        i := i + 1;
      }
      if geoIdx < 0 {
        c := backgroundColor;
      } else {
        c := GetColor(t, ray, geos[geoIdx], draws);
      }
    }

    /** The factor `d = 1/tan(fov/2)` of `eyeRay`. */
    function FocalFactor(): real
      reads this
      requires math.tan(fov * deg2Rad / 2.0) != 0.0
    {
      1.0 / math.tan(fov * deg2Rad / 2.0)
    }

    /** `eyeRay(i, j)`: a ray from the camera through screen position (i, j),
        its direction normalised. Through the centre of the screen, column
        screenWidth/2 and row screenHeight·width/(2·height), where both screen
        offsets vanish, the ray's direction is norm(−d·lookAtVec); for d > 0
        (0 < fov < 180 with the true tan) that is straight along −lookAtVec. */
    function EyeRay(i: real, j: real): (r: G.Ray)
      reads this
      requires math.tan(fov * deg2Rad / 2.0) != 0.0
      requires screenWidth != 0.0 && screenHeight != 0.0 && width != 0.0
      ensures r.start == cameraPos
      ensures -1.0 + 2.0 * i / screenWidth == 0.0 && 1.0 - 2.0 * j / screenHeight * height / width == 0.0 ==>
                r.dir == V.Norm(math, V.Times(-FocalFactor(), lookAtVec))
      ensures i == screenWidth / 2.0 && height != 0.0 && j == screenHeight * width / (2.0 * height) ==>
                r.dir == V.Norm(math, V.Times(-FocalFactor(), lookAtVec))
    {
      var d := FocalFactor();
      var us := -1.0 + 2.0 * i / screenWidth;
      var u := V.Cross(upVec, lookAtVec);
      var vs := 1.0 - 2.0 * j / screenHeight * height / width;
      var dir := V.Plus(V.Plus(V.Times(-d, lookAtVec), V.Times(us, u)), V.Times(vs, upVec));
      NoScreenOffset(-d, lookAtVec, us, u, vs, upVec);
      CentreColumn(screenWidth, i);
      CentreRow(screenHeight, width, height, j);
      G.Ray(cameraPos, V.Norm(math, dir))
    }
  }

  /** With both screen offsets zero, the direction is the forward term alone. */
  lemma NoScreenOffset(k: real, forward: V.Vector, us: real, u: V.Vector, vs: real, up: V.Vector)
    ensures us == 0.0 && vs == 0.0 ==> V.Plus(V.Plus(V.Times(k, forward), V.Times(us, u)), V.Times(vs, up)) == V.Times(k, forward)
  {
  }

  /** The screen column `screenWidth / 2` maps to the horizontal offset 0. */
  lemma CentreColumn(screenWidth: real, i: real)
    requires screenWidth != 0.0
    ensures i == screenWidth / 2.0 ==> -1.0 + 2.0 * i / screenWidth == 0.0
  {
  }

  /** The screen row `screenHeight · width / (2 · height)` maps to the vertical
      offset 0. */
  lemma CentreRow(screenHeight: real, width: real, height: real, j: real)
    requires screenHeight != 0.0 && width != 0.0
    ensures height != 0.0 && j == screenHeight * width / (2.0 * height) ==>
              1.0 - 2.0 * j / screenHeight * height / width == 0.0
  {
    if height != 0.0 && j == screenHeight * width / (2.0 * height) {
      var q := width / height;
      assert 2.0 * j == screenHeight * q;
      assert 2.0 * j / screenHeight == q;
      assert q * height == width;
      assert 2.0 * j / screenHeight * height == width;
      assert 2.0 * j / screenHeight * height / width == 1.0;
    }
  }
}

// The nearest-hit selection of `trace_radiance` in src/main.rs.
module Radiance {
  import opened Geometry

  /** The ray parameter at which sphere `j` is hit, if it is. */
  function ParamAt(spheres: seq<Sphere>, ray: Ray, test: HitTest, j: nat): Option<real>
    requires j < |spheres|
  {
    test(spheres[j], ray)
  }

  /** None of the first `n` spheres is hit. */
  ghost predicate NoHitAmong(spheres: seq<Sphere>, ray: Ray, test: HitTest, n: nat)
    requires n <= |spheres|
  {
    forall j :: 0 <= j < n ==> ParamAt(spheres, ray, test, j).None?
  }

  /** Among the first `n` spheres, sphere `k` holds the nearest hit: it is
      hit, no sphere is hit at a smaller parameter, and every sphere before
      it is either missed or hit strictly further away (ties go to the
      earliest sphere). */
  ghost predicate NearestAmong(spheres: seq<Sphere>, ray: Ray, test: HitTest, n: nat, k: nat)
    requires n <= |spheres|
  {
    && k < n
    && ParamAt(spheres, ray, test, k).Some?
    && (forall j :: 0 <= j < n && ParamAt(spheres, ray, test, j).Some? ==>
          ParamAt(spheres, ray, test, k).value <= ParamAt(spheres, ray, test, j).value)
    && (forall j :: 0 <= j < k && ParamAt(spheres, ray, test, j).Some? ==>
          ParamAt(spheres, ray, test, k).value < ParamAt(spheres, ray, test, j).value)
  }

  /** At most one sphere is the nearest one. */
  lemma NearestUnique(spheres: seq<Sphere>, ray: Ray, test: HitTest, n: nat, k1: nat, k2: nat)
    requires n <= |spheres|
    requires NearestAmong(spheres, ray, test, n, k1) && NearestAmong(spheres, ray, test, n, k2)
    ensures k1 == k2
  {
  }

  /** Whenever some sphere is hit, a nearest one exists. */
  lemma {:induction false} NearestExists(spheres: seq<Sphere>, ray: Ray, test: HitTest, n: nat)
    requires n <= |spheres|
    requires !NoHitAmong(spheres, ray, test, n)
    ensures exists k: nat :: NearestAmong(spheres, ray, test, n, k)
  {
    var m := n - 1;
    if NoHitAmong(spheres, ray, test, m) {
      assert NearestAmong(spheres, ray, test, n, m);
    } else {
      NearestExists(spheres, ray, test, m);
      var k :| NearestAmong(spheres, ray, test, m, k);
      var tm := ParamAt(spheres, ray, test, m);
      if tm.Some? && tm.value < ParamAt(spheres, ray, test, k).value {
        assert NearestAmong(spheres, ray, test, n, m);
      } else {
        assert NearestAmong(spheres, ray, test, n, k);
      }
    }
  }

  /** The loop of `trace_radiance`: scan the spheres in scene order and
      keep a hit only when its parameter is strictly smaller than the one
      kept so far. */
  method NearestHit(ray: Ray, scene: Scene, test: HitTest) returns (nearest: Option<Hit>)
    ensures nearest.None? <==> NoHitAmong(scene.spheres, ray, test, |scene.spheres|)
    ensures forall k: nat :: NearestAmong(scene.spheres, ray, test, |scene.spheres|, k) ==>
      nearest == Some(Hit(ParamAt(scene.spheres, ray, test, k).value, scene.spheres[k].material))
  {
    var spheres := scene.spheres;
    nearest := None;
    ghost var k: nat := 0;
    for i := 0 to |spheres|
      invariant nearest.None? <==> NoHitAmong(spheres, ray, test, i)
      invariant nearest.Some? ==>
        NearestAmong(spheres, ray, test, i, k) &&
        nearest.value == Hit(ParamAt(spheres, ray, test, k).value, spheres[k].material)
    {
      var hit := Intersect(spheres[i], ray, test);
      assert hit.None? <==> ParamAt(spheres, ray, test, i).None?;
      if hit.Some? {
        assert hit.value == Hit(ParamAt(spheres, ray, test, i).value, spheres[i].material);
        match nearest {
          case Some(n) =>
            if hit.value.parameter < n.parameter {
              nearest, k := hit, i;
            }
          case None =>
            nearest, k := hit, i;
        }
      }
    }
    forall k': nat | NearestAmong(spheres, ray, test, |spheres|, k')
      ensures nearest == Some(Hit(ParamAt(spheres, ray, test, k').value, spheres[k'].material))
    {
      NearestUnique(spheres, ray, test, |spheres|, k, k');
    }
  }

  /** `trace_radiance`: the colour of the nearest hit's material, or black
      when no sphere is hit. */
  method TraceRadiance(ray: Ray, scene: Scene, test: HitTest) returns (radiance: Vec3)
    ensures NoHitAmong(scene.spheres, ray, test, |scene.spheres|) ==> radiance == Zero
    ensures forall k: nat :: NearestAmong(scene.spheres, ray, test, |scene.spheres|, k) ==>
      radiance == ColorOf(scene.spheres[k].material)
    ensures !NoHitAmong(scene.spheres, ray, test, |scene.spheres|) ==>
      exists k: nat :: NearestAmong(scene.spheres, ray, test, |scene.spheres|, k) &&
        radiance == ColorOf(scene.spheres[k].material)
    ensures (forall j :: 0 <= j < |scene.spheres| ==> ColorOf(scene.spheres[j].material) != Zero) ==>
      (radiance == Zero <==> NoHitAmong(scene.spheres, ray, test, |scene.spheres|))
  {
    var nearest := NearestHit(ray, scene, test);
    match nearest {
      case Some(hit) =>
        match hit.material {
          case Color(c) => radiance := c;
        }
      case None =>
        radiance := Zero;
    }
    if !NoHitAmong(scene.spheres, ray, test, |scene.spheres|) {
      NearestExists(scene.spheres, ray, test, |scene.spheres|);
    }
  }
}

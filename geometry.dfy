// The value types of src/main.rs that the nearest-hit search works on.
// f32 components are modelled as `real`; the vector arithmetic of the
// `hmath` crate is not part of this model.
module Geometry {

  datatype Option<T> = None | Some(value: T)

  datatype Vec3 = Vec3(x: real, y: real, z: real)

  /** `Vec3::zero()`: black, the background radiance. */
  const Zero: Vec3 := Vec3(0.0, 0.0, 0.0)

  datatype Ray = Ray(origin: Vec3, direction: Vec3)

  /** `Material`: a closed variant with a single case. */
  datatype Material = Color(color: Vec3)

  datatype Sphere = Sphere(origin: Vec3, radius: real, material: Material)

  /** `Scene`: the spheres, in scene order. */
  datatype Scene = Scene(spheres: seq<Sphere>)

  /** `Hit`: the ray parameter of an intersection and the material of the
      sphere that produced it. Position and normal are not modelled. */
  datatype Hit = Hit(parameter: real, material: Material)

  /** The geometric part of `intersect`: the ray parameter at which `ray`
      enters `sphere`, or None. It stands for the f32 computation, which
      this model does not reproduce. */
  type HitTest = (Sphere, Ray) -> Option<real>

  /** `intersect`, with its geometry supplied by `test`: the hit carries
      the parameter `test` finds and borrows the sphere's own material. */
  function Intersect(sphere: Sphere, ray: Ray, test: HitTest): (h: Option<Hit>)
    ensures h.None? <==> test(sphere, ray).None?
    ensures h.Some? ==> h.value.parameter == test(sphere, ray).value
    ensures h.Some? ==> h.value.material == sphere.material
  {
    match test(sphere, ray)
    case None => None
    case Some(t) => Some(Hit(t, sphere.material))
  }

  /** The colour a material resolves to; every variant has one. */
  function ColorOf(m: Material): Vec3
  {
    match m
    case Color(c) => c
  }
}

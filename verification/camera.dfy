/** `Camera` of raytracer/src/camera.rs, identical in the earlier snapshot src/camera.rs: a
    pinhole at `position` looking down the negative z axis at a viewport `focal_length`
    away. */
module Cameras {
  import opened Roots
  import opened Vectors
  import opened Rays

  datatype CameraConfig = CameraConfig(position: Vector3, viewportWidth: real, viewportHeight: real,
                                       focalLength: real)

  datatype Camera = Camera(position: Vector3, bottomLeft: Vector3, horizontal: Vector3, vertical: Vector3)

  /** `Camera::new`: the viewport's edges and its bottom-left corner, centred in front of the
      position. */
  function NewCamera(config: CameraConfig): (cam: Camera)
    ensures cam.position == config.position
    ensures cam.horizontal == Vector3(config.viewportWidth, 0.0, 0.0)
    ensures cam.vertical == Vector3(0.0, config.viewportHeight, 0.0)
    ensures cam.bottomLeft == Vector3(config.position.x - config.viewportWidth / 2.0,
                                      config.position.y - config.viewportHeight / 2.0,
                                      config.position.z - config.focalLength)
  {
    var horizontal := MakeVector(config.viewportWidth, 0.0, 0.0);
    var vertical := MakeVector(0.0, config.viewportHeight, 0.0);
    var bottomLeft := Sub(Sub(Sub(config.position, DivS(horizontal, 2.0)), DivS(vertical, 2.0)),
                          MakeVector(0.0, 0.0, config.focalLength));
    Camera(config.position, bottomLeft, horizontal, vertical)
  }

  /** `get_ray(u, v)`: from the position towards the viewport point at fractions `u` across
      and `v` up. */
  function GetRay(cam: Camera, u: real, v: real): (ray: Ray)
    ensures ray.origin == cam.position
  {
    Ray(cam.position, Sub(Add(Add(cam.bottomLeft, MulS(cam.horizontal, u)), MulS(cam.vertical, v)), cam.position))
  }

  /** The direction towards `(u, v)` is `(w (u - 1/2), h (v - 1/2), -f)` whatever the
      position. */
  lemma RayDirection(config: CameraConfig, u: real, v: real)
    ensures GetRay(NewCamera(config), u, v) ==
      Ray(config.position, Vector3(config.viewportWidth * (u - 0.5), config.viewportHeight * (v - 0.5),
                                   -config.focalLength))
  {
    var w, h := config.viewportWidth, config.viewportHeight;
    HalfOffset(config.position.x, w, u);
    HalfOffset(config.position.y, h, v);
  }

  lemma HalfOffset(p: real, w: real, u: real)
    ensures (p - w / 2.0 + w * u) - p == w * (u - 0.5)
  {
  }

  /** The ray through the middle of the viewport points straight down the negative z axis,
      with length `f` for a positive focal length. */
  lemma CentreRay(config: CameraConfig)
    ensures GetRay(NewCamera(config), 0.5, 0.5).direction == Vector3(0.0, 0.0, -config.focalLength)
    ensures config.focalLength > 0.0 ==>
      Length(GetRay(NewCamera(config), 0.5, 0.5).direction) == config.focalLength
  {
    var f := config.focalLength;
    RayDirection(config, 0.5, 0.5);
    assert LengthSquared(Vector3(0.0, 0.0, -f)) == f * f;
    if f > 0.0 {
      SqrtOfSquare(f);
    }
  }
}

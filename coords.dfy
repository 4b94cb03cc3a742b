/** Camera conversions of the React port (my-app/src/core/coords.js):
    screen = world * zoom + pan, per axis. */
module Coords {
  import opened Common
  import opened Topology

  /** `screenToWorld(sx, sy, cam)`. A zero zoom divides by zero in the
      source; the store keeps the zoom in [0.25, 3]. */
  function ScreenToWorld(s: Point, cam: Cam): (w: Point)
    requires cam.z != 0.0
    ensures w.x * cam.z + cam.x == s.x
    ensures w.y * cam.z + cam.y == s.y
  {
    Point((s.x - cam.x) / cam.z, (s.y - cam.y) / cam.z)
  }

  /** `worldToScreen(x, y, cam)`. */
  function WorldToScreen(w: Point, cam: Cam): (s: Point)
    ensures cam.z != 0.0 ==> (s.x - cam.x) / cam.z == w.x && (s.y - cam.y) / cam.z == w.y
  {
    Point(w.x * cam.z + cam.x, w.y * cam.z + cam.y)
  }

  lemma WorldScreenWorld(w: Point, cam: Cam)
    requires cam.z != 0.0
    ensures ScreenToWorld(WorldToScreen(w, cam), cam) == w
  {
  }

  lemma ScreenWorldScreen(s: Point, cam: Cam)
    requires cam.z != 0.0
    ensures WorldToScreen(ScreenToWorld(s, cam), cam) == s
  {
  }

  /** The identity camera leaves every point where it is. */
  lemma IdentityCamera(p: Point)
    ensures ScreenToWorld(p, Cam(0.0, 0.0, 1.0)) == p
    ensures WorldToScreen(p, Cam(0.0, 0.0, 1.0)) == p
  {
  }

  /** Each axis is converted on its own: points sharing an x (resp. y)
      coordinate share it after conversion. */
  lemma AxesIndependent(p: Point, q: Point, cam: Cam)
    requires cam.z != 0.0
    ensures p.x == q.x ==> ScreenToWorld(p, cam).x == ScreenToWorld(q, cam).x && WorldToScreen(p, cam).x == WorldToScreen(q, cam).x
    ensures p.y == q.y ==> ScreenToWorld(p, cam).y == ScreenToWorld(q, cam).y && WorldToScreen(p, cam).y == WorldToScreen(q, cam).y
  {
  }
}

/** The collider that each interactive shape exposes: a centre and a full
    extent per axis. The trees read it and never own it. */
module Geometry {

  datatype Collider = Collider(width: real, height: real, depth: real, x: real, y: real, z: real)

  function Abs(r: real): (a: real)
    ensures a >= 0.0 && (a == r || a == -r)
  {
    if r < 0.0 then -r else r
  }

  /** The faces of a collider on each axis. */
  function LowX(c: Collider): real { c.x - c.width / 2.0 }
  function HighX(c: Collider): real { c.x + c.width / 2.0 }
  function LowY(c: Collider): real { c.y - c.height / 2.0 }
  function HighY(c: Collider): real { c.y + c.height / 2.0 }
  function LowZ(c: Collider): real { c.z - c.depth / 2.0 }
  function HighZ(c: Collider): real { c.z + c.depth / 2.0 }
}

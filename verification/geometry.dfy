/** Integer reciprocal-lattice vectors (G-vectors), real fractional
    coordinates (orbital centers), and the integer matrix that stands for a
    symmetry operator's inverse. */
module Geometry {

  /** An integer 3-vector: one G-vector of the plane-wave basis. */
  datatype IVec = IVec(x: int, y: int, z: int)

  /** A real 3-vector: an orbital center or a shift in fractional coordinates. */
  datatype RVec = RVec(x: real, y: real, z: real)

  /** A 3x3 integer matrix, by rows. */
  datatype IMat = IMat(r0: IVec, r1: IVec, r2: IVec)

  const Identity: IMat := IMat(IVec(1, 0, 0), IVec(0, 1, 0), IVec(0, 0, 1))

  const Origin: RVec := RVec(0.0, 0.0, 0.0)

  function Neg(v: IVec): IVec {
    IVec(-v.x, -v.y, -v.z)
  }

  /** The row vector g times the matrix m (`G.dot(m)` in numpy). */
  function RowTimes(g: IVec, m: IMat): IVec {
    IVec(g.x * m.r0.x + g.y * m.r1.x + g.z * m.r2.x,
         g.x * m.r0.y + g.y * m.r1.y + g.z * m.r2.y,
         g.x * m.r0.z + g.y * m.r1.z + g.z * m.r2.z)
  }

  /** The matrix m times the column vector c (`m.dot(c)` in numpy). */
  function TimesColumn(m: IMat, c: RVec): RVec {
    RVec(m.r0.x as real * c.x + m.r0.y as real * c.y + m.r0.z as real * c.z,
         m.r1.x as real * c.x + m.r1.y as real * c.y + m.r1.z as real * c.z,
         m.r2.x as real * c.x + m.r2.y as real * c.y + m.r2.z as real * c.z)
  }

  function Sub(a: RVec, b: RVec): RVec {
    RVec(a.x - b.x, a.y - b.y, a.z - b.z)
  }

  lemma RowTimesIdentity(g: IVec)
    ensures RowTimes(g, Identity) == g
  {
  }

  lemma IdentityFixesEveryCenter(c: RVec)
    ensures Sub(c, TimesColumn(Identity, c)) == Origin
  {
  }
}

// Per-face normals of a mesh (render/mesh.h:17-25, render/mesh.c). The
// normal of a triangle (a cross product and a normalisation of floats) is
// a parameter of the model.
module Meshes {
  import opened Grid

  datatype Vec3f = Vec3f(x: real, y: real, z: real)

  /** The three positions that index list idx names for triangle t. */
  predicate IndicesValid(positions: seq<Vec3f>, idx: seq<Uint16>)
  {
    |idx| % 3 == 0 && forall i :: 0 <= i < |idx| ==> idx[i] < |positions|
  }

  /** The normal of triangle t: a function of its three corner positions only. */
  function TriangleNormal(positions: seq<Vec3f>, idx: seq<Uint16>,
                          normalOf: (Vec3f, Vec3f, Vec3f) -> Vec3f, t: nat): Vec3f
    requires IndicesValid(positions, idx) && 3 * t + 2 < |idx|
  {
    normalOf(positions[idx[3 * t]], positions[idx[3 * t + 1]], positions[idx[3 * t + 2]])
  }

  /** One normal per index: each triangle's normal, three times. */
  function FaceNormals(positions: seq<Vec3f>, idx: seq<Uint16>,
                       normalOf: (Vec3f, Vec3f, Vec3f) -> Vec3f): (ns: seq<Vec3f>)
    requires IndicesValid(positions, idx)
    ensures |ns| == |idx|
    decreases |idx|
  {
    if idx == [] then []
    else
      var n := normalOf(positions[idx[0]], positions[idx[1]], positions[idx[2]]);
      [n, n, n] + FaceNormals(positions, idx[3..], normalOf)
  }

  /** Slot j of the normals holds the normal of triangle j / 3. */
  lemma {:induction false} FaceNormalsAt(positions: seq<Vec3f>, idx: seq<Uint16>,
                                         normalOf: (Vec3f, Vec3f, Vec3f) -> Vec3f, j: nat)
    requires IndicesValid(positions, idx) && j < |idx|
    ensures FaceNormals(positions, idx, normalOf)[j] == TriangleNormal(positions, idx, normalOf, j / 3)
    decreases j
  {
    if j >= 3 {
      var rest := idx[3..];
      assert IndicesValid(positions, rest);
      FaceNormalsAt(positions, rest, normalOf, j - 3);
      assert rest[3 * ((j - 3) / 3)] == idx[3 * (j / 3)];
      assert rest[3 * ((j - 3) / 3) + 1] == idx[3 * (j / 3) + 1];
      assert rest[3 * ((j - 3) / 3) + 2] == idx[3 * (j / 3) + 2];
    }
  }

  /**
   * Triangle t's normal depends only on the positions its three indices
   * name: two meshes that agree there get the same normal there.
   */
  lemma FaceNormalsLocal(p1: seq<Vec3f>, i1: seq<Uint16>, p2: seq<Vec3f>, i2: seq<Uint16>,
                         normalOf: (Vec3f, Vec3f, Vec3f) -> Vec3f, t: nat)
    requires IndicesValid(p1, i1) && IndicesValid(p2, i2)
    requires 3 * t + 2 < |i1| && 3 * t + 2 < |i2|
    requires p1[i1[3 * t]] == p2[i2[3 * t]]
    requires p1[i1[3 * t + 1]] == p2[i2[3 * t + 1]]
    requires p1[i1[3 * t + 2]] == p2[i2[3 * t + 2]]
    ensures FaceNormals(p1, i1, normalOf)[3 * t] == FaceNormals(p2, i2, normalOf)[3 * t]
  {
    FaceNormalsAt(p1, i1, normalOf, 3 * t);
    FaceNormalsAt(p2, i2, normalOf, 3 * t);
  }

  /** The three slots of triangle t all hold its normal. */
  lemma TriangleSlots(positions: seq<Vec3f>, idx: seq<Uint16>,
                      normalOf: (Vec3f, Vec3f, Vec3f) -> Vec3f, t: nat)
    requires IndicesValid(positions, idx) && 3 * t + 2 < |idx|
    ensures var n := TriangleNormal(positions, idx, normalOf, t);
      var ns := FaceNormals(positions, idx, normalOf);
      ns[3 * t] == n && ns[3 * t + 1] == n && ns[3 * t + 2] == n
  {
    assert (3 * t) / 3 == t && (3 * t + 1) / 3 == t && (3 * t + 2) / 3 == t;
    FaceNormalsAt(positions, idx, normalOf, 3 * t);
    FaceNormalsAt(positions, idx, normalOf, 3 * t + 1);
    FaceNormalsAt(positions, idx, normalOf, 3 * t + 2);
  }

  class Mesh {
    var indexesCount: int
    var positions: array<Vec3f>
    var normals: array?<Vec3f>
    /** uint16_t position indices, three per triangle. */
    var posIndices: array<Uint16>

    /**
     * calculateNormals: allocates one normal per index and fills each
     * triangle's three slots with its face normal. The loop steps by three
     * and writes i+2, so the count must be a multiple of three, and every
     * index must name a position.
     */
    method CalculateNormals(normalOf: (Vec3f, Vec3f, Vec3f) -> Vec3f)
      requires 0 <= indexesCount <= posIndices.Length
      requires IndicesValid(positions[..], posIndices[..indexesCount])
      modifies this`normals
      ensures fresh(normals) && normals.Length == indexesCount
      ensures normals[..] == FaceNormals(positions[..], posIndices[..indexesCount], normalOf)
      ensures unchanged(positions) && unchanged(posIndices)
    {
      ghost var idx := posIndices[..indexesCount];
      ghost var ps := positions[..];
      ghost var triangles := indexesCount / 3;
      normals := new Vec3f[indexesCount];
      var i := 0;
      ghost var t := 0;
      while i < indexesCount
        invariant 0 <= t <= triangles && i == 3 * t && indexesCount == 3 * triangles
        invariant normals != null && fresh(normals) && normals.Length == indexesCount
        invariant positions[..] == ps
        invariant forall j :: 0 <= j < i ==> normals[j] == FaceNormals(ps, idx, normalOf)[j]
      {
        assert idx[i] == posIndices[i] && idx[i + 1] == posIndices[i + 1] && idx[i + 2] == posIndices[i + 2];
        var ver1 := positions[posIndices[i + 0]];
        var ver2 := positions[posIndices[i + 1]];
        var ver3 := positions[posIndices[i + 2]];
        var normal := normalOf(ver1, ver2, ver3);
        TriangleSlots(ps, idx, normalOf, t);
        normals[i + 0] := normal;
        normals[i + 1] := normal;
        normals[i + 2] := normal;
        i, t := i + 3, t + 1;
      }
    }
  }
}

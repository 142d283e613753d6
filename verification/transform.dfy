/** `mesh_with_transform`: a mesh carried through one affine transform. */
module MeshTransform {
  import opened Wrappers
  import opened Linear
  import opened Meshes

  /** Every point carried through one matrix. */
  function TransformPoints(num: Numerics, mat: Mat4, ps: seq<Vec3>): (r: seq<Vec3>)
    ensures |r| == |ps|
    ensures forall i :: 0 <= i < |ps| ==> r[i] == num.transformPoint3(mat, ps[i])
  {
    seq(|ps|, i requires 0 <= i < |ps| => num.transformPoint3(mat, ps[i]))
  }

  /** Every normal carried through one normal matrix and re-normalised. */
  function TransformNormals(num: Numerics, normalMatrix: Mat3, ns: seq<Vec3>): (r: seq<Vec3>)
    ensures |r| == |ns|
    ensures forall i :: 0 <= i < |ns| ==> r[i] == TransformNormal(num, normalMatrix, ns[i])
  {
    seq(|ns|, i requires 0 <= i < |ns| => TransformNormal(num, normalMatrix, ns[i]))
  }

  /**
   * `mesh_with_transform`: a copy of `m` whose positions are carried through
   * the transform's matrix and whose normals are carried through that matrix's
   * normal matrix and re-normalised. Every other part of the mesh is copied.
   */
  function MeshWithTransform(num: Numerics, m: Mesh, t: Transform): (r: Option<Mesh>)
    ensures r.Some?
    ensures SameLayout(m, r.value)
    ensures KeepsOtherChannels(m, r.value, {AttributePosition, AttributeNormal})
    ensures MeshPositions(r.value) == TransformPoints(num, num.computeMatrix(t), MeshPositions(m))
    ensures MeshNormals(r.value) == TransformNormals(num, NormalMatrix(num, num.computeMatrix(t)), MeshNormals(m))
  {
    var mat := num.computeMatrix(t);
    var withPositions := SetMeshPositions(m, TransformPoints(num, mat, MeshPositions(m)));
    var withNormals := SetMeshNormals(withPositions, TransformNormals(num, NormalMatrix(num, mat), MeshNormals(withPositions)));
    RewriteComposes(m, withPositions, withNormals);
    Some(withNormals)
  }

  /** The transform keeps the equal-length invariant and the vertex count. */
  lemma TransformKeepsUniform(num: Numerics, m: Mesh, t: Transform)
    requires Uniform(m)
    ensures Uniform(MeshWithTransform(num, m, t).value)
    ensures VertexCount(MeshWithTransform(num, m, t).value) == VertexCount(m)
  {
    SameLayoutKeepsUniform(m, MeshWithTransform(num, m, t).value);
  }

  /**
   * A transform that fixes every position and every normal of the mesh gives
   * back the mesh itself.
   */
  lemma FixedPointTransformIsNoOp(num: Numerics, m: Mesh, t: Transform)
    requires forall i :: 0 <= i < |MeshPositions(m)| ==>
               num.transformPoint3(num.computeMatrix(t), MeshPositions(m)[i]) == MeshPositions(m)[i]
    requires forall i :: 0 <= i < |MeshNormals(m)| ==>
               TransformNormal(num, NormalMatrix(num, num.computeMatrix(t)), MeshNormals(m)[i]) == MeshNormals(m)[i]
    ensures MeshWithTransform(num, m, t) == Some(m)
  {
    var r := MeshWithTransform(num, m, t).value;
    assert MeshPositions(r) == MeshPositions(m);
    assert MeshNormals(r) == MeshNormals(m);
    SameViewsSameMesh(m, r, m);
  }
}

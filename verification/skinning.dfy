/**
 * `skin_model`, `skinned_mesh_joints` and `mesh_with_skinned_transform`:
 * resolving a skeleton into joint matrices and deforming a mesh by blending
 * four of them per vertex.
 */
module Skinning {
  import opened Wrappers
  import opened Linear
  import opened Meshes
  import opened MeshTransform

  /** An ECS `Entity`, here the reference a skeleton holds to one joint. */
  type Entity = nat

  /** A `Handle<SkinnedMeshInverseBindposes>`. */
  type AssetId = nat

  /** Bevy's `SkinnedMesh`: the inverse-bindpose asset and the joint entities, in joint order. */
  datatype SkinnedMesh = SkinnedMesh(inverseBindposes: AssetId, joints: seq<Entity>)

  function Min(a: nat, b: nat): nat
  {
    if a <= b then a else b
  }

  /**
   * The weighted sum `w0 * M0 + w1 * M1 + ...` of a non-empty list of
   * (weight, matrix) terms, added left to right.
   */
  function WeightedSum(num: Numerics, terms: seq<(F32, Mat4)>): Mat4
    requires |terms| > 0
    decreases |terms|
  {
    var last := terms[|terms| - 1];
    if |terms| == 1 then num.scale(last.0, last.1)
    else num.add(WeightedSum(num, terms[..|terms| - 1]), num.scale(last.0, last.1))
  }

  /** All four joint indices of a vertex address one of `n` joint matrices. */
  predicate JointsInRange(j: Joints4, n: nat)
  {
    j.j0 < n && j.j1 < n && j.j2 < n && j.j3 < n
  }

  /**
   * `skin_model`: the weighted sum of exactly the four joint matrices the
   * vertex names, weighted by its x, y, z and w weights, in that order.
   * Indexing out of range panics in the source, so every index must address a
   * joint matrix.
   */
  function SkinModel(num: Numerics, jointMatrices: seq<Mat4>, indexes: Joints4, weights: Vec4): (r: Mat4)
    requires JointsInRange(indexes, |jointMatrices|)
    ensures r == WeightedSum(num, [(weights.x, jointMatrices[indexes.j0]), (weights.y, jointMatrices[indexes.j1]),
                                   (weights.z, jointMatrices[indexes.j2]), (weights.w, jointMatrices[indexes.j3])])
  {
    var t0 := (weights.x, jointMatrices[indexes.j0]);
    var t1 := (weights.y, jointMatrices[indexes.j1]);
    var t2 := (weights.z, jointMatrices[indexes.j2]);
    var t3 := (weights.w, jointMatrices[indexes.j3]);
    assert [t0, t1][..1] == [t0];
    assert [t0, t1, t2][..2] == [t0, t1];
    assert [t0, t1, t2, t3][..3] == [t0, t1, t2];
    var s1 := num.scale(t0.0, t0.1);
    var s2 := num.add(s1, num.scale(t1.0, t1.1));
    var s3 := num.add(s2, num.scale(t2.0, t2.1));
    assert s1 == WeightedSum(num, [t0]);
    assert s2 == WeightedSum(num, [t0, t1]);
    assert s3 == WeightedSum(num, [t0, t1, t2]);
    num.add(s3, num.scale(t3.0, t3.1))
  }

  /** The blend reads only the four matrices the vertex names. */
  lemma SkinModelReadsOnlySelected(num: Numerics, jm: seq<Mat4>, jm': seq<Mat4>, indexes: Joints4, weights: Vec4)
    requires JointsInRange(indexes, |jm|) && JointsInRange(indexes, |jm'|)
    requires jm[indexes.j0] == jm'[indexes.j0] && jm[indexes.j1] == jm'[indexes.j1]
    requires jm[indexes.j2] == jm'[indexes.j2] && jm[indexes.j3] == jm'[indexes.j3]
    ensures SkinModel(num, jm, indexes, weights) == SkinModel(num, jm', indexes, weights)
  {
  }

  /**
   * A vertex weighted entirely to its first joint gets that joint's matrix,
   * provided scaling by one and adding a zero-weighted term change nothing.
   */
  lemma SkinModelFullWeight(num: Numerics, jm: seq<Mat4>, indexes: Joints4)
    requires JointsInRange(indexes, |jm|)
    requires num.scale(1.0, jm[indexes.j0]) == jm[indexes.j0]
    requires forall a, b :: num.add(a, num.scale(0.0, b)) == a
    ensures SkinModel(num, jm, indexes, Vec4(1.0, 0.0, 0.0, 0.0)) == jm[indexes.j0]
  {
  }

  /**
   * The loop of `skinned_mesh_joints` over the inverse bindposes zipped with
   * the joints: joint i's world matrix times inverse bindpose i, or `None` as
   * soon as a joint in the zipped range has no world transform.
   */
  function ResolveJoints(num: Numerics, ibps: seq<Mat4>, joints: seq<Entity>, world: map<Entity, Mat4>): (r: Option<seq<Mat4>>)
    ensures r.None? <==> exists i :: 0 <= i < Min(|ibps|, |joints|) && joints[i] !in world
    ensures r.Some? ==> |r.value| == Min(|ibps|, |joints|)
    ensures r.Some? ==> forall i :: 0 <= i < |r.value| ==> joints[i] in world && r.value[i] == num.mul(world[joints[i]], ibps[i])
    decreases |joints|
  {
    if |ibps| == 0 || |joints| == 0 then Some([])
    else if joints[0] !in world then None
    else
      match ResolveJoints(num, ibps[1..], joints[1..], world)
      case None => None
      case Some(rest) => Some([num.mul(world[joints[0]], ibps[0])] + rest)
  }

  /**
   * `skinned_mesh_joints`: `None` when the inverse-bindpose asset is missing
   * or some joint in the zipped range cannot be looked up; otherwise one skin
   * matrix per zipped pair, `world(joint i) * inverse bindpose i`.
   */
  function SkinnedMeshJoints(num: Numerics, skin: SkinnedMesh, bindposes: map<AssetId, seq<Mat4>>, world: map<Entity, Mat4>): (r: Option<seq<Mat4>>)
    ensures skin.inverseBindposes !in bindposes ==> r.None?
    ensures skin.inverseBindposes in bindposes ==>
              var ibps := bindposes[skin.inverseBindposes];
              && (r.None? <==> exists i :: 0 <= i < Min(|ibps|, |skin.joints|) && skin.joints[i] !in world)
              && (r.Some? ==> |r.value| == Min(|ibps|, |skin.joints|))
              && (r.Some? ==> forall i :: 0 <= i < |r.value| ==>
                                skin.joints[i] in world && r.value[i] == num.mul(world[skin.joints[i]], ibps[i]))
  {
    if skin.inverseBindposes !in bindposes then None
    else ResolveJoints(num, bindposes[skin.inverseBindposes], skin.joints, world)
  }

  /** Looking up more entities never breaks a resolution that succeeded, and does not change it. */
  lemma JointsStableUnderMoreEntities(num: Numerics, skin: SkinnedMesh, bindposes: map<AssetId, seq<Mat4>>,
                                      world: map<Entity, Mat4>, world': map<Entity, Mat4>)
    requires forall e :: e in world ==> e in world' && world'[e] == world[e]
    requires SkinnedMeshJoints(num, skin, bindposes, world).Some?
    ensures SkinnedMeshJoints(num, skin, bindposes, world') == SkinnedMeshJoints(num, skin, bindposes, world)
  {
    var a := SkinnedMeshJoints(num, skin, bindposes, world).value;
    var b := SkinnedMeshJoints(num, skin, bindposes, world').value;
    assert a == b;
  }

  /** How many vertices the skinning loop visits: it zips positions, joint indices and joint weights. */
  function SkinnedCount(m: Mesh): nat
  {
    Min(Min(|MeshPositions(m)|, |MeshJointIndices(m)|), |MeshJointWeights(m)|)
  }

  /** Every vertex the skinning loop visits names joint matrices that exist. */
  predicate VertexJointsInRange(m: Mesh, n: nat)
  {
    forall i :: 0 <= i < SkinnedCount(m) ==> JointsInRange(MeshJointIndices(m)[i], n)
  }

  /** `skin_model` may not panic: if the skeleton resolves, every visited vertex indexes into it. */
  predicate SkinIndicesInRange(num: Numerics, m: Mesh, skin: SkinnedMesh, world: map<Entity, Mat4>, bindposes: map<AssetId, seq<Mat4>>)
  {
    SkinnedMeshJoints(num, skin, bindposes, world).Some? ==>
      VertexJointsInRange(m, |SkinnedMeshJoints(num, skin, bindposes, world).value|)
  }

  /** The `models` vector: one blended matrix per visited vertex. */
  function SkinModels(num: Numerics, jm: seq<Mat4>, m: Mesh): (r: seq<Mat4>)
    requires VertexJointsInRange(m, |jm|)
    ensures |r| == SkinnedCount(m)
    ensures forall i :: 0 <= i < |r| ==> r[i] == SkinModel(num, jm, MeshJointIndices(m)[i], MeshJointWeights(m)[i])
  {
    var js := MeshJointIndices(m);
    var ws := MeshJointWeights(m);
    seq(SkinnedCount(m), i requires 0 <= i < SkinnedCount(m) => SkinModel(num, jm, js[i], ws[i]))
  }

  /** Positions carried through the per-vertex matrices, as far as there are matrices. */
  function BlendPositions(num: Numerics, ps: seq<Vec3>, models: seq<Mat4>): (r: seq<Vec3>)
    ensures |r| == |ps|
    ensures forall i :: 0 <= i < |ps| ==> r[i] == if i < |models| then num.transformPoint3(models[i], ps[i]) else ps[i]
  {
    seq(|ps|, i requires 0 <= i < |ps| => if i < |models| then num.transformPoint3(models[i], ps[i]) else ps[i])
  }

  /** Normals carried through the per-vertex normal matrices, as far as there are matrices. */
  function BlendNormals(num: Numerics, ns: seq<Vec3>, models: seq<Mat4>): (r: seq<Vec3>)
    ensures |r| == |ns|
    ensures forall i :: 0 <= i < |ns| ==> r[i] == if i < |models| then TransformNormal(num, NormalMatrix(num, models[i]), ns[i]) else ns[i]
  {
    seq(|ns|, i requires 0 <= i < |ns| => if i < |models| then TransformNormal(num, NormalMatrix(num, models[i]), ns[i]) else ns[i])
  }

  /**
   * The body of `mesh_with_skinned_transform` once the skeleton has resolved
   * to `jm`: the first k positions go through their own blended matrices and
   * the first min(#normals, k) normals through those matrices' normal
   * matrices, k the length of the zip of positions, joint indices and weights
   * (`SkinModels`). Nothing else changes.
   */
  function SkinWithJoints(num: Numerics, m: Mesh, jm: seq<Mat4>): (r: Mesh)
    requires VertexJointsInRange(m, |jm|)
    ensures SameLayout(m, r)
    ensures KeepsOtherChannels(m, r, {AttributePosition, AttributeNormal})
    ensures MeshPositions(r) == BlendPositions(num, MeshPositions(m), SkinModels(num, jm, m))
    ensures MeshNormals(r) == BlendNormals(num, MeshNormals(m), SkinModels(num, jm, m))
  {
    var models := SkinModels(num, jm, m);
    var withPositions := SetMeshPositions(m, BlendPositions(num, MeshPositions(m), models));
    var withNormals := SetMeshNormals(withPositions, BlendNormals(num, MeshNormals(withPositions), models));
    RewriteComposes(m, withPositions, withNormals);
    withNormals
  }

  /**
   * `mesh_with_skinned_transform`. Always `Some`: the copy untouched when the
   * skeleton does not resolve, and otherwise skinned by the resolved joint
   * matrices as `SkinWithJoints` states.
   */
  function MeshWithSkinnedTransform(num: Numerics, m: Mesh, skin: SkinnedMesh, world: map<Entity, Mat4>,
                                    bindposes: map<AssetId, seq<Mat4>>): (r: Option<Mesh>)
    requires SkinIndicesInRange(num, m, skin, world, bindposes)
    ensures r.Some?
    ensures SkinnedMeshJoints(num, skin, bindposes, world).None? ==> r.value == m
    ensures SkinnedMeshJoints(num, skin, bindposes, world).Some? ==>
              r.value == SkinWithJoints(num, m, SkinnedMeshJoints(num, skin, bindposes, world).value)
  {
    match SkinnedMeshJoints(num, skin, bindposes, world)
    case None => Some(m)
    case Some(jm) => Some(SkinWithJoints(num, m, jm))
  }

  /**
   * Positions, once the skeleton has resolved to `jm`: a visited vertex goes
   * through the blend of its own four joints; the rest stay as they were.
   */
  lemma SkinnedPositions(num: Numerics, m: Mesh, jm: seq<Mat4>)
    requires VertexJointsInRange(m, |jm|)
    ensures var ps := MeshPositions(SkinWithJoints(num, m, jm));
            && |ps| == |MeshPositions(m)|
            && (forall i :: 0 <= i < SkinnedCount(m) ==>
                  ps[i] == num.transformPoint3(SkinModel(num, jm, MeshJointIndices(m)[i], MeshJointWeights(m)[i]), MeshPositions(m)[i]))
            && (forall i :: SkinnedCount(m) <= i < |MeshPositions(m)| ==> ps[i] == MeshPositions(m)[i])
  {
    var models := SkinModels(num, jm, m);
    var ps := MeshPositions(SkinWithJoints(num, m, jm));
    var p0 := MeshPositions(m);
    assert ps == BlendPositions(num, p0, models);
    forall i | 0 <= i < SkinnedCount(m)
      ensures ps[i] == num.transformPoint3(SkinModel(num, jm, MeshJointIndices(m)[i], MeshJointWeights(m)[i]), p0[i])
    {
      assert ps[i] == num.transformPoint3(models[i], p0[i]);
    }
  }

  /**
   * Normals, once the skeleton has resolved to `jm`: a visited vertex's
   * normal goes through the normal matrix of its own blend; the rest,
   * including any normals past the visited range, stay as they were.
   */
  lemma SkinnedNormals(num: Numerics, m: Mesh, jm: seq<Mat4>)
    requires VertexJointsInRange(m, |jm|)
    ensures var ns := MeshNormals(SkinWithJoints(num, m, jm));
            && |ns| == |MeshNormals(m)|
            && (forall i :: 0 <= i < |MeshNormals(m)| && i < SkinnedCount(m) ==>
                  ns[i] == TransformNormal(num, NormalMatrix(num, SkinModel(num, jm, MeshJointIndices(m)[i], MeshJointWeights(m)[i])), MeshNormals(m)[i]))
            && (forall i :: SkinnedCount(m) <= i < |MeshNormals(m)| ==> ns[i] == MeshNormals(m)[i])
  {
    var models := SkinModels(num, jm, m);
    var ns := MeshNormals(SkinWithJoints(num, m, jm));
    var n0 := MeshNormals(m);
    assert ns == BlendNormals(num, n0, models);
    forall i | 0 <= i < |n0| && i < SkinnedCount(m)
      ensures ns[i] == TransformNormal(num, NormalMatrix(num, SkinModel(num, jm, MeshJointIndices(m)[i], MeshJointWeights(m)[i])), n0[i])
    {
      assert ns[i] == TransformNormal(num, NormalMatrix(num, models[i]), n0[i]);
    }
  }

  /** Skinning keeps the equal-length invariant and the vertex count. */
  lemma SkinningKeepsUniform(num: Numerics, m: Mesh, skin: SkinnedMesh, world: map<Entity, Mat4>,
                             bindposes: map<AssetId, seq<Mat4>>)
    requires SkinIndicesInRange(num, m, skin, world, bindposes)
    requires Uniform(m)
    ensures Uniform(MeshWithSkinnedTransform(num, m, skin, world, bindposes).value)
    ensures VertexCount(MeshWithSkinnedTransform(num, m, skin, world, bindposes).value) == VertexCount(m)
  {
    var r := MeshWithSkinnedTransform(num, m, skin, world, bindposes).value;
    if SkinnedMeshJoints(num, skin, bindposes, world).Some? {
      SameLayoutKeepsUniform(m, r);
    }
  }

  /** Blending with one and the same matrix everywhere is transforming by that matrix. */
  lemma SameMatrixBlend(num: Numerics, ps: seq<Vec3>, ns: seq<Vec3>, models: seq<Mat4>, mat: Mat4)
    requires |ps| <= |models| && |ns| <= |models|
    requires forall i :: 0 <= i < |models| ==> models[i] == mat
    ensures BlendPositions(num, ps, models) == TransformPoints(num, mat, ps)
    ensures BlendNormals(num, ns, models) == TransformNormals(num, NormalMatrix(num, mat), ns)
  {
  }

  /** `SkinWithJoints` with one and the same blend at every vertex is the rigid transform. */
  lemma UniformBlendIsTransform(num: Numerics, m: Mesh, jm: seq<Mat4>, t: Transform)
    requires VertexJointsInRange(m, |jm|)
    requires SkinnedCount(m) == |MeshPositions(m)| && |MeshNormals(m)| <= |MeshPositions(m)|
    requires forall i :: 0 <= i < SkinnedCount(m) ==>
               SkinModel(num, jm, MeshJointIndices(m)[i], MeshJointWeights(m)[i]) == num.computeMatrix(t)
    ensures SkinWithJoints(num, m, jm) == MeshWithTransform(num, m, t).value
  {
    SameMatrixBlend(num, MeshPositions(m), MeshNormals(m), SkinModels(num, jm, m), num.computeMatrix(t));
    SameViewsSameMesh(m, SkinWithJoints(num, m, jm), MeshWithTransform(num, m, t).value);
  }

  /**
   * When every vertex is visited and every vertex's blend is one and the
   * same matrix, that of `t`, skinning is the rigid transform by `t`: the
   * two halves of the library agree.
   */
  lemma RigidSkinIsTransform(num: Numerics, m: Mesh, skin: SkinnedMesh, world: map<Entity, Mat4>,
                             bindposes: map<AssetId, seq<Mat4>>, jm: seq<Mat4>, t: Transform)
    requires SkinIndicesInRange(num, m, skin, world, bindposes)
    requires SkinnedMeshJoints(num, skin, bindposes, world) == Some(jm)
    requires SkinnedCount(m) == |MeshPositions(m)| && |MeshNormals(m)| <= |MeshPositions(m)|
    requires forall i :: 0 <= i < SkinnedCount(m) ==>
               SkinModel(num, jm, MeshJointIndices(m)[i], MeshJointWeights(m)[i]) == num.computeMatrix(t)
    ensures MeshWithSkinnedTransform(num, m, skin, world, bindposes) == MeshWithTransform(num, m, t)
  {
    UniformBlendIsTransform(num, m, jm, t);
  }
}

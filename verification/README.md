# bevy_mod_mesh_tools, modelled in Dafny

This project models the mesh utilities in `src/lib.rs` of bevy_mod_mesh_tools, a
small library of helpers for Bevy meshes:

- the typed channel accessors (`mesh_len`, `mesh_positions`, `mesh_normals`,
  `mesh_uvs`, `mesh_joint_weights`, `mesh_joint_indices`) and their `_mut`
  counterparts;
- the rigid transform of a mesh (`mesh_with_transform`);
- linear-blend skinning (`skin_model`, `skinned_mesh_joints`,
  `mesh_with_skinned_transform`);
- mesh merging (`mesh_append`, `MeshAppendError`) and the empty mesh to merge
  into (`mesh_empty_default`).

The files are:

- `wrappers.dfy` holds `Option` and `Result`.
- `linear.dfy` holds the vector and matrix carriers. Floating-point operations
  are not computed: they are fields of a `Numerics` record that every
  transforming function takes as a parameter. Every property proved about the
  transforms therefore holds for any implementation of `transform_point3`,
  `inverse`, `mul_vec3`, `normalize_or_zero`, matrix scaling, addition and
  product, and `Transform::compute_matrix`. Transposition and taking the
  upper-left 3x3 block only move values, so they are modelled exactly.
- `mesh.dfy` holds Bevy's `Mesh` as the tools see it:
  - attribute channels, kept in increasing id order like the `BTreeMap` that
    stores them;
  - an optional 16- or 32-bit index buffer;
  - the accessors;
  - writers standing for the `_mut` accessors, which overwrite in place exactly
    the elements the read accessor yields.
- `transform.dfy`, `skinning.dfy` and `append.dfy` hold the three operations.

The model follows the code in these points:

- `mesh_append` checks every destination attribute against the source before it
  mutates anything. On failure the destination is therefore untouched.
- `mesh_with_transform` and `mesh_with_skinned_transform` always return `Some`.
- When the skeleton cannot be resolved, the skinned result is the unmodified copy.
- Skinning rewrites only the first k positions, where k is the length of the zip
  of positions, joint indices and joint weights.
- Skinning rewrites only the first min(#normals, k) normals.

## Model

| member | source | states |
|---|---|---|
| Meshes.MeshLenView | src/lib.rs:16-22 | `mesh_len` (`MeshLen`) is the length of the POSITION channel when it is stored as Float32x3, and 0 when it is missing or stored otherwise |
| Meshes.MeshJointWeightsView | src/lib.rs:24-31 | `mesh_joint_weights` (`MeshJointWeights`) yields the JOINT_WEIGHT channel when it is Float32x4, and nothing when it is missing or differently encoded |
| Meshes.MeshJointIndicesView | src/lib.rs:33-38 | `mesh_joint_indices` (`MeshJointIndices`) yields the JOINT_INDEX channel when it is Uint16x4, and nothing otherwise |
| Meshes.MeshPositionsView | src/lib.rs:40-47 | `mesh_positions` (`MeshPositions`) yields the POSITION channel when it is Float32x3, and nothing otherwise |
| Meshes.SetMeshPositions | src/lib.rs:49-56 | writing through `mesh_positions_mut` changes exactly the positions: reading them back gives what was written, the normals read as before, every other channel is the same entry, and ids, encodings, lengths and indices are kept |
| Meshes.MeshNormalsView | src/lib.rs:58-65 | `mesh_normals` (`MeshNormals`) yields the NORMAL channel when it is Float32x3, and nothing otherwise |
| Meshes.SetMeshNormals | src/lib.rs:67-74 | writing through `mesh_normals_mut` changes exactly the normals and reads back as written; positions and every other channel are kept |
| Meshes.MeshUvsView | src/lib.rs:76-83 | `mesh_uvs` (`MeshUvs`) yields the UV_0 channel when it is Float32x2, and nothing otherwise |
| Meshes.SetMeshUvs | src/lib.rs:85-92 | writing through `mesh_uvs_mut` reads back as written and leaves every entry other than a Float32x2 UV_0 as it was, so a UV_0 channel in another encoding is never written |
| Linear.NormalMatrix | src/lib.rs:113-118 | entry (row, col) of the normal matrix is entry (col, row) of the model matrix's inverse, for rows and columns 0 to 2 |
| MeshTransform.TransformPoints | src/lib.rs:99-101 | the positions loop: one output per input position, the i-th being `transform_point3` of the matrix applied to the i-th position |
| MeshTransform.TransformNormals | src/lib.rs:119-124 | the normals loop: one output per input normal, the i-th being the i-th normal multiplied by the normal matrix and passed through `normalize_or_zero` |
| MeshTransform.MeshWithTransform | src/lib.rs:94-127 | always `Some`; every position becomes `transform_point3` of the transform's matrix applied to it; every normal goes through that matrix's normal matrix and is re-normalised; every other channel, the index buffer and all ids, encodings and lengths are kept |
| MeshTransform.TransformKeepsUniform | src/lib.rs:94-127 | a mesh whose channels all have one length keeps that property and its vertex count under the transform |
| MeshTransform.FixedPointTransformIsNoOp | src/lib.rs:94-127 | a transform that fixes every position and normal returns the mesh itself |
| Skinning.SkinModel | src/lib.rs:129-135 | `skin_model` is the left-to-right weighted sum of exactly the four joint matrices the vertex names, weighted by x, y, z and w in that order |
| Skinning.SkinModelReadsOnlySelected | src/lib.rs:129-135 | the blend depends only on the four selected joint matrices |
| Skinning.SkinModelFullWeight | src/lib.rs:129-135 | a vertex weighted (1, 0, 0, 0) gets its first joint's matrix, given that scaling by 1 and adding a zero-weighted term change nothing |
| Skinning.ResolveJoints | src/lib.rs:146-154 | the zip loop fails exactly when some joint within the zipped range has no world transform; otherwise it yields min(#bindposes, #joints) matrices, the i-th being joint i's world matrix times inverse bindpose i |
| Skinning.SkinnedMeshJoints | src/lib.rs:137-155 | `None` when the inverse-bindpose asset is missing; otherwise exactly the result of the zip loop over that asset |
| Skinning.JointsStableUnderMoreEntities | src/lib.rs:137-155 | a skeleton that resolves keeps resolving, to the same matrices, when more entities can be looked up |
| Skinning.SkinWithJoints | src/lib.rs:166-199 | with the joint matrices resolved, the skinned mesh keeps every id, encoding and length, every channel other than POSITION and NORMAL, and the index buffer; its positions are the blended positions and its normals the blended normals over the per-vertex `skin_model` matrices of the zip |
| Skinning.MeshWithSkinnedTransform | src/lib.rs:157-203 | always `Some`; the unmodified copy when the skeleton does not resolve; otherwise the mesh skinned by the resolved joint matrices |
| Skinning.SkinnedPositions | src/lib.rs:166-176 | each of the first k positions goes through `transform_point3` of the blend of its own joint indices and weights; later positions are unchanged |
| Skinning.SkinnedNormals | src/lib.rs:188-199 | each of the first min(#normals, k) normals goes through the normal matrix of its own vertex's blend and is re-normalised; later normals are unchanged |
| Skinning.SkinningKeepsUniform | src/lib.rs:157-203 | skinning keeps all channels at one length and keeps the vertex count |
| Skinning.RigidSkinIsTransform | src/lib.rs:157-203 | when every vertex is visited and every blend equals the matrix of one transform, skinning gives the same mesh as `mesh_with_transform` with that transform |
| Append.FirstMissing | src/lib.rs:214-218 | the check loop finds nothing exactly when the source carries every destination attribute; otherwise it finds a destination attribute the source lacks, and every attribute before it in id order is present |
| Append.MeshAppend | src/lib.rs:211-218 | fails exactly when some destination attribute is missing from the source; it then names the first such attribute in id order and leaves the destination unchanged |
| Append.RebaseIndices | src/lib.rs:220-233 | keeps the buffer's width and its old indices, and appends one index per source index: the source index plus the vertex count, reduced to the width as the `as u16` and `as u32` casts do |
| Append.AppendIndices | src/lib.rs:220-233 | after a successful append the index buffer keeps its width and old contents and grows by the source's index count; each new index is the source index plus the destination's old vertex count, at that width |
| Append.AppendRebaseExact | src/lib.rs:220-233 | when a source index plus the vertex count fits the width, the appended index is exactly that sum |
| Append.SumsBelowWidthFit | src/lib.rs:225-229 | sums that stay below the index width never overflow the narrowed addition |
| Append.ExtendChannel | src/lib.rs:235-378 | one arm of the extension match: a destination channel is extended by the source's channel, keeping its variant, exactly when the source has that channel with the same variant; otherwise it is left as it was |
| Append.ExtendAttributes | src/lib.rs:235-378 | the extension loop over the destination's channels: the same number of channels, each keeping its id and passed through the one-channel extension with the source's channel of that id |
| Append.AppendChannels | src/lib.rs:235-380 | after a successful append every destination channel keeps its id and place; it is extended by the source's same-id channel when both use the same variant, and left unchanged when they differ; no source-only channel is added |
| Append.AppendKeepsUniform | src/lib.rs:211-380 | appending, with matching variants, a source whose channels share one length to a destination with at least one channel, all of one length, succeeds and yields one length: the sum of the two vertex counts |
| Append.AppendTriangleToCube | src/lib.rs:211-380 | a cube of 8 vertices and 12 triangles merged with a 3-vertex triangle indexed 0, 1, 2 has 11 vertices and 13 triangles, and the appended triangle reads 8, 9, 10 |
| Append.MeshEmptyDefault | src/lib.rs:382-389 | the empty default mesh has empty Float32x3 POSITION and NORMAL channels, an empty Float32x2 UV_0 channel, no other channel, an empty 32-bit index buffer and 0 vertices |
| Append.AppendToEmptyDefault | src/lib.rs:382-389 | appending to the empty default a source whose POSITION, NORMAL and UV_0 channels use its variants succeeds, reproduces the source's index values, and reads back the source's positions, normals and UVs |
| Append.AppendToEmptyDefaultIsSource | src/lib.rs:382-389 | a source with exactly those three channels and a 32-bit index buffer, appended to the empty default, gives back the source itself |

## Left out

- Floating-point arithmetic. `transform_point3`, `Mat4::inverse`, `mul_vec3`,
  `normalize_or_zero`, matrix scaling, addition and product, and
  `Transform::compute_matrix` are parameters. So the numeric properties of the
  library are not stated: unit-length normals, the numeric result of the
  identity transform, and the deformation of the strip in `examples/skinned.rs`
  under its animated joint rotation.
- The `unsafe` transmutes between `[f32; N]` slices and glam vectors
  (src/lib.rs:391-425). The accessors are plain sequence views of the channel.
- The Bevy ECS and asset machinery. The `Query<&GlobalTransform>` becomes a map
  from entity to world matrix, and `Assets<SkinnedMeshInverseBindposes>` becomes
  a map from asset id to matrices. `GlobalTransform::affine` is taken to be the
  world matrix itself.
- `Mesh::count_vertices` is Bevy code and is not part of this model. It is
  modelled as the length of the first channel in id order, 0 for a mesh
  without channels; when every channel has one length this is the vertex
  count. An earlier append with a mismatched variant can leave channels of
  different lengths, and on such a destination `MeshAppend`, `AppendIndices`
  and `AppendRebaseExact` offset the appended indices by the first channel's
  length; the model makes no claim about what Bevy's `count_vertices` returns
  there.
- Overflow of the index addition in `mesh_append` (src/lib.rs:225, :229). It
  panics in debug builds and wraps in release builds. `MeshAppend` requires
  that it does not happen, instead of modelling either behaviour. The casts
  before the addition are modelled.
- The panics of `unwrap` on a missing index buffer, and of `skin_model` on a
  joint index out of range. These are preconditions of `MeshAppend` and
  `MeshWithSkinnedTransform`.
- The mesh's primitive topology and every `Mesh` field the tools never read.
  `mesh_empty_default` creates a TriangleList mesh, but the topology is not
  modelled.
- The capacity hint `Vec::with_capacity(mesh_len(..))` in
  `mesh_with_skinned_transform`, which changes no result.
- The example programs under `examples/`, which are rendering scaffolding.

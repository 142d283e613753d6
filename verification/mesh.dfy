/**
 * Bevy's `Mesh` as the mesh tools use it: named vertex-attribute channels,
 * kept in increasing id order like the `BTreeMap` that holds them, and an
 * optional index buffer. Also the typed channel accessors of `src/lib.rs`
 * (`mesh_len`, `mesh_positions`, ...) and the writers that stand for the
 * `_mut` accessors.
 */
module Meshes {
  import opened Wrappers
  import opened Linear

  /** `MeshVertexAttributeId`: the numeric id of an attribute. */
  type AttributeId = nat

  /** Bevy's built-in attribute ids used by the tools. */
  const AttributePosition: AttributeId := 0
  const AttributeNormal: AttributeId := 1
  const AttributeUv0: AttributeId := 2
  const AttributeJointWeight: AttributeId := 6
  const AttributeJointIndex: AttributeId := 7

  type U16 = x: int | 0 <= x < 0x1_0000
  type U32 = x: int | 0 <= x < 0x1_0000_0000

  /** A `[u16; 4]` joint-index tuple. */
  datatype Joints4 = Joints4(j0: U16, j1: U16, j2: U16, j3: U16)

  /** The encodings of `VertexAttributeValues` whose elements the tools never interpret. */
  datatype OtherFormat =
    | Float32 | Sint32 | Uint32
    | Sint32x2 | Uint32x2
    | Sint32x3 | Uint32x3
    | Sint32x4 | Uint32x4
    | Sint16x2 | Snorm16x2 | Uint16x2 | Unorm16x2
    | Sint16x4 | Snorm16x4 | Unorm16x4
    | Sint8x2 | Snorm8x2 | Uint8x2 | Unorm8x2
    | Sint8x4 | Snorm8x4 | Uint8x4 | Unorm8x4

  /**
   * `VertexAttributeValues`: a channel's elements under one encoding. The four
   * encodings the accessors read are separate variants; every other encoding
   * keeps its tag and its elements as tuples of component bit patterns.
   */
  datatype Values =
    | Float32x2(v2: seq<Vec2>)
    | Float32x3(v3: seq<Vec3>)
    | Float32x4(v4: seq<Vec4>)
    | Uint16x4(u4: seq<Joints4>)
    | Other(format: OtherFormat, raw: seq<seq<int>>)

  /** One element of any channel, so that channels of every encoding can be compared. */
  datatype Element = E2(e2: Vec2) | E3(e3: Vec3) | E4(e4: Vec4) | J4(j4: Joints4) | Raw(r: seq<int>)

  /** The elements of a channel, in order. */
  function Elements(v: Values): seq<Element>
  {
    match v
    case Float32x2(s) => seq(|s|, i requires 0 <= i < |s| => E2(s[i]))
    case Float32x3(s) => seq(|s|, i requires 0 <= i < |s| => E3(s[i]))
    case Float32x4(s) => seq(|s|, i requires 0 <= i < |s| => E4(s[i]))
    case Uint16x4(s) => seq(|s|, i requires 0 <= i < |s| => J4(s[i]))
    case Other(_, s) => seq(|s|, i requires 0 <= i < |s| => Raw(s[i]))
  }

  /** `VertexAttributeValues::len`. */
  function Len(v: Values): (n: nat)
    ensures n == |Elements(v)|
  {
    match v
    case Float32x2(s) => |s|
    case Float32x3(s) => |s|
    case Float32x4(s) => |s|
    case Uint16x4(s) => |s|
    case Other(_, s) => |s|
  }

  /** The `VertexAttributeValues` variant of a channel. */
  datatype Encoding = EncFloat32x2 | EncFloat32x3 | EncFloat32x4 | EncUint16x4 | EncOther(format: OtherFormat)

  function EncodingOf(v: Values): Encoding
  {
    match v
    case Float32x2(_) => EncFloat32x2
    case Float32x3(_) => EncFloat32x3
    case Float32x4(_) => EncFloat32x4
    case Uint16x4(_) => EncUint16x4
    case Other(f, _) => EncOther(f)
  }

  /** Two channels use the same `VertexAttributeValues` variant. */
  predicate SameEncoding(a: Values, b: Values)
  {
    EncodingOf(a) == EncodingOf(b)
  }

  /** `Vec::extend` on two channels of the same encoding. */
  function Concat(a: Values, b: Values): (r: Values)
    requires SameEncoding(a, b)
    ensures SameEncoding(r, a)
    ensures Elements(r) == Elements(a) + Elements(b)
  {
    if a.Float32x2? then
      var r := Float32x2(a.v2 + b.v2);
      assert Elements(r) == Elements(a) + Elements(b);
      r
    else if a.Float32x3? then
      var r := Float32x3(a.v3 + b.v3);
      assert Elements(r) == Elements(a) + Elements(b);
      r
    else if a.Float32x4? then
      var r := Float32x4(a.v4 + b.v4);
      assert Elements(r) == Elements(a) + Elements(b);
      r
    else if a.Uint16x4? then
      var r := Uint16x4(a.u4 + b.u4);
      assert Elements(r) == Elements(a) + Elements(b);
      r
    else
      var r := Other(a.format, a.raw + b.raw);
      assert Elements(r) == Elements(a) + Elements(b);
      r
  }

  /** One attribute of a mesh: its id and its channel. */
  datatype Entry = Entry(id: AttributeId, values: Values)

  /** The id of entry `i`; named so that the ordering fact below is used only where a proof asks for it. */
  function IdAt(a: seq<Entry>, i: nat): AttributeId
    requires i < |a|
  {
    a[i].id
  }

  /** Ids strictly increase along the sequence, as keys of a `BTreeMap` do. */
  predicate IdsIncreasing(a: seq<Entry>)
  {
    forall i, j :: 0 <= i < j < |a| ==> IdAt(a, i) < IdAt(a, j)
  }

  /** The attribute map of a mesh, in iteration order. */
  type Attributes = a: seq<Entry> | IdsIncreasing(a) witness []

  /** `Indices`: a 16-bit or a 32-bit index buffer. */
  datatype Indices = U16(v16: seq<U16>) | U32(v32: seq<U32>)

  /** `Indices::iter`: the indices as `usize` values. */
  function IndexValues(ix: Indices): (r: seq<nat>)
    ensures |r| == (match ix case U16(v) => |v| case U32(v) => |v|)
    ensures forall j :: 0 <= j < |r| ==> r[j] < IndexModulus(ix)
  {
    match ix
    case U16(v) => seq(|v|, i requires 0 <= i < |v| => v[i] as nat)
    case U32(v) => seq(|v|, i requires 0 <= i < |v| => v[i] as nat)
  }

  /** An index buffer is determined by its width and its values. */
  lemma SameIndexValues(a: Indices, b: Indices)
    requires (a.U16? <==> b.U16?) && IndexValues(a) == IndexValues(b)
    ensures a == b
  {
    if a.U16? {
      assert forall j :: 0 <= j < |a.v16| ==> a.v16[j] == IndexValues(a)[j] == b.v16[j];
    } else {
      assert forall j :: 0 <= j < |a.v32| ==> a.v32[j] == IndexValues(a)[j] == b.v32[j];
    }
  }

  /** One more than the largest index the buffer's width can hold. */
  function IndexModulus(ix: Indices): nat
  {
    match ix
    case U16(_) => 0x1_0000
    case U32(_) => 0x1_0000_0000
  }

  /** The parts of a Bevy `Mesh` the tools read and write. */
  datatype Mesh = Mesh(attributes: Attributes, indices: Option<Indices>)

  /** The channel stored under `id`, looked up front to back. */
  function Find(a: seq<Entry>, id: AttributeId): (r: Option<Values>)
    ensures r.None? <==> forall i :: 0 <= i < |a| ==> a[i].id != id
    ensures r.Some? ==> exists i :: 0 <= i < |a| && a[i].id == id && a[i].values == r.value
                                    && forall j :: 0 <= j < i ==> a[j].id != id
  {
    if |a| == 0 then None
    else if a[0].id == id then Some(a[0].values)
    else Find(a[1..], id)
  }

  /** In an id-ordered attribute sequence the lookup finds the one entry that carries the id. */
  lemma FindUnique(a: Attributes, id: AttributeId, i: nat)
    requires i < |a| && a[i].id == id
    ensures Find(a, id) == Some(a[i].values)
  {
    var k :| 0 <= k < |a| && a[k].id == id && a[k].values == Find(a, id).value
             && forall j :: 0 <= j < k ==> a[j].id != id;
    assert IdAt(a, k) == IdAt(a, i);
  }

  /** `Mesh::attribute`: the channel stored under `id`, if any. */
  function Attribute(m: Mesh, id: AttributeId): (r: Option<Values>)
    ensures r.None? <==> forall i :: 0 <= i < |m.attributes| ==> m.attributes[i].id != id
    ensures forall i :: 0 <= i < |m.attributes| && m.attributes[i].id == id ==> r == Some(m.attributes[i].values)
  {
    assert forall i :: 0 <= i < |m.attributes| && m.attributes[i].id == id ==> Find(m.attributes, id) == Some(m.attributes[i].values) by {
      forall i | 0 <= i < |m.attributes| && m.attributes[i].id == id
        ensures Find(m.attributes, id) == Some(m.attributes[i].values)
      {
        FindUnique(m.attributes, id, i);
      }
    }
    Find(m.attributes, id)
  }

  /** `Mesh::count_vertices`, for meshes whose channels share one length. */
  function VertexCount(m: Mesh): nat
  {
    if |m.attributes| == 0 then 0 else Len(m.attributes[0].values)
  }

  /** The mesh invariant: every channel has the same length. */
  predicate Uniform(m: Mesh)
  {
    forall i :: 0 <= i < |m.attributes| ==> Len(m.attributes[i].values) == VertexCount(m)
  }

  /** `mesh_len`. */
  function MeshLen(m: Mesh): nat
  {
    match Attribute(m, AttributePosition)
    case Some(Float32x3(positions)) => |positions|
    case _ => 0
  }

  /** `mesh_joint_weights`. */
  function MeshJointWeights(m: Mesh): seq<Vec4>
  {
    match Attribute(m, AttributeJointWeight)
    case Some(Float32x4(v)) => v
    case _ => []
  }

  /** `mesh_joint_indices`. */
  function MeshJointIndices(m: Mesh): seq<Joints4>
  {
    match Attribute(m, AttributeJointIndex)
    case Some(Uint16x4(v)) => v
    case _ => []
  }

  /** `mesh_positions`. */
  function MeshPositions(m: Mesh): seq<Vec3>
  {
    match Attribute(m, AttributePosition)
    case Some(Float32x3(v)) => v
    case _ => []
  }

  /** `mesh_normals`. */
  function MeshNormals(m: Mesh): seq<Vec3>
  {
    match Attribute(m, AttributeNormal)
    case Some(Float32x3(v)) => v
    case _ => []
  }

  /** `mesh_uvs`. */
  function MeshUvs(m: Mesh): seq<Vec2>
  {
    match Attribute(m, AttributeUv0)
    case Some(Float32x2(v)) => v
    case _ => []
  }

  /** What every accessor reads when entry `i` carries its attribute. */
  lemma ViewsAt(m: Mesh, i: nat)
    requires i < |m.attributes|
    ensures m.attributes[i].id == AttributePosition ==>
              MeshPositions(m) == (if m.attributes[i].values.Float32x3? then m.attributes[i].values.v3 else [])
    ensures m.attributes[i].id == AttributeNormal ==>
              MeshNormals(m) == (if m.attributes[i].values.Float32x3? then m.attributes[i].values.v3 else [])
    ensures m.attributes[i].id == AttributeUv0 ==>
              MeshUvs(m) == (if m.attributes[i].values.Float32x2? then m.attributes[i].values.v2 else [])
    ensures m.attributes[i].id == AttributeJointWeight ==>
              MeshJointWeights(m) == (if m.attributes[i].values.Float32x4? then m.attributes[i].values.v4 else [])
    ensures m.attributes[i].id == AttributeJointIndex ==>
              MeshJointIndices(m) == (if m.attributes[i].values.Uint16x4? then m.attributes[i].values.u4 else [])
  {
    assert Attribute(m, m.attributes[i].id) == Some(m.attributes[i].values);
  }

  /** True when no entry of `m` carries `id`. */
  predicate Absent(m: Mesh, id: AttributeId)
  {
    forall i :: 0 <= i < |m.attributes| ==> m.attributes[i].id != id
  }

  /** `mesh_len`: the length of the POSITION channel when it is stored as Float32x3, else zero. */
  lemma MeshLenView(m: Mesh)
    ensures Absent(m, AttributePosition) ==> MeshLen(m) == 0
    ensures forall i :: 0 <= i < |m.attributes| && m.attributes[i].id == AttributePosition ==>
              MeshLen(m) == (if m.attributes[i].values.Float32x3? then Len(m.attributes[i].values) else 0)
  {
    forall i | 0 <= i < |m.attributes| && m.attributes[i].id == AttributePosition
      ensures Attribute(m, AttributePosition) == Some(m.attributes[i].values)
    {
    }
  }

  /** `mesh_positions`: the POSITION channel when it is stored as Float32x3, else nothing. */
  lemma MeshPositionsView(m: Mesh)
    ensures Absent(m, AttributePosition) ==> MeshPositions(m) == []
    ensures forall i :: 0 <= i < |m.attributes| && m.attributes[i].id == AttributePosition ==>
              MeshPositions(m) == (if m.attributes[i].values.Float32x3? then m.attributes[i].values.v3 else [])
  {
    forall i | 0 <= i < |m.attributes| && m.attributes[i].id == AttributePosition {
      ViewsAt(m, i);
    }
  }

  /** `mesh_normals`: the NORMAL channel when it is stored as Float32x3, else nothing. */
  lemma MeshNormalsView(m: Mesh)
    ensures Absent(m, AttributeNormal) ==> MeshNormals(m) == []
    ensures forall i :: 0 <= i < |m.attributes| && m.attributes[i].id == AttributeNormal ==>
              MeshNormals(m) == (if m.attributes[i].values.Float32x3? then m.attributes[i].values.v3 else [])
  {
    forall i | 0 <= i < |m.attributes| && m.attributes[i].id == AttributeNormal {
      ViewsAt(m, i);
    }
  }

  /** `mesh_uvs`: the UV_0 channel when it is stored as Float32x2, else nothing. */
  lemma MeshUvsView(m: Mesh)
    ensures Absent(m, AttributeUv0) ==> MeshUvs(m) == []
    ensures forall i :: 0 <= i < |m.attributes| && m.attributes[i].id == AttributeUv0 ==>
              MeshUvs(m) == (if m.attributes[i].values.Float32x2? then m.attributes[i].values.v2 else [])
  {
    forall i | 0 <= i < |m.attributes| && m.attributes[i].id == AttributeUv0 {
      ViewsAt(m, i);
    }
  }

  /** `mesh_joint_weights`: the JOINT_WEIGHT channel when it is stored as Float32x4, else nothing. */
  lemma MeshJointWeightsView(m: Mesh)
    ensures Absent(m, AttributeJointWeight) ==> MeshJointWeights(m) == []
    ensures forall i :: 0 <= i < |m.attributes| && m.attributes[i].id == AttributeJointWeight ==>
              MeshJointWeights(m) == (if m.attributes[i].values.Float32x4? then m.attributes[i].values.v4 else [])
  {
    forall i | 0 <= i < |m.attributes| && m.attributes[i].id == AttributeJointWeight {
      ViewsAt(m, i);
    }
  }

  /** `mesh_joint_indices`: the JOINT_INDEX channel when it is stored as Uint16x4, else nothing. */
  lemma MeshJointIndicesView(m: Mesh)
    ensures Absent(m, AttributeJointIndex) ==> MeshJointIndices(m) == []
    ensures forall i :: 0 <= i < |m.attributes| && m.attributes[i].id == AttributeJointIndex ==>
              MeshJointIndices(m) == (if m.attributes[i].values.Uint16x4? then m.attributes[i].values.u4 else [])
  {
    forall i | 0 <= i < |m.attributes| && m.attributes[i].id == AttributeJointIndex {
      ViewsAt(m, i);
    }
  }

  /** `r` keeps `m`'s index buffer and the id, encoding and length of every channel. */
  predicate SameLayout(m: Mesh, r: Mesh)
  {
    && r.indices == m.indices
    && |r.attributes| == |m.attributes|
    && forall i :: 0 <= i < |m.attributes| ==>
         && r.attributes[i].id == m.attributes[i].id
         && SameEncoding(r.attributes[i].values, m.attributes[i].values)
         && Len(r.attributes[i].values) == Len(m.attributes[i].values)
  }

  /** Every entry of `m` except a Float32x3 channel stored under one of `ids` is carried into `r` as is. */
  predicate KeepsOtherChannels(m: Mesh, r: Mesh, ids: set<AttributeId>)
  {
    && |r.attributes| == |m.attributes|
    && forall i :: 0 <= i < |m.attributes| && !(m.attributes[i].id in ids && m.attributes[i].values.Float32x3?) ==>
         r.attributes[i] == m.attributes[i]
  }

  /** Two meshes with the same ids in the same places and the same entry under `id` agree on `Attribute(_, id)`. */
  lemma SameEntrySameAttribute(m: Mesh, r: Mesh, id: AttributeId)
    requires |r.attributes| == |m.attributes|
    requires forall i :: 0 <= i < |m.attributes| ==> r.attributes[i].id == m.attributes[i].id
    requires forall i :: 0 <= i < |m.attributes| && m.attributes[i].id == id ==> r.attributes[i] == m.attributes[i]
    ensures Attribute(r, id) == Attribute(m, id)
  {
    if Attribute(m, id).Some? {
      var i :| 0 <= i < |m.attributes| && m.attributes[i].id == id;
      assert r.attributes[i].id == id;
    }
  }

  /** Replace the channel at entry `k`, keeping every id in place. */
  function ReplaceAt(m: Mesh, k: nat, v: Values): (r: Mesh)
    requires k < |m.attributes|
    ensures r.indices == m.indices
    ensures |r.attributes| == |m.attributes|
    ensures r.attributes[k] == Entry(m.attributes[k].id, v)
    ensures forall i :: 0 <= i < |m.attributes| && i != k ==> r.attributes[i] == m.attributes[i]
  {
    var a := m.attributes;
    var b := a[k := Entry(a[k].id, v)];
    assert forall i :: 0 <= i < |a| ==> IdAt(b, i) == IdAt(a, i);
    m.(attributes := b)
  }

  /** The index of the entry that carries `id`, if there is one. */
  function IndexOf(a: seq<Entry>, id: AttributeId): (r: Option<nat>)
    ensures r.None? <==> forall i :: 0 <= i < |a| ==> a[i].id != id
    ensures r.Some? ==> r.value < |a| && a[r.value].id == id
  {
    if |a| == 0 then None
    else if a[0].id == id then Some(0)
    else match IndexOf(a[1..], id)
      case None => None
      case Some(k) => Some(k + 1)
  }

  /** Replacing entry `k` leaves every other attribute lookup as it was. */
  lemma ReplaceAtKeepsOthers(m: Mesh, k: nat, v: Values, id: AttributeId)
    requires k < |m.attributes| && m.attributes[k].id != id
    ensures Attribute(ReplaceAt(m, k, v), id) == Attribute(m, id)
  {
    SameEntrySameAttribute(m, ReplaceAt(m, k, v), id);
  }

  /**
   * `mesh_positions_mut`: overwrite, element for element, the positions that
   * `mesh_positions` yields. A missing or differently encoded POSITION channel
   * yields nothing, so nothing is written.
   */
  function SetMeshPositions(m: Mesh, ps: seq<Vec3>): (r: Mesh)
    requires |ps| == |MeshPositions(m)|
    ensures SameLayout(m, r)
    ensures KeepsOtherChannels(m, r, {AttributePosition})
    ensures MeshPositions(r) == ps
    ensures MeshNormals(r) == MeshNormals(m)
  {
    match IndexOf(m.attributes, AttributePosition)
    case Some(k) =>
      ViewsAt(m, k);
      if m.attributes[k].values.Float32x3? then
        var r := ReplaceAt(m, k, Float32x3(ps));
        ViewsAt(r, k);
        ReplaceAtKeepsOthers(m, k, Float32x3(ps), AttributeNormal);
        r
      else m
    case None => m
  }

  /** `mesh_normals_mut`: overwrite the normals that `mesh_normals` yields. */
  function SetMeshNormals(m: Mesh, ns: seq<Vec3>): (r: Mesh)
    requires |ns| == |MeshNormals(m)|
    ensures SameLayout(m, r)
    ensures KeepsOtherChannels(m, r, {AttributeNormal})
    ensures MeshNormals(r) == ns
    ensures MeshPositions(r) == MeshPositions(m)
  {
    match IndexOf(m.attributes, AttributeNormal)
    case Some(k) =>
      ViewsAt(m, k);
      if m.attributes[k].values.Float32x3? then
        var r := ReplaceAt(m, k, Float32x3(ns));
        ViewsAt(r, k);
        ReplaceAtKeepsOthers(m, k, Float32x3(ns), AttributePosition);
        r
      else m
    case None => m
  }

  /**
   * `mesh_uvs_mut`: overwrite the texture coordinates that `mesh_uvs` yields.
   * A UV_0 entry in another encoding yields nothing and is left as it was.
   */
  function SetMeshUvs(m: Mesh, uvs: seq<Vec2>): (r: Mesh)
    requires |uvs| == |MeshUvs(m)|
    ensures SameLayout(m, r)
    ensures forall i :: 0 <= i < |m.attributes| && !(m.attributes[i].id == AttributeUv0 && m.attributes[i].values.Float32x2?) ==>
              r.attributes[i] == m.attributes[i]
    ensures MeshUvs(r) == uvs
  {
    match IndexOf(m.attributes, AttributeUv0)
    case Some(k) =>
      ViewsAt(m, k);
      if m.attributes[k].values.Float32x2? then
        var r := ReplaceAt(m, k, Float32x2(uvs));
        ViewsAt(r, k);
        r
      else m
    case None => m
  }

  /** Rewriting the positions and then the normals touches only those two channels. */
  lemma RewriteComposes(m: Mesh, m1: Mesh, m2: Mesh)
    requires SameLayout(m, m1) && KeepsOtherChannels(m, m1, {AttributePosition})
    requires SameLayout(m1, m2) && KeepsOtherChannels(m1, m2, {AttributeNormal})
    ensures SameLayout(m, m2)
    ensures KeepsOtherChannels(m, m2, {AttributePosition, AttributeNormal})
  {
    forall i | 0 <= i < |m.attributes|
      ensures && m2.attributes[i].id == m.attributes[i].id
              && SameEncoding(m2.attributes[i].values, m.attributes[i].values)
              && Len(m2.attributes[i].values) == Len(m.attributes[i].values)
    {
      assert m1.attributes[i].id == m.attributes[i].id;
    }
    forall i | 0 <= i < |m.attributes| && !(m.attributes[i].id in {AttributePosition, AttributeNormal} && m.attributes[i].values.Float32x3?)
      ensures m2.attributes[i] == m.attributes[i]
    {
      assert m1.attributes[i] == m.attributes[i];
    }
  }

  /** Layout-preserving rewrites keep the equal-length invariant and the vertex count. */
  lemma SameLayoutKeepsUniform(m: Mesh, r: Mesh)
    requires SameLayout(m, r)
    ensures VertexCount(r) == VertexCount(m)
    ensures Uniform(m) ==> Uniform(r)
  {
  }

  /** A rewritten POSITION or NORMAL entry is determined by what the accessors read from it. */
  lemma RewrittenEntryAgrees(m: Mesh, a: Mesh, b: Mesh, i: nat)
    requires SameLayout(m, a) && SameLayout(m, b)
    requires MeshPositions(a) == MeshPositions(b)
    requires MeshNormals(a) == MeshNormals(b)
    requires i < |m.attributes|
    requires m.attributes[i].id in {AttributePosition, AttributeNormal} && m.attributes[i].values.Float32x3?
    ensures a.attributes[i] == b.attributes[i]
  {
    assert a.attributes[i].id == m.attributes[i].id && b.attributes[i].id == m.attributes[i].id;
    assert a.attributes[i].values.Float32x3? && b.attributes[i].values.Float32x3?;
    ViewsAt(a, i);
    ViewsAt(b, i);
  }

  /** An entry neither rewrite may touch is the same in both. */
  lemma KeptEntryAgrees(m: Mesh, a: Mesh, b: Mesh, i: nat)
    requires KeepsOtherChannels(m, a, {AttributePosition, AttributeNormal})
    requires KeepsOtherChannels(m, b, {AttributePosition, AttributeNormal})
    requires i < |m.attributes|
    requires !(m.attributes[i].id in {AttributePosition, AttributeNormal} && m.attributes[i].values.Float32x3?)
    ensures a.attributes[i] == b.attributes[i]
  {
  }

  /**
   * Two rewrites of `m` that keep its layout, touch only its POSITION and
   * NORMAL Float32x3 channels, and yield the same positions and normals are
   * the same mesh.
   */
  lemma SameViewsSameMesh(m: Mesh, a: Mesh, b: Mesh)
    requires SameLayout(m, a) && SameLayout(m, b)
    requires KeepsOtherChannels(m, a, {AttributePosition, AttributeNormal})
    requires KeepsOtherChannels(m, b, {AttributePosition, AttributeNormal})
    requires MeshPositions(a) == MeshPositions(b)
    requires MeshNormals(a) == MeshNormals(b)
    ensures a == b
  {
    forall i | 0 <= i < |m.attributes|
      ensures a.attributes[i] == b.attributes[i]
    {
      if m.attributes[i].id in {AttributePosition, AttributeNormal} && m.attributes[i].values.Float32x3? {
        RewrittenEntryAgrees(m, a, b, i);
      } else {
        KeptEntryAgrees(m, a, b, i);
      }
    }
    assert a.attributes == b.attributes;
  }
}

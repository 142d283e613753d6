/**
 * `mesh_append` and `mesh_empty_default`: merging one mesh into another,
 * and the empty mesh to merge into.
 */
module Append {
  import opened Wrappers
  import opened Meshes

  /** `MeshAppendError`. */
  datatype MeshAppendError = AttributeNotFound(attribute: AttributeId)

  /** What `mesh_append` leaves in its `&mut` destination, and what it returns. */
  datatype AppendOutcome = AppendOutcome(dest: Mesh, result: Result<(), MeshAppendError>)

  /**
   * The check loop of `mesh_append`: the first attribute of `a`, in id order,
   * that `src` does not carry, if any.
   */
  function FirstMissing(a: seq<Entry>, src: Mesh): (r: Option<AttributeId>)
    ensures r.None? <==> forall i :: 0 <= i < |a| ==> Attribute(src, a[i].id).Some?
    ensures r.Some? ==> exists i :: 0 <= i < |a| && a[i].id == r.value && Attribute(src, a[i].id).None?
                                    && forall j :: 0 <= j < i ==> Attribute(src, a[j].id).Some?
  {
    if |a| == 0 then None
    else if Attribute(src, a[0].id).None? then Some(a[0].id)
    else match FirstMissing(a[1..], src)
      case None => None
      case Some(id) => assert forall i :: 1 <= i < |a| ==> a[i] == a[1..][i - 1]; Some(id)
  }

  /**
   * The source's `sv as u16 + dest_mesh_count as u16` (or `u32`) never
   * overflows: both operands are cut to the destination's width, and their
   * sum must stay below it.
   */
  predicate RebaseFits(dest: Indices, src: seq<nat>, count: nat)
  {
    forall j :: 0 <= j < |src| ==> src[j] % IndexModulus(dest) + count % IndexModulus(dest) < IndexModulus(dest)
  }

  /** At an index width, adding two remainders that do not carry gives the remainder of the sum. */
  lemma ModAddNoCarry(a: nat, b: nat, modulus: nat)
    requires modulus == 0x1_0000 || modulus == 0x1_0000_0000
    requires a % modulus + b % modulus < modulus
    ensures (a + b) % modulus == a % modulus + b % modulus
  {
    if modulus == 0x1_0000 {
      assert a + b == (a / 0x1_0000 + b / 0x1_0000) * 0x1_0000 + (a % 0x1_0000 + b % 0x1_0000);
    } else {
      assert a + b == (a / 0x1_0000_0000 + b / 0x1_0000_0000) * 0x1_0000_0000 + (a % 0x1_0000_0000 + b % 0x1_0000_0000);
    }
  }

  /** Offsets that fit the width below the wrap-around always rebase without overflow. */
  lemma SumsBelowWidthFit(dest: Indices, src: seq<nat>, count: nat)
    requires forall j :: 0 <= j < |src| ==> src[j] + count < IndexModulus(dest)
    ensures RebaseFits(dest, src, count)
  {
    var modulus := IndexModulus(dest);
    forall j | 0 <= j < |src|
      ensures src[j] % modulus + count % modulus < modulus
    {
      if dest.U16? {
        assert src[j] % 0x1_0000 == src[j] && count % 0x1_0000 == count;
      } else {
        assert src[j] % 0x1_0000_0000 == src[j] && count % 0x1_0000_0000 == count;
      }
    }
  }

  /**
   * The rebasing loop of `mesh_append`: every source index, offset by the
   * destination's vertex count, pushed onto the destination's buffer at the
   * destination's width.
   */
  function RebaseIndices(dest: Indices, src: seq<nat>, count: nat): (r: Indices)
    requires RebaseFits(dest, src, count)
    ensures r.U16? <==> dest.U16?
    ensures |IndexValues(r)| == |IndexValues(dest)| + |src|
    ensures IndexValues(r)[..|IndexValues(dest)|] == IndexValues(dest)
    ensures forall j :: 0 <= j < |src| ==> IndexValues(r)[|IndexValues(dest)| + j] == (src[j] + count) % IndexModulus(dest)
  {
    var modulus := IndexModulus(dest);
    assert forall j :: 0 <= j < |src| ==> (src[j] + count) % modulus == src[j] % modulus + count % modulus by {
      forall j | 0 <= j < |src| ensures (src[j] + count) % modulus == src[j] % modulus + count % modulus {
        ModAddNoCarry(src[j], count, modulus);
      }
    }
    match dest
    case U16(dv) =>
      var r := U16(dv + seq(|src|, j requires 0 <= j < |src| => ((src[j] + count) % 0x1_0000) as U16));
      assert IndexValues(r)[..|dv|] == IndexValues(dest);
      r
    case U32(dv) =>
      var r := U32(dv + seq(|src|, j requires 0 <= j < |src| => ((src[j] + count) % 0x1_0000_0000) as U32));
      assert IndexValues(r)[..|dv|] == IndexValues(dest);
      r
  }

  /** A rebased index that fits the width is the plain sum. */
  lemma RebaseExact(dest: Indices, src: seq<nat>, count: nat, j: nat)
    requires RebaseFits(dest, src, count)
    requires j < |src| && src[j] + count < IndexModulus(dest)
    ensures IndexValues(RebaseIndices(dest, src, count))[|IndexValues(dest)| + j] == src[j] + count
  {
    var sum := src[j] + count;
    var at := IndexValues(RebaseIndices(dest, src, count))[|IndexValues(dest)| + j];
    assert at == sum % IndexModulus(dest);
    SmallModIsSelf(sum, IndexModulus(dest));
  }

  /** A value below an index width is its own remainder. */
  lemma SmallModIsSelf(x: nat, modulus: nat)
    requires modulus == 0x1_0000 || modulus == 0x1_0000_0000
    requires x < modulus
    ensures x % modulus == x
  {
  }

  /** One channel of the extension loop: `v.extend(s)` when the source's channel has the same variant. */
  function ExtendChannel(dv: Values, sv: Option<Values>): (r: Values)
    ensures sv.Some? && SameEncoding(dv, sv.value) ==> SameEncoding(r, dv) && Elements(r) == Elements(dv) + Elements(sv.value)
    ensures !(sv.Some? && SameEncoding(dv, sv.value)) ==> r == dv
  {
    if sv.Some? && SameEncoding(dv, sv.value) then Concat(dv, sv.value) else dv
  }

  /** The extension loop over every destination channel, in place: ids and their order stay. */
  function ExtendAttributes(a: Attributes, src: Mesh): (r: Attributes)
    ensures |r| == |a|
    ensures forall i :: 0 <= i < |a| ==> r[i] == Entry(a[i].id, ExtendChannel(a[i].values, Attribute(src, a[i].id)))
  {
    var r := seq(|a|, i requires 0 <= i < |a| => Entry(a[i].id, ExtendChannel(a[i].values, Attribute(src, a[i].id))));
    assert forall i :: 0 <= i < |a| ==> IdAt(r, i) == IdAt(a, i);
    r
  }

  /** What `mesh_append` needs past the check loop: two index buffers to `unwrap`, and a rebase that fits. */
  predicate CanRebase(dest: Mesh, src: Mesh)
  {
    && dest.indices.Some?
    && src.indices.Some?
    && RebaseFits(dest.indices.value, IndexValues(src.indices.value), VertexCount(dest))
  }

  /**
   * `mesh_append`. Fails, before touching anything, with the first
   * destination attribute the source lacks; otherwise rebases and appends the
   * source's indices and extends every destination channel.
   */
  function MeshAppend(dest: Mesh, src: Mesh): (r: AppendOutcome)
    requires FirstMissing(dest.attributes, src).None? ==> CanRebase(dest, src)
    ensures r.result.Err? <==> exists i :: 0 <= i < |dest.attributes| && Attribute(src, dest.attributes[i].id).None?
    ensures r.result.Err? ==> r.dest == dest
    ensures r.result.Err? ==> exists i :: 0 <= i < |dest.attributes| && dest.attributes[i].id == r.result.error.attribute
                                          && Attribute(src, dest.attributes[i].id).None?
                                          && forall j :: 0 <= j < i ==> Attribute(src, dest.attributes[j].id).Some?
  {
    match FirstMissing(dest.attributes, src)
    case Some(id) => AppendOutcome(dest, Err(AttributeNotFound(id)))
    case None =>
      var indices := RebaseIndices(dest.indices.value, IndexValues(src.indices.value), VertexCount(dest));
      AppendOutcome(Mesh(ExtendAttributes(dest.attributes, src), Some(indices)), Ok(()))
  }

  /** The destination carries nothing the source lacks, and the rebase can run. */
  predicate AppendSucceeds(dest: Mesh, src: Mesh)
  {
    (forall i :: 0 <= i < |dest.attributes| ==> Attribute(src, dest.attributes[i].id).Some?) && CanRebase(dest, src)
  }

  /**
   * On success the index buffer keeps its width and its old indices, and grows
   * by one index per source index: the source index plus the destination's old
   * vertex count (`VertexCount`, the length of its first channel), at the
   * destination's width.
   */
  lemma AppendIndices(dest: Mesh, src: Mesh)
    requires AppendSucceeds(dest, src)
    ensures var r := MeshAppend(dest, src);
            var before := IndexValues(dest.indices.value);
            var added := IndexValues(src.indices.value);
            && r.result == Ok(())
            && r.dest.indices.Some?
            && (r.dest.indices.value.U16? <==> dest.indices.value.U16?)
            && |IndexValues(r.dest.indices.value)| == |before| + |added|
            && IndexValues(r.dest.indices.value)[..|before|] == before
            && forall j :: 0 <= j < |added| ==>
                 IndexValues(r.dest.indices.value)[|before| + j] == (added[j] + VertexCount(dest)) % IndexModulus(dest.indices.value)
  {
  }

  /** When the offset index fits the width, the appended index is exactly the offset index. */
  lemma AppendRebaseExact(dest: Mesh, src: Mesh, j: nat)
    requires AppendSucceeds(dest, src)
    requires j < |IndexValues(src.indices.value)|
    requires IndexValues(src.indices.value)[j] + VertexCount(dest) < IndexModulus(dest.indices.value)
    ensures IndexValues(MeshAppend(dest, src).dest.indices.value)[|IndexValues(dest.indices.value)| + j]
            == IndexValues(src.indices.value)[j] + VertexCount(dest)
  {
    var added := IndexValues(src.indices.value);
    assert MeshAppend(dest, src).dest.indices.value == RebaseIndices(dest.indices.value, added, VertexCount(dest));
    RebaseExact(dest.indices.value, added, VertexCount(dest), j);
  }

  /**
   * On success every destination channel stays where it was under its id; it
   * is extended by the source's channel of that id when the two share a
   * variant, and left as it was when they do not. Source-only channels are
   * never added.
   */
  lemma AppendChannels(dest: Mesh, src: Mesh)
    requires AppendSucceeds(dest, src)
    ensures var r := MeshAppend(dest, src).dest;
            && |r.attributes| == |dest.attributes|
            && forall i :: 0 <= i < |dest.attributes| ==>
                 var dv := dest.attributes[i].values;
                 var sv := Attribute(src, dest.attributes[i].id).value;
                 && r.attributes[i].id == dest.attributes[i].id
                 && (SameEncoding(dv, sv) ==> SameEncoding(r.attributes[i].values, dv)
                                               && Elements(r.attributes[i].values) == Elements(dv) + Elements(sv))
                 && (!SameEncoding(dv, sv) ==> r.attributes[i].values == dv)
  {
  }

  /** All channels of the destination, with the source's channel of the same id sharing its variant. */
  predicate EncodingsMatch(dest: Mesh, src: Mesh)
  {
    forall i :: 0 <= i < |dest.attributes| ==>
      Attribute(src, dest.attributes[i].id).Some? && SameEncoding(dest.attributes[i].values, Attribute(src, dest.attributes[i].id).value)
  }

  /**
   * Appending to a mesh with at least one channel, all of one length, a source
   * whose channels share one length, with matching variants, keeps the
   * channels at one length: the old vertex count plus the source's.
   */
  lemma AppendKeepsUniform(dest: Mesh, src: Mesh)
    requires Uniform(dest) && Uniform(src) && |dest.attributes| > 0
    requires EncodingsMatch(dest, src) && CanRebase(dest, src)
    ensures MeshAppend(dest, src).result == Ok(())
    ensures Uniform(MeshAppend(dest, src).dest)
    ensures VertexCount(MeshAppend(dest, src).dest) == VertexCount(dest) + VertexCount(src)
  {
    var r := MeshAppend(dest, src).dest;
    AppendChannels(dest, src);
    forall i | 0 <= i < |r.attributes|
      ensures Len(r.attributes[i].values) == VertexCount(dest) + VertexCount(src)
    {
      var sv := Attribute(src, dest.attributes[i].id).value;
      var k :| 0 <= k < |src.attributes| && src.attributes[k].id == dest.attributes[i].id;
      assert sv == src.attributes[k].values;
      assert |Elements(r.attributes[i].values)| == |Elements(dest.attributes[i].values)| + |Elements(sv)|;
    }
  }

  /** `mesh_empty_default`: empty POSITION, NORMAL and UV_0 channels and an empty 32-bit index buffer. */
  function MeshEmptyDefault(): (r: Mesh)
    ensures Attribute(r, AttributePosition) == Some(Float32x3([]))
    ensures Attribute(r, AttributeNormal) == Some(Float32x3([]))
    ensures Attribute(r, AttributeUv0) == Some(Float32x2([]))
    ensures forall i :: 0 <= i < |r.attributes| ==> r.attributes[i].id in {AttributePosition, AttributeNormal, AttributeUv0}
    ensures r.indices == Some(U32([]))
    ensures Uniform(r) && VertexCount(r) == 0
  {
    var a := [Entry(AttributePosition, Float32x3([])), Entry(AttributeNormal, Float32x3([])), Entry(AttributeUv0, Float32x2([]))];
    assert IdAt(a, 0) < IdAt(a, 1) < IdAt(a, 2);
    var r := Mesh(a, Some(U32([])));
    assert r.attributes[0].id == AttributePosition && r.attributes[1].id == AttributeNormal && r.attributes[2].id == AttributeUv0;
    r
  }

  /** Rebasing onto an empty 32-bit buffer with no vertices before it copies the indices. */
  lemma RebaseOntoEmpty(src: Indices)
    ensures RebaseFits(U32([]), IndexValues(src), 0)
    ensures RebaseIndices(U32([]), IndexValues(src), 0).U32?
    ensures IndexValues(RebaseIndices(U32([]), IndexValues(src), 0)) == IndexValues(src)
  {
    var added := IndexValues(src);
    assert forall j :: 0 <= j < |added| ==> added[j] < 0x1_0000_0000;
    var r := IndexValues(RebaseIndices(U32([]), added, 0));
    forall j | 0 <= j < |added|
      ensures r[j] == added[j]
    {
      assert r[0 + j] == (added[j] + 0) % 0x1_0000_0000;
    }
  }

  /** Extending an empty channel by one of the same variant gives that channel. */
  lemma ExtendEmpty(dv: Values, sv: Values)
    requires Len(dv) == 0 && SameEncoding(dv, sv)
    ensures ExtendChannel(dv, Some(sv)) == sv
  {
    var r := Concat(dv, sv);
    if dv.Float32x2? {
      assert r.v2 == sv.v2;
    } else if dv.Float32x3? {
      assert r.v3 == sv.v3;
    } else if dv.Float32x4? {
      assert r.v4 == sv.v4;
    } else if dv.Uint16x4? {
      assert r.u4 == sv.u4;
    } else {
      assert r.raw == sv.raw;
    }
  }

  /** The source carries POSITION and NORMAL as Float32x3 and UV_0 as Float32x2, as `mesh_empty_default` does. */
  predicate DefaultChannels(src: Mesh)
  {
    && Attribute(src, AttributePosition).Some? && Attribute(src, AttributePosition).value.Float32x3?
    && Attribute(src, AttributeNormal).Some? && Attribute(src, AttributeNormal).value.Float32x3?
    && Attribute(src, AttributeUv0).Some? && Attribute(src, AttributeUv0).value.Float32x2?
  }

  /** Appended to `mesh_empty_default`, each of its three entries becomes the source's channel of that id. */
  lemma EmptyDefaultEntries(src: Mesh)
    requires DefaultChannels(src) && src.indices.Some?
    ensures CanRebase(MeshEmptyDefault(), src)
    ensures var r := MeshAppend(MeshEmptyDefault(), src);
            && r.result == Ok(())
            && r.dest.indices == Some(RebaseIndices(U32([]), IndexValues(src.indices.value), 0))
            && |r.dest.attributes| == 3
            && r.dest.attributes[0] == Entry(AttributePosition, Attribute(src, AttributePosition).value)
            && r.dest.attributes[1] == Entry(AttributeNormal, Attribute(src, AttributeNormal).value)
            && r.dest.attributes[2] == Entry(AttributeUv0, Attribute(src, AttributeUv0).value)
  {
    var e := MeshEmptyDefault();
    RebaseOntoEmpty(src.indices.value);
    assert FirstMissing(e.attributes, src).None?;
    var r := MeshAppend(e, src).dest;
    assert r.attributes == ExtendAttributes(e.attributes, src);
    ExtendEmpty(e.attributes[0].values, Attribute(src, AttributePosition).value);
    ExtendEmpty(e.attributes[1].values, Attribute(src, AttributeNormal).value);
    ExtendEmpty(e.attributes[2].values, Attribute(src, AttributeUv0).value);
  }

  /**
   * Appending to `mesh_empty_default` a source whose POSITION, NORMAL and
   * UV_0 channels use the default's variants succeeds and reproduces the
   * source's index values and those three channels.
   */
  lemma AppendToEmptyDefault(src: Mesh)
    requires DefaultChannels(src) && src.indices.Some?
    ensures CanRebase(MeshEmptyDefault(), src)
    ensures var r := MeshAppend(MeshEmptyDefault(), src);
            && r.result == Ok(())
            && r.dest.indices.Some? && r.dest.indices.value.U32?
            && IndexValues(r.dest.indices.value) == IndexValues(src.indices.value)
            && MeshPositions(r.dest) == MeshPositions(src)
            && MeshNormals(r.dest) == MeshNormals(src)
            && MeshUvs(r.dest) == MeshUvs(src)
  {
    EmptyDefaultEntries(src);
    RebaseOntoEmpty(src.indices.value);
    var r := MeshAppend(MeshEmptyDefault(), src).dest;
    ViewsAt(r, 0);
    ViewsAt(r, 1);
    ViewsAt(r, 2);
  }

  /**
   * Appending to `mesh_empty_default` a source that has exactly its three
   * channels, in its variants, and a 32-bit index buffer gives back the
   * source itself.
   */
  lemma AppendToEmptyDefaultIsSource(src: Mesh)
    requires |src.attributes| == 3
    requires src.attributes[0].id == AttributePosition && src.attributes[0].values.Float32x3?
    requires src.attributes[1].id == AttributeNormal && src.attributes[1].values.Float32x3?
    requires src.attributes[2].id == AttributeUv0 && src.attributes[2].values.Float32x2?
    requires src.indices.Some? && src.indices.value.U32?
    ensures CanRebase(MeshEmptyDefault(), src)
    ensures MeshAppend(MeshEmptyDefault(), src) == AppendOutcome(src, Ok(()))
  {
    assert Attribute(src, AttributePosition) == Some(src.attributes[0].values);
    assert Attribute(src, AttributeNormal) == Some(src.attributes[1].values);
    assert Attribute(src, AttributeUv0) == Some(src.attributes[2].values);
    EmptyDefaultEntries(src);
    RebaseOntoEmpty(src.indices.value);
    var r := MeshAppend(MeshEmptyDefault(), src).dest;
    SameIndexValues(r.indices.value, src.indices.value);
    assert r.attributes == src.attributes;
  }

  /** Rebasing the triangle 0, 1, 2 past 8 vertices onto 36 indices. */
  lemma TriangleRebase(dest: Indices)
    requires |IndexValues(dest)| == 36
    ensures RebaseFits(dest, [0, 1, 2], 8)
    ensures var after := IndexValues(RebaseIndices(dest, [0, 1, 2], 8));
            |after| == 39 && after[36..] == [8, 9, 10]
  {
    SumsBelowWidthFit(dest, [0, 1, 2], 8);
    RebaseExact(dest, [0, 1, 2], 8, 0);
    RebaseExact(dest, [0, 1, 2], 8, 1);
    RebaseExact(dest, [0, 1, 2], 8, 2);
    var after := IndexValues(RebaseIndices(dest, [0, 1, 2], 8));
    assert after[36..] == [after[36], after[37], after[38]];
  }

  /** The index half of the cube-and-triangle merge. */
  lemma CubeTriangleIndices(dest: Mesh, src: Mesh)
    requires VertexCount(dest) == 8
    requires dest.indices.Some? && |IndexValues(dest.indices.value)| == 36
    requires src.indices.Some? && IndexValues(src.indices.value) == [0, 1, 2]
    requires forall i :: 0 <= i < |dest.attributes| ==> Attribute(src, dest.attributes[i].id).Some?
    ensures CanRebase(dest, src)
    ensures var after := IndexValues(MeshAppend(dest, src).dest.indices.value);
            |after| == 39 && after[36..] == [8, 9, 10]
  {
    TriangleRebase(dest.indices.value);
    assert FirstMissing(dest.attributes, src).None?;
    assert MeshAppend(dest, src).dest.indices.value == RebaseIndices(dest.indices.value, [0, 1, 2], 8);
  }

  /**
   * A cube (8 vertices, 12 triangles) merged with one triangle (3 vertices,
   * indices 0, 1, 2) of the same channels has 11 vertices and 13 triangles,
   * and the appended triangle reads 8, 9, 10.
   */
  lemma AppendTriangleToCube(dest: Mesh, src: Mesh)
    requires Uniform(dest) && |dest.attributes| > 0 && VertexCount(dest) == 8
    requires dest.indices.Some? && |IndexValues(dest.indices.value)| == 36
    requires Uniform(src) && VertexCount(src) == 3
    requires src.indices.Some? && IndexValues(src.indices.value) == [0, 1, 2]
    requires EncodingsMatch(dest, src)
    ensures CanRebase(dest, src)
    ensures var r := MeshAppend(dest, src);
            && r.result == Ok(())
            && VertexCount(r.dest) == 11
            && |IndexValues(r.dest.indices.value)| == 13 * 3
            && IndexValues(r.dest.indices.value)[36..] == [8, 9, 10]
  {
    CubeTriangleIndices(dest, src);
    AppendKeepsUniform(dest, src);
  }
}

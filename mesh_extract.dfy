/**
 * Extraction of a mesh's vertex positions and triangle indices
 * (extract_mesh_vertices_indices). The function appears twice in the
 * repository, in src/physics/collisions/utils/utils.rs and verbatim in
 * src/physics/collisions/utils.rs; this one model serves both.
 */
module MeshExtract {
  import opened Wrappers
  import opened Geometry

  type Uint16 = x: int | 0 <= x < 0x1_0000
  type Uint32 = x: int | 0 <= x < 0x1_0000_0000

  /** The vertex formats bevy knows besides `Float32` and `Float32x3`; their payload plays no part. */
  datatype VertexFormat =
    | Sint32 | Uint32Values | Float32x2 | Sint32x2 | Uint32x2 | Sint32x3 | Uint32x3
    | Float32x4 | Sint32x4 | Uint32x4 | Sint16x2 | Snorm16x2 | Uint16x2 | Unorm16x2
    | Sint16x4 | Snorm16x4 | Uint16x4 | Unorm16x4 | Sint8x2 | Snorm8x2 | Uint8x2
    | Unorm8x2 | Sint8x4 | Snorm8x4 | Uint8x4 | Unorm8x4

  /** bevy's `VertexAttributeValues`, as far as the extraction tells them apart. */
  datatype VertexAttributeValues =
    | Float32(values: seq<real>)
    | Float32x3(points: seq<Vec3>)
    | Other(format: VertexFormat)

  /** bevy's `Indices`: a 16-bit or a 32-bit index buffer. */
  datatype Indices = U16(u16: seq<Uint16>) | U32(u32: seq<Uint32>)

  /** The parts of a bevy `Mesh` the extraction reads: the position attribute and the index buffer. */
  datatype Mesh = Mesh(position: Option<VertexAttributeValues>, indices: Option<Indices>)

  type Triangle = (Uint32, Uint32, Uint32)

  datatype VerticesIndices = VerticesIndices(verts: seq<Vec3>, indices: seq<Triangle>)

  /** The index values of a buffer, whatever their width. */
  function IndexValues(ind: Indices): seq<int> {
    match ind
    case U16(s) => s
    case U32(s) => s
  }

  /**
   * `chunks(3)` over a flat `Float32` buffer would index past a short last
   * chunk (`v[1]` or `v[2]`) and panic; it is reached only when both the
   * position attribute and the index buffer are present.
   */
  predicate ExtractionDoesNotPanic(mesh: Mesh) {
    mesh.position.Some? && mesh.indices.Some? && mesh.position.value.Float32? ==>
      |mesh.position.value.values| % 3 == 0
  }

  /** Flat coordinates grouped into points, three at a time, in order. */
  function GroupPoints(flat: seq<real>): (r: seq<Vec3>)
    requires |flat| % 3 == 0
    ensures |r| == |flat| / 3
    ensures forall k :: 0 <= k < |r| ==> r[k] == Vec3(flat[3 * k], flat[3 * k + 1], flat[3 * k + 2])
    decreases |flat|
  {
    if flat == [] then [] else [Vec3(flat[0], flat[1], flat[2])] + GroupPoints(flat[3..])
  }

  /**
   * `chunks_exact(3)` over an index buffer: triangle `k` is made of indices
   * `3k`, `3k+1` and `3k+2`, and a trailing one or two indices are dropped.
   */
  function GroupTriangles(idx: seq<Uint32>): (r: seq<Triangle>)
    ensures |r| == |idx| / 3
    ensures forall k :: 0 <= k < |r| ==> r[k].0 == idx[3 * k] && r[k].1 == idx[3 * k + 1] && r[k].2 == idx[3 * k + 2]
    decreases |idx|
  {
    if |idx| < 3 then [] else [(idx[0], idx[1], idx[2])] + GroupTriangles(idx[3..])
  }

  /** `i as u32` on every 16-bit index. */
  function Widen(s: seq<Uint16>): seq<Uint32> {
    seq(|s|, i requires 0 <= i < |s| => s[i] as Uint32)
  }

  /**
   * `extract_mesh_vertices_indices`: `None` when the position attribute or the
   * index buffer is missing or the positions are in a format other than
   * `Float32` and `Float32x3`; otherwise the points in order and the indices
   * grouped into triangles, 16-bit values widened unchanged.
   */
  function ExtractMeshVerticesIndices(mesh: Mesh): (r: Option<VerticesIndices>)
    requires ExtractionDoesNotPanic(mesh)
    ensures r.None? <==> mesh.position.None? || mesh.indices.None? || mesh.position.value.Other?
    ensures r.Some? ==>
      var idx := IndexValues(mesh.indices.value);
      && |r.value.indices| == |idx| / 3
      && forall k :: 0 <= k < |r.value.indices| ==>
           r.value.indices[k].0 == idx[3 * k] && r.value.indices[k].1 == idx[3 * k + 1] && r.value.indices[k].2 == idx[3 * k + 2]
    ensures r.Some? && mesh.position.value.Float32x3? ==> r.value.verts == mesh.position.value.points
    ensures r.Some? && mesh.position.value.Float32? ==>
      var flat := mesh.position.value.values;
      && |r.value.verts| == |flat| / 3
      && forall k :: 0 <= k < |r.value.verts| ==> r.value.verts[k] == Vec3(flat[3 * k], flat[3 * k + 1], flat[3 * k + 2])
  {
    if mesh.position.None? || mesh.indices.None? then None
    else
      var vtx :=
        match mesh.position.value
        case Float32(values) => Some(GroupPoints(values))
        case Float32x3(points) => Some(points)
        case Other(_) => None;
      if vtx.None? then None
      else
        var idx :=
          match mesh.indices.value
          case U16(s) => GroupTriangles(Widen(s))
          case U32(s) => GroupTriangles(s);
        Some(VerticesIndices(vtx.value, idx))
  }
}

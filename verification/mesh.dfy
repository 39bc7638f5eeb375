/** The mesh table: per mesh a header, a vertex stream whose layout the four
    flag bytes fix, and an index stream (io_import_sgm.py lines 52-93). */
module MeshDecoder {
  import opened Bytes
  import opened Results
  import opened Reader
  import opened VertexDecoder

  /** The dict built per mesh: `id`, `material_id`, `vertices`, `indices`. */
  datatype Mesh = Mesh(id: uint8, materialId: uint8, vertices: seq<Vertex>, indices: seq<nat>)

  /** Which reading of an index element a decode uses: the one the source
      performs, or the corrected one (see IndexReadings below). */
  datatype IndexReading = AsWritten | Corrected

  /** `struct.unpack('<I' if index_size == 4 else '<H', file.read(index_size))`:
      index_size bytes are requested, but the unpack needs exactly 4 or 2. */
  function ParseIndexAsWritten(size: uint8, buf: seq<uint8>, pos: nat): (r: Result<Parsed<nat>>)
  {
    var data := Read(buf, pos, size);
    var width := if size == 4 then 4 else 2;
    if |data| == width then Ok(Parsed(LittleEndian(data), pos + width))
    else Err(IndexWidthMismatch(pos, size))
  }

  /** An index element of index_size bytes, which must be 2 (u16) or 4 (u32). */
  function ParseIndex(size: uint8, buf: seq<uint8>, pos: nat): (r: Result<Parsed<nat>>)
  {
    var data :- ReadExact(buf, pos, size);
    if size == 2 || size == 4 then Ok(Parsed(LittleEndian(data.value), data.next))
    else Err(IndexWidthMismatch(pos, size))
  }

  function IndexParser(reading: IndexReading, size: uint8): Parser<nat> {
    (b: seq<uint8>, q: nat) =>
      if reading == AsWritten then ParseIndexAsWritten(size, b, q) else ParseIndex(size, b, q)
  }

  /** The ten header bytes of a mesh: ids, vertex count and layout flags. */
  datatype MeshHeader = MeshHeader(id: uint8, materialId: uint8, vertexCount: nat, layout: VertexLayout)

  function ParseMeshHeader(buf: seq<uint8>, pos: nat): (r: Result<Parsed<MeshHeader>>)
  {
    var id :- ReadU8(buf, pos);
    var materialId :- ReadU8(buf, id.next);
    var vertexCount :- ReadU32(buf, materialId.next);
    var uvCount :- ReadU8(buf, vertexCount.next);
    var texdataCount :- ReadU8(buf, uvCount.next);
    var hasTangents :- ReadU8(buf, texdataCount.next);
    var hasBones :- ReadU8(buf, hasTangents.next);
    var layout := LayoutOf(uvCount.value, texdataCount.value, hasTangents.value, hasBones.value);
    Ok(Parsed(MeshHeader(id.value, materialId.value, vertexCount.value, layout), hasBones.next))
  }

  /** u32 index count, index width byte, then the index elements. */
  function ParseIndices(reading: IndexReading, buf: seq<uint8>, pos: nat): (r: Result<Parsed<seq<nat>>>)
  {
    var indexCount :- ReadU32(buf, pos);
    var indexSize :- ReadU8(buf, indexCount.next);
    ParseMany(IndexParser(reading, indexSize.value), buf, indexSize.next, indexCount.value)
  }

  /** Header, vertex_count vertices of the header's layout, the index list. */
  function ParseMesh(reading: IndexReading, buf: seq<uint8>, pos: nat): (r: Result<Parsed<Mesh>>)
  {
    var header :- ParseMeshHeader(buf, pos);
    var h := header.value;
    var vertices :- ParseMany(VertexParser(h.layout), buf, header.next, h.vertexCount);
    var indices :- ParseIndices(reading, buf, vertices.next);
    Ok(Parsed(Mesh(h.id, h.materialId, vertices.value, indices.value), indices.next))
  }

  function MeshParser(reading: IndexReading): Parser<Mesh> {
    (b: seq<uint8>, q: nat) => ParseMesh(reading, b, q)
  }

  /** The largest value plus one an index element of width `size` can hold. */
  function IndexLimit(size: uint8): nat {
    if size == 4 then 0x1_0000_0000 else 0x1_0000
  }

  /** The corrected element read: exactly index_size bytes, a u16 or a u32. */
  lemma IndexLayout(size: uint8, b: seq<uint8>, q: nat)
    ensures ParseIndex(size, b, q).Ok? <==> (size == 2 || size == 4) && q + size <= |b|
    ensures ParseIndex(size, b, q).Ok? ==>
              && ParseIndex(size, b, q).value == Parsed(LittleEndian(b[q .. q + size]), q + size)
              && ParseIndex(size, b, q).value.value < IndexLimit(size)
  {
    assert Pow256(2) == 0x1_0000;
    assert Pow256(4) == 0x1_0000_0000;
  }

  /** The element read as written: a width of 4 unpacks a u32 from four
      bytes; any other width unpacks a u16, which succeeds when the read
      returned two bytes, either because the width is 2 or because the file
      ends two bytes on. */
  lemma IndexAsWrittenLayout(size: uint8, b: seq<uint8>, q: nat)
    ensures ParseIndexAsWritten(size, b, q).Ok? <==>
              if size == 4 then q + 4 <= |b|
              else (size == 2 && q + 2 <= |b|) || (size > 2 && q + 2 == |b|)
    ensures ParseIndexAsWritten(size, b, q).Ok? ==>
              var w := if size == 4 then 4 else 2;
              && ParseIndexAsWritten(size, b, q).value == Parsed(LittleEndian(b[q .. q + w]), q + w)
              && ParseIndexAsWritten(size, b, q).value.value < IndexLimit(size)
  {
    assert Pow256(2) == 0x1_0000;
    assert Pow256(4) == 0x1_0000_0000;
  }

  /** Wherever the corrected read accepts an element, the source's read
      accepts it too, with the same value and position. */
  lemma IndexReadingsAgree(size: uint8, b: seq<uint8>, q: nat)
    requires ParseIndex(size, b, q).Ok?
    ensures ParseIndexAsWritten(size, b, q) == ParseIndex(size, b, q)
  {
    IndexLayout(size, b, q);
    IndexAsWrittenLayout(size, b, q);
  }

  lemma IndexFacts(reading: IndexReading, size: uint8)
    ensures Advances(IndexParser(reading, size))
    ensures Yields(IndexParser(reading, size), (x: nat) => x < IndexLimit(size))
    ensures reading == Corrected ==> Framed(IndexParser(reading, size))
    ensures reading == Corrected && (size == 2 || size == 4) ==> FixedWidth(IndexParser(reading, size), size)
    ensures reading == Corrected && size != 2 && size != 4 ==>
              forall b: seq<uint8>, q: nat :: IndexParser(reading, size)(b, q).Err?
  {
    forall b: seq<uint8>, q: nat
      ensures IndexParser(reading, size)(b, q).Ok? ==> q < IndexParser(reading, size)(b, q).value.next <= |b|
      ensures IndexParser(reading, size)(b, q).Ok? ==> IndexParser(reading, size)(b, q).value.value < IndexLimit(size)
      ensures reading == Corrected ==>
                (IndexParser(reading, size)(b, q).Ok? <==> (size == 2 || size == 4) && q + size <= |b|)
      ensures reading == Corrected && IndexParser(reading, size)(b, q).Ok? ==>
                IndexParser(reading, size)(b, q).value.next == q + size
    {
      IndexLayout(size, b, q);
      IndexAsWrittenLayout(size, b, q);
    }
    forall b: seq<uint8>, b': seq<uint8>, q: nat |
      reading == Corrected && IndexParser(reading, size)(b, q).Ok? &&
      Agree(b, b', q, IndexParser(reading, size)(b, q).value.next)
      ensures IndexParser(reading, size)(b', q) == IndexParser(reading, size)(b, q)
    {
      IndexLayout(size, b, q);
      assert b'[q .. q + size] == b[q .. q + size];
    }
  }

  /** The header as it sits in the ten bytes at q. */
  function HeaderAt(b: seq<uint8>, q: nat): MeshHeader
    requires q + 10 <= |b|
  {
    MeshHeader(b[q], b[q + 1], LittleEndian(b[q + 2 .. q + 6]), LayoutOf(b[q + 6], b[q + 7], b[q + 8], b[q + 9]))
  }

  /** Byte positions of the header fields: id, material id, u32 vertex
      count, then uv_count, texdata_count, has_tangents, has_bones. */
  lemma HeaderLayout(b: seq<uint8>, q: nat)
    ensures ParseMeshHeader(b, q).Ok? <==> q + 10 <= |b|
    ensures ParseMeshHeader(b, q).Ok? ==> ParseMeshHeader(b, q).value == Parsed(HeaderAt(b, q), q + 10)
  {
  }

  lemma IndicesParts(reading: IndexReading, b: seq<uint8>, q: nat)
    ensures ParseIndices(reading, b, q).Ok? ==> q + 5 <= |b|
    ensures q + 5 <= |b| ==>
              ParseIndices(reading, b, q) ==
                ParseMany(IndexParser(reading, b[q + 4]), b, q + 5, LittleEndian(b[q .. q + 4]))
  {
  }

  /** What a decoded index list says about its bytes, under either reading:
      index_count elements, each below the limit of the declared width, all
      within the buffer. */
  lemma IndicesLayout(reading: IndexReading, b: seq<uint8>, q: nat)
    requires ParseIndices(reading, b, q).Ok?
    ensures q + 5 <= ParseIndices(reading, b, q).value.next <= |b|
    ensures |ParseIndices(reading, b, q).value.value| == LittleEndian(b[q .. q + 4])
    ensures forall i :: 0 <= i < |ParseIndices(reading, b, q).value.value| ==>
              ParseIndices(reading, b, q).value.value[i] < IndexLimit(b[q + 4])
  {
    IndicesParts(reading, b, q);
    var p := IndexParser(reading, b[q + 4]);
    var n := LittleEndian(b[q .. q + 4]);
    IndexFacts(reading, b[q + 4]);
    ManyAdvances(p, b, q + 5, n);
    ManyYields(p, (x: nat) => x < IndexLimit(b[q + 4]), b, q + 5, n);
  }

  /** The corrected index list is accepted exactly when its elements are all
      present and, if there are any, the width is 2 or 4; it then ends
      index_count * index_size bytes after the width byte. */
  lemma IndicesWidth(b: seq<uint8>, q: nat)
    ensures ParseIndices(Corrected, b, q).Ok? <==>
              && q + 5 <= |b|
              && var n := LittleEndian(b[q .. q + 4]);
                 n == 0 || ((b[q + 4] == 2 || b[q + 4] == 4) && q + 5 + n * b[q + 4] <= |b|)
    ensures ParseIndices(Corrected, b, q).Ok? ==>
              ParseIndices(Corrected, b, q).value.next == q + 5 + LittleEndian(b[q .. q + 4]) * b[q + 4]
  {
    IndicesParts(Corrected, b, q);
    if q + 5 <= |b| {
      var size := b[q + 4];
      var n := LittleEndian(b[q .. q + 4]);
      IndexFacts(Corrected, size);
      if size == 2 || size == 4 {
        ManyFixedWidth(IndexParser(Corrected, size), size, b, q + 5, n);
      } else if n > 0 {
        assert IndexParser(Corrected, size)(b, q + 5).Err?;
      }
    }
  }

  lemma IndicesFramed(b: seq<uint8>, b': seq<uint8>, q: nat)
    requires ParseIndices(Corrected, b, q).Ok?
    requires Agree(b, b', q, ParseIndices(Corrected, b, q).value.next)
    ensures ParseIndices(Corrected, b', q) == ParseIndices(Corrected, b, q)
  {
    IndicesLayout(Corrected, b, q);
    IndicesParts(Corrected, b, q);
    IndicesParts(Corrected, b', q);
    assert b'[q .. q + 4] == b[q .. q + 4] && b'[q + 4] == b[q + 4];
    IndexFacts(Corrected, b[q + 4]);
    ManyFramed(IndexParser(Corrected, b[q + 4]), b, b', q + 5, LittleEndian(b[q .. q + 4]));
  }

  /** Every index list the corrected reading accepts, the source's reading
      accepts with the same result. */
  lemma IndicesReadingsAgree(b: seq<uint8>, q: nat)
    requires ParseIndices(Corrected, b, q).Ok?
    ensures ParseIndices(AsWritten, b, q) == ParseIndices(Corrected, b, q)
  {
    IndicesParts(Corrected, b, q);
    IndicesParts(AsWritten, b, q);
    var size := b[q + 4];
    forall b: seq<uint8>, q: nat | IndexParser(Corrected, size)(b, q).Ok?
      ensures IndexParser(AsWritten, size)(b, q) == IndexParser(Corrected, size)(b, q)
    {
      IndexReadingsAgree(size, b, q);
    }
    ManyRefines(IndexParser(Corrected, size), IndexParser(AsWritten, size), b, q + 5, LittleEndian(b[q .. q + 4]));
  }

  /** Where the index list of the mesh at q starts. */
  function VerticesEnd(b: seq<uint8>, q: nat): (e: nat)
    requires q + 10 <= |b|
    ensures q + 10 <= e
  {
    var n: nat := LittleEndian(b[q + 2 .. q + 6]);
    var s: nat := Stride(HeaderAt(b, q).layout);
    ProductNonnegative(n, s);
    q + 10 + n * s
  }

  lemma ProductNonnegative(n: nat, s: nat)
    ensures 0 <= n * s
  {
  }

  /** ParseMesh split into its parts. */
  lemma MeshParts(reading: IndexReading, b: seq<uint8>, q: nat)
    requires ParseMesh(reading, b, q).Ok?
    ensures q + 10 <= |b|
    ensures var h := HeaderAt(b, q);
      && ParseMany(VertexParser(h.layout), b, q + 10, h.vertexCount) ==
           Ok(Parsed(ParseMesh(reading, b, q).value.value.vertices, VerticesEnd(b, q)))
      && ParseIndices(reading, b, VerticesEnd(b, q)) ==
           Ok(Parsed(ParseMesh(reading, b, q).value.value.indices, ParseMesh(reading, b, q).value.next))
      && ParseMesh(reading, b, q).value.value.id == b[q]
      && ParseMesh(reading, b, q).value.value.materialId == b[q + 1]
  {
    HeaderLayout(b, q);
    var h := HeaderAt(b, q);
    VerticesLayout(h.layout, b, q + 10, h.vertexCount);
  }

  /** ParseMesh assembled from its parts. */
  lemma MeshCompose(reading: IndexReading, b: seq<uint8>, q: nat, vs: seq<Vertex>, v: nat, xs: seq<nat>, e: nat)
    requires q + 10 <= |b|
    requires ParseMany(VertexParser(HeaderAt(b, q).layout), b, q + 10, HeaderAt(b, q).vertexCount) == Ok(Parsed(vs, v))
    requires ParseIndices(reading, b, v) == Ok(Parsed(xs, e))
    ensures ParseMesh(reading, b, q) == Ok(Parsed(Mesh(b[q], b[q + 1], vs, xs), e))
  {
    HeaderLayout(b, q);
  }

  /** A decoded mesh copies its id and material id, and holds vertex_count
      vertices that all follow the layout its four flag bytes fix. */
  lemma MeshVertices(reading: IndexReading, b: seq<uint8>, q: nat)
    requires ParseMesh(reading, b, q).Ok?
    ensures q + 10 <= |b|
    ensures var m := ParseMesh(reading, b, q).value.value;
      && m.id == b[q]
      && m.materialId == b[q + 1]
      && |m.vertices| == HeaderAt(b, q).vertexCount == LittleEndian(b[q + 2 .. q + 6])
      && forall i :: 0 <= i < |m.vertices| ==> Conforms(m.vertices[i], HeaderAt(b, q).layout)
  {
    MeshParts(reading, b, q);
    var h := HeaderAt(b, q);
    VerticesLayout(h.layout, b, q + 10, h.vertexCount);
  }

  /** The index list of a decoded mesh starts right after its vertices and
      holds index_count elements, each below the limit of the width byte;
      under the corrected reading it ends index_count * index_size bytes
      after that byte. */
  lemma MeshIndices(reading: IndexReading, b: seq<uint8>, q: nat)
    requires ParseMesh(reading, b, q).Ok?
    ensures q + 10 <= |b|
    ensures VerticesEnd(b, q) + 5 <= ParseMesh(reading, b, q).value.next <= |b|
    ensures var m := ParseMesh(reading, b, q).value.value;
      var v := VerticesEnd(b, q);
      && |m.indices| == LittleEndian(b[v .. v + 4])
      && (forall i :: 0 <= i < |m.indices| ==> m.indices[i] < IndexLimit(b[v + 4]))
      && (reading == Corrected ==> ParseMesh(reading, b, q).value.next == v + 5 + |m.indices| * b[v + 4])
  {
    MeshParts(reading, b, q);
    var v := VerticesEnd(b, q);
    IndicesLayout(reading, b, v);
    if reading == Corrected {
      IndicesWidth(b, v);
    }
  }

  lemma MeshFramed(b: seq<uint8>, b': seq<uint8>, q: nat)
    requires ParseMesh(Corrected, b, q).Ok? && Agree(b, b', q, ParseMesh(Corrected, b, q).value.next)
    ensures ParseMesh(Corrected, b', q) == ParseMesh(Corrected, b, q)
  {
    MeshParts(Corrected, b, q);
    var v := VerticesEnd(b, q);
    var h := HeaderAt(b, q);
    var m := ParseMesh(Corrected, b, q).value;
    assert v + 5 <= m.next by {
      IndicesLayout(Corrected, b, v);
    }
    assert HeaderAt(b', q) == h by {
      assert b'[q + 2 .. q + 6] == b[q + 2 .. q + 6];
    }
    assert ParseMany(VertexParser(h.layout), b', q + 10, h.vertexCount) == Ok(Parsed(m.value.vertices, v)) by {
      VerticesFramed(h.layout, b, b', q + 10, h.vertexCount);
    }
    assert ParseIndices(Corrected, b', v) == Ok(Parsed(m.value.indices, m.next)) by {
      IndicesFramed(b, b', v);
    }
    MeshCompose(Corrected, b', q, m.value.vertices, v, m.value.indices, m.next);
  }

  /** Every mesh the corrected reading accepts, the source's reading accepts
      with the same result. */
  lemma MeshReadingsAgree(b: seq<uint8>, q: nat)
    requires ParseMesh(Corrected, b, q).Ok?
    ensures ParseMesh(AsWritten, b, q) == ParseMesh(Corrected, b, q)
  {
    MeshParts(Corrected, b, q);
    var v := VerticesEnd(b, q);
    var m := ParseMesh(Corrected, b, q).value;
    IndicesReadingsAgree(b, v);
    MeshCompose(AsWritten, b, q, m.value.vertices, v, m.value.indices, m.next);
  }

  /** A decoded mesh lies within the buffer, after its start. */
  lemma MeshAdvances(reading: IndexReading, b: seq<uint8>, q: nat)
    requires ParseMesh(reading, b, q).Ok?
    ensures q < ParseMesh(reading, b, q).value.next <= |b|
  {
    MeshParts(reading, b, q);
    IndicesLayout(reading, b, VerticesEnd(b, q));
  }

  lemma MeshFacts(reading: IndexReading)
    ensures Advances(MeshParser(reading))
    ensures reading == Corrected ==> Framed(MeshParser(reading))
  {
    forall b: seq<uint8>, q: nat | MeshParser(reading)(b, q).Ok?
      ensures q < MeshParser(reading)(b, q).value.next <= |b|
    {
      MeshAdvances(reading, b, q);
    }
    forall b: seq<uint8>, b': seq<uint8>, q: nat |
      reading == Corrected && MeshParser(reading)(b, q).Ok? &&
      Agree(b, b', q, MeshParser(reading)(b, q).value.next)
      ensures MeshParser(reading)(b', q) == MeshParser(reading)(b, q)
    {
      MeshFramed(b, b', q);
    }
  }
  /** Under either reading an index element depends on the bytes from its
      position to the end of the file and on nothing after that end: as
      written it looks at where the file ends, but two files that both let
      it through, or that have the same length, give the same element. */
  lemma IndexPrefixStable(reading: IndexReading, size: uint8)
    ensures PrefixStable(IndexParser(reading, size))
  {
    IndexFacts(reading, size);
    if reading == Corrected {
      FramedPrefixStable(IndexParser(reading, size));
    } else {
      forall b: seq<uint8>, b': seq<uint8>, q: nat |
        && IndexParser(reading, size)(b, q).Ok? && Agree(b, b', q, |b|)
        && (|b'| == |b| || IndexParser(reading, size)(b', q).Ok?)
        ensures IndexParser(reading, size)(b', q) == IndexParser(reading, size)(b, q)
      {
        IndexAsWrittenLayout(size, b, q);
        IndexAsWrittenLayout(size, b', q);
        var w := if size == 4 then 4 else 2;
        AgreeSlice(b, b', q, |b|, q, q + w);
      }
    }
  }

  lemma IndicesPrefixStable(reading: IndexReading, b: seq<uint8>, b': seq<uint8>, q: nat)
    requires ParseIndices(reading, b, q).Ok? && Agree(b, b', q, |b|)
    requires |b'| == |b| || ParseIndices(reading, b', q).Ok?
    ensures ParseIndices(reading, b', q) == ParseIndices(reading, b, q)
  {
    IndicesParts(reading, b, q);
    IndicesParts(reading, b', q);
    assert b'[q .. q + 4] == b[q .. q + 4] && b'[q + 4] == b[q + 4];
    var size := b[q + 4];
    IndexFacts(reading, size);
    IndexPrefixStable(reading, size);
    ManyPrefixStable(IndexParser(reading, size), b, b', q + 5, LittleEndian(b[q .. q + 4]));
  }

  /** A mesh depends on the bytes from its start to the end of the file, and
      under the source's reading also on where the file ends, but on nothing
      after that end. */
  lemma MeshPrefixStable(reading: IndexReading, b: seq<uint8>, b': seq<uint8>, q: nat)
    requires ParseMesh(reading, b, q).Ok? && Agree(b, b', q, |b|)
    requires |b'| == |b| || ParseMesh(reading, b', q).Ok?
    ensures ParseMesh(reading, b', q) == ParseMesh(reading, b, q)
  {
    MeshParts(reading, b, q);
    var m := ParseMesh(reading, b, q).value;
    var v := VerticesEnd(b, q);
    VerticesCarry(b, b', q, m.value.vertices, v);
    if |b'| != |b| {
      MeshIndicesAccepted(reading, b', q, m.value.vertices, v);
    }
    assert Agree(b, b', v, |b|);
    IndicesPrefixStable(reading, b, b', v);
    MeshCompose(reading, b', q, m.value.vertices, v, m.value.indices, m.next);
  }

  /** A mesh's header and vertices carry over to a buffer that holds its
      bytes up to the end of the file. */
  lemma VerticesCarry(b: seq<uint8>, b': seq<uint8>, q: nat, vs: seq<Vertex>, v: nat)
    requires q + 10 <= |b| && Agree(b, b', q, |b|)
    requires ParseMany(VertexParser(HeaderAt(b, q).layout), b, q + 10, HeaderAt(b, q).vertexCount) == Ok(Parsed(vs, v))
    ensures q + 10 <= |b'| && v <= |b|
    ensures HeaderAt(b', q) == HeaderAt(b, q)
    ensures ParseMany(VertexParser(HeaderAt(b', q).layout), b', q + 10, HeaderAt(b', q).vertexCount) == Ok(Parsed(vs, v))
  {
    var h := HeaderAt(b, q);
    assert HeaderAt(b', q) == h by {
      assert b'[q + 2 .. q + 6] == b[q + 2 .. q + 6];
    }
    VertexFacts(h.layout);
    ManyAdvances(VertexParser(h.layout), b, q + 10, h.vertexCount);
    assert Agree(b, b', q + 10, v);
    VerticesFramed(h.layout, b, b', q + 10, h.vertexCount);
  }

  /** In an accepted mesh the index list after the vertices is accepted. */
  lemma MeshIndicesAccepted(reading: IndexReading, b: seq<uint8>, q: nat, vs: seq<Vertex>, v: nat)
    requires q + 10 <= |b| && ParseMesh(reading, b, q).Ok?
    requires ParseMany(VertexParser(HeaderAt(b, q).layout), b, q + 10, HeaderAt(b, q).vertexCount) == Ok(Parsed(vs, v))
    ensures ParseIndices(reading, b, v).Ok?
  {
    HeaderLayout(b, q);
  }

  lemma MeshParserPrefixStable(reading: IndexReading)
    ensures PrefixStable(MeshParser(reading))
  {
    forall b: seq<uint8>, b': seq<uint8>, q: nat |
      && MeshParser(reading)(b, q).Ok? && Agree(b, b', q, |b|)
      && (|b'| == |b| || MeshParser(reading)(b', q).Ok?)
      ensures MeshParser(reading)(b', q) == MeshParser(reading)(b, q)
    {
      MeshPrefixStable(reading, b, b', q);
    }
  }
}

/** One vertex record (io_import_sgm.py lines 67-87): its layout, the
    field-by-field read the decoder performs, and the equivalent read of one
    Stride-sized block that the mesh decoder is stated in terms of. */
module VertexDecoder {
  import opened Bytes
  import opened Results
  import opened Reader

  /** The dict built per vertex. Absent attributes are None. */
  datatype Vertex = Vertex(
    position: seq<F32>,
    normal: seq<F32>,
    uvs: seq<seq<F32>>,
    color: Option<seq<F32>>,
    tangents: Option<seq<F32>>,
    weights: Option<seq<F32>>,
    boneIndices: Option<seq<nat>>)

  /** Per-vertex layout, fixed once per mesh from its flag bytes. */
  datatype VertexLayout = VertexLayout(uvCount: uint8, hasColor: bool, hasTangents: bool, hasBones: bool)

  /** The flag bytes as the decoder tests them: a colour only when the
      texdata count is exactly 4, tangents and bones whenever their byte is
      not zero. */
  function LayoutOf(uvCount: uint8, texdataCount: uint8, hasTangents: uint8, hasBones: uint8): VertexLayout {
    VertexLayout(uvCount, texdataCount == 4, hasTangents != 0, hasBones != 0)
  }

  /** Bytes per vertex: position and normal (3 floats each), 2 floats per UV
      channel, 4 colour floats, 3 tangent floats, 4 weight floats and 4 u32
      bone indices. */
  function Stride(l: VertexLayout): nat {
    12 + 12 + 8 * l.uvCount
    + (if l.hasColor then 16 else 0)
    + (if l.hasTangents then 12 else 0)
    + (if l.hasBones then 16 + 16 else 0)
  }

  /** v has exactly the attributes l calls for, each of its fixed size. */
  predicate Conforms(v: Vertex, l: VertexLayout) {
    && |v.position| == 3
    && |v.normal| == 3
    && |v.uvs| == l.uvCount
    && (forall i :: 0 <= i < |v.uvs| ==> |v.uvs[i]| == 2)
    && (v.color.Some? <==> l.hasColor)
    && (v.color.Some? ==> |v.color.value| == 4)
    && (v.tangents.Some? <==> l.hasTangents)
    && (v.tangents.Some? ==> |v.tangents.value| == 3)
    && (v.weights.Some? <==> l.hasBones)
    && (v.weights.Some? ==> |v.weights.value| == 4)
    && (v.boneIndices.Some? <==> l.hasBones)
    && (v.boneIndices.Some? ==> |v.boneIndices.value| == 4)
    && (v.boneIndices.Some? ==> forall i :: 0 <= i < |v.boneIndices.value| ==> v.boneIndices.value[i] < 0x1_0000_0000)
  }

  function ConformsTo(l: VertexLayout): Vertex -> bool {
    (v: Vertex) => Conforms(v, l)
  }

  /** The attributes a layout may leave out, in file order. */
  datatype OptionalAttributes = OptionalAttributes(
    color: Option<seq<F32>>,
    tangents: Option<seq<F32>>,
    weights: Option<seq<F32>>,
    boneIndices: Option<seq<nat>>)

  function OptionalSize(l: VertexLayout): nat {
    (if l.hasColor then 16 else 0) + (if l.hasTangents then 12 else 0) + (if l.hasBones then 16 + 16 else 0)
  }

  function ParseOptionalAttributes(l: VertexLayout, buf: seq<uint8>, pos: nat): (r: Result<Parsed<OptionalAttributes>>)
  {
    var color :- ReadIf(l.hasColor, WordsParser(4), buf, pos);
    var tangents :- ReadIf(l.hasTangents, WordsParser(3), buf, color.next);
    var weights :- ReadIf(l.hasBones, WordsParser(4), buf, tangents.next);
    var boneIndices :- ReadIf(l.hasBones, Uint32sParser(4), buf, weights.next);
    Ok(Parsed(OptionalAttributes(color.value, tangents.value, weights.value, boneIndices.value), boneIndices.next))
  }

  /** The vertex read field by field, as the decoder does it: position,
      normal, uv_count UV pairs, then the optional attributes. */
  function ParseVertexFields(l: VertexLayout, buf: seq<uint8>, pos: nat): (r: Result<Parsed<Vertex>>)
  {
    var position :- ReadWords(buf, pos, 3);
    var normal :- ReadWords(buf, position.next, 3);
    var uvs :- ParseMany(WordsParser(2), buf, normal.next, l.uvCount);
    var rest :- ParseOptionalAttributes(l, buf, uvs.next);
    var a := rest.value;
    Ok(Parsed(Vertex(position.value, normal.value, uvs.value, a.color, a.tangents, a.weights, a.boneIndices), rest.next))
  }

  /** Where the optional attributes of a vertex start, relative to it. */
  function ColorOffset(l: VertexLayout): nat {
    24 + 8 * l.uvCount
  }

  /** The optional attributes held in the OptionalSize(l) bytes at p. */
  function OptionalsAt(l: VertexLayout, b: seq<uint8>, p: nat): (a: OptionalAttributes)
    requires OptionalSize(l) == 0 || p + OptionalSize(l) <= |b|
  {
    var t := p + (if l.hasColor then 16 else 0);
    var w := t + (if l.hasTangents then 12 else 0);
    OptionalAttributes(
      if l.hasColor then Some(Words(b[p .. p + 16])) else None,
      if l.hasTangents then Some(Words(b[t .. t + 12])) else None,
      if l.hasBones then Some(Words(b[w .. w + 16])) else None,
      if l.hasBones then Some(Uint32s(b[w + 16 .. w + 32])) else None)
  }

  /** The vertex held in the Stride(l) bytes at q. */
  function VertexAt(l: VertexLayout, b: seq<uint8>, q: nat): (v: Vertex)
    requires q + Stride(l) <= |b|
    ensures Conforms(v, l)
  {
    var a := OptionalsAt(l, b, q + ColorOffset(l));
    Vertex(
      Words(b[q .. q + 12]),
      Words(b[q + 12 .. q + 24]),
      seq(l.uvCount, i requires 0 <= i < l.uvCount => Words(b[q + 24 + 8 * i .. q + 32 + 8 * i])),
      a.color, a.tangents, a.weights, a.boneIndices)
  }

  /** A vertex read as one block: fails exactly when fewer than Stride(l)
      bytes remain. VertexFieldsAgree shows it equal to ParseVertexFields. */
  function ParseVertex(l: VertexLayout, buf: seq<uint8>, pos: nat): (r: Result<Parsed<Vertex>>)
  {
    if pos + Stride(l) <= |buf| then Ok(Parsed(VertexAt(l, buf, pos), pos + Stride(l)))
    else Err(ShortRead(pos, Stride(l)))
  }

  function VertexParser(l: VertexLayout): Parser<Vertex> {
    (b: seq<uint8>, q: nat) => ParseVertex(l, b, q)
  }

  /** The optional attributes take OptionalSize(l) bytes, and each present
      one holds the words at its offset: colour, tangents, weights, bone
      indices, in that order. */
  lemma OptionalAttributesLayout(l: VertexLayout, b: seq<uint8>, q: nat)
    ensures ParseOptionalAttributes(l, b, q).Ok? <==> OptionalSize(l) == 0 || q + OptionalSize(l) <= |b|
    ensures ParseOptionalAttributes(l, b, q).Ok? ==>
              && ParseOptionalAttributes(l, b, q).value.next == q + OptionalSize(l)
              && ParseOptionalAttributes(l, b, q).value.value == OptionalsAt(l, b, q)
  {
    ReadIfWords(l.hasColor, 4, b, q);
    var t := q + (if l.hasColor then 16 else 0);
    ReadIfWords(l.hasTangents, 3, b, t);
    var w := t + (if l.hasTangents then 12 else 0);
    ReadIfWords(l.hasBones, 4, b, w);
    ReadIfUint32s(l.hasBones, 4, b, w + (if l.hasBones then 16 else 0));
  }

  /** The UV list of a vertex: n pairs of float words, 8 bytes each. */
  lemma UvsLayout(b: seq<uint8>, q: nat, n: nat)
    ensures ParseMany(WordsParser(2), b, q, n).Ok? <==> n == 0 || q + 8 * n <= |b|
    ensures ParseMany(WordsParser(2), b, q, n).Ok? ==>
              && ParseMany(WordsParser(2), b, q, n).value.next == q + 8 * n
              && forall i :: 0 <= i < n ==> |ParseMany(WordsParser(2), b, q, n).value.value[i]| == 2
  {
    WordsParserWidth(2);
    ManyFixedWidth(WordsParser(2), 8, b, q, n);
    if ParseMany(WordsParser(2), b, q, n).Ok? {
      var P := (uv: seq<F32>) => |uv| == 2;
      assert Yields(WordsParser(2), P);
      ManyYields(WordsParser(2), P, b, q, n);
    }
  }

  /** The i-th UV pair holds the two words 8 * i bytes on. */
  lemma UvsValues(b: seq<uint8>, q: nat, n: nat)
    requires ParseMany(WordsParser(2), b, q, n).Ok?
    ensures q + 8 * n <= |b| || n == 0
    ensures forall i :: 0 <= i < n ==> ParseMany(WordsParser(2), b, q, n).value.value[i] == Words(b[q + 8 * i .. q + 8 * i + 8])
  {
    WordsParserWidth(2);
    ManyFixedWidth(WordsParser(2), 8, b, q, n);
    ManyFixedWidthValues(WordsParser(2), 8, b, q, n);
  }

  /** ParseVertex assembled from its parts. */
  lemma VertexCompose(l: VertexLayout, b: seq<uint8>, q: nat, uvs: seq<seq<F32>>, a: OptionalAttributes, e: nat)
    requires q + 24 <= |b|
    requires ParseMany(WordsParser(2), b, q + 24, l.uvCount) == Ok(Parsed(uvs, q + 24 + 8 * l.uvCount))
    requires ParseOptionalAttributes(l, b, q + 24 + 8 * l.uvCount) == Ok(Parsed(a, e))
    ensures ParseVertexFields(l, b, q) ==
              Ok(Parsed(Vertex(Words(b[q .. q + 12]), Words(b[q + 12 .. q + 24]), uvs,
                               a.color, a.tangents, a.weights, a.boneIndices), e))
  {
  }

  /** ParseVertex split into its parts. */
  lemma VertexParts(l: VertexLayout, b: seq<uint8>, q: nat) returns (uvs: seq<seq<F32>>, a: OptionalAttributes)
    requires ParseVertexFields(l, b, q).Ok?
    ensures q + 24 + 8 * l.uvCount <= |b|
    ensures ParseMany(WordsParser(2), b, q + 24, l.uvCount) == Ok(Parsed(uvs, q + 24 + 8 * l.uvCount))
    ensures ParseOptionalAttributes(l, b, q + 24 + 8 * l.uvCount) == Ok(Parsed(a, ParseVertexFields(l, b, q).value.next))
    ensures ParseVertexFields(l, b, q).value.value ==
              Vertex(Words(b[q .. q + 12]), Words(b[q + 12 .. q + 24]), uvs,
                     a.color, a.tangents, a.weights, a.boneIndices)
  {
    UvsLayout(b, q + 24, l.uvCount);
    uvs := ParseMany(WordsParser(2), b, q + 24, l.uvCount).value.value;
    a := ParseOptionalAttributes(l, b, q + 24 + 8 * l.uvCount).value.value;
  }

  lemma VertexFits(l: VertexLayout, b: seq<uint8>, q: nat)
    requires ParseVertexFields(l, b, q).Ok?
    ensures ParseVertexFields(l, b, q).value.next == q + Stride(l) <= |b|
  {
    var uvs, a := VertexParts(l, b, q);
    OptionalAttributesLayout(l, b, q + 24 + 8 * l.uvCount);
  }

  lemma VertexDecodes(l: VertexLayout, b: seq<uint8>, q: nat)
    requires q + Stride(l) <= |b|
    ensures ParseVertexFields(l, b, q).Ok?
  {
    var c := q + 24 + 8 * l.uvCount;
    UvsLayout(b, q + 24, l.uvCount);
    OptionalAttributesLayout(l, b, c);
    var uvs := ParseMany(WordsParser(2), b, q + 24, l.uvCount).value.value;
    var a := ParseOptionalAttributes(l, b, c).value.value;
    VertexCompose(l, b, q, uvs, a, q + Stride(l));
  }

  /** A vertex occupies exactly Stride(l) bytes and is decoded whenever they are there. */
  lemma VertexWidth(l: VertexLayout, b: seq<uint8>, q: nat)
    ensures ParseVertexFields(l, b, q).Ok? <==> q + Stride(l) <= |b|
    ensures ParseVertexFields(l, b, q).Ok? ==> ParseVertexFields(l, b, q).value.next == q + Stride(l)
  {
    if ParseVertexFields(l, b, q).Ok? {
      VertexFits(l, b, q);
    }
    if q + Stride(l) <= |b| {
      VertexDecodes(l, b, q);
    }
  }

  /** A vertex read field by field is the block VertexAt describes. */
  lemma VertexFieldsValue(l: VertexLayout, b: seq<uint8>, q: nat)
    requires ParseVertexFields(l, b, q).Ok?
    ensures q + Stride(l) <= |b|
    ensures ParseVertexFields(l, b, q).value.value == VertexAt(l, b, q)
  {
    VertexFits(l, b, q);
    var uvs, a := VertexParts(l, b, q);
    var v := VertexAt(l, b, q);
    assert uvs == v.uvs by {
      UvsValues(b, q + 24, l.uvCount);
    }
    OptionalsOfVertex(l, b, q, a, ParseVertexFields(l, b, q).value.next);
  }

  /** The optional attributes read after the UVs are those of VertexAt. */
  lemma OptionalsOfVertex(l: VertexLayout, b: seq<uint8>, q: nat, a: OptionalAttributes, e: nat)
    requires q + Stride(l) <= |b|
    requires ParseOptionalAttributes(l, b, q + 24 + 8 * l.uvCount) == Ok(Parsed(a, e))
    ensures a == OptionalAttributes(VertexAt(l, b, q).color, VertexAt(l, b, q).tangents,
                                    VertexAt(l, b, q).weights, VertexAt(l, b, q).boneIndices)
  {
    var c := q + ColorOffset(l);
    assert c == q + 24 + 8 * l.uvCount;
    OptionalAttributesLayout(l, b, c);
  }

  /** Reading the fields one by one and reading one block of Stride(l)
      bytes accept the same buffers and return the same vertex. */
  lemma VertexFieldsAgree(l: VertexLayout, b: seq<uint8>, q: nat)
    ensures ParseVertexFields(l, b, q).Ok? <==> ParseVertex(l, b, q).Ok?
    ensures ParseVertexFields(l, b, q).Ok? ==> ParseVertexFields(l, b, q) == ParseVertex(l, b, q)
  {
    VertexWidth(l, b, q);
    if ParseVertexFields(l, b, q).Ok? {
      VertexFieldsValue(l, b, q);
    }
  }

  lemma VertexFacts(l: VertexLayout)
    ensures FixedWidth(VertexParser(l), Stride(l))
    ensures Advances(VertexParser(l))
    ensures Framed(VertexParser(l))
    ensures Yields(VertexParser(l), ConformsTo(l))
  {
    forall b: seq<uint8>, b': seq<uint8>, q: nat |
      VertexParser(l)(b, q).Ok? && Agree(b, b', q, VertexParser(l)(b, q).value.next)
      ensures VertexParser(l)(b', q) == VertexParser(l)(b, q)
    {
      VertexAtFramed(l, b, b', q);
    }
  }

  /** The vertex at q depends only on its own Stride(l) bytes. */
  lemma VertexAtFramed(l: VertexLayout, b: seq<uint8>, b': seq<uint8>, q: nat)
    requires q + Stride(l) <= |b| && Agree(b, b', q, q + Stride(l))
    ensures VertexAt(l, b', q) == VertexAt(l, b, q)
  {
    forall i, j | q <= i <= j <= q + Stride(l)
      ensures b'[i .. j] == b[i .. j]
    {
      AgreeSlice(b, b', q, q + Stride(l), i, j);
    }
  }

  /** vertex_count vertices of layout l take vertex_count * Stride(l) bytes,
      and every one of them conforms to l. */
  lemma VerticesLayout(l: VertexLayout, b: seq<uint8>, q: nat, n: nat)
    ensures ParseMany(VertexParser(l), b, q, n).Ok? <==> n == 0 || q + n * Stride(l) <= |b|
    ensures ParseMany(VertexParser(l), b, q, n).Ok? ==>
              && ParseMany(VertexParser(l), b, q, n).value.next == q + n * Stride(l)
              && forall i :: 0 <= i < n ==> Conforms(ParseMany(VertexParser(l), b, q, n).value.value[i], l)
  {
    VertexFacts(l);
    ManyFixedWidth(VertexParser(l), Stride(l), b, q, n);
    if ParseMany(VertexParser(l), b, q, n).Ok? {
      ManyYields(VertexParser(l), ConformsTo(l), b, q, n);
    }
  }

  lemma VerticesFramed(l: VertexLayout, b: seq<uint8>, b': seq<uint8>, q: nat, n: nat)
    requires ParseMany(VertexParser(l), b, q, n).Ok?
    requires Agree(b, b', q, ParseMany(VertexParser(l), b, q, n).value.next)
    ensures ParseMany(VertexParser(l), b', q, n) == ParseMany(VertexParser(l), b, q, n)
  {
    VertexFacts(l);
    ManyFramed(VertexParser(l), b, b', q, n);
  }
}

/** Writing a model back to bytes, in the layout the decoder reads, and the
    round trip: decoding an encoded model gives the model back. The encoder
    writes 0 as every name terminator, 4 or 0 as texdata_count, 1 or 0 as the
    tangent and bone flags, and u32 indices. */
module SgmEncoder {
  import opened Bytes
  import opened Results
  import opened Reader
  import opened Utf8
  import opened MaterialDecoder
  import opened VertexDecoder
  import opened MeshDecoder
  import opened SgmDecoder

  /** A count as the one byte the file holds it in. */
  function CountByte(n: nat): uint8 {
    n % 0x100
  }

  lemma CountByteValue(n: nat)
    requires n < 0x100
    ensures CountByte(n) == n
  {
  }

  // Materials

  function EncodeTextureRef(t: TextureRef): seq<uint8> {
    [t.usageHint] + ToLittleEndian(|t.name| + 1, 2) + t.name + [0]
  }

  function EncodeChannel(ts: seq<TextureRef>): seq<uint8> {
    [CountByte(|ts|)] + ConcatMap(EncodeTextureRef, ts)
  }

  function EncodeColor(c: ColorEntry): seq<uint8> {
    [c.colorId] + Flatten(c.rgba)
  }

  function EncodeMaterial(m: Material): seq<uint8> {
    [m.materialId] + [CountByte(|m.uvData|)] + ConcatMap(EncodeChannel, m.uvData)
    + [CountByte(|m.colors|)] + ConcatMap(EncodeColor, m.colors)
  }

  /** A texture reference the file format can hold: the length prefix fits
      in a u16 and the name is valid UTF-8. */
  predicate TextureRefOk(t: TextureRef) {
    |t.name| + 1 < 0x1_0000 && ValidUtf8(t.name)
  }

  predicate ChannelOk(ts: seq<TextureRef>) {
    |ts| < 0x100 && forall t :: t in ts ==> TextureRefOk(t)
  }

  /** Every channel fits, and so does their count. */
  predicate ChannelsOk(uvData: seq<seq<TextureRef>>) {
    |uvData| < 0x100 && forall ts :: ts in uvData ==> ChannelOk(ts)
  }

  /** Every colour holds four components, and the count fits. */
  predicate ColorsOk(colors: seq<ColorEntry>) {
    |colors| < 0x100 && forall c :: c in colors ==> |c.rgba| == 4
  }

  predicate MaterialOk(m: Material) {
    ChannelsOk(m.uvData) && ColorsOk(m.colors)
  }

  lemma TextureRefRoundTrip(t: TextureRef, b: seq<uint8>, q: nat)
    requires TextureRefOk(t) && At(b, q, EncodeTextureRef(t))
    ensures ParseTextureRef(b, q) == Ok(Parsed(t, q + |EncodeTextureRef(t)|))
  {
    var e := EncodeTextureRef(t);
    var n := |t.name|;
    assert e[0] == t.usageHint;
    assert e[1 .. 3] == ToLittleEndian(n + 1, 2);
    assert e[3 .. 3 + n] == t.name;
    AtSlice(b, q, e, 1, 3);
    AtSlice(b, q, e, 3, 3 + n);
    assert Pow256(2) == 0x1_0000;
    LittleEndianRoundTrip(n + 1, 2);
    assert NameLength(b, q) == n + 1;
    assert TextureRefAt(b, q, t, q + |e|);
    TextureRefLayout(b, q);
  }

  lemma TextureRefsDecode(ts: seq<TextureRef>)
    requires forall t :: t in ts ==> TextureRefOk(t)
    ensures Decodes(ParseTextureRef, EncodeTextureRef, ts)
  {
    var p: Parser<TextureRef> := ParseTextureRef;
    var enc: TextureRef -> seq<uint8> := EncodeTextureRef;
    forall x: TextureRef, b: seq<uint8>, q: nat {:trigger At(b, q, enc(x))} | x in ts && At(b, q, enc(x))
      ensures p(b, q) == Ok(Parsed(x, q + |enc(x)|))
    {
      assert enc(x) == EncodeTextureRef(x);
      TextureRefRoundTrip(x, b, q);
      assert p(b, q) == ParseTextureRef(b, q);
      assert Parsed(x, q + |EncodeTextureRef(x)|) == Parsed(x, q + |enc(x)|);
    }
    assert Decodes(p, enc, ts);
  }

  lemma ChannelRoundTrip(ts: seq<TextureRef>, b: seq<uint8>, q: nat)
    requires ChannelOk(ts) && At(b, q, EncodeChannel(ts))
    ensures ParseUvChannel(b, q) == Ok(Parsed(ts, q + |EncodeChannel(ts)|))
  {
    ChannelBytes(ts, b, q);
    TextureRefsDecode(ts);
    CountedRoundTrip(ParseTextureRef, EncodeTextureRef, ts, b, q, q + |EncodeChannel(ts)|);
  }

  /** The image count byte of an encoded channel, then its texture references. */
  lemma ChannelBytes(ts: seq<TextureRef>, b: seq<uint8>, q: nat)
    requires |ts| < 0x100 && At(b, q, EncodeChannel(ts))
    ensures q < |b| && b[q] == |ts| && At(b, q + 1, ConcatMap(EncodeTextureRef, ts))
    ensures |EncodeChannel(ts)| == 1 + |ConcatMap(EncodeTextureRef, ts)|
  {
    AtConcat(b, q, [CountByte(|ts|)], ConcatMap(EncodeTextureRef, ts));
    CountByteValue(|ts|);
  }

  lemma ChannelsDecode(uvData: seq<seq<TextureRef>>)
    requires ChannelsOk(uvData)
    ensures Decodes(ParseUvChannel, EncodeChannel, uvData)
  {
    var p: Parser<seq<TextureRef>> := ParseUvChannel;
    var enc: seq<TextureRef> -> seq<uint8> := EncodeChannel;
    forall x: seq<TextureRef>, b: seq<uint8>, q: nat {:trigger At(b, q, enc(x))} | x in uvData && At(b, q, enc(x))
      ensures p(b, q) == Ok(Parsed(x, q + |enc(x)|))
    {
      assert enc(x) == EncodeChannel(x);
      ChannelRoundTrip(x, b, q);
      assert p(b, q) == ParseUvChannel(b, q);
      assert Parsed(x, q + |EncodeChannel(x)|) == Parsed(x, q + |enc(x)|);
    }
    assert Decodes(p, enc, uvData);
  }

  lemma ColorRoundTrip(c: ColorEntry, b: seq<uint8>, q: nat)
    requires |c.rgba| == 4 && At(b, q, EncodeColor(c))
    ensures ParseColor(b, q) == Ok(Parsed(c, q + |EncodeColor(c)|))
  {
    var e := EncodeColor(c);
    AtSlice(b, q, e, 1, 17);
    assert e[1 .. 17] == Flatten(c.rgba);
    WordsFlatten(c.rgba);
    ColorLayout(b, q);
  }

  lemma ColorsDecode(colors: seq<ColorEntry>)
    requires ColorsOk(colors)
    ensures Decodes(ParseColor, EncodeColor, colors)
  {
    var p: Parser<ColorEntry> := ParseColor;
    var enc: ColorEntry -> seq<uint8> := EncodeColor;
    forall x: ColorEntry, b: seq<uint8>, q: nat {:trigger At(b, q, enc(x))} | x in colors && At(b, q, enc(x))
      ensures p(b, q) == Ok(Parsed(x, q + |enc(x)|))
    {
      assert enc(x) == EncodeColor(x);
      ColorRoundTrip(x, b, q);
      assert p(b, q) == ParseColor(b, q);
      assert Parsed(x, q + |EncodeColor(x)|) == Parsed(x, q + |enc(x)|);
    }
    assert Decodes(p, enc, colors);
  }

  /** The parts of an encoded material, laid out from q: the uv_data count
      at q + 1, the colour count at c, the material ending at e. */
  ghost predicate MaterialLaidOut(m: Material, b: seq<uint8>, q: nat, c: nat, e: nat) {
    && q + 1 < |b| && b[q] == m.materialId && b[q + 1] == |m.uvData|
    && At(b, q + 1 + 1, ConcatMap(EncodeChannel, m.uvData))
    && c == q + 1 + 1 + |ConcatMap(EncodeChannel, m.uvData)|
    && c < |b| && b[c] == |m.colors|
    && At(b, c + 1, ConcatMap(EncodeColor, m.colors))
    && e == c + 1 + |ConcatMap(EncodeColor, m.colors)|
  }

  lemma MaterialBytes(m: Material, b: seq<uint8>, q: nat) returns (c: nat, e: nat)
    requires |m.uvData| < 0x100 && |m.colors| < 0x100 && At(b, q, EncodeMaterial(m))
    ensures MaterialLaidOut(m, b, q, c, e) && e == q + |EncodeMaterial(m)|
  {
    var channels := ConcatMap(EncodeChannel, m.uvData);
    var colors := ConcatMap(EncodeColor, m.colors);
    c := q + 2 + |channels|;
    e := c + 1 + |colors|;
    MaterialFields(b, q, m.materialId, CountByte(|m.uvData|), channels, CountByte(|m.colors|), colors);
    CountByteValue(|m.uvData|);
    CountByteValue(|m.colors|);
  }

  /** Where the fields of a material's encoding land in the buffer. */
  lemma MaterialFields(b: seq<uint8>, q: nat, id: uint8, m: uint8, xs: seq<uint8>, n: uint8, ys: seq<uint8>)
    requires At(b, q, [id] + [m] + xs + [n] + ys)
    ensures q + 1 < |b| && b[q] == id && b[q + 1] == m && At(b, q + 2, xs)
    ensures q + 2 + |xs| < |b| && b[q + 2 + |xs|] == n && At(b, q + 2 + |xs| + 1, ys)
  {
    var head := [id] + [m];
    AtConcat(b, q, head + xs + [n], ys);
    AtConcat(b, q, head + xs, [n]);
    AtConcat(b, q, head, xs);
    AtConcat(b, q, [id], [m]);
  }

  /** The uv_data list at p decodes, ending at c. */
  lemma UvDataRoundTrip(uv: seq<seq<TextureRef>>, b: seq<uint8>, p: nat, c: nat)
    requires ChannelsOk(uv)
    requires p < |b| && b[p] == |uv| && At(b, p + 1, ConcatMap(EncodeChannel, uv))
    requires c == p + 1 + |ConcatMap(EncodeChannel, uv)|
    ensures ParseCounted(ParseUvChannel, b, p) == Ok(Parsed(uv, c))
  {
    ChannelsDecode(uv);
    CountedRoundTrip(ParseUvChannel, EncodeChannel, uv, b, p, c);
  }

  /** The colour list at c decodes, ending at e. */
  lemma ColorsRoundTrip(colors: seq<ColorEntry>, b: seq<uint8>, c: nat, e: nat)
    requires ColorsOk(colors)
    requires c < |b| && b[c] == |colors| && At(b, c + 1, ConcatMap(EncodeColor, colors))
    requires e == c + 1 + |ConcatMap(EncodeColor, colors)|
    ensures ParseCounted(ParseColor, b, c) == Ok(Parsed(colors, e))
  {
    ColorsDecode(colors);
    CountedRoundTrip(ParseColor, EncodeColor, colors, b, c, e);
  }

  lemma MaterialFromParts(m: Material, b: seq<uint8>, q: nat, c: nat, e: nat)
    requires MaterialOk(m) && MaterialLaidOut(m, b, q, c, e)
    ensures ParseMaterial(b, q) == Ok(Parsed(m, e))
  {
    UvDataRoundTrip(m.uvData, b, q + 1, c);
    ColorsRoundTrip(m.colors, b, c, e);
    MaterialCompose(b, q, m, c, e);
  }

  /** A material the format can hold decodes from its encoding, wherever
      that encoding sits in the buffer. */
  lemma MaterialRoundTrip(m: Material, b: seq<uint8>, q: nat)
    requires MaterialOk(m) && At(b, q, EncodeMaterial(m))
    ensures ParseMaterial(b, q) == Ok(Parsed(m, q + |EncodeMaterial(m)|))
  {
    var c, e := MaterialBytes(m, b, q);
    MaterialFromParts(m, b, q, c, e);
    assert Parsed(m, e) == Parsed(m, q + |EncodeMaterial(m)|);
  }

  // Vertices

  /** The floats of an attribute that is present, nothing for one that is absent. */
  function FloatBytes(o: Option<seq<F32>>): seq<uint8> {
    if o.Some? then Flatten(o.value) else []
  }

  function EncodeOptionals(a: OptionalAttributes): seq<uint8> {
    FloatBytes(a.color) + FloatBytes(a.tangents) + FloatBytes(a.weights)
    + (if a.boneIndices.Some? then Uint32Bytes(a.boneIndices.value) else [])
  }

  function OptionalsOf(v: Vertex): OptionalAttributes {
    OptionalAttributes(v.color, v.tangents, v.weights, v.boneIndices)
  }

  /** One UV pair: its two float words. */
  function EncodeUv(uv: seq<F32>): seq<uint8> {
    Flatten(uv)
  }

  function EncodeVertex(v: Vertex): seq<uint8> {
    Flatten(v.position) + Flatten(v.normal) + ConcatMap(EncodeUv, v.uvs) + EncodeOptionals(OptionalsOf(v))
  }

  /** The optional attributes of a conforming vertex come back from their bytes. */
  lemma OptionalsRoundTrip(l: VertexLayout, v: Vertex, b: seq<uint8>, p: nat)
    requires Conforms(v, l) && At(b, p, EncodeOptionals(OptionalsOf(v)))
    ensures |EncodeOptionals(OptionalsOf(v))| == OptionalSize(l)
    ensures OptionalsAt(l, b, p) == OptionalsOf(v)
  {
    var c := FloatBytes(v.color);
    var t := FloatBytes(v.tangents);
    var w := FloatBytes(v.weights);
    var x := if v.boneIndices.Some? then Uint32Bytes(v.boneIndices.value) else [];
    AtConcat(b, p, c + t + w, x);
    AtConcat(b, p, c + t, w);
    AtConcat(b, p, c, t);
    if v.color.Some? {
      WordsFlatten(v.color.value);
    }
    if v.tangents.Some? {
      WordsFlatten(v.tangents.value);
    }
    if v.weights.Some? {
      WordsFlatten(v.weights.value);
    }
    if v.boneIndices.Some? {
      Uint32sRoundTrip(v.boneIndices.value);
    }
  }

  /** The UV pairs of a conforming vertex come back from their bytes. */
  lemma UvsRoundTrip(l: VertexLayout, v: Vertex, b: seq<uint8>, q: nat)
    requires Conforms(v, l) && q + Stride(l) <= |b|
    requires At(b, q + 24, ConcatMap(EncodeUv, v.uvs))
    ensures VertexAt(l, b, q).uvs == v.uvs
  {
    var uvs := VertexAt(l, b, q).uvs;
    assert forall uv :: uv in v.uvs ==> |EncodeUv(uv)| == 8;
    forall i | 0 <= i < |v.uvs|
      ensures uvs[i] == v.uvs[i]
    {
      ConcatMapAt(EncodeUv, v.uvs, 8, i, b, q + 24);
      assert b[q + 24 + 8 * i .. q + 32 + 8 * i] == Flatten(v.uvs[i]);
      WordsFlatten(v.uvs[i]);
    }
  }

  /** Where the parts of an encoded vertex sit. */
  lemma VertexBytes(l: VertexLayout, v: Vertex, b: seq<uint8>, q: nat)
    requires Conforms(v, l) && At(b, q, EncodeVertex(v))
    ensures |EncodeVertex(v)| == Stride(l) && q + Stride(l) <= |b|
    ensures At(b, q, Flatten(v.position)) && At(b, q + 12, Flatten(v.normal))
    ensures At(b, q + 24, ConcatMap(EncodeUv, v.uvs))
    ensures At(b, q + ColorOffset(l), EncodeOptionals(OptionalsOf(v)))
  {
    var uvs := ConcatMap(EncodeUv, v.uvs);
    var head := Flatten(v.position) + Flatten(v.normal);
    AtConcat(b, q, head + uvs, EncodeOptionals(OptionalsOf(v)));
    AtConcat(b, q, head, uvs);
    AtConcat(b, q, Flatten(v.position), Flatten(v.normal));
    assert |uvs| == 8 * l.uvCount by {
      assert forall uv :: uv in v.uvs ==> |EncodeUv(uv)| == 8;
      ConcatMapLength(EncodeUv, v.uvs, 8);
    }
    OptionalsRoundTrip(l, v, b, q + ColorOffset(l));
  }

  /** The Stride(l) bytes at q describe v. */
  lemma VertexAtRoundTrip(l: VertexLayout, v: Vertex, b: seq<uint8>, q: nat)
    requires Conforms(v, l) && q + Stride(l) <= |b|
    requires At(b, q, Flatten(v.position)) && At(b, q + 12, Flatten(v.normal))
    requires At(b, q + 24, ConcatMap(EncodeUv, v.uvs))
    requires At(b, q + ColorOffset(l), EncodeOptionals(OptionalsOf(v)))
    ensures VertexAt(l, b, q) == v
  {
    WordsFlatten(v.position);
    WordsFlatten(v.normal);
    UvsRoundTrip(l, v, b, q);
    OptionalsRoundTrip(l, v, b, q + ColorOffset(l));
  }

  /** A conforming vertex decodes from its encoding, which is Stride(l) bytes long. */
  lemma VertexRoundTrip(l: VertexLayout, v: Vertex, b: seq<uint8>, q: nat)
    requires Conforms(v, l) && At(b, q, EncodeVertex(v))
    ensures ParseVertex(l, b, q) == Ok(Parsed(v, q + |EncodeVertex(v)|))
  {
    VertexBytes(l, v, b, q);
    VertexAtRoundTrip(l, v, b, q);
  }

  // Meshes

  /** The layout the encoder declares for a mesh: that of its first vertex,
      or no optional attributes and no UV channels when it has none. */
  function LayoutFor(m: Mesh): VertexLayout {
    if |m.vertices| == 0 then VertexLayout(0, false, false, false)
    else
      var v := m.vertices[0];
      VertexLayout(CountByte(|v.uvs|), v.color.Some?, v.tangents.Some?, v.boneIndices.Some?)
  }

  /** uv_count, texdata_count, has_tangents and has_bones for layout l. */
  function LayoutBytes(l: VertexLayout): (r: seq<uint8>)
    ensures |r| == 4
  {
    [l.uvCount, if l.hasColor then 4 else 0, if l.hasTangents then 1 else 0, if l.hasBones then 1 else 0]
  }

  /** One index element as a u32. */
  function EncodeIndex(x: nat): seq<uint8> {
    ToLittleEndian(x, 4)
  }

  /** Index count, index width 4, then the elements. */
  function EncodeIndices(xs: seq<nat>): seq<uint8> {
    ToLittleEndian(|xs|, 4) + [4] + ConcatMap(EncodeIndex, xs)
  }

  /** The ten header bytes: ids, u32 vertex count, layout flags. */
  function EncodeMeshHeader(m: Mesh): (r: seq<uint8>)
    ensures |r| == 10
  {
    [m.id, m.materialId] + ToLittleEndian(|m.vertices|, 4) + LayoutBytes(LayoutFor(m))
  }

  function EncodeMesh(m: Mesh): seq<uint8> {
    EncodeMeshHeader(m) + ConcatMap(EncodeVertex, m.vertices) + EncodeIndices(m.indices)
  }

  /** Indices a u32 index list can hold. */
  predicate IndicesOk(xs: seq<nat>) {
    |xs| < 0x1_0000_0000 && forall i :: 0 <= i < |xs| ==> xs[i] < 0x1_0000_0000
  }

  /** A mesh the file format can hold: its vertex count fits in a u32 and
      every vertex has the attributes of the first. */
  predicate MeshOk(m: Mesh) {
    && |m.vertices| < 0x1_0000_0000
    && (forall i :: 0 <= i < |m.vertices| ==> Conforms(m.vertices[i], LayoutFor(m)))
    && IndicesOk(m.indices)
  }

  lemma IndexRoundTrip(x: nat, b: seq<uint8>, q: nat)
    requires x < 0x1_0000_0000 && At(b, q, EncodeIndex(x))
    ensures IndexParser(Corrected, 4)(b, q) == Ok(Parsed(x, q + |EncodeIndex(x)|))
  {
    IndexLayout(4, b, q);
    assert Pow256(4) == 0x1_0000_0000;
    LittleEndianRoundTrip(x, 4);
  }

  lemma IndicesDecode(xs: seq<nat>)
    requires IndicesOk(xs)
    ensures Decodes(IndexParser(Corrected, 4), EncodeIndex, xs)
  {
    var p: Parser<nat> := IndexParser(Corrected, 4);
    var enc: nat -> seq<uint8> := EncodeIndex;
    forall x: nat, b: seq<uint8>, q: nat {:trigger At(b, q, enc(x))} | x in xs && At(b, q, enc(x))
      ensures p(b, q) == Ok(Parsed(x, q + |enc(x)|))
    {
      assert enc(x) == EncodeIndex(x);
      IndexRoundTrip(x, b, q);
      assert p(b, q) == IndexParser(Corrected, 4)(b, q);
      assert Parsed(x, q + |EncodeIndex(x)|) == Parsed(x, q + |enc(x)|);
    }
    assert Decodes(p, enc, xs);
  }

  /** An encoded index list decodes to itself. */
  lemma IndicesRoundTrip(xs: seq<nat>, b: seq<uint8>, q: nat)
    requires IndicesOk(xs) && At(b, q, EncodeIndices(xs))
    ensures ParseIndices(Corrected, b, q) == Ok(Parsed(xs, q + |EncodeIndices(xs)|))
    ensures ParseIndices(AsWritten, b, q) == Ok(Parsed(xs, q + |EncodeIndices(xs)|))
  {
    var count := ToLittleEndian(|xs|, 4);
    AtConcat(b, q, count + [4], ConcatMap(EncodeIndex, xs));
    AtConcat(b, q, count, [4]);
    assert LittleEndian(b[q .. q + 4]) == |xs| by {
      assert Pow256(4) == 0x1_0000_0000;
      LittleEndianRoundTrip(|xs|, 4);
    }
    assert b[q + 4] == 4;
    IndicesParts(Corrected, b, q);
    IndicesDecode(xs);
    ManyRoundTrip(IndexParser(Corrected, 4), EncodeIndex, xs, b, q + 5);
    IndicesReadingsAgree(b, q);
  }

  lemma VerticesDecode(l: VertexLayout, vs: seq<Vertex>)
    requires forall i :: 0 <= i < |vs| ==> Conforms(vs[i], l)
    ensures Decodes(VertexParser(l), EncodeVertex, vs)
  {
    var p: Parser<Vertex> := VertexParser(l);
    var enc: Vertex -> seq<uint8> := EncodeVertex;
    forall x: Vertex, b: seq<uint8>, q: nat {:trigger At(b, q, enc(x))} | x in vs && At(b, q, enc(x))
      ensures p(b, q) == Ok(Parsed(x, q + |enc(x)|))
    {
      assert enc(x) == EncodeVertex(x);
      VertexRoundTrip(l, x, b, q);
      assert p(b, q) == ParseVertex(l, b, q);
      assert Parsed(x, q + |EncodeVertex(x)|) == Parsed(x, q + |enc(x)|);
    }
    assert Decodes(p, enc, vs);
  }

  /** The flag bytes the encoder writes read back as the layout they encode. */
  lemma LayoutBytesRoundTrip(l: VertexLayout)
    ensures var f := LayoutBytes(l); LayoutOf(f[0], f[1], f[2], f[3]) == l
  {
  }

  /** Where the fields of a ten-byte mesh header land in the buffer. */
  lemma HeaderFields(b: seq<uint8>, q: nat, id: uint8, materialId: uint8, count: seq<uint8>, flags: seq<uint8>)
    requires |count| == 4 && |flags| == 4 && At(b, q, [id, materialId] + count + flags)
    ensures q + 10 <= |b| && b[q] == id && b[q + 1] == materialId && b[q + 2 .. q + 6] == count
    ensures b[q + 6] == flags[0] && b[q + 7] == flags[1] && b[q + 8] == flags[2] && b[q + 9] == flags[3]
  {
    AtConcat(b, q, [id, materialId] + count, flags);
    AtConcat(b, q, [id, materialId], count);
  }

  /** The header of an encoded mesh, as HeaderAt reads it. */
  lemma HeaderRoundTrip(m: Mesh, b: seq<uint8>, q: nat)
    requires |m.vertices| < 0x1_0000_0000
    requires At(b, q, EncodeMeshHeader(m))
    ensures q + 10 <= |b| && b[q] == m.id && b[q + 1] == m.materialId
    ensures HeaderAt(b, q) == MeshHeader(m.id, m.materialId, |m.vertices|, LayoutFor(m))
  {
    var l := LayoutFor(m);
    var count := ToLittleEndian(|m.vertices|, 4);
    HeaderFields(b, q, m.id, m.materialId, count, LayoutBytes(l));
    assert Pow256(4) == 0x1_0000_0000;
    LittleEndianRoundTrip(|m.vertices|, 4);
    LayoutBytesRoundTrip(l);
  }

  /** The three parts of an encoded mesh: v is where its indices start,
      e where it ends. */
  ghost predicate MeshLaidOut(m: Mesh, b: seq<uint8>, q: nat, v: nat, e: nat) {
    && q + 10 <= |b|
    && b[q] == m.id && b[q + 1] == m.materialId
    && HeaderAt(b, q) == MeshHeader(m.id, m.materialId, |m.vertices|, LayoutFor(m))
    && At(b, q + 10, ConcatMap(EncodeVertex, m.vertices))
    && v == q + 10 + |ConcatMap(EncodeVertex, m.vertices)|
    && At(b, v, EncodeIndices(m.indices))
    && e == v + |EncodeIndices(m.indices)|
  }

  lemma MeshBytes(m: Mesh, b: seq<uint8>, q: nat) returns (v: nat, e: nat)
    requires |m.vertices| < 0x1_0000_0000 && At(b, q, EncodeMesh(m))
    ensures MeshLaidOut(m, b, q, v, e) && e == q + |EncodeMesh(m)|
  {
    MeshBodyBytes(m, b, q);
    HeaderRoundTrip(m, b, q);
    v := q + 10 + |ConcatMap(EncodeVertex, m.vertices)|;
    e := v + |EncodeIndices(m.indices)|;
  }

  /** The header, the vertices and the index list of an encoded mesh. */
  lemma MeshBodyBytes(m: Mesh, b: seq<uint8>, q: nat)
    requires At(b, q, EncodeMesh(m))
    ensures At(b, q, EncodeMeshHeader(m))
    ensures At(b, q + 10, ConcatMap(EncodeVertex, m.vertices))
    ensures At(b, q + 10 + |ConcatMap(EncodeVertex, m.vertices)|, EncodeIndices(m.indices))
    ensures |EncodeMesh(m)| == 10 + |ConcatMap(EncodeVertex, m.vertices)| + |EncodeIndices(m.indices)|
  {
    MeshFields(b, q, EncodeMeshHeader(m), ConcatMap(EncodeVertex, m.vertices), EncodeIndices(m.indices));
  }

  /** Where the three parts of a mesh's encoding land in the buffer. */
  lemma MeshFields(b: seq<uint8>, q: nat, head: seq<uint8>, xs: seq<uint8>, ys: seq<uint8>)
    requires At(b, q, head + xs + ys)
    ensures At(b, q, head) && At(b, q + |head|, xs) && At(b, q + |head| + |xs|, ys)
  {
    AtConcat(b, q, head + xs, ys);
    AtConcat(b, q, head, xs);
  }

  lemma VerticesRoundTrip(m: Mesh, b: seq<uint8>, q: nat, v: nat, e: nat)
    requires MeshOk(m) && MeshLaidOut(m, b, q, v, e)
    ensures ParseMany(VertexParser(HeaderAt(b, q).layout), b, q + 10, HeaderAt(b, q).vertexCount) == Ok(Parsed(m.vertices, v))
  {
    VerticesDecode(LayoutFor(m), m.vertices);
    ManyRoundTrip(VertexParser(LayoutFor(m)), EncodeVertex, m.vertices, b, q + 10);
  }

  lemma IndicesAt(m: Mesh, b: seq<uint8>, q: nat, v: nat, e: nat)
    requires MeshOk(m) && MeshLaidOut(m, b, q, v, e)
    ensures ParseIndices(Corrected, b, v) == Ok(Parsed(m.indices, e))
  {
    var xs := m.indices;
    assert IndicesOk(xs) && At(b, v, EncodeIndices(xs)) && e == v + |EncodeIndices(xs)|;
    IndicesRoundTrip(xs, b, v);
  }

  lemma MeshFromParts(m: Mesh, b: seq<uint8>, q: nat, v: nat, e: nat)
    requires MeshOk(m) && MeshLaidOut(m, b, q, v, e)
    ensures ParseMesh(Corrected, b, q) == Ok(Parsed(m, e))
  {
    VerticesRoundTrip(m, b, q, v, e);
    IndicesAt(m, b, q, v, e);
    assert Mesh(b[q], b[q + 1], m.vertices, m.indices) == m;
    MeshCompose(Corrected, b, q, m.vertices, v, m.indices, e);
  }

  /** A mesh the format can hold decodes from its encoding. */
  lemma MeshRoundTrip(m: Mesh, b: seq<uint8>, q: nat)
    requires MeshOk(m) && At(b, q, EncodeMesh(m))
    ensures ParseMesh(Corrected, b, q) == Ok(Parsed(m, q + |EncodeMesh(m)|))
    ensures ParseMesh(AsWritten, b, q) == Ok(Parsed(m, q + |EncodeMesh(m)|))
  {
    var v, e := MeshBytes(m, b, q);
    MeshFromParts(m, b, q, v, e);
    assert Parsed(m, e) == Parsed(m, q + |EncodeMesh(m)|);
    MeshReadingsAgree(b, q);
  }

  // The file

  /** Magic, version, the material table and the mesh table. */
  function EncodeModel(model: Model, version: uint8): seq<uint8> {
    MagicBytes + [version]
    + [CountByte(|model.materials|)] + ConcatMap(EncodeMaterial, model.materials)
    + [CountByte(|model.meshes|)] + ConcatMap(EncodeMesh, model.meshes)
  }

  /** A model the file format can hold: both tables fit their count byte
      and every entry can be written. */
  predicate ModelOk(model: Model) {
    && |model.materials| < 0x100
    && (forall i :: 0 <= i < |model.materials| ==> MaterialOk(model.materials[i]))
    && |model.meshes| < 0x100
    && (forall i :: 0 <= i < |model.meshes| ==> MeshOk(model.meshes[i]))
  }

  lemma MaterialsDecode(ms: seq<Material>)
    requires forall i :: 0 <= i < |ms| ==> MaterialOk(ms[i])
    ensures Decodes(ParseMaterial, EncodeMaterial, ms)
  {
    var p: Parser<Material> := ParseMaterial;
    var enc: Material -> seq<uint8> := EncodeMaterial;
    forall x: Material, b: seq<uint8>, q: nat {:trigger At(b, q, enc(x))} | x in ms && At(b, q, enc(x))
      ensures p(b, q) == Ok(Parsed(x, q + |enc(x)|))
    {
      assert enc(x) == EncodeMaterial(x);
      MaterialRoundTrip(x, b, q);
      assert p(b, q) == ParseMaterial(b, q);
      assert Parsed(x, q + |EncodeMaterial(x)|) == Parsed(x, q + |enc(x)|);
    }
    assert Decodes(p, enc, ms);
  }

  lemma MeshesDecode(ms: seq<Mesh>)
    requires forall i :: 0 <= i < |ms| ==> MeshOk(ms[i])
    ensures Decodes(MeshParser(Corrected), EncodeMesh, ms)
  {
    var p: Parser<Mesh> := MeshParser(Corrected);
    var enc: Mesh -> seq<uint8> := EncodeMesh;
    forall x: Mesh, b: seq<uint8>, q: nat {:trigger At(b, q, enc(x))} | x in ms && At(b, q, enc(x))
      ensures p(b, q) == Ok(Parsed(x, q + |enc(x)|))
    {
      assert enc(x) == EncodeMesh(x);
      MeshRoundTrip(x, b, q);
      assert p(b, q) == ParseMesh(Corrected, b, q);
      assert Parsed(x, q + |EncodeMesh(x)|) == Parsed(x, q + |enc(x)|);
    }
    assert Decodes(p, enc, ms);
  }

  /** The two tables of an encoded model: the material count at 5, the mesh
      count at c, the end of the file at e. */
  ghost predicate ModelLaidOut(model: Model, b: seq<uint8>, c: nat, e: nat) {
    && 5 < |b| && b[5] == |model.materials|
    && At(b, 6, ConcatMap(EncodeMaterial, model.materials))
    && c == 6 + |ConcatMap(EncodeMaterial, model.materials)|
    && c < |b| && b[c] == |model.meshes|
    && At(b, c + 1, ConcatMap(EncodeMesh, model.meshes))
    && e == c + 1 + |ConcatMap(EncodeMesh, model.meshes)|
  }

  /** Where the fields of a file laid out as magic, version, a count, the
      bytes xs, a count and the bytes ys sit. */
  lemma FileParts(b: seq<uint8>, version: uint8, m: uint8, xs: seq<uint8>, n: uint8, ys: seq<uint8>)
    requires At(b, 0, MagicBytes + [version] + [m] + xs + [n] + ys)
    ensures |b| >= 5 && b[..4] == MagicBytes
    ensures 5 < |b| && b[5] == m && At(b, 6, xs)
    ensures 6 + |xs| < |b| && b[6 + |xs|] == n && At(b, 6 + |xs| + 1, ys)
  {
    var head := MagicBytes + [version] + [m];
    AtConcat(b, 0, head + xs + [n], ys);
    AtConcat(b, 0, head + xs, [n]);
    AtConcat(b, 0, head, xs);
    AtConcat(b, 0, MagicBytes + [version], [m]);
    AtConcat(b, 0, MagicBytes, [version]);
  }

  lemma ModelBytes(model: Model, version: uint8, b: seq<uint8>) returns (c: nat, e: nat)
    requires ModelOk(model) && At(b, 0, EncodeModel(model, version))
    ensures |b| >= 5 && LittleEndian(b[..4]) == Magic
    ensures ModelLaidOut(model, b, c, e) && e == |EncodeModel(model, version)|
  {
    var materials := ConcatMap(EncodeMaterial, model.materials);
    var meshes := ConcatMap(EncodeMesh, model.meshes);
    FileParts(b, version, CountByte(|model.materials|), materials, CountByte(|model.meshes|), meshes);
    CountByteValue(|model.materials|);
    CountByteValue(|model.meshes|);
    MagicValue();
    c := 6 + |materials|;
    e := c + 1 + |meshes|;
  }

  /** The material table at 5 decodes, ending at c. */
  lemma MaterialTable(ms: seq<Material>, b: seq<uint8>, c: nat)
    requires |ms| < 0x100 && forall i :: 0 <= i < |ms| ==> MaterialOk(ms[i])
    requires 5 < |b| && b[5] == |ms| && At(b, 6, ConcatMap(EncodeMaterial, ms))
    requires c == 6 + |ConcatMap(EncodeMaterial, ms)|
    ensures ParseCounted(ParseMaterial, b, 5) == Ok(Parsed(ms, c))
  {
    MaterialsDecode(ms);
    CountedRoundTrip(ParseMaterial, EncodeMaterial, ms, b, 5, c);
  }

  /** The mesh table at c decodes, ending at e. */
  lemma MeshTable(ms: seq<Mesh>, b: seq<uint8>, c: nat, e: nat)
    requires |ms| < 0x100 && forall i :: 0 <= i < |ms| ==> MeshOk(ms[i])
    requires c < |b| && b[c] == |ms| && At(b, c + 1, ConcatMap(EncodeMesh, ms))
    requires e == c + 1 + |ConcatMap(EncodeMesh, ms)|
    ensures ParseCounted(MeshParser(Corrected), b, c) == Ok(Parsed(ms, e))
  {
    MeshesDecode(ms);
    CountedRoundTrip(MeshParser(Corrected), EncodeMesh, ms, b, c, e);
  }

  lemma BodyRoundTrip(model: Model, b: seq<uint8>, c: nat, e: nat)
    requires ModelOk(model) && ModelLaidOut(model, b, c, e)
    ensures ParseBody(Corrected, b, 5) == Ok(Parsed(model, e))
  {
    MaterialTable(model.materials, b, c);
    MeshTable(model.meshes, b, c, e);
    assert Model(model.meshes, model.materials) == model;
  }

  /** An encoded model decodes to itself whatever its version byte and
      whatever follows it, and the decoder stops at its last byte. The
      decoder as written decodes it too. */
  lemma EncodeRoundTrip(model: Model, version: uint8, extra: seq<uint8>)
    requires ModelOk(model)
    ensures DecodeWith(Corrected, EncodeModel(model, version) + extra) ==
              Ok(Parsed(model, |EncodeModel(model, version)|))
    ensures Decode(EncodeModel(model, version) + extra) == Ok(model)
    ensures DecodeAsWritten(EncodeModel(model, version) + extra) == Ok(model)
  {
    var f := EncodeModel(model, version);
    var b := f + extra;
    assert At(b, 0, f) by {
      assert b[0 .. |f|] == f;
    }
    var c, e := ModelBytes(model, version, b);
    BodyRoundTrip(model, b, c, e);
    DecodeShape(Corrected, b);
    assert Parsed(model, e) == Parsed(model, |f|);
    DecodeReadingsAgree(b);
  }

  // What the decoder returns can be written back

  /** A decoded texture reference has a name that fits the u16 prefix and is
      valid UTF-8. */
  lemma DecodedTextureRefOk()
    ensures Yields(ParseTextureRef, (t: TextureRef) => TextureRefOk(t))
  {
    forall b: seq<uint8>, q: nat | ParseTextureRef(b, q).Ok?
      ensures TextureRefOk(ParseTextureRef(b, q).value.value)
    {
      TextureRefLayout(b, q);
      assert Pow256(2) == 0x1_0000;
    }
  }

  lemma DecodedChannelOk()
    ensures Yields(ParseUvChannel, (ts: seq<TextureRef>) => ChannelOk(ts))
  {
    DecodedTextureRefOk();
    forall b: seq<uint8>, q: nat | ParseUvChannel(b, q).Ok?
      ensures ChannelOk(ParseUvChannel(b, q).value.value)
    {
      CountedYields(ParseTextureRef, (t: TextureRef) => TextureRefOk(t), b, q);
    }
  }

  lemma DecodedColorOk()
    ensures Yields(ParseColor, (c: ColorEntry) => |c.rgba| == 4)
  {
    forall b: seq<uint8>, q: nat | ParseColor(b, q).Ok?
      ensures |ParseColor(b, q).value.value.rgba| == 4
    {
      ColorLayout(b, q);
    }
  }

  lemma DecodedMaterialOk()
    ensures Yields(ParseMaterial, (m: Material) => MaterialOk(m))
  {
    DecodedChannelOk();
    DecodedColorOk();
    forall b: seq<uint8>, q: nat | ParseMaterial(b, q).Ok?
      ensures MaterialOk(ParseMaterial(b, q).value.value)
    {
      var c := MaterialParts(b, q);
      CountedYields(ParseUvChannel, (ts: seq<TextureRef>) => ChannelOk(ts), b, q + 1);
      CountedYields(ParseColor, (c: ColorEntry) => |c.rgba| == 4, b, c);
    }
  }

  /** A decoded mesh has a u32 vertex count, u32 indices, and vertices that
      all follow the layout the encoder would declare for it. */
  lemma DecodedMeshOk(reading: IndexReading, b: seq<uint8>, q: nat)
    requires ParseMesh(reading, b, q).Ok?
    ensures MeshOk(ParseMesh(reading, b, q).value.value)
  {
    var m := ParseMesh(reading, b, q).value.value;
    MeshVertices(reading, b, q);
    MeshIndices(reading, b, q);
    assert Pow256(4) == 0x1_0000_0000;
    MeshOkByLayout(m, HeaderAt(b, q).layout);
  }

  /** Vertices that all follow one layout follow the layout the encoder
      declares, which is read off the first of them. */
  lemma MeshOkByLayout(m: Mesh, l: VertexLayout)
    requires |m.vertices| < 0x1_0000_0000 && IndicesOk(m.indices)
    requires forall i :: 0 <= i < |m.vertices| ==> Conforms(m.vertices[i], l)
    ensures MeshOk(m)
  {
    if |m.vertices| > 0 {
      var v := m.vertices[0];
      assert Conforms(v, l);
      CountByteValue(|v.uvs|);
      assert LayoutFor(m) == l;
    }
  }

  lemma DecodedMeshesOk(reading: IndexReading)
    ensures Yields(MeshParser(reading), (m: Mesh) => MeshOk(m))
  {
    forall b: seq<uint8>, q: nat | MeshParser(reading)(b, q).Ok?
      ensures MeshOk(MeshParser(reading)(b, q).value.value)
    {
      DecodedMeshOk(reading, b, q);
    }
  }

  /** Every model the decoder returns, under either index reading, is one
      the encoder can write. */
  lemma DecodedModelOk(reading: IndexReading, b: seq<uint8>)
    requires DecodeWith(reading, b).Ok?
    ensures ModelOk(DecodeWith(reading, b).value.value)
  {
    DecodeShape(reading, b);
    var c := BodyParts(reading, b, 5);
    DecodedMaterialOk();
    CountedYields(ParseMaterial, (m: Material) => MaterialOk(m), b, 5);
    DecodedMeshesOk(reading);
    CountedYields(MeshParser(reading), (m: Mesh) => MeshOk(m), b, c);
  }

  /** Writing back what the decoder returned, with any version byte, gives a
      file that both decoders read as the same model. */
  lemma ReencodeRoundTrip(reading: IndexReading, b: seq<uint8>, version: uint8)
    requires DecodeWith(reading, b).Ok?
    ensures var m := DecodeWith(reading, b).value.value;
      && Decode(EncodeModel(m, version)) == Ok(m)
      && DecodeAsWritten(EncodeModel(m, version)) == Ok(m)
  {
    var m := DecodeWith(reading, b).value.value;
    DecodedModelOk(reading, b);
    EncodeRoundTrip(m, version, []);
    assert EncodeModel(m, version) + [] == EncodeModel(m, version);
  }
}

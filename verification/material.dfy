/** The material table: per material a UV-channel list of texture references
    and a colour table (io_import_sgm.py lines 22-50). */
module MaterialDecoder {
  import opened Bytes
  import opened Results
  import opened Reader
  import opened Utf8

  /** One `(texname, usage_hint)` pair. The name is kept as its UTF-8 bytes. */
  datatype TextureRef = TextureRef(name: seq<uint8>, usageHint: uint8)

  /** One `(color, color_id)` pair: four float words and their id byte. */
  datatype ColorEntry = ColorEntry(rgba: seq<F32>, colorId: uint8)

  /** The dict built per material: `material_id`, `uv_data`, `colors`. */
  datatype Material = Material(materialId: uint8, uvData: seq<seq<TextureRef>>, colors: seq<ColorEntry>)

  /** The u16 length prefix of the texture reference at q; it counts the
      terminator byte after the name. */
  function NameLength(b: seq<uint8>, q: nat): nat
    requires q + 3 <= |b|
  {
    LittleEndian(b[q + 1 .. q + 3])
  }

  /** Hint byte, u16 length L, L - 1 name bytes (valid UTF-8), one skipped
      terminator byte. */
  function ParseTextureRef(buf: seq<uint8>, pos: nat): (r: Result<Parsed<TextureRef>>)
  {
    var hint :- ReadU8(buf, pos);
    var prefix :- ReadU16(buf, hint.next);
    if prefix.value == 0 then Err(BadNameLength(hint.next))
    else
      var name :- ReadExact(buf, prefix.next, prefix.value - 1);
      if !ValidUtf8(name.value) then Err(InvalidUtf8(prefix.next))
      else
        var end :- Skip(buf, name.next);
        Ok(Parsed(TextureRef(name.value, hint.value), end))
  }

  /** One UV channel: an image count byte, then that many texture references. */
  function ParseUvChannel(buf: seq<uint8>, pos: nat): (r: Result<Parsed<seq<TextureRef>>>)
  {
    ParseCounted(ParseTextureRef, buf, pos)
  }

  /** A colour id byte followed by '<ffff'. */
  function ParseColor(buf: seq<uint8>, pos: nat): (r: Result<Parsed<ColorEntry>>)
  {
    var id :- ReadU8(buf, pos);
    var rgba :- ReadWords(buf, id.next, 4);
    Ok(Parsed(ColorEntry(rgba.value, id.value), rgba.next))
  }

  /** Material id, UV-channel count and channels, colour count and colours. */
  function ParseMaterial(buf: seq<uint8>, pos: nat): (r: Result<Parsed<Material>>)
  {
    var id :- ReadU8(buf, pos);
    var uvData :- ParseCounted(ParseUvChannel, buf, id.next);
    var colors :- ParseCounted(ParseColor, buf, uvData.next);
    Ok(Parsed(Material(id.value, uvData.value, colors.value), colors.next))
  }

  // Record sizes, stated independently of the parsers.

  /** 1 hint byte + 2 length bytes + the name + 1 terminator. */
  function TextureRefSize(t: TextureRef): nat {
    1 + 2 + |t.name| + 1
  }

  function ChannelSize(ts: seq<TextureRef>): nat {
    1 + TotalSize(TextureRefSize, ts)
  }

  function MaterialSize(m: Material): nat {
    1 + 1 + TotalSize(ChannelSize, m.uvData) + 1 + 17 * |m.colors|
  }

  /** A texture reference t, ending just before next, is written at q. */
  ghost predicate TextureRefAt(b: seq<uint8>, q: nat, t: TextureRef, next: nat) {
    && q + 3 <= |b|
    && NameLength(b, q) >= 1
    && next == q + 3 + NameLength(b, q) <= |b|
    && t.usageHint == b[q]
    && t.name == b[q + 3 .. q + 2 + NameLength(b, q)]
    && ValidUtf8(t.name)
  }

  lemma TextureRefLayout(b: seq<uint8>, q: nat)
    ensures ParseTextureRef(b, q).Ok? ==>
              TextureRefAt(b, q, ParseTextureRef(b, q).value.value, ParseTextureRef(b, q).value.next)
    ensures forall t, n :: TextureRefAt(b, q, t, n) ==> ParseTextureRef(b, q) == Ok(Parsed(t, n))
    ensures q + 3 <= |b| && NameLength(b, q) == 0 ==> ParseTextureRef(b, q) == Err(BadNameLength(q + 1))
  {
  }
  lemma TextureRefFacts()
    ensures Advances(ParseTextureRef)
    ensures Consumes(ParseTextureRef, TextureRefSize)
    ensures Framed(ParseTextureRef)
  {
    forall b: seq<uint8>, q: nat | ParseTextureRef(b, q).Ok?
      ensures q < ParseTextureRef(b, q).value.next <= |b|
      ensures ParseTextureRef(b, q).value.next == q + TextureRefSize(ParseTextureRef(b, q).value.value)
    {
      TextureRefLayout(b, q);
    }
    forall b: seq<uint8>, b': seq<uint8>, q: nat |
      ParseTextureRef(b, q).Ok? && Agree(b, b', q, ParseTextureRef(b, q).value.next)
      ensures ParseTextureRef(b', q) == ParseTextureRef(b, q)
    {
      TextureRefLayout(b, q);
      var r := ParseTextureRef(b, q).value;
      assert b'[q + 1 .. q + 3] == b[q + 1 .. q + 3];
      var L := NameLength(b, q);
      assert b'[q + 3 .. q + 2 + L] == b[q + 3 .. q + 2 + L];
      assert TextureRefAt(b', q, r.value, r.next);
      TextureRefLayout(b', q);
    }
  }

  /** A colour entry is a 17-byte record: id byte, then four float words. */
  lemma ColorLayout(b: seq<uint8>, q: nat)
    ensures ParseColor(b, q).Ok? <==> q + 17 <= |b|
    ensures ParseColor(b, q).Ok? ==>
              ParseColor(b, q) == Ok(Parsed(ColorEntry(Words(b[q + 1 .. q + 17]), b[q]), q + 17))
  {
  }

  lemma ColorFacts()
    ensures FixedWidth(ParseColor, 17)
    ensures Advances(ParseColor)
  {
    forall b: seq<uint8>, q: nat
      ensures (ParseColor(b, q).Ok? <==> q + 17 <= |b|)
      ensures ParseColor(b, q).Ok? ==> ParseColor(b, q).value.next == q + 17
    {
      ColorLayout(b, q);
    }
  }

  lemma ColorFraming()
    ensures Framed(ParseColor)
  {
    forall b: seq<uint8>, b': seq<uint8>, q: nat |
      ParseColor(b, q).Ok? && Agree(b, b', q, ParseColor(b, q).value.next)
      ensures ParseColor(b', q) == ParseColor(b, q)
    {
      ReadExactFramed(b, b', q + 1, 16);
    }
  }

  lemma UvChannelFacts()
    ensures Advances(ParseUvChannel)
    ensures Consumes(ParseUvChannel, ChannelSize)
    ensures Framed(ParseUvChannel)
  {
    TextureRefFacts();
    forall b: seq<uint8>, q: nat | ParseUvChannel(b, q).Ok?
      ensures q < ParseUvChannel(b, q).value.next <= |b|
      ensures ParseUvChannel(b, q).value.next == q + ChannelSize(ParseUvChannel(b, q).value.value)
    {
      CountedAdvances(ParseTextureRef, b, q);
      CountedConsumes(ParseTextureRef, TextureRefSize, b, q);
    }
    forall b: seq<uint8>, b': seq<uint8>, q: nat |
      ParseUvChannel(b, q).Ok? && Agree(b, b', q, ParseUvChannel(b, q).value.next)
      ensures ParseUvChannel(b', q) == ParseUvChannel(b, q)
    {
      CountedFramed(ParseTextureRef, b, b', q);
    }
  }

  /** A UV channel holds as many texture references as its image count byte
      says, and takes that byte plus the references' own sizes. */
  lemma UvChannelLayout(b: seq<uint8>, q: nat)
    requires ParseUvChannel(b, q).Ok?
    ensures |ParseUvChannel(b, q).value.value| == b[q]
    ensures ParseUvChannel(b, q).value.next == q + 1 + TotalSize(TextureRefSize, ParseUvChannel(b, q).value.value)
  {
    TextureRefFacts();
    CountedAdvances(ParseTextureRef, b, q);
    CountedConsumes(ParseTextureRef, TextureRefSize, b, q);
  }

  /** ParseMaterial split into its two counted lists; c is where the colour count sits. */
  lemma MaterialParts(b: seq<uint8>, q: nat) returns (c: nat)
    requires ParseMaterial(b, q).Ok?
    ensures q + 1 < c < ParseMaterial(b, q).value.next <= |b|
    ensures ParseCounted(ParseUvChannel, b, q + 1) == Ok(Parsed(ParseMaterial(b, q).value.value.uvData, c))
    ensures ParseCounted(ParseColor, b, c) ==
              Ok(Parsed(ParseMaterial(b, q).value.value.colors, ParseMaterial(b, q).value.next))
    ensures ParseMaterial(b, q).value.value.materialId == b[q]
  {
    c := ParseCounted(ParseUvChannel, b, q + 1).value.next;
    UvChannelFacts();
    CountedAdvances(ParseUvChannel, b, q + 1);
    ColorFacts();
    CountedAdvances(ParseColor, b, c);
  }

  /** ParseMaterial assembled from its two counted lists. */
  lemma MaterialCompose(b: seq<uint8>, q: nat, m: Material, c: nat, e: nat)
    requires q < |b| && b[q] == m.materialId
    requires ParseCounted(ParseUvChannel, b, q + 1) == Ok(Parsed(m.uvData, c))
    requires ParseCounted(ParseColor, b, c) == Ok(Parsed(m.colors, e))
    ensures ParseMaterial(b, q) == Ok(Parsed(m, e))
  {
  }

  /** What a decoded material says about the bytes it came from. */
  lemma MaterialLayout(b: seq<uint8>, q: nat)
    requires ParseMaterial(b, q).Ok?
    ensures var m := ParseMaterial(b, q).value.value;
      && m.materialId == b[q]
      && |m.uvData| == b[q + 1]
      && q + 2 + TotalSize(ChannelSize, m.uvData) < |b|
      && |m.colors| == b[q + 2 + TotalSize(ChannelSize, m.uvData)]
      && ParseMaterial(b, q).value.next == q + MaterialSize(m) <= |b|
  {
    var c := MaterialParts(b, q);
    UvDataLayout(b, q + 1);
    ColorsLayout(b, c);
  }

  /** The uv_data list: as many channels as its count byte says, each of ChannelSize bytes. */
  lemma UvDataLayout(b: seq<uint8>, p: nat)
    requires ParseCounted(ParseUvChannel, b, p).Ok?
    ensures |ParseCounted(ParseUvChannel, b, p).value.value| == b[p]
    ensures ParseCounted(ParseUvChannel, b, p).value.next ==
              p + 1 + TotalSize(ChannelSize, ParseCounted(ParseUvChannel, b, p).value.value)
  {
    UvChannelFacts();
    CountedAdvances(ParseUvChannel, b, p);
    CountedConsumes(ParseUvChannel, ChannelSize, b, p);
  }

  /** The colour list: as many 17-byte entries as its count byte says. */
  lemma ColorsLayout(b: seq<uint8>, c: nat)
    requires ParseCounted(ParseColor, b, c).Ok?
    ensures |ParseCounted(ParseColor, b, c).value.value| == b[c]
    ensures ParseCounted(ParseColor, b, c).value.next == c + 1 + 17 * |ParseCounted(ParseColor, b, c).value.value|
  {
    ColorFacts();
    CountedAdvances(ParseColor, b, c);
    ManyFixedWidth(ParseColor, 17, b, c + 1, b[c]);
  }

  lemma MaterialFramed(b: seq<uint8>, b': seq<uint8>, q: nat)
    requires ParseMaterial(b, q).Ok? && Agree(b, b', q, ParseMaterial(b, q).value.next)
    ensures ParseMaterial(b', q) == ParseMaterial(b, q)
  {
    var c := MaterialParts(b, q);
    assert ParseCounted(ParseUvChannel, b', q + 1) == ParseCounted(ParseUvChannel, b, q + 1) by {
      UvChannelFacts();
      CountedFramed(ParseUvChannel, b, b', q + 1);
    }
    assert ParseCounted(ParseColor, b', c) == ParseCounted(ParseColor, b, c) by {
      ColorFacts();
      ColorFraming();
      CountedFramed(ParseColor, b, b', c);
    }
  }

  lemma MaterialFacts()
    ensures Advances(ParseMaterial)
    ensures Consumes(ParseMaterial, MaterialSize)
    ensures Framed(ParseMaterial)
  {
    forall b: seq<uint8>, q: nat | ParseMaterial(b, q).Ok?
      ensures q < ParseMaterial(b, q).value.next <= |b|
      ensures ParseMaterial(b, q).value.next == q + MaterialSize(ParseMaterial(b, q).value.value)
    {
      MaterialLayout(b, q);
    }
    forall b: seq<uint8>, b': seq<uint8>, q: nat |
      ParseMaterial(b, q).Ok? && Agree(b, b', q, ParseMaterial(b, q).value.next)
      ensures ParseMaterial(b', q) == ParseMaterial(b, q)
    {
      MaterialFramed(b, b', q);
    }
  }
}

/** The whole .sgm file as parse_sgm_file reads it (io_import_sgm.py lines
    14-94): a u32 magic number, a version byte, the material table and the
    mesh table, each table led by a count byte. */
module SgmDecoder {
  import opened Bytes
  import opened Results
  import opened Reader
  import opened MaterialDecoder
  import opened VertexDecoder
  import opened MeshDecoder

  /** The magic number every .sgm file starts with. */
  const Magic: nat := 352658064

  /** Magic as it sits in the file, least significant byte first. */
  const MagicBytes: seq<uint8> := [0x90, 0x22, 0x05, 0x15]

  /** The `(meshes, materials)` pair parse_sgm_file returns. */
  datatype Model = Model(meshes: seq<Mesh>, materials: seq<Material>)

  /** Everything after the version byte. */
  function ParseBody(reading: IndexReading, buf: seq<uint8>, pos: nat): (r: Result<Parsed<Model>>)
  {
    var materials :- ParseCounted(ParseMaterial, buf, pos);
    var meshes :- ParseCounted(MeshParser(reading), buf, materials.next);
    Ok(Parsed(Model(meshes.value, materials.value), meshes.next))
  }

  /** The decoder with the position where it stopped reading. The version is
      read and otherwise ignored. */
  function DecodeWith(reading: IndexReading, buf: seq<uint8>): (r: Result<Parsed<Model>>)
  {
    var magic :- ReadU32(buf, 0);
    if magic.value != Magic then Err(BadMagic(magic.value))
    else
      var version :- ReadU8(buf, magic.next);
      ParseBody(reading, buf, version.next)
  }

  /** parse_sgm_file on a file holding buf, with the index read corrected
      (see IndexReadingsAgree and the findings). */
  function Decode(buf: seq<uint8>): (r: Result<Model>)
  {
    var d :- DecodeWith(Corrected, buf);
    Ok(d.value)
  }

  /** parse_sgm_file with the index read exactly as written. */
  function DecodeAsWritten(buf: seq<uint8>): (r: Result<Model>)
  {
    var d :- DecodeWith(AsWritten, buf);
    Ok(d.value)
  }

  lemma MagicValue()
    ensures LittleEndian(MagicBytes) == Magic
    ensures forall s: seq<uint8> :: |s| == 4 && LittleEndian(s) == Magic ==> s == MagicBytes
  {
    assert ToLittleEndian(Magic, 4) == MagicBytes;
    forall s: seq<uint8> | |s| == 4 && LittleEndian(s) == Magic
      ensures s == MagicBytes
    {
      ToLittleEndianRoundTrip(s);
    }
  }

  /** A file is rejected unless it starts with the four magic bytes; a file
      that has four other bytes there is rejected as BadMagic, carrying the
      number it found. */
  lemma MagicCheck(buf: seq<uint8>)
    ensures DecodeWith(Corrected, buf).Ok? ==> |buf| >= 5 && buf[..4] == MagicBytes
    ensures DecodeWith(AsWritten, buf).Ok? ==> |buf| >= 5 && buf[..4] == MagicBytes
    ensures |buf| < 4 ==> Decode(buf) == Err(ShortRead(0, 4))
    ensures |buf| >= 4 && buf[..4] != MagicBytes ==>
              Decode(buf) == DecodeAsWritten(buf) == Err(BadMagic(LittleEndian(buf[..4])))
  {
    MagicValue();
  }

  /** ParseBody split into its two tables; c is where the mesh table starts. */
  lemma BodyParts(reading: IndexReading, b: seq<uint8>, q: nat) returns (c: nat)
    requires ParseBody(reading, b, q).Ok?
    ensures q < c < ParseBody(reading, b, q).value.next <= |b|
    ensures ParseCounted(ParseMaterial, b, q) == Ok(Parsed(ParseBody(reading, b, q).value.value.materials, c))
    ensures ParseCounted(MeshParser(reading), b, c) ==
              Ok(Parsed(ParseBody(reading, b, q).value.value.meshes, ParseBody(reading, b, q).value.next))
  {
    c := ParseCounted(ParseMaterial, b, q).value.next;
    assert q < c <= |b| by {
      MaterialFacts();
      CountedAdvances(ParseMaterial, b, q);
    }
    assert c < ParseBody(reading, b, q).value.next <= |b| by {
      MeshFacts(reading);
      CountedAdvances(MeshParser(reading), b, c);
    }
  }

  /** The two tables hold as many entries as their count bytes say: the
      material count at q, the mesh count right after the materials. */
  lemma BodyCounts(reading: IndexReading, b: seq<uint8>, q: nat) returns (c: nat)
    requires ParseBody(reading, b, q).Ok?
    ensures var m := ParseBody(reading, b, q).value.value;
      && c == q + 1 + TotalSize(MaterialSize, m.materials) < |b|
      && |m.materials| == b[q]
      && |m.meshes| == b[c]
      && c < ParseBody(reading, b, q).value.next <= |b|
  {
    c := BodyParts(reading, b, q);
    var m := ParseBody(reading, b, q).value.value;
    assert |m.materials| == b[q] && c == q + 1 + TotalSize(MaterialSize, m.materials) by {
      MaterialFacts();
      CountedAdvances(ParseMaterial, b, q);
      CountedConsumes(ParseMaterial, MaterialSize, b, q);
    }
    assert |m.meshes| == b[c] by {
      MeshFacts(reading);
      CountedAdvances(MeshParser(reading), b, c);
    }
  }

  lemma BodyFramed(b: seq<uint8>, b': seq<uint8>, q: nat)
    requires ParseBody(Corrected, b, q).Ok? && Agree(b, b', q, ParseBody(Corrected, b, q).value.next)
    ensures ParseBody(Corrected, b', q) == ParseBody(Corrected, b, q)
  {
    var c := BodyParts(Corrected, b, q);
    assert ParseCounted(ParseMaterial, b', q) == ParseCounted(ParseMaterial, b, q) by {
      MaterialFacts();
      CountedFramed(ParseMaterial, b, b', q);
    }
    assert ParseCounted(MeshParser(Corrected), b', c) == ParseCounted(MeshParser(Corrected), b, c) by {
      MeshFacts(Corrected);
      CountedFramed(MeshParser(Corrected), b, b', c);
    }
  }

  lemma BodyReadingsAgree(b: seq<uint8>, q: nat)
    requires ParseBody(Corrected, b, q).Ok?
    ensures ParseBody(AsWritten, b, q) == ParseBody(Corrected, b, q)
  {
    var c := BodyParts(Corrected, b, q);
    MeshesReadingsAgree(b, c);
  }

  lemma MeshesReadingsAgree(b: seq<uint8>, c: nat)
    requires ParseCounted(MeshParser(Corrected), b, c).Ok?
    ensures ParseCounted(MeshParser(AsWritten), b, c) == ParseCounted(MeshParser(Corrected), b, c)
  {
    forall b: seq<uint8>, q: nat | MeshParser(Corrected)(b, q).Ok?
      ensures MeshParser(AsWritten)(b, q) == MeshParser(Corrected)(b, q)
    {
      MeshReadingsAgree(b, q);
    }
    ManyRefines(MeshParser(Corrected), MeshParser(AsWritten), b, c + 1, b[c]);
  }

  /** After the magic number and the version byte, the decoder is ParseBody. */
  lemma DecodeShape(reading: IndexReading, b: seq<uint8>)
    ensures DecodeWith(reading, b).Ok? ==> |b| >= 5 && LittleEndian(b[..4]) == Magic
    ensures |b| >= 5 && LittleEndian(b[..4]) == Magic ==> DecodeWith(reading, b) == ParseBody(reading, b, 5)
  {
  }

  /** Where a successful decode stops: past the mesh count byte, which
      follows the material table, and within the buffer. */
  lemma DecodeEnd(reading: IndexReading, b: seq<uint8>)
    requires DecodeWith(reading, b).Ok?
    ensures var r := DecodeWith(reading, b).value;
      6 + TotalSize(MaterialSize, r.value.materials) < r.next <= |b|
  {
    DecodeShape(reading, b);
    var c := BodyCounts(reading, b, 5);
  }

  /** The result depends only on the bytes the decoder reads. */
  lemma DecodeFramed(b: seq<uint8>, b': seq<uint8>)
    requires DecodeWith(Corrected, b).Ok? && Agree(b, b', 0, DecodeWith(Corrected, b).value.next)
    ensures DecodeWith(Corrected, b') == DecodeWith(Corrected, b)
  {
    DecodeShape(Corrected, b);
    DecodeEnd(Corrected, b);
    assert b'[..4] == b[..4] by {
      AgreeSlice(b, b', 0, DecodeWith(Corrected, b).value.next, 0, 4);
    }
    DecodeShape(Corrected, b');
    BodyFramed(b, b', 5);
  }

  /** Bytes appended after the mesh table are never read. */
  lemma TrailingBytesIgnored(b: seq<uint8>, extra: seq<uint8>)
    requires DecodeWith(Corrected, b).Ok?
    ensures DecodeWith(Corrected, b + extra) == DecodeWith(Corrected, b)
  {
    DecodeEnd(Corrected, b);
    assert Agree(b, b + extra, 0, DecodeWith(Corrected, b).value.next);
    DecodeFramed(b, b + extra);
  }

  /** The body depends on the bytes from q to the end of the file, and as
      written also on where the file ends, but on nothing after that end. */
  lemma BodyPrefixStable(reading: IndexReading, b: seq<uint8>, b': seq<uint8>, q: nat)
    requires ParseBody(reading, b, q).Ok? && Agree(b, b', q, |b|)
    requires |b'| == |b| || ParseBody(reading, b', q).Ok?
    ensures ParseBody(reading, b', q) == ParseBody(reading, b, q)
  {
    var c := BodyParts(reading, b, q);
    assert ParseCounted(ParseMaterial, b', q) == ParseCounted(ParseMaterial, b, q) by {
      assert Agree(b, b', q, c);
      MaterialFacts();
      CountedFramed(ParseMaterial, b, b', q);
    }
    assert ParseCounted(MeshParser(reading), b', c) == ParseCounted(MeshParser(reading), b, c) by {
      assert Agree(b, b', c, |b|);
      MeshFacts(reading);
      MeshParserPrefixStable(reading);
      CountedPrefixStable(MeshParser(reading), b, b', c);
    }
  }

  /** Under either reading, a file accepted within a longer one that holds
      its bytes is decoded alike in both, when the longer one is accepted
      too. */
  lemma DecodePrefixStable(reading: IndexReading, b: seq<uint8>, b': seq<uint8>)
    requires DecodeWith(reading, b).Ok? && Agree(b, b', 0, |b|)
    requires |b'| == |b| || DecodeWith(reading, b').Ok?
    ensures DecodeWith(reading, b') == DecodeWith(reading, b)
  {
    DecodeShape(reading, b);
    assert b'[..4] == b[..4] by {
      AgreeSlice(b, b', 0, |b|, 0, 4);
    }
    DecodeShape(reading, b');
    assert Agree(b, b', 5, |b|);
    BodyPrefixStable(reading, b, b', 5);
  }

  /** A file cut anywhere before the end of its mesh table is rejected,
      under either reading. */
  lemma TruncationRejected(reading: IndexReading, b: seq<uint8>, k: nat)
    requires DecodeWith(reading, b).Ok? && k < DecodeWith(reading, b).value.next
    ensures k < |b| && DecodeWith(reading, b[..k]).Err?
  {
    DecodeEnd(reading, b);
    if DecodeWith(reading, b[..k]).Ok? {
      DecodeEnd(reading, b[..k]);
      assert Agree(b[..k], b, 0, k);
      DecodePrefixStable(reading, b[..k], b);
    }
  }

  /** The version byte does not affect the result, under either reading. */
  lemma VersionIgnored(reading: IndexReading, b: seq<uint8>, v: uint8)
    requires |b| > 4
    ensures DecodeWith(reading, b[4 := v]).Ok? <==> DecodeWith(reading, b).Ok?
    ensures DecodeWith(reading, b).Ok? ==> DecodeWith(reading, b[4 := v]) == DecodeWith(reading, b)
  {
    var b' := b[4 := v];
    assert b'[..4] == b[..4];
    DecodeShape(reading, b);
    DecodeShape(reading, b');
    if ParseBody(reading, b, 5).Ok? {
      assert Agree(b, b', 5, |b|);
      BodyPrefixStable(reading, b, b', 5);
    }
    if ParseBody(reading, b', 5).Ok? {
      assert Agree(b', b, 5, |b'|);
      BodyPrefixStable(reading, b', b, 5);
    }
  }

  /** Every file the corrected decoder accepts, the decoder as written
      accepts with the same result. */
  lemma DecodeReadingsAgree(b: seq<uint8>)
    requires DecodeWith(Corrected, b).Ok?
    ensures DecodeWith(AsWritten, b) == DecodeWith(Corrected, b)
  {
    DecodeShape(Corrected, b);
    DecodeShape(AsWritten, b);
    BodyReadingsAgree(b, 5);
  }

  /** The counts the file declares are the counts decoded, under either
      reading: the material count at byte 5, the mesh count at c, right
      after the materials. */
  lemma DecodeCounts(reading: IndexReading, b: seq<uint8>) returns (c: nat)
    requires DecodeWith(reading, b).Ok?
    ensures var m := DecodeWith(reading, b).value.value;
      && c == 6 + TotalSize(MaterialSize, m.materials) < |b|
      && |m.materials| == b[5] && |m.meshes| == b[c]
  {
    DecodeShape(reading, b);
    c := BodyCounts(reading, b, 5);
  }

  /** A file with one mesh, no vertices and one index declared 3 bytes wide,
      whose last two bytes hold that index: magic, version, no materials,
      one mesh with ids 0 and 0, vertex count 0, four zero flags, index
      count 1, index width 3, then the bytes 7 and 0. */
  const ShortIndexFile: seq<uint8> :=
    [0x90, 0x22, 0x05, 0x15, 1, 0, 1, 0, 0, 0, 0, 0, 0, 0, 0, 0, 0, 1, 0, 0, 0, 3, 7, 0]

  lemma LittleEndian4(s: seq<uint8>)
    requires |s| == 4
    ensures LittleEndian(s) == s[0] as int + 0x100 * s[1] as int + 0x1_0000 * s[2] as int + 0x100_0000 * s[3] as int
  {
    var t1, t2, t3 := s[1..], s[2..], s[3..];
    assert LittleEndian(t3) == s[3] by {
      assert t3[1..] == [];
    }
    assert LittleEndian(t2) == s[2] + 0x100 * LittleEndian(t3) by {
      assert t2[1..] == t3;
    }
    assert LittleEndian(t1) == s[1] + 0x100 * LittleEndian(t2) by {
      assert t1[1..] == t2;
    }
  }

  /** The fields of ShortIndexFile, and of any buffer that starts with it. */
  lemma ShortIndexBytes(f: seq<uint8>)
    requires |f| >= 24 && forall i :: 0 <= i < 24 ==> f[i] == ShortIndexFile[i]
    ensures LittleEndian(f[..4]) == Magic
    ensures f[5] == 0 && f[6] == 1
    ensures HeaderAt(f, 7) == MeshHeader(0, 0, 0, VertexLayout(0, false, false, false))
    ensures LittleEndian(f[17 .. 21]) == 1 && f[21] == 3
    ensures f[22 .. 24] == [7, 0] && LittleEndian(f[22 .. 24]) == 7
  {
    LittleEndian4(f[..4]);
    LittleEndian4(f[9 .. 13]);
    LittleEndian4(f[17 .. 21]);
    assert f[22 .. 24][1..] == [0];
  }

  /** The one mesh of ShortIndexFile, as the source reads it. */
  lemma ShortIndexMesh()
    ensures ParseMesh(AsWritten, ShortIndexFile, 7) == Ok(Parsed(Mesh(0, 0, [], [7]), 24))
  {
    var f := ShortIndexFile;
    ShortIndexBytes(f);
    var p := IndexParser(AsWritten, 3);
    assert p(f, 22) == Ok(Parsed(7, 24)) by {
      IndexAsWrittenLayout(3, f, 22);
    }
    ManyCons(p, f, 22, 0, 7, 24, [], 24);
    assert [7] + [] == [7];
    IndicesParts(AsWritten, f, 17);
    assert ParseIndices(AsWritten, f, 17) == Ok(Parsed([7], 24));
    assert ParseMany(VertexParser(HeaderAt(f, 7).layout), f, 17, 0) == Ok(Parsed([], 17));
    MeshCompose(AsWritten, f, 7, [], 17, [7], 24);
  }

  /** As written, the decoder accepts ShortIndexFile: reading 3 bytes at the
      end of the file returns the 2 bytes a u16 unpack needs. */
  lemma ShortIndexAccepted()
    ensures DecodeAsWritten(ShortIndexFile) == Ok(Model([Mesh(0, 0, [], [7])], []))
  {
    var f := ShortIndexFile;
    ShortIndexBytes(f);
    ShortIndexMesh();
    ManyCons(MeshParser(AsWritten), f, 7, 0, Mesh(0, 0, [], [7]), 24, [], 24);
    assert [Mesh(0, 0, [], [7])] + [] == [Mesh(0, 0, [], [7])];
    assert ParseCounted(ParseMaterial, f, 5) == Ok(Parsed([], 6));
    assert ParseCounted(MeshParser(AsWritten), f, 6) == Ok(Parsed([Mesh(0, 0, [], [7])], 24));
    DecodeShape(AsWritten, f);
  }

  /** With one byte appended, the same mesh reads 3 index bytes and fails:
      appending to a file the decoder as written accepts can make it reject
      the file. */
  lemma ShortIndexExtendedRejected()
    ensures DecodeAsWritten(ShortIndexFile + [0]).Err?
  {
    var g := ShortIndexFile + [0];
    ShortIndexBytes(g);
    assert ParseIndices(AsWritten, g, 17).Err? by {
      IndicesParts(AsWritten, g, 17);
      IndexAsWrittenLayout(3, g, 22);
    }
    if ParseMesh(AsWritten, g, 7).Ok? {
      MeshParts(AsWritten, g, 7);
      assert false;
    }
    DecodeShape(AsWritten, g);
  }

  /** The corrected decoder rejects ShortIndexFile: 3 is not an index width. */
  lemma ShortIndexRejected()
    ensures Decode(ShortIndexFile).Err?
  {
    var f := ShortIndexFile;
    ShortIndexBytes(f);
    assert ParseIndices(Corrected, f, 17).Err? by {
      IndicesParts(Corrected, f, 17);
      IndexLayout(3, f, 22);
    }
    if ParseMesh(Corrected, f, 7).Ok? {
      MeshParts(Corrected, f, 7);
      assert false;
    }
    DecodeShape(Corrected, f);
  }
}

# SGM model decoder

A Dafny model of `parse_sgm_file`, the reader for Rayne `.sgm` model files
in the Blender import add-on. Here the function is the pure decoder
`SgmDecoder.DecodeAsWritten(bytes)`. It returns a `Model` of meshes and
materials, or a `DecodeError` where the original raises.
`SgmDecoder.Decode` is the same decoder with the index read corrected (see
Findings). The model follows the file byte for byte:

- the header is a 4-byte magic number (352658064, the bytes `90 22 05 15`),
  a version byte and a material count;
- each material has an id, a list of uv channels (each a counted list of
  texture references: usage hint, u16 length prefix, name, terminator
  byte) and a counted list of 17-byte colour entries;
- after the materials come a mesh count and the meshes. Each mesh has a
  10-byte header: id, material id, u32 vertex count and four layout flag
  bytes. The vertices follow at a fixed stride, then a u32 index count, a
  width byte and the indices.

Reads follow Python's file semantics. `file.read(n)` returns at most `n`
bytes, and `struct.unpack` fails unless it gets exactly the bytes its
format needs, so every fixed-size read is all-or-nothing (`Reader.ReadExact`).
Floats are kept as their 32-bit patterns (`Bytes.F32`). Texture names are
kept as their bytes, together with the proof that they are well-formed
UTF-8 (`Utf8.ValidUtf8`, the well-formedness table of the Unicode Standard,
Table 3-7, which is what Python's strict `utf_8` codec accepts).

Modules:

- `Results`: errors and results.
- `Bytes`: little-endian integers and byte-range predicates.
- `Utf8`: UTF-8 well-formedness.
- `Reader`: the file reads, plus list combinators with their generic
  layout, framing and round-trip lemmas.
- `MaterialDecoder`, `VertexDecoder`, `MeshDecoder` and `SgmDecoder`:
  the four nested loops of the source.
- `SgmEncoder`: a writer that is the decoder's partner.
  - It proves that every writable model decodes back to itself, even with
    bytes appended.
  - It proves that every model the decoder returns is writable.

The vertex loop is modelled twice:

- `VertexDecoder.ParseVertexFields` reads field by field, as the source does;
- `VertexDecoder.ParseVertex` reads one block of `Stride(layout)` bytes.

The two are proved equal (`VertexDecoder.VertexFieldsAgree`), and the mesh
decoder uses the block read.

The two decoders differ only in how they read an index element.
`MeshDecoder.IndexReading` selects the reading: `AsWritten` for
`DecodeAsWritten` and `Corrected` for `Decode`. Lemmas that take a
`reading` hold for both decoders.

## Model

| member | source | states |
|---|---|---|
| `Reader.ReadExactReads` | io_import_sgm.py:16-19 | `struct.unpack` of an `n`-byte format on `file.read(n)` succeeds exactly when the read returns all `n` bytes, and then yields those bytes |
| `Reader.ParseMany` | io_import_sgm.py:67 | a `for _ in range(count)` loop that succeeds returns exactly `count` records |
| `Reader.ManyFixedWidth` | io_import_sgm.py:67-87 | `count` records of a `w`-byte record type are accepted exactly when `count * w` bytes remain (or `count` is 0), and the loop ends `count * w` bytes on |
| `Reader.CountedYields` | io_import_sgm.py:28-38 | a count-byte list holds fewer than 256 records, and every record has each property that all single records have |
| `SgmDecoder.MagicValue` | io_import_sgm.py:16-17 | 352658064 read little-endian is the byte string `90 22 05 15`, and no other 4 bytes give that value |
| `SgmDecoder.MagicCheck` | io_import_sgm.py:16-18 | an accepted file starts with the magic bytes; a file shorter than 4 bytes is a short read at 0; any other first 4 bytes give `BadMagic` with the value read, under both index readings, whatever follows |
| `SgmDecoder.VersionIgnored` | io_import_sgm.py:19-20 | under either reading, changing the version byte changes neither acceptance nor the decoded model |
| `SgmDecoder.DecodeShape` | io_import_sgm.py:16-22 | the body is decoded from offset 5 exactly when the file has the magic number and at least 5 bytes |
| `SgmDecoder.DecodeCounts` | io_import_sgm.py:22-54 | under either reading, the decoded model has `num_materials` (byte 5) materials and `num_meshes` meshes, the mesh count byte lying right after the materials' bytes |
| `SgmDecoder.DecodeEnd` | io_import_sgm.py:14-94 | under either reading, an accepted file is read past the mesh count byte, which follows the material table's bytes, and no further than its end |
| `SgmDecoder.DecodeFramed` | io_import_sgm.py:14-94 | the result depends only on the bytes up to the position where decoding stopped |
| `SgmDecoder.TrailingBytesIgnored` | io_import_sgm.py:14-94 | bytes appended to an accepted file do not change the result |
| `SgmDecoder.TruncationRejected` | io_import_sgm.py:14-94 | under either reading, every proper prefix of the bytes an accepted file is read from is rejected |
| `SgmDecoder.DecodePrefixStable` | io_import_sgm.py:14-94 | under either reading, an accepted file decodes to the same model as any accepted longer file that starts with it |
| `SgmDecoder.BodyPrefixStable` | io_import_sgm.py:22-93 | under either reading, the material and mesh lists decode alike in any file that holds the same bytes from their start on and either has the same length or accepts them too |
| `MeshDecoder.MeshPrefixStable` | io_import_sgm.py:54-93 | under either reading, a mesh decodes alike in any file that holds the same bytes from its start on and either has the same length or accepts the mesh too |
| `SgmDecoder.DecodeReadingsAgree` | io_import_sgm.py:89-92 | every file the corrected decoder accepts is decoded identically as written |
| `SgmDecoder.ShortIndexAccepted` | io_import_sgm.py:89-92 | as written, a 24-byte file whose one index has width 3 but only two bytes left is accepted, as index 7 |
| `SgmDecoder.ShortIndexExtendedRejected` | io_import_sgm.py:89-92 | as written, the same file with one byte appended is rejected |
| `SgmDecoder.ShortIndexRejected` | io_import_sgm.py:89-92 | the corrected decoder rejects the 24-byte file |
| `MaterialDecoder.TextureRefLayout` | io_import_sgm.py:32-37 | a texture reference is accepted exactly when the hint byte and u16 prefix `L` are there, `L >= 1`, the `L - 1` name bytes after the prefix are well-formed UTF-8 and the terminator byte exists; it then yields that hint and name and consumes `1 + 2 + L` bytes; `L = 0` gives `BadNameLength` |
| `MaterialDecoder.TextureRefFacts` | io_import_sgm.py:32-37 | a texture reference occupies 3 bytes, then its name, then 1 terminator byte, and its result depends on those bytes only |
| `MaterialDecoder.UvChannelLayout` | io_import_sgm.py:29-38 | a uv channel holds `image_count` texture references and ends right after their bytes |
| `MaterialDecoder.UvDataLayout` | io_import_sgm.py:26-38 | `uv_data` holds `uv_count` channels and ends right after their bytes |
| `MaterialDecoder.ColorLayout` | io_import_sgm.py:42-43 | a colour entry is accepted exactly when 17 bytes remain: the id byte, then four 32-bit floats |
| `MaterialDecoder.ColorsLayout` | io_import_sgm.py:39-44 | the colour list holds `color_count` entries and takes 17 bytes for each |
| `MaterialDecoder.MaterialLayout` | io_import_sgm.py:25-49 | a decoded material keeps the id byte, has `uv_count` channels and `color_count` colours read from their count bytes, and occupies `MaterialSize` bytes |
| `MaterialDecoder.MaterialFramed` | io_import_sgm.py:25-49 | a material's result depends only on its own bytes |
| `MaterialDecoder.MaterialFacts` | io_import_sgm.py:24-49 | every material occupies `MaterialSize(m)` bytes, at least one, inside the buffer |
| `VertexDecoder.VertexAt` | io_import_sgm.py:68-86 | the vertex read from a `Stride` block has 3 position and 3 normal floats and `uv_count` pairs; it has colour, tangents, and weights with bone indices (with their widths) exactly when its layout says so. The layout comes from the header bytes through `VertexDecoder.LayoutOf`: colour iff `texdata_count == 4`, tangents iff `has_tangents != 0`, bones iff `has_bones != 0` |
| `VertexDecoder.OptionalAttributesLayout` | io_import_sgm.py:71-77 | the optional attributes take `OptionalSize` bytes (16 for colour, 12 for tangents, 32 for bones) and are read exactly when that many bytes remain |
| `VertexDecoder.UvsLayout` | io_import_sgm.py:70 | `uv_count` uv pairs take 8 bytes each, and each has two floats |
| `VertexDecoder.VertexWidth` | io_import_sgm.py:68-77 | the field-by-field vertex read succeeds exactly when `24 + 8*uv + (16 if texdata==4) + (12 if tangents) + (32 if bones)` bytes remain, and consumes that many |
| `VertexDecoder.VertexFieldsValue` | io_import_sgm.py:68-86 | the field-by-field read yields the vertex laid out in its `Stride` block |
| `VertexDecoder.VertexFieldsAgree` | io_import_sgm.py:67-87 | the field-by-field read and the block read accept the same inputs with the same result |
| `VertexDecoder.VertexFacts` | io_import_sgm.py:67-87 | a vertex takes exactly `Stride` bytes, depends on those only, and conforms to its mesh's layout |
| `VertexDecoder.VerticesLayout` | io_import_sgm.py:67-87 | `vertex_count` vertices are accepted exactly when `vertex_count * Stride` bytes remain (or there are none), and every one conforms to the layout |
| `MeshDecoder.HeaderLayout` | io_import_sgm.py:57-65 | the mesh header is accepted exactly when 10 bytes remain, and yields id, material id, vertex count and layout flags from them |
| `MeshDecoder.IndexLayout` | io_import_sgm.py:89-92 | corrected: an index is accepted exactly when the width is 2 or 4 and that many bytes remain; it is their little-endian value, below `2^(8*width)` |
| `MeshDecoder.IndexAsWrittenLayout` | io_import_sgm.py:91-92 | as written: width 4 reads a u32; any other width reads a u16, which succeeds for width 2, or for a width above 2 when exactly two bytes are left; widths 0 and 1 always fail |
| `MeshDecoder.IndexReadingsAgree` | io_import_sgm.py:91-92 | wherever the corrected element read succeeds, the source's read gives the same value and position |
| `MeshDecoder.IndexPrefixStable` | io_import_sgm.py:91-92 | under either reading an index depends on no byte past the end of the file: the source's read looks only at where the file ends, so two files that both accept it, or have the same length, give the same index |
| `MeshDecoder.IndexFacts` | io_import_sgm.py:91-92 | index values stay below the width's limit; the corrected read takes exactly `width` bytes, and any width other than 2 or 4 never succeeds |
| `MeshDecoder.IndicesLayout` | io_import_sgm.py:89-92 | under either reading, a decoded index list has `index_count` elements, each below the width's limit, within the buffer |
| `MeshDecoder.IndicesWidth` | io_import_sgm.py:89-92 | the corrected index list is accepted exactly when its 5 header bytes are present and either `index_count` is 0 or the width is 2 or 4 with `index_count * width` bytes left; it ends there |
| `MeshDecoder.IndicesReadingsAgree` | io_import_sgm.py:89-92 | wherever the corrected index list is accepted, the source's reading gives the same list |
| `MeshDecoder.MeshVertices` | io_import_sgm.py:57-87 | a decoded mesh copies the id and material id bytes, has `vertex_count` vertices, and each conforms to the header's layout |
| `MeshDecoder.MeshIndices` | io_import_sgm.py:89-93 | a decoded mesh's indices start right after its vertices; there are `index_count` of them, each below the width's limit, ending `index_count * width` bytes on when corrected |
| `MeshDecoder.MeshFramed` | io_import_sgm.py:54-93 | corrected: a mesh's result depends only on its own bytes |
| `MeshDecoder.MeshReadingsAgree` | io_import_sgm.py:54-93 | wherever the corrected mesh read succeeds, the source's reading gives the same mesh |
| `MeshDecoder.MeshAdvances` | io_import_sgm.py:54-93 | a mesh takes at least one byte, inside the buffer |
| `SgmEncoder.TextureRefRoundTrip` | io_import_sgm.py:32-37 | a texture reference written with a length prefix one more than its name's length and a terminator decodes back to itself |
| `SgmEncoder.ChannelRoundTrip` | io_import_sgm.py:29-38 | a written uv channel decodes back to itself |
| `SgmEncoder.ColorRoundTrip` | io_import_sgm.py:41-44 | a written colour entry decodes back to itself |
| `SgmEncoder.MaterialRoundTrip` | io_import_sgm.py:25-49 | a written material decodes back to itself and is exactly its bytes long |
| `SgmEncoder.VertexRoundTrip` | io_import_sgm.py:67-87 | a vertex that conforms to a layout, once written, decodes back to itself under that layout |
| `SgmEncoder.HeaderRoundTrip` | io_import_sgm.py:57-65 | a written mesh header gives back the id, material id, vertex count and layout |
| `SgmEncoder.IndicesRoundTrip` | io_import_sgm.py:89-92 | under either reading, an index list written at width 4 decodes back to itself |
| `SgmEncoder.MeshRoundTrip` | io_import_sgm.py:54-93 | under either reading, a written mesh decodes back to itself |
| `SgmEncoder.EncodeRoundTrip` | io_import_sgm.py:14-94 | a writable model, written with any version byte and followed by any bytes, decodes back to itself under both index readings |
| `SgmEncoder.DecodedMaterialOk` | io_import_sgm.py:25-49 | every decoded material can be written: fewer than 256 channels and colours, names shorter than 65535 bytes, four floats per colour |
| `SgmEncoder.DecodedMeshOk` | io_import_sgm.py:54-93 | every decoded mesh can be written: its vertices share one layout, and its counts and indices fit their fields |
| `SgmEncoder.DecodedModelOk` | io_import_sgm.py:14-94 | every model either reading returns can be written |
| `SgmEncoder.ReencodeRoundTrip` | io_import_sgm.py:14-94 | writing back any decoded model gives a file that both readings decode to the same model |

## Left out

- The Blender import layer (io_import_sgm.py:96-159) and `bl_info` (io_import_sgm.py:1-9). They build scene objects from the decoded data and register menu entries.
- Opening the file (io_import_sgm.py:15). The decoder takes the file's contents as a byte sequence.
- The diagnostic `print` calls (io_import_sgm.py:20, 35, 50, 66). They have no effect on the result.
- `file.seek(1, 1)` past the end of the file (io_import_sgm.py:36) is modelled as a bounds-checked skip (`Reader.Skip`). In Python the seek itself succeeds, but every path after a texture reference starts with a 1-byte read, which then fails, so acceptance is the same.
- Floats are not interpreted. They stay 32-bit patterns, since the decoder only copies them.
- Texture names are not converted to text. The model keeps the bytes and requires them to be well-formed UTF-8, which is what decides acceptance.
- Which exception is raised is not modelled beyond accept or reject. The source raises `ValueError` for a bad magic number and `struct.error` or `UnicodeDecodeError` elsewhere. The model distinguishes `BadMagic` (with the value read), `ShortRead`, `IndexWidthMismatch`, `BadNameLength` and `InvalidUtf8`. Their offsets are model detail. The block vertex read reports a short vertex at the vertex's start, not at the field that ran out.
- The result shape: Python returns a `(meshes, materials)` tuple of dicts and tuples, and the model returns `Model(meshes, materials)` with the same fields.
- The version byte is read and ignored, as in the source. There is no per-version choice of layout, no animation reference after the meshes, and no index range or triangle check. None of them exist in this code.
- `SgmEncoder` is not part of the source. It is a writer that makes the round trips statable. Writing a decoded file back is not byte-identical:
  - the name terminator is written as 0;
  - `texdata_count` is written as 4 or 0;
  - the flag bytes are written as 1 or 0;
  - indices are written at width 4;
  - an empty mesh gets an all-off layout.

  `ReencodeRoundTrip` states equality of the decoded models, not of the bytes.
- `SgmDecoder.TrailingBytesIgnored`, `SgmDecoder.DecodeFramed` and `MeshDecoder.MeshFramed` hold for the corrected index read only. As written, appended bytes can change the verdict (see Findings), which `SgmDecoder.ShortIndexExtendedRejected` shows. As written, what remains true is `SgmDecoder.DecodePrefixStable` and `MeshDecoder.MeshPrefixStable`. `SgmDecoder.DecodeReadingsAgree` carries both results over to every file the corrected decoder accepts.

## Findings

| source | as written | input that shows it | evidently intended | confidence | as-written member | corrected member |
|---|---|---|---|---|---|---|
| io_import_sgm.py:91-92 | each index is `read(index_size)` followed by unpacking `<I` if `index_size == 4` and `<H` otherwise, so an index width other than 2 or 4 succeeds whenever the read comes back short with exactly two bytes | `SgmDecoder.ShortIndexFile`: magic, version 1, no materials, one mesh with no vertices, `index_count` 1, `index_size` 3, then the bytes `07 00` at the end of the file. It is accepted as index 7, and the same file with one more byte is rejected | each index takes exactly `index_size` bytes and the width is 2 or 4, so other widths are rejected whatever follows and bytes after the end never matter | not executed | `MeshDecoder.ParseIndexAsWritten`, `SgmDecoder.ShortIndexAccepted`, `SgmDecoder.ShortIndexExtendedRejected` | `MeshDecoder.ParseIndex`, `MeshDecoder.IndexLayout`, `SgmDecoder.ShortIndexRejected`, `SgmDecoder.TrailingBytesIgnored`, `MeshDecoder.MeshFramed` |

# MatterSlice mesh ingestion, modelled in Dafny

This project models the part of MatterSlice's `modelFile.cs` that turns an STL file into
an in-memory triangle model, and proves properties of that model.

- A **face** (`SimpleFace`) is an ordered triple of integer points.
- A **volume** (`SimpleVolume`) is an append-only list of faces. It answers per-axis
  minimum and maximum queries.
- A **model** (`SimpleModel`) is a list of volumes. It answers the same queries as a fold
  over its volumes' answers.
- Three loaders build a model:
  - the **text decoder** reads `vertex` lines three at a time;
  - the **binary decoder** reads an 80-byte header, a little-endian `uint32` count T and
    T records of 50 bytes;
  - **`loadModelFromFile`** tries the text decoder and falls back to the binary one when
    the text decoder found no face.

Layout:
- `wrappers.dfy`: `Option`, `Result`, and the .NET exceptions a decoder can let escape
  (index, format and overflow errors of the text decoder, the two `BitConverter` range errors).
- `geometry.dfy`: points, faces, the `SET_MIN`/`SET_MAX` step (`Pick`), and the
  bounding-box corner of a point list (`Corner`) with its characterisation.
- `stl_text.dfy`: a specification of the text decoder as functions of the file's lines,
  with lemmas about it. The specification covers tokenising, vertex lines and grouping
  into faces (`TextDecode`).
- `stl_binary.dfy`: a specification of the binary decoder over the file's bytes. It holds
  the decoder as written (`BinaryDecodeAsWritten`, whose length check wraps modulo 2^32
  and counts 84 + 26·T bytes) and a corrected decoder (`BinaryDecode`, 84 + 50·T bytes),
  with lemmas about both and the files on which they differ.
- `model_file.dfy`: the classes `SimpleVolume` and `SimpleModel`, whose methods update
  their `seq` fields in place. Each loader is a method with loops and invariants, proved
  to build exactly what the specification functions describe. The loaders follow the code
  as written: the binary loader and `loadModelFromFile` are proved against
  `BinaryDecodeAsWritten`.

Floating-point work is not interpreted. These operations are parameters:
- `Convert.ToDouble`, which answers a number, "not a number" or "out of range";
- `BitConverter.ToSingle`;
- the multiplication by 1000;
- the float-to-integer narrowing of `Point3`;
- `matrix.apply`.

They are bundled as `TextNumerics`, `BinaryNumerics` and a function `matrix`. The
properties proved say where every token and every byte ends up.

## Model

| member | source | states |
|---|---|---|
| Geometry.Pick | modelFile.cs:44-54 | One `SET_MIN`/`SET_MAX` step leaves a value at least as extreme as both the old value and the new one, and equal to one of them. |
| Geometry.Vertices | modelFile.cs:68-79 | Each face contributes exactly three vertices to the fold. |
| Geometry.VerticesAt | modelFile.cs:36 | Vertex 3i+k of the flattened list is `v[k]` of face i, as the constructor stored it. |
| Geometry.VerticesMembers | modelFile.cs:68-79 | A point is among the folded vertices exactly when it is `v[k]` of some face, for some k < 3. |
| Geometry.ExtremeCoord | modelFile.cs:68-79 | The running `SET_MIN`/`SET_MAX` of one axis over a non-empty point list, seeded with the first point; ExtremeCoordIsExtreme characterises it. |
| Geometry.ExtremeCoordIsExtreme | modelFile.cs:68-79 | The running min/max of an axis bounds that axis of every point and equals it for one of them. |
| Geometry.Corner | modelFile.cs:61-105 | The corner `minXYZ`/`maxXYZ` returns: the origin for no points, else the running extreme on each axis; CornerCharacterised characterises it. |
| Geometry.CornerCharacterised | modelFile.cs:61-105 | For a non-empty point list, a point is the corner exactly when, on every axis, it bounds all the points and is attained by one of them. |
| Geometry.CornerOfSameElements | modelFile.cs:68-69 | The corner depends only on which points occur. Seeding `ret` with face 0's `v[0]` and visiting it again therefore changes nothing. |
| Geometry.CornerSnoc | modelFile.cs:141-144 | Folding one more point into a non-empty list is one `SET_MIN`/`SET_MAX` per axis. |
| Geometry.CornerStep | modelFile.cs:71-79 | Folding one face's three vertices is the nine `SET_MIN`/`SET_MAX` calls in source order. |
| Geometry.VerticesSnoc | modelFile.cs:69-79 | The vertices of one more face of the list come after those of the faces before it. |
| Geometry.VerticesAppendFace | modelFile.cs:56-59 | Appending a face appends its three vertices. |
| Geometry.FacesCorner | modelFile.cs:61-105 | The box of a non-empty face list bounds every vertex of every face on every axis, and on each axis equals some face's vertex. |
| Geometry.CornerBoundsOrigin | modelFile.cs:131-165 | When the origin is among the folded corners (an empty volume), the model's minimum is at most 0 and its maximum at least 0 on each axis. |
| Geometry.BoundingBoxExample | modelFile.cs:61-105 | The triangle (0,0,0), (1000,0,0), (0,1000,0) has box (0,0,0) to (1000,1000,0). |
| ModelFile.SimpleVolume.constructor | modelFile.cs:42 | A new volume has no faces. |
| ModelFile.SimpleVolume.AddFaceTriangle | modelFile.cs:56-59 | Appends exactly one face, whose vertices are the arguments in order; earlier faces are unchanged. |
| ModelFile.SimpleVolume.MinXYZ | modelFile.cs:61-82 | Returns the minimum corner of all vertices of all faces, or the origin for an empty volume (characterised by CornerCharacterised and FacesCorner). |
| ModelFile.SimpleVolume.MaxXYZ | modelFile.cs:84-105 | Returns the maximum corner of all vertices of all faces, or the origin for an empty volume. |
| ModelFile.VolumeCorners | modelFile.cs:138-145 | One corner per volume, in volume order. |
| ModelFile.VolumeCornersAt | modelFile.cs:141 | Entry i is volume i's own `minXYZ`/`maxXYZ` result. |
| ModelFile.ModelCornerOfVolumes | modelFile.cs:131-165 | With no volumes the model's box is the origin. Otherwise, on every axis, it bounds every volume's box and equals one of them, and an empty volume pulls it to 0. |
| ModelFile.SimpleModel.constructor | modelFile.cs:113 | A new model has no volumes. |
| ModelFile.SimpleModel.MinXYZ | modelFile.cs:131-147 | Returns the minimum over the volumes' minimum corners, or the origin when there are no volumes. |
| ModelFile.SimpleModel.MaxXYZ | modelFile.cs:149-165 | Returns the maximum over the volumes' maximum corners, or the origin when there are no volumes. |
| StlText.IsSpace | modelFile.cs:182-186 | The characters the `\s` class of the regular expression matches, which are also the set `String.Trim` removes. |
| StlText.Collapse | modelFile.cs:185 | `Regex("\\s+").Replace(line, " ")`: each maximal run of whitespace becomes one blank. CollapseWords proves it keeps the words of the line (in order and as often as they occur), and CollapseOnlyBlanks and CollapseNoDoubleSpace that a single blank is all that is left between them. |
| StlText.Trim | modelFile.cs:186 | `String.Trim`: leading whitespace, then trailing whitespace, removed. TrimIsSlice characterises it. |
| StlText.SplitOn | modelFile.cs:186 | `Split(' ')` always yields at least one piece; SplitPieces and SplitJoin characterise the pieces. |
| StlText.Join | modelFile.cs:186 | The pieces of a split written back with the separator between them, the inverse SplitJoin proves. |
| StlText.Tokens | modelFile.cs:185-186 | The `parts` of one line: collapse, trim, split on the blank. TokensAreWords proves it equal to the independent reference WordsOf. |
| StlText.LineParts | modelFile.cs:185-186 | One token list per line of the file. |
| StlText.LinePartsAt | modelFile.cs:185-186 | The token list of line i is the tokens of that line alone. |
| StlText.CollapseOnlyBlanks | modelFile.cs:185 | After the `\s+` replacement the only whitespace left is the blank. |
| StlText.CollapseNoDoubleSpace | modelFile.cs:185 | After the replacement no two whitespace characters are adjacent. |
| StlText.CollapseKeepsWords | modelFile.cs:185 | Every non-whitespace character of the line occurs somewhere in the result (order and multiplicity are CollapseWords'). |
| StlText.CollapseAllSpaces | modelFile.cs:185 | A line of whitespace only becomes blanks only. |
| StlText.SkipSpacesIsSuffix | modelFile.cs:186 | Trimming the start leaves a suffix of the input; everything removed is whitespace, and what is left is empty or starts with a non-whitespace character. |
| StlText.TrimEndIsPrefix | modelFile.cs:186 | Trimming the end leaves a prefix of the input; everything removed is whitespace, and what is left is empty or ends with a non-whitespace character. |
| StlText.TrimIsSlice | modelFile.cs:186 | `Trim` gives the contiguous stretch of the input between its leading and its trailing whitespace, both of which it removes entirely; a non-empty result starts and ends with non-whitespace. |
| StlText.SplitPieces | modelFile.cs:186 | No piece of a split contains the separator, and every piece's characters come from the input. |
| StlText.SplitJoin | modelFile.cs:186 | Joining the pieces of `Split(sep)` with `sep` gives back the string: the split loses nothing but the separators. |
| StlText.SplitWords | modelFile.cs:186 | A non-empty string with no separator at either end and none doubled splits into non-empty pieces only. |
| StlText.TokensHaveNoSpaces | modelFile.cs:185-186 | A line always has at least one token, and no token contains whitespace. |
| StlText.TokensCharacterised | modelFile.cs:185-186 | The tokens joined by blanks are the collapsed, trimmed line. A line of whitespace only (the empty line included) gives exactly the one empty token; any other line gives non-empty tokens only. |
| StlText.SplitAtSpaces | modelFile.cs:185-186 | The reference split at every whitespace character, empty pieces kept: at least one piece. |
| StlText.WordsOf | modelFile.cs:185-186 | The reference tokenizer: the non-empty pieces between whitespace characters, in order, with no collapse and no trim. TokensAreWords relates it to `Tokens`. |
| StlText.CollapseWords | modelFile.cs:185 | The replacement keeps the words of a line: the same non-empty pieces between whitespace, in the same order and as often, and the same leading piece. |
| StlText.SkipSpacesWords | modelFile.cs:186 | Trimming the start keeps the words of a line. |
| StlText.TrimEndWords | modelFile.cs:186 | Trimming the end keeps the words of a line. |
| StlText.SplitAtSpacesSnoc | modelFile.cs:186 | A trailing whitespace character adds exactly one empty piece at the end. |
| StlText.SplitOnBlank | modelFile.cs:186 | On text whose only whitespace is the blank, `Split(' ')` splits at every whitespace character. |
| StlText.TokensAreWords | modelFile.cs:185-186 | The `parts` of a line are exactly its whitespace-separated words, in order; a line with no word (empty or whitespace only) gives the single empty token. |
| StlText.TrimWithoutSpaces | modelFile.cs:187 | `Trim` leaves a string without whitespace unchanged. |
| StlText.IsVertexLine | modelFile.cs:187 | The `vertex` test: the line has a first token and it is `vertex` (VertexTestIgnoresTrim shows the source's extra `Trim` changes nothing). |
| StlText.VertexTestIgnoresTrim | modelFile.cs:187 | On every line, `parts[0]` exists, and `parts[0].Trim() == "vertex"` holds exactly when `parts[0] == "vertex"`. |
| StlText.Coordinate | modelFile.cs:189-191 | `Convert.ToDouble(parts[i])`: an index error past the end of the line, a format error on a non-number, an overflow error on a number beyond `double`. VertexPointNeedsThreeCoordinates states its consequences. |
| StlText.ParseVertex | modelFile.cs:189-191 | The x, y and z coordinates read in that order, the first failure escaping. PointsCharacterised and TextDecodeShape state its consequences. |
| StlText.Scale | modelFile.cs:193-194 | `vertex *= 1000.0`: every coordinate multiplied by 1000, x, y and z each on its own. |
| StlText.Transform | modelFile.cs:200-206 | `matrix.apply(vertex)`, the same transform for `v0`, `v1` and `v2`. |
| StlText.VertexPoint | modelFile.cs:189-206 | A `vertex` line's point: parsed, scaled by 1000, then transformed by `matrix`. TextVerticesAppend and TextDecodeShape state where it ends up. |
| StlText.TextVertices | modelFile.cs:183-213 | The points of the line loop in read order, stopping at the first exception. TextVerticesIsPoints relates it to the vertex lines. |
| StlText.VertexLinesAppend | modelFile.cs:183-213 | The vertex lines of two consecutive stretches of a file are those of the first, then those of the second. |
| StlText.TextVerticesIsPoints | modelFile.cs:185-211 | Reading line by line gives the same points (or exception) as reading only the `vertex` lines. |
| StlText.NonVertexLineInert | modelFile.cs:187-211 | Inserting a line whose first token is not `vertex` anywhere in a file changes nothing. |
| StlText.PointsCharacterised | modelFile.cs:189-200 | The vertex lines yield one point per line, in order, exactly when each parses. Otherwise the exception is that of the first line that fails. |
| StlText.PointsAllParse | modelFile.cs:189-200 | The vertex lines yield points exactly when each parses, and then one point per line in order. |
| StlText.PointsFirstFailure | modelFile.cs:189-191 | A failing list of vertex lines throws the exception of its first line that does not parse. |
| StlText.TextVerticesSkip | modelFile.cs:187 | A line that fails the `vertex` test adds no point. |
| StlText.TextVerticesAppend | modelFile.cs:187-200 | A parsed `vertex` line adds its transformed point after those read so far. |
| StlText.TextVerticesErrPersists | modelFile.cs:189-191 | An exception in a prefix of the file is the exception of the whole file. |
| StlText.Group | modelFile.cs:196-209 | The `switch (n)` over all points: consecutive triples become faces, a trailing one or two points none. GroupShape and GroupOfFaces characterise it. |
| StlText.GroupSnoc | modelFile.cs:196-209 | One more point completes a face exactly when two points were waiting. |
| StlText.GroupShape | modelFile.cs:196-209 | There are ⌊n/3⌋ faces, and face k is points 3k, 3k+1, 3k+2 in that order. |
| StlText.GroupDropsRemainder | modelFile.cs:196-215 | A trailing one or two points produce no face. |
| StlText.GroupAppendFace | modelFile.cs:205-208 | Three more points after whole faces make exactly one more face. |
| StlText.GroupOfFaces | modelFile.cs:196-209 | Grouping the vertices of some faces gives back exactly those faces: the fold and the grouping are inverse. |
| StlText.GroupOfVertices | modelFile.cs:196-213 | Grouping the vertices of some faces, plus at most two more points, gives back exactly those faces. |
| StlText.TextDecode | modelFile.cs:167-217 | What `loadModelSTL_ascii` makes of a file: the grouped points, or the exception that escapes. TextDecodeShape characterises it. |
| StlText.TextDecodeShape | modelFile.cs:167-217 | The text decoder never gives "no model". When every vertex line parses, it yields ⌊(vertex lines)/3⌋ faces, face k built from vertex lines 3k, 3k+1 and 3k+2. Otherwise it throws the first failing line's exception. |
| StlText.VertexPointNeedsThreeCoordinates | modelFile.cs:189-191 | A `vertex` line parses only with at least three following tokens. A shorter one throws the index error when the coordinates it has all parse, and otherwise the format or overflow error of one that does not. |
| StlText.TruncatedVertexLineThrows | modelFile.cs:189-191 | A file decodes only if every `vertex` line carries at least three coordinates. |
| StlText.NoVertexLinesNoFaces | modelFile.cs:183-215 | A file without `vertex` lines yields a model with no face. |
| ModelFile.Waiting | modelFile.cs:177-180 | The points waiting in `v0`/`v1` are exactly `n` in number. |
| ModelFile.CountVertex | modelFile.cs:196-210 | The `switch (n)` after `n++`. The points read (whole faces, then waiting ones) gain exactly the new point, and the third point appends the face (v0, v1, p) and resets the count. |
| ModelFile.ReadTextFaces | modelFile.cs:181-213 | The line loop. It throws the exception `TextDecode` names, or leaves the volume holding exactly the grouped points of the file. |
| ModelFile.SimpleModel.LoadModelSTL_ascii | modelFile.cs:167-217 | It never returns `null`. It returns a fresh model with exactly one fresh volume whose faces are `TextDecode`'s, or throws exactly `TextDecode`'s exception. |
| StlBinary.ReadFault | modelFile.cs:232 | The exception `BitConverter` raises for a 4-byte read at a position: out of range at or past the end, an argument error when running past it, none otherwise. VertexAtLayout and BinaryDecodeCharacterised state its consequences. |
| StlBinary.Count | modelFile.cs:232 | On a file of at least 84 bytes, the count `BitConverter.ToUInt32` reads at offset 80 succeeds and is this value. |
| StlBinary.LittleEndian32 | modelFile.cs:232 | The unsigned value of four bytes, least significant first. |
| StlBinary.UInt32At | modelFile.cs:232 | `BitConverter.ToUInt32`: the little-endian count at offset 80, or the read exception. BinaryDecodeAsWrittenCharacterised states the short-file case. |
| StlBinary.Single | modelFile.cs:254-256 | The float `BitConverter.ToSingle` makes of the four bytes at a position inside the file, given in file order. |
| StlBinary.SingleAt | modelFile.cs:254-256 | `BitConverter.ToSingle`: the read exception at or near the end of the file, otherwise the float of the four bytes. VertexAtLayout states its consequences. |
| StlBinary.ScaledPoint | modelFile.cs:253-256 | `new Point3(x * 1000, y * 1000, z * 1000)` from the three floats of one vertex. |
| StlBinary.VertexAt | modelFile.cs:253-256 | One vertex: the floats at o, o+4 and o+8 in that order, each times 1000, the first failing read escaping. VertexAtLayout characterises it. |
| StlBinary.VertexAtLayout | modelFile.cs:253-256 | A vertex read at offset o succeeds exactly when o+12 is within the file, giving the three floats at o, o+4, o+8 each times 1000, with no transform. |
| StlBinary.RecordVertices | modelFile.cs:251-258 | The inner loop reads exactly j vertices when it succeeds. |
| StlBinary.RecordVerticesErrPersists | modelFile.cs:251-258 | An exception among the first j vertices of a record is the exception of the whole inner loop. |
| StlBinary.RecordFace | modelFile.cs:247-261 | The face of record i: its three vertices reversed, or the first failing read's exception. RecordFaceLayout characterises it. |
| StlBinary.RecordFaceLayout | modelFile.cs:247-261 | Record i decodes exactly when its last vertex lies inside the file, to the face (w2, w1, w0) with wj at 84 + 50i + 12 + 12j. |
| StlBinary.Records | modelFile.cs:247-262 | The faces of the first n records in order, or the exception of the first read that fails. RecordsLayout characterises it. |
| StlBinary.RecordsLayout | modelFile.cs:247-262 | The first n records decode exactly when the file reaches the end of record n-1's last vertex, to n faces with face i the reversed record i. |
| StlBinary.RecordsErrPersists | modelFile.cs:247-262 | An exception among the first i records is the exception of the first n. |
| StlBinary.RequiredLengthAsWritten | modelFile.cs:233-237 | `numBytesRequiredForVertexData` as written: 84 + 12·T + 12·T + 2·T, each `uint` product wrapped modulo 2^32. AsWrittenUndercounts and AsWrittenAsksNoMore characterise it. |
| StlBinary.DecodeWith | modelFile.cs:232-262 | The shape both decoders share: read the count, return "no model" when a given length check fails or T < 4, else run the record loop and return its faces or its exception. |
| StlBinary.BinaryDecodeAsWritten | modelFile.cs:232-262 | `loadModelSTL_binary` as written. BinaryDecodeAsWrittenCharacterised characterises it. |
| StlBinary.BinaryDecode | modelFile.cs:232-262 | The same decoder with the check the layout calls for, 84 + 50·T bytes. BinaryDecodeCharacterised characterises it. |
| StlBinary.BinaryDecodeAsWrittenCharacterised | modelFile.cs:219-266 | A file shorter than 84 bytes throws the `BitConverter` exception. Otherwise "no model" exactly when the file is shorter than the wrapped 84 + 26·T or T < 4. Past the check, T faces (face i the reversed record i) exactly when the file has 84 + 50·T − 2 bytes, and a read exception otherwise. |
| StlBinary.BinaryDecodeCharacterised | modelFile.cs:219-266 | Corrected decoder: a file shorter than 84 bytes throws the `BitConverter` exception. Otherwise "no model" exactly when the file has fewer than 84 + 50·T bytes or T < 4, and in every other case T faces, face i the reversed record i. |
| StlBinary.AsWrittenAgreesWhenAccepted | modelFile.cs:232-262 | Wherever the corrected decoder does not give "no model", the code as written gives the same result. |
| StlBinary.AsWrittenAsksNoMore | modelFile.cs:233-238 | For every T the check as written asks for no more bytes than the corrected one. |
| StlBinary.WrapAtMost | modelFile.cs:233-235 | A `uint` wrap of a non-negative product never increases it. |
| StlBinary.AsWrittenUndercounts | modelFile.cs:233-237 | Without wrap-around, the check as written asks for 84 + 26·T bytes. |
| StlBinary.ShortRecordsThrow | modelFile.cs:234 | A 188-byte file with T = 4 passes the check as written and then throws, where the corrected check gives "no model". |
| StlBinary.WrappedCountThrows | modelFile.cs:233-235 | An 84-byte file with T = 2^31 passes the wrapped check as written and then throws, where the corrected check gives "no model". |
| StlBinary.MissingAttributeLoads | modelFile.cs:238-262 | A 282-byte file with T = 4 lacks only the last attribute, which is never read: the code as written loads 4 faces, where the corrected check gives "no model". |
| ModelFile.ReadVertices | modelFile.cs:251-258 | Reads the three vertices of record i, 12 bytes each, into `vector[0..2]`. It answers an exception exactly when `RecordFace(i)` fails, and then that exception; otherwise it ends just after the vertices and `vector` reversed is `RecordFace(i)`. |
| ModelFile.ReadRecords | modelFile.cs:246-262 | The record loop on any file. It answers an exception exactly when `Records(T)` fails, and then the first failing read's exception; otherwise the volume holds exactly the faces of records 0..T-1. |
| ModelFile.SimpleModel.LoadModelSTL_binary | modelFile.cs:219-266 | Returns `null` exactly when `BinaryDecodeAsWritten` gives "no model"; throws exactly its exception; otherwise returns a fresh model with exactly one fresh volume holding its faces. |
| ModelFile.FileDecode | modelFile.cs:268-277 | One load of a file: the text result unless it is a mesh without faces, and then the binary result as written. FileDecodeDispatch characterises it. |
| ModelFile.FileDecodeDispatch | modelFile.cs:268-277 | When every vertex line parses: with three or more vertex lines the text result is kept, and with fewer the binary result as written, `null` included, is returned. A text exception escapes with no binary attempt. |
| ModelFile.SimpleModel.LoadModelFromFile | modelFile.cs:268-277 | Returns exactly what `FileDecode` describes: the text model unless its volume has no face, and then whatever the binary decoder as written returns. |

## Left out

- File I/O is not modelled. Opening and closing the `StreamReader` and `FileStream`, their disposal, and I/O exceptions are absent. The text decoder is given the file's lines and the binary decoder its bytes, and `LoadModelFromFile` takes both forms of the same file.
- Floating point is not modelled. `Convert.ToDouble` (with its format and overflow outcomes), `BitConverter.ToSingle`, the `* 1000`, the float-to-int narrowing in `Point3` and `matrix.apply` are uninterpreted parameters, so nothing is said about rounding, NaN or overflow of the narrowing. Which strings `Convert.ToDouble` rejects, and which it finds out of range, depends on the runtime and the culture, and is left to the parameter.
- Regex internals are not modelled. `\s+` → `" "` is a recursive collapse over the characters .NET's `\s` matches, and `String.Trim` uses the same set.
- ModelFile.ReadTextFaces: all lines are tokenised up front (`LineParts`) instead of one by one, and the `vertex` test is `parts[0] == "vertex"`. VertexTestIgnoresTrim proves that the source's `parts[0].Trim()` gives the same answer.
- ModelFile.CountVertex, ModelFile.ReadTextFaces, ModelFile.ReadRecords and ModelFile.ReadVertices are the bodies of loops inside the two loaders, given as methods of their own. Their order of effects is the source's.
- `Point3` is taken to be a value type, so `ret` and the points are copied, never aliased.
- The `SimpleFace` constructor is the `SimpleFace` datatype: its `v` array is never written after construction in these files, so face `v[k]` is `V(k)`.
- The unused static `binaryMeshBlob` is not part of this model.
- `main.cs` (command-line handling) and `logoutput.cs` (console logging) are not part of this model.
- StlBinary.LittleEndian32: `BitConverter.ToUInt32` and `BitConverter.ToSingle` read in the host's byte order (`BitConverter.IsLittleEndian`). The model fixes little-endian, the order the STL format calls for and the one usual .NET hosts use; on a big-endian host the count and the floats would be read byte-reversed.
- The 32-bit `uint` products of the length check are modelled as written, modulo 2^32 (`RequiredLengthAsWritten`), not by bounding T. The loop index `i` of the record loop is an `int` compared with a `uint`; the model takes it as unbounded, which matters only for counts of 2^31 or more. A .NET byte array holds fewer than 2^31 bytes, so for such counts a read throws long before `i` could reach 2^31; the model does not bound the length of `bytes`.
- The loaders follow the code as written. `BinaryDecode` is the corrected decoder the Findings call for; it is not used by any loader, and AsWrittenAgreesWhenAccepted, ShortRecordsThrow, WrappedCountThrows and MissingAttributeLoads relate the two.
- The `matrix` parameter of `LoadModelSTL_binary` is accepted and never applied, as in the source.
- Concurrency is not modelled: a volume is never shared between threads in these files.

## Findings

| source | as written | input that shows it | evidently intended | confidence | as-written member | corrected member |
|---|---|---|---|---|---|---|
| modelFile.cs:234 | `bytesForVertices = numTriangles * 3 * 4`, so the check accepts any file of at least 84 + 26·T bytes, though each record holds 36 bytes of vertices | a 188-byte file whose count field is 4: it passes the check, then the reads run past the end and `BitConverter` throws | `numTriangles * 3 * 3 * 4`, a check for 84 + 50·T bytes, returning `null` for a short file | not executed | StlBinary.ShortRecordsThrow | StlBinary.BinaryDecodeCharacterised |
| modelFile.cs:233-235 | the three products are `uint` arithmetic and wrap modulo 2^32 before being widened to `long` | an 84-byte file whose count field is 2^31: every product wraps to 0, the check passes, and the first read throws | the products computed in `long`, so a short file returns `null` | not executed | StlBinary.WrappedCountThrows | StlBinary.BinaryDecodeCharacterised |

The corrected check is also stricter than the reads need: a file lacking only the last record's two attribute bytes loads under the code as written and gives "no model" under the corrected one (MissingAttributeLoads).

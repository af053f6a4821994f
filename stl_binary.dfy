/**
 * The binary STL format: what `loadModelSTL_binary` makes of the bytes of a file.
 * Layout: an 80-byte header, a little-endian `uint32` triangle count T at offset 80,
 * then T records of 50 bytes: a normal (12 bytes, skipped), three vertices of three
 * 4-byte floats each, and a 2-byte attribute (skipped).
 */
module StlBinary {
  import opened Wrappers
  import opened Geometry

  /**
   * The floating-point operations the binary decoder uses, left uninterpreted:
   * `BitConverter.ToSingle` on four bytes (in file order), the multiplication of a `float` by 1000,
   * and the `Point3` constructor that narrows three `float`s to integers.
   */
  datatype BinaryNumerics<!S> = BinaryNumerics(toSingle: (bv8, bv8, bv8, bv8) -> S, times1000: S -> S, toPoint: (S, S, S) -> Point3)

  const HeaderSize := 80
  const CountOffset := HeaderSize
  const RecordsOffset := CountOffset + 4
  const RecordSize := 50
  const NormalSize := 12
  const VertexSize := 12
  const U32 := 0x1_0000_0000

  /**
   * The exception `BitConverter` raises when reading 4 bytes at `pos` of an array of
   * `len` bytes: starting at or past the end, or running past it.
   */
  function ReadFault(len: nat, pos: nat): Option<Exception> {
    if pos > len - 1 then Some(ArgumentOutOfRange)
    else if pos > len - 4 then Some(ArgumentError)
    else None
  }

  /** The little-endian unsigned value of four bytes. */
  function LittleEndian32(b: seq<bv8>): nat
    requires |b| == 4
  {
    b[0] as nat + 0x100 * b[1] as nat + 0x1_0000 * b[2] as nat + 0x100_0000 * b[3] as nat
  }

  /** `BitConverter.ToUInt32(bytes, pos)`. */
  function UInt32At(bytes: seq<bv8>, pos: nat): Result<nat> {
    match ReadFault(|bytes|, pos)
    case Some(e) => Err(e)
    case None => Ok(LittleEndian32(bytes[pos..pos + 4]))
  }

  /** The float stored in the four bytes at `pos`. */
  function Single<S>(bytes: seq<bv8>, pos: nat, nums: BinaryNumerics<S>): S
    requires pos + 4 <= |bytes|
  {
    nums.toSingle(bytes[pos], bytes[pos + 1], bytes[pos + 2], bytes[pos + 3])
  }

  /** `BitConverter.ToSingle(bytes, pos)`. */
  function SingleAt<S>(bytes: seq<bv8>, pos: nat, nums: BinaryNumerics<S>): Result<S> {
    match ReadFault(|bytes|, pos)
    case Some(e) => Err(e)
    case None => Ok(Single(bytes, pos, nums))
  }

  /** One vertex: its x, y and z floats read in that order from `pos`, each times 1000, no transform. */
  function VertexAt<S>(bytes: seq<bv8>, pos: nat, nums: BinaryNumerics<S>): Result<Point3> {
    match SingleAt(bytes, pos, nums)
    case Err(e) => Err(e)
    case Ok(x) =>
      match SingleAt(bytes, pos + 4, nums)
      case Err(e) => Err(e)
      case Ok(y) =>
        match SingleAt(bytes, pos + 8, nums)
        case Err(e) => Err(e)
        case Ok(z) => Ok(ScaledPoint(x, y, z, nums))
  }

  /** The first `j` vertices of the record whose vertex data starts at `base`. */
  function RecordVertices<S>(bytes: seq<bv8>, base: nat, j: nat, nums: BinaryNumerics<S>): (r: Result<seq<Point3>>)
    ensures r.Ok? ==> |r.value| == j
  {
    if j == 0 then Ok([])
    else match RecordVertices(bytes, base, j - 1, nums)
      case Err(e) => Err(e)
      case Ok(ws) =>
        match VertexAt(bytes, base + VertexSize * (j - 1), nums)
        case Err(e) => Err(e)
        case Ok(w) => Ok(ws + [w])
  }

  /** An exception among the first `j` vertices of a record is the exception of the first `n`. */
  lemma {:induction false} RecordVerticesErrPersists<S>(bytes: seq<bv8>, base: nat, j: nat, n: nat, nums: BinaryNumerics<S>)
    requires j <= n && RecordVertices(bytes, base, j, nums).Err?
    ensures RecordVertices(bytes, base, n, nums) == RecordVertices(bytes, base, j, nums)
    decreases n - j
  {
    if j < n {
      RecordVerticesErrPersists(bytes, base, j, n - 1, nums);
    }
  }

  /** The face of record `i`, its three vertices in reversed order. */
  function RecordFace<S>(bytes: seq<bv8>, i: nat, nums: BinaryNumerics<S>): Result<SimpleFace> {
    match RecordVertices(bytes, RecordsOffset + RecordSize * i + NormalSize, 3, nums)
    case Err(e) => Err(e)
    case Ok(ws) => Ok(SimpleFace(ws[2], ws[1], ws[0]))
  }

  /** The faces of the first `n` records, or the exception of the first read that fails. */
  function Records<S>(bytes: seq<bv8>, n: nat, nums: BinaryNumerics<S>): Result<seq<SimpleFace>> {
    if n == 0 then Ok([])
    else match Records(bytes, n - 1, nums)
      case Err(e) => Err(e)
      case Ok(fs) =>
        match RecordFace(bytes, n - 1, nums)
        case Err(e) => Err(e)
        case Ok(f) => Ok(fs + [f])
  }

  function Wrap32(n: int): int {
    n % U32
  }

  /**
   * `numBytesRequiredForVertexData` for a count `t`, as written: the three products are
   * `uint` arithmetic, so each wraps modulo 2^32 before the sum is widened to `long`, and
   * the vertex data is counted as `t * 3 * 4` bytes although each record holds 36.
   */
  function RequiredLengthAsWritten(t: nat): int {
    var bytesForNormals := Wrap32(Wrap32(t * 3) * 4);
    var bytesForVertices := Wrap32(Wrap32(t * 3) * 4);
    var bytesForAttributes := Wrap32(t * 2);
    RecordsOffset + bytesForNormals + bytesForVertices + bytesForAttributes
  }

  /** The length a file with `t` records needs: header, count and `t` records of 50 bytes. */
  function RequiredLength(t: nat): int {
    RecordsOffset + RecordSize * t
  }

  /** The decoder around a given length check `required`. */
  function DecodeWith<S>(bytes: seq<bv8>, nums: BinaryNumerics<S>, required: nat -> int): Decoded {
    match UInt32At(bytes, CountOffset)
    case Err(e) => Thrown(e)
    case Ok(t) =>
      if |bytes| < required(t) || t < 4 then NoModel
      else match Records(bytes, t, nums)
        case Err(e) => Thrown(e)
        case Ok(fs) => Mesh(fs)
  }

  /** `loadModelSTL_binary` as written (the transform plays no part). */
  function BinaryDecodeAsWritten<S>(bytes: seq<bv8>, nums: BinaryNumerics<S>): Decoded {
    DecodeWith(bytes, nums, RequiredLengthAsWritten)
  }

  /** `loadModelSTL_binary` with the length check the layout calls for. */
  function BinaryDecode<S>(bytes: seq<bv8>, nums: BinaryNumerics<S>): Decoded {
    DecodeWith(bytes, nums, RequiredLength)
  }

  // ---------------------------------------------------------------------------
  // The layout, stated with explicit offsets.

  /** Offset of the first float of vertex `j` of record `i`. */
  function VertexOffset(i: nat, j: nat): nat {
    RecordsOffset + RecordSize * i + NormalSize + VertexSize * j
  }

  /** `new Point3(x * 1000, y * 1000, z * 1000)` on three floats. */
  function ScaledPoint<S>(x: S, y: S, z: S, nums: BinaryNumerics<S>): Point3 {
    nums.toPoint(nums.times1000(x), nums.times1000(y), nums.times1000(z))
  }

  /** The vertex stored at `o`: three floats at o, o+4, o+8, each times 1000. */
  function StoredVertex<S>(bytes: seq<bv8>, o: nat, nums: BinaryNumerics<S>): Point3
    requires o + 12 <= |bytes|
  {
    ScaledPoint(Single(bytes, o, nums), Single(bytes, o + 4, nums), Single(bytes, o + 8, nums), nums)
  }

  /** Record `i` as a face: vertex 2, then vertex 1, then vertex 0. */
  function LayoutFace<S>(bytes: seq<bv8>, i: nat, nums: BinaryNumerics<S>): SimpleFace
    requires VertexOffset(i, 2) + 12 <= |bytes|
  {
    SimpleFace(StoredVertex(bytes, VertexOffset(i, 2), nums),
               StoredVertex(bytes, VertexOffset(i, 1), nums),
               StoredVertex(bytes, VertexOffset(i, 0), nums))
  }

  lemma VertexAtLayout<S>(bytes: seq<bv8>, o: nat, nums: BinaryNumerics<S>)
    ensures o + 12 <= |bytes| ==> VertexAt(bytes, o, nums) == Ok(StoredVertex(bytes, o, nums))
    ensures o + 12 > |bytes| ==> VertexAt(bytes, o, nums).Err?
  {
  }

  /** Record `i` decodes, to the reversed face, exactly when its last vertex lies inside the file. */
  lemma RecordFaceLayout<S>(bytes: seq<bv8>, i: nat, nums: BinaryNumerics<S>)
    ensures VertexOffset(i, 2) + 12 <= |bytes| ==> RecordFace(bytes, i, nums) == Ok(LayoutFace(bytes, i, nums))
    ensures VertexOffset(i, 2) + 12 > |bytes| ==> RecordFace(bytes, i, nums).Err?
  {
    var base := VertexOffset(i, 0);
    VertexAtLayout(bytes, base + 24, nums);
    if VertexOffset(i, 2) + 12 <= |bytes| {
      VertexAtLayout(bytes, base, nums);
      VertexAtLayout(bytes, base + 12, nums);
      var w0, w1, w2 := StoredVertex(bytes, base, nums), StoredVertex(bytes, base + 12, nums), StoredVertex(bytes, base + 24, nums);
      assert RecordVertices(bytes, base, 0, nums) == Ok([]);
      assert VertexAt(bytes, base + VertexSize * 0, nums) == Ok(w0);
      assert RecordVertices(bytes, base, 1, nums) == Ok([] + [w0]);
      assert [] + [w0] == [w0];
      assert VertexAt(bytes, base + VertexSize * 1, nums) == Ok(w1);
      assert RecordVertices(bytes, base, 2, nums) == Ok([w0] + [w1]);
      assert [w0] + [w1] == [w0, w1];
      assert VertexAt(bytes, base + VertexSize * 2, nums) == Ok(w2);
      assert RecordVertices(bytes, base, 3, nums) == Ok([w0, w1] + [w2]);
    }
  }

  /**
   * The first `n` records decode to `n` faces, face i being record i reversed, exactly when
   * the file reaches the end of the last vertex of record n-1 (84 + 50n - 2 bytes).
   */
  lemma {:induction false} RecordsLayout<S>(bytes: seq<bv8>, n: nat, nums: BinaryNumerics<S>)
    ensures Records(bytes, n, nums).Ok? <==> n == 0 || RecordsOffset + RecordSize * n - 2 <= |bytes|
    ensures Records(bytes, n, nums).Ok? ==>
      var fs := Records(bytes, n, nums).value;
      |fs| == n && forall i | 0 <= i < n :: fs[i] == LayoutFace(bytes, i, nums)
  {
    if n > 0 {
      RecordsLayout(bytes, n - 1, nums);
      RecordFaceLayout(bytes, n - 1, nums);
    }
  }

  /**
   * The count field of a file long enough to hold it: the value `UInt32At` reads at
   * offset 80, in a total form that contracts over such files can name directly.
   */
  function Count(bytes: seq<bv8>): (t: nat)
    requires |bytes| >= RecordsOffset
    ensures UInt32At(bytes, CountOffset) == Ok(t)
  {
    LittleEndian32(bytes[CountOffset..CountOffset + 4])
  }

  /**
   * A file shorter than 84 bytes throws (reading the count) instead of giving "no model".
   * Otherwise the result is "no model" exactly when the file is shorter than 84 + 50·T or
   * T < 4, and a mesh of T faces, face i being record i with its vertices reversed, in every
   * other case; no exception escapes.
   */
  lemma BinaryDecodeCharacterised<S>(bytes: seq<bv8>, nums: BinaryNumerics<S>)
    ensures |bytes| < RecordsOffset ==>
      BinaryDecode(bytes, nums) == Thrown(if |bytes| <= CountOffset then ArgumentOutOfRange else ArgumentError)
    ensures |bytes| >= RecordsOffset ==>
      (BinaryDecode(bytes, nums) == NoModel <==> |bytes| < RecordsOffset + RecordSize * Count(bytes) || Count(bytes) < 4) &&
      (BinaryDecode(bytes, nums).Mesh? <==> |bytes| >= RecordsOffset + RecordSize * Count(bytes) && Count(bytes) >= 4)
    ensures BinaryDecode(bytes, nums).Mesh? ==>
      var fs := BinaryDecode(bytes, nums).faces;
      |bytes| >= RecordsOffset + RecordSize * Count(bytes) && Count(bytes) >= 4 && |fs| == Count(bytes) &&
      forall i | 0 <= i < |fs| :: fs[i] == LayoutFace(bytes, i, nums)
  {
    if |bytes| >= RecordsOffset {
      RecordsLayout(bytes, Count(bytes), nums);
    }
  }

  /**
   * The decoder as written: a file shorter than 84 bytes throws as with the corrected check.
   * Otherwise the result is "no model" exactly when the file is shorter than the wrapped
   * 84 + 12·T + 12·T + 2·T or T < 4.  Past that check it is a mesh of T faces, face i being
   * record i with its vertices reversed, exactly when the file reaches the end of the last
   * vertex (84 + 50·T - 2 bytes), and a read exception otherwise.
   */
  lemma BinaryDecodeAsWrittenCharacterised<S>(bytes: seq<bv8>, nums: BinaryNumerics<S>)
    ensures |bytes| < RecordsOffset ==>
      BinaryDecodeAsWritten(bytes, nums) == Thrown(if |bytes| <= CountOffset then ArgumentOutOfRange else ArgumentError)
    ensures |bytes| >= RecordsOffset ==>
      (BinaryDecodeAsWritten(bytes, nums) == NoModel <==>
         |bytes| < RequiredLengthAsWritten(Count(bytes)) || Count(bytes) < 4) &&
      (BinaryDecodeAsWritten(bytes, nums).Mesh? <==>
         |bytes| >= RequiredLengthAsWritten(Count(bytes)) && Count(bytes) >= 4 &&
         |bytes| >= RecordsOffset + RecordSize * Count(bytes) - 2)
    ensures BinaryDecodeAsWritten(bytes, nums).Mesh? ==>
      var fs := BinaryDecodeAsWritten(bytes, nums).faces;
      |fs| == Count(bytes) && forall i | 0 <= i < |fs| :: fs[i] == LayoutFace(bytes, i, nums)
  {
    if |bytes| >= RecordsOffset {
      RecordsLayout(bytes, Count(bytes), nums);
    }
  }

  /** Where the corrected check accepts or the count field is missing, the code as written agrees with it. */
  lemma AsWrittenAgreesWhenAccepted<S>(bytes: seq<bv8>, nums: BinaryNumerics<S>)
    requires BinaryDecode(bytes, nums) != NoModel
    ensures BinaryDecodeAsWritten(bytes, nums) == BinaryDecode(bytes, nums)
  {
    if |bytes| >= RecordsOffset {
      AsWrittenAsksNoMore(Count(bytes));
    }
  }

  /** The check as written never asks for more bytes than the corrected one. */
  lemma AsWrittenAsksNoMore(t: nat)
    ensures RequiredLengthAsWritten(t) <= RequiredLength(t)
  {
    WrapAtMost(t * 3);
    WrapAtMost(Wrap32(t * 3) * 4);
    WrapAtMost(t * 2);
  }

  lemma WrapAtMost(n: nat)
    ensures 0 <= Wrap32(n) <= n
  {
  }

  /** Without wrap-around the check as written asks for 84 + 26·T bytes, not 84 + 50·T. */
  lemma AsWrittenUndercounts(t: nat)
    requires 12 * t < U32
    ensures RequiredLengthAsWritten(t) == RecordsOffset + 26 * t
  {
    assert Wrap32(t * 3) == t * 3;
    assert Wrap32(t * 3) * 4 == 12 * t;
    assert Wrap32(12 * t) == 12 * t;
    assert Wrap32(t * 2) == 2 * t;
  }

  /**
   * A 188-byte file declaring 4 triangles passes the check as written (84 + 26·4 = 188) though
   * the records need 284 bytes: the decoder then reads past the end and throws, where the
   * corrected check gives "no model".
   */
  lemma ShortRecordsThrow<S>(nums: BinaryNumerics<S>)
    ensures BinaryDecodeAsWritten(seq(80, _ => 0 as bv8) + [4, 0, 0, 0] + seq(104, _ => 0 as bv8), nums).Thrown?
    ensures BinaryDecode(seq(80, _ => 0 as bv8) + [4, 0, 0, 0] + seq(104, _ => 0 as bv8), nums) == NoModel
  {
    var bytes: seq<bv8> := seq(80, _ => 0 as bv8) + [4, 0, 0, 0] + seq(104, _ => 0 as bv8);
    assert bytes[CountOffset..CountOffset + 4] == [4, 0, 0, 0];
    assert UInt32At(bytes, CountOffset) == Ok(4);
    AsWrittenUndercounts(4);
    RecordsLayout(bytes, 4, nums);
  }

  /**
   * With the count 2^31 every wrapped product is 0, so an 84-byte file passes the check as
   * written; the decoder then reads past the end and throws, where the corrected check gives
   * "no model".
   */
  lemma WrappedCountThrows<S>(nums: BinaryNumerics<S>)
    ensures BinaryDecodeAsWritten(seq(80, _ => 0 as bv8) + [0, 0, 0, 0x80], nums).Thrown?
    ensures BinaryDecode(seq(80, _ => 0 as bv8) + [0, 0, 0, 0x80], nums) == NoModel
  {
    var bytes: seq<bv8> := seq(80, _ => 0 as bv8) + [0, 0, 0, 0x80];
    assert bytes[CountOffset..CountOffset + 4] == [0, 0, 0, 0x80];
    assert UInt32At(bytes, CountOffset) == Ok(0x8000_0000);
    assert RequiredLengthAsWritten(0x8000_0000) == RecordsOffset;
    RecordsLayout(bytes, 1, nums);
    RecordsErrPersists(bytes, 1, 0x8000_0000, nums);
  }

  /**
   * A 282-byte file declaring 4 triangles lacks only the last record's attribute, which is
   * never read: the code as written loads its 4 faces, where the corrected check gives
   * "no model".
   */
  lemma MissingAttributeLoads<S>(nums: BinaryNumerics<S>)
    ensures BinaryDecodeAsWritten(seq(80, _ => 0 as bv8) + [4, 0, 0, 0] + seq(198, _ => 0 as bv8), nums).Mesh?
    ensures |BinaryDecodeAsWritten(seq(80, _ => 0 as bv8) + [4, 0, 0, 0] + seq(198, _ => 0 as bv8), nums).faces| == 4
    ensures BinaryDecode(seq(80, _ => 0 as bv8) + [4, 0, 0, 0] + seq(198, _ => 0 as bv8), nums) == NoModel
  {
    var bytes: seq<bv8> := seq(80, _ => 0 as bv8) + [4, 0, 0, 0] + seq(198, _ => 0 as bv8);
    assert bytes[CountOffset..CountOffset + 4] == [4, 0, 0, 0];
    assert UInt32At(bytes, CountOffset) == Ok(4);
    AsWrittenUndercounts(4);
    RecordsLayout(bytes, 4, nums);
  }

  /** An exception among the first `i` records is the exception of the first `n`. */
  lemma {:induction false} RecordsErrPersists<S>(bytes: seq<bv8>, i: nat, n: nat, nums: BinaryNumerics<S>)
    requires i <= n && Records(bytes, i, nums).Err?
    ensures Records(bytes, n, nums) == Records(bytes, i, nums)
    decreases n - i
  {
    if i < n {
      RecordsErrPersists(bytes, i, n - 1, nums);
    }
  }
}

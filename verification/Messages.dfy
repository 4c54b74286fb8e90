/**
 * The messages the server builds and the checks the client makes, on the bytes of
 * the packed metadata structs (little-endian).
 */
module Messages {
  import opened Prelude
  import opened FramedPipe

  const MAGIC := 0x564F584C
  const CAM_META_LEN := 40
  const POINT_META_LEN := 60

  function U16(b: seq<Byte>, at: nat): nat
    requires at + 2 <= |b|
  {
    (b[at] as int) + 0x100 * (b[at + 1] as int)
  }

  function U32(b: seq<Byte>, at: nat): nat
    requires at + 4 <= |b|
  {
    U16(b, at) + 0x1_0000 * U16(b, at + 2)
  }

  /** Two's complement reading of a number of `range` values. */
  function Signed(v: nat, range: nat): int {
    if v < range / 2 then v else v - range
  }

  function I16(b: seq<Byte>, at: nat): int
    requires at + 2 <= |b|
  {
    Signed(U16(b, at), 0x1_0000)
  }

  function I32(b: seq<Byte>, at: nat): int
    requires at + 4 <= |b|
  {
    Signed(U32(b, at), 0x1_0000_0000)
  }

  /** The server sets the magic number itself. */
  function WithMagic(meta: seq<Byte>): (r: seq<Byte>)
    requires |meta| >= 4
    ensures |r| == |meta|
  {
    [0x4C, 0x58, 0x4F, 0x56] + meta[4..]
  }

  // ---------------------------------------------------------------------------
  // Camera frames

  predicate CameraSizeOk(meta: seq<Byte>)
    requires |meta| == CAM_META_LEN
  {
    I32(meta, 20) <= I16(meta, 16) * I16(meta, 18) * 10
  }

  function CheckCamMeta(meta: seq<Byte>): Option<int> {
    if |meta| != CAM_META_LEN || U32(meta, 0) != MAGIC || !CameraSizeOk(meta) then None
    else Some(I32(meta, 20))
  }

  const CAMERA_PROTO := Proto(CAM_META_LEN, CheckCamMeta)

  /** A frame in one buffer, for every format that is not encoded. */
  function CameraMessage(meta: seq<Byte>, data: seq<Byte>): Option<Msg>
    requires |meta| == CAM_META_LEN && I32(meta, 20) <= |data|
  {
    if I32(meta, 20) <= 0 then None
    else Some(Msg(WithMagic(meta), [data[..I32(meta, 20)]]))
  }

  /** A frame in a left and a right half. */
  function StereoMessage(meta: seq<Byte>, left: seq<Byte>, right: seq<Byte>): Option<Msg>
    requires |meta| == CAM_META_LEN && I32(meta, 20) / 2 <= |left| && I32(meta, 20) / 2 <= |right|
  {
    var size := I32(meta, 20);
    if size <= 0 || size % 2 != 0 then None
    else Some(Msg(WithMagic(meta), [left[..size / 2], right[..size / 2]]))
  }

  /** Writing the magic number disturbs no other field. */
  lemma MagicKeepsFields(meta: seq<Byte>)
    requires |meta| >= 4
    ensures U32(WithMagic(meta), 0) == MAGIC
    ensures forall at :: 4 <= at && at + 2 <= |meta| ==> U16(WithMagic(meta), at) == U16(meta, at)
  {
  }

  lemma FlattenTwo(a: seq<Byte>, b: seq<Byte>)
    ensures Flatten([a]) == a
    ensures Flatten([a, b]) == a + b
  {
    assert [a, b][1..] == [b];
    assert [a][1..] == [] && [b][1..] == [];
  }

  /**
   * Every camera frame of a positive size is sent, as its metadata and its data. The client
   * can frame it exactly when its size is at most ten bytes a pixel, whatever magic number
   * the caller passed.
   */
  lemma CameraMessageSoundExactly(meta: seq<Byte>, data: seq<Byte>)
    requires |meta| == CAM_META_LEN && I32(meta, 20) <= |data|
    ensures CameraMessage(meta, data).Some? <==> I32(meta, 20) > 0
    ensures CameraMessage(meta, data).Some? ==>
              var m := CameraMessage(meta, data).value;
              && (Sound(CAMERA_PROTO, m) <==> I32(meta, 20) <= I16(meta, 16) * I16(meta, 18) * 10)
              && m.meta[4..] == meta[4..] && Payload(m) == data[..I32(meta, 20)]
  {
    MagicKeepsFields(meta);
    if I32(meta, 20) > 0 {
      FlattenTwo(data[..I32(meta, 20)], []);
    }
  }

  /** The same of stereo frames, whose size must also be even, and whose data are the two halves. */
  lemma StereoMessageSoundExactly(meta: seq<Byte>, left: seq<Byte>, right: seq<Byte>)
    requires |meta| == CAM_META_LEN && I32(meta, 20) / 2 <= |left| && I32(meta, 20) / 2 <= |right|
    ensures StereoMessage(meta, left, right).Some? <==> I32(meta, 20) > 0 && I32(meta, 20) % 2 == 0
    ensures StereoMessage(meta, left, right).Some? ==>
              var m, half := StereoMessage(meta, left, right).value, I32(meta, 20) / 2;
              && (Sound(CAMERA_PROTO, m) <==> I32(meta, 20) <= I16(meta, 16) * I16(meta, 18) * 10)
              && m.meta[4..] == meta[4..] && Payload(m) == left[..half] + right[..half]
  {
    MagicKeepsFields(meta);
    if StereoMessage(meta, left, right).Some? {
      FlattenTwo(left[..I32(meta, 20) / 2], right[..I32(meta, 20) / 2]);
    }
  }

  // ---------------------------------------------------------------------------
  // Point clouds

  /** Bytes per point of the known formats. */
  function PointSize(format: nat): Option<nat> {
    match format
    case 0 => Some(12)
    case 1 => Some(16)
    case 2 => Some(15)
    case 3 => Some(19)
    case 4 => Some(8)
    case 5 => Some(12)
    case _ => None
  }

  /**
   * The size computation with the widths of its operands: the count of floats
   * wraps at 32 bits, the byte count at 64, and the result is cut to an int.
   */
  function PointCloudSize(format: nat, n: nat): int
    requires n < 0x1_0000_0000
  {
    var floats := match format
      case 0 => Some(3)
      case 1 => Some(4)
      case 4 => Some(2)
      case 5 => Some(3)
      case _ => None;
    if floats.Some? then Signed(n * floats.value % 0x1_0000_0000 * 4 % 0x1_0000_0000, 0x1_0000_0000)
    else if format == 2 then Signed(n * 15 % 0x1_0000_0000, 0x1_0000_0000)
    else if format == 3 then Signed(n * 19 % 0x1_0000_0000, 0x1_0000_0000)
    else -1
  }

  lemma WrapOnce(a: nat)
    ensures a % 0x1_0000_0000 * 4 % 0x1_0000_0000 == a * 4 % 0x1_0000_0000
  {
    var q := a / 0x1_0000_0000;
    assert a == q * 0x1_0000_0000 + a % 0x1_0000_0000;
  }

  lemma WrapTwice(n: nat, floats: nat)
    ensures n * floats % 0x1_0000_0000 * 4 % 0x1_0000_0000 == n * floats * 4 % 0x1_0000_0000
  {
    WrapOnce(n * floats);
  }

  /** The size is points times bytes per point exactly when that product fits an int. */
  lemma PointCloudSizeExactly(format: nat, n: nat)
    requires n < 0x1_0000_0000 && PointSize(format).Some?
    ensures PointCloudSize(format, n) == n * PointSize(format).value <==> n * PointSize(format).value < 0x8000_0000
  {
    var size := n * PointSize(format).value;
    if format == 0 || format == 5 {
      WrapTwice(n, 3);
    } else if format == 1 {
      WrapTwice(n, 4);
    } else if format == 4 {
      WrapTwice(n, 2);
    }
    assert PointCloudSize(format, n) == Signed(size % 0x1_0000_0000, 0x1_0000_0000);
  }

  function MetaCloudSize(meta: seq<Byte>): int
    requires |meta| == POINT_META_LEN
  {
    PointCloudSize(U32(meta, 16), U32(meta, 12))
  }

  function CheckPointMeta(meta: seq<Byte>): Option<int> {
    if |meta| != POINT_META_LEN || U32(meta, 0) != MAGIC || MetaCloudSize(meta) < 0 then None
    else Some(MetaCloudSize(meta))
  }

  const POINT_PROTO := Proto(POINT_META_LEN, CheckPointMeta)

  /** A size below 1 is turned down, by the function itself or by the list write. */
  function PointCloudMessage(meta: seq<Byte>, data: seq<Byte>): Option<Msg>
    requires |meta| == POINT_META_LEN && MetaCloudSize(meta) <= |data|
  {
    if MetaCloudSize(meta) < 1 then None
    else Some(Msg(WithMagic(meta), [data[..MetaCloudSize(meta)]]))
  }

  /** Both ends compute the same size, so every point cloud the server sends can be framed. */
  lemma PointCloudMessageSound(meta: seq<Byte>, data: seq<Byte>)
    requires |meta| == POINT_META_LEN && MetaCloudSize(meta) <= |data|
    ensures PointCloudMessage(meta, data).Some? <==> MetaCloudSize(meta) > 0
    ensures PointCloudMessage(meta, data).Some? ==>
              var m := PointCloudMessage(meta, data).value;
              Sound(POINT_PROTO, m) && m.meta[4..] == meta[4..] && Payload(m) == data[..MetaCloudSize(meta)]
  {
    MagicKeepsFields(meta);
    if MetaCloudSize(meta) > 0 {
      FlattenTwo(data[..MetaCloudSize(meta)], []);
    }
  }
}

/**
 * The 64-bit Mach-O header (`mach_header_64`, 32 bytes) and the dumper's
 * header check. Fields are read little-endian, as the host reads them; no
 * byte swapping is done even when the magic is the swapped constant.
 */
module MachHeader {
  import opened Wrappers
  import opened Bytes

  const MH_MAGIC_64: nat := 0xfeedfacf
  const MH_CIGAM_64: nat := 0xcffaedfe

  /** sizeof(mach_header_64): the first load command starts here. */
  const HeaderSize: nat := 32
  /** Offset of `magic` and of `ncmds` in `mach_header_64`. */
  const MagicField: nat := 0
  const NcmdsField: nat := 16

  /** The four bytes of a 32-bit little-endian field determine its value and back. */
  lemma MagicBytes(b: seq<Byte>)
    requires |b| == 4
    ensures LittleEndian(b) == MH_MAGIC_64 <==> b == [0xcf, 0xfa, 0xed, 0xfe]
    ensures LittleEndian(b) == MH_CIGAM_64 <==> b == [0xfe, 0xed, 0xfa, 0xcf]
  {
    EncodeDecode(b);
    DecodeEncode(MH_MAGIC_64, 4);
    DecodeEncode(MH_CIGAM_64, 4);
    assert EncodeLE(MH_MAGIC_64, 4) == [0xcf, 0xfa, 0xed, 0xfe];
    assert EncodeLE(MH_CIGAM_64, 4) == [0xfe, 0xed, 0xfa, 0xcf];
  }

  /**
   * Accepts the image at `base` (None standing for a null pointer) when its
   * magic is the native or the byte-swapped 64-bit constant. Only the magic is
   * inspected; the source dereferences the header, so a non-null base must
   * hold at least the four magic bytes.
   */
  function ValidateHeaders(base: Option<seq<Byte>>): (ok: bool)
    requires base.Some? ==> |base.value| >= 4
    ensures base.None? ==> !ok
    ensures base.Some? ==>
      (ok <==> base.value[..4] == [0xcf, 0xfa, 0xed, 0xfe] || base.value[..4] == [0xfe, 0xed, 0xfa, 0xcf])
  {
    match base
    case None => false
    case Some(image) =>
      var magic := FieldAt(image, MagicField, 4);
      MagicBytes(image[..4]);
      magic == MH_MAGIC_64 || magic == MH_CIGAM_64
  }
}

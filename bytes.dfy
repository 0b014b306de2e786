/**
 * The mapped library image as a byte sequence, and the bounds-checked
 * primitive reads that stand for the raw pointer dereferences of the dumper:
 * little-endian unsigned integers and NUL-terminated C strings.
 */
module Bytes {
  import opened Wrappers

  type Byte = b: int | 0 <= b < 256

  /** A read of `width` bytes at `offset` that would leave the image. */
  datatype Malformed = Malformed(offset: nat, width: nat)

  /** The failing read lies, at least partly, outside an image of `size` bytes. */
  predicate Outside(e: Malformed, size: nat) {
    e.offset + e.width > size
  }

  function Pow256(n: nat): (p: nat)
    ensures p >= 1
  {
    if n == 0 then 1 else 256 * Pow256(n - 1)
  }

  /** The unsigned number whose little-endian representation is `bs`. */
  function LittleEndian(bs: seq<Byte>): (v: nat)
    ensures v < Pow256(|bs|)
  {
    if bs == [] then 0 else bs[0] + 256 * LittleEndian(bs[1..])
  }

  /** The `width`-byte little-endian representation of `v` (truncated to `width` bytes). */
  function EncodeLE(v: nat, width: nat): (bs: seq<Byte>)
    ensures |bs| == width
  {
    if width == 0 then [] else [v % 256] + EncodeLE(v / 256, width - 1)
  }

  lemma {:induction false} DecodeEncode(v: nat, width: nat)
    requires v < Pow256(width)
    ensures LittleEndian(EncodeLE(v, width)) == v
  {
    if width > 0 {
      DecodeEncode(v / 256, width - 1);
      var bs := EncodeLE(v, width);
      assert bs[1..] == EncodeLE(v / 256, width - 1);
    }
  }

  lemma {:induction false} EncodeDecode(bs: seq<Byte>)
    ensures EncodeLE(LittleEndian(bs), |bs|) == bs
  {
    if bs != [] {
      EncodeDecode(bs[1..]);
      var v := LittleEndian(bs);
      assert v % 256 == bs[0];
      assert v / 256 == LittleEndian(bs[1..]);
      assert bs == [bs[0]] + bs[1..];
    }
  }

  /** A 32-bit field is 0 exactly when its four bytes are. */
  lemma ZeroWord(bs: seq<Byte>)
    requires |bs| == 4
    ensures LittleEndian(bs) == 0 <==> bs == [0, 0, 0, 0]
  {
    EncodeDecode(bs);
    DecodeEncode(0, 4);
    assert EncodeLE(0, 4) == [0, 0, 0, 0];
  }

  /**
   * Reads the `width`-byte little-endian unsigned field at `at` (a `uint16_t`,
   * `uint32_t` or `uint64_t` member of a Mach-O structure).
   */
  function ReadLE(image: seq<Byte>, at: nat, width: nat): (r: Result<nat, Malformed>)
    ensures r.Success? <==> at + width <= |image|
    ensures r.Success? ==> r.value == LittleEndian(image[at..at + width])
    ensures r.Failure? ==> r.error == Malformed(at, width) && Outside(r.error, |image|)
  {
    if at + width <= |image| then
      Success(LittleEndian(image[at..at + width]))
    else
      Failure(Malformed(at, width))
  }

  /** The value of the `width`-byte field at `at`, for callers that know it is inside the image. */
  function FieldAt(image: seq<Byte>, at: nat, width: nat): nat
    requires at + width <= |image|
  {
    LittleEndian(image[at..at + width])
  }

  /** `s` is the C string stored at `at`: its bytes, none of them NUL, followed by a NUL. */
  ghost predicate CStringAt(image: seq<Byte>, at: nat, s: string) {
    && at + |s| < |image|
    && image[at + |s|] == 0
    && forall i :: 0 <= i < |s| ==> 0 < s[i] as int && image[at + i] == s[i] as int
  }

  /** A non-NUL byte in front of a C string makes a C string one longer. */
  lemma CStringAtCons(image: seq<Byte>, at: nat, rest: string)
    requires at < |image| && image[at] != 0
    requires CStringAt(image, at + 1, rest)
    ensures CStringAt(image, at, [image[at] as char] + rest)
  {
    var s := [image[at] as char] + rest;
    forall i | 0 <= i < |s|
      ensures 0 < s[i] as int && image[at + i] == s[i] as int
    {
      if i > 0 {
        assert s[i] == rest[i - 1];
      }
    }
    assert CStringAt(image, at, s);
  }

  /** When the bytes at `at` spell `lit` (no NUL in it), `lit` is the C string there exactly when a NUL follows. */
  lemma CStringAtLiteral(image: seq<Byte>, at: nat, lit: string)
    requires at + |lit| < |image|
    requires forall i :: 0 <= i < |lit| ==> 0 < lit[i] as int < 256 && image[at + i] == lit[i] as int
    ensures CStringAt(image, at, lit) <==> image[at + |lit|] == 0
  {
  }

  /**
   * Builds a string from the NUL-terminated bytes at `at`, as a `std::string`
   * built from a `const char*`. It fails when no NUL occurs before the end
   * of the image.
   */
  function CString(image: seq<Byte>, at: nat): (r: Result<string, Malformed>)
    ensures r.Success? ==> CStringAt(image, at, r.value)
    ensures r.Failure? ==> Outside(r.error, |image|) && forall i :: at <= i < |image| ==> image[i] != 0
    decreases |image| - at
  {
    if at >= |image| then
      Failure(Malformed(at, 1))
    else if image[at] == 0 then
      Success("")
    else
      var rest :- CString(image, at + 1);
      CStringAtCons(image, at, rest);
      Success([image[at] as char] + rest)
  }

  /**
   * `strcmp` of the C string at `at` against `lit`, reading the image byte by
   * byte and stopping at the first difference or at the terminating NUL.
   */
  function StrcmpEqual(image: seq<Byte>, at: nat, lit: string, k: nat): (r: Result<bool, Malformed>)
    requires k <= |lit|
    requires forall i :: 0 <= i < |lit| ==> 0 < lit[i] as int < 256
    requires forall i :: 0 <= i < k ==> at + i < |image| && image[at + i] == lit[i] as int
    ensures r.Success? ==> (r.value <==> CStringAt(image, at, lit))
    ensures r.Failure? ==> Outside(r.error, |image|)
    decreases |lit| - k
  {
    if at + k >= |image| then
      Failure(Malformed(at + k, 1))
    else if k == |lit| then
      CStringAtLiteral(image, at, lit);
      Success(image[at + k] == 0)
    else if image[at + k] != lit[k] as int then
      Success(false)
    else
      StrcmpEqual(image, at, lit, k + 1)
  }
}

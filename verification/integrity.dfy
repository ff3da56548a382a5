/** The additive 16-bit checksum guarding each partition image. Despite the
    name it is not a polynomial CRC: it is the sum of the payload bytes,
    truncated to 16 bits. */
module Integrity {
  import opened Header

  const CrcModulus: nat := 0x1_0000

  /** Sum of the bytes at addresses [0, n) that are not header bytes. */
  function ByteSum(buf: seq<uint8>, n: nat, offset: nat): nat
  {
    if n == 0 then 0
    else ByteSum(buf, n - 1, offset) + (if InHeader(offset, n - 1) then 0 else Read(buf, n - 1))
  }

  /** The checksum over the usable size, skipping the header. */
  function Checksum(buf: seq<uint8>, usable: nat, offset: nat): uint16 {
    ByteSum(buf, usable, offset) % CrcModulus
  }

  /** An image is valid when the stored checksum matches the computed one. */
  predicate CrcValid(buf: seq<uint8>, usable: nat, offset: nat) {
    Checksum(buf, usable, offset) == StoredCrc(buf, offset)
  }

  /** The checksum depends only on the bytes outside the header. */
  lemma {:induction false} ByteSumIgnoresHeader(a: seq<uint8>, b: seq<uint8>, n: nat, offset: nat)
    requires forall x :: !InHeader(offset, x) ==> Read(a, x) == Read(b, x)
    ensures ByteSum(a, n, offset) == ByteSum(b, n, offset)
  {
    if n > 0 {
      ByteSumIgnoresHeader(a, b, n - 1, offset);
    }
  }

  /** Writing the three header bytes never changes the checksum. */
  lemma StampKeepsChecksum(buf: seq<uint8>, usable: nat, offset: nat, crc: uint16, counter: uint8)
    ensures Checksum(Stamp(buf, offset, crc, counter), usable, offset) == Checksum(buf, usable, offset)
  {
    StampReadBack(buf, offset, crc, counter);
    ByteSumIgnoresHeader(Stamp(buf, offset, crc, counter), buf, usable, offset);
  }

  /** Checksum round trip: stamping a buffer with its own checksum and any
      counter yields a valid image carrying that counter. */
  lemma StampRoundTrip(buf: seq<uint8>, usable: nat, offset: nat, counter: uint8)
    requires offset + HeaderSize <= |buf|
    ensures CrcValid(Stamp(buf, offset, Checksum(buf, usable, offset), counter), usable, offset)
    ensures Counter(Stamp(buf, offset, Checksum(buf, usable, offset), counter), offset) == counter
  {
    StampReadBack(buf, offset, Checksum(buf, usable, offset), counter);
    StampKeepsChecksum(buf, usable, offset, Checksum(buf, usable, offset), counter);
  }

  /** Changing one payload byte inside the usable size changes the sum by
      exactly the difference of the two byte values. */
  lemma {:induction false} ByteSumSingleChange(a: seq<uint8>, b: seq<uint8>, n: nat, offset: nat, x: nat)
    requires x < n && !InHeader(offset, x)
    requires forall y :: y != x ==> Read(a, y) == Read(b, y)
    ensures ByteSum(a, n, offset) - ByteSum(b, n, offset) == Read(a, x) - Read(b, x)
  {
    if n - 1 == x {
      ByteSumIgnoresHeaderAndX(a, b, n - 1, offset, x);
    } else {
      ByteSumSingleChange(a, b, n - 1, offset, x);
    }
  }

  /** Below the changed address the two sums agree. */
  lemma {:induction false} ByteSumIgnoresHeaderAndX(a: seq<uint8>, b: seq<uint8>, n: nat, offset: nat, x: nat)
    requires n <= x
    requires forall y :: y != x ==> Read(a, y) == Read(b, y)
    ensures ByteSum(a, n, offset) == ByteSum(b, n, offset)
  {
    if n > 0 {
      ByteSumIgnoresHeaderAndX(a, b, n - 1, offset, x);
    }
  }

  /** The checksum detects every corruption of a single payload byte. */
  lemma ChecksumDetectsSingleByteChange(a: seq<uint8>, b: seq<uint8>, usable: nat, offset: nat, x: nat)
    requires x < usable && !InHeader(offset, x)
    requires forall y :: y != x ==> Read(a, y) == Read(b, y)
    requires Read(a, x) != Read(b, x)
    ensures Checksum(a, usable, offset) != Checksum(b, usable, offset)
  {
    ByteSumSingleChange(a, b, usable, offset, x);
  }

  /** Sum of an erased image (every byte 0xFF) whose header lies inside it. */
  lemma {:induction false} ErasedByteSum(buf: seq<uint8>, n: nat, offset: nat)
    requires n <= |buf| && offset + HeaderSize <= n
    requires forall i :: 0 <= i < |buf| ==> buf[i] == 0xFF
    ensures ByteSum(buf, n, offset) == 0xFF * (n - HeaderSize)
  {
    if n > offset + HeaderSize {
      ErasedByteSum(buf, n - 1, offset);
    } else {
      ErasedPrefixSum(buf, offset, offset);
      assert ByteSum(buf, offset + 1, offset) == ByteSum(buf, offset, offset);
      assert ByteSum(buf, offset + 2, offset) == ByteSum(buf, offset, offset);
    }
  }

  /** Sum of the erased bytes before the header. */
  lemma {:induction false} ErasedPrefixSum(buf: seq<uint8>, n: nat, offset: nat)
    requires n <= offset && n <= |buf|
    requires forall i :: 0 <= i < |buf| ==> buf[i] == 0xFF
    ensures ByteSum(buf, n, offset) == 0xFF * n
  {
    if n > 0 {
      ErasedPrefixSum(buf, n - 1, offset);
    }
  }

  /** Addresses past the end of the buffer read as 0 and add nothing. */
  lemma {:induction false} ByteSumPastEnd(buf: seq<uint8>, n: nat, offset: nat)
    requires n >= |buf|
    ensures ByteSum(buf, n, offset) == ByteSum(buf, |buf|, offset)
  {
    if n > |buf| {
      ByteSumPastEnd(buf, n - 1, offset);
    }
  }

  /** The checksum is too weak to recognise every erased partition: a
      260-byte erased buffer, loaded from an erased partition of at least
      that usable size, has 257 payload bytes summing to 0xFFFF (the bytes
      past the buffer read as 0), which is what its erased checksum bytes
      read, so it verifies with counter 0xFF. */
  lemma ErasedImageOf260BytesVerifies(buf: seq<uint8>, usable: nat, offset: nat)
    requires |buf| == 260 && usable >= 260 && offset + HeaderSize <= 260
    requires forall i :: 0 <= i < |buf| ==> buf[i] == 0xFF
    ensures CrcValid(buf, usable, offset) && Counter(buf, offset) == 0xFF
  {
    ErasedByteSum(buf, 260, offset);
    ByteSumPastEnd(buf, usable, offset);
  }
}

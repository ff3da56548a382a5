/** Byte-level view of the staging buffer and the 3-byte rotation header
    (big-endian 16-bit checksum followed by the 8-bit generation counter). */
module Header {

  type uint8 = x: int | 0 <= x < 0x100
  type uint16 = x: int | 0 <= x < 0x1_0000

  /** Position of the header fields relative to the header offset. */
  const CrcOffset: nat := 0      // two bytes, high byte first
  const CounterOffset: nat := 2  // one byte
  /** Bytes the header occupies: 2 checksum bytes and 1 counter byte. */
  const HeaderSize: nat := 3

  /** Reading the staging buffer: an address past its end reads as 0. */
  function Read(buf: seq<uint8>, address: nat): uint8 {
    if address < |buf| then buf[address] else 0
  }

  /** Writing the staging buffer: an address past its end is ignored. */
  function Write(buf: seq<uint8>, address: nat, value: uint8): seq<uint8> {
    if address < |buf| then buf[address := value] else buf
  }

  /** A write keeps the length, reads back the written byte when the
      address is inside the buffer, and changes no other byte. */
  lemma WriteReadBack(buf: seq<uint8>, address: nat, value: uint8)
    ensures |Write(buf, address, value)| == |buf|
    ensures address < |buf| ==> Read(Write(buf, address, value), address) == value
    ensures forall a :: a != address ==> Read(Write(buf, address, value), a) == Read(buf, a)
    ensures address >= |buf| ==> Write(buf, address, value) == buf
  {
  }

  /** Whether an address falls on one of the three header bytes. */
  predicate InHeader(offset: nat, address: nat) {
    offset <= address <= offset + 2
  }

  /** The checksum stored in the header, high byte first. */
  function StoredCrc(buf: seq<uint8>, offset: nat): uint16 {
    Read(buf, offset + CrcOffset) * 0x100 + Read(buf, offset + CrcOffset + 1)
  }

  /** The generation counter stored in the header. */
  function Counter(buf: seq<uint8>, offset: nat): uint8 {
    Read(buf, offset + CounterOffset)
  }

  /** The three header writes commit makes: checksum high byte, checksum low
      byte, then the counter. */
  function Stamp(buf: seq<uint8>, offset: nat, crc: uint16, counter: uint8): seq<uint8> {
    var withHigh := Write(buf, offset + CrcOffset, crc / 0x100);
    var withLow := Write(withHigh, offset + CrcOffset + 1, crc % 0x100);
    Write(withLow, offset + CounterOffset, counter)
  }

  /** Stamping keeps the length and every byte outside the header, and when
      the header fits in the buffer, reading it back gives the checksum and
      the counter that were written. */
  lemma StampReadBack(buf: seq<uint8>, offset: nat, crc: uint16, counter: uint8)
    ensures |Stamp(buf, offset, crc, counter)| == |buf|
    ensures forall a :: !InHeader(offset, a) ==> Read(Stamp(buf, offset, crc, counter), a) == Read(buf, a)
    ensures offset + HeaderSize <= |buf| ==>
      StoredCrc(Stamp(buf, offset, crc, counter), offset) == crc
      && Counter(Stamp(buf, offset, crc, counter), offset) == counter
  {
    var withHigh := Write(buf, offset + CrcOffset, crc / 0x100);
    var withLow := Write(withHigh, offset + CrcOffset + 1, crc % 0x100);
    WriteReadBack(buf, offset + CrcOffset, crc / 0x100);
    WriteReadBack(withHigh, offset + CrcOffset + 1, crc % 0x100);
    WriteReadBack(withLow, offset + CounterOffset, counter);
  }
}

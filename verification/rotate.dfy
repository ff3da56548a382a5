/** EEPROM emulation that spreads flash wear by rotating commits across a pool
    of partitions. The staging buffer, its dirty flag and the flush belong to
    the EEPROM base class; here they are fields, and the outcome of a flush
    and the images the base class loads are parameters. */
module Rotate {
  import opened Header
  import opened Integrity
  import opened Generation
  import opened Rotation
  import opened Catalog
  import opened Selection

  class Eeprom32Rotate {
    /** The platform's partition table. */
    const catalog: seq<CatalogEntry>

    /** The rotation pool, in registration order. */
    var partitions: seq<Partition>
    /** Size of the smallest pooled partition; 0 until one is registered. */
    var userDefinedSize: nat
    /** Where the 3-byte header sits in the buffer. */
    var offset: uint16
    /** Pool index of the partition the buffer mirrors. */
    var partitionIndex: uint8
    /** Generation counter of that partition. */
    var partitionValue: uint8

    /** Staging buffer state kept by the EEPROM base class. */
    var buffer: seq<uint8>
    var hasBuffer: bool
    var dirty: bool
    /** Name of the partition the base class loads from and flushes to. */
    var baseName: string

    /** The pool holds distinct table partitions and the usable size is the
        smallest of their sizes. */
    ghost predicate PoolValid()
      reads this`partitions, this`userDefinedSize
    {
      && WellFormed(catalog)
      && PoolOk(catalog, partitions)
      && userDefinedSize == MinCapacity(catalog, partitions)
    }

    /** The pool is valid and the current index points into it. */
    ghost predicate Valid()
      reads this`partitions, this`userDefinedSize, this`partitionIndex
    {
      && PoolValid()
      && (if |partitions| == 0 then partitionIndex == 0 else partitionIndex < |partitions|)
    }

    /** A fresh object: empty pool, no usable size, header at 0, index and
        generation 0, and no staging buffer yet. */
    constructor (catalog: seq<CatalogEntry>)
      requires WellFormed(catalog)
      ensures Valid() && this.catalog == catalog
      ensures partitions == [] && userDefinedSize == 0 && offset == 0
      ensures partitionIndex == 0 && partitionValue == 0
      ensures buffer == [] && !hasBuffer && !dirty
    {
      this.catalog := catalog;
      partitions := [];
      userDefinedSize := 0;
      offset := 0;
      partitionIndex := 0;
      partitionValue := 0;
      buffer := [];
      hasBuffer := false;
      dirty := false;
      baseName := "";
    }

    /** Whether a partition of that name is already pooled. */
    method Exists(name: string) returns (found: bool)
      ensures found <==> InPool(partitions, name)
    {
      for i := 0 to |partitions|
        invariant forall j :: 0 <= j < i ==> partitions[j].name != name
      {
        if name == partitions[i].name {
          return true;
        }
      }
      return false;
    }

    /** Registers the data partition labelled `name`. Returns 0 and changes
        nothing when the name is pooled already or the table has no such
        partition; otherwise appends it, lowers the usable size to its size if
        smaller (or sets it when unset) and returns 1. */
    method AddByName(name: string) returns (added: uint8)
      requires Valid()
      modifies this`partitions, this`userDefinedSize
      ensures Valid()
      ensures InPool(old(partitions), name) || FindFirst(catalog, name).None? ==>
        added == 0 && partitions == old(partitions) && userDefinedSize == old(userDefinedSize)
      ensures !InPool(old(partitions), name) && FindFirst(catalog, name).Some? ==>
        var size := catalog[FindFirst(catalog, name).value].size;
        && added == 1
        && partitions == old(partitions) + [Partition(name, FindFirst(catalog, name).value)]
        && userDefinedSize == (if old(userDefinedSize) == 0 || size < old(userDefinedSize) then size else old(userDefinedSize))
    {
      var pooled := Exists(name);
      if pooled {
        return 0;
      }
      var part := FindFirst(catalog, name);
      if part.None? {
        return 0;
      }
      Register(Partition(name, part.value));
      return 1;
    }

    /** Appends a table partition whose name is not pooled yet, first
        lowering the usable size to its size when smaller or unset. */
    method Register(entry: Partition)
      requires Valid()
      requires entry.part < |catalog| && IsDataNamed(catalog[entry.part], entry.name)
      requires !InPool(partitions, entry.name)
      modifies this`partitions, this`userDefinedSize
      ensures Valid()
      ensures partitions == old(partitions) + [entry]
      ensures var size := catalog[entry.part].size;
        userDefinedSize == if old(userDefinedSize) == 0 || size < old(userDefinedSize) then size else old(userDefinedSize)
    {
      var size := catalog[entry.part].size;
      MinCapacityAppend(catalog, partitions, entry);
      PoolAppend(catalog, partitions, entry);
      if userDefinedSize == 0 || size < userDefinedSize {
        userDefinedSize := size;
      }
      partitions := partitions + [entry];
    }

    /** Registers every data partition of the given subtype (SubtypeAny: all
        of them) in table order, skipping names already pooled, including
        those appended earlier in the same scan. Returns how many it appended. */
    method AddBySubtype(subtype: uint8) returns (count: uint8)
      requires Valid()
      modifies this`partitions, this`userDefinedSize
      ensures Valid()
      ensures partitions == Absorb(catalog, subtype, old(partitions), |catalog|)
      ensures count as int == |partitions| - |old(partitions)|
    {
      count := 0;
      for k := 0 to |catalog|
        invariant Valid()
        invariant partitions == Absorb(catalog, subtype, old(partitions), k)
        invariant count as int == |partitions| - |old(partitions)|
      {
        var added := AddRow(subtype, k, old(partitions));
        if added {
          count := count + 1;
        }
      }
    }

    /** One pass of the scan in add_by_subtype: registers table row `k` when
        it matches the subtype and its label is not pooled yet, which extends
        the scan from `start` by that row. */
    method AddRow(subtype: uint8, k: nat, ghost start: seq<Partition>) returns (added: bool)
      requires Valid() && k < |catalog|
      requires partitions == Absorb(catalog, subtype, start, k)
      modifies this`partitions, this`userDefinedSize
      ensures Valid()
      ensures partitions == Absorb(catalog, subtype, start, k + 1)
      ensures added <==> Matches(catalog[k], subtype) && !InPool(old(partitions), catalog[k].name)
      ensures |partitions| == |old(partitions)| + (if added then 1 else 0) <= 255
    {
      AbsorbStep(catalog, subtype, start, k + 1);
      var e := catalog[k];
      if !Matches(e, subtype) {
        return false;
      }
      var pooled := Exists(e.name);
      if pooled {
        return false;
      }
      Register(Partition(e.name, k));
      return true;
    }

    /** Places the header at `o`, accepted only when its 3 bytes fit within
        the usable size; a rejected offset changes nothing. */
    method SetOffset(o: uint16) returns (ok: bool)
      modifies this`offset
      ensures ok <==> o + HeaderSize <= userDefinedSize
      ensures offset == if ok then o else old(offset)
    {
      if o + 3 > userDefinedSize {
        return false;
      }
      offset := o;
      return true;
    }

    /** The base class's byte write, through which the application changes
        the buffer: ignored without a buffer or past the buffer's end;
        otherwise the byte is stored, and the buffer becomes dirty when the
        stored byte differs from the one written. */
    method WriteByte(address: nat, value: uint8)
      modifies this`buffer, this`dirty
      ensures buffer == if hasBuffer then Write(old(buffer), address, value) else old(buffer)
      ensures dirty == (old(dirty) || (hasBuffer && Read(old(buffer), address) != value && address < |old(buffer)|))
    {
      if !hasBuffer || address >= |buffer| {
        return;
      }
      if buffer[address] != value {
        buffer := buffer[address := value];
        dirty := true;
      }
    }

    /** Number of pooled partitions; an 8-bit result that never truncates. */
    function Size(): (n: uint8)
      reads this
      requires Valid()
      ensures n as int == |partitions|
    {
      |partitions|
    }

    /** Name of the pooled partition at `index`, empty when out of range. */
    function Name(index: uint8): (r: string)
      reads this
      ensures index < |partitions| ==> r == partitions[index].name
      ensures index >= |partitions| ==> r == ""
    {
      if index >= |partitions| then "" else partitions[index].name
    }

    /** Name of the partition the staging buffer mirrors, empty for an empty pool. */
    function Current(): (r: string)
      reads this
      requires Valid()
      ensures partitions != [] ==> InPool(partitions, r) && r == Name(partitionIndex)
      ensures partitions == [] ==> r == ""
    {
      if |partitions| == 0 then "" else partitions[partitionIndex].name
    }

    /** Sums the buffer bytes below the usable size, skipping the header, in
        16-bit arithmetic. */
    method CalculateCrc() returns (crc: uint16)
      requires userDefinedSize < 0x1_0000
      ensures crc == Checksum(buffer, userDefinedSize, offset)
    {
      crc := 0;
      for address := 0 to userDefinedSize
        invariant crc == ByteSum(buffer, address, offset) % CrcModulus
      {
        if offset <= address <= offset + 2 {
          continue;
        }
        crc := (crc + Read(buffer, address)) % 0x1_0000;
      }
    }

    /** Writes the checksum of the buffer (big-endian) and the current
        counter into the header. */
    method WriteHeader()
      requires userDefinedSize < 0x1_0000
      modifies this`buffer
      ensures buffer == Stamp(old(buffer), offset, Checksum(old(buffer), userDefinedSize, offset), partitionValue)
    {
      var crc := CalculateCrc();
      buffer := Write(buffer, offset + CrcOffset, crc / 0x100);
      buffer := Write(buffer, offset + CrcOffset + 1, crc % 0x100);
      buffer := Write(buffer, offset + CounterOffset, partitionValue);
    }

    /** Compares the computed checksum with the one stored in the header. */
    method CheckCrc() returns (ok: bool)
      requires userDefinedSize < 0x1_0000
      ensures ok <==> CrcValid(buffer, userDefinedSize, offset)
    {
      var calculated := CalculateCrc();
      var stored := Read(buffer, offset + CrcOffset) * 0x100 + Read(buffer, offset + CrcOffset + 1);
      ok := calculated == stored;
    }

    /** Loads the newest valid partition. `images[i]` is what the base class
        loads from pool partition i. Each image is loaded and checked in turn;
        the first verified one is the initial best and a later verified one
        replaces it only when its counter is newer. With no verified image,
        partition 0 and counter 0xFF are kept. The buffer is then reloaded
        from the chosen partition. With an empty pool nothing happens. */
    method Begin(images: seq<seq<uint8>>)
      requires Valid()
      requires |images| == |partitions|
      requires |partitions| > 0 ==> userDefinedSize < 0x1_0000
      modifies this`partitionIndex, this`partitionValue, this`buffer, this`hasBuffer, this`dirty, this`baseName
      ensures Valid()
      ensures partitions == [] ==> unchanged(this)
      ensures partitions != [] ==>
        && Choice(partitionIndex as nat, partitionValue) == Select(images, userDefinedSize, offset)
        && buffer == images[partitionIndex]
        && hasBuffer && !dirty
        && baseName == partitions[partitionIndex].name
    {
      if |partitions| == 0 {
        return;
      }
      var bestIndex: nat := 0;
      var bestValue: uint8 := 0xFF;
      var first := true;
      for index := 0 to |partitions|
        modifies this`buffer, this`hasBuffer, this`dirty, this`baseName
        invariant bestIndex < |partitions|
        invariant first <==> |Candidates(images, index, userDefinedSize, offset)| == 0
        invariant Choice(bestIndex, bestValue) == Scan(images, index, userDefinedSize, offset)
      {
        baseName := partitions[index].name;
        buffer, hasBuffer, dirty := images[index], true, false;

        var value := Read(buffer, offset + CounterOffset);
        var valid := CheckCrc();
        ScanStep(images, index, userDefinedSize, offset);
        if !valid {
          continue;
        }
        if first {
          first := false;
          bestIndex := index;
          bestValue := value;
        } else {
          var newer := Newer(value, bestValue);
          if newer {
            bestIndex := index;
            bestValue := value;
          }
        }
      }
      partitionIndex := bestIndex;
      baseName := partitions[partitionIndex].name;
      buffer, hasBuffer, dirty := images[partitionIndex], true, false;
      partitionValue := bestValue;
    }

    /** Writes the buffer to the next partition of the pool. Fails with no
        change for an empty pool or no usable size, succeeds with no change
        when nothing is dirty, and fails with no change when there is no
        buffer. Otherwise it moves to slot (index + 1) mod pool size, bumps
        the 8-bit generation, stamps checksum and generation into the header
        and flushes; `flushOk` is the flush's outcome. A failed flush restores
        index and generation but not the header bytes. */
    method Commit(flushOk: bool) returns (ok: bool)
      requires Valid()
      requires |partitions| > 0 && userDefinedSize > 0 && dirty && hasBuffer ==> userDefinedSize < 0x1_0000
      modifies this`partitionIndex, this`partitionValue, this`buffer, this`dirty, this`baseName
      ensures Valid()
      ensures |partitions| == 0 || userDefinedSize == 0 ==> !ok && unchanged(this)
      ensures |partitions| > 0 && userDefinedSize > 0 && !old(dirty) ==> ok && unchanged(this)
      ensures |partitions| > 0 && userDefinedSize > 0 && old(dirty) && !hasBuffer ==> !ok && unchanged(this)
      ensures |partitions| > 0 && userDefinedSize > 0 && old(dirty) && hasBuffer ==>
        && ok == flushOk
        && buffer == Stamp(old(buffer), offset, Checksum(old(buffer), userDefinedSize, offset), (old(partitionValue) + 1) % 0x100)
        && (flushOk ==> partitionIndex as int == (old(partitionIndex) + 1) % |partitions|
                        && partitionValue == (old(partitionValue) + 1) % 0x100
                        && !dirty)
        && (!flushOk ==> partitionIndex == old(partitionIndex) && partitionValue == old(partitionValue) && dirty)
        && baseName == partitions[partitionIndex].name
    {
      if |partitions| == 0 {
        return false;
      }
      if userDefinedSize == 0 {
        return false;
      }
      if !dirty {
        return true;
      }
      if !hasBuffer {
        return false;
      }

      NextSlot(partitionIndex as nat, |partitions|);
      ok := StampAndFlush(flushOk);
    }

    /** The writing part of commit: move to the next slot, bump the
        generation, stamp the header and flush, restoring index, generation
        and name when the flush fails. */
    method StampAndFlush(flushOk: bool) returns (ok: bool)
      requires Valid() && |partitions| > 0
      requires userDefinedSize < 0x1_0000
      modifies this`partitionIndex, this`partitionValue, this`buffer, this`dirty, this`baseName
      ensures Valid()
      ensures ok == flushOk
      ensures buffer == Stamp(old(buffer), offset, Checksum(old(buffer), userDefinedSize, offset), (old(partitionValue) + 1) % 0x100)
      ensures flushOk ==> partitionIndex as int == if old(partitionIndex) as int + 1 < |partitions| then old(partitionIndex) as int + 1 else 0
      ensures flushOk ==> partitionValue == (old(partitionValue) + 1) % 0x100
      ensures flushOk ==> !dirty
      ensures !flushOk ==> partitionIndex == old(partitionIndex) && partitionValue == old(partitionValue) && dirty == old(dirty)
      ensures baseName == partitions[partitionIndex].name
    {
      var indexBackup := partitionIndex;
      var valueBackup := partitionValue;
      ghost var stamped := Stamp(buffer, offset, Checksum(buffer, userDefinedSize, offset), (partitionValue + 1) % 0x100);

      NextSlot(partitionIndex as nat, |partitions|);
      partitionIndex := (partitionIndex + 1) % |partitions|;
      baseName := partitions[partitionIndex].name;
      partitionValue := (partitionValue + 1) % 0x100;

      WriteHeader();
      assert buffer == stamped;

      ok := flushOk;
      if ok {
        dirty := false;
      } else {
        partitionIndex := indexBackup;
        partitionValue := valueBackup;
        baseName := partitions[partitionIndex].name;
      }
    }
  }
}

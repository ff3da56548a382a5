# EEPROM32 Rotate, modelled in Dafny

This project models `EEPROM32_Rotate`, an EEPROM emulation for the ESP32.
It spreads flash wear by rotating commits across a pool of flash
partitions. Each partition image carries a 3-byte header at a configurable
offset:

- a 16-bit additive checksum, high byte first (relative position 0);
- an 8-bit generation counter (relative position 2).

Load scans the pool and keeps the newest image whose checksum verifies.
"Newer" is decided by an 8-bit wraparound comparison. Commit moves to the
next pool slot, bumps the generation, stamps checksum and generation into
the staging buffer and flushes it. If the flush fails, it rolls back the
index and the generation.

Files, one module each:

- `header.dfy` (`Header`): byte reads and writes on the staging buffer, the
  header layout, and `Stamp`, the three header writes commit makes.
- `integrity.dfy` (`Integrity`): the checksum as a specification function
  (`ByteSum`, `Checksum`, `CrcValid`) and its properties: round trip,
  independence from the header, detection of a single-byte change.
- `generation.dfy` (`Generation`): the "newer" comparison and its algebra.
- `rotation.dfy` (`Rotation`): `Advance`, the slot reached after k
  commits, with the rotation lemmas.
- `catalog.dfy` (`Catalog`): the partition table, pool entries, lookup by
  name, the minimum-capacity rule and `Absorb`, the reference definition of
  registration by subtype.
- `selection.dfy` (`Selection`): what load selects, as filter-then-reduce.
  The candidates are the verified images in pool order, folded with
  "newer". Lemmas cover the fallback and the "newest image wins" window
  property.
- `rotate.dfy` (`Rotate`): the class `Eeprom32Rotate`. Its fields and
  methods update state as the C++ object does, and each method is proved
  against the functions above.

Collaborators the class relies on but that are not part of this model:

- **Partition table.** The platform's partition table is the constant
  `catalog`, handed to the constructor. It is a sequence of (type, subtype,
  label, size) rows. A pool entry records the row index in place of the
  `esp_partition_t` pointer. `FindFirst` plays `esp_partition_find_first`
  for data partitions of any subtype. `Absorb` plays the
  `esp_partition_find`/`next` iteration over data partitions of a subtype,
  with `0xFF` matching every subtype. The table is assumed to have at most
  255 rows, all of nonzero size. Real tables are far smaller.
- **EEPROM base class.** The staging buffer (`buffer`, `hasBuffer`,
  `dirty`) and the name it loads from and flushes to (`baseName`) belong to
  this class. Its behaviour is assumed, not derived:
  - reading past the buffer's end yields 0;
  - writing past the end, or with no buffer, is ignored; a write that
    changes a byte marks the buffer dirty (`WriteByte`);
  - loading partition i replaces the buffer with `images[i]`, marks a
    buffer present and clears `dirty`;
  - a successful flush clears `dirty`.
- **Parameters for effects.** The bytes the base class would read from
  flash are the `images` parameter of `Begin`, one image per pool entry.
  The outcome of the flush is the `flushOk` parameter of `Commit`.

Details of the code's behaviour worth noting:

- The generation byte sits at `offset + 2` (`EEPROM32_ROTATE_COUNTER_OFFSET`).
  The checksum takes `offset` and `offset + 1`.
- With no verified image, load selects partition 0 with generation `0xFF`.
  So the first commit on a fresh pool writes generation 0 (0xFF + 1 in
  8 bits) to partition 1, or back to partition 0 when the pool has a
  single partition.
- With no verified image, load reloads partition 0 into the buffer. The
  buffer does not keep whatever the scan loaded last.

## Model

| member | source | states |
|---|---|---|
| Header.Read | src/EEPROM32_Rotate.cpp:222 | Definition of the base-class byte read behind the counter, checksum and stored-checksum reads: the byte inside the buffer, 0 past its end |
| Header.Write | src/EEPROM32_Rotate.cpp:293-295 | Definition of the base-class byte write the header writes use: stores the byte inside the buffer, ignores an address past its end; its properties are in Header.WriteReadBack |
| Header.StoredCrc | src/EEPROM32_Rotate.cpp:354-356 | Definition of the stored checksum: byte at offset times 256 plus byte at offset+1 |
| Header.Counter | src/EEPROM32_Rotate.cpp:222 | Definition of the counter load reads: the byte at offset+2 |
| Header.Stamp | src/EEPROM32_Rotate.cpp:292-295 | Definition of the three header writes (checksum high byte, low byte, counter); its properties are in Header.StampReadBack and Integrity.StampRoundTrip |
| Header.WriteReadBack | src/EEPROM32_Rotate.cpp:293-295 | A buffer write keeps the length, reads back the written byte inside the buffer, leaves every other address unchanged and is a no-op past the end |
| Header.StampReadBack | src/EEPROM32_Rotate.cpp:292-295 | The three header writes change no byte outside [offset, offset+2]; when the header fits, the stored checksum (high byte first) and the counter read back as written |
| Integrity.ByteSum | src/EEPROM32_Rotate.cpp:340-343 | Definition of the sum of the bytes at [0, n) outside [offset, offset+2], each read as the base class reads it |
| Integrity.Checksum | src/EEPROM32_Rotate.cpp:338-345 | Definition of the 16-bit checksum: the byte sum over the usable size mod 65536; Rotate.Eeprom32Rotate.CalculateCrc is proved to compute it |
| Integrity.CrcValid | src/EEPROM32_Rotate.cpp:352-360 | Definition of an image that passes the check: computed checksum equals stored checksum; Rotate.Eeprom32Rotate.CheckCrc is proved to decide it |
| Integrity.ByteSumPastEnd | src/EEPROM32_Rotate.cpp:340-343 | Addresses past the end of the buffer read as 0 and add nothing to the sum |
| Integrity.ByteSumIgnoresHeader | src/EEPROM32_Rotate.cpp:340-343 | Two buffers that agree outside the header bytes have the same byte sum |
| Integrity.StampKeepsChecksum | src/EEPROM32_Rotate.cpp:338-345 | Writing the header never changes the checksum of the buffer |
| Integrity.StampRoundTrip | src/EEPROM32_Rotate.cpp:292-295 | Stamping a buffer with its own checksum and any counter gives an image that passes the check and carries that counter |
| Integrity.ChecksumDetectsSingleByteChange | src/EEPROM32_Rotate.cpp:338-345 | Changing one payload byte below the usable size always changes the checksum |
| Integrity.ErasedImageOf260BytesVerifies | src/EEPROM32_Rotate.cpp:352-360 | An erased (all 0xFF) 260-byte buffer passes the check with counter 0xFF for every usable size of at least 260: the checksum does not catch every blank partition |
| Generation.Newer | src/EEPROM32_Rotate.cpp:242-243 | Definition of the "newer" test as written in the source; its meaning is in Generation.NewerIsAheadByLessThanHalf |
| Generation.NewerIsAheadByLessThanHalf | src/EEPROM32_Rotate.cpp:242-243 | The "newer" test holds exactly when (value - best) mod 256 lies in [1, 127] |
| Generation.NewerIrreflexive | src/EEPROM32_Rotate.cpp:242-243 | No counter is newer than itself |
| Generation.NewerAsymmetric | src/EEPROM32_Rotate.cpp:242-243 | If a is newer than b, b is not newer than a |
| Generation.HalfwayNeitherNewer | src/EEPROM32_Rotate.cpp:242-243 | At distance exactly 128 neither counter is newer than the other |
| Generation.NewerConnected | src/EEPROM32_Rotate.cpp:242-243 | Two distinct counters not 128 apart are ordered one way or the other |
| Generation.IncrementIsNewer | src/EEPROM32_Rotate.cpp:286 | The counter after an 8-bit increment (255 wraps to 0) is newer than before, and not the reverse |
| Generation.NewerIsCyclic | src/EEPROM32_Rotate.cpp:242-243 | "Newer" is not an order: 100 beats 0, 200 beats 100 and 0 beats 200 |
| Generation.NewerInWindow | src/EEPROM32_Rotate.cpp:242-243 | Inside a half-circle window from a base, "newer" coincides with "further ahead of the base" |
| Rotation.Advance | src/EEPROM32_Rotate.cpp:284 | The slot reached after k commits, each moving to (index + 1) mod n; the result is always a slot of the pool |
| Rotation.AdvanceWithinRound | src/EEPROM32_Rotate.cpp:284 | k <= n commits from slot i land on i + k, wrapped once past n |
| Rotation.RotationVisitsEverySlot | src/EEPROM32_Rotate.cpp:284 | n consecutive commits visit every slot of a pool of n exactly once and end on the starting slot |
| Catalog.FindFirst | src/EEPROM32_Rotate.cpp:44-45 | Definition of the lookup by label add_by_name makes: Catalog.FindFrom from row 0 |
| Catalog.FindFrom | src/EEPROM32_Rotate.cpp:44-45 | The lookup returns the first data partition with that label at or after a row, or none when there is none |
| Catalog.PoolAppend | src/EEPROM32_Rotate.cpp:52-58 | Appending a table partition whose name is not pooled keeps names distinct, entries backed by the table, and the pool no longer than the table |
| Catalog.MinCapacity | src/EEPROM32_Rotate.cpp:48-50 | Definition of the usable size as the minimum of the pooled partitions' sizes, 0 for an empty pool; its properties are in Catalog.MinCapacityIsMinimum |
| Catalog.MinCapacityIsMinimum | src/EEPROM32_Rotate.cpp:48-50 | The usable size is at most every pooled partition's size, is the size of one of them, and is 0 only for an empty pool |
| Catalog.MinCapacityAppend | src/EEPROM32_Rotate.cpp:48-50 | The update "set if 0 or smaller" keeps the usable size equal to the minimum over the pool after an append |
| Catalog.MinCapacityNeverGrows | src/EEPROM32_Rotate.cpp:86-88 | Once a partition is registered, registering more never raises the usable size |
| Catalog.Absorb | src/EEPROM32_Rotate.cpp:69-106 | Registration by subtype keeps the old pool as a prefix and appends only matching partitions, each carrying its table label and a row it reached |
| Catalog.AbsorbKeepsPoolWellFormed | src/EEPROM32_Rotate.cpp:69-106 | Scanning the table keeps pool names pairwise distinct and every entry backed by a data partition of the table |
| Catalog.AbsorbCoversMatches | src/EEPROM32_Rotate.cpp:69-106 | After the scan every matching table partition is pooled under its label, and no label pooled before the scan is appended again |
| Catalog.AbsorbInCatalogOrder | src/EEPROM32_Rotate.cpp:69-106 | Entries appended by one scan appear in table order |
| Catalog.PoolBound | src/EEPROM32_Rotate.h:58 | A pool of distinct table partitions is no longer than the table, so at most 255 entries and an exact 8-bit size |
| Selection.Candidates | src/EEPROM32_Rotate.cpp:215-229 | Definition of the partitions load keeps: the images among the first k that pass the check, each with its counter, in pool order |
| Selection.Reduce | src/EEPROM32_Rotate.cpp:232-250 | Definition of the comparison step: the first candidate is the initial best and a later one replaces it only when Generation.Newer holds |
| Selection.Scan | src/EEPROM32_Rotate.cpp:211-252 | Definition of the best choice after k loop iterations: index 0 and 0xFF while no image verified, otherwise the reduction of the candidates |
| Selection.Select | src/EEPROM32_Rotate.cpp:207-258 | Definition of what load selects: the scan over the whole pool; Rotate.Eeprom32Rotate.Begin is proved to reach it |
| Selection.CandidatesSound | src/EEPROM32_Rotate.cpp:222-229 | Every load candidate is a verified image paired with the counter read from it, candidates in pool order |
| Selection.CandidatesComplete | src/EEPROM32_Rotate.cpp:226-229 | Every image that passes the check is a candidate |
| Selection.ReduceMember | src/EEPROM32_Rotate.cpp:232-250 | Folding the candidates with "newer" returns one of them |
| Selection.ScanStep | src/EEPROM32_Rotate.cpp:215-252 | One loop step: a failing image is skipped, the first verified image becomes the best, a later one replaces it only when strictly newer |
| Selection.SelectWithoutValidImage | src/EEPROM32_Rotate.cpp:211-213 | When no image verifies, load selects index 0 with generation 0xFF |
| Selection.SelectIsVerified | src/EEPROM32_Rotate.cpp:215-258 | When some image verifies, load selects a verified image and adopts the counter stored in it |
| Selection.SelectNewest | src/EEPROM32_Rotate.cpp:215-258 | With all verified counters in a half-circle window, load selects the newest, and the first in pool order among equals |
| Selection.LoadFindsCommittedImage | src/EEPROM32_Rotate.cpp:207-263 | An image stamped by commit whose counter is strictly newest in the window is the one load selects, with that counter |
| Rotate.Eeprom32Rotate.constructor | src/EEPROM32_Rotate.h:51-53 | A fresh object has an empty pool, usable size 0, offset 0, index 0, generation 0 and no buffer |
| Rotate.Eeprom32Rotate.Exists | src/EEPROM32_Rotate.cpp:326-331 | Returns true exactly when some pool entry has that name |
| Rotate.Eeprom32Rotate.AddByName | src/EEPROM32_Rotate.cpp:38-62 | Returns 0 and changes nothing when the name is pooled or absent from the table; otherwise appends exactly that partition, applies the minimum rule to the usable size and returns 1 |
| Rotate.Eeprom32Rotate.Register | src/EEPROM32_Rotate.cpp:47-58 | Appends the entry and sets the usable size when unset or larger, keeping the pool invariant |
| Rotate.Eeprom32Rotate.AddBySubtype | src/EEPROM32_Rotate.cpp:69-107 | The pool becomes the reference scan of the whole table and the result counts the appended entries |
| Rotate.Eeprom32Rotate.AddRow | src/EEPROM32_Rotate.cpp:79-95 | One row of that scan: the row is appended exactly when it is a matching data partition whose name is not pooled, which extends the reference scan by that row; the pool stays valid and within 255 entries |
| Rotate.Eeprom32Rotate.SetOffset | src/EEPROM32_Rotate.cpp:117-121 | Accepts and stores the offset exactly when its 3 header bytes fit within the usable size; otherwise nothing changes |
| Rotate.Eeprom32Rotate.WriteByte | src/EEPROM32_Rotate.cpp:293-295 | The base-class byte write: no change without a buffer or past its end; otherwise the byte is stored, and dirty is set exactly when the stored byte changed |
| Rotate.Eeprom32Rotate.Size | src/EEPROM32_Rotate.cpp:127-129 | Returns the pool length, never truncated to 8 bits |
| Rotate.Eeprom32Rotate.Name | src/EEPROM32_Rotate.cpp:135-138 | Returns the name at the index, or "" out of range |
| Rotate.Eeprom32Rotate.Current | src/EEPROM32_Rotate.cpp:144-147 | Returns the name of the current partition, which is pooled, or "" for an empty pool |
| Rotate.Eeprom32Rotate.CalculateCrc | src/EEPROM32_Rotate.cpp:338-345 | The loop computes the checksum: byte sum mod 65536 over [0, usable) without the header |
| Rotate.Eeprom32Rotate.WriteHeader | src/EEPROM32_Rotate.cpp:292-295 | The buffer becomes its old contents stamped with their checksum and the current counter |
| Rotate.Eeprom32Rotate.CheckCrc | src/EEPROM32_Rotate.cpp:352-360 | Returns true exactly when the stored big-endian checksum equals the computed one |
| Rotate.Eeprom32Rotate.Begin | src/EEPROM32_Rotate.cpp:207-263 | Empty pool: nothing changes. Otherwise index and generation are what the selection reference picks, the buffer holds that partition's image, not dirty, under its name |
| Rotate.Eeprom32Rotate.Commit | src/EEPROM32_Rotate.cpp:270-314 | Guards in source order with no state change; otherwise the header is stamped, and index and generation advance on success or are restored on failure, with dirty and name following |
| Rotate.Eeprom32Rotate.StampAndFlush | src/EEPROM32_Rotate.cpp:279-312 | Advances to the next slot (i+1, or 0 after the last, which is (i+1) mod n by Rotation.NextSlot) and generation (g+1) mod 256, stamps the header, and rolls back index, generation and name when the flush fails, keeping the stamped header bytes |

## Left out

- `dump`: diagnostic output to a stream, not modelled.
- The ESP-IDF partition API: replaced by the constant table `catalog`. The
  iterator lifetime and its release are not modelled.
- EEPROM base-class internals: its reads, writes, load and flush are
  modelled only through the assumptions listed above. The `size` argument
  of `begin` and the byte count a flush writes are not modelled; the loaded
  images stand in for them.
- Debug logging and `strdup` ownership of names: names are plain strings.
- `_auto`: declared in src/EEPROM32_Rotate.h:66 with no definition in the
  source.
- Rotate.Eeprom32Rotate.CalculateCrc: requires a usable size below 65536.
  The `uint16_t` loop counter at src/EEPROM32_Rotate.cpp:340 never reaches
  a larger size, so in the source, with every pooled partition at 64 KiB
  or more, the checksum loop never stops and `begin` and `commit` hang.
  WriteHeader, CheckCrc and StampAndFlush carry the same requirement; Begin
  requires it only for a nonempty pool and Commit only on the path that
  computes the checksum.
- Rotate.Eeprom32Rotate.constructor: requires a table of at most 255 rows,
  all of nonzero size. This keeps the 8-bit pool size, index and count
  exact, and makes 0 an unambiguous "unset" usable size.
- The base class's byte read is the function `Read`; the application's
  writes go through `WriteByte`, which models the base class's write as
  assumed above.

# DeviceKeyHelperRK key backup, modelled in Dafny

DeviceKeyHelperRK keeps a checked copy of a Particle device's private and
public keys on a second storage medium (emulated EEPROM, FRAM, a SPIFFS file,
an SD card file or a flashee-eeprom file). Its `check` routine compares the
live key slot in the device configuration table (DCT) with that backup. It
either does nothing, saves a freshly built backup record, or writes the
backup keys back into the live slot and resets the device.

This project models that core in four modules:

- `Layout` (`layout.dfy`): the key size per platform, the record
  `DeviceKeyHelperSavedData` (`magic`, `size`, `sum`, `keys`), the magic
  constant, and the record's byte image on a medium, with both round trips
  proved.
- `Codec` (`codec.dfy`): `calculateChecksum` as a loop with a wrapping 16-bit
  accumulator, proved equal to the byte sum modulo 65536; `validateData`; the
  record the save path builds. Proved: a built record always validates; a
  record validates exactly when it is the record built from its own keys; any
  single-byte change to the keys of a valid record is detected.
- `Storage` (`storage.dfy`): the load and save lambdas of the five adapters
  as functions over the medium's contents, with their success conditions, and
  a `Backend` class that holds the medium and counts loads and saves. Proved:
  a save that wrote a full record is read back as that record on every medium.
- `Engine` (`engine.dfy`): `check(bool forceSaveCurrentKey)` as the method
  `DeviceKeyHelper.Check` over a `KeySlot` object (the live key bytes as an
  array) and a `Backend`. Its postcondition ties the outcome, the new live
  slot, the new medium and the load, save and write counts to the decision
  function `Decide`. Lemmas characterise each of the three decisions and
  show that one check with fully successful I/O leaves the two stores
  reconciled.

The outcome of the foreign calls is passed in as parameters: an `Io` value
for each load and save (did the open succeed, how many bytes moved, did FatFs
return `FR_OK`), and a flag saying whether the DCT write lands.

The model follows the `.cpp` definition `void check(bool forceSaveCurrentKey)`
rather than the header's `bool check(CheckMode)`, which has no definition in
the source. In the code a forced check always writes the backup, even when
the backup already holds the live keys. `Engine.ForcedCheckSaves` states
this. There is no "skip the write if unchanged" step.

Assumptions about things the source does not show:

- The byte image of the record is little-endian (the devices are ARM
  Cortex-M) and has no padding, because both key sizes are multiples of 4.
- The four key sizes (1216 + 384 bytes for the Wi-Fi main slot, 192 + 128
  bytes for the cellular alternate slot) come from the platform header
  `dct.h`, which is not part of this model. They agree with the record sizes
  of 1608 and 328 bytes that the documentation gives.
- The build-time platform choice is the constant `Layout.PLATFORM`, set to
  Wi-Fi.

## Model

| member | source | states |
|---|---|---|
| `Layout.RecordSizes` | src/DeviceKeyHelperRK.h:17-23 | records are 1608 bytes (Wi-Fi) and 328 bytes (cellular); the key length fits the 16-bit `size` field |
| `Layout.Encode` | src/DeviceKeyHelperRK.h:30-35 | the stored image is RECORD_SIZE bytes: 32-bit `magic` at offset 0, 16-bit `size` at 4, 16-bit `sum` at 6, then the keys at 8 |
| `Layout.DecodeEncode` | src/DeviceKeyHelperRK.h:30-35 | reading back a stored record image gives the same record |
| `Layout.EncodeDecode` | src/DeviceKeyHelperRK.h:30-35 | every RECORD_SIZE-byte image is the image of the record it reads as |
| `Codec.CalculateChecksum` | src/DeviceKeyHelperRK.cpp:93-100 | the wrapping uint16 accumulator loop returns the sum of all key bytes modulo 65536 |
| `Codec.ChecksumStep` | src/DeviceKeyHelperRK.cpp:96-98 | adding one byte with 16-bit wrap-around gives the checksum of the longer byte sequence |
| `Codec.ChecksumWrapsOnAllOnes` | src/DeviceKeyHelperRK.cpp:94-99 | on either platform all-0xFF keys sum past 16 bits and the stored checksum is that sum modulo 65536 (14784 for Wi-Fi, 16064 for cellular) |
| `Codec.ValidateData` | src/DeviceKeyHelperRK.cpp:102-114 | a record that passes has `size` equal to its key length and a stored image that begins with the magic bytes 63 5c a6 75 |
| `Codec.Build` | src/DeviceKeyHelperRK.cpp:76-80 | the record built on the save path holds the live keys and always passes validation |
| `Codec.ValidIffBuilt` | src/DeviceKeyHelperRK.cpp:102-114 | a record validates (magic, size and checksum all right) exactly when it equals the record built from its own keys |
| `Codec.SingleByteChangeDetected` | src/DeviceKeyHelperRK.cpp:109-112 | changing any one key byte of a valid record without updating `sum` makes validation fail |
| `Storage.ReadOver` | src/DeviceKeyHelperRK.h:197 | reading a full record over the struct yields the medium's record; reading nothing leaves the struct as it was |
| `Storage.LoadFrom` | src/DeviceKeyHelperRK.h:157-345 | EEPROM and FRAM loads always succeed; a file load succeeds only if the file exists and opens; a successful load that read a whole record yields the record stored on the medium |
| `Storage.SaveTo` | src/DeviceKeyHelperRK.h:157-345 | every adapter's save keeps EEPROM and FRAM a full record window |
| `Storage.MemoryMediaAlwaysSucceed` | src/DeviceKeyHelperRK.h:157-167 | EEPROM (and likewise FRAM) load and save always report success, load yields the stored record and save stores the record image |
| `Storage.FileLoadNeedsFullRecord` | src/DeviceKeyHelperRK.h:190-257 | a SPIFFS or SdFat load succeeds iff the file opens, its length is the record size and a full record is read; it then yields the file's record |
| `Storage.FileSaveNeedsFullRecord` | src/DeviceKeyHelperRK.h:190-257 | a SPIFFS or SdFat save succeeds iff the file opens and a full record is written; the file then holds exactly the record image |
| `Storage.FlasheeIgnoresByteCount` | src/DeviceKeyHelperRK.h:314-345 | flashee load and save report success on FR_OK even when no bytes moved; the struct is left unchanged |
| `Storage.FlasheeSucceedsOnFrOk` | src/DeviceKeyHelperRK.h:313-345 | for every file state and report, a flashee load succeeds iff the file exists, opens and the read returns FR_OK, and a save succeeds iff the open and the write return FR_OK; the byte count plays no part |
| `Storage.SaveThenLoad` | src/DeviceKeyHelperRK.h:56-64 | on every medium, a successful full save is read back as the same record by a later clean load |
| `Storage.Backend.constructor` | src/DeviceKeyHelperRK.h:131-132 | a backend starts on the given medium and contents with no loads or saves |
| `Storage.Backend.Load` | src/DeviceKeyHelperRK.h:58 | load reports and yields what the medium's adapter gives, and counts one load |
| `Storage.Backend.Save` | src/DeviceKeyHelperRK.h:62 | save changes the medium as the adapter does, reports its success, and counts one save |
| `Engine.Backup` | src/DeviceKeyHelperRK.cpp:25-37 | a forced check has no backup (load is not called); otherwise EEPROM and FRAM always yield their stored record, and a clean load of a present file of record size yields the file's record |
| `Engine.Decide` | src/DeviceKeyHelperRK.cpp:32-71 | a save always writes a valid record holding the live keys; a restore only happens from a loaded valid backup whose keys differ from the live keys, and restores exactly those keys; nothing is done only when the backup is the record built from the live keys |
| `Engine.ForcedCheckSaves` | src/DeviceKeyHelperRK.cpp:32-35 | a forced check saves the record built from the live keys whatever the backup holds |
| `Engine.SaveIff` | src/DeviceKeyHelperRK.cpp:60-71 | the check saves iff it is forced, load failed or the loaded record is invalid, and it then saves the record built from the live keys |
| `Engine.KeepIff` | src/DeviceKeyHelperRK.cpp:55-58 | the check does nothing iff it loaded a valid record whose keys equal the live keys |
| `Engine.RestoreIff` | src/DeviceKeyHelperRK.cpp:42-53 | the check restores iff it loaded a valid record whose keys differ from the live keys, and restores exactly those keys |
| `Engine.CheckConverges` | src/DeviceKeyHelperRK.cpp:20-90 | with full I/O success, after any check the next unforced check does nothing |
| `Engine.FlasheeEmptySaveNotReconciled` | src/DeviceKeyHelperRK.h:330-345 | a flashee save that reports success after writing no bytes leaves an empty file; the next load whose open and read return FR_OK (any byte count) yields the zeroed struct, which is invalid, so the next check saves again |
| `Engine.ScenarioNoBackupFile` | src/DeviceKeyHelperRK.cpp:67-83 | all-0x01 keys with no backup file: a valid record with checksum 1600 is saved and the live keys stay |
| `Engine.ScenarioRestoreFromEeprom` | src/DeviceKeyHelperRK.cpp:37-53 | all-0x02 live keys against an EEPROM backup of all-0x01 keys: the backup keys are restored, the read-back verifies, and the device resets |
| `Engine.KeySlot.ReadInto` | src/DeviceKeyHelperRK.cpp:28 | the buffer receives a copy of the live key slot |
| `Engine.KeySlot.Write` | src/DeviceKeyHelperRK.cpp:44 | the slot holds the new keys when the write lands and is unchanged otherwise; one write is counted |
| `Engine.DeviceKeyHelper.constructor` | src/DeviceKeyHelperRK.cpp:12-14 | the helper keeps the backend (load and save) it is given |
| `Engine.DeviceKeyHelper.Check` | src/DeviceKeyHelperRK.cpp:20-90 | outcome, live slot and medium follow `Decide`: a forced check never loads and never writes the live slot; exactly one save happens iff the decision is to save; a restore writes the slot once, never saves, and ends in a reset whether or not the read-back matched |

## Left out

- The connection monitor (`startMonitor`, `eventHandler`, `eventHandlerStatic`, `getSystemDiagValue`, `getInstance`, the `failureCount` and `connected` fields): the source declares them but does not define them.
- The `CheckMode` variants and `bool check(CheckMode)`: declared in the header with no matching definition. The model follows `check(bool)`.
- `delay(5000)` and `System.reset()`: modelled as the terminal outcome `RestoredThenReset`; timing is not modelled.
- Logging: it has no effect on behaviour.
- Heap allocation and its null checks: allocation cannot fail in Dafny.
- The real storage libraries (EEPROM, SPIFFS, SdFat, FRAM over I2C, FatFs): each is reduced to the bytes it holds; for the three file adapters, also the `Io` report of one call.
- Storage.MemoryMediaAlwaysSucceed: EEPROM and FRAM transfers are assumed to move the whole record. The adapters ignore the outcome of `EEPROM.get/put` and `fram.get/put` and always return true, so a failed FRAM (I2C) transfer would report success with a struct that is not the stored record; the model does not capture that case.
- The DCT offset: the live slot is modelled as the key bytes alone, not the whole DCT.
- Engine.KeySlot.Write: a write that does not land leaves the slot unchanged; a partially written slot is not modelled. Its result code is assumed to be zero exactly on success.
- Storage.ReadOver: a library call is assumed never to read more bytes than the file holds or the record needs.
- The example sketches: only wiring, pin and bus set-up and mount calls.

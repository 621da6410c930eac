/** The backup media of DeviceKeyHelperRK and the load/save contract they offer
    to the engine: each returns true on success and false on error.

    A medium is described by what it holds (`MediumState`). What the foreign
    library reports for one call (whether the file opened, how many bytes moved,
    the FatFs status code) is outside the library and is passed in as an `Io`. */
module Storage {
  import opened Layout

  /** The five adapters: emulated EEPROM, I2C FRAM, a SPIFFS file, an SD card
      file (SdFat) and a flashee-eeprom FAT file. */
  datatype Medium = Eeprom | Fram | SpiffsFile | SdFatFile | FlasheeFile {
    /** EEPROM and FRAM are a byte window at a fixed offset, always present. */
    predicate IsMemory() {
      Eeprom? || Fram?
    }
  }

  /** The bytes on the medium: for EEPROM and FRAM the RECORD_SIZE bytes at the
      configured offset, for a file whether it exists and its contents. */
  datatype MediumState = MediumState(present: bool, image: seq<byte>)

  /** What the library reports for one call: whether the open succeeded, the
      byte count the read or write returned, and (flashee only) whether the
      read or write returned FR_OK. */
  datatype Io = Io(opens: bool, transferred: nat, status: bool)

  /** A call that opens, moves the whole record and reports no error. */
  predicate Clean(io: Io) {
    io.opens && io.transferred >= RECORD_SIZE && io.status
  }

  predicate WellFormed(m: Medium, s: MediumState) {
    m.IsMemory() ==> |s.image| == RECORD_SIZE
  }

  function Min(a: nat, b: nat): nat {
    if a <= b then a else b
  }

  /** The bytes a read or write moved: what the library reported, never more
      than one record. */
  function Moved(io: Io): nat {
    Min(io.transferred, RECORD_SIZE)
  }

  /** The struct after reading up to `n` bytes of `data` over it: the bytes read
      replace the front of the old image, the rest keeps what `buf` held. */
  function ReadOver(buf: Record, data: seq<byte>, n: nat): (r: Record)
    ensures n >= RECORD_SIZE && |data| >= RECORD_SIZE ==> r == Decode(data[..RECORD_SIZE])
    ensures n == 0 || data == [] ==> r == buf
  {
    var k := Min(n, Min(|data|, RECORD_SIZE));
    var image := data[..k] + Encode(buf)[k..];
    assert k == RECORD_SIZE ==> image == data[..RECORD_SIZE];
    assert k == 0 ==> image == Encode(buf);
    DecodeEncode(buf);
    Decode(image)
  }

  datatype LoadResult = LoadResult(ok: bool, record: Record)

  /** The load lambda of each adapter, reading into the struct `buf`. */
  function LoadFrom(m: Medium, s: MediumState, buf: Record, io: Io): (res: LoadResult)
    requires WellFormed(m, s)
    ensures m.IsMemory() ==> res.ok
    ensures res.ok && !m.IsMemory() ==> s.present && io.opens
    ensures res.ok && |s.image| >= RECORD_SIZE && io.transferred >= RECORD_SIZE ==>
              res.record == Decode(s.image[..RECORD_SIZE])
  {
    assert m.IsMemory() ==> s.image[..RECORD_SIZE] == s.image;
    match m
    case Eeprom | Fram =>
      LoadResult(true, Decode(s.image))
    case SpiffsFile | SdFatFile =>
      if !(s.present && io.opens) || |s.image| != RECORD_SIZE then LoadResult(false, buf)
      else LoadResult(Moved(io) == RECORD_SIZE, ReadOver(buf, s.image, io.transferred))
    case FlasheeFile =>
      if !(s.present && io.opens) then LoadResult(false, buf)
      else LoadResult(io.status, ReadOver(buf, s.image, io.transferred))
  }

  datatype SaveResult = SaveResult(ok: bool, state: MediumState)

  /** The save lambda of each adapter. A file is created or truncated when it
      opens, and then holds the bytes that were written. */
  function SaveTo(m: Medium, s: MediumState, r: Record, io: Io): (res: SaveResult)
    requires WellFormed(m, s)
    ensures WellFormed(m, res.state)
  {
    match m
    case Eeprom | Fram =>
      SaveResult(true, s.(image := Encode(r)))
    case SpiffsFile | SdFatFile =>
      if !io.opens then SaveResult(false, s)
      else SaveResult(Moved(io) == RECORD_SIZE, MediumState(true, Encode(r)[..Moved(io)]))
    case FlasheeFile =>
      if !io.opens then SaveResult(false, s)
      else SaveResult(io.status, MediumState(true, Encode(r)[..Moved(io)]))
  }

  /** EEPROM and FRAM report success for every load and every save. */
  lemma MemoryMediaAlwaysSucceed(m: Medium, s: MediumState, buf: Record, r: Record, io: Io)
    requires m.IsMemory() && WellFormed(m, s)
    ensures LoadFrom(m, s, buf, io).ok && SaveTo(m, s, r, io).ok
    ensures LoadFrom(m, s, buf, io).record == Decode(s.image)
    ensures SaveTo(m, s, r, io).state.image == Encode(r)
  {
  }

  /** A SPIFFS or SdFat load succeeds exactly when the file opens, its length
      is the record size and a full record is read; it then yields the file's
      record. */
  lemma FileLoadNeedsFullRecord(m: Medium, s: MediumState, buf: Record, io: Io)
    requires m == SpiffsFile || m == SdFatFile
    ensures LoadFrom(m, s, buf, io).ok <==>
              s.present && io.opens && |s.image| == RECORD_SIZE && io.transferred >= RECORD_SIZE
    ensures LoadFrom(m, s, buf, io).ok ==> LoadFrom(m, s, buf, io).record == Decode(s.image)
  {
    if LoadFrom(m, s, buf, io).ok {
      assert s.image[..RECORD_SIZE] == s.image;
    }
  }

  /** A SPIFFS or SdFat save succeeds exactly when the file opens and a full
      record is written; the file then holds the record's image. */
  lemma FileSaveNeedsFullRecord(m: Medium, s: MediumState, r: Record, io: Io)
    requires m == SpiffsFile || m == SdFatFile
    ensures SaveTo(m, s, r, io).ok <==> io.opens && io.transferred >= RECORD_SIZE
    ensures SaveTo(m, s, r, io).ok ==> SaveTo(m, s, r, io).state == MediumState(true, Encode(r))
  {
  }

  /** The flashee load reports success whenever open and read return FR_OK,
      whatever the number of bytes read: an empty file loads "successfully" and
      leaves the struct as it was. The same holds for its save. */
  lemma FlasheeIgnoresByteCount(buf: Record, r: Record)
    ensures LoadFrom(FlasheeFile, MediumState(true, []), buf, Io(true, 0, true)) == LoadResult(true, buf)
    ensures SaveTo(FlasheeFile, MediumState(false, []), r, Io(true, 0, true)) ==
              SaveResult(true, MediumState(true, []))
  {
  }

  /** For every file state and every library report, the flashee load and save
      succeed exactly when the open and the read or write return FR_OK; the
      byte count never enters. */
  lemma FlasheeSucceedsOnFrOk(s: MediumState, buf: Record, r: Record, io: Io)
    ensures LoadFrom(FlasheeFile, s, buf, io).ok <==> s.present && io.opens && io.status
    ensures SaveTo(FlasheeFile, s, r, io).ok <==> io.opens && io.status
  {
  }

  /** On every medium, a successful save that wrote the whole record is read
      back as the same record by a later clean load. */
  lemma {:induction false} SaveThenLoad(m: Medium, s: MediumState, r: Record, saveIo: Io, buf: Record, loadIo: Io)
    requires WellFormed(m, s)
    requires SaveTo(m, s, r, saveIo).ok
    requires saveIo.transferred >= RECORD_SIZE
    requires Clean(loadIo)
    ensures LoadFrom(m, SaveTo(m, s, r, saveIo).state, buf, loadIo) == LoadResult(true, r)
  {
    var s' := SaveTo(m, s, r, saveIo).state;
    DecodeEncode(r);
    if !m.IsMemory() {
      assert Encode(r)[..Moved(saveIo)] == Encode(r);
      assert s' == MediumState(true, Encode(r));
    }
  }

  /** One backup medium together with the library calls that reach it. */
  class Backend {
    const medium: Medium
    var state: MediumState
    ghost var loads: nat
    ghost var saves: nat

    ghost predicate Valid()
      reads this
    {
      WellFormed(medium, state)
    }

    constructor (medium: Medium, state: MediumState)
      requires WellFormed(medium, state)
      ensures Valid()
      ensures this.medium == medium && this.state == state
      ensures loads == 0 && saves == 0
    {
      this.medium := medium;
      this.state := state;
      loads, saves := 0, 0;
    }

    /** load(savedData): fills `buf` from the medium and reports success. */
    method Load(buf: Record, io: Io) returns (ok: bool, rec: Record)
      requires Valid()
      modifies this`loads
      ensures LoadResult(ok, rec) == LoadFrom(medium, state, buf, io)
      ensures loads == old(loads) + 1
    {
      var res := LoadFrom(medium, state, buf, io);
      ok, rec := res.ok, res.record;
      loads := loads + 1;
    }

    /** save(savedData): writes the record to the medium and reports success. */
    method Save(r: Record, io: Io) returns (ok: bool)
      requires Valid()
      modifies this`state, this`saves
      ensures Valid()
      ensures SaveResult(ok, state) == SaveTo(medium, old(state), r, io)
      ensures saves == old(saves) + 1
    {
      var res := SaveTo(medium, state, r, io);
      ok, state := res.ok, res.state;
      saves := saves + 1;
    }
  }
}

/** The reconciliation routine of DeviceKeyHelperRK: `check` reads the live key
    slot, optionally loads the backup, and then either does nothing, saves a
    freshly built record, or overwrites the live slot from the backup and
    resets the device.

    `Decide` says which of the three a call does; `Apply` and `Report` say what
    the two stores hold afterwards and what the call ends in. The method
    `DeviceKeyHelper.Check` is proved to follow them. */
module Engine {
  import opened Layout
  import opened Codec
  import opened Storage

  datatype Option<T> = None | Some(value: T)

  /** The three things one check can do. */
  datatype Action = Keep | SaveBuilt(record: Record) | Restore(keys: KeyBlob)

  /** How a check ends. `Saved` carries the value save returned, which the
      routine ignores; `RestoredThenReset` carries whether the read-back
      matched, which the routine only logs before it resets anyway. */
  datatype Outcome = Unchanged | Saved(saveOk: bool) | RestoredThenReset(verified: bool)

  /** The value-initialised struct allocated at the start of each check. */
  function EmptyRecord(): Record {
    Record(0, 0, 0, seq(KEY_SIZE, _ => 0))
  }

  /** The backup the routine goes on with: none when a save is forced (load is
      not called) or when load reports failure, otherwise the loaded record. */
  function Backup(force: bool, m: Medium, s: MediumState, io: Io): (b: Option<Record>)
    requires WellFormed(m, s)
    ensures force ==> b == None
    ensures !force && m.IsMemory() ==> b == Some(Decode(s.image))
    ensures !force && Clean(io) && s.present && |s.image| == RECORD_SIZE ==> b == Some(Decode(s.image))
  {
    assert |s.image| == RECORD_SIZE ==> s.image[..RECORD_SIZE] == s.image;
    if force then None
    else
      var res := LoadFrom(m, s, EmptyRecord(), io);
      if res.ok then Some(res.record) else None
  }

  /** The decision of one check from the live keys and the loaded backup. */
  function Decide(force: bool, live: KeyBlob, backup: Option<Record>): (act: Action)
    ensures act.SaveBuilt? ==> ValidateData(act.record) && act.record.keys == live
    ensures act.Restore? ==> act.keys != live && backup.Some? && ValidateData(backup.value)
                             && backup.value.keys == act.keys
    ensures act.Keep? ==> backup == Some(Build(live))
  {
    if force then SaveBuilt(Build(live))
    else
      match backup
      case None => SaveBuilt(Build(live))
      case Some(r) =>
        ValidIffBuilt(r);
        if !ValidateData(r) then SaveBuilt(Build(live))
        else if r.keys == live then Keep
        else Restore(r.keys)
  }

  /** The live keys and the medium after the action; `lands` says whether the
      write to the live slot took effect. */
  function Apply(act: Action, live: KeyBlob, m: Medium, s: MediumState, saveIo: Io, lands: bool): (KeyBlob, MediumState)
    requires WellFormed(m, s)
  {
    match act
    case Keep => (live, s)
    case SaveBuilt(r) => (live, SaveTo(m, s, r, saveIo).state)
    case Restore(k) => (if lands then k else live, s)
  }

  function Report(act: Action, m: Medium, s: MediumState, saveIo: Io, lands: bool): Outcome
    requires WellFormed(m, s)
  {
    match act
    case Keep => Unchanged
    case SaveBuilt(r) => Saved(SaveTo(m, s, r, saveIo).ok)
    case Restore(_) => RestoredThenReset(lands)
  }

  /** A forced check saves the record built from the live keys, whatever the
      backup holds, even when it already holds exactly that record. */
  lemma ForcedCheckSaves(live: KeyBlob, backup: Option<Record>)
    ensures Decide(true, live, backup) == SaveBuilt(Build(live))
    ensures ValidateData(Build(live)) && Build(live).keys == live
  {
  }

  /** Without a usable backup (load failed, or the record is invalid) the check
      saves the record built from the live keys; these are the only
      circumstances in which it saves. */
  lemma SaveIff(force: bool, live: KeyBlob, backup: Option<Record>)
    ensures Decide(force, live, backup).SaveBuilt? <==>
              force || backup.None? || !ValidateData(backup.value)
    ensures Decide(force, live, backup).SaveBuilt? ==>
              Decide(force, live, backup).record == Build(live)
  {
  }

  /** The check does nothing exactly when it loaded a valid backup whose keys
      equal the live keys. */
  lemma KeepIff(force: bool, live: KeyBlob, backup: Option<Record>)
    ensures Decide(force, live, backup) == Keep <==>
              !force && backup.Some? && ValidateData(backup.value) && backup.value.keys == live
  {
  }

  /** The check restores exactly when it loaded a valid backup whose keys
      differ from the live keys, and it restores those keys. */
  lemma RestoreIff(force: bool, live: KeyBlob, backup: Option<Record>)
    ensures Decide(force, live, backup).Restore? <==>
              !force && backup.Some? && ValidateData(backup.value) && backup.value.keys != live
    ensures Decide(force, live, backup).Restore? ==>
              Decide(force, live, backup).keys == backup.value.keys
  {
  }

  /** When every library call succeeds in full and the live write lands, one
      check leaves the stores reconciled: the next unforced check does nothing. */
  lemma {:induction false} CheckConverges(force: bool, live: KeyBlob, m: Medium, s: MediumState, loadIo: Io, saveIo: Io)
    requires WellFormed(m, s)
    requires Clean(loadIo) && Clean(saveIo)
    ensures var act := Decide(force, live, Backup(force, m, s, loadIo));
            var after := Apply(act, live, m, s, saveIo, true);
            Decide(false, after.0, Backup(false, m, after.1, loadIo)) == Keep
  {
    var act := Decide(force, live, Backup(force, m, s, loadIo));
    match act
    case Keep =>
    case SaveBuilt(r) =>
      assert SaveTo(m, s, r, saveIo).ok;
      SaveThenLoad(m, s, r, saveIo, EmptyRecord(), loadIo);
    case Restore(k) =>
      RestoreIff(force, live, Backup(force, m, s, loadIo));
  }

  /** Why `CheckConverges` needs a full write: a flashee save that reports
      success after writing no bytes leaves an empty file; the next load that
      opens it and gets FR_OK reads nothing (whatever byte count is reported)
      and so yields the zeroed struct, which fails validation, and the next
      check saves again instead of doing nothing. */
  lemma {:induction false} FlasheeEmptySaveNotReconciled(live: KeyBlob, s: MediumState, loadIo: Io)
    requires loadIo.opens && loadIo.status
    ensures var saved := SaveTo(FlasheeFile, s, Build(live), Io(true, 0, true));
            && saved.ok
            && Backup(false, FlasheeFile, saved.state, loadIo) == Some(EmptyRecord())
            && !ValidateData(EmptyRecord())
            && Decide(false, live, Backup(false, FlasheeFile, saved.state, loadIo)) == SaveBuilt(Build(live))
  {
    var saved := SaveTo(FlasheeFile, s, Build(live), Io(true, 0, true));
    assert saved.state == MediumState(true, []);
  }

  /** Live keys all 0x01 and no backup file yet: the check saves a valid
      record of those keys whose checksum is KEY_SIZE, and touches nothing else. */
  lemma {:induction false} ScenarioNoBackupFile(io: Io, saveIo: Io)
    requires Clean(saveIo)
    ensures var live: KeyBlob := seq(KEY_SIZE, _ => 1);
            var act := Decide(false, live, Backup(false, SpiffsFile, MediumState(false, []), io));
            && act == SaveBuilt(Record(DATA_HEADER_MAGIC, KEY_SIZE, KEY_SIZE, live))
            && Apply(act, live, SpiffsFile, MediumState(false, []), saveIo, true) ==
                 (live, MediumState(true, Encode(Record(DATA_HEADER_MAGIC, KEY_SIZE, KEY_SIZE, live))))
  {
    var live: KeyBlob := seq(KEY_SIZE, _ => 1);
    ByteSumConstant(KEY_SIZE, 1);
    assert Build(live) == Record(DATA_HEADER_MAGIC, KEY_SIZE, KEY_SIZE, live);
    assert Encode(Build(live))[..Moved(saveIo)] == Encode(Build(live));
  }

  /** Live keys all 0x02 and an EEPROM backup of keys all 0x01: the check
      restores the backup keys and ends in a reset, reporting a verified
      read-back when the write lands. */
  lemma {:induction false} ScenarioRestoreFromEeprom(io: Io, saveIo: Io)
    ensures var saved: KeyBlob := seq(KEY_SIZE, _ => 1);
            var live: KeyBlob := seq(KEY_SIZE, _ => 2);
            var s := MediumState(true, Encode(Build(saved)));
            var act := Decide(false, live, Backup(false, Eeprom, s, io));
            && act == Restore(saved)
            && Apply(act, live, Eeprom, s, saveIo, true) == (saved, s)
            && Report(act, Eeprom, s, saveIo, true) == RestoredThenReset(true)
  {
    var saved: KeyBlob := seq(KEY_SIZE, _ => 1);
    var live: KeyBlob := seq(KEY_SIZE, _ => 2);
    DecodeEncode(Build(saved));
    assert saved[0] != live[0];
  }

  /** The live key slot in the device configuration table. */
  class KeySlot {
    const keys: array<byte>
    ghost var writes: nat

    ghost predicate Valid()
      reads this
    {
      keys.Length == KEY_SIZE
    }

    constructor (init: KeyBlob)
      ensures Valid() && fresh(keys)
      ensures keys[..] == init && writes == 0
    {
      keys := new byte[KEY_SIZE](i requires 0 <= i < KEY_SIZE => init[i]);
      writes := 0;
    }

    /** dct_read_app_data_copy: copies the slot into `dst`. */
    method ReadInto(dst: array<byte>)
      requires Valid() && dst.Length == KEY_SIZE && dst != keys
      modifies dst
      ensures dst[..] == keys[..]
    {
      forall i | 0 <= i < KEY_SIZE {
        dst[i] := keys[i];
      }
    }

    /** dct_write_app_data: writes `src` into the slot when the write lands;
        the result code is zero exactly then. */
    method Write(src: KeyBlob, lands: bool) returns (res: int)
      requires Valid()
      modifies keys, this`writes
      ensures keys[..] == if lands then src else old(keys[..])
      ensures res == 0 <==> lands
      ensures writes == old(writes) + 1
    {
      if lands {
        forall i | 0 <= i < KEY_SIZE {
          keys[i] := src[i];
        }
        res := 0;
      } else {
        res := -1;
      }
      writes := writes + 1;
    }
  }

  /** A DeviceKeyHelper: one backup medium and the live key slot it guards. */
  class DeviceKeyHelper {
    const backend: Backend
    const slot: KeySlot

    ghost predicate Valid()
      reads this, backend, slot
    {
      backend.Valid() && slot.Valid()
    }

    constructor (backend: Backend, slot: KeySlot)
      requires backend.Valid() && slot.Valid()
      ensures Valid()
      ensures this.backend == backend && this.slot == slot
    {
      this.backend := backend;
      this.slot := slot;
    }

    /** check(forceSaveCurrentKey). The load and save calls report what
        `loadIo` and `saveIo` describe; `writeLands` says whether the write to
        the live slot takes effect. A restore ends in a reset, so nothing after
        it runs. */
    method Check(forceSaveCurrentKey: bool, loadIo: Io, saveIo: Io, writeLands: bool) returns (outcome: Outcome)
      requires Valid()
      modifies backend, slot, slot.keys
      ensures Valid()
      ensures var act := Decide(forceSaveCurrentKey, old(slot.keys[..]),
                                Backup(forceSaveCurrentKey, backend.medium, old(backend.state), loadIo));
              && outcome == Report(act, backend.medium, old(backend.state), saveIo, writeLands)
              && (slot.keys[..], backend.state) ==
                   Apply(act, old(slot.keys[..]), backend.medium, old(backend.state), saveIo, writeLands)
              && backend.saves == old(backend.saves) + (if act.SaveBuilt? then 1 else 0)
              && slot.writes == old(slot.writes) + (if act.Restore? then 1 else 0)
      ensures backend.loads == old(backend.loads) + (if forceSaveCurrentKey then 0 else 1)
    {
      var onDevice := new byte[KEY_SIZE];
      slot.ReadInto(onDevice);

      var saved := EmptyRecord();
      var saveKeys := false;
      outcome := Unchanged;

      if forceSaveCurrentKey {
        saveKeys := true;
      } else {
        var loaded;
        loaded, saved := backend.Load(saved, loadIo);
        if loaded {
          if ValidateData(saved) {
            if onDevice[..] != saved.keys {
              var res := slot.Write(saved.keys, writeLands);
              slot.ReadInto(onDevice);
              var verified := onDevice[..] == saved.keys;
              // delay(5000) and System.reset(): the call does not go on.
              outcome := RestoredThenReset(verified);
              return;
            }
          } else {
            saveKeys := true;
          }
        } else {
          saveKeys := true;
        }
      }

      if saveKeys {
        saved := saved.(keys := onDevice[..]);
        saved := saved.(magic := DATA_HEADER_MAGIC);
        saved := saved.(size := KEY_SIZE);
        var sum := CalculateChecksum(saved.keys);
        saved := saved.(sum := sum);
        var ok := backend.Save(saved, saveIo);
        outcome := Saved(ok);
      }
    }
  }
}

/**
  The database metadata header: compat_db_version reads the "version"
  record into the process-wide `dbversion`; write_db_version appends the
  "version" record and the "hashnames" record to a database being built.
*/
module DbVersion {
  import opened Wrappers
  import opened LibC
  import opened Cdb
  import opened HashRegistry
  import opened HashNames

  /** "version", 7 bytes, no terminator. */
  const VersionKey: seq<byte> := [0x76, 0x65, 0x72, 0x73, 0x69, 0x6F, 0x6E]

  /** "hashnames", 9 bytes, no terminator. */
  const HashNamesKey: seq<byte> := [0x68, 0x61, 0x73, 0x68, 0x6E, 0x61, 0x6D, 0x65, 0x73]

  /** The step named in the message when osec_fatal ends the process. */
  datatype FatalStep = CdbInit | CdbReadVersion

  /** How a call ends: returning a value, or the process terminating through osec_fatal. */
  datatype Exit = Returned(code: int) | Fatal(step: FatalStep)

  /** The process-wide state this file touches. */
  class Globals {
    /** The format revision of the database opened last. */
    var dbversion: int32

    constructor (initial: int32)
      ensures dbversion == initial
    {
      dbversion := initial;
    }

    /**
      compat_db_version(fd): 0 when the database has no "version" record, 1
      after loading it into `dbversion`; a database that cannot be opened,
      or a version record that cannot be read, is fatal.
    */
    method CompatDbVersion(fd: CdbFile) returns (r: Exit)
      modifies this
      ensures !fd.initOk ==> r == Fatal(CdbInit) && dbversion == old(dbversion)
      ensures fd.initOk && Find(fd.records, VersionKey).None? ==>
                r == Returned(0) && dbversion == old(dbversion)
      ensures fd.initOk && Find(fd.records, VersionKey).Some? ==>
                var v := Find(fd.records, VersionKey).value;
                if fd.readOk && IntSize <= |v|
                then r == Returned(1) && dbversion == IntOfBytes(v[..IntSize])
                else r == Fatal(CdbReadVersion) && dbversion == old(dbversion)
    {
      if !fd.initOk {
        return Fatal(CdbInit);
      }
      var found := Find(fd.records, VersionKey);
      if found.None? {
        return Returned(0);
      }
      var data := ReadData(fd, found.value, IntSize);
      if data.None? {
        return Fatal(CdbReadVersion);
      }
      dbversion := IntOfBytes(data.value);
      return Returned(1);
    }
  }

  /** Which of the fallible steps of write_db_version succeed. */
  datatype WriteFaults = WriteFaults(versionAddOk: bool, mallocOk: bool, hashNamesAddOk: bool)

  /**
    Lines filling the buffer of write_db_version: strcpy of the primary name,
    then, when the secondary is used, strcat of ":" and of the secondary name.
  */
  method FillHashNames(buf: array<byte>, primary: HashType, secondary: Option<HashType>,
                       useSecondary: bool)
    requires useSecondary == UsesSecondary(primary, secondary)
    requires buf.Length == EncodedLength(primary, secondary) + 1
    modifies buf
    ensures buf[..EncodedLength(primary, secondary)] == Encode(primary, secondary)
    ensures buf[EncodedLength(primary, secondary)] == NUL
  {
    var p := primary.hashname;
    StrCpy(buf, p);
    if useSecondary {
      var q := secondary.value.hashname;
      MemChrFirst(buf[..], NUL, |p|);
      StrCat(buf, [COLON]);
      assert buf[..|p| + 1] == p + [COLON];
      MemChrFirst(buf[..], NUL, |p| + 1);
      StrCat(buf, q);
      assert buf[..buf.Length - 1] == buf[..|p| + 1] + buf[|p| + 1..buf.Length - 1];
    }
  }

  /**
    write_db_version(cdbm, primary, secondary) with OSEC_DB_VERSION given as
    `version`: appends the version record, then the encoded hash names, and
    frees the buffer it allocates on every path.
  */
  method WriteDbVersion(cdbm: CdbMake, heap: Heap, primary: HashType, secondary: Option<HashType>,
                        version: int32, faults: WriteFaults) returns (ok: bool)
    modifies cdbm, heap
    ensures heap.live == old(heap.live)
    ensures ok <==> faults.versionAddOk && faults.mallocOk && faults.hashNamesAddOk
    ensures !faults.versionAddOk ==> cdbm.log == old(cdbm.log)
    ensures faults.versionAddOk && !ok ==>
              cdbm.log == old(cdbm.log) + [Record(VersionKey, IntBytes(version))]
    ensures ok ==> cdbm.log == old(cdbm.log) + [Record(VersionKey, IntBytes(version)),
                                                Record(HashNamesKey, Encode(primary, secondary))]
  {
    var rc := cdbm.Add(VersionKey, IntBytes(version), faults.versionAddOk);
    if rc != 0 {
      return false;
    }

    var hashesLen := |primary.hashname|;
    var useSecondary := false;
    if secondary.Some? && primary.hashname != secondary.value.hashname {
      hashesLen := hashesLen + |secondary.value.hashname| + 1;
      useSecondary := true;
    }
    assert hashesLen == EncodedLength(primary, secondary);

    var buffer := heap.Malloc(hashesLen + 1, faults.mallocOk);
    if buffer.None? {
      return false;
    }
    var buf := buffer.value;

    FillHashNames(buf, primary, secondary, useSecondary);

    rc := cdbm.Add(HashNamesKey, buf[..hashesLen], faults.hashNamesAddOk);
    if rc != 0 {
      heap.Free(buf);
      return false;
    }
    heap.Free(buf);
    return true;
  }

  /**
    A database whose builder held no header records before a successful
    write_db_version reads back the version written and decodes to the
    descriptors written.
  */
  lemma WrittenHeaderReadsBack(reg: Registry, log: seq<Record>, primary: HashType,
                               secondary: Option<HashType>, version: int32)
    requires Find(log, VersionKey).None? && Find(log, HashNamesKey).None?
    requires Registered(reg, primary) && COLON !in primary.hashname
    requires secondary.Some? ==> Registered(reg, secondary.value) && COLON !in secondary.value.hashname
    ensures var db := log + [Record(VersionKey, IntBytes(version)),
                             Record(HashNamesKey, Encode(primary, secondary))];
      && Find(db, VersionKey) == Some(IntBytes(version))
      && IntOfBytes(Find(db, VersionKey).value[..IntSize]) == version
      && Find(db, HashNamesKey) == Some(Encode(primary, secondary))
      && Decode(reg, Find(db, HashNamesKey).value)
         == Ok(Decoded(primary, if UsesSecondary(primary, secondary) then secondary else None))
  {
    var header := [Record(VersionKey, IntBytes(version)),
                   Record(HashNamesKey, Encode(primary, secondary))];
    FindAppend(log, header, VersionKey);
    FindAppend(log, header, HashNamesKey);
    assert VersionKey != HashNamesKey;
    assert header[1..] == [header[1]];
    assert IntBytes(version)[..IntSize] == IntBytes(version);
    IntBytesRoundTrip(version);
    DecodeEncode(reg, primary, secondary);
  }
}

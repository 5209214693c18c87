/**
  The constant database (cdb) library, seen from dbversion.c: a builder that
  appends records (cdb_make_add) and a reader that opens a file (cdb_init),
  finds a key (cdb_find) and reads bytes of the record found (cdb_read at
  cdb_datapos).
*/
module Cdb {
  import opened Wrappers
  import opened LibC

  datatype Record = Record(key: seq<byte>, value: seq<byte>)

  /** A database under construction: the records appended so far, in order. */
  class CdbMake {
    var log: seq<Record>

    constructor ()
      ensures log == []
    {
      log := [];
    }

    /**
      cdb_make_add: appends one record and returns 0, or returns non-zero
      when the write fails (`ioOk` false), leaving the log as it was.
    */
    method Add(key: seq<byte>, value: seq<byte>, ioOk: bool) returns (rc: int)
      modifies this
      ensures ioOk ==> rc == 0 && log == old(log) + [Record(key, value)]
      ensures !ioOk ==> rc != 0 && log == old(log)
    {
      if ioOk {
        log := log + [Record(key, value)];
        rc := 0;
      } else {
        rc := -1;
      }
    }
  }

  /**
    A database file handed to the reader: whether cdb_init accepts it, the
    records it holds, and whether reading record data succeeds.
  */
  datatype CdbFile = CdbFile(initOk: bool, records: seq<Record>, readOk: bool)

  /** cdb_find then the record's data: the value of the first record under `key`. */
  function Find(records: seq<Record>, key: seq<byte>): (r: Option<seq<byte>>)
    ensures r.None? <==> forall i :: 0 <= i < |records| ==> records[i].key != key
    ensures r.Some? ==> exists i :: 0 <= i < |records| && records[i] == Record(key, r.value)
                                    && forall j :: 0 <= j < i ==> records[j].key != key
  {
    if |records| == 0 then None
    else if records[0].key == key then Some(records[0].value)
    else
      var r := Find(records[1..], key);
      assert r.Some? ==> exists i :: 0 <= i < |records| - 1 && records[1..][i] == Record(key, r.value)
                                   && forall j :: 0 <= j < i ==> records[1..][j].key != key;
      assert forall i :: 0 <= i < |records| - 1 ==> records[1..][i] == records[i + 1];
      r
  }

  /** Appending records never hides one that is already found. */
  lemma {:induction false} FindAppend(a: seq<Record>, b: seq<Record>, key: seq<byte>)
    ensures Find(a + b, key) == if Find(a, key).Some? then Find(a, key) else Find(b, key)
  {
    if |a| > 0 {
      assert (a + b)[1..] == a[1..] + b;
      FindAppend(a[1..], b, key);
    } else {
      assert a + b == b;
    }
  }

  /**
    cdb_read(n bytes at the found record's data): fails on an I/O error or when
    the record holds fewer than `n` bytes.
  */
  function ReadData(f: CdbFile, value: seq<byte>, n: nat): (r: Option<seq<byte>>)
    ensures r.Some? <==> f.readOk && n <= |value|
    ensures r.Some? ==> |r.value| == n && r.value <= value
  {
    if f.readOk && n <= |value| then Some(value[..n]) else None
  }
}

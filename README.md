# osec database version header, modelled in Dafny

osec is a lightweight file-integrity checker. Its database is a constant
database (cdb) file. `src/dbversion.c` handles the database's metadata
header:

- the `"version"` record, an `int` format tag;
- the `"hashnames"` record, naming the hash algorithm(s) the database was built with:
  - `primary` when there is one algorithm, or when both algorithms have the same name;
  - `primary:secondary` otherwise.

The model covers the three parts of that file.

- **Hash-name codec** (`hashnames.dfy`, module `HashNames`)
  - `Encode` is the string that `write_db_version` builds.
  - `Decode` is what `get_hashes_from_string` computes, checked in the same order as the code.
  - `GetHashesFromString` replays the C function step by step. It returns the caller's two out-parameters as the function leaves them. On a failure, a slot that the function wrote before failing stays written.
- **Version reader and writer** (`dbversion.dfy`, module `DbVersion`)
  - `Globals.CompatDbVersion` loads the version tag into the process-wide `dbversion`. It can return 0 or 1, or end fatally.
  - `WriteDbVersion` appends the two records to a cdb builder. It fills its heap buffer in place and frees it.
- **Collaborators** (`libc.dfy`, `cdb.dfy`, `registry.dfy`). These hold the C library calls the file uses: `memchr`, `strlen`, `strcpy`, `strcat`, `malloc` and `free`. They also hold the host's 32-bit `int` and its byte layout. The cdb library is a builder with an append log and a reader over a record list. The hash registry is a map from a name to a descriptor.

Modelling conventions:

- Bytes are a `byte` newtype.
- A C string is its bytes before the terminator (`CStr` excludes NUL). So `strlen` is the length, and `strcmp(...) != 0` is inequality.
- Each fallible external step takes a flag that says whether it succeeds: `cdb_init`, `cdb_read`, `cdb_make_add` and `malloc`.
- `osec_fatal` is the outcome `Exit.Fatal`, which records the failed step.
- `OSEC_DB_VERSION` comes from `osec.h`, which is not part of this model. It is the `version` parameter of `WriteDbVersion`.

## Model

| member | source | states |
|---|---|---|
| `LibC.MemChr` | src/dbversion.c:87 | `memchr` yields the index of the first occurrence of the byte, or None exactly when the byte does not occur |
| `LibC.MemChrFirst` | src/dbversion.c:105 | any index holding a first occurrence is the one `memchr` returns |
| `LibC.StrLen` | src/dbversion.c:66-67 | `strlen` on the buffer yields the index of its first NUL |
| `LibC.CopyAt` | src/dbversion.c:63-67 | copies a C string and its terminator at an offset and leaves the other bytes unchanged |
| `LibC.StrCpy` | src/dbversion.c:63 | after `strcpy`, the buffer starts with the name followed by NUL, and the rest is unchanged |
| `LibC.StrCat` | src/dbversion.c:66-67 | `strcat` writes the string and a NUL at the buffer's first NUL and keeps what precedes it |
| `LibC.Heap.Malloc` | src/dbversion.c:56-61 | returns a fresh buffer of the requested size and records it as live, or returns NULL and changes nothing |
| `LibC.Heap.Free` | src/dbversion.c:72 | frees a live buffer |
| `LibC.IntBytes` | src/dbversion.c:40-43 | the in-memory form of the `int` version tag is exactly `sizeof(int)` bytes |
| `LibC.IntOfBytes` | src/dbversion.c:31 | loading `dbversion` from its 4 stored bytes: the value is congruent to their unsigned reading modulo 2^32 and is negative exactly when the top byte's sign bit is set; the definition is the model, and `IntBytesRoundTrip`/`IntOfBytesRoundTrip` show it inverts `IntBytes` |
| `LibC.IntBytesRoundTrip` | src/dbversion.c:31 | loading the 4 bytes of a stored `int` gives back the value stored |
| `LibC.IntOfBytesRoundTrip` | src/dbversion.c:31 | any 4 bytes are the stored form of the `int` read from them |
| `Cdb.CdbMake.Add` | src/dbversion.c:43 | `cdb_make_add` appends exactly one record and returns 0, or fails with a nonzero code and appends nothing |
| `Cdb.Find` | src/dbversion.c:28 | a key lookup finds nothing exactly when no record has that key; otherwise it gives the value of the first record with that key |
| `Cdb.FindAppend` | src/dbversion.c:40-78 | appending records never hides a record that was already found; a key not found before is looked up in the appended part |
| `Cdb.ReadData` | src/dbversion.c:31 | `cdb_read` of `sizeof(dbversion)` bytes succeeds exactly when I/O succeeds and the record holds at least that many bytes, and then yields a prefix of the record of exactly that length |
| `HashRegistry.Lookup` | src/dbversion.c:92 | `get_hash_type_data_by_name` returns a descriptor exactly when the name is registered, always one owned by the registry, carrying the name asked for when the registry is consistent (also lines 111 and 120) |
| `HashNames.UsesSecondary` | src/dbversion.c:51 | the `secondary && strcmp(...) != 0` test; when it holds, the secondary is present and is a different descriptor from the primary |
| `HashNames.EncodedLength` | src/dbversion.c:48-54 | the `hashes_len` computation: never less than `strlen(primary)`, and larger exactly when the secondary is used; `Encode` is proved to have this length |
| `HashNames.Encode` | src/dbversion.c:48-68 | the encoded string starts with the primary name; its length is `strlen(primary)`, plus `strlen(secondary) + 1` when the names differ |
| `HashNames.EncodeDedup` | src/dbversion.c:48-51 | a secondary with the primary's name encodes exactly like an absent secondary: as the primary name alone |
| `HashNames.EncodeDelimiters` | src/dbversion.c:51-68 | with colon-free names, the output holds a `:` exactly when the secondary is used, and never holds two |
| `HashNames.Decode` | src/dbversion.c:81-131 | the result of `get_hashes_from_string`; its definition, following the C checks in order, is the model. Its contract says decoded descriptors come from the registry, the one-name result is exactly a value without `:`, an invalid value is reported whole and an unknown name is a colon-free span. `DecodeEncode`, `EncodeDecode`, `DecodeRepeatedName`, `DecodeSecondColon`, `DecodeUnknownRight` and `DecodeUnknownLeft` describe it further |
| `HashNames.DecodeEncode` | src/dbversion.c:81-131 | decoding the encoded string of registered, colon-free names gives new = primary, and old = secondary when the names differ, otherwise absent |
| `HashNames.EncodeDecode` | src/dbversion.c:81-131 | with a registry whose names map to descriptors of that name, re-encoding a decoded value gives the original string, except for a value that names the same algorithm twice |
| `HashNames.DecodeRepeatedName` | src/dbversion.c:100-127 | the decoder accepts `A:A` (a form the writer never emits) and returns new = old = A |
| `HashNames.DecodeSecondColon` | src/dbversion.c:102-109 | any value with two `:` is refused as invalid, whatever its names are |
| `HashNames.DecodeUnknownRight` | src/dbversion.c:111-115 | with one `:`, an unknown right span is the one reported, even when the left span is also unknown |
| `HashNames.DecodeUnknownLeft` | src/dbversion.c:120-124 | with one `:` and a known right span, an unknown left span is reported |
| `HashNames.Store` | src/dbversion.c:89-90 | `if (slot) *slot = v`: a NULL out-pointer stays NULL and receives nothing; a non-NULL one ends holding `v` (also lines 98-99, 117-118, 126-127) |
| `HashNames.GetHashesFromString` | src/dbversion.c:81-131 | returns true exactly when the value decodes, and on success fills the new slot with the left descriptor and the old slot with the right one. On each failure path it leaves exactly the slots the C code leaves: with no `:`, the old slot is cleared even when the lookup fails; a second `:` or an unknown right span writes nothing; an unknown left span leaves the old slot written; a failure never writes the new slot |
| `DbVersion.Globals.CompatDbVersion` | src/dbversion.c:18-35 | a `cdb_init` failure is fatal. A missing `"version"` key returns 0 and leaves `dbversion` unchanged. A present record returns 1 and loads `dbversion` from its first `sizeof(int)` bytes. A present record that cannot be read is fatal, never 0 or 1 |
| `DbVersion.FillHashNames` | src/dbversion.c:63-68 | the `strcpy`/`strcat` sequence leaves exactly the encoded string, NUL-terminated, in a buffer of the computed length plus one |
| `DbVersion.WriteDbVersion` | src/dbversion.c:37-79 | appends `"version"` → the version tag, then `"hashnames"` → the encoded string, leaving earlier records intact, and returns true only when all three steps succeed. A failed version append writes nothing. A failed malloc or a failed hashnames append leaves only the version record. The heap's live buffers are the same on every exit |
| `DbVersion.WrittenHeaderReadsBack` | src/dbversion.c:18-79 | after a successful write to a builder with no earlier header records, the version key finds the tag written, which loads back as the same `int`, and the hashnames key finds a string that decodes to the descriptors written |

## Left out

- The cdb library is represented only by what this file sees of it. Its on-disk format, hashing and file I/O are not modelled. `cdb_find` finds the first record with the key, and the record list stands for the file.
- `cdb_read` is modelled as failing when the record holds fewer than `sizeof(int)` bytes, or when the I/O fails. The real call reads at the record's data offset in the file, with no bound from the record's length. So in the real program, a short record followed by more file data can be read without an error.
- A negative (error) return from `cdb_find` is not modelled; the lookup is either found or not found. Line 28 treats such a return like "found", and what `cdb_datapos` then yields depends on library internals that are not part of this model.
- `get_hash_type_data_by_name` and the descriptor layout are not part of this model. The registry is any finite map from a name to a descriptor, and `slot` stands for the descriptor's address. The round-trip lemmas assume two things the code does not check: each name resolves to the descriptor carrying it, and names contain no `:`.
- `osec_error` and `osec_fatal` are not modelled beyond their effect. Their message texts, `errno` and `%m` are left out. A fatal outcome is recorded as `Exit.Fatal` with the failed step, and the process termination itself is not modelled.
- `DbVersion.Globals.CompatDbVersion`: on a fatal path the model leaves `dbversion` as it was. The real `cdb_read` may have written part of it before the process ends.
- `OSEC_DB_VERSION` is a parameter, because its value lives in `osec.h`, which is not part of this model.
- The host byte order is taken as little-endian. The round trips hold for either order, because the writer and reader use the same one.
- The `(unsigned)` casts of lengths passed to cdb are not modelled. Names are assumed shorter than 2^32 bytes.
- `HashNames.GetHashesFromString` treats the two out-parameters as separate variables. A caller passing the same pointer for `new_hash` and `old_hash` is not modelled: there, clearing the old slot at line 90 also clears the new one, and on success the shared variable ends holding the left descriptor.
- `malloc` returns uninitialised memory, whereas a Dafny array starts zeroed. The fill proof does not depend on the initial contents.

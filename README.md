# LoFS path-routing facade, modelled in Dafny

LoFS gives an embedded device one file API over two storage backends:
LittleFS on the internal flash and an optional SD card. Each call is routed
by the path's prefix. `/lfs/...` goes to LittleFS and `/sd/...` goes to the
SD card. The backend sees the path with the prefix removed. A path with an
unrecognised prefix, or an SD path while the card is unavailable, fails
closed: `false`, a falsy `File`, or `0`, and no backend is touched. A
rename within one backend is that backend's native rename. A rename across
the two is open source, open destination, copy in chunks, then delete the
source.

Modules, leaves first:

- `Wrappers`: `Option`.
- `Routing`: the prefix classification `ParseRoute` into `FSType` (`LFS`,
  `SD`, `INVALID`) and the stripped path. `Join` is its inverse.
- `PathBuffer`: the two `parsePath` overloads. They write the stripped path,
  NUL-terminated, into a `char` array bounded by `bufferSize`.
- `Modes`: the integer and string open modes, each turned into `Read` or
  `Write`.
- `Storage`: a stand-in for the LittleFS and SD libraries. The class
  `Backend` holds a flat map from path to bytes, a set of directories, and
  the total and used byte counts the library reports. `Vol` is its value.
  The real libraries are not part of this model.
- `FacadeSpec`: what each LoFS operation does to the pair of backends. These
  are functions of the state before the call.
- `FacadeProperties`: lemmas that relate several calls or paths (fail-closed
  policy, rename outcome and effect, the self-test's expectations).
- `Facade`: the class `LoFS`. It owns both `Backend` objects, the
  `HAS_SDCARD` flag, the card-present flag and the copy chunk size. Each
  method is proved to produce the state and result that the matching
  `FacadeSpec` function gives.

The implementation file of LoFS is not part of this model. The behaviour
follows the declarations and comments of `src/LoFS.h` and what
`src/diagnostics.cpp` expects.

## Decisions

- Prefix-less paths are rejected, for every operation. The header comment
  (src/LoFS.h:26) says paths without a prefix default to LittleFS. The
  self-test expects `"no_prefix.txt"` to be rejected
  (src/diagnostics.cpp:358-360), and `"/invalid/prefix.txt"` as well
  (src/diagnostics.cpp:372-374). Both checks open a file that does not exist
  for reading, so a LittleFS default would give a falsy File too. But the
  self-test labels both paths as refused at the prefix ("Invalid path (no
  prefix)", "Invalid prefix"), and the model follows that labelling. `FacadeProperties.FailClosed`
  shows this one rule covers every operation.
- A marker counts only when the path is the marker alone or the marker
  followed by `/`. So `/sdcard/x` is `INVALID`.
- A bare marker (`"/lfs"`, `"/sd"`) addresses the backend root `"/"`. The
  self-test passes bare markers to the space queries.
- `parsePath` with a buffer refuses (`INVALID`) a stripped path whose
  terminator would not fit in `bufferSize`, and writes nothing. It also
  writes nothing for an `INVALID` path.
- The allocating `parsePath` overload always hands back a buffer of
  `strlen(filepath)+1` characters. For an `INVALID` path that buffer holds
  only NULs, so it reads as the empty string.
- The dispatcher parses every path with the buffer overload into a buffer of
  `pathBufferSize` characters, a constructor parameter of `LoFS`. A path
  whose stripped form and terminator do not fit is refused like an
  unrecognised prefix. The source's buffer size is not part of this model.
- Open modes: `0` and `"r"` mean read, `1` and `"w"` mean write (create or
  truncate). Any other value opens nothing.
- `freeBytes` is computed by the facade as a wrapping `uint64_t`
  subtraction. The backend invariant `used <= total < 2^64` shows it never
  wraps.
- Backend semantics (stand-in):
  - `mkdir` fails on an existing path.
  - `remove` deletes files only.
  - `rmdir` deletes directories but not the root.
  - Open-for-write fails on a directory.
  - Native rename moves a file and replaces a file already at the
    destination. It fails when the source is not a file or the destination
    is a directory.
- The chunk size of the cross-filesystem copy is a constructor parameter of
  `LoFS`. The source's value is not part of this model.
- A cross-backend rename whose source is a directory fails before anything
  is opened or changed. Only a file can be copied across. A read-open of a
  directory does succeed, as `exists` does.
- A Dafny `char` stands for one C `char`, so `|path|` is
  `strlen(filepath)` and `bufferSize` counts `char` cells.
- Every facade method takes its paths as C strings: sequences with no NUL
  character, since a `const char *` cannot hold one.
- The `File` a successful `open` returns records the backend, the stripped
  path and the mode.

## Model

| member | source | states |
|---|---|---|
| `Routing.ParseRoute` | src/LoFS.h:22-26 | A path is LFS exactly when it is `/lfs` or starts with `/lfs/`, and SD exactly when it is `/sd` or starts with `/sd/`; every other path is INVALID. The backend path starts with `/`, is never longer than the input, and the input is the marker followed by it (a bare marker means the root). |
| `Routing.StartsWith` | src/LoFS.h:22-24 | The character-by-character prefix comparison is true exactly when the prefix is no longer than the path and equals the path's first characters. Matching is case-sensitive. |
| `Routing.JoinParse` | src/LoFS.h:22-24 | The other half of the round trip: putting the marker back in front of an accepted path's backend path gives the original path. A bare marker comes back with a trailing `/`. |
| `Routing.ParseJoin` | src/LoFS.h:22-24 | Round trip: prefixing any backend path with a marker and parsing it gives back that filesystem and exactly that backend path, so the backend never sees the prefix. |
| `Routing.SelfTestRoutes` | src/diagnostics.cpp:129-130 | `/lfs/test_dir` and `/sd/test_dir` reach `/test_dir` on LittleFS and SD. |
| `Routing.NoPrefixRejected` | src/diagnostics.cpp:358-360 | `no_prefix.txt` is INVALID. |
| `Routing.UnknownPrefixRejected` | src/diagnostics.cpp:372-374 | `/invalid/prefix.txt` is INVALID. |
| `Routing.BareMarkers` | src/diagnostics.cpp:21-32 | The bare markers `/lfs` and `/sd`, as the space queries use them, address each backend's root. |
| `Routing.MarkerNeedsSeparator` | src/LoFS.h:22-24 | `/sdcard/log.txt` is not an SD path. |
| `PathBuffer.ParsePath` | src/LoFS.h:151-157 | Returns the path's filesystem when the stripped path and its NUL fit in `bufferSize`, and INVALID otherwise. The buffer then holds the stripped path and a NUL. Nothing at or past `bufferSize` is written, nothing at all on INVALID. A buffer of `strlen(filepath)+1` is always enough. |
| `PathBuffer.ParsePathAlloc` | src/LoFS.h:159-162 | It allocates a fresh buffer of `strlen(filepath)+1`, returns the path's classification unrefused, and fills the buffer with the stripped path and a NUL, or with NULs alone for an `INVALID` path. |
| `PathBuffer.CStringOf` | src/LoFS.h:154-157 | From a buffer holding a terminator, it returns exactly the characters before the first NUL. |
| `PathBuffer.ReadBack` | src/LoFS.h:154-157 | A NUL-free string written with its terminator at the start of a buffer is the only such string, so reading the buffer back gives exactly what `parsePath` wrote. |
| `Modes.ModeOfFlag` | src/LoFS.h:54-60 | An integer mode names an intent exactly when it is 0 (read) or 1 (write). |
| `Modes.ModeOfString` | src/LoFS.h:62-68 | A string mode names an intent exactly when it is `"r"` (read) or `"w"` (write). |
| `Modes.OverloadsAgree` | src/LoFS.h:54-68 | An integer mode and a string mode give the same intent exactly for 0 with `"r"` and for 1 with `"w"`. |
| `FacadeSpec.ExistsSpec` | src/LoFS.h:70-75 | `exists` is true exactly for a reachable file or directory, and never for a path that fails closed. |
| `FacadeSpec.OpenSpec` | src/LoFS.h:54-68 | Open for read succeeds exactly on an existing entry and changes nothing. Open for write succeeds exactly on a reachable non-directory and leaves an empty file there. A failed open returns the falsy File and changes nothing. Only the routed backend can change. |
| `FacadeSpec.MkdirSpec` | src/LoFS.h:77-82 | `mkdir` succeeds exactly on a reachable path that does not exist; the path then is a directory. On failure nothing changes. Only the routed backend can change. |
| `FacadeSpec.RemoveSpec` | src/LoFS.h:84-89 | `remove` succeeds exactly on a reachable file, which then no longer exists. On failure nothing changes. Only the routed backend can change. |
| `FacadeSpec.RmdirSpec` | src/LoFS.h:103-108 | `rmdir` succeeds exactly on a reachable directory other than a root, which then no longer exists. On failure nothing changes. Only the routed backend can change. |
| `FacadeSpec.RenameSpec` | src/LoFS.h:91-101 | If either path fails closed, `rename` returns false and changes nothing. Any failed rename leaves both backends as they were. |
| `FacadeSpec.CrossMove` | src/LoFS.h:97-99 | The copy-then-delete move succeeds exactly when the source is a file and the destination is not a directory; otherwise nothing changes. On success the source no longer exists and the destination holds the source's bytes. The backend invariant is kept. |
| `FacadeSpec.TotalSpec` | src/LoFS.h:119-124 | `totalBytes` is a uint64 value, and 0 for an invalid or unavailable filesystem. |
| `FacadeSpec.UsedSpec` | src/LoFS.h:126-131 | `usedBytes` never exceeds `totalBytes` for the same path, and is 0 for an invalid or unavailable filesystem. |
| `FacadeSpec.FreeSpec` | src/LoFS.h:133-138 | `freeBytes` equals `totalBytes - usedBytes` exactly, so it never wraps. Free plus used equals total. It is 0 for an invalid or unavailable filesystem. |
| `FacadeProperties.FailClosed` | src/diagnostics.cpp:356-375 | For a path that cannot be forwarded, every operation returns its failure sentinel and changes nothing. This covers exists, both open modes, mkdir, remove, rmdir, rename in either position, and the three space queries. |
| `FacadeProperties.InvalidPrefixNotForwarded` | src/LoFS.h:149 | A path classified INVALID is never forwarded, whatever the card state. |
| `FacadeProperties.OverlongPathNotForwarded` | src/LoFS.h:151-157 | A path whose stripped form and terminator do not fit in the parse buffer is never forwarded, whatever its prefix. |
| `FacadeProperties.SelfTestErrorPaths` | src/diagnostics.cpp:358-374 | `no_prefix.txt` and `/invalid/prefix.txt` are never forwarded. |
| `FacadeProperties.SdUnavailableNotForwarded` | src/diagnostics.cpp:366-369 | With the card unavailable, no SD path is forwarded, so the SD backend is not called. |
| `FacadeProperties.RenameSucceedsIff` | src/LoFS.h:91-101 | `rename` succeeds exactly when the source is a reachable file and the destination is reachable and not a directory. This holds for both the native and the cross-backend form. |
| `FacadeProperties.RenameMoves` | src/diagnostics.cpp:245-252 | After a successful rename between two different locations, the old path does not exist, the new path exists, and the new path holds exactly the old path's bytes. |
| `FacadeProperties.RenameFrame` | src/LoFS.h:97-99 | `rename` changes no file and no directory at any other location. |
| `FacadeProperties.SameBackendRenameKeepsOther` | src/diagnostics.cpp:345-348 | A rename within one backend leaves the other backend unchanged. |
| `FacadeProperties.CrossRename` | src/diagnostics.cpp:241-262 | A file renamed to a non-directory on the other backend succeeds; the self-test does this from LittleFS to SD. The source is gone, and the destination holds the same bytes. |
| `FacadeProperties.CrossRenameBothDirections` | src/LoFS.h:97-99 | The cross-backend move holds from LittleFS to SD and from SD to LittleFS. |
| `FacadeProperties.ReverseStepStaysOnLittleFs` | src/diagnostics.cpp:270-281 | Both paths of the step logged as "SD->LFS" are LittleFS paths, so that rename never reaches the SD card. |
| `FacadeProperties.ReverseStepAsIntended` | src/diagnostics.cpp:270-281 | With the source on the SD card, as the log line means it, the rename moves the file to LittleFS byte for byte and removes the source. |
| `FacadeProperties.RemoveTwice` | src/LoFS.h:84-89 | Removing a path a second time fails and changes nothing. |
| `FacadeProperties.CreateThenRead` | src/diagnostics.cpp:51-66 | After a successful open for write, the path exists and can be opened for reading. |
| `FacadeProperties.MkdirThenExists` | src/diagnostics.cpp:132-141 | A directory made by `mkdir` is found by `exists`. |
| `FacadeProperties.RenameToNonDirectory` | src/diagnostics.cpp:316-322 | A file renamed to a different reachable location that is not a directory succeeds, replacing any file there. The old name disappears and the new one holds the old bytes. |
| `Facade.LoFS.IsSDCardAvailable` | src/LoFS.h:110-117 | True exactly when SD support is compiled in and a card is present. It is always false without `HAS_SDCARD`. |
| `Facade.LoFS.Locate` | src/LoFS.h:151-157 | Parsing `path` into a buffer of `pathBufferSize` characters and reading the backend path back gives exactly the forwarding decision `Resolve`. The decision is the route for an LFS path, or for an SD path while the card is available, provided the stripped path and its NUL fit; otherwise it is nothing. |
| `Facade.LoFS.Exists` | src/LoFS.h:70-75 | Returns `ExistsSpec` of the current backends. |
| `Facade.LoFS.Open` | src/LoFS.h:54-68 | The new backends and the returned File are those of `OpenSpec`. A backend the path is not forwarded to is unchanged. |
| `Facade.LoFS.OpenFlag` | src/LoFS.h:54-60 | Mode 0 or 1 behaves as `Open` with read or write. Any other value returns the falsy File and touches no backend. |
| `Facade.LoFS.OpenMode` | src/LoFS.h:62-68 | `"r"` or `"w"` behaves as `Open` with read or write. Any other string returns the falsy File and touches no backend. |
| `Facade.LoFS.Mkdir` | src/LoFS.h:77-82 | New backends and result are those of `MkdirSpec`. A backend the path is not forwarded to is unchanged. |
| `Facade.LoFS.Remove` | src/LoFS.h:84-89 | New backends and result are those of `RemoveSpec`. A backend the path is not forwarded to is unchanged. |
| `Facade.LoFS.Rmdir` | src/LoFS.h:103-108 | New backends and result are those of `RmdirSpec`. A backend the path is not forwarded to is unchanged. |
| `Facade.LoFS.Rename` | src/LoFS.h:91-101 | New backends and result are those of `RenameSpec`. When either path fails closed, neither backend changes. |
| `Facade.LoFS.MoveAcross` | src/LoFS.h:97-99 | The chunked stream copy followed by deleting the source gives exactly the state and result of `CrossMove`. |
| `Facade.LoFS.TotalBytes` | src/LoFS.h:119-124 | Returns `TotalSpec`. |
| `Facade.LoFS.UsedBytes` | src/LoFS.h:126-131 | Returns `UsedSpec`. |
| `Facade.LoFS.FreeBytes` | src/LoFS.h:133-138 | Returns `FreeSpec`; free plus used is total. |

## Findings

| source | as written | input that shows it | evidently intended | confidence | as-written member | corrected member |
|---|---|---|---|---|---|---|
| src/diagnostics.cpp:270-281 | The step logged as "Cross-filesystem rename (SD->LFS)" renames `sourceFile` to `destFileLFS`, and both are LittleFS paths (src/diagnostics.cpp:225-227). | `/lfs/cross_test_source.txt` to `/lfs/cross_test_dest.txt`: a native LittleFS rename. | A source on the SD card, so that the copy runs from SD to LittleFS. | not executed; read from the text | `FacadeProperties.ReverseStepStaysOnLittleFs` | `FacadeProperties.ReverseStepAsIntended` |

## Left out

- The implementation file of LoFS is not part of this model. Where a
  behaviour is not fixed by the header or the self-test, the choice is
  listed under Decisions.
- `File` handle internals (`write`, `readBytes`, `size`, stream positions):
  an opened handle is a value, and writing through it is not modelled. So
  the self-test's write-N-bytes-and-read-back check is not stated; open for
  write only creates or truncates the file.
- The LittleFS and SD libraries themselves. They are a flat namespace with
  no parent directories, no non-empty-directory check, no media errors and
  no out-of-space condition. Writing files does not change the reported
  used bytes.
- Because backend primitives on reachable files do not fail here, the two
  partial outcomes of the cross-filesystem move are not represented: a
  write failing part-way, and a source delete failing after the copy.
- Card hot-insertion: the card-present flag is set at construction and no
  facade operation changes it.
- Allocation failure in the allocating `parsePath` overload.
- The public enum `FilesystemType` (`LFS = 0`, `SD = 1`): no declared
  operation takes it.
- The `FILE_READ`/`FILE_WRITE` platform defines (src/LoFS.h:7-17), which
  are compile-time configuration.
- Logging, the self-test routine itself, and the module/plugin registration
  (`src/LofsTestModule.h`, `src/plugin.h`).
- Concurrency: the facade is single-threaded and synchronous.

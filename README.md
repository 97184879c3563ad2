# NUL-terminated string list parser (Darwin attribute lists)

This project models `stringsFromByteSlice`, the helper in the Darwin system-call
tests of `golang.org/x/sys/unix`. It turns a byte buffer into a list of strings.
On Darwin, the kernel returns attribute lists as a run of names, each ended by a
NUL byte. The helper scans the buffer once. It keeps `off`, where the current
entry starts. At every zero byte it appends the bytes from `off` up to that zero
and moves `off` past it. Bytes after the last zero are dropped.

The model is in `darwin_strings.dfy`, module `DarwinStrings`:

- A byte is a `newtype` over `0..255`, and `NUL` is the byte 0. A Go `string`
  (an `Entry`) is its raw byte sequence. The result list is a `seq<Entry>`.
- `Split` is the pure specification. Each NUL ends one entry, made of the bytes
  since the previous NUL or since the start. It is defined recursively on the
  first NUL (`FirstNul`).
- `StringsFromByteSlice` is the Go loop, written as a `while` loop over `i` with
  `off` and `result`. Its invariants are: `0 <= off <= i`; `off` is 0 or one past
  a NUL; no NUL lies between `off` and `i`; and `result` is `Split` of the
  prefix before `off`. It is proved equal to `Split(buf)`.
- `Join` is the inverse: each entry followed by one NUL, all concatenated.
  `NulCount` counts zero bytes through the buffer's multiset, independently of
  the parser.

## Model

| member | source | states |
|---|---|---|
| DarwinStrings.StringsFromByteSlice | unix/syscall_darwin_test.go:19-29 | the single scan with `off` and `append` returns exactly `Split(buf)` |
| DarwinStrings.FirstNul | unix/syscall_darwin_test.go:22-23 | the position the scan stops at is a zero byte, with no zero before it |
| DarwinStrings.FirstNulUnique | unix/syscall_darwin_test.go:22-23 | any zero byte with no zero before it is the first zero |
| DarwinStrings.SplitEntriesHaveNoNul | unix/syscall_darwin_test.go:22-25 | no returned string contains a zero byte |
| DarwinStrings.SplitCount | unix/syscall_darwin_test.go:22-26 | the number of strings returned equals the number of zero bytes in the buffer |
| DarwinStrings.JoinSplit | unix/syscall_darwin_test.go:19-28 | the strings, each followed by one zero byte, concatenate to a prefix of the buffer that is empty or ends in a zero; the rest of the buffer has no zero |
| DarwinStrings.SplitJoin | unix/syscall_darwin_test.go:19-28 | parsing the join of zero-free strings gives those strings back |
| DarwinStrings.SplitIgnoresTail | unix/syscall_darwin_test.go:25-28 | appending zero-free bytes after the last terminator does not change the result |
| DarwinStrings.SplitEmptyIff | unix/syscall_darwin_test.go:20-28 | the result is empty exactly when the buffer has no zero byte (so also for an empty buffer) |
| DarwinStrings.SplitAppend | unix/syscall_darwin_test.go:22-26 | parsing a terminated prefix followed by anything is parsing the two parts and concatenating |
| DarwinStrings.SplitStep | unix/syscall_darwin_test.go:23-25 | one zero byte after a terminated prefix appends the bytes since `off` as one new entry |
| DarwinStrings.SplitEntryAt | unix/syscall_darwin_test.go:23-25 | the bytes between a start (0 or one past a zero) and the next zero form the entry whose index is the number of zeros before that start; entries follow the order of their terminators |
| DarwinStrings.SplitEmptyEntry | unix/syscall_darwin_test.go:23-25 | a zero at position 0, or right after another zero, yields an empty entry at the matching index |

## Left out

- `TestClonefile`, `TestClonefileatWithCwd`, `TestClonefileatWithRelativePaths` and `TestFclonefileat` (unix/syscall_darwin_test.go:31-182): test harnesses around kernel clone-file system calls. The wrappers they call are not part of this model.
- Creating and removing temporary files and directories, reading files, and opening and closing descriptors: these are filesystem I/O with no logic to model.
- Go's `nil` slice and empty slice are both modelled as the empty sequence `[]`.
- The `string(...)` conversion is modelled as copying the raw bytes. UTF-8 is not interpreted.

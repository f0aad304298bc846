# ESM fixed-size strings, verified in Dafny

This project models `ESM::FixedString<capacity>` from OpenMW's ESM layer.
`FixedString` is the character buffer that the ESM reader and writer use for
record and sub-record tags (`NAME`, four bytes) and for short names (`NAME32`,
`NAME64`). The model also covers the comparison operators defined on it.

Module layout:

- `CString` (`cstring.dfy`) models the C library calls the buffer relies on.
  Bytes are `Byte` (0..255). It has `strnlen` (`StrNLen`), `strncmp(...) == 0`
  (`StrNCmpEqual`), `memset` and `memcpy`. `Text` is the text a buffer holds:
  everything before its first NUL, or the whole buffer when it has none. The
  lemmas about `Text` (`TextIs`, `TextCons`, `TextAppend`, ...) are the
  reasoning tools for everything else.
- `ByteOrder` (`byteorder.dfy`) models the `std::uint32_t` that a four-byte
  tag is copied into and out of with `memcpy`. The host byte order is fixed to
  little-endian.
- `EsmCommon` (`esmcommon.dfy`) holds the `FixedString` class. Its fields are
  `capacity` and `data`, an `array<Byte>` of that length standing for `mData`.
  It also holds the specification function `Assigned`, which gives the buffer
  after `assign`, and the lemmas about it. `NameAliases` is a usage example:
  it builds a `NAME`, a `NAME32` and a `NAME64` from arbitrary prior bytes and
  checks what `assign` leaves readable in each.

Behaviour that the contracts pin down:

- `mData` is not initialised. The constructor therefore takes the initial
  bytes as a parameter, and every `assign` property is stated against
  arbitrary prior contents.
- At capacity 4 the buffer is a zero-padded tag with no terminator. At any
  other capacity `assign` keeps a terminator. A short value is followed by one
  NUL, and the bytes after that NUL keep their old values. A long value is cut
  to `capacity - 1` bytes plus a NUL.
- `toStringView` yields the text up to the first NUL, or all `capacity` bytes.
  After `assign(v)` it yields the text of `v` cut to `capacity - 1` bytes
  (capacity 4: 4 bytes).
- Comparing with a C string or a `std::string` is comparing texts. A
  `std::string` is compared through `c_str()`, so a string with an embedded
  NUL is compared only up to that NUL.
- For `NAME`, `operator=(uint32)` followed by `toInt()` returns the integer.
  `== uint32` holds exactly when the four bytes are that integer's bytes.

## Model

| member | source | states |
|---|---|---|
| `CString.StrNLen` | components/esm/esmcommon.hpp:35 | strnlen's result is at most `n`, no byte before it is NUL, and the byte at it is NUL when it is below `n` |
| `CString.Text` | components/esm/esmcommon.hpp:33-36 | the text is a NUL-free prefix of the buffer, ends at a NUL when shorter than the buffer, and is shorter exactly when the buffer holds a NUL |
| `CString.StrNCmpEqual` | components/esm/esmcommon.hpp:111 | strncmp over `n` bytes reports equality exactly when the texts of the two `n`-byte prefixes are equal |
| `ByteOrder.LittleEndianOfToLittleEndian` | components/esm/esmcommon.hpp:80-85 | reading back the bytes written for a number gives that number |
| `ByteOrder.ToLittleEndianOfLittleEndian` | components/esm/esmcommon.hpp:43-49 | writing out the number read from some bytes gives back those bytes |
| `ByteOrder.UInt32Bytes` | components/esm/esmcommon.hpp:83 | the four bytes copied out of a uint32 read back as that uint32 |
| `ByteOrder.UInt32Of` | components/esm/esmcommon.hpp:46-48 | the uint32 memcpy fills from four bytes is the one whose four little-endian bytes are those bytes |
| `EsmCommon.MaxAssignedLength` | components/esm/esmcommon.hpp:69-77 | the longest text assign can leave is below the capacity exactly when the capacity is not 4 |
| `EsmCommon.Assigned` | components/esm/esmcommon.hpp:56-78 | assign keeps the buffer's size; its contents are stated case by case by the four lemmas below |
| `EsmCommon.AssignedText` | components/esm/esmcommon.hpp:56-78 | after assign(v) the text is the text of v cut to capacity-1 bytes (4 bytes for a tag), whatever the buffer held before |
| `EsmCommon.AssignEmptyClears` | components/esm/esmcommon.hpp:51-62 | assign of an empty value sets every byte to NUL, as clear does, and leaves no text |
| `EsmCommon.AssignShortString` | components/esm/esmcommon.hpp:64-71 | capacity not 4 and 0 < size < capacity: bytes [0, size) are the value, byte size is NUL, later bytes are unchanged, and a NUL-free value reads back as itself |
| `EsmCommon.AssignShortTag` | components/esm/esmcommon.hpp:64-68 | capacity 4 and 0 < size < 4: the value followed by NUL bytes up to index 3, and a NUL-free value reads back as itself |
| `EsmCommon.AssignLong` | components/esm/esmcommon.hpp:74-77 | size >= capacity: the first capacity-1 bytes are the value's, the last is the value's (capacity 4) or NUL, and a NUL-free value reads back as its first capacity-1 bytes (4 for a tag) |
| `EsmCommon.MatchesCString` | components/esm/esmcommon.hpp:88-99 | the loop's byte-level rule (agreement up to and including the buffer's first NUL, or over all bytes followed by a NUL in the string) holds exactly when the string is the buffer's text followed by a NUL |
| `EsmCommon.MatchesCStringIffSameText` | components/esm/esmcommon.hpp:88-99 | the C-string comparison's byte-level rule holds exactly when the string's text equals the buffer's text |
| `EsmCommon.TextStaysInArray` | components/esm/esmcommon.hpp:110-111 | bytes stored after an array that is NUL-terminated or at least `n` bytes long never change the text strncmp sees in its first `n` bytes: that text is the array's own text cut to `n` bytes, and the array's whole text when it fits in `n` bytes |
| `EsmCommon.CharArrayEqualsAsWritten` | components/esm/esmcommon.hpp:107-112 | the char-array comparison as written equals text equality whenever the array holds a NUL or is at least `capacity` bytes long, so it departs from text equality only for an unterminated array shorter than the capacity |
| `EsmCommon.CharArrayAsWrittenExact` | components/esm/esmcommon.hpp:107-112 | the as-written comparison is true exactly when the texts are equal and, for an unterminated array shorter than the capacity, the byte after the array is NUL; so the defect only turns equal texts into a false result |
| `EsmCommon.CharArrayReadsPastEnd` | components/esm/esmcommon.hpp:107-112 | for a NAME32 holding "ab" and the array {'a','b'}, the as-written result depends on the byte after the array although the texts are equal |
| `EsmCommon.FixedString.constructor` | components/esm/esmcommon.hpp:24-31 | a buffer of `capacity` > 0 bytes with arbitrary initial contents |
| `EsmCommon.FixedString.ToStringView` | components/esm/esmcommon.hpp:33-36 | the view's length is the index of the first NUL, or the capacity when there is none; the view is that prefix of the buffer |
| `EsmCommon.FixedString.ToString` | components/esm/esmcommon.hpp:38-41 | toString holds the same characters as toStringView |
| `EsmCommon.FixedString.ToInt` | components/esm/esmcommon.hpp:43-49 | toInt is the uint32 whose four bytes are the buffer |
| `CString.Memset` | components/esm/esmcommon.hpp:53 | memset (also at line 67) sets the first `n` bytes to the value and leaves every other byte unchanged |
| `CString.Memcpy` | components/esm/esmcommon.hpp:68 | memcpy (also at lines 74 and 83) copies the first `n` bytes of the source and leaves every other byte unchanged |
| `EsmCommon.FixedString.Clear` | components/esm/esmcommon.hpp:51-54 | every byte becomes NUL, which is the buffer assign of an empty value leaves |
| `EsmCommon.FixedString.Assign` | components/esm/esmcommon.hpp:56-78 | the new buffer is `Assigned` of the old buffer and the value, and the view is the value's text cut to the allowed length |
| `EsmCommon.FixedString.AssignUInt32` | components/esm/esmcommon.hpp:80-85 | the buffer becomes the integer's four bytes, and toInt then returns the integer |
| `EsmCommon.FixedString.EqualsCString` | components/esm/esmcommon.hpp:88-99 | the loop returns true exactly when the byte-level rule holds, that is when the C string's text equals toStringView |
| `EsmCommon.FixedString.EqualsString` | components/esm/esmcommon.hpp:101-105 | the std::string comparison is text equality through c_str(); for a NUL-free string it is equality with toStringView |
| `EsmCommon.FixedString.EqualsCharArray` | components/esm/esmcommon.hpp:107-112 | with strncmp also bounded by the array's size, equal exactly when the array's strnlen text equals toStringView |
| `EsmCommon.FixedString.EqualsUInt32` | components/esm/esmcommon.hpp:114-117 | equal exactly when the four bytes are the integer's bytes |
| `EsmCommon.FixedString.NotEqualsCString` | components/esm/esmcommon.hpp:119-123 | != against a C string is the exact negation of == |
| `EsmCommon.FixedString.NotEqualsString` | components/esm/esmcommon.hpp:119-123 | != against a std::string is the exact negation of == |
| `EsmCommon.FixedString.NotEqualsCharArray` | components/esm/esmcommon.hpp:119-123 | != against a char array is the exact negation of == |
| `EsmCommon.FixedString.NotEqualsUInt32` | components/esm/esmcommon.hpp:119-123 | != against a uint32 is the exact negation of == |

## Left out

- `EsmCommon.FixedString.Assign` takes its argument by value, as a sequence, where the source takes a `std::string_view` that may point into `mData` itself. The model therefore does not capture aliasing. For example, a `NAME` holding {'A','B',0,0} assigned its own `toStringView()` has the `memset` at line 67 zero the bytes the view points at before the `memcpy` at line 68, which ends with {0,0,0,0}. That overlapping `memcpy` is also undefined behaviour. The model gives {'A','B',0,0}.
- `EsmCommon.FixedString.ToStringView` returns a copy of the text, where the source returns a non-owning view into `mData`. A view taken before a later `assign` or `clear` would show the new bytes; the model's value keeps the old ones.
- Host byte order: `toInt` and `operator=(uint32)` use `memcpy`, which follows the host's byte order. The model fixes little-endian. The round trip between the two holds for either order.
- `EsmCommon.FixedString.AssignUInt32` does not return `*this`. The returned reference only allows chained assignments.
- `sCapacity` is the `capacity` field itself. `static_assert(capacity > 0)` and `static_assert(capacity == sizeof(uint32))` become `requires` clauses.
- Aliases: `NAME`, `NAME32` and `NAME64` appear only as their capacities (`NameCapacity`, `Name32Capacity`, `Name64Capacity`). They are instances of the class, not separate code.
- `ESM_Context`, the `Version` enum and the `RecordFlag` enum are plain data and constants with no behaviour.
- A C-string argument is a sequence that contains its terminator. Reading past that terminator is outside what the source does, so the model does not represent it.
- The rest of the repository is not part of this model: the frame loop, the Lua bindings, the navigator coordinate helpers and the GUI window code.

## Findings

| source | as written | input that shows it | evidently intended | confidence | as-written member | corrected member |
|---|---|---|---|---|---|---|
| components/esm/esmcommon.hpp:107-112 | `strncmp(lhs.mData, rhs, capacity)` is bounded only by the capacity. When the array holds no NUL, `rhsSize < capacity`, and the array's bytes equal the buffer's first `rhsSize` bytes (the texts are equal), strncmp reads `rhs[rhsSize]`, one byte past the array. The result is then true exactly when that byte is NUL. If the bytes differ, strncmp stops at the first difference inside the array. | a `NAME32` holding "ab", compared with `const char rhs[2] = {'a', 'b'}`: the result is true or false depending on the byte stored after `rhs` (`EsmCommon.CharArrayReadsPastEnd`) | compare at most `min(capacity, rhsSize)` bytes, so that equal texts compare equal without reading outside the array | medium, not executed | `EsmCommon.CharArrayAsWrittenExact` | `EsmCommon.FixedString.EqualsCharArray` |

# pasm binary image and instruction encoder, in Dafny

This project models the two pieces of logic in the pasm assembler that build
machine code.

**The relocatable binary image (`binimage.py`).**
- A `BinaryImage` is a growable byte buffer with two lists of pointers:
  - `refsFrom`: pointers whose destination lies in the image;
  - `refsTo`: pointers written into the image as placeholder bytes.
- A `Pointer` is a fixed-width placeholder. It has an optional destination `Location` (an image and an offset) and a list of uses (the places where it was written).
- A pointer renders as its destination offset in `size` little-endian bytes, or as zeros while unbound.
- `resolve` writes the rendered bytes into every use.
- `combine` absorbs another image. It rebases that image's bound pointers and its embedded uses by the survivor's old length, then appends the absorbed image's bytes.

**The instruction encoder (`insasm.py`, the `opcodes` and `reg` tables and `asm_command`).**
- The opcode is looked up by the mnemonic and the kind of each operand.
- A register operand encodes as its ModRM byte.
- A literal operand encodes as 4 little-endian bytes.

## Files

- `base.dfy`: shared datatypes.
  - The `byte` type (0..255).
  - Python's exceptions as an `Error` datatype.
  - `Result`, `Option`, and the `Outcome` of a method that may raise.
- `little_endian.dfy`: `int.to_bytes(size, 'little')` for unsigned values, with `int.from_bytes` as the reference inverse.
- `py_bytes.dfy`: the two `bytearray` operations the image relies on, with Python's index normalisation:
  - indexing `b[i]`;
  - slice assignment `b[lo:hi] = r`.
- `binimage.dfy`:
  - the `BinaryImage` and `Pointer` classes, whose methods change fields in place;
  - functions that describe what `combine` and `resolve` do to the old state;
  - lemmas about those functions;
  - the whole-system invariant `UsesFit`: every use of every pointer lies in an image and has room for the pointer's bytes.
- `binimage_scenarios.dfy`: whole runs, each with its outcome as a postcondition:
  - the cases of `test_binimage.py`;
  - the three-image cycle merged two ways.
- `insasm.dfy`:
  - the encoder as pure functions;
  - a decoder for the two table entries, proved to be its inverse.

### How the model relates to the source

- **Identity.** Python's `is` on images becomes Dafny reference equality on `BinaryImage` objects.
- **Locations.**
  - A `Location` is a value.
  - `combine` rewrites a use's fields in place. Each use is created fresh by `add_use` and is held by one pointer, so this becomes replacing that element of the pointer's `uses` sequence.
  - `combine` gives each moved pointer a fresh destination through `set_dest`.
- **The invariant.**
  - The methods that change the state take the pointers and images of the program as ghost sets `ps` and `imgs`.
  - `UsesFit` states the invariant over those sets.
  - `extend`, `combine` and `resolve` each carry an `ensures` saying that they preserve it.

### Behaviour worth knowing

- **Lists, not sets.** `refs_from` and `refs_to` are lists. A pointer listed twice in the absorbed image's `refs_from` is shifted twice (`Shifted`, `ShiftedOffset`) and appended twice (`BoundCount`). A pointer listed twice in `refs_to` has its uses moved only once (`RebasedIdempotent`).
- **`refs_to` is not carried over.** `combine` carries `refs_from` over but not `refs_to`. After `b.combine(c); a.combine(b)`, a use that sat in `c` stays in `b`, and resolving its pointer fails (`ChainedCombineScenario`). So the use is not rebased into the survivor.
- **The absorbed image is untouched.** `combine` only reads it (`unchanged(v)`).
- **Negative offsets are allowed.** Offsets are unrestricted integers: a negative destination offset renders with `OverflowError`, and `get_byte_at` counts it from the end, as Python does.
- **A failed render changes state.** `extend` of a pointer whose offset does not fit records the use and the `refs_to` entry before `repr` raises, and it appends no bytes. So `Extend` promises to preserve `UsesFit` only when it passes.

## Model

| member | source | states |
|---|---|---|
| LittleEndian.Encode | binimage.py:64 | the encoding of a value below 256^size is exactly `size` bytes whose little-endian value is the input |
| LittleEndian.ToBytes | binimage.py:64 | `to_bytes(size, 'little')` succeeds exactly when 0 <= n < 256^size, with `size` bytes whose little-endian value is n; otherwise it raises OverflowError, never truncating |
| LittleEndian.Zeros | binimage.py:63 | `b'\x00' * size` is `size` bytes, each 0 |
| LittleEndian.EncodeFromBytes | binimage.py:64 | decoding any byte string and encoding the value back at the same width gives the string back |
| LittleEndian.EncodeInjective | binimage.py:64 | two values that fit encode alike exactly when they are equal |
| LittleEndian.ZerosEncodeZero | binimage.py:62-64 | the unbound placeholder equals the rendering of offset 0 |
| PyBytes.SliceBound | binimage.py:80 | a slice bound is normalised into [0, n], unchanged when already inside, clamped to n above |
| PyBytes.SliceAssign | binimage.py:80 | a slice assignment whose window fits and matches the replacement's length keeps the length, puts the replacement in the window and keeps every other byte |
| PyBytes.Index | binimage.py:68 | `b[i]` succeeds exactly for -len <= i < len, reads `b[i]` for a non-negative i and `b[len + i]` for a negative one, and raises IndexError otherwise |
| PyBytes.IndexAppend | binimage.py:45 | appending bytes keeps each non-negative index of the prefix, and the suffix's bytes move up by the prefix's length |
| BinImage.Bound | binimage.py:36-39 | every pointer combine appends is in the list and bound, and every bound pointer of the list is appended |
| BinImage.BoundConcat | binimage.py:36-39 | the bound pointers of two lists joined are those of the first list followed by those of the second, so the order of the list is kept |
| BinImage.BoundCount | binimage.py:36-39 | a bound pointer is appended as many times as it is listed, and an unbound one never |
| BinImage.CountAppend | binimage.py:36-39 | appending at most one pointer adds one to its count exactly when it is that pointer |
| BinImage.Count | binimage.py:36-39 | the number of times a pointer is listed is positive exactly when it is in the list |
| BinImage.CountPrefix | binimage.py:36-39 | counting in one more element adds one exactly when that element is the pointer |
| BinImage.CountIsMultiplicity | binimage.py:36-39 | that count is the pointer's multiplicity in the list |
| BinImage.Shifted | binimage.py:37-38 | a destination rebased k > 0 times is bound exactly when it was, and lies in the survivor; once is the old offset plus the survivor's length |
| BinImage.ShiftedOffset | binimage.py:36-38 | a pointer listed k times is moved k times the survivor's length |
| BinImage.RebaseOne | binimage.py:42-44 | a use in the absorbed image moves into the survivor, the survivor's length further on; any other use is kept; so no use is left in the absorbed image |
| BinImage.Rebased | binimage.py:41-44 | each use in the absorbed image moves into the survivor, the survivor's length further on; every other use stays |
| BinImage.RebasedIdempotent | binimage.py:42 | rebasing twice is rebasing once, and no use is left in the absorbed image, so a pointer listed twice in refs_to is not shifted twice |
| BinImage.WriteUses | binimage.py:79-80 | the bytes after the slice assignment at every use in turn; with a rendering of the pointer's size they never shorten the buffer |
| BinImage.WriteUsesAt | binimage.py:79-80 | when every use fits, the writes keep the length, and each position holds the byte of the last window covering it, or its old byte |
| BinImage.WriteUsesPrefix | binimage.py:79-80 | writing at one more use is the earlier writes followed by one more slice assignment |
| BinImage.ByteAfterUncovered | binimage.py:79-80 | a position no use covers keeps its old byte |
| BinImage.ByteAfterCovered | binimage.py:79-80 | a covered position holds the rendered bytes read at its offset in a covering use, whatever the old bytes were |
| BinImage.WriteUsesIdempotent | binimage.py:79-80 | writing the same bytes at the same fitting uses twice gives what writing once gives |
| BinImage.ByteInWindow | binimage.py:79-80 | without partial overlaps, a position inside a use's window holds the rendered byte at its offset in that window |
| BinImage.WrittenInPlace | binimage.py:79-80 | writes at fitting uses keep the buffer's length, and without partial overlaps leave each window holding the rendering and every other byte as it was |
| BinImage.WriteUsesWindows | binimage.py:79-80 | with fitting uses that do not partly overlap, each use's window holds exactly the rendered bytes, and every other byte is unchanged |
| BinImage.WriteOneUse | binimage.py:80 | a single fitting write replaces exactly its window |
| BinImage.UsesFitAllFit | binimage.py:74-80 | under UsesFit, every use of a consolidated pointer has room for its bytes in the destination's image |
| BinImage.DeferredWriteIsLiteral | binimage.py:79-83 | appending zeros and later writing the encoding over them gives the bytes of appending the encoding directly |
| BinImage.BinaryImage.constructor | binimage.py:11-14 | a new image holds the initial bytes and empty refs_from and refs_to |
| BinImage.BinaryImage.PointerAt | binimage.py:16-19 | a fresh pointer with the given size and destination and no uses, appended to refs_from; it reads the byte at an in-range offset |
| BinImage.BinaryImage.Extend | binimage.py:21-29 | an image raises TypeError and changes nothing; bytes are appended with no bookkeeping; a pointer gets a use at the old end, joins refs_to and has its rendering appended (or raises OverflowError after the bookkeeping); a passing extend preserves UsesFit |
| BinImage.BinaryImage.Combine | binimage.py:31-45 | the bytes become old ++ v; the bound pointers of v.refs_from are shifted and appended to refs_from; the uses in v of v.refs_to move into this image; refs_to and v are unchanged; UsesFit is preserved |
| BinImage.BinaryImage.AppendImage | binimage.py:45 | the absorbed bytes are appended, which turns the invariant for the grown length into UsesFit |
| BinImage.BinaryImage.MoveDestinations | binimage.py:36-39 | each listed pointer is shifted once per listing, and the bound ones are appended to refs_from in order |
| BinImage.BinaryImage.MoveDestination | binimage.py:37-39 | a bound pointer is pointed into this image at its offset plus n and appended to refs_from; an unbound one is skipped |
| BinImage.BinaryImage.MoveUses | binimage.py:40-44 | each listed pointer's uses are rebased once, none is left in v, and every use fits once v's bytes are appended |
| BinImage.Pointer.constructor | binimage.py:55-58 | a new pointer has the given size and destination and no uses |
| BinImage.Pointer.Repr | binimage.py:60-64 | zeros while unbound; when bound, the size-byte little-endian offset if 0 <= offset < 256^size, otherwise OverflowError |
| BinImage.Pointer.GetByteAt | binimage.py:66-69 | None exactly while unbound; the byte at an in-range non-negative offset; for a negative offset from -len, the byte counted from the end; IndexError outside Python's index range |
| BinImage.Pointer.AddUse | binimage.py:71-72 | the use is appended to uses |
| BinImage.Pointer.SetDest | binimage.py:82-83 | the destination is (re)bound, and the uses are left as they were |
| BinImage.Pointer.MoveUses | binimage.py:41-44 | the uses in the absorbed image are rewritten one by one into the survivor, with the same result as Rebased |
| BinImage.Pointer.Consolidated | binimage.py:75-78 | a consolidated pointer is bound and every one of its uses lies in the destination's image |
| BinImage.Pointer.Resolve | binimage.py:74-80 | ValueError while unbound, ValueError when a use is in another image than the destination, OverflowError when the offset does not render; it passes exactly when consolidated and renderable; a failure writes nothing; a pass performs every slice assignment; UsesFit is preserved; under UsesFit the image keeps its length and, when no two uses partly overlap, each use's window holds the rendering and every other byte is unchanged |
| BinImage.Pointer.WriteAtUses | binimage.py:79-80 | the write loop leaves the bytes of writing the rendering at each use in turn, or raises OverflowError before writing |
| BinImage.CombineKeepsByte | binimage.py:36-45 | a pointer listed once in v.refs_from and bound into v, or one combine does not move, reads the same byte after combine |
| BinImage.ResolveTwice | binimage.py:74-80 | for any pointer of a program that keeps UsesFit, bound or not, resolving twice in succession gives the same outcome (ValueError both times while unbound) and leaves the bytes of resolving once |
| BinImageScenarios.Mint | binimage.py:16-19 | a new image with one pointer minted at an offset |
| BinImageScenarios.Embed | binimage.py:24-27 | extending with a renderable pointer appends its rendering and records the use and the refs_to entry |
| BinImageScenarios.ResolvePlaceholder | binimage.py:74-80 | resolving a pointer whose only use is a trailing placeholder writes its encoded offset there |
| BinImageScenarios.PointerAtScenario | test_binimage.py:5-12 | `pointer_at(4, 4)` on b"01234567" renders 04 00 00 00, is the only entry of refs_from and reads b"4" |
| BinImageScenarios.ExtendPointerScenario | test_binimage.py:14-21 | extending with a bound pointer appends 04 00 00 00 and records the pointer in refs_to only |
| BinImageScenarios.ResolveBasicScenario | test_binimage.py:23-32 | an unbound placeholder appends zeros and fails to resolve; once bound, resolving writes 04 00 00 00 |
| BinImageScenarios.CombineBasicScenario | test_binimage.py:34-45 | combining b"0123" with b"4567" gives b"01234567", two entries in refs_from, none in refs_to, offsets 1 and 6, and the bytes b"1" and b"6" before and after |
| BinImageScenarios.DeferredMatchesLiteral | binimage.py:24-29 | extend with a placeholder, then set_dest, then resolve gives the bytes of extending with the literal encoding |
| BinImageScenarios.BuildCycle | binimage.py:16-27 | three images each mint a 1-byte self-pointer and embed the next image's pointer |
| BinImageScenarios.ThreeWayChainScenario | binimage.py:31-45 | a.combine(b) then a.combine(c) on the cycle, then resolving every pointer, writes the offsets 4, 8 and 0 into the placeholders |
| BinImageScenarios.MergeInto | binimage.py:31-45 | a.combine(b) then a.combine(c) on the cycle moves every destination and every use into a, at offsets 0, 4, 8 and 3, 7, 11 |
| BinImageScenarios.ResolveMerged | binimage.py:74-80 | the final resolve pass over the merged cycle passes for all three pointers |
| BinImageScenarios.ResolveByte | binimage.py:74-80 | resolving a 1-byte pointer with one use stores its offset at that use |
| BinImageScenarios.ChainedCombineScenario | binimage.py:40-44 | b.combine(c) then a.combine(b) leaves pa's use in b, so resolving pa raises ValueError while pb and pc resolve |
| BinImageScenarios.MergeChain | binimage.py:31-45 | the chain of combines binds every pointer into a and leaves pa's use in b |
| BinImageScenarios.AbsorbThird | binimage.py:31-45 | b.combine(c) moves pc and pa's use into b |
| InsAsm.OpcodeEntries | insasm.py:1-4 | the opcode table has exactly the MOV r/m64, imm32 key and the SYSCALL key, with bytes 48 C7 and 0F 05 |
| InsAsm.RegisterBytes | insasm.py:6-15 | each of the eight registers has its own ModRM byte, between C0 and C7 |
| InsAsm.Kind | insasm.py:18 | a register operand's kind is "64" and a literal's is "lit" |
| InsAsm.Key | insasm.py:18 | the key is the mnemonic, then "64" for each register operand and "lit" for each literal, in order |
| InsAsm.EncodeArg | insasm.py:21 | a known register is its ModRM byte and an unknown one raises KeyError; a literal is 4 little-endian bytes decoding to it, or OverflowError outside 0 .. 2^32-1 |
| InsAsm.EncodeArgs | insasm.py:21-22 | succeeds exactly when every operand encodes, with 1 byte per register and 4 per literal and each operand's bytes at the offset of the widths before it; otherwise raises the error of the first operand that does not encode |
| InsAsm.FailingInTail | insasm.py:21 | past an operand that encodes, the first failing operand of the list is the first failing one of the rest |
| InsAsm.OperandsAfterHead | insasm.py:21-22 | joining the first operand's bytes before the rest's moves each later operand's bytes up by the first one's width |
| InsAsm.AsmCommand | insasm.py:17-22 | KeyError for a key not in the table; succeeds exactly when the key is in the table and every operand encodes; the result is the opcode followed by every operand's bytes at its offset; with the key in the table, the first operand that does not encode raises its error |
| InsAsm.RegisterNameInverse | insasm.py:6-15 | each register's ModRM byte names it back |
| InsAsm.DisassembleAsmCommand | insasm.py:1-22 | decoding an encoded instruction gives back its mnemonic and operands |
| InsAsm.SyscallEncoding | insasm.py:3 | `asm_command('syscall')` is 0F 05 |
| InsAsm.MovEncoding | insasm.py:2 | a MOV of an immediate into a known register is 48 C7, the ModRM byte, then the immediate's 4 bytes |
| InsAsm.MovEncodings | insasm.py:25-26 | the first two MOVs of the hard-coded program encode to 48 C7 C7 01 00 00 00 and 48 C7 C6 DE 10 40 00 |
| InsAsm.RejectedCommands | insasm.py:18-21 | a register-register MOV and an unknown register raise KeyError; a negative immediate raises OverflowError |
| InsAsm.FirstOperandErrorRaised | insasm.py:21 | an unknown register before a negative immediate raises the register's KeyError, not OverflowError |

## Left out

- pasm.py is not part of this model: argument handling, file output, ELF header packing with platform-dependent `struct` sizes, and the `os.sysconf` page size are I/O and foreign calls.
- pasm-old.py is not part of this model: it is a script that writes ELF header bytes to a file.
- The module-level script of insasm.py (lines 24-34) is not modelled as a program. Its `print` calls are I/O; two of its encodings appear as `MovEncodings`.
- The `bytearray` methods that `BinaryImage` inherits other than `extend` (`append`, `+=`, slice assignment by callers) bypass the bookkeeping and are not modelled.
- `BinImage.Extension`: `extend` is modelled for an image, a pointer and a byte string. Other iterables of ints, and values Python's `bytearray.extend` rejects, are not modelled.
- `BinImage.BinaryImage.constructor` takes the initial bytes only. The other forms `bytearray(...)` accepts (an int count of zero bytes, a str with an encoding, an iterable of ints, no argument) are not modelled; each gives some initial byte string, which the model takes as given.
- `BinImage.Pointer.GetByteAt` returns the byte's value, not the one-byte `bytes` object that `int.to_bytes()` with its default arguments builds.
- `BinImage.Pointer.constructor`: a negative `size` is not modelled (`size` is a `nat`); in Python, `b'\x00' * size` would give no bytes, and `to_bytes` would raise ValueError.
- `BinImage.BinaryImage.Combine` requires `v != this`. Self-combine iterates `refs_from` while appending to it and is not a meaningful call.
- `BinImage.CombineKeepsByte` states the byte-preservation promise only for pointers listed once in the absorbed image's refs_from, and only for non-negative in-range offsets in the survivor. A pointer listed twice is shifted twice, and a negative offset counts from the end of a buffer that has grown, so in those cases the byte read can change.
- Big-endian rendering (a TODO in the source) is not modelled.

# Harmony's access cache and debug log, in Dafny

This project models two small parts of the Harmony runtime-patching library and proves their properties.

**`AccessCache`** (`Harmony/Tools/AccessCache.cs`) memoises reflection lookups. It keeps three independent nested dictionaries:
- fields: type → name → field;
- properties: type → name → property;
- methods: type → name → argument fingerprint → method.

A lookup that misses calls the reflection resolver once and stores its answer, even when that answer is `null` (`None` here). A lookup that hits returns the stored answer. Nothing is ever removed or overwritten. Method entries are keyed by `CombinedHashCode`, a 32-bit fingerprint of the argument types. Two argument lists with the same fingerprint share one entry, so the second lookup gets the answer resolved for the first.

**`FileLog`** (`Harmony/Tools/FileLog.cs`) is a debugging log with:
- an indentation level that never drops below zero;
- an indentation prefix;
- a line buffer that `FlushBuffer` writes out;
- a hex-dump writer, `LogBytes`.

The log file is modelled as a ghost sequence of lines.

Modules, one per file:
- `Wrappers` has `Option`, where `None` stands for `null`.
- `Int32` has C#'s unchecked `int` arithmetic.
  - It works on 32-bit patterns read as unsigned numbers (`Word`).
  - Every wrap-around is an explicit reduction modulo 2^32.
  - XOR is defined bit by bit.
- `Fingerprints` defines the fingerprint.
  - The definition is in split form: each of the two accumulators is a left fold over the elements at even or at odd indices.
  - The lemmas cover determinism, the parity split, the empty list, last-element sensitivity and the swap collision.
- `AccessCaching` has the cache class and the loop that computes the fingerprint.
- `HexDump` has the layout of a hex-dump line and its reading back.
- `FileLogging` has the log class.

Stateful code is a class:
- The cache's dictionaries are `map` fields.
- The log's buffer is a `seq` field.
- Every lookup and log operation is a method whose `ensures` gives the whole new state.
- Resolver calls are recorded in ghost multisets, so "resolved exactly once" is part of the cache's invariant `Valid()`.
- The method cache also records, in a ghost map, which argument list was resolved for each entry.

Proved properties beyond the method contracts:
- **Swapped pairs.** Swapping the two elements of a two-element list keeps the fingerprint exactly when their hash codes agree on the low 30 bits. The reason is that 1566083941 − 1 is four times an odd number.
- **Last element.** Changing only the last element changes the fingerprint exactly when its hash code changes.
- **Hex dumps.** `LogBytes` writes ceil(n/8) hex lines, each holding one to eight bytes. Reading the dump lines back in order, before the indentation is put in front of them, gives the input bytes.

The accumulator step `(h << 5) + h + (h >> 27)` is not a rotation. It is a left shift and an arithmetic (sign-extending) right shift, joined by wrapping `+`. The model has exactly that.

## Model

| member | source | states |
|---|---|---|
| Int32.Wrap | Harmony/Tools/FileLog.cs:42 | unchecked `int` addition: the result is congruent to the sum modulo 2^32 and equals it when it is in range |
| Int32.ToSigned | Harmony/Tools/AccessCache.cs:69 | a bit pattern read as a signed `int`: congruent to the pattern, negative exactly when the top bit is set |
| Int32.ToWord | Harmony/Tools/AccessCache.cs:69 | the bit pattern of an in-range `int`: reading it back as signed gives the `int` |
| Int32.XorLowBits | Harmony/Tools/AccessCache.cs:69-71 | the low k bits of `a ^ b` and `a ^ c` agree exactly when those of `b` and `c` agree |
| Int32.XorCancels | Harmony/Tools/AccessCache.cs:69-71 | `a ^ b == a ^ c` exactly when `b == c` |
| Fingerprints.ShiftLeft5 | Harmony/Tools/AccessCache.cs:69-71 | `h << 5` loses the top five bits: the result is 32·(h mod 2^27) |
| Fingerprints.ShiftRight27 | Harmony/Tools/AccessCache.cs:69-71 | `h >> 27` on a signed `int`: the signed value divided by 2^27 rounding down, between -16 and 15 |
| Fingerprints.EvensOddsLength | Harmony/Tools/AccessCache.cs:66-73 | the even indices are half the list rounded up, the odd ones half rounded down |
| Fingerprints.EvensAt | Harmony/Tools/AccessCache.cs:68-69 | the k-th element folded into `hash1` is the element at index 2k |
| Fingerprints.OddsAt | Harmony/Tools/AccessCache.cs:70-71 | the k-th element folded into `hash2` is the element at index 2k+1 |
| Fingerprints.EvensOddsAt | Harmony/Tools/AccessCache.cs:66-73 | the even-indexed elements go to `hash1` and the odd-indexed ones to `hash2`, in order and none left out |
| Fingerprints.EvensOddsSnoc | Harmony/Tools/AccessCache.cs:66-73 | an appended element lands in `hash1`'s half when its index is even and in `hash2`'s otherwise; the other half is unchanged |
| Fingerprints.FoldSnoc | Harmony/Tools/AccessCache.cs:69 | absorbing one more element is one accumulator step |
| Fingerprints.FingerprintSnoc | Harmony/Tools/AccessCache.cs:66-74 | an element at an even index changes only `hash1`, one at an odd index only `hash2` |
| Fingerprints.FoldByHashes | Harmony/Tools/AccessCache.cs:69-71 | an accumulator depends only on the ordered hash codes it absorbs |
| Fingerprints.FingerprintByHashes | Harmony/Tools/AccessCache.cs:61-75 | determinism: lists with equal hash codes position by position have equal fingerprints |
| Fingerprints.EmptyFingerprint | Harmony/Tools/AccessCache.cs:63-74 | the seed `(5381 << 16) + 5381` is 352654597, and the empty list's fingerprint is 352654597 + 352654597·1566083941 mod 2^32 = 757602046 |
| Fingerprints.PairFingerprint | Harmony/Tools/AccessCache.cs:61-75 | for a two-element list, each element is mixed into the seed in its own accumulator |
| Fingerprints.MixCancels | Harmony/Tools/AccessCache.cs:69-71 | one accumulator step is one-to-one in the hash code it absorbs |
| Fingerprints.CombineCancelsFirst | Harmony/Tools/AccessCache.cs:74 | `hash1 + hash2 * 1566083941` is one-to-one in `hash1` |
| Fingerprints.CombineCancelsSecond | Harmony/Tools/AccessCache.cs:74 | `hash1 + hash2 * 1566083941` is one-to-one in `hash2`, since 1566083941 is odd |
| Fingerprints.CombineSwap | Harmony/Tools/AccessCache.cs:74 | swapping the accumulators keeps the result exactly when they agree on their low 30 bits |
| Fingerprints.LastElementSensitivity | Harmony/Tools/AccessCache.cs:61-75 | lists that differ only in their last element collide exactly when those elements' hash codes are equal |
| Fingerprints.SwapCollision | Harmony/Tools/AccessCache.cs:61-75 | `[a, b]` and `[b, a]` collide exactly when the hash codes of `a` and `b` agree on their low 30 bits |
| AccessCaching.Store | Harmony/Tools/AccessCache.cs:22-34 | storing under type and name creates the inner dictionary if needed: the new entry is there, every other entry is kept, and no other entry appears |
| AccessCaching.StoreMiss | Harmony/Tools/AccessCache.cs:29-34 | storing the resolver's answer on a miss, with one more resolver call, keeps the memoisation invariant and loses no entry |
| AccessCaching.StoreMethod | Harmony/Tools/AccessCache.cs:85-106 | storing under type, name and fingerprint creates the inner dictionaries if needed: the new entry is there, every other entry is kept, and no other entry appears |
| AccessCaching.StoreMethodMiss | Harmony/Tools/AccessCache.cs:101-107 | storing the resolver's answer for an argument list under its fingerprint keeps the method memoisation invariant |
| AccessCaching.AccessCache.constructor | Harmony/Tools/AccessCache.cs:10-12 | a new cache has three empty dictionaries, no resolver calls, and satisfies the invariant |
| AccessCaching.AccessCache.GetFieldInfo | Harmony/Tools/AccessCache.cs:20-36 | the result is the resolver's answer, `None` included, and is stored; the key has been resolved exactly once overall; a hit changes nothing and calls nothing; a miss adds exactly this entry and one resolver call; no entry is lost or overwritten; only the field dictionary changes |
| AccessCaching.AccessCache.GetPropertyInfo | Harmony/Tools/AccessCache.cs:43-59 | the same memoisation contract as `GetFieldInfo`, on the property dictionary with the property resolver, changing nothing else |
| AccessCaching.AccessCache.CombinedHashCode | Harmony/Tools/AccessCache.cs:61-75 | the interleaved two-accumulator loop computes the split-form fingerprint |
| AccessCaching.AccessCache.GetMethodInfo | Harmony/Tools/AccessCache.cs:83-110 | the entry under the arguments' fingerprint exists and holds the result, resolved exactly once overall; on a hit nothing changes and the result is the answer for the argument list first stored under that fingerprint; on a miss it is the answer for these arguments; no entry is lost or overwritten; only the method dictionary changes |
| AccessCaching.SharedMethodEntry | Harmony/Tools/AccessCache.cs:101-109 | two lookups whose argument lists have the same fingerprint return the same answer, and that entry is resolved once |
| HexDump.HexDigit | Harmony/Tools/FileLog.cs:112 | a value below 16 becomes an upper-case hexadecimal digit |
| HexDump.Hex2 | Harmony/Tools/FileLog.cs:112 | `ToString("X2")`: two upper-case hexadecimal digits whose value, most significant first, is the byte |
| HexDump.HexString | Harmony/Tools/FileLog.cs:131-134 | the digest text is twice as long as the digest, and byte j becomes the two digits at offset 2j |
| HexDump.ChunkSizes | Harmony/Tools/FileLog.cs:109-124 | there are ceil(n/8) lines, each of one to eight bytes, and all but the last hold eight |
| HexDump.ChunksFlatten | Harmony/Tools/FileLog.cs:109-124 | the bytes of the lines, in order, are the input |
| HexDump.ChunksAppend | Harmony/Tools/FileLog.cs:115 | a prefix whose length is a multiple of 8 is cut into lines on its own |
| HexDump.HexLinesAppend | Harmony/Tools/FileLog.cs:115-119 | the dump of a multiple of eight bytes followed by more bytes is the two dumps in order |
| HexDump.HexLinesShort | Harmony/Tools/FileLog.cs:115-119 | one to eight bytes make exactly one line |
| HexDump.CellsSnoc | Harmony/Tools/FileLog.cs:112-121 | adding a byte to a line adds its two digits and a space, after the extra space when it is the fifth byte |
| HexDump.CellsLength | Harmony/Tools/FileLog.cs:112-121 | each cell is three characters, plus one for the extra space once a line holds more than four bytes |
| HexDump.CellAtFirst | Harmony/Tools/FileLog.cs:112 | the first cell is the first byte's two digits and a space |
| HexDump.CellAt | Harmony/Tools/FileLog.cs:112-121 | the j-th cell is byte j's two digits and a space |
| HexDump.ExtraSpace | Harmony/Tools/FileLog.cs:120-121 | a line of more than four bytes has the extra space just before the fifth cell |
| HexDump.HexLineLayout | Harmony/Tools/FileLog.cs:111-121 | a line starts with `"#  "`, byte j's two digits and space sit at offset 3+3j (plus one from the fifth byte on), and offset 15 holds the extra space |
| HexDump.ReadCellsFrom | Harmony/Tools/FileLog.cs:112-121 | the cells of a line read back to its bytes |
| HexDump.ReadHexLineRoundTrip | Harmony/Tools/FileLog.cs:109-124 | every hex line reads back to the bytes it shows |
| HexDump.ReadAllChunks | Harmony/Tools/FileLog.cs:109-124 | reading back the lines made from a list of chunks gives the chunks' bytes in order |
| HexDump.HexLinesRoundTrip | Harmony/Tools/FileLog.cs:109-124 | reading the whole dump's lines back in order gives exactly the input bytes |
| HexDump.HexLinesExtend | Harmony/Tools/FileLog.cs:115-118 | reaching the next multiple of eight, or the end, adds one line for the bytes read since the last line |
| HexDump.HexStringPrefix | Harmony/Tools/FileLog.cs:133-134 | the digest text grows by one byte's two digits at a time |
| FileLogging.Repeat | Harmony/Tools/FileLog.cs:34 | `new string(c, n)` has length n and every character is c |
| FileLogging.ClampIndent | Harmony/Tools/FileLog.cs:42 | `Math.Max(0, level + delta)` with unchecked addition: never negative; the clamped sum when no overflow happens; 0 when the sum overflows upward |
| FileLogging.Indented | Harmony/Tools/FileLog.cs:84 | writing lines one by one with the prefix: one output line per input line, in order, each the prefix followed by that line |
| FileLogging.IndentedAppend | Harmony/Tools/FileLog.cs:84 | indenting lines written in two runs is indenting them together |
| FileLogging.FileLog.constructor | Harmony/Tools/FileLog.cs:18-24 | the indent character is a tab, the level 0, the buffer empty, and the log file keeps what it held |
| FileLogging.FileLog.IndentString | Harmony/Tools/FileLog.cs:32-35 | the prefix has length `indentLevel` and every character is `indentChar` |
| FileLogging.FileLog.ChangeIndent | Harmony/Tools/FileLog.cs:40-43 | the level becomes the clamped sum and stays non-negative; nothing else changes |
| FileLogging.FileLog.LogBuffered | Harmony/Tools/FileLog.cs:49-55 | exactly one line, prefix then text, is appended to the buffer; the log file is untouched |
| FileLogging.FileLog.FlushBuffer | Harmony/Tools/FileLog.cs:59-73 | a non-empty buffer is appended to the log in order and emptied; an empty buffer changes nothing |
| FileLogging.FileLog.Log | Harmony/Tools/FileLog.cs:78-87 | exactly one line, prefix then text, is appended to the log; the buffer is untouched |
| FileLogging.FileLog.LogBytes | Harmony/Tools/FileLog.cs:103-137 | for fewer than `int.MaxValue` bytes, the log gains the indented hex dump of the bytes, ceil(n/8) lines laid out as `HexDump` states, followed by the indented `HASH: ` line of the digest in hexadecimal |
| FileLogging.HexText | Harmony/Tools/FileLog.cs:131-134 | the `StringBuilder` loop builds the digest text |
| FileLogging.PendingThenCell | Harmony/Tools/FileLog.cs:111-112 | starting a line with `"#  "` when nothing is pending and appending the byte's cell gives the line so far |
| FileLogging.FourthByte | Harmony/Tools/FileLog.cs:120 | within a line, `i % 4 == 0` holds exactly at the fourth byte |
| FileLogging.EmitLine | Harmony/Tools/FileLog.cs:115-118 | writing the completed line extends the indented dump by that line |
| FileLogging.LogBytesStep | Harmony/Tools/FileLog.cs:109-124 | one turn of the dump loop: a completed line is written, extending the dump so far; otherwise the pending text is the line so far, with the extra space after the fourth byte |

## Left out

- Concurrency: `lock (logPath)` in `FileLog` is not modelled, and there is no "resolved at most once" claim under concurrent callers; `AccessCache` has no locking in the source either.
- Reflection: `AccessTools.DeclaredField`, `DeclaredProperty`, `Method` and `Type.GetHashCode` are functions given to the cache's constructor. Their behaviour, and exceptions they might throw, are not modelled. In the source an empty inner dictionary is already stored when the resolver throws; the model stores the entry in one step.
- Null: a `null` type, name, argument array or array element is not modelled.
- Hash codes: they are plain 32-bit bit patterns (`Word`); how .NET computes a type's hash code is not modelled.
- Dictionaries: the nested dictionaries are values (`map`), not shared references. The source has no aliasing of inner dictionaries, so this affects nothing the cache does.
- File I/O: the log file is a ghost sequence of lines. `File.AppendText`, the desktop path in the static constructor (`logPath`), and `Reset`, which deletes the file, are left out, because they act only on the file system.
- Memory access: `LogBytes` takes the bytes as a sequence. The pointer walk and `Marshal.Copy` are not modelled. The byte count `len` is the length of the sequence, so a negative `len` cannot be expressed.
- FileLogging.FileLog.LogBytes: the source never finishes for `len == int.MaxValue`. It writes every dump line, then `i++` wraps to `int.MinValue` and `i <= len` keeps holding. The loop reads on past the bytes, and the `HASH:` line is never written. The model requires fewer than `int.MaxValue` bytes, so its contract promises nothing for that count.
- MD5: the digest is a function parameter (`digest`). Only the hexadecimal `HASH: ` line is modelled.
- Direct assignment: the public fields `indentLevel` and `indentChar` may be assigned directly by callers. The model keeps `indentLevel` non-negative as an invariant, so a negative level set from outside is not modelled.
- FileLogging.ClampIndent: the contract gives no value when the sum is below `int.MinValue` (a negative level plus a negative delta), where C# wraps it to a non-negative number. Only a negative level can produce that, and the log keeps its level non-negative. The function itself computes the wrapped sum in every case.
- Attributes: `[UpgradeToLatestVersion]` has no behaviour and is left out.
- Loop structure: the `StringBuilder` loop of `LogBytes` is a separate method (`FileLogging.HexText`), which `LogBytes` calls.

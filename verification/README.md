# WasmLoader string marshalling, in Dafny

This project models the string helpers of the page-wide `WasmLoader` object
(`static/js/wasm-loader.js`). The loader treats a WebAssembly module's linear
memory as a flat byte buffer. `writeString(str, offset = 1024)` encodes
`str + '\0'` with a `TextEncoder` and copies the bytes into memory at
`offset`, then returns `offset`. `readString(ptr)` steps forward from `ptr`
until it reads a zero byte, and decodes the bytes before it with a
`TextDecoder`. The `ready` flag is set at the end of a successful `load`, and
the REPL's `evalLisp` checks it before it writes its input and calls the
guest's `eval` export.

Modules:

- `Js` (js.dfy): absent values (`Option`) and thrown errors (`Result`, `JsError`).
- `Utf8` (utf8.dfy): the text codec. `Encode` is UTF-8 as defined in RFC 3629.
  `Decode` is the UTF-8 decoder of the WHATWG Encoding Standard in replacement
  mode, so every malformed sequence yields U+FFFD. `TextDecode` adds the
  default `TextDecoder` behaviour of dropping one leading byte order mark.
  The two facts the loader relies on are lemmas, not axioms:
  `Decode(Encode(s)) == s`, and `Encode(s)` holds a zero byte exactly when `s`
  holds U+0000.
- `LinearMemory` (linear_memory.dfy): memory as `seq<Byte>`. It holds
  `writeString` (a range check, then a bounded copy with a frame condition)
  and `readString` (a scan loop, then a decode). It also holds the round trip
  between them.
- `WasmLoader` (wasm_loader.dfy): the loader state `{instance, memory, ready}`,
  `load` as a transition on the outcome of instantiation, the helpers reached
  through the possibly absent `memory` field, and `evalLisp`'s guard.

Memory is a value. A write returns the new contents, and a read returns only a
string, so a read cannot change memory. `readString` stops only at a zero
byte. A read outside the buffer gives `undefined`, and `undefined !== 0`, so
without a zero byte at or after `ptr` the source loops forever.
`ReadString` therefore requires such a byte (`Terminated`). One might expect
the scan to throw at the buffer boundary. It does not: it keeps reading
`undefined`, and the model follows the code. A negative `ptr` is handled as the code handles it: the scan passes the
`undefined` reads below 0, and `slice` counts a negative start back from the
end of the buffer.

## Model

| member | source | states |
|---|---|---|
| `Utf8.EncodeChar` | static/js/wasm-loader.js:38 | one character encodes to 1 to 4 bytes; an ASCII character encodes to itself, and every byte of a longer encoding is at least 0x80 (RFC 3629, section 3) |
| `Utf8.Encode` | static/js/wasm-loader.js:38 | the encoding has between `\|s\|` and `4\|s\|` bytes, and it contains a 0x00 byte iff `s` contains U+0000 |
| `Utf8.EncodeAppend` | static/js/wasm-loader.js:38 | encoding distributes over concatenation, so `str + '\0'` encodes to `Encode(str)` followed by one zero byte |
| `Utf8.DecodeStep` | static/js/wasm-loader.js:48 | one decoder step consumes 1 to 4 bytes, all after the first being continuation bytes (at least 0x80); it yields U+0000 iff the first byte is 0 |
| `Utf8.Decode` | static/js/wasm-loader.js:48 | decoding yields at most one character per byte, and it yields U+0000 iff the bytes contain a zero byte |
| `Utf8.TextDecode` | static/js/wasm-loader.js:48 | `new TextDecoder().decode(b)` (optionally with `ignoreBOM`) yields at most one character per byte, and it yields U+0000 iff `b` contains a zero byte, whether or not a leading U+FEFF is dropped |
| `Utf8.DecodeStepSound` | static/js/wasm-loader.js:48 | whenever the decoder yields a character other than U+FFFD, the bytes it consumed are that character's shortest-form encoding |
| `Utf8.DecodeStepEncodeChar` | static/js/wasm-loader.js:38-48 | decoding a character's encoding, whatever follows it, yields that character and consumes exactly its encoding |
| `Utf8.DecodeEncode` | static/js/wasm-loader.js:38-48 | round trip of the codec: `Decode(Encode(s)) == s` for every string |
| `Utf8.TextDecodeEncode` | static/js/wasm-loader.js:38-48 | a default `TextDecoder` returns the encoded string, minus its first character when that is U+FEFF; with `ignoreBOM` it returns the whole string |
| `Utf8.EncodeInjective` | static/js/wasm-loader.js:38 | two strings with the same encoding are equal |
| `LinearMemory.ClampIndex` | static/js/wasm-loader.js:48 | an index argument of `slice`, resolved against the buffer length: the result lies in `[0, len]`, and an index already in `[0, len]` is kept as it is |
| `LinearMemory.Slice` | static/js/wasm-loader.js:48 | `mem.slice(start, end)` never has more bytes than the buffer, and it is `mem[start..end]` when both indices lie in the buffer in order |
| `LinearMemory.Terminator` | static/js/wasm-loader.js:46-47 | when some zero byte lies at or after `ptr`, the scan ends at the first one: index `e >= ptr`, `mem[e] == 0`, and no read in `[ptr, e)` gives 0 |
| `LinearMemory.BeforeNul` | static/js/wasm-loader.js:38-47 | the part of a string before its first U+0000 is a prefix without U+0000, followed in `s` by U+0000 when shorter than `s` |
| `LinearMemory.CopyInto` | static/js/wasm-loader.js:39 | the `set` into the view puts `bytes` at `[offset, offset+\|bytes\|)`; every other byte keeps its value and the length is unchanged |
| `LinearMemory.WriteString` | static/js/wasm-loader.js:37-41 | the call throws a `RangeError` iff `[offset, offset+n+1)` (n = encoded length) leaves the buffer, and then nothing is written; otherwise it returns `offset`, memory `[offset, offset+n)` is `Encode(s)`, byte `offset+n` is 0, and all other bytes are unchanged; `offset` defaults to 1024 |
| `LinearMemory.Scan` | static/js/wasm-loader.js:46-47 | the `while (mem[end] !== 0) end++` loop ends at the first zero byte at or after `ptr` |
| `LinearMemory.ReadString` | static/js/wasm-loader.js:44-49 | the result is the default `TextDecoder`'s decoding of `mem.slice(ptr, e)`, where `e` is the first zero byte at or after `ptr`; the result never contains U+0000 |
| `LinearMemory.ZeroFreeBeforeTerminator` | static/js/wasm-loader.js:46-48 | the bytes handed to the decoder contain no zero byte, so the decoded text contains no U+0000 |
| `LinearMemory.ReadBack` | static/js/wasm-loader.js:37-49 | after writing `s` at `offset`, the scan from `offset` stops right after the encoding of the part of `s` before its first U+0000, and the bytes read are exactly that encoding |
| `LinearMemory.WriteThenRead` | static/js/wasm-loader.js:37-49 | `readString(writeString(s, off))` fails iff the write does not fit; otherwise a string without U+0000 comes back unchanged unless it starts with U+FEFF, and then it comes back without that first character |
| `LinearMemory.BomLostOnReadBack` | static/js/wasm-loader.js:48 | concrete case: writing `"\u{FEFF}"` at 0 into four zero bytes stores EF BB BF 00, and `readString(0)` returns `""` |
| `LinearMemory.ReadStringKeepingBom` | static/js/wasm-loader.js:44-49 | corrected read (`ignoreBOM: true`): the result is the plain UTF-8 decoding of the bytes up to the first zero byte at or after `ptr` |
| `LinearMemory.WriteThenReadKeepingBom` | static/js/wasm-loader.js:37-49 | with the corrected read, the round trip fails iff the write does not fit, and otherwise every string without U+0000 comes back unchanged |
| `WasmLoader.Unloaded` | static/js/wasm-loader.js:4-8 | the initial loader is not ready and satisfies the guard |
| `WasmLoader.Load` | static/js/wasm-loader.js:24-34 | a failed instantiation propagates and leaves the loader unchanged; a successful one stores the instance and its memory export, sets `ready` and returns the instance; `ready` becomes true only this way; the guard is preserved |
| `WasmLoader.WriteString` | static/js/wasm-loader.js:37-41 | with no memory attached the call throws a `TypeError` and nothing changes; otherwise it throws a `RangeError` with the offset, the encoded length plus one and the buffer length iff the bytes do not fit, and else returns `offset` with `Encode(s)` and a zero byte stored at `offset`, as `LinearMemory.WriteString` does on the attached memory; nothing but the memory changes |
| `WasmLoader.ReadString` | static/js/wasm-loader.js:44-49 | with no memory attached the call throws a `TypeError`; otherwise it returns what `LinearMemory.ReadString` returns |
| `WasmLoader.EvalLisp` | static/js/wasm-loader.js:70-86 | while `ready` is false the call writes no memory, does not call the guest, and shows the not-loaded notice; once ready, the input is written at 1024 and the guest is called with pointer 1024 on the updated memory iff the write succeeded; `ready`, `instance` and the guard are preserved |
| `WasmLoader.GuestSeesInput` | static/js/wasm-loader.js:80-81 | at the pointer passed to `eval`, the guest finds the UTF-8 bytes of the input up to its first U+0000, then a zero byte; an input without U+0000 decodes back unchanged |

## Left out

- `load`'s `fetch`, `arrayBuffer` and `WebAssembly.instantiate` (lines 25-29) are network I/O and a foreign runtime. `Load` receives their outcome as a parameter.
- The auto-load function and the `wasm-ready`/`wasm-error` events (lines 53-67) are browser event plumbing and async scheduling. Two overlapping `load` calls are not modelled, because `Load` is one atomic step.
- The WASI shim (lines 10-22) holds constant no-op functions with nothing to verify.
- The guest's `eval` export (line 81) is foreign code. It is a parameter of `EvalLisp`. Any change the guest makes to memory is not modelled.
- The DOM reads and writes of `evalLisp` (lines 71-72, 75, 82, 84) are UI. `EvalLisp` returns a `Repl` value that says which text would be shown.
- The text of engine error messages is engine-specific, so it is not modelled. `JsError` records only the kind of error and its operands.
- JavaScript strings can hold lone surrogates, which `TextEncoder` replaces with U+FFFD. A Dafny `char` is a Unicode scalar value, so such strings cannot occur here.
- Offsets and pointers are integers. The `ToIndex` conversion of fractional, `NaN` or non-number arguments is not modelled. Neither are a detached buffer and memory growth.
- `static/js/music-post.js` is jQuery DOM traversal around an external notation renderer, with no logic of its own.

## Findings

| source | as written | input that shows it | evidently intended | confidence | as-written member | corrected member |
|---|---|---|---|---|---|---|
| static/js/wasm-loader.js:48 | `readString` decodes with `new TextDecoder()`. Its default `ignoreBOM: false` consumes a leading U+FEFF instead of returning it. | `writeString("\u{FEFF}", 0)` on four zero bytes stores EF BB BF 00, and `readString(0)` then returns `""` | `readString(writeString(s))` returns `s` for every string without U+0000, which is the round trip the helpers exist for; this needs `new TextDecoder('utf-8', {ignoreBOM: true})` | high; not executed | `LinearMemory.BomLostOnReadBack` (as-written `LinearMemory.ReadString`, `LinearMemory.WriteThenRead`) | `LinearMemory.WriteThenReadKeepingBom` (over `LinearMemory.ReadStringKeepingBom`) |

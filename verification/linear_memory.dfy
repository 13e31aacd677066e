/**
 The two string helpers of the loader, over a WebAssembly linear memory seen
 as a flat byte buffer.

 `WriteString` encodes a string, appends one zero byte and copies the result
 into the buffer at an offset (1024 unless given); `ReadString` scans forward
 from a pointer to the first zero byte and decodes what lies before it.
 Memory is a value here: a write returns the new contents, and a read returns
 only a string, so it cannot change the buffer.
 */
module LinearMemory {
  import opened Js
  import opened Utf8

  /** The contents of a linear memory, one byte per address. */
  type Memory = seq<Byte>

  /** Where `writeString` puts a string when the caller names no offset. */
  const DefaultOffset: int := 1024

  /** The successful result of a write: the new memory contents and the pointer returned. */
  datatype Written = Written(memory: Memory, ptr: int)

  /** Indexing a `Uint8Array`: the byte at `i`, or `undefined` outside the view. */
  function At(mem: Memory, i: int): Option<Byte> {
    if 0 <= i < |mem| then Some(mem[i]) else None
  }

  /**
   An index argument of `%TypedArray%.prototype.slice` resolved against the
   length (ECMAScript 2024, section 23.2.3.27): a negative index counts back
   from the end, and the result is clamped to [0, len].
   */
  function ClampIndex(i: int, len: nat): (k: nat)
    ensures k <= len
    ensures 0 <= i <= len ==> k == i
  {
    if i < 0 then (if len + i < 0 then 0 else len + i)
    else if i > len then len
    else i
  }

  /** `mem.slice(start, end)`: the bytes between the two resolved indices, empty when they cross. */
  function Slice(mem: Memory, start: int, end: int): (r: Memory)
    ensures |r| <= |mem|
    ensures 0 <= start <= end <= |mem| ==> r == mem[start..end]
  {
    var k := ClampIndex(start, |mem|);
    var f := ClampIndex(end, |mem|);
    if k <= f then mem[k..f] else []
  }

  /**
   The condition under which the scan of `readString` stops: some zero byte
   lies inside the memory at or after `ptr`. Reads outside the memory give
   `undefined`, which is not 0, so without such a byte the scan never ends.
   */
  predicate Terminated(mem: Memory, ptr: int) {
    exists e :: ptr <= e && 0 <= e < |mem| && mem[e] == 0
  }

  /** Where the scan from `ptr` stops: the first index at or after `ptr` that holds a zero byte. */
  function Terminator(mem: Memory, ptr: int): (e: nat)
    requires Terminated(mem, ptr)
    ensures ptr <= e < |mem| && mem[e] == 0
    ensures forall k :: ptr <= k < e ==> At(mem, k) != Some(0)
    decreases |mem| - ptr
  {
    if ptr < 0 then Terminator(mem, 0)
    else if mem[ptr] == 0 then ptr
    else Terminator(mem, ptr + 1)
  }

  /** True iff the region [offset, offset + length) lies inside the memory. */
  predicate Fits(mem: Memory, offset: int, length: nat) {
    0 <= offset && offset + length <= |mem|
  }

  /**
   `after` is `before` with `bytes` copied in at `offset`: the region
   [offset, offset + |bytes|) holds exactly `bytes`, and every other address
   keeps its byte.
   */
  ghost predicate Stored(before: Memory, bytes: seq<Byte>, offset: int, after: Memory) {
    && |after| == |before|
    && Fits(before, offset, |bytes|)
    && after[offset..offset + |bytes|] == bytes
    && forall k :: 0 <= k < |before| && !(offset <= k < offset + |bytes|) ==> after[k] == before[k]
  }

  /**
   The prefix of `s` before its first U+0000 (all of `s` if it has none):
   what a C-style reader of the encoded string gets back.
   */
  function BeforeNul(s: string): (t: string)
    ensures |t| <= |s| && t == s[..|t|]
    ensures '\0' !in t
    ensures |t| < |s| ==> s[|t|] == '\0'
  {
    if s == [] || s[0] == '\0' then []
    else [s[0]] + BeforeNul(s[1..])
  }

  /**
   `new Uint8Array(buffer, offset, bytes.length).set(bytes)` once the view
   exists: a bounded copy of `bytes` into memory at `offset` that leaves every
   other address alone.
   */
  method CopyInto(mem: Memory, bytes: seq<Byte>, offset: int) returns (after: Memory)
    requires Fits(mem, offset, |bytes|)
    ensures Stored(mem, bytes, offset, after)
  {
    var view := new Byte[|mem|](k requires 0 <= k < |mem| => mem[k]);
    var i := 0;
    while i < |bytes|
      invariant 0 <= i <= |bytes|
      invariant forall k :: 0 <= k < |mem| ==> view[k] == if offset <= k < offset + i then bytes[k - offset] else mem[k]
    {
      view[offset + i] := bytes[i];
      i := i + 1;
    }
    after := view[..];
    assert after[offset..offset + |bytes|] == bytes by {
      forall k | 0 <= k < |bytes|
        ensures after[offset..offset + |bytes|][k] == bytes[k]
      {
        assert after[offset + k] == bytes[k];
      }
    }
  }

  /**
   `writeString(str, offset)`: encode `str + '\0'` and copy the bytes into
   memory at `offset`, returning `offset`. The `Uint8Array` view over the
   target region throws a `RangeError` unless the whole region, terminator
   included, lies inside the memory; then nothing is written.
   */
  method WriteString(mem: Memory, s: string, offset: int := DefaultOffset) returns (r: Result<Written>)
    ensures r.Failure? <==> !Fits(mem, offset, |Encode(s)| + 1)
    ensures r.Failure? ==> r.error == RangeError(offset, |Encode(s)| + 1, |mem|)
    ensures r.Success? ==> r.value.ptr == offset
    ensures r.Success? ==> Stored(mem, Encode(s) + [0], offset, r.value.memory)
  {
    var bytes := Encode(s + "\0");
    EncodeAppend(s, "\0");
    assert bytes == Encode(s) + [0];
    if !Fits(mem, offset, |bytes|) {
      return Failure(RangeError(offset, |bytes|, |mem|));
    }
    var after := CopyInto(mem, bytes, offset);
    return Success(Written(after, offset));
  }

  /** The scan loop of `readString`: step forward from `ptr` until the byte read is 0. */
  method Scan(mem: Memory, ptr: int) returns (end: int)
    requires Terminated(mem, ptr)
    ensures end == Terminator(mem, ptr)
  {
    end := ptr;
    while At(mem, end) != Some(0)
      invariant ptr <= end <= Terminator(mem, ptr)
      decreases Terminator(mem, ptr) - end
    {
      end := end + 1;
    }
  }

  /**
   `readString(ptr)`: decode, with a default `TextDecoder`, the bytes from
   `ptr` up to the first zero byte at or after it. The result never holds
   U+0000.
   */
  method ReadString(mem: Memory, ptr: int) returns (s: string)
    requires Terminated(mem, ptr)
    ensures s == TextDecode(Slice(mem, ptr, Terminator(mem, ptr)))
    ensures '\0' !in s
  {
    var end := Scan(mem, ptr);
    s := TextDecode(Slice(mem, ptr, end));
    ZeroFreeBeforeTerminator(mem, ptr);
  }

  /**
   `readString` with the decoder built as `new TextDecoder('utf-8', {ignoreBOM: true})`,
   so that a leading U+FEFF written by `writeString` is read back too.
   */
  method ReadStringKeepingBom(mem: Memory, ptr: int) returns (s: string)
    requires Terminated(mem, ptr)
    ensures s == Decode(Slice(mem, ptr, Terminator(mem, ptr)))
    ensures '\0' !in s
  {
    var end := Scan(mem, ptr);
    s := TextDecode(Slice(mem, ptr, end), ignoreBom := true);
    ZeroFreeBeforeTerminator(mem, ptr);
  }

  /** The bytes `readString` hands to the decoder hold no zero byte. */
  lemma ZeroFreeBeforeTerminator(mem: Memory, ptr: int)
    requires Terminated(mem, ptr)
    ensures 0 !in Slice(mem, ptr, Terminator(mem, ptr))
    ensures '\0' !in TextDecode(Slice(mem, ptr, Terminator(mem, ptr)))
  {
    var e := Terminator(mem, ptr);
    var r := Slice(mem, ptr, e);
    var k := ClampIndex(ptr, |mem|);
    if k <= e {
      assert r == mem[k..e];
      forall j | 0 <= j < |r|
        ensures r[j] != 0
      {
        assert At(mem, k + j) != Some(0);
      }
    }
  }

  /**
   After a write of `s`, the scan from the returned pointer stops right after
   the encoding of the part of `s` before its first U+0000, and the bytes it
   hands to the decoder are exactly that encoding.
   */
  lemma ReadBack(mem: Memory, s: string, offset: int, after: Memory)
    requires Stored(mem, Encode(s) + [0], offset, after)
    ensures Terminated(after, offset)
    ensures Terminator(after, offset) == offset + |Encode(BeforeNul(s))|
    ensures Slice(after, offset, Terminator(after, offset)) == Encode(BeforeNul(s))
  {
    var t := BeforeNul(s);
    var bytes := Encode(s) + [0];
    var m := |Encode(t)|;
    TerminatedEncoding(s);
    assert after[offset..offset + |bytes|] == bytes;
    assert after[offset + m] == bytes[m];
    forall k | offset <= k < offset + m
      ensures after[k] != 0
    {
      assert after[k] == bytes[k - offset] == Encode(t)[k - offset];
    }
    FirstZero(after, offset, offset + m);
    assert after[offset..offset + m] == bytes[..m];
  }

  /**
   The written bytes `Encode(s) + [0]` begin with the encoding of the part of
   `s` before its first U+0000, and a zero byte follows it.
   */
  lemma TerminatedEncoding(s: string)
    ensures |Encode(BeforeNul(s))| <= |Encode(s)|
    ensures (Encode(s) + [0])[..|Encode(BeforeNul(s))|] == Encode(BeforeNul(s))
    ensures (Encode(s) + [0])[|Encode(BeforeNul(s))|] == 0
  {
    var t := BeforeNul(s);
    var rest := s[|t|..];
    SplitAtNul(s);
    ZeroAfterPrefix(Encode(t), Encode(rest));
  }

  /** The encoding of `s` is the encoding of its part before U+0000 followed by the encoding of the rest, which starts with a zero byte if non-empty. */
  lemma SplitAtNul(s: string)
    ensures Encode(s) == Encode(BeforeNul(s)) + Encode(s[|BeforeNul(s)|..])
    ensures Encode(s[|BeforeNul(s)|..]) == [] || Encode(s[|BeforeNul(s)|..])[0] == 0
  {
    var t := BeforeNul(s);
    var rest := s[|t|..];
    assert s == t + rest;
    EncodeAppend(t, rest);
    if rest != [] {
      assert rest == [rest[0]] + rest[1..];
      assert Encode(rest) == EncodeChar('\0') + Encode(rest[1..]);
    }
  }

  lemma ZeroAfterPrefix(head: seq<Byte>, tail: seq<Byte>)
    requires tail == [] || tail[0] == 0
    ensures (head + tail + [0])[..|head|] == head
    ensures (head + tail + [0])[|head|] == 0
  {
  }

  /** A zero byte at `e` with none in [ptr, e) is where the scan from `ptr` stops. */
  lemma FirstZero(mem: Memory, ptr: int, e: int)
    requires 0 <= ptr <= e < |mem| && mem[e] == 0
    requires forall k :: ptr <= k < e ==> mem[k] != 0
    ensures Terminated(mem, ptr) && Terminator(mem, ptr) == e
  {
    assert At(mem, e) == Some(0);
  }

  /**
   Round trip of the two helpers: the write fails exactly when the encoded
   string and its terminator do not fit; otherwise reading back from the
   pointer it returned yields a string without U+0000 unchanged, except that
   a leading byte order mark is lost. (For any string, the bytes read back are
   the encoding of its part before U+0000: see `ReadBack`.)
   */
  method WriteThenRead(mem: Memory, s: string, offset: int := DefaultOffset) returns (r: Result<string>)
    ensures r.Failure? <==> !Fits(mem, offset, |Encode(s)| + 1)
    ensures r.Success? && '\0' !in s && !StartsWithBom(s) ==> r.value == s
    ensures r.Success? && '\0' !in s && StartsWithBom(s) ==> r.value == s[1..]
  {
    var w := WriteString(mem, s, offset);
    if w.Failure? {
      return Failure(w.error);
    }
    ReadBack(mem, s, offset, w.value.memory);
    var t := ReadString(w.value.memory, w.value.ptr);
    NulFreeBeforeNul(s);
    TextDecodeEncode(s);
    return Success(t);
  }

  /**
   The same round trip with a decoder that keeps the byte order mark: every
   string without U+0000 that fits comes back unchanged.
   */
  method WriteThenReadKeepingBom(mem: Memory, s: string, offset: int := DefaultOffset) returns (r: Result<string>)
    ensures r.Failure? <==> !Fits(mem, offset, |Encode(s)| + 1)
    ensures r.Success? && '\0' !in s ==> r.value == s
  {
    var w := WriteString(mem, s, offset);
    if w.Failure? {
      return Failure(w.error);
    }
    ReadBack(mem, s, offset, w.value.memory);
    var t := ReadStringKeepingBom(w.value.memory, w.value.ptr);
    DecodeEncode(BeforeNul(s));
    NulFreeBeforeNul(s);
    return Success(t);
  }

  /** A string without U+0000 is its own prefix before U+0000. */
  lemma {:induction false} NulFreeBeforeNul(s: string)
    ensures '\0' !in s ==> BeforeNul(s) == s
    decreases |s|
  {
    if s != [] && '\0' !in s {
      assert s[0] in s;
      assert forall j :: 0 <= j < |s| - 1 ==> s[1..][j] == s[j + 1];
      NulFreeBeforeNul(s[1..]);
    }
  }

  /**
   The source's round trip fails for a string that starts with U+FEFF: a
   memory of four zero bytes, `writeString("\u{FEFF}", 0)` stores EF BB BF 00,
   and `readString(0)` returns the empty string.
   */
  lemma BomLostOnReadBack()
    ensures Stored([0, 0, 0, 0], Encode("\U{FEFF}") + [0], 0, [0xEF, 0xBB, 0xBF, 0])
    ensures Terminated([0xEF, 0xBB, 0xBF, 0], 0)
    ensures Terminator([0xEF, 0xBB, 0xBF, 0], 0) == 3
    ensures TextDecode(Slice([0xEF, 0xBB, 0xBF, 0], 0, 3)) == ""
    ensures Decode(Slice([0xEF, 0xBB, 0xBF, 0], 0, 3)) == "\U{FEFF}"
  {
    var after: Memory := [0xEF, 0xBB, 0xBF, 0];
    assert Encode("\U{FEFF}") == [0xEF, 0xBB, 0xBF];
    assert after[0..4] == Encode("\U{FEFF}") + [0];
    assert Terminated(after, 0) by {
      assert after[3] == 0;
    }
    assert Slice(after, 0, 3) == [0xEF, 0xBB, 0xBF];
    DecodeEncode("\U{FEFF}");
  }
}

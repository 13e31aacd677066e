/**
 The loader object: the module instance, its exported memory and the `ready`
 flag, with `load` as the one transition that sets them and the REPL's
 `evalLisp` as the one caller that checks the flag.

 Fetching, compiling and instantiating the module happen outside the model:
 `Load` receives their outcome. The guest's `eval` export is a parameter too.
 */
module WasmLoader {
  import opened Js
  import opened Utf8
  import opened LinearMemory

  /** A module instance; the model keeps only its identity. */
  datatype Instance = Instance(id: nat)

  /** What a successful instantiation yields: the instance and its `memory` export (absent if the module exports none). */
  datatype Instantiated = Instantiated(instance: Instance, exportedMemory: Option<Memory>)

  /** The loader's state: `instance`, `memory` and `ready`. */
  datatype Loader = Loader(instance: Option<Instance>, memory: Option<Memory>, ready: bool)

  /** What `evalLisp` ends with: the not-loaded notice, an error from writing the input, or the guest's answer. */
  datatype Repl =
    | NotLoaded
    | WriteFailed(error: JsError)
    | GuestCalled(ptr: int, result: Result<string>)

  /**
   The guard `ready` stands for: it is set exactly when an instance is, and
   while it is clear no memory has been attached either.
   */
  predicate Guarded(l: Loader) {
    && (l.ready <==> l.instance.Some?)
    && (!l.ready ==> l.memory.None?)
  }

  /** The loader as the page creates it: nothing loaded, not ready. */
  function Unloaded(): (l: Loader)
    ensures !l.ready && Guarded(l)
  {
    Loader(None, None, false)
  }

  /**
   `load(url)`, given the outcome of fetching and instantiating the module.
   A failure propagates and leaves the loader as it was; on success the
   instance and its memory export are stored before `ready` is raised, and
   the instance is returned.
   */
  function Load(l: Loader, instantiated: Result<Instantiated>): (r: (Loader, Result<Instance>))
    ensures instantiated.Failure? ==> r.0 == l && r.1 == Failure(instantiated.error)
    ensures instantiated.Success? ==>
      && r.0.ready
      && r.0.instance == Some(instantiated.value.instance)
      && r.0.memory == instantiated.value.exportedMemory
      && r.1 == Success(instantiated.value.instance)
    ensures r.0.ready ==> l.ready || instantiated.Success?
    ensures Guarded(l) ==> Guarded(r.0)
  {
    match instantiated
    case Failure(e) => (l, Failure(e))
    case Success(Instantiated(instance, memory)) => (Loader(Some(instance), memory, true), Success(instance))
  }

  /**
   `WasmLoader.writeString(str, offset)`: the memory write, through the
   loader's `memory` field. Reading `.buffer` of an absent memory throws a
   `TypeError`; otherwise the write behaves as `LinearMemory.WriteString` and
   only the memory changes.
   */
  method WriteString(l: Loader, s: string, offset: int := DefaultOffset) returns (l': Loader, r: Result<int>)
    ensures l'.instance == l.instance && l'.ready == l.ready
    ensures l.memory.None? ==> l' == l && r.Failure? && r.error.TypeError?
    ensures l.memory.Some? ==> (r.Failure? <==> !Fits(l.memory.value, offset, |Encode(s)| + 1))
    ensures l.memory.Some? && r.Failure? ==> r.error == RangeError(offset, |Encode(s)| + 1, |l.memory.value|)
    ensures r.Failure? ==> l' == l
    ensures r.Success? ==> r.value == offset && l.memory.Some? && l'.memory.Some?
    ensures r.Success? ==> Stored(l.memory.value, Encode(s) + [0], offset, l'.memory.value)
  {
    if l.memory.None? {
      return l, Failure(TypeError("memory is not set"));
    }
    var w := LinearMemory.WriteString(l.memory.value, s, offset);
    if w.Failure? {
      return l, Failure(w.error);
    }
    return l.(memory := Some(w.value.memory)), Success(w.value.ptr);
  }

  /**
   `WasmLoader.readString(ptr)` through the loader's `memory` field: a
   `TypeError` when no memory is attached, the decoded string otherwise.
   */
  method ReadString(l: Loader, ptr: int) returns (r: Result<string>)
    requires l.memory.Some? ==> Terminated(l.memory.value, ptr)
    ensures l.memory.None? <==> r.Failure?
    ensures r.Failure? ==> r.error.TypeError?
    ensures r.Success? ==> r.value == TextDecode(Slice(l.memory.value, ptr, Terminator(l.memory.value, ptr)))
  {
    if l.memory.None? {
      return Failure(TypeError("memory is not set"));
    }
    var s := LinearMemory.ReadString(l.memory.value, ptr);
    return Success(s);
  }

  /**
   `evalLisp()` for the REPL input `input`, with `guest` standing for the
   module's `eval` export (which may throw). While the loader is not ready it
   shows the not-loaded notice and neither writes memory nor calls the guest.
   Otherwise the input is written at the default offset and, if that worked,
   the guest is called with the returned pointer on the updated memory. The
   guard survives the call.
   */
  method EvalLisp(l: Loader, input: string, guest: (Memory, int) -> Result<string>) returns (l': Loader, out: Repl)
    ensures !l.ready <==> out.NotLoaded?
    ensures !l.ready ==> l' == l
    ensures out.WriteFailed? ==> l' == l
    ensures l.ready && l.memory.None? ==> out.WriteFailed?
    ensures l.ready && l.memory.Some? ==>
      (out.WriteFailed? <==> !Fits(l.memory.value, DefaultOffset, |Encode(input)| + 1))
    ensures out.GuestCalled? ==>
      && out.ptr == DefaultOffset
      && l.memory.Some? && l'.memory.Some?
      && Stored(l.memory.value, Encode(input) + [0], DefaultOffset, l'.memory.value)
      && out.result == guest(l'.memory.value, DefaultOffset)
    ensures l'.ready == l.ready && l'.instance == l.instance
    ensures Guarded(l) ==> Guarded(l')
  {
    if !l.ready {
      return l, NotLoaded;
    }
    var w;
    l', w := WriteString(l, input);
    if w.Failure? {
      return l', WriteFailed(w.error);
    }
    var result := guest(l'.memory.value, w.value);
    return l', GuestCalled(w.value, result);
  }

  /**
   What the guest finds at the pointer `evalLisp` passes it: the UTF-8 bytes
   of the input up to its first U+0000, then a zero byte. Decoded without
   dropping a byte order mark they give that part of the input back, so an
   input without U+0000 arrives unchanged.
   */
  lemma GuestSeesInput(l: Loader, input: string, l': Loader)
    requires l.memory.Some? && l'.memory.Some?
    requires Stored(l.memory.value, Encode(input) + [0], DefaultOffset, l'.memory.value)
    ensures Terminated(l'.memory.value, DefaultOffset)
    ensures Slice(l'.memory.value, DefaultOffset, Terminator(l'.memory.value, DefaultOffset)) == Encode(BeforeNul(input))
    ensures Decode(Slice(l'.memory.value, DefaultOffset, Terminator(l'.memory.value, DefaultOffset))) == BeforeNul(input)
    ensures '\0' !in input ==>
      Decode(Slice(l'.memory.value, DefaultOffset, Terminator(l'.memory.value, DefaultOffset))) == input
  {
    ReadBack(l.memory.value, input, DefaultOffset, l'.memory.value);
    DecodeEncode(BeforeNul(input));
    NulFreeBeforeNul(input);
  }
}

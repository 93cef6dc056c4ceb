/**
 * The console state the loader changes: physical memory seen byte by byte,
 * kernel memory seen word by word, and a trace of the events whose order
 * matters (cache maintenance, privileged stores, syscalls, the handoff).
 * The hardware caches themselves are not modelled, only the order of the
 * operations on them.
 */
module Platform {
  import opened Words

  /** Why the system stopped without returning to its caller. */
  datatype Halt =
    | InvalidElf                      // OSFatal("Invalid elf file")
    | MissingSection(name: seq<byte>) // OSFatal(name)
    | AwaitingChoice                  // the selection menu is still waiting for A

  /** Either a value returned to the caller, or a stop that never returns. */
  datatype Outcome<T> = Returned(value: T) | Halted(reason: Halt)

  datatype Event =
    | DCFlush(addr: u32, len: u32)
    | ICInvalidate(addr: u32, len: u32)
    | KernelStore(addr: u32, value: u32)
    | Syscall36
    | Handoff(entry: u32, argc: int, argv: seq<string>, kernel: map<u32, u32>) // `kernel`: the kernel words at the jump

  /** Memory after `memcpy(dst, src, |src|)`. */
  function Copy(mem: map<u32, byte>, dst: u32, src: seq<byte>): map<u32, byte>
    requires dst + |src| <= TWO32
    decreases |src|
  {
    if |src| == 0 then mem
    else
      var n := |src| - 1;
      Copy(mem, dst, src[..n])[dst + n := src[n]]
  }

  /** After the copy, each destination byte holds the matching source byte. */
  lemma {:induction false} CopyWrites(mem: map<u32, byte>, dst: u32, src: seq<byte>, a: u32)
    requires dst + |src| <= TWO32 && dst <= a < dst + |src|
    ensures a in Copy(mem, dst, src) && Copy(mem, dst, src)[a] == src[a - dst]
    decreases |src|
  {
    var n := |src| - 1;
    if a < dst + n {
      CopyWrites(mem, dst, src[..n], a);
    }
  }

  /** The copy leaves every address outside the destination range as it was. */
  lemma {:induction false} CopyKeeps(mem: map<u32, byte>, dst: u32, src: seq<byte>, a: u32)
    requires dst + |src| <= TWO32 && !(dst <= a < dst + |src|)
    ensures a in Copy(mem, dst, src) <==> a in mem
    ensures a in mem ==> Copy(mem, dst, src)[a] == mem[a]
    decreases |src|
  {
    if |src| > 0 {
      CopyKeeps(mem, dst, src[..|src| - 1], a);
    }
  }

  class Console {
    /** Physical memory; an address that is not a key holds an unknown byte. */
    var mem: map<u32, byte>
    /** Kernel memory written through the privileged store, word by word. */
    var kwords: map<u32, u32>
    /** Order of the effects the loader has on the machine. */
    var events: seq<Event>
    /** Link addresses of the assembly routines KernelPatches and KernelPatchesRevertHook. */
    const kernelPatches: u32
    const revertHook: u32
    /**
     * What syscall 0x36 does to the kernel words, given the kernel words it
     * is issued with (and so the routine its slot points at). The assembly
     * routines are foreign code, so their effect is a parameter.
     */
    const syscallEffect: map<u32, u32> -> map<u32, u32>

    constructor (mem0: map<u32, byte>, kwords0: map<u32, u32>, patches: u32, revert: u32,
                 effect: map<u32, u32> -> map<u32, u32>)
      ensures mem == mem0 && kwords == kwords0 && events == []
      ensures kernelPatches == patches && revertHook == revert && syscallEffect == effect
    {
      mem, kwords, events := mem0, kwords0, [];
      kernelPatches, revertHook, syscallEffect := patches, revert, effect;
    }

    method Memcpy(dst: u32, src: seq<byte>)
      requires dst + |src| <= TWO32
      modifies this
      ensures mem == Copy(old(mem), dst, src)
      ensures kwords == old(kwords) && events == old(events)
    {
      mem := Copy(mem, dst, src);
    }

    method DCFlushRange(addr: u32, len: u32)
      modifies this
      ensures events == old(events) + [DCFlush(addr, len)]
      ensures mem == old(mem) && kwords == old(kwords)
    {
      events := events + [DCFlush(addr, len)];
    }

    method ICInvalidateRange(addr: u32, len: u32)
      modifies this
      ensures events == old(events) + [ICInvalidate(addr, len)]
      ensures mem == old(mem) && kwords == old(kwords)
    {
      events := events + [ICInvalidate(addr, len)];
    }

    /** kern_write: a 32-bit store with kernel permissions, taken as a plain word update. */
    method KernWrite(addr: u32, value: u32)
      modifies this
      ensures kwords == old(kwords)[addr := value]
      ensures events == old(events) + [KernelStore(addr, value)]
      ensures mem == old(mem)
    {
      kwords := kwords[addr := value];
      events := events + [KernelStore(addr, value)];
    }

    /**
     * The jump to a loaded entry point with the loader's own arguments. The
     * event records the kernel words the payload starts with; the payload
     * is arbitrary code, so nothing is promised about the memories after it.
     */
    method CallEntry(entry: u32, argc: int, argv: seq<string>)
      modifies this
      ensures events == old(events) + [Handoff(entry, argc, argv, old(kwords))]
    {
      events := events + [Handoff(entry, argc, argv, kwords)];
    }

    /**
     * `Syscall_0x36`: the routine the slot points at runs in kernel mode and
     * leaves the kernel words `syscallEffect` gives; physical memory is
     * taken to be unchanged.
     */
    method Syscall0x36()
      modifies this
      ensures events == old(events) + [Syscall36]
      ensures kwords == syscallEffect(old(kwords))
      ensures mem == old(mem)
    {
      events := events + [Syscall36];
      kwords := syscallEffect(kwords);
    }
  }
}

/**
 * kernel.cpp: pointing syscall 0x36 of the five kernel syscall tables at
 * the loader's KernelPatches routine, and later at KernelPatchesRevertHook.
 * kern_write is taken as a word store into the console's kernel memory.
 */
module Kernel {
  import opened Words
  import opened Platform

  /** The syscall number both routines patch. */
  const SYSCALL: nat := 0x36

  /** KERN_SYSCALL_TBL_1 .. KERN_SYSCALL_TBL_5. */
  const SYSCALL_TABLES: seq<u32> := [0xFFE8_4C70, 0xFFE8_5070, 0xFFE8_5470, 0xFFEA_AA60, 0xFFEA_AE60]

  /** The address of entry 0x36 of a syscall table: four bytes per entry. */
  function SlotOf(table: u32): (r: int)
  {
    table + SYSCALL * 4
  }

  /** The five words both routines write, in the order they write them. */
  const SLOTS: seq<u32> := [
    SlotOf(SYSCALL_TABLES[0]), SlotOf(SYSCALL_TABLES[1]), SlotOf(SYSCALL_TABLES[2]),
    SlotOf(SYSCALL_TABLES[3]), SlotOf(SYSCALL_TABLES[4])]

  /** Each slot is entry 0x36 of its table, and the five slots are different words. */
  lemma SlotsDistinct()
    ensures |SLOTS| == |SYSCALL_TABLES| == 5
    ensures forall i :: 0 <= i < 5 ==> SLOTS[i] == SYSCALL_TABLES[i] + 0xD8
    ensures forall i, j :: 0 <= i < j < 5 ==> SLOTS[i] != SLOTS[j]
  {
  }

  /** Kernel memory after `kern_write(slots[0], v)`, ..., `kern_write(slots[n-1], v)`. */
  function Patch(kw: map<u32, u32>, slots: seq<u32>, v: u32): map<u32, u32>
    decreases |slots|
  {
    if |slots| == 0 then kw
    else
      var n := |slots| - 1;
      Patch(kw, slots[..n], v)[slots[n] := v]
  }

  /** The events of those writes. */
  function Stores(slots: seq<u32>, v: u32): (t: seq<Event>)
    ensures |t| == |slots|
    ensures forall i :: 0 <= i < |t| ==> t[i] == KernelStore(slots[i], v)
    decreases |slots|
  {
    if |slots| == 0 then []
    else
      var n := |slots| - 1;
      Stores(slots[..n], v) + [KernelStore(slots[n], v)]
  }

  /** Every patched word holds the stored value. */
  lemma {:induction false} PatchWrites(kw: map<u32, u32>, slots: seq<u32>, v: u32, a: u32)
    requires a in slots
    ensures a in Patch(kw, slots, v) && Patch(kw, slots, v)[a] == v
    decreases |slots|
  {
    var n := |slots| - 1;
    if slots[n] != a {
      assert a in slots[..n] by {
        var i :| 0 <= i < |slots| && slots[i] == a;
        assert slots[..n][i] == a;
      }
      PatchWrites(kw, slots[..n], v, a);
    }
  }

  /** Every other word is left as it was. */
  lemma {:induction false} PatchKeeps(kw: map<u32, u32>, slots: seq<u32>, v: u32, a: u32)
    requires a !in slots
    ensures a in Patch(kw, slots, v) <==> a in kw
    ensures a in kw ==> Patch(kw, slots, v)[a] == kw[a]
    decreases |slots|
  {
    if |slots| > 0 {
      var n := |slots| - 1;
      assert a !in slots[..n] by {
        forall i | 0 <= i < n ensures slots[..n][i] != a {
          assert slots[..n][i] == slots[i];
        }
      }
      PatchKeeps(kw, slots[..n], v, a);
    }
  }

  /** Patching the same words twice: the second value wins, whatever the words held. */
  lemma LastWriteWins(kw: map<u32, u32>, slots: seq<u32>, v: u32, w: u32)
    ensures Patch(Patch(kw, slots, v), slots, w) == Patch(kw, slots, w)
  {
    var twice := Patch(Patch(kw, slots, v), slots, w);
    var once := Patch(kw, slots, w);
    forall a: u32 ensures (a in twice <==> a in once) && (a in once ==> twice[a] == once[a]) {
      if a in slots {
        PatchWrites(Patch(kw, slots, v), slots, w, a);
        PatchWrites(kw, slots, w, a);
      } else {
        PatchKeeps(Patch(kw, slots, v), slots, w, a);
        PatchKeeps(kw, slots, v, a);
        PatchKeeps(kw, slots, w, a);
      }
    }
    assert twice.Keys == once.Keys;
  }

  /** The trace of one of the two routines: five stores in table order, then one syscall 0x36. */
  function HookTrace(v: u32): seq<Event>
  {
    Stores(SLOTS, v) + [Syscall36]
  }

  lemma HookTraceShape(v: u32)
    ensures |HookTrace(v)| == 6
    ensures forall i :: 0 <= i < 5 ==> HookTrace(v)[i] == KernelStore(SLOTS[i], v)
    ensures HookTrace(v)[5] == Syscall36
    ensures forall i :: 0 <= i < 5 ==> HookTrace(v)[i] != Syscall36
  {
  }

  /** The new kernel memory: the five slots hold `v`, every other word is unchanged. */
  lemma HookEffect(kw: map<u32, u32>, v: u32, a: u32)
    ensures a in SLOTS ==> a in Patch(kw, SLOTS, v) && Patch(kw, SLOTS, v)[a] == v
    ensures a !in SLOTS ==> (a in Patch(kw, SLOTS, v) <==> a in kw)
    ensures a !in SLOTS && a in kw ==> Patch(kw, SLOTS, v)[a] == kw[a]
  {
    if a in SLOTS {
      PatchWrites(kw, SLOTS, v, a);
    } else {
      PatchKeeps(kw, SLOTS, v, a);
    }
  }

  /** The kernel words after one routine: the five stores of `v`, then syscall 0x36 with its effect. */
  function AfterHook(effect: map<u32, u32> -> map<u32, u32>, kw: map<u32, u32>, v: u32): map<u32, u32>
  {
    effect(Patch(kw, SLOTS, v))
  }

  /**
   * doKernelSetup followed by revertKernelHook. Whatever the KernelPatches
   * routine did to the kernel words, the second syscall 0x36 is issued with
   * each of the five slots holding KernelPatchesRevertHook and every other
   * word as the first routine left it; and of the two series of stores
   * alone, the first leaves no trace.
   */
  lemma SetupThenRevert(kw: map<u32, u32>, patches: u32, revert: u32, effect: map<u32, u32> -> map<u32, u32>)
    ensures var issued := Patch(AfterHook(effect, kw, patches), SLOTS, revert);
      forall i :: 0 <= i < 5 ==> SLOTS[i] in issued && issued[SLOTS[i]] == revert
    ensures var issued := Patch(AfterHook(effect, kw, patches), SLOTS, revert);
      forall a :: a !in SLOTS ==>
        (a in issued <==> a in AfterHook(effect, kw, patches)) &&
        (a in issued ==> issued[a] == AfterHook(effect, kw, patches)[a])
    ensures Patch(Patch(kw, SLOTS, patches), SLOTS, revert) == Patch(kw, SLOTS, revert)
  {
    var mid := AfterHook(effect, kw, patches);
    LastWriteWins(kw, SLOTS, patches, revert);
    forall i | 0 <= i < 5
      ensures SLOTS[i] in Patch(mid, SLOTS, revert) && Patch(mid, SLOTS, revert)[SLOTS[i]] == revert
    {
      PatchWrites(mid, SLOTS, revert, SLOTS[i]);
    }
    forall a | a !in SLOTS
      ensures (a in Patch(mid, SLOTS, revert) <==> a in mid) &&
        (a in Patch(mid, SLOTS, revert) ==> Patch(mid, SLOTS, revert)[a] == mid[a])
    {
      PatchKeeps(mid, SLOTS, revert, a);
    }
  }

  /** The five writes of `v`, then syscall 0x36. */
  method WriteSlotsAndCall(c: Console, v: u32)
    modifies c
    ensures c.kwords == c.syscallEffect(Patch(old(c.kwords), SLOTS, v))
    ensures c.events == old(c.events) + HookTrace(v)
    ensures c.mem == old(c.mem)
  {
    ghost var kw := c.kwords;
    c.KernWrite(SYSCALL_TABLES[0] + SYSCALL * 4, v);
    assert c.kwords == Patch(kw, SLOTS[..1], v) by { assert SLOTS[..1][..0] == []; }
    c.KernWrite(SYSCALL_TABLES[1] + SYSCALL * 4, v);
    assert c.kwords == Patch(kw, SLOTS[..2], v) by { assert SLOTS[..2][..1] == SLOTS[..1]; }
    c.KernWrite(SYSCALL_TABLES[2] + SYSCALL * 4, v);
    assert c.kwords == Patch(kw, SLOTS[..3], v) by { assert SLOTS[..3][..2] == SLOTS[..2]; }
    c.KernWrite(SYSCALL_TABLES[3] + SYSCALL * 4, v);
    assert c.kwords == Patch(kw, SLOTS[..4], v) by { assert SLOTS[..4][..3] == SLOTS[..3]; }
    c.KernWrite(SYSCALL_TABLES[4] + SYSCALL * 4, v);
    assert SLOTS[..5] == SLOTS && SLOTS[..5][..4] == SLOTS[..4];
    assert c.kwords == Patch(kw, SLOTS, v);
    c.Syscall0x36();
  }

  /** doKernelSetup: the five slots point at KernelPatches, then syscall 0x36 runs it. */
  method DoKernelSetup(c: Console)
    modifies c
    ensures c.kwords == c.syscallEffect(Patch(old(c.kwords), SLOTS, c.kernelPatches))
    ensures c.events == old(c.events) + HookTrace(c.kernelPatches)
    ensures c.mem == old(c.mem)
  {
    WriteSlotsAndCall(c, c.kernelPatches);
  }

  /** revertKernelHook: the five slots point at KernelPatchesRevertHook, then syscall 0x36. */
  method RevertKernelHook(c: Console)
    modifies c
    ensures c.kwords == c.syscallEffect(Patch(old(c.kwords), SLOTS, c.revertHook))
    ensures c.events == old(c.events) + HookTrace(c.revertHook)
    ensures c.mem == old(c.mem)
  {
    WriteSlotsAndCall(c, c.revertHook);
  }
}

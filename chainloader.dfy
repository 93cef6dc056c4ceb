/**
 * main.cpp's `start_wrapper` and `_start`: hook the kernel, pick a payload
 * path (the default one, or the menu's choice when B is held or pressed),
 * load it, unhook the kernel, and jump to the entry point if there is one.
 */
module ChainLoader {
  import opened Words
  import opened Platform
  import opened Elf
  import opened ElfLoader
  import opened Kernel
  import opened Payloads

  const PAYLOAD_ROOT: string := "wiiu/payloads"
  const DEFAULT_PAYLOAD: string := "wiiu/payloads/default/payload.elf"

  /** What the loader finds when it starts: the gamepad, the SD card and its files. */
  datatype Env = Env(
    hold: u32, trigger: u32,   // the first VPADRead
    mounted: bool,             // WHBMountSdCard succeeds
    dirs: Dirs,                // what FSOpenDir / FSReadDir see
    pad: seq<u32>,             // the triggers of the menu's VPADRead calls
    files: Storage,            // what open / read see
    allocOk: bool)             // whether the aligned allocation succeeds

  /** Every file the loader may be pointed at is readable as far as the C code reads it. */
  predicate Readable(files: Storage)
  {
    forall p :: p in files ==> ElfImage(files[p].content)
  }

  /** `(btn & VPAD_BUTTON_B) == VPAD_BUTTON_B` with `btn = hold | trigger`; VPAD_BUTTON_B is 0x4000. */
  predicate MenuRequested(hold: u32, trigger: u32)
  {
    (hold as bv32 | trigger as bv32) & 0x4000 == 0x4000
  }

  /** The menu opens when B is held or was just pressed. */
  lemma MenuRequestedByEither(hold: u32, trigger: u32)
    ensures MenuRequested(hold, trigger) <==>
      hold as bv32 & 0x4000 == 0x4000 || trigger as bv32 & 0x4000 == 0x4000
  {
  }

  /** The path start_wrapper loads, or the menu waiting forever for A. */
  function ChosenPath(env: Env): Outcome<string>
  {
    if MenuRequested(env.hold, env.trigger) then Selection(Collected(env.mounted, env.dirs, PAYLOAD_ROOT), env.pad)
    else Returned(DEFAULT_PAYLOAD)
  }

  /** Without B the default payload is loaded; with it, one of the collected payloads or "". */
  lemma ChosenPathSpec(env: Env)
    ensures !MenuRequested(env.hold, env.trigger) ==> ChosenPath(env) == Returned(DEFAULT_PAYLOAD)
    ensures MenuRequested(env.hold, env.trigger) && ChosenPath(env).Returned? ==>
      var m := Collected(env.mounted, env.dirs, PAYLOAD_ROOT);
      ChosenPath(env).value == "" || exists i :: 0 <= i < |m| && ChosenPath(env).value == m[i].value
  {
    var m := Collected(env.mounted, env.dirs, PAYLOAD_ROOT);
    if MenuRequested(env.hold, env.trigger) && ChosenPath(env).Returned? {
      var s := MenuLoop(0, |m|, env.pad).value;
      if 0 <= s < |m| {
        assert ChosenPath(env).value == m[s].value;
      }
    }
  }

  /** The load of the chosen path; a menu that never returns loads nothing. */
  function Run(env: Env): (l: Load)
    requires Readable(env.files)
    ensures l.installed.Some? ==> var d := l.installed.value;
      ElfImage(d) && Accepted(d) && Placeable(d)
  {
    match ChosenPath(env)
    case Halted(h) => Load(Halted(h), None)
    case Returned(path) => LoadElf(env.files, path, env.allocOk)
  }

  /** What start_wrapper returns: the entry point, 0, or a stop that never returns. */
  function Boot(env: Env): Outcome<u32>
    requires Readable(env.files)
  {
    Run(env).result
  }

  /** The image start_wrapper installs, if any. */
  function Installed(env: Env): (d: Option<seq<byte>>)
    requires Readable(env.files)
    ensures d.Some? ==> ElfImage(d.value) && Accepted(d.value) && Placeable(d.value)
  {
    Run(env).installed
  }

  /** The cache maintenance of the load, if it installed an image. */
  function LoadTrace(env: Env): seq<Event>
    requires Readable(env.files)
  {
    match Installed(env)
    case None => []
    case Some(d) => InstallTrace(d)
  }

  /** The events of a start_wrapper that returns. */
  function WrapperTrace(env: Env, patches: u32, revert: u32): seq<Event>
    requires Readable(env.files)
  {
    HookTrace(patches) + LoadTrace(env) + HookTrace(revert)
  }

  lemma LoadTraceIsCacheOps(env: Env)
    requires Readable(env.files)
    ensures forall i :: 0 <= i < |LoadTrace(env)| ==> LoadTrace(env)[i].DCFlush? || LoadTrace(env)[i].ICInvalidate?
  {
    if Installed(env).Some? {
      TraceOnlyCacheOps(Layout(Installed(env).value));
    }
  }

  /**
   * Hooking, then cache maintenance only, then unhooking: the trace opens
   * with the five stores of `patches` and a syscall 0x36, closes with the
   * five stores of `revert` and a syscall 0x36, and has no other syscall.
   */
  lemma BracketedTrace(patches: u32, l: seq<Event>, revert: u32)
    requires forall i :: 0 <= i < |l| ==> l[i].DCFlush? || l[i].ICInvalidate?
    ensures var t := HookTrace(patches) + l + HookTrace(revert);
      |t| >= 12 && t[..6] == HookTrace(patches) && t[|t| - 6..] == HookTrace(revert) &&
      (forall i :: 6 <= i < |t| - 6 ==> t[i].DCFlush? || t[i].ICInvalidate?) &&
      (forall i :: 0 <= i < |t| && t[i] == Syscall36 ==> i == 5 || i == |t| - 1)
  {
    var t := HookTrace(patches) + l + HookTrace(revert);
    HookTraceShape(patches);
    HookTraceShape(revert);
    assert t[..6] == HookTrace(patches);
    assert t[|t| - 6..] == HookTrace(revert);
    if |l| > 0 {
      forall i | 6 <= i < |t| - 6 ensures t[i].DCFlush? || t[i].ICInvalidate? {
        assert t[i] == l[i - 6];
      }
    }
    forall i | 0 <= i < |t| && t[i] == Syscall36 ensures i == 5 || i == |t| - 1 {
      if i < 6 {
        assert t[i] == HookTrace(patches)[i];
      } else if i >= |t| - 6 {
        assert t[i] == HookTrace(revert)[i - (|t| - 6)];
      }
    }
  }

  /**
   * A returning start_wrapper hooks the kernel first and unhooks it last:
   * the trace opens with the five KernelPatches stores and a syscall 0x36,
   * closes with the five KernelPatchesRevertHook stores and a syscall 0x36,
   * and between them holds only cache maintenance.
   */
  lemma WrapperOrder(env: Env, patches: u32, revert: u32)
    requires Readable(env.files)
    ensures var t := WrapperTrace(env, patches, revert);
      |t| >= 12 && t[..6] == HookTrace(patches) && t[|t| - 6..] == HookTrace(revert) &&
      (forall i :: 6 <= i < |t| - 6 ==> t[i].DCFlush? || t[i].ICInvalidate?) &&
      (forall i :: 0 <= i < |t| && t[i] == Syscall36 ==> i == 5 || i == |t| - 1)
  {
    LoadTraceIsCacheOps(env);
    BracketedTrace(patches, LoadTrace(env), revert);
  }

  /**
   * The middle of start_wrapper: read the pad, collect the payloads, and
   * take the default path unless B asks for the menu.
   */
  method ChoosePayload(env: Env) returns (r: Outcome<string>)
    ensures r == ChosenPath(env)
  {
    var btn := env.hold as bv32 | env.trigger as bv32;
    var payloads := GetAllPayloads(env.mounted, env.dirs, PAYLOAD_ROOT);
    var payloadPath := DEFAULT_PAYLOAD;
    if btn & 0x4000 == 0x4000 {
      var chosen := PayloadSelectionScreen(payloads, env.pad);
      if chosen.Halted? {
        return Halted(chosen.reason);
      }
      payloadPath := chosen.value;
    }
    r := Returned(payloadPath);
  }

  /**
   * start_wrapper. When it returns, both routines have run: the revert
   * syscall was issued with the five slots holding KernelPatchesRevertHook
   * over whatever KernelPatches left. A stop (a fatal ELF error, or the menu
   * still waiting) comes after KernelPatches only, and nothing rewrites the
   * slots after it.
   */
  method StartWrapper(c: Console, env: Env) returns (r: Outcome<u32>)
    requires Readable(env.files)
    modifies c
    ensures r == Boot(env)
    ensures r.Returned? ==>
      c.kwords == AfterHook(c.syscallEffect, AfterHook(c.syscallEffect, old(c.kwords), c.kernelPatches), c.revertHook)
    ensures r.Returned? ==> c.events == old(c.events) + WrapperTrace(env, c.kernelPatches, c.revertHook)
    ensures r.Halted? ==> c.kwords == AfterHook(c.syscallEffect, old(c.kwords), c.kernelPatches)
    ensures r.Halted? ==> c.events == old(c.events) + HookTrace(c.kernelPatches)
    ensures Installed(env).None? ==> c.mem == old(c.mem)
    ensures Installed(env).Some? ==> c.mem == InstallMem(old(c.mem), Installed(env).value)
  {
    DoKernelSetup(c);
    ghost var hooked := c.events;
    var chosen := ChoosePayload(env);
    if chosen.Halted? {
      return Halted(chosen.reason);
    }
    var payloadPath := chosen.value;
    var entryPoint := LoadLoaderElf(c, env.files, payloadPath, env.allocOk);
    if entryPoint.Halted? {
      return Halted(entryPoint.reason);
    }
    assert c.events == hooked + LoadTrace(env);
    RevertKernelHook(c);
    AppendThree(old(c.events), HookTrace(c.kernelPatches), LoadTrace(env), HookTrace(c.revertHook));
    r := entryPoint;
  }

  /** What _start returns: -1 when there is no entry point, else what the payload returns. */
  function StartResult(env: Env, argc: int, argv: seq<string>, run: (u32, int, seq<string>) -> int): Outcome<int>
    requires Readable(env.files)
  {
    match Boot(env)
    case Halted(h) => Halted(h)
    case Returned(entry) => if entry == 0 then Returned(-1) else Returned(run(entry, argc, argv))
  }

  /**
   * _start. `run` stands for the result of the payload's code behind the
   * raw function pointer: the payload is entered at most once, with the
   * loader's own argc and argv, and with the kernel words both routines
   * have left. A stop before the jump comes after the KernelPatches routine
   * only. Without a jump, memory changes only by the installed image.
   */
  method Start(c: Console, env: Env, argc: int, argv: seq<string>, run: (u32, int, seq<string>) -> int)
    returns (r: Outcome<int>)
    requires Readable(env.files)
    modifies c
    ensures r == StartResult(env, argc, argv, run)
    ensures Boot(env) == Returned(0) ==>
      r == Returned(-1) && c.events == old(c.events) + WrapperTrace(env, c.kernelPatches, c.revertHook) &&
      c.kwords == AfterHook(c.syscallEffect, AfterHook(c.syscallEffect, old(c.kwords), c.kernelPatches), c.revertHook)
    ensures Boot(env).Returned? && Boot(env).value != 0 ==>
      c.events == old(c.events) + WrapperTrace(env, c.kernelPatches, c.revertHook) +
        [Handoff(Boot(env).value, argc, argv,
                 AfterHook(c.syscallEffect, AfterHook(c.syscallEffect, old(c.kwords), c.kernelPatches), c.revertHook))]
    ensures Boot(env).Halted? ==> c.kwords == AfterHook(c.syscallEffect, old(c.kwords), c.kernelPatches)
    ensures Boot(env).Halted? ==> c.events == old(c.events) + HookTrace(c.kernelPatches)
    ensures Boot(env).Halted? || Boot(env) == Returned(0) ==>
      (Installed(env).None? ==> c.mem == old(c.mem)) &&
      (Installed(env).Some? ==> c.mem == InstallMem(old(c.mem), Installed(env).value))
  {
    var entryPoint := StartWrapper(c, env);
    if entryPoint.Halted? {
      return Halted(entryPoint.reason);
    }
    var res := -1;
    if entryPoint.value != 0 {
      c.CallEntry(entryPoint.value, argc, argv);
      res := run(entryPoint.value, argc, argv);
    }
    r := Returned(res);
  }

  /** The payload is entered exactly once, as the last event, right after the unhooking syscall. */
  lemma HandoffAfter(w: seq<Event>, revert: u32, h: Event)
    requires |w| >= 6 && w[|w| - 6..] == HookTrace(revert) && h.Handoff?
    requires forall i :: 0 <= i < |w| - 6 ==> w[i].DCFlush? || w[i].ICInvalidate? || w[i].KernelStore? || w[i] == Syscall36
    ensures var t := w + [h];
      t[|t| - 1] == h && t[|t| - 2] == Syscall36 &&
      t[|t| - 7..|t| - 1] == HookTrace(revert) &&
      forall i :: 0 <= i < |t| - 1 ==> !t[i].Handoff?
  {
    var t := w + [h];
    HookTraceShape(revert);
    assert t[|t| - 7..|t| - 1] == w[|w| - 6..];
    forall i | 0 <= i < |t| - 1 ensures !t[i].Handoff? {
      assert t[i] == w[i];
      if i >= |w| - 6 {
        assert w[i] == HookTrace(revert)[i - (|w| - 6)];
      }
    }
  }

  /** In _start's trace the payload is entered exactly once, as the last event, right after the unhooking syscall. */
  lemma HandoffIsLast(env: Env, patches: u32, revert: u32, entry: u32, argc: int, argv: seq<string>, kw: map<u32, u32>)
    requires Readable(env.files)
    ensures var t := WrapperTrace(env, patches, revert) + [Handoff(entry, argc, argv, kw)];
      t[|t| - 1] == Handoff(entry, argc, argv, kw) && t[|t| - 2] == Syscall36 &&
      t[|t| - 7..|t| - 1] == HookTrace(revert) &&
      forall i :: 0 <= i < |t| - 1 ==> !t[i].Handoff?
  {
    var w := WrapperTrace(env, patches, revert);
    WrapperOrder(env, patches, revert);
    HookTraceShape(patches);
    forall i | 0 <= i < |w| - 6
      ensures w[i].DCFlush? || w[i].ICInvalidate? || w[i].KernelStore? || w[i] == Syscall36
    {
      if i < 6 {
        assert w[i] == HookTrace(patches)[i];
      }
    }
    HandoffAfter(w, revert, Handoff(entry, argc, argv, kw));
  }
}

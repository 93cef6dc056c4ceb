/**
 * The loading half of ElfUtils.c: `LoadFileToMem` (read a whole file into
 * an aligned heap buffer), `InstallMain` (copy the four sections to their
 * target addresses and synchronise the caches) and
 * `load_loader_elf_from_sd` (read, check the window, install, return the
 * entry point).
 *
 * The file system is an abstract input: each file is its bytes plus the
 * script of values its successive `read` calls return.
 */
module ElfLoader {
  import opened Words
  import opened Platform
  import opened Elf

  // ==== LoadFileToMem ====

  /** FAT32 files are shorter than 4 GiB, so `lseek` reports the exact size. */
  type FileBytes = s: seq<byte> | |s| < TWO32

  /**
   * A stored file. `chunks[j]` says what the j-th `read` call does: a value
   * <= 0 is returned as is (an error), a positive value caps the bytes that
   * call delivers (a short read). Calls past the end of the script deliver
   * all that was asked, as far as the file goes.
   */
  datatype StoredFile = StoredFile(content: FileBytes, chunks: seq<int>)

  type Storage = map<string, StoredFile>

  const BLOCK: nat := 0x20000
  /** Largest file size for which `done + blocksize` cannot wrap in 32 bits. */
  const NO_WRAP_LIMIT: nat := TWO32 - BLOCK

  /** One `read(fd, buffer + at, len)` request. */
  datatype ReadReq = ReadReq(at: nat, len: nat)
  datatype ReadRun = ReadRun(done: nat, requests: seq<ReadReq>)

  /** `(filesize + 0x3F) & ~0x3F` computed, as written, in uint32_t. */
  function AllocSizeAsWritten(filesize: u32): (r: u32)
    ensures r % 0x40 == 0
    ensures filesize <= 0xFFFF_FFC0 ==> filesize <= r < filesize + 0x40
  {
    Add32(filesize, 0x3F) / 0x40 * 0x40
  }

  /** For the last 63 possible file sizes the rounded size wraps to 0. */
  lemma AllocSizeAsWrittenWraps(filesize: u32)
    requires filesize > 0xFFFF_FFC0
    ensures AllocSizeAsWritten(filesize) == 0 < filesize
  {
    assert Add32(filesize, 0x3F) == filesize + 0x3F - TWO32;
  }

  /**
   * The intended allocation size: the file size rounded up to a multiple of
   * 0x40, or no allocation when that does not fit in 32 bits.
   */
  function AllocSize(filesize: nat): (r: Option<nat>)
    ensures r.Some? <==> filesize <= 0xFFFF_FFC0
    ensures r.Some? ==> r.value % 0x40 == 0 && filesize <= r.value < filesize + 0x40 && r.value < TWO32
    ensures r.Some? ==> r.value == AllocSizeAsWritten(filesize)
  {
    if filesize <= 0xFFFF_FFC0 then Some(AllocSizeAsWritten(filesize)) else None
  }

  /** What the j-th `read` returns when `want` bytes are asked at offset `done`. */
  function ReadCall(f: StoredFile, j: nat, want: nat, done: nat): (r: int)
    requires done < |f.content|
    ensures r <= want && r <= |f.content| - done
    ensures want > 0 && (j >= |f.chunks| || f.chunks[j] > 0) ==> r > 0
  {
    var avail := Min(want, |f.content| - done);
    if j < |f.chunks| && f.chunks[j] <= 0 then f.chunks[j]
    else if j < |f.chunks| then Min(f.chunks[j], avail)
    else avail
  }

  /**
   * The block size of the next request: the last block is shortened to end
   * at the end of the file, as judged by a 32-bit sum.
   */
  function NextBlock(done: nat, blocksize: nat, filesize: nat): (r: nat)
    requires done < filesize < TWO32 && 1 <= blocksize <= BLOCK
    ensures 1 <= r <= blocksize
    ensures filesize <= NO_WRAP_LIMIT ==> done + r <= filesize
  {
    if Add32(done, blocksize) > filesize then filesize - done else blocksize
  }

  /**
   * The read loop of LoadFileToMem from a given state: how far it gets and
   * which requests it makes.
   */
  function ReadLoop(f: StoredFile, done: nat, blocksize: nat, j: nat): (r: ReadRun)
    requires done <= |f.content| && 1 <= blocksize <= BLOCK
    ensures done <= r.done <= |f.content|
    decreases |f.content| - done
  {
    if done >= |f.content| then ReadRun(done, [])
    else
      var bs := NextBlock(done, blocksize, |f.content|);
      var got := ReadCall(f, j, bs, done);
      if got <= 0 then ReadRun(done, [ReadReq(done, bs)])
      else
        var rest := ReadLoop(f, done + got, bs, j + 1);
        ReadRun(rest.done, [ReadReq(done, bs)] + rest.requests)
  }

  /**
   * Every request of the read loop asks for between 1 and 0x20000 bytes
   * and starts inside the file; unless the file is within 0x20000 bytes of
   * 4 GiB, no request reaches past the end of the file.
   */
  lemma {:induction false} ReadRequestsBounded(f: StoredFile, done: nat, blocksize: nat, j: nat)
    requires done <= |f.content| && 1 <= blocksize <= BLOCK
    ensures forall q :: q in ReadLoop(f, done, blocksize, j).requests ==> 1 <= q.len <= BLOCK && done <= q.at < |f.content|
    ensures |f.content| <= NO_WRAP_LIMIT ==>
      forall q :: q in ReadLoop(f, done, blocksize, j).requests ==> q.at + q.len <= |f.content|
    decreases |f.content| - done
  {
    if done < |f.content| {
      var bs := NextBlock(done, blocksize, |f.content|);
      var got := ReadCall(f, j, bs, done);
      if got > 0 {
        ReadRequestsBounded(f, done + got, bs, j + 1);
      }
    }
  }

  /**
   * One turn of the read loop, as the loop of ReadBlocks keeps it: the
   * requests made so far followed by those still to come are the run's.
   */
  lemma ReadLoopStep(f: StoredFile, done: nat, blocksize: nat, j: nat, requests: seq<ReadReq>, run: ReadRun)
    requires done < |f.content| && 1 <= blocksize <= BLOCK
    requires ReadLoop(f, done, blocksize, j).done == run.done
    requires requests + ReadLoop(f, done, blocksize, j).requests == run.requests
    ensures var bs := NextBlock(done, blocksize, |f.content|);
      var got := ReadCall(f, j, bs, done);
      (got <= 0 ==> done == run.done && requests + [ReadReq(done, bs)] == run.requests) &&
      (got > 0 ==> var rest := ReadLoop(f, done + got, bs, j + 1);
        rest.done == run.done && (requests + [ReadReq(done, bs)]) + rest.requests == run.requests)
  {
    var bs := NextBlock(done, blocksize, |f.content|);
    var got := ReadCall(f, j, bs, done);
    if got > 0 {
      var rest := ReadLoop(f, done + got, bs, j + 1);
      assert (requests + [ReadReq(done, bs)]) + rest.requests == requests + ([ReadReq(done, bs)] + rest.requests);
    }
  }

  /** When no read call in the script fails, the loop reads the whole file. */
  lemma {:induction false} ReadLoopCompletes(f: StoredFile, done: nat, blocksize: nat, j: nat)
    requires done <= |f.content| && 1 <= blocksize <= BLOCK
    requires forall k :: j <= k < |f.chunks| ==> f.chunks[k] > 0
    ensures ReadLoop(f, done, blocksize, j).done == |f.content|
    decreases |f.content| - done
  {
    if done < |f.content| {
      var bs := NextBlock(done, blocksize, |f.content|);
      var got := ReadCall(f, j, bs, done);
      ReadLoopCompletes(f, done + got, bs, j + 1);
    }
  }

  /** A failing first read of a non-empty file leaves nothing read. */
  lemma FirstReadFails(f: StoredFile)
    requires |f.content| > 0 && |f.chunks| > 0 && f.chunks[0] <= 0
    ensures ReadLoop(f, 0, BLOCK, 0).done == 0 != |f.content|
  {
  }

  /**
   * `read(fd, buffer + at, want)` as the j-th read call on `f`: the bytes
   * delivered land at `buffer[at..]`, and the prefix already read stays.
   */
  method Read(f: StoredFile, j: nat, buffer: array<byte>, at: nat, want: nat) returns (got: int)
    requires at < |f.content| <= buffer.Length
    requires buffer[..at] == f.content[..at]
    modifies buffer
    ensures got == ReadCall(f, j, want, at)
    ensures buffer[..at] == f.content[..at]
    ensures got > 0 ==> buffer[..at + got] == f.content[..at + got]
  {
    got := ReadCall(f, j, want, at);
    if got > 0 {
      forall k | at <= k < at + got {
        buffer[k] := f.content[k];
      }
      assert buffer[..at + got] == f.content[..at + got] by {
        assert buffer[..at] == f.content[..at];
      }
    }
  }

  /** The read loop of LoadFileToMem, filling `buffer` from the start of the file. */
  method ReadBlocks(f: StoredFile, buffer: array<byte>) returns (done: nat, requests: seq<ReadReq>)
    requires |f.content| <= buffer.Length
    modifies buffer
    ensures done == ReadLoop(f, 0, BLOCK, 0).done && requests == ReadLoop(f, 0, BLOCK, 0).requests
    ensures buffer[..done] == f.content[..done]
  {
    var filesize := |f.content|;
    var blocksize: nat, j: nat := BLOCK, 0;
    done, requests := 0, [];
    ghost var run := ReadLoop(f, 0, BLOCK, 0);
    while done < filesize
      invariant done <= filesize && 1 <= blocksize <= BLOCK
      invariant buffer[..done] == f.content[..done]
      invariant ReadLoop(f, done, blocksize, j).done == run.done
      invariant requests + ReadLoop(f, done, blocksize, j).requests == run.requests
      decreases filesize - done
    {
      ReadLoopStep(f, done, blocksize, j, requests, run);
      blocksize := NextBlock(done, blocksize, filesize);
      var readBytes := Read(f, j, buffer, done, blocksize);
      requests := requests + [ReadReq(done, blocksize)];
      j := j + 1;
      if readBytes <= 0 {
        break;
      }
      done := done + readBytes;
    }
    assert requests == run.requests;
  }

  /**
   * LoadFileToMem. `inbuffer` and `size` start as NULL and 0; the result is
   * -1 when the file cannot be opened, -2 when no buffer can be allocated,
   * -3 when fewer than `filesize` bytes arrive, and otherwise the file size
   * converted to int32_t, with the buffer holding the file.
   */
  method LoadFileToMem(files: Storage, path: string, allocOk: bool)
    returns (status: int, inbuffer: Option<seq<byte>>, size: u32, requests: seq<ReadReq>)
    ensures path !in files ==> status == -1 && requests == []
    ensures path in files && !(allocOk && AllocSize(|files[path].content|).Some?) ==> status == -2 && requests == []
    ensures path in files && allocOk && AllocSize(|files[path].content|).Some? ==>
      requests == ReadLoop(files[path], 0, BLOCK, 0).requests
    ensures inbuffer.Some? <==>
      path in files && allocOk && AllocSize(|files[path].content|).Some? &&
      ReadLoop(files[path], 0, BLOCK, 0).done == |files[path].content|
    ensures inbuffer.Some? ==>
      inbuffer.value == files[path].content && size == |files[path].content| &&
      status == Int32(|files[path].content|)
    ensures path in files && allocOk && AllocSize(|files[path].content|).Some? &&
      ReadLoop(files[path], 0, BLOCK, 0).done != |files[path].content|
      ==> status == -3 && inbuffer.None?
    ensures inbuffer.None? ==> size == 0 && status in {-1, -2, -3}
  {
    inbuffer, size, requests := None, 0, [];
    if path !in files {
      status := -1;
      return;
    }
    var f := files[path];
    var filesize := |f.content|;
    var alloc := AllocSize(filesize);
    if !allocOk || alloc.None? {
      status := -2;
      return;
    }
    var buffer := new byte[alloc.value];
    var done;
    done, requests := ReadBlocks(f, buffer);
    if done != filesize {
      status := -3;
      return;
    }
    assert buffer[..filesize] == f.content;
    inbuffer := Some(buffer[..filesize]);
    size := filesize;
    status := Int32(filesize);
  }

  // ==== InstallMain ====

  /** Every present section of `layout` ends inside the 32-bit address space. */
  predicate TargetsFit(layout: seq<Option<Section>>)
  {
    forall i :: 0 <= i < |layout| && layout[i].Some? ==> layout[i].value.addr + layout[i].value.size <= TWO32
  }

  predicate Copyable(data: seq<byte>, layout: seq<Option<Section>>)
  {
    SourcesInFile(data, layout) && TargetsFit(layout)
  }

  predicate Placeable(data: seq<byte>)
    requires WellFormed(data) && Accepted(data)
  {
    TargetsFit(Layout(data))
  }

  /** The memcpy for `s`, if present, reads inside the file and writes inside the address space. */
  predicate Copies(data: seq<byte>, s: Option<Section>)
  {
    s.Some? ==> s.value.offset + s.value.size <= |data| && s.value.addr + s.value.size <= TWO32
  }

  lemma CopyableAt(data: seq<byte>, l: seq<Option<Section>>, i: nat)
    requires Copyable(data, l) && i < |l|
    ensures Copies(data, l[i])
  {
  }

  /** Memory after the memcpy for one section, if it is present. */
  function Place(mem: map<u32, byte>, data: seq<byte>, s: Option<Section>): map<u32, byte>
    requires Copies(data, s)
  {
    match s
    case None => mem
    case Some(x) => Copy(mem, x.addr, data[x.offset .. x.offset + x.size])
  }

  /** Memory after the copies of `layout`, in order. */
  function PlaceAll(mem: map<u32, byte>, data: seq<byte>, layout: seq<Option<Section>>): map<u32, byte>
    requires Copyable(data, layout)
    decreases |layout|
  {
    if |layout| == 0 then mem
    else
      var n := |layout| - 1;
      Place(PlaceAll(mem, data, layout[..n]), data, layout[n])
  }

  /** Memory after InstallMain. */
  function InstallMem(mem: map<u32, byte>, data: seq<byte>): map<u32, byte>
    requires ElfImage(data) && Accepted(data) && Placeable(data)
  {
    PlaceAll(mem, data, Layout(data))
  }

  /** The cache maintenance after copying one section. */
  function CacheOps(s: Option<Section>): seq<Event>
  {
    match s
    case None => []
    case Some(x) => [DCFlush(x.addr, x.size), ICInvalidate(x.addr, x.size)]
  }

  function Trace(layout: seq<Option<Section>>): seq<Event>
  {
    if |layout| == 0 then [] else Trace(layout[..|layout| - 1]) + CacheOps(layout[|layout| - 1])
  }

  /** The cache operations InstallMain issues. */
  function InstallTrace(data: seq<byte>): seq<Event>
    requires WellFormed(data) && Accepted(data)
  {
    Trace(Layout(data))
  }

  /** The present sections of `layout`, in copy order. */
  function Placed(layout: seq<Option<Section>>): seq<Section>
  {
    if |layout| == 0 then []
    else
      var n := |layout| - 1;
      Placed(layout[..n]) + (if layout[n].Some? then [layout[n].value] else [])
  }

  /** Address `a` is a target byte of section `s`. */
  predicate Covers(s: Option<Section>, a: int)
  {
    s.Some? && s.value.addr <= a < s.value.addr + s.value.size
  }

  lemma PlaceAllFour(mem: map<u32, byte>, data: seq<byte>, l: seq<Option<Section>>)
    requires Copyable(data, l) && |l| == 4
    ensures PlaceAll(mem, data, l) ==
      Place(Place(Place(Place(mem, data, l[0]), data, l[1]), data, l[2]), data, l[3])
    ensures Trace(l) == CacheOps(l[0]) + CacheOps(l[1]) + CacheOps(l[2]) + CacheOps(l[3])
  {
    assert l[..3][..2] == l[..2] && l[..2][..1] == l[..1] && l[..1][..0] == [];
    assert l[..3][2] == l[2] && l[..2][1] == l[1] && l[..1][0] == l[0];
    assert PlaceAll(mem, data, l[..1]) == Place(mem, data, l[0]);
    assert PlaceAll(mem, data, l[..2]) == Place(PlaceAll(mem, data, l[..1]), data, l[1]);
    assert PlaceAll(mem, data, l[..3]) == Place(PlaceAll(mem, data, l[..2]), data, l[2]);
    assert Trace(l[..1]) == CacheOps(l[0]);
    assert Trace(l[..2]) == Trace(l[..1]) + CacheOps(l[1]);
    assert Trace(l[..3]) == Trace(l[..2]) + CacheOps(l[2]);
  }

  /** Copies after the first `m` leave alone every address none of them covers. */
  lemma {:induction false} LaterFrame(mem: map<u32, byte>, data: seq<byte>, layout: seq<Option<Section>>, m: nat, a: u32)
    requires Copyable(data, layout) && m <= |layout|
    requires forall j :: m <= j < |layout| ==> !Covers(layout[j], a)
    ensures a in PlaceAll(mem, data, layout) <==> a in PlaceAll(mem, data, layout[..m])
    ensures a in PlaceAll(mem, data, layout[..m]) ==>
      PlaceAll(mem, data, layout)[a] == PlaceAll(mem, data, layout[..m])[a]
    decreases |layout|
  {
    if |layout| > m {
      var n := |layout| - 1;
      assert layout[..n][..m] == layout[..m];
      LaterFrame(mem, data, layout[..n], m, a);
      assert !Covers(layout[n], a);
      if layout[n].Some? {
        var x := layout[n].value;
        CopyKeeps(PlaceAll(mem, data, layout[..n]), x.addr, data[x.offset .. x.offset + x.size], a);
      }
    } else {
      assert layout[..m] == layout;
    }
  }

  /** InstallMain leaves every address outside the copied ranges unchanged. */
  lemma InstallFrame(mem: map<u32, byte>, data: seq<byte>, a: u32)
    requires ElfImage(data) && Accepted(data) && Placeable(data)
    requires forall j :: 0 <= j < |SECTIONS| ==> !Covers(Layout(data)[j], a)
    ensures a in InstallMem(mem, data) <==> a in mem
    ensures a in mem ==> InstallMem(mem, data)[a] == mem[a]
  {
    LaterFrame(mem, data, Layout(data), 0, a);
  }

  /**
   * After the copies of `layout`, byte `k` of its i-th present section sits
   * at its target address, unless a section copied later overwrote it.
   */
  lemma PlaceAllCopies(mem: map<u32, byte>, data: seq<byte>, l: seq<Option<Section>>, i: nat, k: nat)
    requires Copyable(data, l) && i < |l| && l[i].Some? && k < l[i].value.size
    requires forall j :: i < j < |l| ==> !Covers(l[j], l[i].value.addr + k)
    ensures var s := l[i].value;
      s.addr + k in PlaceAll(mem, data, l) && PlaceAll(mem, data, l)[s.addr + k] == data[s.offset + k]
  {
    var s := l[i].value;
    var a: u32 := s.addr + k;
    var src := data[s.offset .. s.offset + s.size];
    var before := PlaceAll(mem, data, l[..i]);
    assert l[..i + 1][..i] == l[..i] && l[..i + 1][i] == l[i];
    assert PlaceAll(mem, data, l[..i + 1]) == Copy(before, s.addr, src);
    CopyWrites(before, s.addr, src, a);
    assert src[a - s.addr] == data[s.offset + k];
    LaterFrame(mem, data, l, i + 1, a);
  }

  /**
   * After InstallMain, byte `k` of the i-th present section sits at its
   * target address, unless a section copied later overwrote that address.
   */
  lemma InstallCopies(mem: map<u32, byte>, data: seq<byte>, i: nat, k: nat)
    requires ElfImage(data) && Accepted(data) && Placeable(data) && i < |SECTIONS|
    requires Layout(data)[i].Some? && k < Layout(data)[i].value.size
    requires forall j :: i < j < |SECTIONS| ==> !Covers(Layout(data)[j], Layout(data)[i].value.addr + k)
    ensures var s := Layout(data)[i].value;
      s.addr + k in InstallMem(mem, data) && InstallMem(mem, data)[s.addr + k] == data[s.offset + k]
  {
    PlaceAllCopies(mem, data, Layout(data), i, k);
  }

  /** The trace holds cache maintenance and nothing else. */
  lemma {:induction false} TraceOnlyCacheOps(layout: seq<Option<Section>>)
    ensures forall i :: 0 <= i < |Trace(layout)| ==> Trace(layout)[i].DCFlush? || Trace(layout)[i].ICInvalidate?
    decreases |layout|
  {
    if |layout| > 0 {
      var n := |layout| - 1;
      TraceOnlyCacheOps(layout[..n]);
      var t := Trace(layout);
      var pre := Trace(layout[..n]);
      forall i | 0 <= i < |t| ensures t[i].DCFlush? || t[i].ICInvalidate? {
        if i < |pre| {
          assert t[i] == pre[i];
        }
      }
    }
  }

  /**
   * The cache maintenance of a layout: for each present section in copy
   * order, a data-cache flush of its target range immediately followed by
   * an instruction-cache invalidation of the same range, and nothing else.
   */
  lemma {:induction false} TraceShape(layout: seq<Option<Section>>)
    ensures |Trace(layout)| == 2 * |Placed(layout)|
    ensures forall p :: 0 <= p < |Placed(layout)| ==>
      Trace(layout)[2 * p] == DCFlush(Placed(layout)[p].addr, Placed(layout)[p].size) &&
      Trace(layout)[2 * p + 1] == ICInvalidate(Placed(layout)[p].addr, Placed(layout)[p].size)
    decreases |layout|
  {
    if |layout| > 0 {
      TraceShape(layout[..|layout| - 1]);
    }
  }

  /** The flushed ranges are exactly the present sections. */
  lemma {:induction false} PlacedArePresent(layout: seq<Option<Section>>, s: Section)
    ensures s in Placed(layout) <==> Some(s) in layout
    decreases |layout|
  {
    if |layout| > 0 {
      var n := |layout| - 1;
      PlacedArePresent(layout[..n], s);
      assert layout == layout[..n] + [layout[n]];
    }
  }

  /** The intended window check keeps every present section inside the address space. */
  lemma WindowImpliesPlaceable(data: seq<byte>)
    requires WellFormed(data) && Accepted(data)
    requires AllFit(Layout(data), LOAD_START, LOAD_END)
    ensures Placeable(data)
  {
    var l := Layout(data);
    forall i | 0 <= i < |l| && l[i].Some? ensures l[i].value.addr + l[i].value.size <= TWO32 {
      assert Fits(l[i], LOAD_START, LOAD_END);
    }
  }

  /** Every section an image's layout names can be copied. */
  lemma PresentCopyable(data: seq<byte>)
    requires ElfImage(data) && Accepted(data) && Placeable(data)
    ensures Copyable(data, Layout(data))
    ensures Copies(data, Present(data, TEXT)) && Copies(data, Present(data, RODATA))
    ensures Copies(data, Present(data, DATA)) && Copies(data, Present(data, BSS))
  {
    var l := Layout(data);
    CopyableAt(data, l, 0);
    CopyableAt(data, l, 1);
    CopyableAt(data, l, 2);
    CopyableAt(data, l, 3);
  }

  /** InstallMem and InstallTrace, written out section by section. */
  lemma InstallFour(mem: map<u32, byte>, data: seq<byte>)
    requires ElfImage(data) && Accepted(data) && Placeable(data)
    ensures Copies(data, Present(data, TEXT)) && Copies(data, Present(data, RODATA))
    ensures Copies(data, Present(data, DATA)) && Copies(data, Present(data, BSS))
    ensures InstallMem(mem, data) ==
      Place(Place(Place(Place(mem, data, Present(data, TEXT)), data, Present(data, RODATA)),
        data, Present(data, DATA)), data, Present(data, BSS))
    ensures InstallTrace(data) ==
      CacheOps(Present(data, TEXT)) + CacheOps(Present(data, RODATA)) +
      CacheOps(Present(data, DATA)) + CacheOps(Present(data, BSS))
  {
    PresentCopyable(data);
    PlaceAllFour(mem, data, Layout(data));
  }

  /**
   * One block of InstallMain: get_section for `name`, then, when it reports
   * a non-zero offset, memcpy to the target address followed by a
   * data-cache flush and an instruction-cache invalidation of that range.
   */
  method InstallSection(c: Console, data: seq<byte>, name: seq<byte>, failOnNotFound: bool) returns (r: Outcome<()>)
    requires WellFormed(data) && (Accepted(data) ==> Copies(data, Present(data, name)))
    modifies c
    ensures !Accepted(data) ==> r == Halted(InvalidElf)
    ensures Accepted(data) ==>
      (r.Halted? <==> failOnNotFound && FindSection(data, name).None?)
    ensures Accepted(data) && r.Halted? ==> r == Halted(MissingSection(name))
    ensures r.Halted? ==> c.mem == old(c.mem) && c.events == old(c.events)
    ensures r.Returned? ==>
      Accepted(data) &&
      c.mem == Place(old(c.mem), data, Present(data, name)) &&
      c.events == old(c.events) + CacheOps(Present(data, name))
    ensures c.kwords == old(c.kwords)
  {
    var found := SearchSections(data, name, failOnNotFound);
    if found.Halted? {
      return Halted(found.reason);
    }
    GetSectionPresent(data, name, failOnNotFound);
    if found.value.Some? && found.value.value.offset > 0 {
      var x := found.value.value;
      c.Memcpy(x.addr, data[x.offset .. x.offset + x.size]);
      c.DCFlushRange(x.addr, x.size);
      c.ICInvalidateRange(x.addr, x.size);
    }
    r := Returned(());
  }

  /** What InstallMain needs of a buffer: a readable header, and copyable sections. */
  predicate Installable(data: seq<byte>)
  {
    WellFormed(data) &&
    (Accepted(data) ==>
      Copies(data, Present(data, TEXT)) && Copies(data, Present(data, RODATA)) &&
      Copies(data, Present(data, DATA)) && Copies(data, Present(data, BSS)))
  }

  /**
   * InstallMain. A missing `.text` is fatal before anything is copied;
   * otherwise the present sections are copied in the order `.text`,
   * `.rodata`, `.data`, `.bss`, each followed by its cache maintenance.
   */
  method InstallMain(c: Console, data: seq<byte>) returns (r: Outcome<()>)
    requires Installable(data)
    modifies c
    ensures !Accepted(data) ==> r == Halted(InvalidElf)
    ensures Accepted(data) && FindSection(data, TEXT).None? ==> r == Halted(MissingSection(TEXT))
    ensures r.Halted? ==> c.mem == old(c.mem) && c.events == old(c.events)
    ensures r.Returned? <==> Accepted(data) && FindSection(data, TEXT).Some?
    ensures r.Returned? ==>
      c.mem == Place(Place(Place(Place(old(c.mem), data, Present(data, TEXT)), data, Present(data, RODATA)),
        data, Present(data, DATA)), data, Present(data, BSS)) &&
      c.events == old(c.events) + CacheOps(Present(data, TEXT)) + CacheOps(Present(data, RODATA)) +
        CacheOps(Present(data, DATA)) + CacheOps(Present(data, BSS))
    ensures c.kwords == old(c.kwords)
  {
    r := InstallSection(c, data, TEXT, true);
    if r.Halted? {
      return;
    }
    var _ := InstallSection(c, data, RODATA, false);
    var _ := InstallSection(c, data, DATA, false);
    var _ := InstallSection(c, data, BSS, false);
  }

  /** For an image the window check accepted, InstallMain installs InstallMem and issues InstallTrace. */
  lemma InstallMainInstalls(mem: map<u32, byte>, data: seq<byte>)
    requires ElfImage(data) && Accepted(data) && Placeable(data)
    ensures Installable(data)
    ensures InstallMem(mem, data) ==
      Place(Place(Place(Place(mem, data, Present(data, TEXT)), data, Present(data, RODATA)),
        data, Present(data, DATA)), data, Present(data, BSS))
    ensures InstallTrace(data) ==
      CacheOps(Present(data, TEXT)) + CacheOps(Present(data, RODATA)) +
      CacheOps(Present(data, DATA)) + CacheOps(Present(data, BSS))
  {
    InstallFour(mem, data);
  }

  // ==== load_loader_elf_from_sd ====

  /** The buffer LoadFileToMem hands back with a non-negative result, if any. */
  function FileImage(files: Storage, path: string, allocOk: bool): Option<seq<byte>>
  {
    if path in files && allocOk && AllocSize(|files[path].content|).Some? &&
       ReadLoop(files[path], 0, BLOCK, 0).done == |files[path].content| &&
       Int32(|files[path].content|) >= 0
    then Some(files[path].content)
    else None
  }

  /** What a load does: its result, and the image installed, if one was. */
  datatype Load = Load(result: Outcome<u32>, installed: Option<seq<byte>>)

  /** Files the loader may be pointed at are readable as ELF images, as far as the C code reads them. */
  predicate Loadable(files: Storage, path: string)
  {
    path in files ==> ElfImage(files[path].content)
  }

  function LoadElf(files: Storage, path: string, allocOk: bool): (l: Load)
    requires Loadable(files, path)
    ensures l.installed.Some? ==> var d := l.installed.value;
      ElfImage(d) && Accepted(d) && Placeable(d)
    ensures l.result.Halted? ==> l.installed.None?
  {
    match FileImage(files, path, allocOk)
    case None => Load(Returned(0), None)
    case Some(data) =>
      match CheckLoadedBetween(data, LOAD_START, LOAD_END)
      case Halted(h) => Load(Halted(h), None)
      case Returned(ok) =>
        if !ok then Load(Returned(0), None)
        else if FindSection(data, TEXT).None? then Load(Halted(MissingSection(TEXT)), None)
        else Load(Returned(EEntry(data)), Some(data))
  }

  /**
   * A load that cannot read the file, or whose window check fails, returns
   * 0 and installs nothing; a header that get_section rejects is fatal.
   */
  lemma LoadRejects(files: Storage, path: string, allocOk: bool)
    requires Loadable(files, path)
    ensures FileImage(files, path, allocOk).None? ==> LoadElf(files, path, allocOk) == Load(Returned(0), None)
    ensures FileImage(files, path, allocOk).Some? ==> var d := FileImage(files, path, allocOk).value;
      (!Accepted(d) ==> LoadElf(files, path, allocOk) == Load(Halted(InvalidElf), None)) &&
      (Accepted(d) && !AllFit(Layout(d), LOAD_START, LOAD_END) ==>
        LoadElf(files, path, allocOk) == Load(Returned(0), None))
  {
  }

  /**
   * A load installs the file's own bytes only when they passed all checks,
   * and then returns the header's entry point.
   */
  lemma LoadInstalls(files: Storage, path: string, allocOk: bool)
    requires Loadable(files, path)
    ensures var l := LoadElf(files, path, allocOk);
      l.installed.Some? <==>
        FileImage(files, path, allocOk).Some? && Accepted(files[path].content) &&
        AllFit(Layout(files[path].content), LOAD_START, LOAD_END) &&
        FindSection(files[path].content, TEXT).Some?
    ensures var l := LoadElf(files, path, allocOk);
      l.installed.Some? ==>
        l.installed.value == files[path].content && l.result == Returned(EEntry(files[path].content))
  {
  }

  /** A successful load changes no byte outside the window [0x00800000, 0x00FD0000). */
  lemma LoadStaysInWindow(mem: map<u32, byte>, files: Storage, path: string, allocOk: bool, a: u32)
    requires Loadable(files, path)
    requires LoadElf(files, path, allocOk).installed.Some?
    requires !Within(a, LOAD_START, LOAD_END)
    ensures var d := LoadElf(files, path, allocOk).installed.value;
      (a in InstallMem(mem, d) <==> a in mem) && (a in mem ==> InstallMem(mem, d)[a] == mem[a])
  {
    var d := LoadElf(files, path, allocOk).installed.value;
    LoadInstalls(files, path, allocOk);
    forall j | 0 <= j < |SECTIONS| ensures !Covers(Layout(d)[j], a) {
      assert Fits(Layout(d)[j], LOAD_START, LOAD_END);
    }
    InstallFrame(mem, d, a);
  }

  /**
   * load_loader_elf_from_sd. Memory and the event trace change only when
   * an image is installed.
   */
  method LoadLoaderElf(c: Console, files: Storage, path: string, allocOk: bool) returns (r: Outcome<u32>)
    requires Loadable(files, path)
    modifies c
    ensures r == LoadElf(files, path, allocOk).result
    ensures LoadElf(files, path, allocOk).installed.None? ==> c.mem == old(c.mem) && c.events == old(c.events)
    ensures LoadElf(files, path, allocOk).installed.Some? ==>
      var d := LoadElf(files, path, allocOk).installed.value;
      c.mem == InstallMem(old(c.mem), d) && c.events == old(c.events) + InstallTrace(d)
    ensures c.kwords == old(c.kwords)
  {
    var status, buffer, size, requests := LoadFileToMem(files, path, allocOk);
    if status < 0 {
      return Returned(0);
    }
    var data := buffer.value;
    assert FileImage(files, path, allocOk) == Some(data);
    var check := CheckLoadedBetween(data, LOAD_START, LOAD_END);
    if check.Halted? {
      return Halted(check.reason);
    }
    if !check.value {
      return Returned(0);
    }
    WindowImpliesPlaceable(data);
    InstallMainInstalls(old(c.mem), data);
    var installed := InstallMain(c, data);
    if installed.Halted? {
      return Halted(installed.reason);
    }
    AppendFour(old(c.events), CacheOps(Present(data, TEXT)), CacheOps(Present(data, RODATA)),
      CacheOps(Present(data, DATA)), CacheOps(Present(data, BSS)));
    r := Returned(EEntry(data));
  }
}

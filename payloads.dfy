/**
 * The payload menu of main.cpp: listing a directory (`readDirFull`),
 * collecting one `payload.elf` per folder into an ordered map
 * (`get_all_payloads`), and the cursor menu that picks one of them
 * (`PayloadSelectionScreen`). The SD card, the directory reads and the
 * gamepad are abstract inputs.
 */
module Payloads {
  import opened Words
  import opened Platform

  // ==== std::string ordering and std::map<std::string, std::string> ====

  /** `a < b` on std::string: lexicographic, a proper prefix first. */
  predicate Less(a: string, b: string)
    decreases |a|
  {
    |b| > 0 && (|a| == 0 || a[0] < b[0] || (a[0] == b[0] && Less(a[1..], b[1..])))
  }

  lemma {:induction false} LessIrreflexive(a: string)
    ensures !Less(a, a)
    decreases |a|
  {
    if |a| > 0 {
      LessIrreflexive(a[1..]);
    }
  }

  lemma {:induction false} LessTransitive(a: string, b: string, c: string)
    requires Less(a, b) && Less(b, c)
    ensures Less(a, c)
    decreases |a|
  {
    if |a| > 0 && a[0] == c[0] {
      LessTransitive(a[1..], b[1..], c[1..]);
    }
  }

  /** Two different strings are ordered one way or the other. */
  lemma {:induction false} LessTotal(a: string, b: string)
    requires a != b
    ensures Less(a, b) || Less(b, a)
    decreases |a|
  {
    if |a| > 0 && |b| > 0 && a[0] == b[0] {
      assert a == [a[0]] + a[1..] && b == [b[0]] + b[1..];
      LessTotal(a[1..], b[1..]);
    }
  }

  datatype Entry = Entry(key: string, value: string)

  /** A std::map as the list of its entries in ascending key order. */
  type PayloadMap = seq<Entry>

  predicate Sorted(m: PayloadMap)
  {
    forall i, j :: 0 <= i < j < |m| ==> Less(m[i].key, m[j].key)
  }

  /** Every key of `m` is greater than `x`. */
  predicate Above(m: PayloadMap, x: string)
  {
    forall i :: 0 <= i < |m| ==> Less(x, m[i].key)
  }

  /** `m[k]` of std::map: the value filed under `k`, if any. */
  function Lookup(m: PayloadMap, k: string): Option<string>
    decreases |m|
  {
    if |m| == 0 then None
    else if m[0].key == k then Some(m[0].value)
    else Lookup(m[1..], k)
  }

  /** `m[k] = v`: overwrite the entry for `k`, or insert one in key order. */
  function Put(m: PayloadMap, k: string, v: string): (r: PayloadMap)
    decreases |m|
  {
    if |m| == 0 then [Entry(k, v)]
    else if m[0].key == k then [Entry(k, v)] + m[1..]
    else if Less(k, m[0].key) then [Entry(k, v)] + m
    else [m[0]] + Put(m[1..], k, v)
  }

  /** After `m[k] = v`, `k` maps to `v` and every other key to what it mapped to before. */
  lemma {:induction false} PutLookup(m: PayloadMap, k: string, v: string, q: string)
    ensures Lookup(Put(m, k, v), q) == if q == k then Some(v) else Lookup(m, q)
    decreases |m|
  {
    if |m| > 0 && m[0].key != k && !Less(k, m[0].key) {
      PutLookup(m[1..], k, v, q);
      assert Put(m, k, v)[1..] == Put(m[1..], k, v);
    }
  }

  /** Every entry after `m[k] = v` is the new one or an old one. */
  lemma {:induction false} PutEntries(m: PayloadMap, k: string, v: string, i: nat)
    requires i < |Put(m, k, v)|
    ensures Put(m, k, v)[i] == Entry(k, v) || Put(m, k, v)[i] in m
    decreases |m|
  {
    if |m| > 0 && m[0].key != k && !Less(k, m[0].key) && i > 0 {
      PutEntries(m[1..], k, v, i - 1);
    }
  }

  lemma {:induction false} PutAbove(m: PayloadMap, k: string, v: string, x: string)
    requires Above(m, x) && Less(x, k)
    ensures Above(Put(m, k, v), x)
    decreases |m|
  {
    if |m| > 0 && m[0].key != k && !Less(k, m[0].key) {
      PutAbove(m[1..], k, v, x);
      var r := Put(m, k, v);
      forall i | 0 <= i < |r| ensures Less(x, r[i].key) {
        if i > 0 {
          assert r[i] == Put(m[1..], k, v)[i - 1];
        }
      }
    }
  }

  lemma SortedCons(e: Entry, s: PayloadMap)
    requires Above(s, e.key) && Sorted(s)
    ensures Sorted([e] + s)
  {
    var r := [e] + s;
    forall i, j | 0 <= i < j < |r| ensures Less(r[i].key, r[j].key) {
      if i > 0 {
        assert r[i] == s[i - 1] && r[j] == s[j - 1];
      } else {
        assert r[j] == s[j - 1];
      }
    }
  }

  /** `m[k] = v` keeps the entries in strictly ascending key order. */
  lemma {:induction false} PutSorted(m: PayloadMap, k: string, v: string)
    requires Sorted(m)
    ensures Sorted(Put(m, k, v))
    decreases |m|
  {
    if |m| == 0 {
    } else if m[0].key == k {
      forall j | 0 < j < |m| ensures Less(k, m[j].key) { }
      SortedCons(Entry(k, v), m[1..]);
      assert Put(m, k, v) == [Entry(k, v)] + m[1..];
    } else if Less(k, m[0].key) {
      forall j | 0 <= j < |m| ensures Less(k, m[j].key) {
        if j > 0 {
          LessTransitive(k, m[0].key, m[j].key);
        }
      }
      SortedCons(Entry(k, v), m);
    } else {
      LessTotal(k, m[0].key);
      assert Sorted(m[1..]);
      PutSorted(m[1..], k, v);
      PutAbove(m[1..], k, v, m[0].key);
      SortedCons(m[0], Put(m[1..], k, v));
    }
  }

  // ==== StringTools ====

  /** `StringTools::EndsWith(s, suffix)`. */
  predicate EndsWith(s: string, suffix: string)
  {
    |suffix| <= |s| && s[|s| - |suffix|..] == suffix
  }

  /**
   * `StringTools::stringSplit(s, "/")`: the pieces between separators, empty
   * pieces included, so there is always one piece more than there are '/'.
   */
  function Split(s: string): (parts: seq<string>)
    ensures |parts| >= 1
    decreases |s|
  {
    if |s| == 0 then [""]
    else
      var rest := Split(s[1..]);
      if s[0] == '/' then [""] + rest
      else [[s[0]] + rest[0]] + rest[1..]
  }

  /** The pieces, joined back with '/', give the original string. */
  function Join(parts: seq<string>): string
    requires |parts| >= 1
    decreases |parts|
  {
    if |parts| == 1 then parts[0] else parts[0] + "/" + Join(parts[1..])
  }

  lemma {:induction false} JoinSplit(s: string)
    ensures Join(Split(s)) == s
    ensures forall i :: 0 <= i < |Split(s)| ==> '/' !in Split(s)[i]
    decreases |s|
  {
    if |s| > 0 {
      var rest := Split(s[1..]);
      JoinSplit(s[1..]);
      if s[0] == '/' {
        assert Split(s)[1..] == rest;
        assert s == [] + "/" + s[1..];
      } else {
        var parts := Split(s);
        assert parts[1..] == rest[1..];
        if |rest| > 1 {
          assert Join(rest) == rest[0] + "/" + Join(rest[1..]);
        }
        forall i | 0 <= i < |parts| ensures '/' !in parts[i] {
          if i > 0 {
            assert parts[i] == rest[i];
          } else {
            assert '/' !in rest[0];
          }
        }
      }
    }
  }

  /** A string splits into more than one piece exactly when it holds a '/'. */
  lemma {:induction false} SplitSingle(s: string)
    ensures |Split(s)| == 1 <==> '/' !in s
    ensures '/' !in s ==> Split(s) == [s]
    decreases |s|
  {
    if |s| > 0 {
      SplitSingle(s[1..]);
      assert s == [s[0]] + s[1..];
    }
  }

  /** Splitting `a + "/" + b` gives the pieces of `a`, then those of `b`. */
  lemma {:induction false} SplitAppend(a: string, b: string)
    ensures Split(a + "/" + b) == Split(a) + Split(b)
    decreases |a|
  {
    var s := a + "/" + b;
    if |a| == 0 {
      assert s[1..] == b;
    } else {
      assert s[1..] == a[1..] + "/" + b;
      SplitAppend(a[1..], b);
    }
  }

  /** The key get_all_payloads files a folder under. */
  function FolderName(e: string): string
  {
    var folders := Split(e);
    if |folders| > 1 then folders[|folders| - 1] else e
  }

  /** The key is the last '/'-separated piece of the folder path: it holds no '/' and ends the path. */
  lemma FolderNameIsLast(e: string)
    ensures FolderName(e) == Split(e)[|Split(e)| - 1]
    ensures '/' !in FolderName(e)
    ensures EndsWith(e, FolderName(e))
  {
    var parts := Split(e);
    var last := parts[|parts| - 1];
    JoinSplit(e);
    assert Join(parts) == e;
    assert '/' !in last;
    if |parts| == 1 {
      SplitSingle(e);
    }
    LastPiece(parts);
  }

  lemma {:induction false} LastPiece(parts: seq<string>)
    requires |parts| >= 1
    ensures EndsWith(Join(parts), parts[|parts| - 1])
    decreases |parts|
  {
    if |parts| > 1 {
      LastPiece(parts[1..]);
      var j := Join(parts[1..]);
      var t := parts[|parts| - 1];
      assert (parts[0] + "/" + j)[|parts[0] + "/" + j| - |t|..] == j[|j| - |t|..];
    }
  }

  /** A folder listed as `path + "/" + name` is filed under its own `name`. */
  lemma FolderNameOfChild(path: string, name: string)
    requires '/' !in name
    ensures FolderName(path + "/" + name) == name
  {
    SplitAppend(path, name);
    SplitSingle(name);
  }

  // ==== readDirFull ====

  datatype DirEntry = DirEntry(name: string, isDir: bool)

  /**
   * The result of one FSReadDir: an entry, or a negative status (the end
   * of the directory or an error). A script that runs out reads as the end.
   */
  datatype DirRead = Next(entry: DirEntry) | Stop

  /** The directories FSOpenDir can open, by the path readDirFull is given. */
  type Dirs = map<string, seq<DirRead>>

  /** Whether readDirFull keeps an entry: a directory under filters up to 1, any entry under filters 0 and 2. */
  predicate Keep(isDir: bool, filter: int)
  {
    (isDir && filter <= 1) || filter == 0 || filter == 2
  }

  /** The paths readDirFull collects from the reads `script` of directory `path`. */
  function Listing(path: string, script: seq<DirRead>, filter: int): seq<string>
    decreases |script|
  {
    if |script| == 0 || script[0].Stop? then []
    else
      var e := script[0].entry;
      (if Keep(e.isDir, filter) then [path + "/" + e.name] else []) + Listing(path, script[1..], filter)
  }

  /** readDirFull: an empty list when the directory does not open. */
  function ReadDir(dirs: Dirs, path: string, filter: int): seq<string>
  {
    if path in dirs then Listing(path, dirs[path], filter) else []
  }

  /** The entries read before the first negative status. */
  function Entries(script: seq<DirRead>): (es: seq<DirEntry>)
    ensures |es| <= |script|
    decreases |script|
  {
    if |script| == 0 || script[0].Stop? then [] else [script[0].entry] + Entries(script[1..])
  }

  /** Filters 0 and 2 keep every entry read, in order, as `path + "/" + name`. */
  lemma {:induction false} ListingKeepsAll(path: string, script: seq<DirRead>, filter: int)
    requires filter == 0 || filter == 2
    ensures |Listing(path, script, filter)| == |Entries(script)|
    ensures forall i :: 0 <= i < |Entries(script)| ==>
      Listing(path, script, filter)[i] == path + "/" + Entries(script)[i].name
    decreases |script|
  {
    if |script| > 0 && script[0].Next? {
      ListingKeepsAll(path, script[1..], filter);
    }
  }

  /** Every entry filter 1 lists is a directory read before the first negative status. */
  lemma {:induction false} ListedIsDir(path: string, script: seq<DirRead>, x: string)
    requires x in Listing(path, script, 1)
    ensures exists i :: 0 <= i < |Entries(script)| && Entries(script)[i].isDir && x == path + "/" + Entries(script)[i].name
    decreases |script|
  {
    var es := Entries(script);
    var e := script[0].entry;
    var rest := Entries(script[1..]);
    assert es == [e] + rest;
    var head := if Keep(e.isDir, 1) then [path + "/" + e.name] else [];
    assert Listing(path, script, 1) == head + Listing(path, script[1..], 1);
    if x in head {
      assert es[0].isDir && x == path + "/" + es[0].name;
    } else {
      ListedIsDir(path, script[1..], x);
      var i :| 0 <= i < |rest| && rest[i].isDir && x == path + "/" + rest[i].name;
      assert es[i + 1] == rest[i];
    }
  }

  /** Every directory read before the first negative status is listed by filter 1. */
  lemma {:induction false} DirIsListed(path: string, script: seq<DirRead>, i: nat)
    requires i < |Entries(script)| && Entries(script)[i].isDir
    ensures path + "/" + Entries(script)[i].name in Listing(path, script, 1)
    decreases |script|
  {
    var es := Entries(script);
    var e := script[0].entry;
    var rest := Entries(script[1..]);
    assert es == [e] + rest;
    var head := if Keep(e.isDir, 1) then [path + "/" + e.name] else [];
    assert Listing(path, script, 1) == head + Listing(path, script[1..], 1);
    if i > 0 {
      assert es[i] == rest[i - 1];
      DirIsListed(path, script[1..], i - 1);
    }
  }

  /** Filter 1 keeps exactly the directories. */
  lemma ListingKeepsDirs(path: string, script: seq<DirRead>, x: string)
    ensures x in Listing(path, script, 1) <==>
      exists i :: 0 <= i < |Entries(script)| && Entries(script)[i].isDir && x == path + "/" + Entries(script)[i].name
  {
    if x in Listing(path, script, 1) {
      ListedIsDir(path, script, x);
    }
    if exists i :: 0 <= i < |Entries(script)| && Entries(script)[i].isDir && x == path + "/" + Entries(script)[i].name {
      var i :| 0 <= i < |Entries(script)| && Entries(script)[i].isDir && x == path + "/" + Entries(script)[i].name;
      DirIsListed(path, script, i);
    }
  }

  /** Reading stops at the first negative status: nothing after it is listed. */
  lemma {:induction false} ListingStops(path: string, before: seq<DirRead>, after: seq<DirRead>, filter: int)
    requires forall i :: 0 <= i < |before| ==> before[i].Next?
    ensures Listing(path, before + [Stop] + after, filter) == Listing(path, before, filter)
    decreases |before|
  {
    if |before| > 0 {
      assert (before + [Stop] + after)[1..] == before[1..] + [Stop] + after;
      ListingStops(path, before[1..], after, filter);
    }
  }

  lemma ListingStep(path: string, script: seq<DirRead>, j: nat, filter: int)
    requires j < |script| && script[j].Next?
    ensures var e := script[j].entry;
      Listing(path, script[j..], filter) ==
        (if Keep(e.isDir, filter) then [path + "/" + e.name] else []) + Listing(path, script[j + 1..], filter)
  {
    assert script[j..][1..] == script[j + 1..];
  }

  /** readDirFull, reading entries until the first negative status. */
  method ReadDirFull(dirs: Dirs, path: string, filter: int) returns (result: seq<string>)
    ensures result == ReadDir(dirs, path, filter)
  {
    result := [];
    if path !in dirs {
      return;
    }
    var script := dirs[path];
    var j := 0;
    while true
      invariant j <= |script|
      invariant result + Listing(path, script[j..], filter) == Listing(path, script, filter)
      decreases |script| - j
    {
      if j == |script| || script[j].Stop? {
        break;
      }
      var entry := script[j].entry;
      var filepath := path + "/" + entry.name;
      ghost var kept := if Keep(entry.isDir, filter) then [filepath] else [];
      ListingStep(path, script, j, filter);
      ghost var before := result;
      if entry.isDir && filter <= 1 {
        result := result + [filepath];
      } else if filter == 0 || filter == 2 {
        result := result + [filepath];
      }
      assert result == before + kept;
      AppendAssoc(before, kept, Listing(path, script[j + 1..], filter));
      j := j + 1;
    }
  }

  // ==== get_all_payloads ====

  const PAYLOAD_FILE: string := "payload.elf"

  /** The first child whose path ends in "payload.elf". */
  function FirstPayload(children: seq<string>): Option<string>
    decreases |children|
  {
    if |children| == 0 then None
    else if EndsWith(children[0], PAYLOAD_FILE) then Some(children[0])
    else FirstPayload(children[1..])
  }

  lemma {:induction false} FirstPayloadSpec(children: seq<string>)
    ensures FirstPayload(children).Some? ==>
      exists i :: 0 <= i < |children| &&
        children[i] == FirstPayload(children).value && EndsWith(children[i], PAYLOAD_FILE) &&
        forall j :: 0 <= j < i ==> !EndsWith(children[j], PAYLOAD_FILE)
    ensures FirstPayload(children).None? <==> forall j :: 0 <= j < |children| ==> !EndsWith(children[j], PAYLOAD_FILE)
    decreases |children|
  {
    if |children| > 0 && !EndsWith(children[0], PAYLOAD_FILE) {
      FirstPayloadSpec(children[1..]);
      if FirstPayload(children).Some? {
        var i :| 0 <= i < |children[1..]| && children[1..][i] == FirstPayload(children).value &&
          EndsWith(children[1..][i], PAYLOAD_FILE) &&
          forall j :: 0 <= j < i ==> !EndsWith(children[1..][j], PAYLOAD_FILE);
        assert children[i + 1] == children[1..][i];
        forall j | 0 <= j < i + 1 ensures !EndsWith(children[j], PAYLOAD_FILE) {
          if j > 0 {
            assert children[j] == children[1..][j - 1];
          }
        }
      } else {
        forall j | 0 <= j < |children| ensures !EndsWith(children[j], PAYLOAD_FILE) {
          if j > 0 {
            assert children[j] == children[1..][j - 1];
          }
        }
      }
    }
  }

  /** `result[folder_name] = child` for the folder's first payload, if it has one. */
  function Record(m: PayloadMap, folder: string, first: Option<string>): PayloadMap
  {
    match first
    case None => m
    case Some(child) => Put(m, FolderName(folder), child)
  }

  /** The payload of the folder `folder`, if any. */
  function PayloadOf(dirs: Dirs, folder: string): Option<string>
  {
    FirstPayload(ReadDir(dirs, folder, 2))
  }

  /** The map after visiting `folders` in order. */
  function Gather(dirs: Dirs, folders: seq<string>): PayloadMap
    decreases |folders|
  {
    if |folders| == 0 then []
    else
      var n := |folders| - 1;
      Record(Gather(dirs, folders[..n]), folders[n], PayloadOf(dirs, folders[n]))
  }

  /** get_all_payloads: empty when the SD card does not mount. */
  function Collected(mounted: bool, dirs: Dirs, relative: string): PayloadMap
  {
    if !mounted then [] else Gather(dirs, ReadDir(dirs, relative, 1))
  }

  /**
   * Reference for the lookup: the payload of the last folder filed under
   * key `k` that has one.
   */
  function LastPayload(dirs: Dirs, folders: seq<string>, k: string): Option<string>
    decreases |folders|
  {
    if |folders| == 0 then None
    else
      var n := |folders| - 1;
      if PayloadOf(dirs, folders[n]).Some? && FolderName(folders[n]) == k then PayloadOf(dirs, folders[n])
      else LastPayload(dirs, folders[..n], k)
  }

  /** A later folder with the same key overwrites an earlier one. */
  lemma {:induction false} GatherLookup(dirs: Dirs, folders: seq<string>, k: string)
    ensures Lookup(Gather(dirs, folders), k) == LastPayload(dirs, folders, k)
    decreases |folders|
  {
    if |folders| > 0 {
      var n := |folders| - 1;
      GatherLookup(dirs, folders[..n], k);
      var p := PayloadOf(dirs, folders[n]);
      if p.Some? {
        PutLookup(Gather(dirs, folders[..n]), FolderName(folders[n]), p.value, k);
      }
    }
  }

  /** The collected map is ordered by key and every value names a payload.elf. */
  lemma {:induction false} GatherShape(dirs: Dirs, folders: seq<string>)
    ensures Sorted(Gather(dirs, folders))
    ensures forall i :: 0 <= i < |Gather(dirs, folders)| ==> EndsWith(Gather(dirs, folders)[i].value, PAYLOAD_FILE)
    decreases |folders|
  {
    if |folders| > 0 {
      var n := |folders| - 1;
      var before := Gather(dirs, folders[..n]);
      GatherShape(dirs, folders[..n]);
      var children := ReadDir(dirs, folders[n], 2);
      FirstPayloadSpec(children);
      if PayloadOf(dirs, folders[n]).Some? {
        var child := PayloadOf(dirs, folders[n]).value;
        var k := FolderName(folders[n]);
        PutSorted(before, k, child);
        forall i | 0 <= i < |Put(before, k, child)| ensures EndsWith(Put(before, k, child)[i].value, PAYLOAD_FILE) {
          PutEntries(before, k, child, i);
        }
      }
    }
  }

  /** What get_all_payloads promises about its result. */
  lemma CollectedShape(mounted: bool, dirs: Dirs, relative: string, k: string)
    ensures !mounted ==> Collected(mounted, dirs, relative) == []
    ensures Sorted(Collected(mounted, dirs, relative))
    ensures forall i :: 0 <= i < |Collected(mounted, dirs, relative)| ==>
      EndsWith(Collected(mounted, dirs, relative)[i].value, PAYLOAD_FILE)
    ensures mounted ==>
      Lookup(Collected(mounted, dirs, relative), k) == LastPayload(dirs, ReadDir(dirs, relative, 1), k)
  {
    if mounted {
      GatherShape(dirs, ReadDir(dirs, relative, 1));
      GatherLookup(dirs, ReadDir(dirs, relative, 1), k);
    }
  }

  /** The inner loop: the first child ending in "payload.elf" is filed, then the loop breaks. */
  method RecordFirstPayload(result: PayloadMap, e: string, children: seq<string>) returns (r: PayloadMap)
    ensures r == Record(result, e, FirstPayload(children))
  {
    r := result;
    var k := 0;
    while k < |children|
      invariant k <= |children|
      invariant FirstPayload(children[k..]) == FirstPayload(children)
    {
      var child := children[k];
      assert children[k..][1..] == children[k + 1..];
      if EndsWith(child, PAYLOAD_FILE) {
        var folders := Split(e);
        var folderName := e;
        if |folders| > 1 {
          folderName := folders[|folders| - 1];
        }
        r := Put(r, folderName, child);
        return;
      }
      k := k + 1;
    }
  }

  /** get_all_payloads. */
  method GetAllPayloads(mounted: bool, dirs: Dirs, relative: string) returns (result: PayloadMap)
    ensures result == Collected(mounted, dirs, relative)
  {
    result := [];
    if !mounted {
      return;
    }
    var payloadFolders := ReadDirFull(dirs, relative, 1);
    var j := 0;
    while j < |payloadFolders|
      invariant j <= |payloadFolders|
      invariant result == Gather(dirs, payloadFolders[..j])
    {
      var e := payloadFolders[j];
      var filesInFolder := ReadDirFull(dirs, e, 2);
      result := RecordFirstPayload(result, e, filesInFolder);
      assert payloadFolders[..j + 1][..j] == payloadFolders[..j];
      j := j + 1;
    }
    assert payloadFolders[..j] == payloadFolders;
  }

  // ==== PayloadSelectionScreen ====

  const BUTTON_A: u32 := 0x8000
  const BUTTON_UP: u32 := 0x0200
  const BUTTON_DOWN: u32 := 0x0100

  /** `(uint32_t) x` for an int32_t or a size_t value. */
  function Wrap32(x: int): u32
  {
    x % TWO32
  }

  /**
   * One cursor move as the C computes it: UP decrements and clamps at 0;
   * DOWN increments and, once `(uint32_t) selected >= size`, sets
   * `selected = size - 1` computed in 32-bit size_t and converted to int.
   */
  function CursorStep(selected: int, size: nat, trigger: u32): int
  {
    if trigger == BUTTON_UP then
      if selected - 1 < 0 then 0 else selected - 1
    else if trigger == BUTTON_DOWN then
      if Wrap32(selected + 1) >= size then Int32(Wrap32(size - 1)) else selected + 1
    else selected
  }

  /** For a non-empty menu the cursor moves as a clamped counter and stays on an entry. */
  lemma CursorClamps(selected: int, size: nat, trigger: u32)
    requires 0 <= selected < size < TWO31
    ensures 0 <= CursorStep(selected, size, trigger) < size
    ensures trigger == BUTTON_UP ==> CursorStep(selected, size, trigger) == Max(selected - 1, 0)
    ensures trigger == BUTTON_DOWN ==> CursorStep(selected, size, trigger) == Min(selected + 1, size - 1)
    ensures trigger != BUTTON_UP && trigger != BUTTON_DOWN ==> CursorStep(selected, size, trigger) == selected
  {
  }

  function Max(a: int, b: int): int {
    if a >= b then a else b
  }

  /**
   * With an empty map the cursor only takes the values 0 and -1: DOWN sets
   * it to -1 (size_t 0 - 1 read back as int) and UP brings it back to 0.
   * Neither is an entry, so the final lookup finds nothing.
   */
  lemma CursorEmptyMenu(selected: int, trigger: u32)
    requires selected == 0 || selected == -1
    ensures var next := CursorStep(selected, 0, trigger);
      (next == 0 || next == -1) &&
      (trigger == BUTTON_DOWN ==> next == -1) &&
      (trigger == BUTTON_UP ==> next == 0) &&
      (trigger != BUTTON_UP && trigger != BUTTON_DOWN ==> next == selected)
  {
    assert Wrap32(-1) == TWO32 - 1;
  }

  /** The cursor when A is first pressed, or None when A never comes. */
  function MenuLoop(selected: int, size: nat, pad: seq<u32>): Option<int>
    decreases |pad|
  {
    if |pad| == 0 then None
    else if pad[0] == BUTTON_A then Some(selected)
    else MenuLoop(CursorStep(selected, size, pad[0]), size, pad[1..])
  }

  /** The value of the entry at `selected` in ascending key order, or "" if none is there. */
  function Pick(m: PayloadMap, selected: int): string
  {
    if 0 <= selected < |m| then m[selected].value else ""
  }

  /** PayloadSelectionScreen for the triggers `pad` of successive VPADRead calls. */
  function Selection(m: PayloadMap, pad: seq<u32>): Outcome<string>
  {
    match MenuLoop(0, |m|, pad)
    case None => Halted(AwaitingChoice)
    case Some(s) => Returned(Pick(m, s))
  }

  lemma {:induction false} MenuInRange(selected: int, size: nat, pad: seq<u32>)
    requires 0 <= selected < size < TWO31
    ensures MenuLoop(selected, size, pad).Some? ==> 0 <= MenuLoop(selected, size, pad).value < size
    decreases |pad|
  {
    if |pad| > 0 && pad[0] != BUTTON_A {
      CursorClamps(selected, size, pad[0]);
      MenuInRange(CursorStep(selected, size, pad[0]), size, pad[1..]);
    }
  }

  /**
   * The menu returns the value of one of the entries when there are any
   * (the `selected`-th in key order), "" when the map is empty, and never
   * returns before A is pressed.
   */
  lemma SelectionPicks(m: PayloadMap, pad: seq<u32>)
    requires |m| < TWO31
    ensures Selection(m, pad).Returned? <==> BUTTON_A in pad
    ensures Selection(m, pad).Returned? && |m| > 0 ==>
      exists i :: 0 <= i < |m| && Selection(m, pad).value == m[i].value
    ensures Selection(m, pad).Returned? && |m| == 0 ==> Selection(m, pad).value == ""
  {
    MenuStops(0, |m|, pad);
    if |m| > 0 {
      MenuInRange(0, |m|, pad);
      if Selection(m, pad).Returned? {
        var s := MenuLoop(0, |m|, pad).value;
        assert Selection(m, pad).value == m[s].value;
      }
    }
  }

  lemma {:induction false} MenuStops(selected: int, size: nat, pad: seq<u32>)
    ensures MenuLoop(selected, size, pad).Some? <==> BUTTON_A in pad
    decreases |pad|
  {
    if |pad| > 0 && pad[0] != BUTTON_A {
      MenuStops(CursorStep(selected, size, pad[0]), size, pad[1..]);
      assert pad == [pad[0]] + pad[1..];
    }
  }

  /** PayloadSelectionScreen: poll the pad until A, moving the cursor, then look the entry up. */
  method PayloadSelectionScreen(payloads: PayloadMap, pad: seq<u32>) returns (r: Outcome<string>)
    ensures r == Selection(payloads, pad)
  {
    var selected := 0;
    var j := 0;
    while true
      invariant j <= |pad|
      invariant MenuLoop(selected, |payloads|, pad[j..]) == MenuLoop(0, |payloads|, pad)
      decreases |pad| - j
    {
      if j == |pad| {
        return Halted(AwaitingChoice);
      }
      var trigger := pad[j];
      if trigger == BUTTON_A {
        break;
      }
      assert pad[j..][1..] == pad[j + 1..];
      if trigger == BUTTON_UP {
        selected := selected - 1;
        if selected < 0 {
          selected := 0;
        }
      } else if trigger == BUTTON_DOWN {
        selected := selected + 1;
        if Wrap32(selected) >= |payloads| {
          selected := Int32(Wrap32(|payloads| - 1));
        }
      }
      j := j + 1;
    }
    var i := 0;
    while i < |payloads|
      invariant i <= |payloads|
      invariant !(0 <= selected < i)
    {
      if i == selected {
        return Returned(payloads[i].value);
      }
      i := i + 1;
    }
    r := Returned("");
  }
}

/**
 * The ISO 9660 directory walker and its verdict.
 *
 * `Walk` and `Scan` give the meaning of the recursive walk as a function of the image; the
 * class `Walker` is the imperative walk, proved equal to it.
 */
module Iso {
  import opened Bytes

  const SECTOR := 2048
  const PVD_SECTOR := 16
  const MAX_DEPTH := 8
  const MAX_FILES := 4096

  const SEMICOLON: byte := 0x3B
  const SLASH: byte := 0x2F
  const DOT: byte := 0x2E

  type Path = seq<byte>

  function ReadU32Le(buf: seq<byte>, offset: nat): (n: nat) {
    if offset + 4 > |buf| then 0 else LeValue(buf[offset..offset + 4])
  }

  /** The part of `s` before its first `c`, or all of `s`. */
  function Before(s: seq<byte>, c: byte): (r: seq<byte>)
    ensures r <= s && c !in r
    ensures |r| == |s| || s[|r|] == c
  {
    if s == [] || s[0] == c then [] else [s[0]] + Before(s[1..], c)
  }

  /** A file identifier without its version suffix, in lower case. */
  function CleanName(raw: seq<byte>): Path {
    LowerAll(Before(raw, SEMICOLON))
  }

  function Join(prefix: Path, name: Path): Path {
    if prefix == [] then name else prefix + [SLASH] + name
  }

  function Min(a: nat, b: nat): nat { if a < b then a else b }

  function ByteAt(s: seq<byte>, i: nat): (b: nat)
    requires i < |s|
    ensures b == s[i] && b < 256
  {
    s[i]
  }

  /** Bit 1 of the file flags. */
  predicate IsDirFlag(record: seq<byte>)
    requires |record| >= 34
  {
    ByteAt(record, 25) / 2 % 2 == 1
  }

  /** What the scanner does with the bytes at one position of a directory extent. */
  datatype Record =
    | Stop
    | Skip(next: nat)
    | Entry(isDir: bool, name: Path, lba: nat, size: nat, next: nat)

  function RecordAt(data: seq<byte>, pos: nat): (r: Record)
    requires pos < |data|
    ensures !r.Stop? ==> pos < r.next <= |data|
    ensures r.Entry? ==> pos + 34 <= r.next
  {
    var len := ByteAt(data, pos);
    if len == 0 then
      var next := (pos / SECTOR + 1) * SECTOR;
      if next >= |data| then Stop else Skip(next)
    else if pos + len > |data| || len < 34 then Stop
    else ParseRecord(data[pos..pos + len], pos + len)
  }

  /** One directory record; the entries of the directory itself and of its parent are skipped. */
  function ParseRecord(record: seq<byte>, next: nat): (r: Record)
    requires |record| >= 34
    ensures !r.Stop? && r.next == next
  {
    var nameLen := ByteAt(record, 32);
    if 33 + nameLen > |record| then Skip(next)
    else
      var raw := record[33..33 + nameLen];
      if raw == [0] || raw == [1] then Skip(next)
      else Entry(IsDirFlag(record), CleanName(raw), ReadU32Le(record, 2), ReadU32Le(record, 10), next)
  }

  function DepthLeft(depth: nat): nat {
    if depth > MAX_DEPTH then 0 else MAX_DEPTH + 1 - depth
  }

  /** The list of files after walking the directory at (`lba`, `size`). */
  function Walk(buf: seq<byte>, lba: nat, size: nat, prefix: Path, files: seq<Path>, depth: nat): seq<Path>
    decreases DepthLeft(depth), |buf| + 1
  {
    if depth > MAX_DEPTH || |files| >= MAX_FILES || lba * SECTOR >= |buf| then files
    else Scan(buf, buf[lba * SECTOR..Min(lba * SECTOR + size, |buf|)], 0, prefix, files, depth)
  }

  /** The list of files after scanning a directory extent from `pos` on. */
  function Scan(buf: seq<byte>, data: seq<byte>, pos: nat, prefix: Path, files: seq<Path>, depth: nat): seq<Path>
    requires pos <= |data| <= |buf| && depth <= MAX_DEPTH
    decreases DepthLeft(depth), |data| - pos
  {
    if pos == |data| then files
    else
      match RecordAt(data, pos)
      case Stop => files
      case Skip(next) => Scan(buf, data, next, prefix, files, depth)
      case Entry(isDir, name, lba, size, next) =>
        var path := Join(prefix, name);
        var files' := if isDir then Walk(buf, lba, size, path, files, depth + 1) else files + [path];
        Scan(buf, data, next, prefix, files', depth)
  }

  /** The walk over a fixed image, collecting paths in the shared list `files`. */
  class Walker {
    const buf: seq<byte>
    var files: seq<Path>

    constructor (buf: seq<byte>)
      ensures this.buf == buf && files == []
    {
      this.buf := buf;
      files := [];
    }

    method WalkDir(lba: nat, size: nat, prefix: Path, depth: nat)
      modifies this
      ensures files == Walk(buf, lba, size, prefix, old(files), depth)
      decreases DepthLeft(depth)
    {
      hide CleanName, ReadU32Le, Join, IsDirFlag;
      if depth > MAX_DEPTH || |files| >= MAX_FILES {
        return;
      }
      var offset := lba * SECTOR;
      if offset >= |buf| {
        return;
      }
      var end := Min(offset + size, |buf|);
      var data: seq<byte> := buf[offset..end];

      ghost var whole := Scan(buf, data, 0, prefix, files, depth);
      assert whole == Walk(buf, lba, size, prefix, files, depth);
      var pos := 0;
      while pos < |data|
        invariant pos <= |data|
        invariant Scan(buf, data, pos, prefix, files, depth) == whole
      {
        var recordLen := ByteAt(data, pos);
        if recordLen == 0 {
          // padding up to the next sector
          var next := (pos / SECTOR + 1) * SECTOR;
          if next >= |data| {
            break;
          }
          pos := next;
          continue;
        }
        if pos + recordLen > |data| || recordLen < 34 {
          break;
        }
        var record: seq<byte> := data[pos..pos + recordLen];
        var isDir := IsDirFlag(record);
        var nameLen := ByteAt(record, 32);
        if 33 + nameLen > recordLen {
          assert ParseRecord(record, pos + recordLen) == Skip(pos + recordLen);
          pos := pos + recordLen;
          continue;
        }
        var nameRaw := record[33..33 + nameLen];
        if nameRaw == [0] || nameRaw == [1] {
          // current or parent directory
          assert ParseRecord(record, pos + recordLen) == Skip(pos + recordLen);
          pos := pos + recordLen;
          continue;
        }
        var fullPath := Join(prefix, CleanName(nameRaw));
        assert ParseRecord(record, pos + recordLen) ==
          Entry(isDir, CleanName(nameRaw), ReadU32Le(record, 2), ReadU32Le(record, 10), pos + recordLen);
        if isDir {
          WalkDir(ReadU32Le(record, 2), ReadU32Le(record, 10), fullPath, depth + 1);
        } else {
          files := files + [fullPath];
        }
        pos := pos + recordLen;
      }
    }
  }

  // ---------------------------------------------------------------- verdict

  const EXECUTABLE_EXTS: seq<string> := ["exe", "dll", "msi", "com", "scr", "efi", "sys", "ocx"]
  const SCRIPT_EXTS: seq<string> := ["ps1", "bat", "cmd", "vbs", "vbe", "js", "jse", "hta", "wsf", "wsh"]
  const INSTALLER_EXTS: seq<string> := ["inf", "reg"]

  /** The text after the last dot of a path, or the whole path, in lower case. */
  function Extension(path: Path): Path {
    LowerAll(AfterLast(path, DOT))
  }

  function AfterLast(s: seq<byte>, c: byte): (r: seq<byte>)
    ensures |r| <= |s| && s[|s| - |r|..] == r && c !in r
    ensures |r| == |s| || s[|s| - |r| - 1] == c
  {
    if s == [] || s[|s| - 1] == c then [] else AfterLast(s[..|s| - 1], c) + [s[|s| - 1]]
  }

  predicate Listed(path: Path, exts: seq<string>) {
    exists i :: 0 <= i < |exts| && Ascii(exts[i]) == Extension(path)
  }

  predicate IsExecutable(path: Path) { Listed(path, EXECUTABLE_EXTS) }

  predicate IsScript(path: Path) { Listed(path, SCRIPT_EXTS) }

  predicate IsInstaller(path: Path) { Listed(path, INSTALLER_EXTS) }

  predicate IsIsoImage(buf: seq<byte>) {
    var at := PVD_SECTOR * SECTOR;
    |buf| >= at + 190 && buf[at] == 1 && buf[at + 1..at + 6] == Ascii("CD001")
  }

  /** The files the scanner sees in an image: those below the root directory of its descriptor. */
  function FilesIn(buf: seq<byte>): seq<Path> {
    if !IsIsoImage(buf) then []
    else
      var pvd := buf[PVD_SECTOR * SECTOR..];
      Walk(buf, ReadU32Le(pvd, 158), ReadU32Le(pvd, 166), [], [], 0)
  }

  predicate NothingListed(files: seq<Path>) {
    forall f <- files :: !IsExecutable(f) && !IsScript(f)
  }

  /**
   * The verdict on an image: it fails exactly when some file has a listed executable or script
   * extension. Input that is not an ISO image passes.
   */
  method Analyze(buf: seq<byte>)
    returns (passed: bool, executables: seq<Path>, scripts: seq<Path>, installers: seq<Path>)
    ensures passed <==> NothingListed(FilesIn(buf))
    ensures forall f :: f in executables <==> f in FilesIn(buf) && IsExecutable(f)
    ensures forall f :: f in scripts <==> f in FilesIn(buf) && IsScript(f) && !IsExecutable(f)
    ensures forall f :: f in installers <==> f in FilesIn(buf) && IsInstaller(f) && !IsExecutable(f) && !IsScript(f)
  {
    passed, executables, scripts, installers := true, [], [], [];
    var pvdOffset := PVD_SECTOR * SECTOR;
    if |buf| < pvdOffset + 190 {
      return;
    }
    var pvd := buf[pvdOffset..];
    if pvd[0] != 1 || pvd[1..6] != Ascii("CD001") {
      return;
    }
    var walker := new Walker(buf);
    walker.WalkDir(ReadU32Le(pvd, 158), ReadU32Le(pvd, 166), [], 0);
    var files := walker.files;
    for i := 0 to |files|
      invariant forall f :: f in executables <==> f in files[..i] && IsExecutable(f)
      invariant forall f :: f in scripts <==> f in files[..i] && IsScript(f) && !IsExecutable(f)
      invariant forall f :: f in installers <==> f in files[..i] && IsInstaller(f) && !IsExecutable(f) && !IsScript(f)
    {
      assert files[..i + 1] == files[..i] + [files[i]];
      if IsExecutable(files[i]) {
        executables := executables + [files[i]];
      } else if IsScript(files[i]) {
        scripts := scripts + [files[i]];
      } else if IsInstaller(files[i]) {
        installers := installers + [files[i]];
      }
    }
    assert files[..|files|] == files;
    if executables != [] {
      assert executables[0] in executables;
      passed := false;
    }
    if scripts != [] {
      assert scripts[0] in scripts;
      passed := false;
    }
  }

  // ---------------------------------------------------------------- count bound

  /**
   * On every image the walk from an empty list collects at most
   * 4095 + 9 * (image length / 34) paths: the cap is tested only on entry to a directory, so
   * each of the 9 directories that may be open can still run to its end.
   */
  lemma WalkCountBound(buf: seq<byte>, lba: nat, size: nat)
    ensures |Walk(buf, lba, size, [], [], 0)| <= 4095 + 9 * (|buf| / 34)
  {
    WalkBound(buf, lba, size, [], [], 0);
    BudgetIsProduct(MAX_DEPTH + 1, |buf| / 34);
  }

  /** What `k` open directories with room for `q` records each can still add. */
  function Budget(k: nat, q: nat): nat {
    if k == 0 then 0 else q + Budget(k - 1, q)
  }

  lemma {:induction false} BudgetIsProduct(k: nat, q: nat)
    ensures Budget(k, q) == k * q
  {
    if k > 0 {
      BudgetIsProduct(k - 1, q);
      assert (k - 1) * q + q == k * q;
    }
  }

  lemma {:induction false} WalkBound(buf: seq<byte>, lba: nat, size: nat, prefix: Path, files: seq<Path>, depth: nat)
    ensures |files| >= MAX_FILES ==> Walk(buf, lba, size, prefix, files, depth) == files
    ensures |files| < MAX_FILES ==>
      |Walk(buf, lba, size, prefix, files, depth)| <= MAX_FILES - 1 + Budget(DepthLeft(depth), |buf| / 34)
    decreases DepthLeft(depth), |buf| + 1
  {
    if depth > MAX_DEPTH || |files| >= MAX_FILES || lba * SECTOR >= |buf| {
    } else {
      var data := buf[lba * SECTOR..Min(lba * SECTOR + size, |buf|)];
      ScanBound(buf, data, 0, prefix, files, depth);
    }
  }

  lemma {:induction false} ScanBound(buf: seq<byte>, data: seq<byte>, pos: nat, prefix: Path, files: seq<Path>, depth: nat)
    requires pos <= |data| <= |buf| && depth <= MAX_DEPTH
    ensures var n := |Scan(buf, data, pos, prefix, files, depth)|;
            n <= (|data| - pos) / 34 +
                 if |files| >= MAX_FILES then |files| else MAX_FILES - 1 + Budget(DepthLeft(depth + 1), |buf| / 34)
    decreases DepthLeft(depth), |data| - pos
  {
    if pos < |data| {
      match RecordAt(data, pos)
      case Stop =>
      case Skip(next) => ScanBound(buf, data, next, prefix, files, depth);
      case Entry(isDir, name, lba, size, next) =>
        var path := Join(prefix, name);
        var files' := if isDir then Walk(buf, lba, size, path, files, depth + 1) else files + [path];
        if isDir {
          WalkBound(buf, lba, size, path, files, depth + 1);
        }
        ScanBound(buf, data, next, prefix, files', depth);
    }
  }
}

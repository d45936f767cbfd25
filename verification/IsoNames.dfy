/**
 * The names an image lists and the verdict on them, told by the bytes of the records alone:
 * nothing here relies on how the walker cleans a name or finds its extension.
 */
module IsoNames {
  import opened Bytes
  import opened Iso
  import opened IsoImage

  // ---------------------------------------------------------------- names

  /** `text` is the record name `raw` up to its first semicolon, with A to Z in lower case. */
  predicate Cleans(raw: seq<byte>, text: seq<byte>) {
    && |text| <= |raw|
    && (|text| == |raw| || raw[|text|] == 0x3B)
    && forall i :: 0 <= i < |text| ==>
         raw[i] != 0x3B && text[i] == if 0x41 <= raw[i] <= 0x5A then raw[i] + 0x20 else raw[i]
  }

  lemma CleanNameCleans(raw: seq<byte>)
    ensures Cleans(raw, CleanName(raw))
  {
    var b := Before(raw, SEMICOLON);
    assert b == raw[..|b|];
    forall i | 0 <= i < |b|
      ensures raw[i] == b[i] && raw[i] != 0x3B
    {
      assert b[i] in b;
    }
  }

  lemma CleansOnce(raw: seq<byte>, text: seq<byte>, other: seq<byte>)
    requires Cleans(raw, text) && Cleans(raw, other)
    ensures text == other
  {
    assert |text| == |raw| || raw[|text|] == 0x3B;
    assert |other| == |raw| || raw[|other|] == 0x3B;
  }

  /** One cleaned component for every record name. */
  predicate AllClean(raws: seq<seq<byte>>, components: seq<seq<byte>>) {
    |components| == |raws| && forall i :: 0 <= i < |raws| ==> Cleans(raws[i], components[i])
  }

  function CleanAll(raws: seq<seq<byte>>): (components: seq<seq<byte>>)
    ensures |components| == |raws|
  {
    seq(|raws|, i requires 0 <= i < |raws| => CleanName(raws[i]))
  }

  lemma CleanAllExactly(raws: seq<seq<byte>>, components: seq<seq<byte>>)
    ensures AllClean(raws, components) <==> components == CleanAll(raws)
  {
    hide Cleans, CleanName;
    forall i | 0 <= i < |raws|
      ensures Cleans(raws[i], CleanName(raws[i]))
    {
      CleanNameCleans(raws[i]);
    }
    if AllClean(raws, components) {
      forall i | 0 <= i < |raws|
        ensures components[i] == CleanName(raws[i])
      {
        CleansOnce(raws[i], components[i], CleanName(raws[i]));
      }
    }
  }

  /** Components joined by slashes; a front that is empty gets none. */
  function Slashed(components: seq<seq<byte>>): seq<byte>
    decreases |components|
  {
    if components == [] then []
    else
      var front, last := Slashed(components[..|components| - 1]), components[|components| - 1];
      if front == [] then last else front + [0x2F] + last
  }

  lemma JoinIsSlashed(components: seq<seq<byte>>, last: seq<byte>)
    ensures Join(Slashed(components), last) == Slashed(components + [last])
  {
    assert (components + [last])[..|components|] == components;
  }

  // ---------------------------------------------------------------- the files of a tree

  /** Below a directory with children `cs` there is a file under these record names, outermost first. */
  predicate FileAt(cs: seq<Node>, raws: seq<seq<byte>>)
    decreases |raws|
  {
    raws != [] && exists c <- cs :: LeadsOn(c, raws)
  }

  predicate LeadsOn(c: Node, raws: seq<seq<byte>>)
    requires raws != []
    decreases |raws|, 0
  {
    c.name == raws[0] && if |raws| == 1 then c.File? else c.Dir? && FileAt(c.children, raws[1..])
  }

  lemma FileAtHead(cs: seq<Node>, raws: seq<seq<byte>>)
    requires cs != [] && raws != []
    ensures FileAt(cs, raws) <==> LeadsOn(cs[0], raws) || FileAt(cs[1..], raws)
  {
    hide LeadsOn;
    if c :| c in cs && LeadsOn(c, raws) {
      assert c == cs[0] || c in cs[1..];
    }
  }

  ghost predicate Leads(c: Node, before: seq<seq<byte>>, f: Path) {
    exists raws :: raws != [] && LeadsOn(c, raws) && f == Slashed(before + CleanAll(raws))
  }

  ghost predicate Below(cs: seq<Node>, before: seq<seq<byte>>, f: Path) {
    exists raws :: FileAt(cs, raws) && f == Slashed(before + CleanAll(raws))
  }

  lemma BelowHead(cs: seq<Node>, before: seq<seq<byte>>, f: Path)
    requires cs != []
    ensures Below(cs, before, f) <==> Leads(cs[0], before, f) || Below(cs[1..], before, f)
  {
    hide LeadsOn, FileAt, Slashed, CleanAll;
    forall raws: seq<seq<byte>> | raws != []
      ensures FileAt(cs, raws) <==> LeadsOn(cs[0], raws) || FileAt(cs[1..], raws)
    {
      FileAtHead(cs, raws);
    }
    assert forall cs', raws :: FileAt(cs', raws) ==> raws != [] by {
      NoEmptyChain();
    }
  }

  lemma NoEmptyChain()
    ensures forall cs, raws :: FileAt(cs, raws) ==> raws != []
  {}

  lemma LeadsThrough(c: Node, before: seq<seq<byte>>, f: Path)
    ensures var next := before + [CleanName(c.name)];
            Leads(c, before, f) <==> if c.File? then f == Slashed(next) else Below(c.children, next, f)
  {
    hide FileAt, CleanName, Slashed;
    var next := before + [CleanName(c.name)];
    if raws :| raws != [] && LeadsOn(c, raws) && f == Slashed(before + CleanAll(raws)) {
      ChainCleans(before, raws);
      if c.File? {
        assert CleanAll(raws[1..]) == [] && next + [] == next;
      } else {
        assert FileAt(c.children, raws[1..]);
      }
    }
    if c.File? {
      var raws := [c.name];
      ChainCleans(before, raws);
      assert CleanAll(raws[1..]) == [] && next + [] == next;
      assert LeadsOn(c, raws);
    } else if rest :| FileAt(c.children, rest) && f == Slashed(next + CleanAll(rest)) {
      NoEmptyChain();
      var raws := [c.name] + rest;
      assert raws[1..] == rest;
      ChainCleans(before, raws);
      assert LeadsOn(c, raws);
    }
  }

  lemma ChainCleans(before: seq<seq<byte>>, raws: seq<seq<byte>>)
    requires raws != []
    ensures before + CleanAll(raws) == before + [CleanName(raws[0])] + CleanAll(raws[1..])
  {}

  lemma {:induction false} PreOrderExactly(cs: seq<Node>, before: seq<seq<byte>>, f: Path)
    ensures f in PreOrder(cs, Slashed(before)) <==> Below(cs, before, f)
    decreases cs, 1
  {
    hide Below, Leads, Slashed, NodePaths;
    if cs == [] {
      NothingBelow(before, f);
    } else {
      NodePathsExactly(cs[0], before, f);
      PreOrderExactly(cs[1..], before, f);
      BelowHead(cs, before, f);
    }
  }

  lemma NothingBelow(before: seq<seq<byte>>, f: Path)
    ensures !Below([], before, f)
  {}

  lemma {:induction false} NodePathsExactly(c: Node, before: seq<seq<byte>>, f: Path)
    ensures f in NodePaths(c, Slashed(before)) <==> Leads(c, before, f)
    decreases c, 0
  {
    hide Below, Leads, Slashed, CleanName;
    JoinIsSlashed(before, CleanName(c.name));
    LeadsThrough(c, before, f);
    if c.Dir? {
      PreOrderExactly(c.children, before + [CleanName(c.name)], f);
    }
  }

  /** The walk never lists anything but files of the tree, caps or not. */
  lemma {:induction false} CappedWithin(cs: seq<Node>, prefix: Path, files: seq<Path>, depth: nat, f: Path)
    requires f in Capped(cs, prefix, files, depth)
    ensures f in files || f in PreOrder(cs, prefix)
    decreases cs, 0
  {
    hide CappedNode, NodePaths;
    if cs != [] {
      var files' := CappedNode(cs[0], prefix, files, depth);
      CappedWithin(cs[1..], prefix, files', depth, f);
      if f in files' {
        CappedNodeWithin(cs[0], prefix, files, depth, f);
      }
    }
  }

  lemma {:induction false} CappedNodeWithin(c: Node, prefix: Path, files: seq<Path>, depth: nat, f: Path)
    requires f in CappedNode(c, prefix, files, depth)
    ensures f in files || f in NodePaths(c, prefix)
    decreases c, 1
  {
    hide CleanName, Join;
    if c.Dir? && depth < MAX_DEPTH && |files| < MAX_FILES {
      CappedWithin(c.children, Join(prefix, CleanName(c.name)), files, depth + 1, f);
    }
  }

  /** Some file of the tree has the path `f`, component by component. */
  ghost predicate Names(cs: seq<Node>, f: Path) {
    exists raws, components :: FileAt(cs, raws) && AllClean(raws, components) && f == Slashed(components)
  }

  lemma NamesExactly(cs: seq<Node>, f: Path)
    ensures Names(cs, f) <==> f in PreOrder(cs, [])
  {
    hide FileAt, Slashed, CleanAll, AllClean, PreOrder;
    assert Slashed([]) == [] by { SlashedNone(); }
    PreOrderExactly(cs, [], f);
    forall raws
      ensures [] + CleanAll(raws) == CleanAll(raws)
    {}
    if raws, components :| FileAt(cs, raws) && AllClean(raws, components) && f == Slashed(components) {
      CleanAllExactly(raws, components);
      assert f == Slashed([] + CleanAll(raws));
    }
    if raws :| FileAt(cs, raws) && f == Slashed([] + CleanAll(raws)) {
      CleanAllExactly(raws, CleanAll(raws));
      assert FileAt(cs, raws) && AllClean(raws, CleanAll(raws)) && f == Slashed(CleanAll(raws));
    }
  }

  lemma SlashedNone()
    ensures Slashed([]) == []
  {}

  /**
   * In the image of any tree, every component of a listed path is a record name up to its first
   * semicolon with A to Z in lower case, along a chain of records that leads to a file. Within
   * the caps, every file is listed under such a path.
   */
  lemma ListedPathsExactly(cs: seq<Node>, f: Path)
    requires ValidRoot(cs)
    ensures f in FilesIn(Image(cs)) ==> Names(cs, f)
    ensures FileCount(cs) <= 4096 && Nesting(cs) <= 8 ==> (f in FilesIn(Image(cs)) <==> Names(cs, f))
  {
    hide Names, FilesIn, Image, PreOrder, Capped;
    NamesExactly(cs, f);
    ImageIsCapped(cs);
    if f in FilesIn(Image(cs)) {
      CappedWithin(cs, [], [], 0, f);
    }
    if FileCount(cs) <= 4096 && Nesting(cs) <= 8 {
      ImageRoundTrip(cs);
    }
  }

  // ---------------------------------------------------------------- extensions

  const BLOCKED_WORDS: seq<string> := [
    "exe", "dll", "msi", "com", "scr", "efi", "sys", "ocx",
    "ps1", "bat", "cmd", "vbs", "vbe", "js", "jse", "hta", "wsf", "wsh"]

  /** `ext` spells `word`, A to Z counting as a to z. */
  predicate Spells(ext: seq<byte>, word: string) {
    && |ext| == |word|
    && forall i :: 0 <= i < |ext| ==> (if 0x41 <= ext[i] <= 0x5A then ext[i] + 0x20 else ext[i]) == word[i] as int
  }

  /** What follows the last dot of the path, or the whole path, spells the word. */
  predicate EndsInWord(path: Path, word: string) {
    && |word| <= |path| && Spells(path[|path| - |word|..], word)
    && (|word| == |path| || path[|path| - |word| - 1] == 0x2E)
  }

  predicate LowerWord(word: string) {
    forall i :: 0 <= i < |word| ==> 'a' <= word[i] <= 'z' || '0' <= word[i] <= '9'
  }

  lemma SpellsExactly(ext: seq<byte>, word: string)
    requires LowerWord(word)
    ensures Spells(ext, word) <==> LowerAll(ext) == Ascii(word)
    ensures Spells(ext, word) ==> 0x2E !in ext
  {}

  lemma DotInLonger(path: Path, m: nat, n: nat)
    requires m < |path| ==> path[|path| - m - 1] == DOT
    ensures m < n <= |path| ==> DOT in path[|path| - n..]
  {
    if m < n <= |path| {
      assert path[|path| - n..][n - m - 1] == DOT;
    }
  }

  lemma ExtensionExactly(path: Path, word: string)
    requires LowerWord(word)
    ensures Extension(path) == Ascii(word) <==> EndsInWord(path, word)
  {
    hide LowerAll, Ascii, Spells, LowerWord;
    var r := AfterLast(path, DOT);
    assert path[|path| - |r|..] == r;
    SpellsExactly(r, word);
    if EndsInWord(path, word) {
      var tail := path[|path| - |word|..];
      SpellsExactly(tail, word);
      DotInLonger(path, |r|, |tail|);
      DotInLonger(path, |tail|, |r|);
    }
    if LowerAll(r) == Ascii(word) {
      assert |r| == |word|;
    }
  }

  lemma WordsAreLower()
    ensures forall word <- BLOCKED_WORDS :: LowerWord(word)
  {
    forall i | 0 <= i < |BLOCKED_WORDS|
      ensures LowerWord(BLOCKED_WORDS[i])
    {
    }
  }

  lemma WordsAreListed(path: Path)
    ensures IsExecutable(path) || IsScript(path) <==> exists word <- BLOCKED_WORDS :: Extension(path) == Ascii(word)
  {
    hide Extension, Ascii;
    var both := EXECUTABLE_EXTS + SCRIPT_EXTS;
    assert BLOCKED_WORDS == both;
    if i :| 0 <= i < |EXECUTABLE_EXTS| && Ascii(EXECUTABLE_EXTS[i]) == Extension(path) {
      assert both[i] in BLOCKED_WORDS;
    }
    if i :| 0 <= i < |SCRIPT_EXTS| && Ascii(SCRIPT_EXTS[i]) == Extension(path) {
      assert both[|EXECUTABLE_EXTS| + i] in BLOCKED_WORDS;
    }
    if word :| word in BLOCKED_WORDS && Extension(path) == Ascii(word) {
      var k :| 0 <= k < |both| && both[k] == word;
      if k < |EXECUTABLE_EXTS| {
        assert Ascii(EXECUTABLE_EXTS[k]) == Extension(path);
      } else {
        assert Ascii(SCRIPT_EXTS[k - |EXECUTABLE_EXTS|]) == Extension(path);
      }
    }
  }

  /** The third list, which does not decide: installers by their two extensions. */
  lemma InstallerExactly(path: Path)
    ensures IsInstaller(path) <==> EndsInWord(path, "inf") || EndsInWord(path, "reg")
  {
    hide Extension, EndsInWord, Ascii;
    assert INSTALLER_EXTS[0] == "inf" && INSTALLER_EXTS[1] == "reg";
    ExtensionExactly(path, "inf");
    ExtensionExactly(path, "reg");
  }

  /** A path is an executable or a script exactly when it ends in one of the eighteen words. */
  lemma BlockedExactly(path: Path)
    ensures IsExecutable(path) || IsScript(path) <==> exists word <- BLOCKED_WORDS :: EndsInWord(path, word)
  {
    hide Extension, EndsInWord, IsExecutable, IsScript, LowerWord;
    WordsAreListed(path);
    WordsAreLower();
    forall word <- BLOCKED_WORDS
      ensures Extension(path) == Ascii(word) <==> EndsInWord(path, word)
    {
      ExtensionExactly(path, word);
    }
  }

  // ---------------------------------------------------------------- the descriptor

  /** The number four bytes spell, lowest first. */
  function Number(d: seq<byte>): (n: int)
    requires |d| == 4
    ensures n >= 0
  {
    var d: seq<int> := d;
    d[0] + 0x100 * d[1] + 0x1_0000 * d[2] + 0x100_0000 * d[3]
  }

  /** Sectors of 2048 bytes, the descriptor in sector 16 with its mark, the root directory in sector 17. */
  lemma ImageBytes(cs: seq<Node>)
    requires ValidRoot(cs)
    ensures var b := Image(cs);
            && |b| > 34816 && |b| % 2048 == 0
            && b[32768] == 1 && b[32769..32774] == [0x43, 0x44, 0x30, 0x30, 0x31]
            && Number(b[32926..32930]) == 17 && Number(b[32934..32938]) == DirSize(cs)
            && b[34816] == 34
  {
    RootIsValid(cs);
    var root := Root(cs);
    var rec := RecOf(root).(name := [0]);
    assert Image(cs) == Zeros(32768) + Descriptor(rec) + Block(root, RecOf(root));
    assert rec.size == DirSize(cs);
    hide Image, Descriptor, Block, DirSize, Encode, LeValue, LeBytes, Zeros, Root, ValidNode, Number, RecOf;
    DescriptorNumbers(rec);
    ImageParts(Image(cs), Descriptor(rec), Block(root, RecOf(root)));
    FirstRecord(root, RecOf(root));
    BlockInSectors(root, RecOf(root));
  }

  lemma ImageParts(b: seq<byte>, p: seq<byte>, rest: seq<byte>)
    requires |p| == 2048 && b == Zeros(32768) + p + rest
    ensures |b| == 34816 + |rest| && b[32768] == p[0] && b[32769..32774] == p[1..6]
    ensures b[32926..32930] == p[158..162] && b[32934..32938] == p[166..170]
    ensures rest != [] ==> b[34816] == rest[0]
  {}

  lemma DescriptorNumbers(root: Rec)
    requires ValidRec(root) && |root.name| == 1
    ensures var p := Descriptor(root);
            && p[0] == 1 && p[1..6] == [0x43, 0x44, 0x30, 0x30, 0x31]
            && Number(p[158..162]) == root.lba && Number(p[166..170]) == root.size
  {
    hide LeBytes, BeBytes;
    var p, e := Descriptor(root), Encode(root);
    assert p[156..190] == e;
    assert p[158..162] == e[2..6] == LeBytes(root.lba) && p[166..170] == e[10..14] == LeBytes(root.size);
    NumberOfLe(root.lba);
    NumberOfLe(root.size);
    MarkBytes();
    hide Encode;
    assert p[1..6] == Ascii("CD001");
  }

  lemma NumberOfLe(n: int)
    requires 0 <= n < U32_LIMIT
    ensures Number(LeBytes(n)) == n
  {
    LeRoundTrip(n);
  }

  lemma MarkBytes()
    ensures Ascii("CD001") == [0x43, 0x44, 0x30, 0x30, 0x31]
  {}

  lemma FirstRecord(d: Node, up: Rec)
    requires d.Dir? && ValidNode(d) && ValidRec(up)
    ensures |Block(d, up)| > 0 && Block(d, up)[0] == 34
  {
    var recs := DotRecs(d, up) + RecsOf(d.children);
    assert recs[0].name == [0] && recs[0] in recs;
    assert Extent(d, up) == Layout(recs, 0) && Block(d, up) == Extent(d, up) + Blocks(d.children, RecOf(d));
    EncodeFields(recs[0]);
    hide ValidNode, ValidRec, DotRecs, RecsOf, RecOf, Blocks, Block, Extent;
    LayoutStarts(recs);
  }

  lemma LayoutStarts(recs: seq<Rec>)
    requires recs != [] && (forall r <- recs :: ValidRec(r)) && |recs[0].name| == 1
    ensures |Layout(recs, 0)| >= 34 && Layout(recs, 0)[0] == 34
  {
    assert recs[0] in recs;
    EncodeFields(recs[0]);
    hide Encode, ValidRec;
    assert Layout(recs, 0) == Encode(recs[0]) + Layout(recs[1..], 34);
  }

  lemma BlockInSectors(d: Node, up: Rec)
    requires d.Dir? && ValidNode(d) && ValidRec(up)
    ensures |Block(d, up)| % 2048 == 0
  {
    hide DirSize, SectorsBelow, Extent, Blocks, RecOf, ValidRec;
    DirSizeInSectors(d.children);
    BlocksLength(d.children, RecOf(d));
    hide ValidNode;
    InSectors(|Extent(d, up)|, SectorsBelow(d.children));
  }

  lemma InSectors(a: nat, n: nat)
    requires a % 2048 == 0
    ensures (a + 2048 * n) % 2048 == 0
  {}

  /** A record is one of a directory exactly when bit 1 of its flags is set, whatever the other bits are. */
  lemma DirectoryBit(record: seq<byte>)
    requires |record| >= 34
    ensures IsDirFlag(record) <==> record[25] % 4 >= 2
  {}

  /**
   * Whatever lacks the mark, or is too short to hold the record of the root, lists nothing and so
   * passes; in all else the walk starts from the location and size found there.
   */
  lemma OnlyImagesList(buf: seq<byte>)
    ensures FilesIn(buf) ==
            if !Marked(buf) then []
            else Walk(buf, Number(buf[32926..32930]), Number(buf[32934..32938]), [], [], 0)
  {
    IsImageExactly(buf);
    if |buf| >= 32958 {
      NumberAt(buf, 158);
      NumberAt(buf, 166);
    }
    hide Walk, ReadU32Le, Number, IsIsoImage, Marked;
  }

  predicate Marked(buf: seq<byte>) {
    |buf| >= 32958 && buf[32768] == 1 && buf[32769..32774] == [0x43, 0x44, 0x30, 0x30, 0x31]
  }

  lemma IsImageExactly(buf: seq<byte>)
    ensures IsIsoImage(buf) <==> Marked(buf)
  {
    MarkBytes();
    hide Ascii;
  }

  lemma NumberAt(buf: seq<byte>, at: nat)
    requires |buf| >= 32958 && at <= 186
    ensures ReadU32Le(buf[32768..], at) == Number(buf[32768 + at..32772 + at])
  {
    assert buf[32768..][at..at + 4] == buf[32768 + at..32772 + at];
    NumberIsLe(buf[32768 + at..32772 + at]);
    hide Number, LeValue;
  }

  lemma NumberIsLe(d: seq<byte>)
    requires |d| == 4
    ensures Number(d) == LeValue(d)
  {}

  // ---------------------------------------------------------------- the verdict

  /** The image of a tree within the caps fails exactly when the path of some file ends in a listed word. */
  lemma ImageFailsExactly(cs: seq<Node>)
    requires ValidRoot(cs) && FileCount(cs) <= 4096 && Nesting(cs) <= 8
    ensures !NothingListed(FilesIn(Image(cs))) <==>
            exists f, word :: Names(cs, f) && word in BLOCKED_WORDS && EndsInWord(f, word)
  {
    hide Names, FilesIn, Image, EndsInWord, IsExecutable, IsScript;
    var files := FilesIn(Image(cs));
    forall f: Path
      ensures f in files <==> Names(cs, f)
      ensures IsExecutable(f) || IsScript(f) <==> exists word <- BLOCKED_WORDS :: EndsInWord(f, word)
    {
      ListedPathsExactly(cs, f);
      BlockedExactly(f);
    }
  }

  /** The name of a file with a listed extension in any case, and any version. */
  function Versioned(stem: seq<byte>, ext: seq<byte>, version: seq<byte>): seq<byte> {
    stem + [0x2E] + ext + [0x3B] + version
  }

  lemma VersionedCleans(stem: seq<byte>, ext: seq<byte>, version: seq<byte>, text: seq<byte>)
    requires 0x3B !in stem && 0x3B !in ext && Cleans(Versioned(stem, ext, version), text)
    ensures |text| == |stem| + 1 + |ext| && text[|stem|] == 0x2E
    ensures forall i :: 0 <= i < |ext| ==>
              text[|stem| + 1 + i] == if 0x41 <= ext[i] <= 0x5A then ext[i] + 0x20 else ext[i]
  {
    var raw, n := Versioned(stem, ext, version), |stem| + 1 + |ext|;
    assert raw[n] == 0x3B && raw[|stem|] == 0x2E;
    assert forall i :: 0 <= i < |stem| ==> raw[i] == stem[i];
    assert forall i :: 0 <= i < |ext| ==> raw[|stem| + 1 + i] == ext[i];
    assert forall i :: 0 <= i < n ==> raw[i] != 0x3B;
    assert |text| == |raw| || raw[|text|] == 0x3B;
  }

  lemma LastComponent(components: seq<seq<byte>>)
    requires components != []
    ensures var path, last := Slashed(components), components[|components| - 1];
            |last| <= |path| && path[|path| - |last|..] == last
  {}

  /** Whatever its case, version and place in the tree, a file with a listed extension fails the image. */
  lemma NamedExecutableFails(cs: seq<Node>, raws: seq<seq<byte>>, stem: seq<byte>, ext: seq<byte>, version: seq<byte>, word: string)
    requires ValidRoot(cs) && FileCount(cs) <= 4096 && Nesting(cs) <= 8
    requires FileAt(cs, raws) && raws[|raws| - 1] == Versioned(stem, ext, version)
    requires 0x3B !in stem && word in BLOCKED_WORDS && Spells(ext, word)
    ensures !NothingListed(FilesIn(Image(cs)))
  {
    hide FilesIn, Image, FileAt, Slashed, Versioned, EndsInWord, NothingListed, Nesting, FileCount, ValidRoot;
    var components := CleanAll(raws);
    CleanAllExactly(raws, components);
    NoEmptyChain();
    var f, n := Slashed(components), |raws| - 1;
    assert Names(cs, f);
    WordsAreLower();
    SpellsLower(ext, word);
    VersionedCleans(stem, ext, version, components[n]);
    LastComponent(components);
    TailEndsInWord(f, components[n], stem, ext, word);
    ImageFailsExactly(cs);
  }

  lemma SpellsLower(ext: seq<byte>, word: string)
    requires LowerWord(word) && Spells(ext, word)
    ensures 0x3B !in ext
  {}

  lemma TailEndsInWord(f: Path, last: seq<byte>, stem: seq<byte>, ext: seq<byte>, word: string)
    requires |last| <= |f| && f[|f| - |last|..] == last && Spells(ext, word) && LowerWord(word)
    requires |last| == |stem| + 1 + |ext| && last[|stem|] == 0x2E
    requires forall i :: 0 <= i < |ext| ==> last[|stem| + 1 + i] == if 0x41 <= ext[i] <= 0x5A then ext[i] + 0x20 else ext[i]
    ensures EndsInWord(f, word)
  {
    var at := |f| - |last|;
    assert forall i :: 0 <= i < |last| ==> f[at + i] == last[i];
    var tail := f[|f| - |word|..];
    forall i | 0 <= i < |word|
      ensures tail[i] == word[i] as int && !(0x41 <= tail[i] <= 0x5A)
    {
      assert tail[i] == last[|stem| + 1 + i];
    }
  }

  /** The usual spelling: an image with the one file `A.EXE;1` fails. */
  lemma UsualSpellingFails()
    ensures var cs := [File([0x41, 0x2E, 0x45, 0x58, 0x45, 0x3B, 0x31], 0, 0)];
            ValidRoot(cs) && !NothingListed(FilesIn(Image(cs)))
  {
    var raw: seq<byte> := [0x41, 0x2E, 0x45, 0x58, 0x45, 0x3B, 0x31];
    var cs := [File(raw, 0, 0)];
    SmallRoot(cs[0]);
    assert LeadsOn(cs[0], [raw]) && cs[0] in cs;
    assert FileAt(cs, [raw]);
    assert raw == Versioned([0x41], [0x45, 0x58, 0x45], [0x31]);
    assert Spells([0x45, 0x58, 0x45], "exe") && BLOCKED_WORDS[0] == "exe";
    hide FilesIn, Image, ValidRoot, FileAt, Versioned, Spells;
    NamedExecutableFails(cs, [raw], [0x41], [0x45, 0x58, 0x45], [0x31], "exe");
  }

  lemma SmallRoot(c: Node)
    requires c.File? && ValidTree(c) && |c.name| == 7
    ensures ValidRoot([c]) && FileCount([c]) == 1 && Nesting([c]) == 0
  {
    var r := RecLen(c.name);
    assert [c][1..] == [] && [34, 34] + ChildLens([c]) == [34, 34, r];
    assert [34, 34, r][1..] == [34, r] && [34, r][1..] == [r] && [r][1..] == [];
    LayoutLenFits([34, 34, r], 0);
    LayoutLenFits([34, r], 34);
    LayoutLenFits([r], 68);
  }
}

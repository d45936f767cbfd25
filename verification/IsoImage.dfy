/**
 * Directory trees laid out as ISO 9660 records (sections 8.4 and 9.1 of ECMA-119), and the
 * proof that the walker reads them back.
 */
module IsoImage {
  import opened Bytes
  import opened Iso

  /** A directory tree whose nodes carry the first sector of their extent. */
  datatype Node =
    | File(name: seq<byte>, lba: nat, size: nat)
    | Dir(name: seq<byte>, lba: nat, children: seq<Node>)

  /** The fields of a directory record that the walker reads. */
  datatype Rec = Rec(name: seq<byte>, isDir: bool, lba: nat, size: nat)

  /** An identifier that fits a record and is not one of the two reserved ones. */
  predicate ValidName(name: seq<byte>) {
    1 <= |name| <= 221 && name != [0] && name != [1]
  }

  // ---------------------------------------------------------------- records and extents

  function RecLen(name: seq<byte>): (n: nat)
    ensures |name| <= 221 ==> n <= 254
  {
    33 + |name| + (if |name| % 2 == 0 then 1 else 0)
  }

  predicate ValidRec(r: Rec) {
    1 <= |r.name| <= 221 && r.lba < U32_LIMIT && r.size < U32_LIMIT
  }

  /** Section 9.1: length, locations in both byte orders, flags, identifier and padding. */
  function Encode(r: Rec): (e: seq<byte>)
    requires ValidRec(r)
    ensures |e| == RecLen(r.name) && 34 <= |e| <= 254
  {
    [RecLen(r.name), 0] + LeBytes(r.lba) + BeBytes(r.lba) + LeBytes(r.size) + BeBytes(r.size) + Zeros(7)
      + [if r.isDir then 2 else 0, 0, 0, 1, 0, 0, 1, |r.name|] + r.name
      + Zeros(if |r.name| % 2 == 0 then 1 else 0)
  }

  /** Bytes from `pos` to the next sector boundary. */
  function Gap(pos: nat): (g: nat)
    ensures g < SECTOR && (pos + g) % SECTOR == 0
    ensures g == 0 <==> pos % SECTOR == 0
  {
    if pos % SECTOR == 0 then 0 else SECTOR - pos % SECTOR
  }

  predicate Fits(pos: nat, len: nat) {
    pos % SECTOR + len <= SECTOR
  }

  /** The bytes of an extent from `pos` on: no record crosses a sector boundary. */
  function Layout(recs: seq<Rec>, pos: nat): (s: seq<byte>)
    requires forall r <- recs :: ValidRec(r)
    ensures (pos + |s|) % SECTOR == 0
    decreases |recs|, Gap(pos)
  {
    if recs == [] then Zeros(Gap(pos))
    else if Fits(pos, RecLen(recs[0].name)) then Encode(recs[0]) + Layout(recs[1..], pos + RecLen(recs[0].name))
    else
      assert ValidRec(recs[0]);
      Zeros(Gap(pos)) + Layout(recs, pos + Gap(pos))
  }

  /** The length of `Layout`, which depends on the record lengths only. */
  function LayoutLen(lens: seq<nat>, pos: nat): nat
    decreases |lens|, Gap(pos)
  {
    if lens == [] then Gap(pos)
    else if Fits(pos, lens[0]) || Gap(pos) == 0 then lens[0] + LayoutLen(lens[1..], pos + lens[0])
    else Gap(pos) + LayoutLen(lens, pos + Gap(pos))
  }

  function LensOf(recs: seq<Rec>): (lens: seq<nat>)
    ensures |lens| == |recs| && forall i :: 0 <= i < |recs| ==> lens[i] == RecLen(recs[i].name)
  {
    seq(|recs|, i requires 0 <= i < |recs| => RecLen(recs[i].name))
  }

  lemma {:induction false} LayoutLength(recs: seq<Rec>, pos: nat)
    requires forall r <- recs :: ValidRec(r)
    ensures |Layout(recs, pos)| == LayoutLen(LensOf(recs), pos)
    decreases |recs|, Gap(pos)
  {
    if recs != [] {
      assert ValidRec(recs[0]);
      assert LensOf(recs)[1..] == LensOf(recs[1..]);
      if Fits(pos, RecLen(recs[0].name)) {
        LayoutLength(recs[1..], pos + RecLen(recs[0].name));
      } else {
        LayoutLength(recs, pos + Gap(pos));
      }
    }
  }

  // ---------------------------------------------------------------- directories

  predicate ValidNode(n: Node) {
    && ValidName(n.name)
    && n.lba < U32_LIMIT
    && (n.File? ==> n.size < U32_LIMIT)
    && (n.Dir? ==> (forall c <- n.children :: ValidNode(c)) && DirSize(n.children) < U32_LIMIT)
  }

  function ChildLens(cs: seq<Node>): (lens: seq<nat>)
    ensures |lens| == |cs| && forall i :: 0 <= i < |cs| ==> lens[i] == RecLen(cs[i].name)
  {
    seq(|cs|, i requires 0 <= i < |cs| => RecLen(cs[i].name))
  }

  /** Length of a directory's extent: the two reserved records and one per child. */
  function DirSize(cs: seq<Node>): nat {
    LayoutLen([34, 34] + ChildLens(cs), 0)
  }

  function RecOf(n: Node): (r: Rec)
    requires ValidNode(n)
    ensures ValidRec(r) && r.name == n.name
  {
    match n
    case File(name, lba, size) => Rec(name, false, lba, size)
    case Dir(name, lba, children) => Rec(name, true, lba, DirSize(children))
  }

  function RecsOf(cs: seq<Node>): (rs: seq<Rec>)
    requires forall c <- cs :: ValidNode(c)
    ensures |rs| == |cs|
    ensures forall i :: 0 <= i < |cs| ==> rs[i] == RecOf(cs[i])
    ensures forall r <- rs :: ValidRec(r)
  {
    seq(|cs|, i requires 0 <= i < |cs| => RecOf(cs[i]))
  }

  /** The records of the directory itself and of its parent. */
  function DotRecs(d: Node, up: Rec): (rs: seq<Rec>)
    requires d.Dir? && ValidNode(d) && ValidRec(up)
    ensures forall r <- rs :: ValidRec(r)
  {
    [Rec([0], true, d.lba, DirSize(d.children)), up.(name := [1])]
  }

  lemma ExtentLens(d: Node, up: Rec)
    requires d.Dir? && ValidNode(d) && ValidRec(up)
    ensures LensOf(DotRecs(d, up) + RecsOf(d.children)) == [34, 34] + ChildLens(d.children)
  {
    hide ValidNode, ValidRec, DirSize;
  }

  function Extent(d: Node, up: Rec): (s: seq<byte>)
    requires d.Dir? && ValidNode(d) && ValidRec(up)
    ensures |s| == DirSize(d.children)
  {
    var recs := DotRecs(d, up) + RecsOf(d.children);
    LayoutLength(recs, 0);
    ExtentLens(d, up);
    Layout(recs, 0)
  }

  /** `part` occurs in `buf` at offset `at`. */
  predicate Holds(buf: seq<byte>, at: nat, part: seq<byte>) {
    at + |part| <= |buf| && buf[at..at + |part|] == part
  }

  /** The image holds the extent of every directory of the tree where its record says. */
  ghost predicate Placed(buf: seq<byte>, d: Node, up: Rec)
    requires d.Dir? && ValidNode(d) && ValidRec(up)
    decreases d
  {
    && Holds(buf, d.lba * SECTOR, Extent(d, up))
    && forall c <- d.children | c.Dir? :: Placed(buf, c, RecOf(d))
  }

  // ---------------------------------------------------------------- what the tree contains

  /** The paths of the files below `cs`, in pre-order, as the walker names them. */
  function PreOrder(cs: seq<Node>, prefix: Path): seq<Path> {
    if cs == [] then [] else NodePaths(cs[0], prefix) + PreOrder(cs[1..], prefix)
  }

  function NodePaths(c: Node, prefix: Path): seq<Path> {
    var path := Join(prefix, CleanName(c.name));
    if c.Dir? then PreOrder(c.children, path) else [path]
  }

  function FileCount(cs: seq<Node>): nat {
    if cs == [] then 0
    else (if cs[0].Dir? then FileCount(cs[0].children) else 1) + FileCount(cs[1..])
  }

  /** How deep directories nest below a directory with children `cs`. */
  function Nesting(cs: seq<Node>): nat {
    if cs == [] then 0
    else
      var rest := Nesting(cs[1..]);
      if cs[0].Dir? && 1 + Nesting(cs[0].children) > rest then 1 + Nesting(cs[0].children) else rest
  }

  lemma {:induction false} PreOrderCount(cs: seq<Node>, prefix: Path)
    ensures |PreOrder(cs, prefix)| == FileCount(cs)
  {
    if cs != [] {
      if cs[0].Dir? {
        PreOrderCount(cs[0].children, Join(prefix, CleanName(cs[0].name)));
      }
      PreOrderCount(cs[1..], prefix);
    }
  }

  // ---------------------------------------------------------------- the walker reads the tree back

  lemma EncodeFields(r: Rec)
    requires ValidRec(r)
    ensures var e := Encode(r);
            && e[0] == |e| && e[25] == (if r.isDir then 2 else 0) && e[32] == |r.name|
            && e[33..33 + |r.name|] == r.name && e[2..6] == LeBytes(r.lba) && e[10..14] == LeBytes(r.size)
  {
    hide LeBytes, BeBytes;
  }

  /** A record laid out at `pos` is parsed to its own fields. */
  lemma ParseEncoded(data: seq<byte>, pos: nat, r: Rec)
    requires ValidRec(r) && Holds(data, pos, Encode(r))
    ensures RecordAt(data, pos) ==
            if r.name == [0] || r.name == [1] then Skip(pos + RecLen(r.name))
            else Entry(r.isDir, CleanName(r.name), r.lba, r.size, pos + RecLen(r.name))
  {
    hide Encode, LeBytes, LeValue, CleanName;
    var e := Encode(r);
    EncodeFields(r);
    assert data[pos] == data[pos..pos + |e|][0] == |e|;
    LeRoundTrip(r.lba);
    LeRoundTrip(r.size);
  }

  /** Zero padding is skipped up to the next sector. */
  lemma ParseGap(data: seq<byte>, pos: nat)
    requires pos < |data| && data[pos] == 0
    requires pos % SECTOR != 0
    ensures RecordAt(data, pos) == if pos + Gap(pos) >= |data| then Stop else Skip(pos + Gap(pos))
  {
    assert (pos / SECTOR + 1) * SECTOR == pos + Gap(pos);
  }

  /** When the next record fits, the extent goes on with that record. */
  lemma LayoutHead(data: seq<byte>, pos: nat, recs: seq<Rec>)
    requires pos <= |data| && recs != [] && forall r <- recs :: ValidRec(r)
    requires data[pos..] == Layout(recs, pos) && Fits(pos, RecLen(recs[0].name))
    ensures var next := pos + RecLen(recs[0].name);
            Holds(data, pos, Encode(recs[0])) && data[next..] == Layout(recs[1..], next)
  {
    var e := Encode(recs[0]);
    var next := pos + |e|;
    assert data[pos..next] == data[pos..][..|e|] == e;
    assert data[next..] == data[pos..][|e|..] == Layout(recs[1..], next);
  }

  /** Where the next record does not fit, there is padding and the record comes after it. */
  lemma LayoutGap(data: seq<byte>, pos: nat, recs: seq<Rec>)
    requires pos <= |data| && recs != [] && forall r <- recs :: ValidRec(r)
    requires !Fits(pos, RecLen(recs[0].name)) && data[pos..] == Layout(recs, pos)
    ensures 0 < Gap(pos) && pos + Gap(pos) < |data|
    ensures data[pos] == 0 && data[pos + Gap(pos)..] == Layout(recs, pos + Gap(pos))
  {
    GapIsPositive(pos, recs[0]);
    var g, rest := Gap(pos), Layout(recs, pos + Gap(pos));
    assert data[pos..] == Zeros(g) + rest;
    hide Layout, Gap, Fits, RecLen, ValidRec;
    RestIsNotEmpty(pos + g, recs);
    Padded(data, pos, g, rest);
  }

  lemma GapIsPositive(pos: nat, r: Rec)
    requires ValidRec(r) && !Fits(pos, RecLen(r.name))
    ensures 0 < Gap(pos) && Fits(pos + Gap(pos), RecLen(r.name))
  {}

  lemma RestIsNotEmpty(pos: nat, recs: seq<Rec>)
    requires recs != [] && (forall r <- recs :: ValidRec(r)) && Fits(pos, RecLen(recs[0].name))
    ensures |Layout(recs, pos)| > 0
  {
    hide Encode, Fits, RecLen;
    assert recs[0] in recs;
  }

  lemma Padded(data: seq<byte>, pos: nat, g: nat, rest: seq<byte>)
    requires pos <= |data| && data[pos..] == Zeros(g) + rest && g > 0 && |rest| > 0
    ensures pos + g < |data| && data[pos] == 0 && data[pos + g..] == rest
  {
    assert |data[pos..]| == g + |rest|;
    assert data[pos] == data[pos..][0] == Zeros(g)[0];
    assert data[pos + g..] == data[pos..][g..] == rest;
  }

  /** The list of files after the records `recs`, whatever bytes hold them. */
  function Fold(buf: seq<byte>, recs: seq<Rec>, prefix: Path, files: seq<Path>, depth: nat): seq<Path> {
    if recs == [] then files
    else Fold(buf, recs[1..], prefix, AfterRec(buf, recs[0], prefix, files, depth), depth)
  }

  function AfterRec(buf: seq<byte>, r: Rec, prefix: Path, files: seq<Path>, depth: nat): seq<Path> {
    var path := Join(prefix, CleanName(r.name));
    if r.name == [0] || r.name == [1] then files
    else if r.isDir then Walk(buf, r.lba, r.size, path, files, depth + 1)
    else files + [path]
  }

  lemma ScanRecord(buf: seq<byte>, data: seq<byte>, pos: nat, r: Rec, prefix: Path, files: seq<Path>, depth: nat)
    requires |data| <= |buf| && depth <= MAX_DEPTH
    requires ValidRec(r) && Holds(data, pos, Encode(r))
    ensures Scan(buf, data, pos, prefix, files, depth) ==
            Scan(buf, data, pos + RecLen(r.name), prefix, AfterRec(buf, r, prefix, files, depth), depth)
  {
    hide Encode, ParseRecord, CleanName, Walk, ValidRec, Holds;
    ParseEncoded(data, pos, r);
  }

  lemma ScanGap(buf: seq<byte>, data: seq<byte>, pos: nat, prefix: Path, files: seq<Path>, depth: nat)
    requires pos < |data| <= |buf| && depth <= MAX_DEPTH
    requires data[pos] == 0 && pos % SECTOR != 0
    ensures Scan(buf, data, pos, prefix, files, depth) ==
            if pos + Gap(pos) >= |data| then files else Scan(buf, data, pos + Gap(pos), prefix, files, depth)
  {
    ParseGap(data, pos);
  }

  lemma ScanEnd(buf: seq<byte>, data: seq<byte>, pos: nat, prefix: Path, files: seq<Path>, depth: nat)
    requires pos <= |data| <= |buf| && depth <= MAX_DEPTH
    requires data[pos..] == Layout([], pos)
    ensures Scan(buf, data, pos, prefix, files, depth) == files
  {
    if pos < |data| {
      assert data[pos] == data[pos..][0] == 0;
      ScanGap(buf, data, pos, prefix, files, depth);
    }
  }

  /** Scanning an extent sees exactly the records laid out in it. */
  lemma {:induction false} ScanLayout(buf: seq<byte>, data: seq<byte>, pos: nat, recs: seq<Rec>,
                                      prefix: Path, files: seq<Path>, depth: nat)
    requires pos <= |data| <= |buf| && depth <= MAX_DEPTH
    requires forall r <- recs :: ValidRec(r)
    requires data[pos..] == Layout(recs, pos)
    ensures Scan(buf, data, pos, prefix, files, depth) == Fold(buf, recs, prefix, files, depth)
    decreases |recs|, Gap(pos)
  {
    hide Scan, Layout, Encode, AfterRec, ValidRec, Gap;
    if recs == [] {
      ScanEnd(buf, data, pos, prefix, files, depth);
    } else if Fits(pos, RecLen(recs[0].name)) {
      LayoutHead(data, pos, recs);
      ScanRecord(buf, data, pos, recs[0], prefix, files, depth);
      ScanLayout(buf, data, pos + RecLen(recs[0].name), recs[1..], prefix,
                 AfterRec(buf, recs[0], prefix, files, depth), depth);
    } else {
      LayoutGap(data, pos, recs);
      ScanGap(buf, data, pos, prefix, files, depth);
      ScanLayout(buf, data, pos + Gap(pos), recs, prefix, files, depth);
    }
  }

  /**
   * The list after walking the children `cs` of a directory at `depth`: a directory is passed
   * over when it lies too deep or when the list is already full.
   */
  function Capped(cs: seq<Node>, prefix: Path, files: seq<Path>, depth: nat): seq<Path>
    decreases cs, 0
  {
    if cs == [] then files else Capped(cs[1..], prefix, CappedNode(cs[0], prefix, files, depth), depth)
  }

  function CappedNode(c: Node, prefix: Path, files: seq<Path>, depth: nat): seq<Path>
    decreases c, 1
  {
    var path := Join(prefix, CleanName(c.name));
    if !c.Dir? then files + [path]
    else if depth >= MAX_DEPTH || |files| >= MAX_FILES then files
    else Capped(c.children, path, files, depth + 1)
  }

  /** The records of `cs` contribute what the capped walk lists for `cs`. */
  lemma {:induction false} FoldChildren(buf: seq<byte>, cs: seq<Node>, self: Rec, prefix: Path, files: seq<Path>, depth: nat)
    requires depth <= MAX_DEPTH && ValidRec(self) && forall c <- cs :: ValidNode(c)
    requires forall c <- cs | c.Dir? :: Placed(buf, c, self)
    ensures Fold(buf, RecsOf(cs), prefix, files, depth) == Capped(cs, prefix, files, depth)
    decreases cs, 0
  {
    hide AfterRec, Placed, ValidNode, ValidRec, CappedNode;
    if cs != [] {
      assert RecsOf(cs[1..]) == RecsOf(cs)[1..];
      FoldNode(buf, cs[0], self, prefix, files, depth);
      FoldChildren(buf, cs[1..], self, prefix, CappedNode(cs[0], prefix, files, depth), depth);
    }
  }

  lemma {:induction false} FoldNode(buf: seq<byte>, c: Node, self: Rec, prefix: Path, files: seq<Path>, depth: nat)
    requires depth <= MAX_DEPTH && ValidRec(self) && ValidNode(c) && (c.Dir? ==> Placed(buf, c, self))
    ensures AfterRec(buf, RecOf(c), prefix, files, depth) == CappedNode(c, prefix, files, depth)
    decreases c, 1
  {
    if c.Dir? {
      WalkPlaced(buf, c, self, Join(prefix, CleanName(c.name)), files, depth + 1);
    }
  }

  /** Walking a placed directory, at any depth and with any list, gives the capped list of its files. */
  lemma {:induction false} WalkPlaced(buf: seq<byte>, d: Node, up: Rec, prefix: Path, files: seq<Path>, depth: nat)
    requires d.Dir? && ValidNode(d) && ValidRec(up) && Placed(buf, d, up)
    ensures Walk(buf, d.lba, DirSize(d.children), prefix, files, depth) ==
            if depth > MAX_DEPTH || |files| >= MAX_FILES then files else Capped(d.children, prefix, files, depth)
    decreases d, 0
  {
    hide DirSize, Extent, Capped;
    if depth <= MAX_DEPTH && |files| < MAX_FILES {
      WalkExtent(buf, d, up, prefix, files, depth);
      FoldChildren(buf, d.children, RecOf(d), prefix, files, depth);
    }
  }

  /** Every directory with a file below it is entered: its depth and the `n` files before it leave room. */
  predicate Complete(cs: seq<Node>, n: nat, depth: nat)
    decreases cs, 0
  {
    cs == [] || (CompleteNode(cs[0], n, depth) && Complete(cs[1..], n + NodeCount(cs[0]), depth))
  }

  predicate CompleteNode(c: Node, n: nat, depth: nat)
    decreases c, 1
  {
    !c.Dir? || FileCount(c.children) == 0 || (depth < 8 && n < 4096 && Complete(c.children, n, depth + 1))
  }

  function NodeCount(c: Node): nat {
    if c.Dir? then FileCount(c.children) else 1
  }

  lemma {:induction false} CappedLength(cs: seq<Node>, prefix: Path, files: seq<Path>, depth: nat)
    ensures |files| <= |Capped(cs, prefix, files, depth)| <= |files| + FileCount(cs)
    ensures |Capped(cs, prefix, files, depth)| == |files| + FileCount(cs) <==> Complete(cs, |files|, depth)
    decreases cs, 0
  {
    hide CappedNode, CompleteNode;
    if cs != [] {
      CappedNodeLength(cs[0], prefix, files, depth);
      CappedLength(cs[1..], prefix, CappedNode(cs[0], prefix, files, depth), depth);
    }
  }

  lemma {:induction false} CappedNodeLength(c: Node, prefix: Path, files: seq<Path>, depth: nat)
    ensures |files| <= |CappedNode(c, prefix, files, depth)| <= |files| + NodeCount(c)
    ensures |CappedNode(c, prefix, files, depth)| == |files| + NodeCount(c) <==> CompleteNode(c, |files|, depth)
    decreases c, 1
  {
    if c.Dir? {
      CappedLength(c.children, Join(prefix, CleanName(c.name)), files, depth + 1);
    }
  }

  lemma {:induction false} CompleteIsPreOrder(cs: seq<Node>, prefix: Path, files: seq<Path>, depth: nat)
    requires Complete(cs, |files|, depth)
    ensures Capped(cs, prefix, files, depth) == files + PreOrder(cs, prefix)
    decreases cs, 0
  {
    hide CappedNode, CompleteNode, NodePaths;
    if cs != [] {
      var own := NodePaths(cs[0], prefix);
      CompleteNodeIsPreOrder(cs[0], prefix, files, depth);
      CompleteIsPreOrder(cs[1..], prefix, files + own, depth);
      assert (files + own) + PreOrder(cs[1..], prefix) == files + PreOrder(cs, prefix);
    }
  }

  lemma {:induction false} CompleteNodeIsPreOrder(c: Node, prefix: Path, files: seq<Path>, depth: nat)
    requires CompleteNode(c, |files|, depth)
    ensures CappedNode(c, prefix, files, depth) == files + NodePaths(c, prefix) && |NodePaths(c, prefix)| == NodeCount(c)
    decreases c, 1
  {
    if c.Dir? {
      var path := Join(prefix, CleanName(c.name));
      PreOrderCount(c.children, path);
      if FileCount(c.children) == 0 {
        CappedLength(c.children, path, files, depth + 1);
        CappedGrows(c.children, path, files, depth + 1);
        assert PreOrder(c.children, path) == [] && files + [] == files;
      } else {
        CompleteIsPreOrder(c.children, path, files, depth + 1);
      }
    }
  }

  lemma {:induction false} CappedGrows(cs: seq<Node>, prefix: Path, files: seq<Path>, depth: nat)
    ensures files <= Capped(cs, prefix, files, depth)
    decreases cs, 0
  {
    hide CappedNode;
    if cs != [] {
      CappedNodeGrows(cs[0], prefix, files, depth);
      CappedGrows(cs[1..], prefix, CappedNode(cs[0], prefix, files, depth), depth);
    }
  }

  lemma {:induction false} CappedNodeGrows(c: Node, prefix: Path, files: seq<Path>, depth: nat)
    ensures files <= CappedNode(c, prefix, files, depth)
    decreases c, 1
  {
    if c.Dir? {
      CappedGrows(c.children, Join(prefix, CleanName(c.name)), files, depth + 1);
    }
  }

  /** Within the two caps of the scanner nothing is passed over. */
  lemma {:induction false} CapsAreComplete(cs: seq<Node>, n: nat, depth: nat)
    requires depth + Nesting(cs) <= MAX_DEPTH && n + FileCount(cs) <= MAX_FILES
    ensures Complete(cs, n, depth)
    decreases cs
  {
    if cs != [] {
      if cs[0].Dir? {
        CapsAreComplete(cs[0].children, n, depth + 1);
      }
      CapsAreComplete(cs[1..], n + NodeCount(cs[0]), depth);
    }
  }

  /** The reserved records contribute nothing. */
  lemma FoldDots(buf: seq<byte>, d: Node, up: Rec, recs: seq<Rec>, prefix: Path, files: seq<Path>, depth: nat)
    requires d.Dir? && ValidNode(d) && ValidRec(up)
    ensures Fold(buf, DotRecs(d, up) + recs, prefix, files, depth) == Fold(buf, recs, prefix, files, depth)
  {
    hide Walk, DirSize, ValidNode, ValidRec;
    var dots := DotRecs(d, up);
    assert (dots + recs)[1..] == dots[1..] + recs && (dots[1..] + recs)[1..] == recs;
  }

  /** Entering a directory is scanning its extent. */
  lemma WalkIsScan(buf: seq<byte>, lba: nat, data: seq<byte>, prefix: Path, files: seq<Path>, depth: nat)
    requires depth <= MAX_DEPTH && |files| < MAX_FILES && |data| > 0 && Holds(buf, lba * SECTOR, data)
    ensures Walk(buf, lba, |data|, prefix, files, depth) == Scan(buf, data, 0, prefix, files, depth)
  {
    hide Scan;
    assert Min(lba * SECTOR + |data|, |buf|) == lba * SECTOR + |data|;
  }

  /** Entering a placed directory is folding over the records of its children. */
  lemma WalkExtent(buf: seq<byte>, d: Node, up: Rec, prefix: Path, files: seq<Path>, depth: nat)
    requires d.Dir? && ValidNode(d) && ValidRec(up) && Holds(buf, d.lba * SECTOR, Extent(d, up))
    requires depth <= MAX_DEPTH && |files| < MAX_FILES
    ensures Walk(buf, d.lba, DirSize(d.children), prefix, files, depth) == Fold(buf, RecsOf(d.children), prefix, files, depth)
  {
    var data, recs := Extent(d, up), DotRecs(d, up) + RecsOf(d.children);
    assert data[0..] == data == Layout(recs, 0);
    hide Extent, Walk, DirSize, Scan, Fold, Layout, ValidNode, ValidRec, DotRecs, RecsOf, RecOf;
    DirSizeInSectors(d.children);
    WalkIsScan(buf, d.lba, data, prefix, files, depth);
    ScanLayout(buf, data, 0, recs, prefix, files, depth);
    FoldDots(buf, d, up, RecsOf(d.children), prefix, files, depth);
  }

  // ---------------------------------------------------------------- an image builder

  /** A tree that can be laid out, whatever sectors its nodes carry. */
  predicate ValidTree(n: Node) {
    && ValidName(n.name)
    && (n.File? ==> n.lba < U32_LIMIT && n.size < U32_LIMIT)
    && (n.Dir? ==> (forall c <- n.children :: ValidTree(c)) && DirSize(n.children) < U32_LIMIT)
  }

  /** Sectors taken by the extents of all directories among and below `cs`. */
  function SectorsBelow(cs: seq<Node>): nat {
    if cs == [] then 0
    else (if cs[0].Dir? then Sectors(cs[0]) else 0) + SectorsBelow(cs[1..])
  }

  function Sectors(d: Node): nat
    requires d.Dir?
  {
    DirSize(d.children) / SECTOR + SectorsBelow(d.children)
  }

  /** The tree with consecutive extents from sector `base` on, each directory before its children. */
  function Relocate(d: Node, base: nat): (r: Node)
    requires d.Dir?
    ensures r.Dir? && r.name == d.name && r.lba == base
    decreases d, 0
  {
    Dir(d.name, base, RelocateAll(d.children, base + DirSize(d.children) / SECTOR))
  }

  function RelocateNode(c: Node, base: nat): (r: Node)
    ensures r.name == c.name && r.Dir? == c.Dir?
    decreases c, 1
  {
    if c.Dir? then Relocate(c, base) else c
  }

  function NodeSectors(c: Node): nat {
    if c.Dir? then Sectors(c) else 0
  }

  function RelocateAll(cs: seq<Node>, base: nat): (rs: seq<Node>)
    ensures |rs| == |cs|
    ensures forall i :: 0 <= i < |cs| ==> rs[i].name == cs[i].name && rs[i].Dir? == cs[i].Dir?
    decreases cs, 1
  {
    if cs == [] then []
    else [RelocateNode(cs[0], base)] + RelocateAll(cs[1..], base + NodeSectors(cs[0]))
  }

  lemma RelocateDirSize(cs: seq<Node>, base: nat)
    ensures DirSize(RelocateAll(cs, base)) == DirSize(cs)
  {
    assert ChildLens(RelocateAll(cs, base)) == ChildLens(cs);
  }

  /** Moving extents changes nothing the tree means. */
  lemma {:induction false} RelocateKeeps(cs: seq<Node>, base: nat, prefix: Path, files: seq<Path>, depth: nat)
    ensures Capped(RelocateAll(cs, base), prefix, files, depth) == Capped(cs, prefix, files, depth)
    decreases cs, 2
  {
    hide NodeSectors, RelocateNode, CappedNode;
    if cs != [] {
      var rs := RelocateAll(cs, base);
      assert rs[0] == RelocateNode(cs[0], base) && rs[1..] == RelocateAll(cs[1..], base + NodeSectors(cs[0]));
      RelocateNodeKeeps(cs[0], base, prefix, files, depth);
      RelocateKeeps(cs[1..], base + NodeSectors(cs[0]), prefix, CappedNode(cs[0], prefix, files, depth), depth);
    }
  }

  lemma {:induction false} RelocateNodeKeeps(c: Node, base: nat, prefix: Path, files: seq<Path>, depth: nat)
    ensures CappedNode(RelocateNode(c, base), prefix, files, depth) == CappedNode(c, prefix, files, depth)
    decreases c, 1
  {
    hide DirSize, CleanName, Join, RelocateAll, Capped;
    if c.Dir? {
      RelocateKeeps(c.children, base + DirSize(c.children) / SECTOR, Join(prefix, CleanName(c.name)), files, depth + 1);
    }
  }

  lemma {:induction false} RelocateValid(cs: seq<Node>, base: nat)
    requires forall c <- cs :: ValidTree(c)
    requires base + SectorsBelow(cs) <= U32_LIMIT
    ensures SectorsBelow(RelocateAll(cs, base)) == SectorsBelow(cs)
    ensures forall r <- RelocateAll(cs, base) :: ValidNode(r)
    decreases cs, 1
  {
    if cs != [] {
      var rs := RelocateAll(cs, base);
      assert ValidTree(cs[0]);
      if cs[0].Dir? {
        RelocateDirValid(cs[0], base);
        assert rs[1..] == RelocateAll(cs[1..], base + Sectors(cs[0]));
        RelocateValid(cs[1..], base + Sectors(cs[0]));
      } else {
        assert rs[1..] == RelocateAll(cs[1..], base);
        RelocateValid(cs[1..], base);
      }
      assert rs == [rs[0]] + rs[1..];
    }
  }

  lemma {:induction false} RelocateDirValid(d: Node, base: nat)
    requires d.Dir? && ValidTree(d) && base + Sectors(d) <= U32_LIMIT
    ensures ValidNode(Relocate(d, base)) && Sectors(Relocate(d, base)) == Sectors(d)
    decreases d, 0
  {
    DirSizeInSectors(d.children);
    var inner := base + DirSize(d.children) / SECTOR;
    RelocateDirSize(d.children, inner);
    RelocateValid(d.children, inner);
    assert Relocate(d, base).children == RelocateAll(d.children, inner);
  }

  lemma DirSizeInSectors(cs: seq<Node>)
    ensures DirSize(cs) % SECTOR == 0 && DirSize(cs) >= SECTOR
  {
    LayoutLenInSectors([34, 34] + ChildLens(cs), 0);
    assert DirSize(cs) >= 34;
  }

  lemma {:induction false} LayoutLenInSectors(lens: seq<nat>, pos: nat)
    ensures (pos + LayoutLen(lens, pos)) % SECTOR == 0
    ensures lens != [] ==> LayoutLen(lens, pos) >= lens[0]
    decreases |lens|, Gap(pos)
  {
    if lens == [] {
    } else if Fits(pos, lens[0]) || Gap(pos) == 0 {
      LayoutLenInSectors(lens[1..], pos + lens[0]);
    } else {
      LayoutLenInSectors(lens, pos + Gap(pos));
    }
  }

  /** The extent of `d` followed by those of all directories below it. */
  function Block(d: Node, up: Rec): seq<byte>
    requires d.Dir? && ValidNode(d) && ValidRec(up)
    decreases d, 0
  {
    Extent(d, up) + Blocks(d.children, RecOf(d))
  }

  function Blocks(cs: seq<Node>, up: Rec): seq<byte>
    requires ValidRec(up) && forall c <- cs :: ValidNode(c)
    decreases cs, 1
  {
    if cs == [] then []
    else (if cs[0].Dir? then Block(cs[0], up) else []) + Blocks(cs[1..], up)
  }

  lemma {:induction false} BlocksLength(cs: seq<Node>, up: Rec)
    requires ValidRec(up) && forall c <- cs :: ValidNode(c)
    ensures |Blocks(cs, up)| == SECTOR * SectorsBelow(cs)
    decreases cs
  {
    if cs != [] {
      if cs[0].Dir? {
        BlocksLength(cs[0].children, RecOf(cs[0]));
        DirSizeInSectors(cs[0].children);
        assert |Block(cs[0], up)| == SECTOR * Sectors(cs[0]);
      }
      BlocksLength(cs[1..], up);
    }
  }

  /** Consecutive blocks put every directory where its record says. */
  lemma {:induction false} BlocksPlaced(buf: seq<byte>, cs: seq<Node>, base: nat, up: Rec)
    requires ValidRec(up) && forall c <- cs :: ValidTree(c)
    requires base + SectorsBelow(cs) <= U32_LIMIT
    requires forall r <- RelocateAll(cs, base) :: ValidNode(r)
    requires Holds(buf, base * SECTOR, Blocks(RelocateAll(cs, base), up))
    ensures forall r <- RelocateAll(cs, base) | r.Dir? :: Placed(buf, r, up)
    decreases cs, 1
  {
    hide Placed, Holds, ValidTree, ValidNode, ValidRec, RecOf, RelocateNode, NodeSectors, Blocks, SectorsBelow;
    if cs != [] {
      var rs, base' := RelocateAll(cs, base), base + NodeSectors(cs[0]);
      assert rs[1..] == RelocateAll(cs[1..], base') && rs == [rs[0]] + rs[1..];
      hide RelocateAll;
      HeadPlaced(buf, cs, base, up);
      BlocksPlaced(buf, cs[1..], base', up);
    }
  }

  lemma {:induction false} HeadPlaced(buf: seq<byte>, cs: seq<Node>, base: nat, up: Rec)
    requires cs != [] && ValidRec(up) && forall c <- cs :: ValidTree(c)
    requires base + SectorsBelow(cs) <= U32_LIMIT
    requires forall r <- RelocateAll(cs, base) :: ValidNode(r)
    requires Holds(buf, base * SECTOR, Blocks(RelocateAll(cs, base), up))
    ensures var r := RelocateAll(cs, base)[0]; r.Dir? ==> Placed(buf, r, up)
    ensures var base' := base + NodeSectors(cs[0]);
            && Holds(buf, base' * SECTOR, Blocks(RelocateAll(cs[1..], base'), up))
            && base' + SectorsBelow(cs[1..]) == base + SectorsBelow(cs)
    decreases cs, 0
  {
    hide Placed, Block, Holds, ValidTree, ValidNode, ValidRec, RecOf, Relocate, Sectors;
    var rs, base' := RelocateAll(cs, base), base + NodeSectors(cs[0]);
    assert rs[1..] == RelocateAll(cs[1..], base');
    assert cs[0] in cs && rs[0] in rs;
    if cs[0].Dir? {
      HoldsSplit(buf, base * SECTOR, Block(rs[0], up), Blocks(rs[1..], up));
      BlockPlaced(buf, cs[0], base, up);
    } else {
      assert Blocks(rs, up) == Blocks(rs[1..], up);
    }
  }

  lemma {:induction false} BlockPlaced(buf: seq<byte>, d: Node, base: nat, up: Rec)
    requires d.Dir? && ValidTree(d) && base + Sectors(d) <= U32_LIMIT && ValidRec(up)
    requires ValidNode(Relocate(d, base)) && Holds(buf, base * SECTOR, Block(Relocate(d, base), up))
    ensures Placed(buf, Relocate(d, base), up)
    ensures |Block(Relocate(d, base), up)| == SECTOR * Sectors(d)
    decreases d, 0
  {
    hide Extent, DirSize, Holds, RecOf, RelocateAll, SectorsBelow, Blocks;
    var r := Relocate(d, base);
    var inner := base + DirSize(d.children) / SECTOR;
    DirSizeInSectors(d.children);
    RelocateDirSize(d.children, inner);
    RelocateValid(d.children, inner);
    BlocksLength(r.children, RecOf(r));
    HoldsSplit(buf, base * SECTOR, Extent(r, up), Blocks(r.children, RecOf(r)));
    BlocksPlaced(buf, d.children, inner, RecOf(r));
  }

  lemma HoldsSplit(buf: seq<byte>, at: nat, a: seq<byte>, b: seq<byte>)
    requires Holds(buf, at, a + b)
    ensures Holds(buf, at, a) && Holds(buf, at + |a|, b)
  {
    assert buf[at..at + |a|] == (a + b)[..|a|];
    assert buf[at + |a|..at + |a| + |b|] == (a + b)[|a|..];
  }

  const ROOT_SECTOR := PVD_SECTOR + 1
  const ROOT_NAME: seq<byte> := [0x52]

  function Root(cs: seq<Node>): Node {
    Relocate(Dir(ROOT_NAME, 0, cs), ROOT_SECTOR)
  }

  predicate ValidRoot(cs: seq<Node>) {
    && (forall c <- cs :: ValidTree(c))
    && DirSize(cs) < U32_LIMIT
    && ROOT_SECTOR + DirSize(cs) / SECTOR + SectorsBelow(cs) <= U32_LIMIT
  }

  lemma RootIsValid(cs: seq<Node>)
    requires ValidRoot(cs)
    ensures Root(cs).Dir? && Root(cs).lba == ROOT_SECTOR
    ensures ValidNode(Root(cs)) && DirSize(Root(cs).children) == DirSize(cs)
  {
    DirSizeInSectors(cs);
    RelocateDirSize(cs, ROOT_SECTOR + DirSize(cs) / SECTOR);
    RelocateValid(cs, ROOT_SECTOR + DirSize(cs) / SECTOR);
  }

  lemma RootKeeps(cs: seq<Node>)
    ensures Capped(Root(cs).children, [], [], 0) == Capped(cs, [], [], 0)
  {
    RelocateKeeps(cs, ROOT_SECTOR + DirSize(cs) / SECTOR, [], [], 0);
  }

  /** Section 8.4: type, standard identifier, and the root directory's record at offset 156. */
  function Descriptor(root: Rec): (s: seq<byte>)
    requires ValidRec(root) && |root.name| == 1
    ensures |s| == SECTOR
  {
    [1] + Ascii("CD001") + Zeros(150) + Encode(root) + Zeros(SECTOR - 190)
  }

  /** System area, primary volume descriptor, then the directory extents from sector 17 on. */
  function Image(cs: seq<Node>): seq<byte>
    requires ValidRoot(cs)
  {
    RootIsValid(cs);
    var root := Root(cs);
    Zeros(PVD_SECTOR * SECTOR) + Descriptor(RecOf(root).(name := [0])) + Block(root, RecOf(root))
  }

  lemma DescriptorFields(root: Rec)
    requires ValidRec(root) && |root.name| == 1
    ensures var p := Descriptor(root);
            p[0] == 1 && p[1..6] == Ascii("CD001") && ReadU32Le(p, 158) == root.lba && ReadU32Le(p, 166) == root.size
  {
    var p, e := Descriptor(root), Encode(root);
    assert p[156..190] == e;
    assert p[158..162] == e[2..6] == LeBytes(root.lba);
    assert p[166..170] == e[10..14] == LeBytes(root.size);
    LeRoundTrip(root.lba);
    LeRoundTrip(root.size);
  }

  /** From the built image of any tree whatever the scanner lists the tree's files up to its two caps. */
  lemma ImageIsCapped(cs: seq<Node>)
    requires ValidRoot(cs)
    ensures FilesIn(Image(cs)) == Capped(cs, [], [], 0)
  {
    RootIsValid(cs);
    ImageDescriptor(cs);
    ImagePlaced(cs);
    RootKeeps(cs);
    hide Image, Capped, Walk, Placed;
    WalkPlaced(Image(cs), Root(cs), RecOf(Root(cs)), [], [], 0);
  }

  /**
   * The scanner inverts the builder: from the built image of any tree of at most 4096 files
   * nesting at most 8 directories below the root, it lists exactly the tree's files, and so
   * passes the image exactly when the tree has no executable or script by extension.
   */
  lemma ImageRoundTrip(cs: seq<Node>)
    requires ValidRoot(cs) && FileCount(cs) <= 4096 && Nesting(cs) <= 8
    ensures FilesIn(Image(cs)) == PreOrder(cs, [])
    ensures NothingListed(FilesIn(Image(cs))) <==> NothingListed(PreOrder(cs, []))
  {
    ImageIsCapped(cs);
    CapsAreComplete(cs, 0, 0);
    CompleteIsPreOrder(cs, [], [], 0);
    hide Image, FilesIn, Capped, PreOrder;
    assert [] + PreOrder(cs, []) == PreOrder(cs, []);
  }

  /** For every tree: all its files are listed exactly when every directory with a file below it is entered. */
  lemma ImageIsListedExactly(cs: seq<Node>)
    requires ValidRoot(cs)
    ensures FilesIn(Image(cs)) == PreOrder(cs, []) <==> Complete(cs, 0, 0)
  {
    ImageIsCapped(cs);
    CappedLength(cs, [], [], 0);
    PreOrderCount(cs, []);
    if Complete(cs, 0, 0) {
      CompleteIsPreOrder(cs, [], [], 0);
    }
    hide Image, FilesIn, Capped, PreOrder;
    assert [] + PreOrder(cs, []) == PreOrder(cs, []);
  }

  lemma ImagePlaced(cs: seq<Node>)
    requires ValidRoot(cs)
    ensures ValidNode(Root(cs)) && Placed(Image(cs), Root(cs), RecOf(Root(cs)))
  {
    RootIsValid(cs);
    var buf, root := Image(cs), Root(cs);
    assert Holds(buf, ROOT_SECTOR * SECTOR, Block(root, RecOf(root)));
    BlockPlaced(buf, Dir(ROOT_NAME, 0, cs), ROOT_SECTOR, RecOf(root));
  }

  lemma ImageDescriptor(cs: seq<Node>)
    requires ValidRoot(cs)
    ensures var buf := Image(cs);
            && IsIsoImage(buf)
            && FilesIn(buf) == Walk(buf, ROOT_SECTOR, DirSize(cs), [], [], 0)
  {
    hide Descriptor, Block, DirSize, Walk, Encode, LeValue;
    RootIsValid(cs);
    var buf, root := Image(cs), RecOf(Root(cs)).(name := [0]);
    DescriptorFields(root);
    DescriptorInImage(buf, Descriptor(root), Block(Root(cs), RecOf(Root(cs))));
  }

  /** What the scanner reads from the descriptor's sector is what the descriptor holds. */
  lemma DescriptorInImage(buf: seq<byte>, desc: seq<byte>, rest: seq<byte>)
    requires |desc| == SECTOR && buf == Zeros(PVD_SECTOR * SECTOR) + desc + rest
    ensures var at := PVD_SECTOR * SECTOR;
            var pvd := buf[at..];
            && |buf| >= at + SECTOR && buf[at] == desc[0] && buf[at + 1..at + 6] == desc[1..6]
            && ReadU32Le(pvd, 158) == ReadU32Le(desc, 158) && ReadU32Le(pvd, 166) == ReadU32Le(desc, 166)
  {
    hide LeValue;
    var at := PVD_SECTOR * SECTOR;
    var pvd := buf[at..];
    assert pvd == desc + rest;
    assert buf[at + 1..at + 6] == pvd[1..6] == desc[1..6];
    assert pvd[158..162] == desc[158..162] && pvd[166..170] == desc[166..170];
  }

  // ---------------------------------------------------------------- an executable that is passed over

  const EXE_NAME: seq<byte> := [0x61, 0x2E, 0x65, 0x78, 0x65]
  const DIR_NAME: seq<byte> := [0x64]

  /** A file `a.exe` below `k` directories, each in the one before. */
  function Chain(k: nat): Node {
    if k == 0 then File(EXE_NAME, 0, 0) else Dir(DIR_NAME, 0, [Chain(k - 1)])
  }

  lemma OneChildSize(c: Node)
    requires |c.name| <= 5
    ensures DirSize([c]) == SECTOR
  {
    var r := RecLen(c.name);
    assert [34, 34] + ChildLens([c]) == [34, 34, r];
    assert [34, 34, r][1..] == [34, r] && [34, r][1..] == [r] && [r][1..] == [];
    LayoutLenFits([34, 34, r], 0);
    LayoutLenFits([34, r], 34);
    LayoutLenFits([r], 68);
  }

  lemma LayoutLenFits(lens: seq<nat>, pos: nat)
    requires lens != [] && Fits(pos, lens[0])
    ensures LayoutLen(lens, pos) == lens[0] + LayoutLen(lens[1..], pos + lens[0])
  {}

  lemma {:induction false} ChainIsValid(k: nat)
    ensures ValidTree(Chain(k)) && |Chain(k).name| <= 5 && SectorsBelow([Chain(k)]) == k
  {
    hide DirSize;
    if k > 0 {
      ChainIsValid(k - 1);
      OneChildSize(Chain(k - 1));
      assert [Chain(k)][1..] == [];
      assert Sectors(Chain(k)) == 1 + SectorsBelow([Chain(k - 1)]);
    } else {
      assert [Chain(0)][1..] == [];
    }
  }

  /** No walk that starts deep enough reaches the end of a chain. */
  lemma {:induction false} ChainIsPassedOver(k: nat, prefix: Path, files: seq<Path>, depth: nat)
    requires depth <= MAX_DEPTH < depth + k
    ensures Capped([Chain(k)], prefix, files, depth) == files
    decreases k
  {
    var c := Chain(k);
    assert [c][1..] == [];
    if depth < MAX_DEPTH && |files| < MAX_FILES {
      ChainIsPassedOver(k - 1, Join(prefix, CleanName(c.name)), files, depth + 1);
    }
  }

  lemma {:induction false} ChainHasExecutable(k: nat, prefix: Path)
    ensures exists f :: f in PreOrder([Chain(k)], prefix) && IsExecutable(f)
    decreases k
  {
    var c := Chain(k);
    var path := Join(prefix, CleanName(c.name));
    assert [c][1..] == [] && PreOrder([c], prefix) == NodePaths(c, prefix) + [];
    if k == 0 {
      ExeNameIsClean();
      JoinKeepsExtension(prefix);
      assert path in NodePaths(c, prefix);
    } else {
      ChainHasExecutable(k - 1, path);
    }
  }

  lemma ExeNameIsClean()
    ensures CleanName(EXE_NAME) == EXE_NAME
  {
    assert EXE_NAME == [EXE_NAME[0]] + [EXE_NAME[1]] + [EXE_NAME[2]] + [EXE_NAME[3]] + [EXE_NAME[4]];
    assert forall i :: 0 <= i < 5 ==> EXE_NAME[i] != SEMICOLON;
    var b := Before(EXE_NAME, SEMICOLON);
    assert b == EXE_NAME;
  }

  const EXE: seq<byte> := [0x65, 0x78, 0x65]

  lemma JoinKeepsExtension(prefix: Path)
    ensures IsExecutable(Join(prefix, EXE_NAME))
  {
    var stem := Join(prefix, [0x61]);
    assert Join(prefix, EXE_NAME) == stem + [DOT] + EXE;
    hide AfterLast, Join, IsExecutable;
    assert DOT != EXE[0] && DOT != EXE[1] && DOT != EXE[2];
    AfterLastDot(stem, EXE);
    ExtensionIsListed(Join(prefix, EXE_NAME));
  }

  lemma ExtensionIsListed(path: Path)
    requires AfterLast(path, DOT) == EXE
    ensures IsExecutable(path)
  {
    hide AfterLast;
    assert Ascii(EXECUTABLE_EXTS[0]) == LowerAll(EXE);
  }

  lemma {:induction false} AfterLastDot(stem: seq<byte>, ext: seq<byte>)
    requires DOT !in ext
    ensures AfterLast(stem + [DOT] + ext, DOT) == ext
    decreases |ext|
  {
    var s := stem + [DOT] + ext;
    if ext != [] {
      var n := |ext| - 1;
      AfterLastDot(stem, ext[..n]);
      assert s[..|s| - 1] == stem + [DOT] + ext[..n] && s[|s| - 1] == ext[n];
    }
  }

  /** A tree with an executable nine directories down, whose image the scanner passes. */
  lemma DeepExecutableIsMissed()
    ensures var cs := [Chain(9)];
            ValidRoot(cs) && NothingListed(FilesIn(Image(cs))) && !NothingListed(PreOrder(cs, []))
  {
    var cs := [Chain(9)];
    ChainIsValid(9);
    OneChildSize(Chain(9));
    ImageIsCapped(cs);
    ChainIsPassedOver(9, [], [], 0);
    ChainHasExecutable(9, []);
    hide Image, FilesIn, Chain, IsExecutable, IsScript, DirSize, SectorsBelow, ValidTree, PreOrder, Capped;
    assert ValidRoot(cs);
  }
}

/** What the signature block guarantees between its writer, its readers and the controller. */
module SignedBlockLaws {
  import opened Bytes
  import opened Wrappers
  import opened Base64
  import opened SignedBlock
  import C = Controller

  // ---------------------------------------------------------------- the text

  lemma {:induction false} PartsOfPlain(s: Text)
    requires BAR !in s
    ensures Parts(s) == [s]
    decreases |s|
  {
    if s != [] {
      assert s == [s[0]] + s[1..];
      PartsOfPlain(s[1..]);
    }
  }

  lemma {:induction false} PartsOfJoined(a: Text, b: Text)
    requires BAR !in a
    ensures Parts(a + [BAR] + b) == [a] + Parts(b)
    decreases |a|
  {
    var s := a + [BAR] + b;
    if a == [] {
      assert s[1..] == b;
    } else {
      assert s[1..] == a[1..] + [BAR] + b && [a[0]] + a[1..] == a;
      PartsOfJoined(a[1..], b);
    }
  }

  /** Splitting loses nothing: the first part, and what is left after the separator. */
  lemma {:induction false} FirstPart(s: Text) returns (rest: Text)
    ensures BAR !in Parts(s)[0]
    ensures |Parts(s)| == 1 ==> s == Parts(s)[0]
    ensures |Parts(s)| > 1 ==> s == Parts(s)[0] + [BAR] + rest && Parts(rest) == Parts(s)[1..]
    decreases |s|
  {
    rest := [];
    if s != [] {
      assert s == [s[0]] + s[1..];
      if s[0] == BAR {
        rest := s[1..];
      } else {
        rest := FirstPart(s[1..]);
      }
    }
  }

  lemma EncodedHasNoBar(x: seq<byte>)
    ensures BAR !in Encode(x)
  {
    EncodedPrintable(x);
    assert !Printable(BAR);
  }

  /** The text of a pair and, in the daemon, anything behind a further separator. */
  predicate Spells(text: Text, p: Pair, exact: bool) {
    || text == Render(p)
    || (!exact && Render(p) + [BAR] <= text)
  }

  predicate Acceptable(p: Pair, limit: nat) { |p.classic| == 64 && |p.pq| <= limit }

  lemma SpelledParses(text: Text, p: Pair, exact: bool, limit: nat)
    requires Spells(text, p, exact) && Acceptable(p, limit)
    ensures ParsePair(text, exact, limit) == Ok(p)
  {
    hide Encode, Decode, Parts;
    var a, b := Encode(p.classic), Encode(p.pq);
    EncodedHasNoBar(p.classic);
    EncodedHasNoBar(p.pq);
    RoundTrip(p.classic);
    RoundTrip(p.pq);
    if text == Render(p) {
      PartsOfJoined(a, b);
      PartsOfPlain(b);
    } else {
      var tail := text[|Render(p)| + 1..];
      assert text == a + [BAR] + (b + [BAR] + tail);
      PartsOfJoined(a, b + [BAR] + tail);
      PartsOfJoined(b, tail);
    }
  }

  lemma ParsedSpells(text: Text, exact: bool, limit: nat)
    requires ParsePair(text, exact, limit).Ok?
    ensures var p := ParsePair(text, exact, limit).value; Spells(text, p, exact) && Acceptable(p, limit)
  {
    hide Encode, Decode, Parts;
    var parts, p := Parts(text), ParsePair(text, exact, limit).value;
    Canonical(parts[0]);
    Canonical(parts[1]);
    var rest := FirstPart(text);
    var rest' := FirstPart(rest);
    if |parts| > 2 {
      assert text == parts[0] + [BAR] + (parts[1] + [BAR] + rest');
      assert text[..|Render(p)| + 1] == Render(p) + [BAR];
    }
  }

  /** A reader takes a text as a pair exactly when the signer writes that text for that pair. */
  lemma ParsesExactly(text: Text, p: Pair, exact: bool, limit: nat)
    ensures ParsePair(text, exact, limit) == Ok(p) <==> Spells(text, p, exact) && Acceptable(p, limit)
  {
    if Spells(text, p, exact) && Acceptable(p, limit) {
      SpelledParses(text, p, exact, limit);
    }
    if ParsePair(text, exact, limit).Ok? {
      ParsedSpells(text, exact, limit);
    }
  }

  /** The size limit of the readers is, for a 64-byte classic signature, a limit on the other one. */
  lemma FitsExactly(p: Pair)
    requires |p.classic| == 64
    ensures |Render(p)| <= MAX_TEXT <==> |p.pq| <= 5694
    ensures MAX_TEXT == 7684 && MAX_PQ == 5694
  {
    hide Encode;
    EncodedLength(p.classic);
    EncodedLength(p.pq);
    var quads := (|p.pq| + 2) / 3;
    assert |Render(p)| == 89 + 4 * quads;
    assert quads <= 1898 <==> |p.pq| <= MAX_PQ;
  }

  lemma {:induction false} AsciiIsUtf8(s: Text)
    requires forall i :: 0 <= i < |s| ==> s[i] < 0x80
    ensures Utf8(s)
    decreases |s|
  {
    if s != [] {
      AsciiIsUtf8(s[1..]);
    }
  }

  lemma RenderIsUtf8(p: Pair)
    ensures Utf8(Render(p))
  {
    EncodedPrintable(p.classic);
    EncodedPrintable(p.pq);
    var a, b := Encode(p.classic), Encode(p.pq);
    forall i | 0 <= i < |Render(p)|
      ensures Render(p)[i] < 0x80
    {
      var c := Render(p)[i];
      assert c in a || c == BAR || c in b;
    }
    AsciiIsUtf8(Render(p));
  }

  // ---------------------------------------------------------------- the disk

  /** The block for `text` is on the disk. */
  predicate Holds(disk: Text, text: Text) {
    Readable(disk, |text|) && disk[OFFSET..OFFSET + 4 + |text|] == Block(text)
  }

  lemma WrittenHolds(disk: Text, text: Text)
    requires Readable(disk, |text|)
    ensures Holds(Overwritten(disk, OFFSET, Block(text)), text)
  {
    hide BeBytes;
  }

  /** What is written replaces the bytes at its place, as far as the disk goes, and no others. */
  lemma OverwrittenAt(disk: Text, at: nat, data: Text, i: nat)
    requires i < |disk|
    ensures Overwritten(disk, at, data)[i] == if at <= i < at + |data| then data[i - at] else disk[i]
  {}

  /**
   * The bytes of the disk after a text was written: its length at 512, highest byte first, the
   * text from 516 on, and everything else as before.
   */
  lemma WrittenBytes(before: Text, text: Text)
    requires 516 + |text| <= |before| && |text| < 0x1_0000_0000
    ensures var disk := Overwritten(before, OFFSET, Block(text));
            && Readable(before, |text|) && |disk| == |before|
            && Number(disk[512..516]) == |text| && disk[516..516 + |text|] == text
            && disk[..512] == before[..512] && disk[516 + |text|..] == before[516 + |text|..]
  {
    var disk, b := Overwritten(before, OFFSET, Block(text)), BeBytes(|text|);
    assert |text| % U32_LIMIT == |text|;
    NumberOfBe(|text|);
    hide BeBytes;
    assert disk == before[..512] + (b + text) + before[516 + |text|..];
    assert disk[512..516] == b;
  }

  /** The number four bytes spell, highest first. */
  function Number(d: seq<int>): int
    requires |d| == 4
  {
    d[0] * 0x100_0000 + d[1] * 0x1_0000 + d[2] * 0x100 + d[3]
  }

  lemma NumberOfBe(n: int)
    requires 0 <= n < U32_LIMIT
    ensures Number(BeBytes(n)) == n
  {
    LeRoundTrip(n);
  }

  /** The two signatures of a block are 88 characters, a bar, and the rest; a revoked device holds 7683 zeros as text. */
  lemma TextBytes(p: Pair)
    requires |p.classic| == 64
    ensures |Render(p)| >= 89 && Render(p)[88] == 0x7C && Render(p)[..88] == Encode(p.classic) && Render(p)[89..] == Encode(p.pq)
    ensures |Blank()| == 7683 && forall i :: 0 <= i < 7683 ==> Blank()[i] == 0x30
  {
    hide Encode;
    EncodedLength(p.classic);
  }

  lemma HeldIsStored(disk: Text, text: Text)
    requires Holds(disk, text) && |text| < U32_LIMIT
    ensures StoredSize(disk) == |text| && StoredText(disk) == text
  {
    hide BeBytes, BeValue;
    var n := |text|;
    BeRoundTrip(n);
    assert n % U32_LIMIT == n;
    SliceOfSlice(disk, OFFSET, OFFSET + 4 + n, 0, 4);
    SliceOfSlice(disk, OFFSET, OFFSET + 4 + n, 4, 4 + n);
    assert Block(text)[0..4] == BeBytes(n) && Block(text)[4..4 + n] == text;
  }

  lemma BeValueBytes(b: seq<byte>)
    requires |b| == 4
    ensures BeBytes(BeValue(b)) == b
  {
    var n, b: seq<int> := BeValue(b), b;
    assert n / 0x100 == b[2] + 0x100 * b[1] + 0x1_0000 * b[0];
    assert n / 0x1_0000 == b[1] + 0x100 * b[0];
    assert n / 0x100_0000 == b[0];
  }

  lemma StoredIsHeld(disk: Text)
    requires Readable(disk, 0) && Readable(disk, StoredSize(disk))
    ensures Holds(disk, StoredText(disk))
  {
    hide BeBytes, BeValue;
    var n := StoredSize(disk);
    BeValueBytes(disk[OFFSET..OFFSET + 4]);
    assert n % U32_LIMIT == n;
    assert disk[OFFSET..OFFSET + 4 + n] == disk[OFFSET..OFFSET + 4] + StoredText(disk);
  }

  /**
   * The station reads a pair from a disk exactly when the block the signer writes for that pair
   * is there: it accepts every such block and nothing else, on all disks.
   */
  lemma StationReadsExactlyTheWritten(disk: Text, p: Pair, limit: nat)
    ensures StationRead(disk, limit) == Ok(p) <==>
            Acceptable(p, limit) && |p.pq| <= MAX_PQ && Holds(disk, Render(p))
  {
    hide Utf8, BeValue, Parts, Decode, Encode, ParsePair, Holds, Render;
    if StationRead(disk, limit) == Ok(p) {
      ParsesExactly(StoredText(disk), p, true, limit);
      StoredIsHeld(disk);
      FitsExactly(p);
    }
    if Acceptable(p, limit) && |p.pq| <= MAX_PQ && Holds(disk, Render(p)) {
      FitsExactly(p);
      HoldsReadable(disk, Render(p));
      HeldIsStored(disk, Render(p));
      RenderIsUtf8(p);
      SpelledParses(Render(p), p, true, limit);
    }
  }

  lemma HoldsReadable(disk: Text, text: Text)
    requires Holds(disk, text)
    ensures Readable(disk, 0) && Readable(disk, |text|)
  {}

  /** What the daemon makes of a text: `None` is an event that is dropped. */
  function Parsed(read: Result<Option<Text>>, limit: nat): Option<Result<Pair>> {
    match read
    case Err => None
    case Ok(None) => None
    case Ok(Some(text)) => Some(ParsePair(text, false, limit))
  }

  /** One signed block, three readers: each recovers exactly the pair that was signed. */
  lemma AllReadersRecoverThePair(before: Text, p: Pair, limit: nat)
    requires Acceptable(p, limit) && |p.pq| <= MAX_PQ && Readable(before, |Render(p)|)
    ensures var disk := Overwritten(before, OFFSET, Block(Render(p)));
            && StationRead(disk, limit) == Ok(p)
            && LinuxRead(disk) == WindowsRead(disk) == Ok(Some(Render(p)))
            && Parsed(LinuxRead(disk), limit) == Some(Ok(p))
  {
    hide Utf8, StoredSize, StoredText, ParsePair, Holds, Overwritten, Block, Parts, Decode, Encode;
    var disk := Overwritten(before, OFFSET, Block(Render(p)));
    WrittenHolds(before, Render(p));
    HoldsReadable(disk, Render(p));
    StationReadsExactlyTheWritten(disk, p, limit);
    FitsExactly(p);
    HeldIsStored(disk, Render(p));
    RenderIsUtf8(p);
    SpelledParses(Render(p), p, false, limit);
  }

  /** Beyond the limit every reader refuses what the signer wrote: the daemons see an unsigned device. */
  lemma TooLongIsRefused(before: Text, p: Pair, limit: nat)
    requires |p.classic| == 64 && |p.pq| > MAX_PQ && |Render(p)| < U32_LIMIT && Readable(before, |Render(p)|)
    ensures var disk := Overwritten(before, OFFSET, Block(Render(p)));
            StationRead(disk, limit) == Err && LinuxRead(disk) == WindowsRead(disk) == Ok(None)
  {
    hide Utf8, StoredSize, StoredText, ParsePair, Holds, Overwritten, Block, Parts, Decode, Encode, Render;
    var disk := Overwritten(before, OFFSET, Block(Render(p)));
    WrittenHolds(before, Render(p));
    HoldsReadable(disk, Render(p));
    FitsExactly(p);
    HeldIsStored(disk, Render(p));
  }

  /** On every disk the two daemons read the same, unless the stored length is zero. */
  lemma DaemonsDifferExactlyOnZeroLength(disk: Text)
    ensures LinuxRead(disk) == WindowsRead(disk) <==> !(Readable(disk, 0) && StoredSize(disk) == 0)
  {
    hide StoredSize;
  }

  /** Station and daemon agree on every disk, up to parts the daemon ignores. */
  lemma StationAgreesWithDaemon(disk: Text, p: Pair, limit: nat)
    ensures StationRead(disk, limit) == Ok(p) <==>
            && Parsed(LinuxRead(disk), limit) == Some(Ok(p))
            && |Parts(LinuxRead(disk).value.value)| == 2
  {
    hide Utf8, StoredSize, StoredText, Parts, Decode, Encode;
  }

  // ---------------------------------------------------------------- the verdict

  /** The fields of a device that are signed, as the system reports them. */
  datatype Fields = Fields(vendor: Text, model: Text, revision: Text, serial: Text)

  const SLASH: byte := 0x2F
  const OUT: Text := [0x6F, 0x75, 0x74]

  /** What is signed: the fields and a direction, joined by slashes. */
  function Spelled(d: Fields, direction: Text): Text {
    d.vendor + [SLASH] + d.model + [SLASH] + d.revision + [SLASH] + d.serial + [SLASH] + direction
  }

  /** What every reader checks a signature against. */
  function Identity(d: Fields): Text {
    Spelled(d, OUT)
  }

  predicate SlashFree(d: Fields) {
    SLASH !in d.vendor && SLASH !in d.model && SLASH !in d.revision && SLASH !in d.serial
  }

  lemma EarlierSlash(a: Text, x: Text, b: Text, y: Text)
    requires SLASH !in b && |a| < |b|
    ensures a + [SLASH] + x != b + [SLASH] + y
  {
    assert (a + [SLASH] + x)[|a|] == SLASH;
    assert (b + [SLASH] + y)[|a|] == b[|a|];
  }

  lemma FirstSlash(a: Text, x: Text, b: Text, y: Text)
    requires SLASH !in a && SLASH !in b && a + [SLASH] + x == b + [SLASH] + y
    ensures a == b && x == y
  {
    if |a| < |b| {
      EarlierSlash(a, x, b, y);
    } else if |b| < |a| {
      EarlierSlash(b, y, a, x);
    } else {
      var s, t := a + [SLASH] + x, b + [SLASH] + y;
      assert a == s[..|a|] && b == t[..|b|];
      assert x == s[|a| + 1..] && y == t[|b| + 1..];
    }
  }

  lemma SlashCount(d: Fields, direction: Text)
    ensures multiset(Spelled(d, direction))[SLASH] ==
            4 + multiset(d.vendor)[SLASH] + multiset(d.model)[SLASH] + multiset(d.revision)[SLASH]
            + multiset(d.serial)[SLASH] + multiset(direction)[SLASH]
  {
    var a := d.vendor + [SLASH] + d.model;
    var b := a + [SLASH] + d.revision;
    assert Spelled(d, direction) == b + [SLASH] + d.serial + [SLASH] + direction;
  }

  /** A text spelled from slash-free parts is spelled from no other parts at all. */
  lemma SpellingIsInjective(d: Fields, direction: Text, e: Fields, direction': Text)
    requires SlashFree(d) && SLASH !in direction && Spelled(d, direction) == Spelled(e, direction')
    ensures d == e && direction == direction'
  {
    hide Spelled, SlashFree;
    NoOtherSlash(d, direction, e, direction');
    var s, t := Rest(d.serial, direction), Rest(e.serial, direction');
    var d2, e2 := Rest(d.revision, s), Rest(e.revision, t);
    var d1, e1 := Rest(d.model, d2), Rest(e.model, e2);
    SpelledNested(d, direction);
    SpelledNested(e, direction');
    FirstSlash(d.vendor, d1, e.vendor, e1);
    FirstSlash(d.model, d2, e.model, e2);
    FirstSlash(d.revision, s, e.revision, t);
    FirstSlash(d.serial, direction, e.serial, direction');
  }

  function Rest(field: Text, rest: Text): Text { field + [SLASH] + rest }

  lemma SpelledNested(d: Fields, direction: Text)
    ensures Spelled(d, direction) == Rest(d.vendor, Rest(d.model, Rest(d.revision, Rest(d.serial, direction))))
  {}

  lemma NoOtherSlash(d: Fields, direction: Text, e: Fields, direction': Text)
    requires SlashFree(d) && SLASH !in direction && Spelled(d, direction) == Spelled(e, direction')
    ensures SLASH !in d.vendor && SLASH !in d.model && SLASH !in d.revision && SLASH !in d.serial
    ensures SLASH !in e.vendor && SLASH !in e.model && SLASH !in e.revision && SLASH !in e.serial && SLASH !in direction'
  {
    hide Spelled;
    SlashCount(d, direction);
    SlashCount(e, direction');
  }

  /** The two sides of some slash. */
  lemma CutAtSlash(t: Text) returns (a: Text, b: Text)
    requires SLASH in t
    ensures t == a + [SLASH] + b
  {
    var i :| 0 <= i < |t| && t[i] == SLASH;
    a, b := t[..i], t[i + 1..];
  }

  /** A slash in any field can be moved to another field: a different device with the same identity. */
  lemma SlashCollides(d: Fields) returns (e: Fields)
    requires !SlashFree(d)
    ensures e != d && Identity(e) == Identity(d)
  {
    if SLASH in d.vendor {
      var a, b := CutAtSlash(d.vendor);
      e := Fields(a, b, d.model, d.revision + [SLASH] + d.serial);
      assert |e.vendor| < |d.vendor|;
    } else if SLASH in d.model {
      var a, b := CutAtSlash(d.model);
      e := Fields(d.vendor + [SLASH] + a, b, d.revision, d.serial);
      assert |e.vendor| > |d.vendor|;
    } else if SLASH in d.revision {
      var a, b := CutAtSlash(d.revision);
      e := Fields(d.vendor + [SLASH] + d.model, a, b, d.serial);
      assert |e.vendor| > |d.vendor|;
    } else {
      var a, b := CutAtSlash(d.serial);
      e := Fields(d.vendor + [SLASH] + d.model, d.revision, a, b);
      assert |e.vendor| > |d.vendor|;
    }
    assert Identity(e) == Identity(d);
  }

  /** A device shares its identity with no other exactly when none of its four fields holds a slash. */
  lemma IdentityIsUniqueExactly(d: Fields)
    ensures (forall e :: Identity(e) == Identity(d) ==> e == d) <==> SlashFree(d)
  {
    if SlashFree(d) {
      forall e | Identity(e) == Identity(d)
        ensures e == d
      {
        SpellingIsInjective(d, OUT, e, OUT);
      }
    } else {
      var e := SlashCollides(d);
    }
  }

  /** The parts of a text between slashes. */
  function Split(t: Text): (parts: seq<Text>)
    ensures |parts| >= 1
    decreases |t|
  {
    if t == [] then [[]]
    else
      var rest := Split(t[1..]);
      if t[0] == 0x2F then [[]] + rest else [[t[0]] + rest[0]] + rest[1..]
  }

  lemma {:induction false} SplitJoined(a: Text, b: Text)
    requires 0x2F !in a
    ensures Split(a + [0x2F] + b) == [a] + Split(b)
    decreases |a|
  {
    var t := a + [0x2F] + b;
    if a == [] {
      assert t[1..] == b;
    } else {
      assert t[1..] == a[1..] + [0x2F] + b && [a[0]] + a[1..] == a;
      SplitJoined(a[1..], b);
    }
  }

  lemma {:induction false} SplitPlain(a: Text)
    requires 0x2F !in a
    ensures Split(a) == [a]
    decreases |a|
  {
    if a != [] {
      assert a == [a[0]] + a[1..];
      SplitPlain(a[1..]);
    }
  }

  /** Between its slashes an identity reads vendor, model, revision, serial number and the word "out", in this order. */
  lemma IdentityReads(d: Fields)
    requires SlashFree(d)
    ensures Split(Identity(d)) == [d.vendor, d.model, d.revision, d.serial, [0x6F, 0x75, 0x74]]
  {
    var d4 := d.serial + [0x2F] + OUT;
    var d3 := d.revision + [0x2F] + d4;
    var d2 := d.model + [0x2F] + d3;
    assert Identity(d) == d.vendor + [0x2F] + d2;
    hide Identity, Split, SlashFree;
    NoSlashes(d);
    SplitJoined(d.vendor, d2);
    SplitJoined(d.model, d3);
    SplitJoined(d.revision, d4);
    SplitJoined(d.serial, OUT);
    SplitPlain(OUT);
  }

  lemma NoSlashes(d: Fields)
    requires SlashFree(d)
    ensures 0x2F !in d.vendor && 0x2F !in d.model && 0x2F !in d.revision && 0x2F !in d.serial
  {}

  /** Verification under the certified keys of the two schemes. */
  datatype Keys = Keys(classic: (Text, Text) -> bool, pq: (Text, Text) -> bool)

  /** Ideal: no signature verifies for two of the messages in play. */
  ghost predicate Ideal(verify: (Text, Text) -> bool, messages: set<Text>) {
    forall m, m', s :: m in messages && m' in messages && verify(m, s) && verify(m', s) ==> m == m'
  }

  predicate Verifies(k: Keys, m: Text, p: Pair) {
    k.classic(m, p.classic) && k.pq(m, p.pq)
  }

  /** The station's check. */
  predicate IsSigned(k: Keys, disk: Text, d: Fields, limit: nat) {
    match StationRead(disk, limit)
    case Ok(p) => Verifies(k, Identity(d), p)
    case Err => false
  }

  /** The daemon's: `None` when the read failed and the event is dropped. */
  function Verdict(k: Keys, read: Result<Option<Text>>, d: Fields, limit: nat): Option<C.Signature> {
    match read
    case Err => None
    case Ok(None) => Some(C.Absent)
    case Ok(Some(text)) =>
      match ParsePair(text, false, limit)
      case Err => Some(C.Malformed)
      case Ok(p) => Some(if Verifies(k, Identity(d), p) then C.Valid else C.Invalid)
  }

  /**
   * A block made for `owner` and a direction is accepted for a device exactly when that is the
   * identity it presents. When the owner's fields and the direction hold no slash, that is the
   * owner and the direction is outwards, whatever the presenting device reports. Windows reports
   * other fields (`w`) for a device than the udev fields (`d`) the station and Linux use. It is
   * enough that one of the two schemes is ideal.
   */
  lemma BlockVerifiesOnlyForItsDevice(
    k: Keys, messages: set<Text>, before: Text, p: Pair, owner: Fields, direction: Text, d: Fields, w: Fields, limit: nat)
    requires Ideal(k.classic, messages) || Ideal(k.pq, messages)
    requires Spelled(owner, direction) in messages && Identity(d) in messages && Identity(w) in messages
    requires Verifies(k, Spelled(owner, direction), p)
    requires Acceptable(p, limit) && |p.pq| <= MAX_PQ && Readable(before, |Render(p)|)
    ensures var disk := Overwritten(before, OFFSET, Block(Render(p)));
            && (IsSigned(k, disk, d, limit) <==> Identity(d) == Spelled(owner, direction))
            && Verdict(k, LinuxRead(disk), d, limit) == Some(if Identity(d) == Spelled(owner, direction) then C.Valid else C.Invalid)
            && Verdict(k, WindowsRead(disk), w, limit) == Some(if Identity(w) == Spelled(owner, direction) then C.Valid else C.Invalid)
    ensures SlashFree(owner) && SLASH !in direction ==>
              && (Identity(d) == Spelled(owner, direction) <==> d == owner && direction == OUT)
              && (Identity(w) == Spelled(owner, direction) <==> w == owner && direction == OUT)
  {
    hide StationRead, LinuxRead, WindowsRead, ParsePair, Overwritten, Block, Render, Spelled;
    AllReadersRecoverThePair(before, p, limit);
    if SlashFree(owner) && SLASH !in direction {
      if Identity(d) == Spelled(owner, direction) {
        SpellingIsInjective(owner, direction, d, OUT);
      }
      if Identity(w) == Spelled(owner, direction) {
        SpellingIsInjective(owner, direction, w, OUT);
      }
    }
  }

  /** An outward block is safe from every other device in play exactly when its owner's fields hold no slash. */
  lemma BlockBindsExactly(k: Keys, messages: set<Text>, before: Text, p: Pair, owner: Fields, limit: nat)
    requires Ideal(k.classic, messages) || Ideal(k.pq, messages)
    requires Identity(owner) in messages && Verifies(k, Identity(owner), p)
    requires Acceptable(p, limit) && |p.pq| <= MAX_PQ && Readable(before, |Render(p)|)
    ensures var disk := Overwritten(before, OFFSET, Block(Render(p)));
            (forall d :: Identity(d) in messages && IsSigned(k, disk, d, limit) ==> d == owner) <==> SlashFree(owner)
  {
    hide IsSigned, Overwritten, Block, Render, Identity;
    var disk := Overwritten(before, OFFSET, Block(Render(p)));
    forall d | Identity(d) in messages
      ensures IsSigned(k, disk, d, limit) <==> Identity(d) == Identity(owner)
    {
      IdentityIsSpelled(owner);
      BlockVerifiesOnlyForItsDevice(k, messages, before, p, owner, OUT, d, d, limit);
    }
    IdentityIsUniqueExactly(owner);
  }

  lemma IdentityIsSpelled(d: Fields)
    ensures Identity(d) == Spelled(d, OUT)
  {}

  // ---------------------------------------------------------------- revocation

  lemma BlankIsMalformed(exact: bool, limit: nat)
    ensures ParsePair(Blank(), exact, limit).Err? && Utf8(Blank())
  {
    hide Decode;
    AsciiIsUtf8(Blank());
    PartsOfPlain(Blank());
  }

  /**
   * After revocation the station refuses the device whatever the keys, and the controller leaves
   * every device it does not already allow blocked under every policy; one that the user has
   * already allowed is still let through.
   */
  lemma RevokedIsBlocked(k: Keys, before: Text, d: Fields, limit: nat, policy: C.Policy, t: C.Tables, device: C.Device)
    requires Readable(before, 7683)
    ensures var disk := Overwritten(before, OFFSET, Block(Blank()));
            && !IsSigned(k, disk, d, limit)
            && Verdict(k, LinuxRead(disk), d, limit) == Verdict(k, WindowsRead(disk), d, limit) == Some(C.Malformed)
            && var (t', r) := C.Authorize(policy, t, device, C.Malformed);
               if device.id !in t.unmounted || t.unmounted[device.id].auth == C.Block
               then t' == t.(unmounted := t.unmounted[device.id := C.Entry(device, C.Block)]) && r == Err
               else t' == t && r == Ok(t.unmounted[device.id].auth != C.Pending)
  {
    hide Utf8, StoredSize, StoredText, ParsePair, Holds, Overwritten, Block, Parts, Decode, Encode, Identity;
    var disk := Overwritten(before, OFFSET, Block(Blank()));
    WrittenHolds(before, Blank());
    HoldsReadable(disk, Blank());
    HeldIsStored(disk, Blank());
    BlankIsMalformed(true, limit);
    BlankIsMalformed(false, limit);
  }

  /**
   * A disk with zeros where the block would be: Linux takes it for a broken block and blocks it
   * under every policy, Windows for an unsigned device, which a policy may let in.
   */
  lemma ZeroedDiskVerdicts(k: Keys, disk: Text, d: Fields, limit: nat, policy: C.Policy)
    requires Readable(disk, 0) && disk[OFFSET..OFFSET + 4] == Zeros(4)
    ensures Verdict(k, LinuxRead(disk), d, limit) == Some(C.Malformed)
    ensures Verdict(k, WindowsRead(disk), d, limit) == Some(C.Absent)
    ensures C.Evaluate(policy, C.Malformed) == C.Block
    ensures C.Evaluate(policy, C.Absent) == if policy.disableUnsignedUsb then C.AllowAll else C.Block
  {
    assert StoredSize(disk) == 0;
    assert StoredText(disk) == [];
  }
}

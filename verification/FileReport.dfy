/** The signed report of one file: how the station makes it and how a reader checks it. */
module FileReport {
  import opened Bytes
  import opened Wrappers
  import opened Base64
  import opened SignedBlock
  import opened SignedBlockLaws

  /** What the station found out about a file. */
  datatype FileMetadata = FileMetadata(
    filename: string, digest: Text, isDigestOk: bool, isTooBig: bool, size: nat, isTypeAllowed: bool,
    avPass: bool, avReport: seq<string>, yaraPass: bool, yaraReport: string, timestamp: string,
    isCorrupted: bool, fileType: string,
    specializedPass: bool, specializedAnalyzer: string, specializedSummary: string,
    vtPass: bool, vtDetections: nat, vtSummary: string)

  datatype Checks = Checks(
    yara: string, av: seq<string>, typeAllowed: bool, size: nat, corrupted: bool, toobig: bool, isDigestOk: bool,
    specializedPass: bool, specializedAnalyzer: string, specializedSummary: string,
    vtPass: bool, vtDetections: nat, vtSummary: string)

  datatype MetaData = MetaData(name: string, date: string, fileType: string, isValid: bool, report: Checks)

  datatype Binding = Binding(fileDigest: Text, metadataDigest: Text, stationCertificate: Text, reportSignature: Text)

  datatype Report = Report(metadata: MetaData, binding: Binding)

  function GenerateReportMetadata(f: FileMetadata, date: string): MetaData {
    MetaData(
      f.filename, date, f.fileType,
      f.avPass && f.yaraPass && !f.isTooBig && !f.isCorrupted && f.isDigestOk && f.isTypeAllowed && f.specializedPass && f.vtPass,
      Checks(f.yaraReport, f.avReport, f.isTypeAllowed, f.size, f.isCorrupted, f.isTooBig, f.isDigestOk,
             f.specializedPass, f.specializedAnalyzer, f.specializedSummary, f.vtPass, f.vtDetections, f.vtSummary))
  }

  // ---------------------------------------------------------------- ideal primitives

  const DASH: byte := 0x2D
  const CLASSIC_LENGTH := 64
  const HEX_LENGTH := 64

  /** Hash (as lower-case hexadecimal text), serialization, and the two signature schemes by key. */
  datatype Crypto = Crypto(
    sha: Text -> Text,
    json: MetaData -> Text,
    signClassic: (Text, Text) -> Text,
    signPq: (Text, Text) -> Text,
    verifyClassic: (Text, Text, Text) -> bool,
    verifyPq: (Text, Text, Text) -> bool)

  datatype HybridKey = HybridKey(classic: Text, pq: Text)

  /** For each certificate text the public key in it, when the authority vouches for it. */
  datatype Authority = Authority(classic: Text -> Option<Text>, pq: Text -> Option<Text>)

  /**
   * What is in play in one argument: finitely many file contents, metadata, and texts that are
   * signed or presented as signed. Outputs have a fixed length, so being free of collisions is
   * asked of these only.
   */
  datatype Play = Play(contents: set<Text>, metas: set<MetaData>, messages: set<Text>)

  function Hashed(c: Crypto, play: Play): set<Text> {
    play.contents + set m <- play.metas :: c.json(m)
  }

  ghost predicate IdealHash(c: Crypto, play: Play) {
    && (forall x :: |c.sha(x)| == 64)
    && (forall x, y :: x in Hashed(c, play) && y in Hashed(c, play) && c.sha(x) == c.sha(y) ==> x == y)
    && (forall m, n :: m in play.metas && n in play.metas && c.json(m) == c.json(n) ==> m == n)
  }

  /** What the holder of the key signs verifies, and has the right length. */
  ghost predicate CorrectKey(c: Crypto, k: HybridKey, limit: nat) {
    && (forall m :: |c.signClassic(k.classic, m)| == CLASSIC_LENGTH && c.verifyClassic(k.classic, m, c.signClassic(k.classic, m)))
    && (forall m :: 0 < |c.signPq(k.pq, m)| <= limit && c.verifyPq(k.pq, m, c.signPq(k.pq, m)))
  }

  /** The verification of one of the two schemes: key, message, signature. */
  type Verifier = (Text, Text, Text) -> bool

  /** No signature under the key verifies for two of the messages in play. */
  ghost predicate OneMessage(verify: Verifier, key: Text, play: Play) {
    forall m, m', s :: m in play.messages && m' in play.messages && verify(key, m, s) && verify(key, m', s) ==> m == m'
  }

  /** What the station has bound so far: file digests with the metadata they were reported under. */
  type Log = set<(Text, MetaData)>

  /** A signature that is presented was made by the station: its message is one of the log's. */
  ghost predicate Unforged(c: Crypto, verify: Verifier, key: Text, message: Text, signature: Text, log: Log) {
    verify(key, message, signature) ==> exists e :: e in log && message == Message(c, e.0, e.1)
  }

  // ---------------------------------------------------------------- making a report

  function Message(c: Crypto, digest: Text, meta: MetaData): Text {
    digest + [DASH] + c.sha(c.json(meta))
  }

  function Bound(c: Crypto, digest: Text, meta: MetaData, keys: Option<HybridKey>, cert: Text): Report {
    var message := Message(c, digest, meta);
    var signature := if keys.Some? then c.signClassic(keys.value.classic, message) + c.signPq(keys.value.pq, message) else [];
    Report(meta, Binding(Encode(digest), Encode(c.sha(c.json(meta))), cert, Encode(signature)))
  }

  method BindAndSign(c: Crypto, f: FileMetadata, meta: MetaData, keys: Option<HybridKey>, cert: Text) returns (r: Report)
    ensures r == Bound(c, f.digest, meta, keys, cert)
  {
    hide Encode;
    var metaDigest := c.sha(c.json(meta));
    var concat := f.digest + [DASH] + metaDigest;
    var signature: Text := [];
    if keys.Some? {
      signature := signature + c.signClassic(keys.value.classic, concat);
      signature := signature + c.signPq(keys.value.pq, concat);
      assert signature == c.signClassic(keys.value.classic, concat) + c.signPq(keys.value.pq, concat);
    }
    r := Report(meta, Binding(Encode(f.digest), Encode(metaDigest), cert, Encode(signature)));
  }

  // ---------------------------------------------------------------- checking a report

  /** What the reader signs off: the digest of the supplied file, if any, and of the metadata. */
  function Claimed(c: Crypto, r: Report, file: Option<Text>): Text {
    Message(c, if file.Some? then c.sha(file.value) else [], r.metadata)
  }

  predicate Certified(ca: Authority, cert: Text) {
    var parts := Parts(cert);
    |parts| == 2 && ca.classic(parts[0]).Some? && ca.pq(parts[1]).Some?
  }

  function CertifiedKey(ca: Authority, cert: Text): HybridKey
    requires Certified(ca, cert)
  {
    HybridKey(ca.classic(Parts(cert)[0]).value, ca.pq(Parts(cert)[1]).value)
  }

  predicate SignatureHolds(c: Crypto, key: HybridKey, message: Text, field: Text, limit: nat) {
    var s := Decode(field);
    && s.Some? && |s.value| > CLASSIC_LENGTH
    && c.verifyClassic(key.classic, message, s.value[..CLASSIC_LENGTH])
    && |s.value[CLASSIC_LENGTH..]| <= limit
    && c.verifyPq(key.pq, message, s.value[CLASSIC_LENGTH..])
  }

  predicate Accepted(c: Crypto, ca: Authority, r: Report, file: Option<Text>, limit: nat) {
    && (r.metadata.name != "" ==> file.Some?)
    && Certified(ca, r.binding.stationCertificate)
    && (file.Some? ==> r.binding.fileDigest == Encode(c.sha(file.value)))
    && r.binding.metadataDigest == Encode(c.sha(c.json(r.metadata)))
    && SignatureHolds(c, CertifiedKey(ca, r.binding.stationCertificate), Claimed(c, r, file), r.binding.reportSignature, limit)
  }

  /** `content` is the report file as parsed, or an error when it is unreadable or malformed. */
  method ParseReport(c: Crypto, ca: Authority, content: Result<Report>, file: Option<Text>, limit: nat) returns (r: Result<Report>)
    ensures r == if content.Ok? && Accepted(c, ca, content.value, file, limit) then content else Err
  {
    hide Encode, Decode, Parts;
    if content.Err? {
      return Err;
    }
    var report := content.value;
    if report.metadata.name != "" && file.None? {
      return Err;
    }
    var certs := Parts(report.binding.stationCertificate);
    if |certs| != 2 {
      return Err;
    }
    var classicKey, pqKey := ca.classic(certs[0]), ca.pq(certs[1]);
    if classicKey.None? || pqKey.None? {
      return Err;
    }
    var message: Text := [];
    if file.Some? {
      var fileDigest := c.sha(file.value);
      if Encode(fileDigest) != report.binding.fileDigest {
        return Err;
      }
      message := message + fileDigest;
    }
    message := message + [DASH];
    var metaDigest := c.sha(c.json(report.metadata));
    if Encode(metaDigest) != report.binding.metadataDigest {
      return Err;
    }
    message := message + metaDigest;
    assert message == Claimed(c, report, file);
    var signature := Decode(report.binding.reportSignature);
    if signature.None? || |signature.value| <= CLASSIC_LENGTH {
      return Err;
    }
    if !c.verifyClassic(classicKey.value, message, signature.value[..CLASSIC_LENGTH]) {
      return Err;
    }
    if |signature.value[CLASSIC_LENGTH..]| > limit || !c.verifyPq(pqKey.value, message, signature.value[CLASSIC_LENGTH..]) {
      return Err;
    }
    return content;
  }

  // ---------------------------------------------------------------- what acceptance means

  /** The signed text determines both digests: the second has a fixed length, so nothing can shift. */
  lemma MessageIsInjective(c: Crypto, play: Play, d: Text, m: MetaData, d': Text, m': MetaData)
    requires IdealHash(c, play) && m in play.metas && m' in play.metas
    requires Message(c, d, m) == Message(c, d', m')
    ensures d == d' && m == m'
  {
    var s, t := Message(c, d, m), Message(c, d', m');
    var h, h' := c.sha(c.json(m)), c.sha(c.json(m'));
    assert |s| == |d| + 1 + HEX_LENGTH && |t| == |d'| + 1 + HEX_LENGTH;
    assert d == s[..|d|] && d' == t[..|d'|];
    assert h == s[|d| + 1..] && h' == t[|d'| + 1..];
    assert c.json(m) in Hashed(c, play) && c.json(m') in Hashed(c, play);
  }

  /** The signed text ends in 64 characters of the metadata's hash, with a dash before them and the file digest before that. */
  lemma MessageReads(c: Crypto, play: Play, d: Text, m: MetaData)
    requires IdealHash(c, play)
    ensures var t := Message(c, d, m);
            |t| >= 65 && t[|t| - 65] == 0x2D && t[..|t| - 65] == d && t[|t| - 64..] == c.sha(c.json(m))
  {}

  lemma EncodeIsInjective(a: Text, b: Text)
    requires Encode(a) == Encode(b)
    ensures a == b
  {
    RoundTrip(a);
    RoundTrip(b);
  }

  /** The two signatures of a made report, cut apart again by the reader. */
  lemma MadeSignatureSplits(c: Crypto, k: HybridKey, message: Text, limit: nat)
    requires CorrectKey(c, k, limit)
    ensures var s := c.signClassic(k.classic, message) + c.signPq(k.pq, message);
            && Decode(Encode(s)) == Some(s) && |s| > CLASSIC_LENGTH
            && s[..CLASSIC_LENGTH] == c.signClassic(k.classic, message)
            && s[CLASSIC_LENGTH..] == c.signPq(k.pq, message)
  {
    RoundTrip(c.signClassic(k.classic, message) + c.signPq(k.pq, message));
  }

  /**
   * A report made under certified keys is accepted exactly with the file it was made for, or,
   * when it names no file and was bound to no digest, without one.
   */
  lemma MadeReportIsAcceptedExactly(
    c: Crypto, ca: Authority, play: Play, digest: Text, meta: MetaData, k: HybridKey, cert: Text, file: Option<Text>, limit: nat)
    requires IdealHash(c, play) && CorrectKey(c, k, limit)
    requires OneMessage(c.verifyClassic, k.classic, play) || OneMessage(c.verifyPq, k.pq, play)
    requires Certified(ca, cert) && CertifiedKey(ca, cert) == k && meta in play.metas
    requires Message(c, digest, meta) in play.messages
    requires Claimed(c, Bound(c, digest, meta, Some(k), cert), file) in play.messages
    ensures Accepted(c, ca, Bound(c, digest, meta, Some(k), cert), file, limit) <==>
            match file
            case Some(content) => c.sha(content) == digest
            case None => meta.name == "" && digest == []
  {
    hide Encode, Decode, Parts, IdealHash, CorrectKey, Certified, CertifiedKey, Message, OneMessage;
    var r := Bound(c, digest, meta, Some(k), cert);
    var made := Message(c, digest, meta);
    MadeSignatureSplits(c, k, made, limit);
    MadeVerifies(c, k, made, limit);
    var claimed := if file.Some? then c.sha(file.value) else [];
    if file.Some? && Encode(claimed) == Encode(digest) {
      EncodeIsInjective(claimed, digest);
    }
    if c.verifyClassic(k.classic, Message(c, claimed, meta), c.signClassic(k.classic, made))
       && c.verifyPq(k.pq, Message(c, claimed, meta), c.signPq(k.pq, made)) {
      if OneMessage(c.verifyClassic, k.classic, play) {
        VerifiesOnce(c.verifyClassic, k.classic, play, Message(c, claimed, meta), made, c.signClassic(k.classic, made));
      } else {
        VerifiesOnce(c.verifyPq, k.pq, play, Message(c, claimed, meta), made, c.signPq(k.pq, made));
      }
      MessageIsInjective(c, play, claimed, meta, digest, meta);
    }
  }

  lemma MadeVerifies(c: Crypto, k: HybridKey, m: Text, limit: nat)
    requires CorrectKey(c, k, limit)
    ensures c.verifyClassic(k.classic, m, c.signClassic(k.classic, m)) && c.verifyPq(k.pq, m, c.signPq(k.pq, m))
    ensures |c.signPq(k.pq, m)| <= limit
  {}

  lemma VerifiesOnce(verify: Verifier, key: Text, play: Play, m: Text, m': Text, s: Text)
    requires OneMessage(verify, key, play) && m in play.messages && m' in play.messages
    requires verify(key, m, s) && verify(key, m', s)
    ensures m == m'
  {}

  /** Without signing keys the report is well formed and never accepted. */
  lemma UnsignedReportIsRefused(c: Crypto, ca: Authority, digest: Text, meta: MetaData, cert: Text, file: Option<Text>, limit: nat)
    ensures !Accepted(c, ca, Bound(c, digest, meta, None, cert), file, limit)
  {
    RoundTrip([]);
  }

  /** The classic half of the signature field. */
  function ClassicPart(field: Text): Text {
    var s := Decode(field);
    if s.Some? && |s.value| > CLASSIC_LENGTH then s.value[..CLASSIC_LENGTH] else []
  }

  /** The post-quantum half. */
  function PqPart(field: Text): Text {
    var s := Decode(field);
    if s.Some? && |s.value| > CLASSIC_LENGTH then s.value[CLASSIC_LENGTH..] else []
  }

  /** Acceptance rests on both halves: each verifies, under its key, for what the reader checks. */
  lemma BothHalvesVerify(c: Crypto, ca: Authority, r: Report, file: Option<Text>, limit: nat)
    requires Accepted(c, ca, r, file, limit)
    ensures var key, field := CertifiedKey(ca, r.binding.stationCertificate), r.binding.reportSignature;
            && |ClassicPart(field)| == 64 && c.verifyClassic(key.classic, Claimed(c, r, file), ClassicPart(field))
            && 0 < |PqPart(field)| <= limit && c.verifyPq(key.pq, Claimed(c, r, file), PqPart(field))
            && Decode(field) == Some(ClassicPart(field) + PqPart(field))
  {
    hide Decode, Encode, Parts, Claimed, CertifiedKey;
    var s := Decode(r.binding.reportSignature).value;
    assert s == s[..CLASSIC_LENGTH] + s[CLASSIC_LENGTH..];
  }

  /** The two digest fields are checked: putting anything else in one of them makes the report refused. */
  lemma DigestFieldsAreChecked(c: Crypto, ca: Authority, r: Report, file: Option<Text>, limit: nat, other: Text)
    requires Accepted(c, ca, r, file, limit)
    ensures file.Some? ==>
              (Accepted(c, ca, r.(binding := r.binding.(fileDigest := other)), file, limit) <==> other == r.binding.fileDigest)
    ensures Accepted(c, ca, r.(binding := r.binding.(metadataDigest := other)), file, limit) <==> other == r.binding.metadataDigest
  {
    hide Decode, Encode, Parts, SignatureHolds;
  }

  /**
   * If one of the two halves of its signature is not forged, whichever it is, an accepted report
   * was made by the station whose keys it names, for exactly this metadata and exactly this file;
   * without a file, for no digest at all.
   */
  lemma AcceptedReportWasMade(c: Crypto, ca: Authority, play: Play, r: Report, file: Option<Text>, limit: nat, log: Log)
    requires IdealHash(c, play) && Accepted(c, ca, r, file, limit)
    requires r.metadata in play.metas && forall e <- log :: e.1 in play.metas
    requires var key := CertifiedKey(ca, r.binding.stationCertificate);
             || Unforged(c, c.verifyClassic, key.classic, Claimed(c, r, file), ClassicPart(r.binding.reportSignature), log)
             || Unforged(c, c.verifyPq, key.pq, Claimed(c, r, file), PqPart(r.binding.reportSignature), log)
    ensures (if file.Some? then c.sha(file.value) else [], r.metadata) in log
  {
    hide Encode, Decode, Parts, IdealHash, Message, Certified, CertifiedKey;
    var e :| e in log && Claimed(c, r, file) == Message(c, e.0, e.1);
    MessageIsInjective(c, play, if file.Some? then c.sha(file.value) else [], r.metadata, e.0, e.1);
    assert e == (e.0, e.1);
  }

  /**
   * One signature commits to one report: two accepted uses of it, under keys that agree in a
   * scheme in which no signature verifies for two messages, have the same metadata and file.
   */
  lemma SignatureCommits(
    c: Crypto, ca: Authority, play: Play, r: Report, file: Option<Text>, r': Report, file': Option<Text>, limit: nat)
    requires IdealHash(c, play) && Accepted(c, ca, r, file, limit) && Accepted(c, ca, r', file', limit)
    requires var key, key' := CertifiedKey(ca, r.binding.stationCertificate), CertifiedKey(ca, r'.binding.stationCertificate);
             || (key.classic == key'.classic && OneMessage(c.verifyClassic, key.classic, play))
             || (key.pq == key'.pq && OneMessage(c.verifyPq, key.pq, play))
    requires Claimed(c, r, file) in play.messages && Claimed(c, r', file') in play.messages
    requires r.metadata in play.metas && r'.metadata in play.metas
    requires (file.Some? ==> file.value in play.contents) && (file'.Some? ==> file'.value in play.contents)
    requires r.binding.reportSignature == r'.binding.reportSignature
    ensures r.metadata == r'.metadata && file == file'
    ensures r.binding.metadataDigest == r'.binding.metadataDigest
    ensures file.Some? ==> r.binding.fileDigest == r'.binding.fileDigest
  {
    hide Encode, Decode, Parts, Message, Certified, CertifiedKey;
    var d, d' := if file.Some? then c.sha(file.value) else [], if file'.Some? then c.sha(file'.value) else [];
    MessageIsInjective(c, play, d, r.metadata, d', r'.metadata);
    SameFile(c, play, file, file');
  }

  lemma SameFile(c: Crypto, play: Play, file: Option<Text>, file': Option<Text>)
    requires IdealHash(c, play)
    requires (file.Some? ==> file.value in play.contents) && (file'.Some? ==> file'.value in play.contents)
    requires (if file.Some? then c.sha(file.value) else []) == (if file'.Some? then c.sha(file'.value) else [])
    ensures file == file'
  {
    if file.Some? {
      assert |c.sha(file.value)| == HEX_LENGTH && file.value in Hashed(c, play);
    }
    if file'.Some? {
      assert |c.sha(file'.value)| == HEX_LENGTH && file'.value in Hashed(c, play);
    }
  }

  /** A report read without a file is accepted whatever its file digest field says: nothing checks that field. */
  lemma FileDigestUncheckedWithoutFile(c: Crypto, ca: Authority, r: Report, other: Text, limit: nat)
    requires Accepted(c, ca, r, None, limit)
    ensures Accepted(c, ca, r.(binding := r.binding.(fileDigest := other)), None, limit)
  {
    hide Encode, Decode, Parts;
  }
}

/** A hash, a serialization and two schemes that meet what the laws about reports ask of them. */
module FileReportExample {
  import opened Bytes
  import opened Wrappers
  import opened SignedBlock
  import opened SignedBlockLaws
  import opened FileReport

  const FIRST: Text := [10]
  const SECOND: Text := [11]
  const GOOD := MetaData("a", "", "", true, CHECKS)
  const BAD := MetaData("a", "", "", false, CHECKS)
  const CHECKS := Checks("", [], true, 0, false, false, true, true, "", "", true, 0, "")

  const CERT: Text := [1, BAR, 2]
  const KEY := HybridKey([1], [2])

  /** Keeps the first byte only, so it is free of collisions on short texts. */
  function Hash(x: Text): Text {
    [if x == [] then 0 else x[0]] + Zeros(HEX_LENGTH - 1)
  }

  function Serialize(m: MetaData): Text {
    if m.isValid then [20] else [21]
  }

  /** Keeps what `Hash` leaves of the two digests in a message. */
  function Sign(m: Text): Text {
    (if |m| == 2 * HEX_LENGTH + 1 then [m[0], m[HEX_LENGTH + 1]] else [0, 0]) + Zeros(CLASSIC_LENGTH - 2)
  }

  function Scheme(): Crypto {
    Crypto(Hash, Serialize, (k, m) => Sign(m), (k, m) => Sign(m), (k, m, s) => s == Sign(m), (k, m, s) => s == Sign(m))
  }

  function Root(): Authority {
    Authority(t => Some(t), t => Some(t))
  }

  function MessageFor(file: Text, m: MetaData): Text {
    Message(Scheme(), Hash(file), m)
  }

  function InPlay(): Play {
    Play({FIRST, SECOND}, {GOOD, BAD},
         {MessageFor(FIRST, GOOD), MessageFor(FIRST, BAD), MessageFor(SECOND, GOOD), MessageFor(SECOND, BAD)})
  }

  function Made(): Report {
    Bound(Scheme(), Hash(FIRST), GOOD, Some(KEY), CERT)
  }

  lemma HashIsIdeal()
    ensures IdealHash(Scheme(), InPlay())
  {
    forall x: Text
      ensures |Hash(x)| == HEX_LENGTH && Hash(x)[0] == if x == [] then 0 else x[0]
    {
    }
    assert Hashed(Scheme(), InPlay()) == {FIRST, SECOND, [20], [21]} by {
      hide Hash, Sign, MessageFor;
    }
  }

  lemma MessageBytes(file: Text, m: MetaData)
    requires file != []
    ensures var t := MessageFor(file, m);
            |t| == 2 * HEX_LENGTH + 1 && Sign(t)[0] == file[0] && Sign(t)[1] == Serialize(m)[0]
  {
  }

  lemma KeyIsCorrect()
    ensures CorrectKey(Scheme(), KEY, CLASSIC_LENGTH)
    ensures OneMessage(Scheme().verifyClassic, KEY.classic, InPlay()) && OneMessage(Scheme().verifyPq, KEY.pq, InPlay())
  {
    MessageBytes(FIRST, GOOD);
    MessageBytes(FIRST, BAD);
    MessageBytes(SECOND, GOOD);
    MessageBytes(SECOND, BAD);
    hide Zeros, Message, Hash, MessageFor;
    var c, play := Scheme(), InPlay();
    forall m, m' | m in play.messages && m' in play.messages && Sign(m) == Sign(m')
      ensures m == m'
    {
      assert Sign(m)[0] == Sign(m')[0] && Sign(m)[1] == Sign(m')[1];
    }
  }

  lemma CertificatesAreCertified()
    ensures Certified(Root(), CERT) && CertifiedKey(Root(), CERT) == KEY
  {
    PartsOfJoined([1], [2]);
    PartsOfPlain([2]);
    assert [1] + [BAR] + [2] == CERT;
  }

  /**
   * Everything the laws about reports assume holds here at once, with two files and two
   * metadata in play, a correct key, and a report that is accepted with its own file and
   * refused with the other.
   */
  lemma AssumptionsCanHold()
    ensures var c, ca, play, r := Scheme(), Root(), InPlay(), Made();
            && IdealHash(c, play) && CorrectKey(c, KEY, CLASSIC_LENGTH)
            && OneMessage(c.verifyClassic, KEY.classic, play) && OneMessage(c.verifyPq, KEY.pq, play)
            && Certified(ca, CERT) && CertifiedKey(ca, CERT) == KEY && GOOD in play.metas
            && Claimed(c, r, Some(FIRST)) in play.messages && Claimed(c, r, Some(SECOND)) in play.messages
            && Accepted(c, ca, r, Some(FIRST), CLASSIC_LENGTH)
            && !Accepted(c, ca, r, Some(SECOND), CLASSIC_LENGTH)
            && var log, message, field := {(Hash(FIRST), GOOD)}, Claimed(c, r, Some(FIRST)), r.binding.reportSignature;
               && Unforged(c, c.verifyClassic, KEY.classic, message, ClassicPart(field), log)
               && Unforged(c, c.verifyPq, KEY.pq, message, PqPart(field), log)
  {
    HashIsIdeal();
    KeyIsCorrect();
    CertificatesAreCertified();
    hide IdealHash, CorrectKey, OneMessage, Certified, CertifiedKey, Accepted, Message, Sign, Hash, ClassicPart, PqPart;
    var e := (Hash(FIRST), GOOD);
    assert e in {e} && Claimed(Scheme(), Made(), Some(FIRST)) == Message(Scheme(), e.0, e.1);
    MadeReportIsAcceptedExactly(Scheme(), Root(), InPlay(), Hash(FIRST), GOOD, KEY, CERT, Some(FIRST), CLASSIC_LENGTH);
    MadeReportIsAcceptedExactly(Scheme(), Root(), InPlay(), Hash(FIRST), GOOD, KEY, CERT, Some(SECOND), CLASSIC_LENGTH);
    HashesDiffer();
  }

  lemma HashesDiffer()
    ensures Hash(FIRST) != Hash(SECOND)
  {
    assert Hash(FIRST)[0] == 10 && Hash(SECOND)[0] == 11;
  }
}

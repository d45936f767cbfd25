/** Reputation lookups by hash, with answers kept for a limited time. */
module VtCache {
  import opened Bytes
  import opened Wrappers

  /** The text of an answer, by the parts that make it up. */
  datatype Summary =
    | Unknown
    | RateLimitExceeded
    | Unreachable(error: string)
    | ParseError
    | Malicious(malicious: nat, suspicious: nat, total: nat)
    | OnlySuspicious(suspicious: nat, total: nat)
    | Clean(total: nat)

  datatype Answer = Answer(pass: bool, detections: nat, summary: Summary)

  /** What the service says when it is asked. */
  datatype Response =
    | NotFound
    | TooManyRequests
    | Failed(error: string)
    | BadBody
    | Stats(malicious: nat, suspicious: nat, harmless: nat, undetected: nat)

  datatype Entry = Entry(detections: nat, summary: Summary, inserted: nat)

  type Cache = map<string, Entry>

  datatype Config = Config(failOpen: bool, blockThreshold: nat, cacheTtl: nat)

  /** Counts are cut to 32 bits, and so is their sum. */
  function Cut(n: nat): nat { n % U32_LIMIT }

  function Verdict(c: Config, r: Response): Answer {
    match r
    case NotFound => Answer(true, 0, Unknown)
    case TooManyRequests => Answer(c.failOpen, 0, RateLimitExceeded)
    case Failed(e) => Answer(c.failOpen, 0, Unreachable(e))
    case BadBody => Answer(c.failOpen, 0, ParseError)
    case Stats(m, s, h, u) =>
      var total := Cut(Cut(m) + Cut(s) + Cut(h) + Cut(u));
      Answer(
        Cut(m) < c.blockThreshold,
        Cut(m),
        if Cut(m) > 0 then Malicious(Cut(m), Cut(s), total)
        else if Cut(s) > 0 then OnlySuspicious(Cut(s), total)
        else Clean(total))
  }

  /** Only what the service knows about the file is kept. */
  predicate Kept(r: Response) { r.NotFound? || r.Stats? }

  datatype Query = Query(sha: string, now: nat, response: Response)

  function Age(now: nat, then_: nat): nat {
    if now >= then_ then now - then_ else 0
  }

  predicate Hits(c: Config, cache: Cache, q: Query) {
    q.sha in cache && Age(q.now, cache[q.sha].inserted) < c.cacheTtl
  }

  function Answered(c: Config, cache: Cache, q: Query): Answer {
    if Hits(c, cache, q) then Answer(cache[q.sha].detections < c.blockThreshold, cache[q.sha].detections, cache[q.sha].summary)
    else Verdict(c, q.response)
  }

  function Updated(c: Config, cache: Cache, q: Query): Cache {
    if Hits(c, cache, q) then cache
    else if Kept(q.response) then cache[q.sha := Entry(Verdict(c, q.response).detections, Verdict(c, q.response).summary, q.now)]
    else cache - {q.sha}
  }

  class VtClient {
    const config: Config
    var cache: Cache

    constructor (config: Config)
      ensures this.config == config && cache == map[]
    {
      this.config := config;
      cache := map[];
    }

    /** The response stands for the call to the service, which is made only on a miss. */
    method Lookup(sha256: string, now: nat, response: Response) returns (answer: Answer)
      modifies this
      ensures var q := Query(sha256, now, response);
              answer == Answered(config, old(cache), q) && cache == Updated(config, old(cache), q)
    {
      if sha256 in cache {
        var entry := cache[sha256];
        if Age(now, entry.inserted) < config.cacheTtl {
          var pass := entry.detections < config.blockThreshold;
          return Answer(pass, entry.detections, entry.summary);
        }
        cache := cache - {sha256};
      }
      match response {
        case NotFound =>
          InsertCache(sha256, 0, Unknown, now);
          return Answer(true, 0, Unknown);
        case TooManyRequests => return Answer(config.failOpen, 0, RateLimitExceeded);
        case Failed(e) => return Answer(config.failOpen, 0, Unreachable(e));
        case BadBody => return Answer(config.failOpen, 0, ParseError);
        case Stats(m, s, h, u) =>
          var malicious, suspicious, harmless, undetected := Cut(m), Cut(s), Cut(h), Cut(u);
          var total := Cut(malicious + suspicious + harmless + undetected);
          var summary :=
            if malicious > 0 then Malicious(malicious, suspicious, total)
            else if suspicious > 0 then OnlySuspicious(suspicious, total)
            else Clean(total);
          InsertCache(sha256, malicious, summary, now);
          var pass := malicious < config.blockThreshold;
          return Answer(pass, malicious, summary);
      }
    }

    method InsertCache(sha256: string, detections: nat, summary: Summary, now: nat)
      modifies this
      ensures cache == old(cache)[sha256 := Entry(detections, summary, now)]
    {
      cache := cache[sha256 := Entry(detections, summary, now)];
    }
  }

  // ---------------------------------------------------------------- runs

  function CacheAfter(c: Config, qs: seq<Query>): Cache
    decreases |qs|
  {
    if qs == [] then map[] else Updated(c, CacheAfter(c, qs[..|qs| - 1]), qs[|qs| - 1])
  }

  predicate FromCache(c: Config, qs: seq<Query>, i: nat)
    requires i < |qs|
  {
    Hits(c, CacheAfter(c, qs[..i]), qs[i])
  }

  function AnswerTo(c: Config, qs: seq<Query>, i: nat): Answer
    requires i < |qs|
  {
    Answered(c, CacheAfter(c, qs[..i]), qs[i])
  }

  predicate ClockRuns(qs: seq<Query>) {
    forall i, j :: 0 <= i < j < |qs| ==> qs[i].now <= qs[j].now
  }

  /** Query `j` asked the service, and its answer is the entry. */
  predicate Fills(c: Config, qs: seq<Query>, j: int, sha: string, e: Entry) {
    && 0 <= j < |qs| && qs[j].sha == sha && qs[j].now == e.inserted
    && !FromCache(c, qs, j) && Kept(qs[j].response)
    && AnswerTo(c, qs, j).detections == e.detections && AnswerTo(c, qs, j).summary == e.summary
  }

  lemma FillsLater(c: Config, qs: seq<Query>, q: Query, j: int, sha: string, e: Entry)
    requires Fills(c, qs, j, sha, e)
    ensures Fills(c, qs + [q], j, sha, e)
  {
    assert (qs + [q])[..j] == qs[..j];
  }

  /** Every entry was put there by an earlier query that asked the service. */
  lemma {:induction false} EntriesHaveSources(c: Config, qs: seq<Query>, sha: string)
    requires sha in CacheAfter(c, qs)
    ensures exists j :: Fills(c, qs, j, sha, CacheAfter(c, qs)[sha])
    decreases |qs|
  {
    hide Verdict, Fills;
    var n := |qs| - 1;
    var before, q, e := CacheAfter(c, qs[..n]), qs[n], CacheAfter(c, qs)[sha];
    assert qs == qs[..n] + [q];
    if sha == q.sha && !Hits(c, before, q) {
      NewEntryFills(c, qs, n);
    } else {
      EntriesHaveSources(c, qs[..n], sha);
      var j :| Fills(c, qs[..n], j, sha, before[sha]);
      FillsLater(c, qs[..n], q, j, sha, e);
    }
  }

  lemma NewEntryFills(c: Config, qs: seq<Query>, n: nat)
    requires n < |qs| && !FromCache(c, qs, n) && Kept(qs[n].response)
    ensures var a := Verdict(c, qs[n].response); Fills(c, qs, n, qs[n].sha, Entry(a.detections, a.summary, qs[n].now))
  {}

  /**
   * In every run with a clock that does not go back, an answer from the cache goes back to an
   * earlier query for the same hash that asked the service less than a lifetime ago, and was
   * answered with knowledge about the file. Detections and text are those of that answer; the
   * verdict is too, except when the threshold is zero and the file was unknown.
   */
  lemma CachedAnswerIsRecent(c: Config, qs: seq<Query>, i: nat) returns (j: nat)
    requires ClockRuns(qs) && i < |qs| && FromCache(c, qs, i)
    ensures j < i && qs[j].sha == qs[i].sha && !FromCache(c, qs, j) && Kept(qs[j].response)
    ensures qs[i].now - qs[j].now < c.cacheTtl
    ensures AnswerTo(c, qs, i).detections == AnswerTo(c, qs, j).detections
    ensures AnswerTo(c, qs, i).summary == AnswerTo(c, qs, j).summary
    ensures AnswerTo(c, qs, i) == AnswerTo(c, qs, j) <==> c.blockThreshold > 0 || !qs[j].response.NotFound?
  {
    var e := CacheAfter(c, qs[..i])[qs[i].sha];
    EntriesHaveSources(c, qs[..i], qs[i].sha);
    j :| Fills(c, qs[..i], j, qs[i].sha, e);
    assert qs[..i][..j] == qs[..j];
  }

  /**
   * What an answer of the service is worth, when it is asked: a rate limit, an unreachable service
   * or an unreadable answer follows the configuration and is not kept; an unknown file passes; a
   * known one passes exactly when fewer engines than the threshold call it malicious, counts being
   * cut to 32 bits. The last two are kept with the time of the question.
   */
  lemma ServiceAnswers(c: Config, qs: seq<Query>, i: nat)
    requires i < |qs| && !FromCache(c, qs, i)
    ensures var a, q, after := AnswerTo(c, qs, i), qs[i], CacheAfter(c, qs[..i + 1]);
            match q.response
            case TooManyRequests => a == Answer(c.failOpen, 0, RateLimitExceeded) && q.sha !in after
            case Failed(e) => a == Answer(c.failOpen, 0, Unreachable(e)) && q.sha !in after
            case BadBody => a == Answer(c.failOpen, 0, ParseError) && q.sha !in after
            case NotFound => a == Answer(true, 0, Unknown) && q.sha in after && after[q.sha] == Entry(0, Unknown, q.now)
            case Stats(m, s, h, u) =>
              && Judged(a, m, s, h, u, c.blockThreshold)
              && q.sha in after && after[q.sha] == Entry(a.detections, a.summary, q.now)
  {
    assert qs[..i + 1][..i] == qs[..i] && qs[..i + 1][i] == qs[i];
    hide Judged;
    if qs[i].response.Stats? {
      StatsAreJudged(c, qs[i].response);
    }
    hide Cut;
  }

  /** The answer made of four counts. */
  predicate Judged(a: Answer, m: nat, s: nat, h: nat, u: nat, threshold: nat) {
    && (a.pass <==> m % 0x1_0000_0000 < threshold)
    && a.detections == m % 0x1_0000_0000
    && (a.summary.Malicious? <==> m % 0x1_0000_0000 > 0)
    && (a.summary.Clean? <==> m % 0x1_0000_0000 == 0 && s % 0x1_0000_0000 == 0)
    && (a.summary.Clean? || a.summary.OnlySuspicious? || a.summary.Malicious?)
    && (m + s + h + u < 0x1_0000_0000 ==>
          && a.summary.total == m + s + h + u
          && (m > 0 ==> a.summary.malicious == m && a.summary.suspicious == s)
          && (m == 0 && s > 0 ==> a.summary.suspicious == s))
  }

  lemma StatsAreJudged(c: Config, r: Response)
    requires r.Stats?
    ensures Judged(Verdict(c, r), r.malicious, r.suspicious, r.harmless, r.undetected, c.blockThreshold)
  {
    CutSmall(r.malicious, r.suspicious, r.harmless, r.undetected);
    CutIs(r.malicious);
    CutIs(r.suspicious);
    hide Cut;
  }

  lemma CutIs(n: nat)
    ensures Cut(n) == n % 0x1_0000_0000
  {}

  lemma CutSmall(m: nat, s: nat, h: nat, u: nat)
    ensures m + s + h + u < 0x1_0000_0000 ==>
              Cut(m) == m && Cut(s) == s && Cut(h) == h && Cut(u) == u && Cut(m + s + h + u) == m + s + h + u
  {}

  /** A hash is answered from the cache exactly when it was kept less than a lifetime ago; others' entries stay. */
  lemma CacheServes(c: Config, qs: seq<Query>, i: nat, sha: string)
    requires i < |qs|
    ensures var before, after := CacheAfter(c, qs[..i]), CacheAfter(c, qs[..i + 1]);
            && (sha != qs[i].sha ==> (sha in after <==> sha in before) && (sha in after ==> after[sha] == before[sha]))
            && (FromCache(c, qs, i) <==>
                  qs[i].sha in before
                  && (if qs[i].now < before[qs[i].sha].inserted then c.cacheTtl > 0
                      else qs[i].now - before[qs[i].sha].inserted < c.cacheTtl))
            && (FromCache(c, qs, i) ==> after == before)
  {
    hide Verdict;
    assert qs[..i + 1][..i] == qs[..i] && qs[..i + 1][i] == qs[i];
  }

  /** With threshold zero and any lifetime, asking twice for an unknown file gives two verdicts. */
  lemma ThresholdZeroContradictsItself(failOpen: bool, ttl: nat, sha: string)
    requires ttl > 0
    ensures var c := Config(failOpen, 0, ttl);
            var qs := [Query(sha, 0, NotFound), Query(sha, 0, NotFound)];
            FromCache(c, qs, 1) && AnswerTo(c, qs, 0).pass && !AnswerTo(c, qs, 1).pass
  {
    var c := Config(failOpen, 0, ttl);
    var qs := [Query(sha, 0, NotFound), Query(sha, 0, NotFound)];
    assert qs[..1] == [qs[0]] && qs[..1][..0] == [] && qs[..0] == [];
    assert CacheAfter(c, qs[..1]) == map[sha := Entry(0, Unknown, 0)];
  }
}

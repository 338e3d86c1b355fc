/** The session counters: how many questions were answered and from which
    source, how many calls to the answer service the cache saved, how many
    dropdown matches succeeded, and the log of answered questions. The clock
    is a parameter: times are integer microseconds. */
module Monitor {

  /** One line of the question log. */
  datatype Record = Record(question: string, answer: string, source: string, timestamp: int)

  /** Number of log records with the given source. */
  function Count(log: seq<Record>, source: string): (n: nat)
    ensures n <= |log|
  {
    if log == [] then 0
    else Count(log[..|log| - 1], source) + (if log[|log| - 1].source == source then 1 else 0)
  }

  /** The four sources with counters of their own never count more records
      than the log holds. */
  lemma {:induction false} SourceCountsBounded(log: seq<Record>)
    ensures Count(log, "cache") + Count(log, "ai") + Count(log, "fallback") + Count(log, "random") <= |log|
  {
    if log != [] {
      SourceCountsBounded(log[..|log| - 1]);
    }
  }

  /** A snapshot of the counters, as `get_metrics` reports them. */
  datatype Metrics = Metrics(
    totalQuestions: nat,
    cachedAnswersUsed: nat,
    aiAnswersUsed: nat,
    fallbackAnswersUsed: nat,
    randomAnswersUsed: nat,
    smartSelectionMatches: nat,
    apiCallsSaved: nat,
    totalTime: int,
    questionsAnswered: seq<Record>)

  class PerformanceMonitor {
    var totalQuestions: nat
    var cachedAnswersUsed: nat
    var aiAnswersUsed: nat
    var fallbackAnswersUsed: nat
    var randomAnswersUsed: nat
    var smartSelectionMatches: nat
    var apiCallsSaved: nat
    var totalTime: int
    var questionsAnswered: seq<Record>
    const sessionStart: int

    /** Every question is logged once, each source counter counts the
        records of its source, and every cache hit saves one call. */
    ghost predicate Valid()
      reads this
    {
      && totalQuestions == |questionsAnswered|
      && cachedAnswersUsed == Count(questionsAnswered, "cache")
      && aiAnswersUsed == Count(questionsAnswered, "ai")
      && fallbackAnswersUsed == Count(questionsAnswered, "fallback")
      && randomAnswersUsed == Count(questionsAnswered, "random")
      && apiCallsSaved == cachedAnswersUsed
    }

    /** A fresh monitor: every counter zero, the log empty. */
    constructor (now: int)
      ensures Valid()
      ensures totalQuestions == 0 && cachedAnswersUsed == 0 && aiAnswersUsed == 0
      ensures fallbackAnswersUsed == 0 && randomAnswersUsed == 0
      ensures smartSelectionMatches == 0 && apiCallsSaved == 0 && totalTime == 0
      ensures questionsAnswered == [] && sessionStart == now
    {
      totalQuestions, cachedAnswersUsed, aiAnswersUsed := 0, 0, 0;
      fallbackAnswersUsed, randomAnswersUsed := 0, 0;
      smartSelectionMatches, apiCallsSaved, totalTime := 0, 0, 0;
      questionsAnswered := [];
      sessionStart := now;
    }

    /** Logs one answered question: the total rises by one, exactly the
        counter of a known source rises by one (a cache hit also saves a
        call), any other source touches no source counter, and one record is
        appended. */
    method LogQuestion(question: string, answer: string, source: string, now: int)
      requires Valid()
      modifies this
      ensures Valid()
      ensures totalQuestions == old(totalQuestions) + 1
      ensures questionsAnswered == old(questionsAnswered) + [Record(question, answer, source, now)]
      ensures cachedAnswersUsed == old(cachedAnswersUsed) + (if source == "cache" then 1 else 0)
      ensures aiAnswersUsed == old(aiAnswersUsed) + (if source == "ai" then 1 else 0)
      ensures fallbackAnswersUsed == old(fallbackAnswersUsed) + (if source == "fallback" then 1 else 0)
      ensures randomAnswersUsed == old(randomAnswersUsed) + (if source == "random" then 1 else 0)
      ensures apiCallsSaved == old(apiCallsSaved) + (if source == "cache" then 1 else 0)
      ensures smartSelectionMatches == old(smartSelectionMatches) && totalTime == old(totalTime)
    {
      totalQuestions := totalQuestions + 1;
      if source == "cache" {
        cachedAnswersUsed := cachedAnswersUsed + 1;
        apiCallsSaved := apiCallsSaved + 1;
      } else if source == "ai" {
        aiAnswersUsed := aiAnswersUsed + 1;
      } else if source == "fallback" {
        fallbackAnswersUsed := fallbackAnswersUsed + 1;
      } else if source == "random" {
        randomAnswersUsed := randomAnswersUsed + 1;
      }
      var log := questionsAnswered + [Record(question, answer, source, now)];
      assert log[..|log| - 1] == questionsAnswered;
      questionsAnswered := log;
    }

    /** Counts one successful dropdown match and changes nothing else. */
    method LogSmartSelectionMatch()
      requires Valid()
      modifies this
      ensures Valid()
      ensures smartSelectionMatches == old(smartSelectionMatches) + 1
      ensures totalQuestions == old(totalQuestions) && questionsAnswered == old(questionsAnswered)
      ensures cachedAnswersUsed == old(cachedAnswersUsed) && aiAnswersUsed == old(aiAnswersUsed)
      ensures fallbackAnswersUsed == old(fallbackAnswersUsed) && randomAnswersUsed == old(randomAnswersUsed)
      ensures apiCallsSaved == old(apiCallsSaved) && totalTime == old(totalTime)
    {
      smartSelectionMatches := smartSelectionMatches + 1;
    }

    /** Records the session's duration and reports the counters, which keep
        the invariants: cache hits equal saved calls, the four source
        counters add up to at most the total, and the log has one record per
        question. */
    method GetMetrics(now: int) returns (m: Metrics)
      requires Valid()
      modifies this
      ensures Valid()
      ensures totalTime == now - sessionStart
      ensures m == Metrics(totalQuestions, cachedAnswersUsed, aiAnswersUsed, fallbackAnswersUsed,
                           randomAnswersUsed, smartSelectionMatches, apiCallsSaved, totalTime, questionsAnswered)
      ensures m.apiCallsSaved == m.cachedAnswersUsed
      ensures m.cachedAnswersUsed + m.aiAnswersUsed + m.fallbackAnswersUsed + m.randomAnswersUsed <= m.totalQuestions
      ensures |m.questionsAnswered| == m.totalQuestions
      ensures totalQuestions == old(totalQuestions) && questionsAnswered == old(questionsAnswered)
      ensures cachedAnswersUsed == old(cachedAnswersUsed) && aiAnswersUsed == old(aiAnswersUsed)
      ensures fallbackAnswersUsed == old(fallbackAnswersUsed) && randomAnswersUsed == old(randomAnswersUsed)
      ensures apiCallsSaved == old(apiCallsSaved) && smartSelectionMatches == old(smartSelectionMatches)
    {
      totalTime := now - sessionStart;
      SourceCountsBounded(questionsAnswered);
      m := Metrics(totalQuestions, cachedAnswersUsed, aiAnswersUsed, fallbackAnswersUsed,
                   randomAnswersUsed, smartSelectionMatches, apiCallsSaved, totalTime, questionsAnswered);
    }
  }

  /** A question answered from an unknown source, such as a manual answer,
      is logged and counted in the total but raises no source counter. */
  method LogManualAnswer(monitor: PerformanceMonitor, question: string, answer: string, now: int)
    requires monitor.Valid()
    modifies monitor
    ensures monitor.Valid()
    ensures monitor.totalQuestions == old(monitor.totalQuestions) + 1
    ensures monitor.cachedAnswersUsed == old(monitor.cachedAnswersUsed)
    ensures monitor.aiAnswersUsed == old(monitor.aiAnswersUsed)
    ensures monitor.fallbackAnswersUsed == old(monitor.fallbackAnswersUsed)
    ensures monitor.randomAnswersUsed == old(monitor.randomAnswersUsed)
  {
    monitor.LogQuestion(question, answer, "manual", now);
  }
}

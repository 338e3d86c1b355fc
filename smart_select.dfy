/** The dropdown option matcher: it maps a free-text suggestion onto one of
    the options a form offers, ranks options, picks a heuristic default when no
    suggestion exists, and checks that a chosen option is one of the offered
    ones. Every scan returns the first option, in list order, that passes its
    test. */
module SmartSelect {
  import opened Seqs
  import opened Text

  const AffirmativeKeywords: seq<string> :=
    ["yes", "agree", "willing", "comfortable", "confident", "ok", "fine", "positive"]
  const NegativeKeywords: seq<string> :=
    ["no", "disagree", "unwilling", "uncomfortable", "decline", "prefer not"]

  /** The per-option tests that the matcher's scans apply, one per strategy
      or rule; `Passes` says what each one checks. */
  datatype Rule =
    | ExactMatch(key: string)
    | SuggestionInOption(key: string)
    | OptionInSuggestion(key: string)
    | KeywordOption(answer: string)
    | HasDigitRule
    | SharesTechWord(answer: string)
    | MentionsYes
    | MentionsAgreement
    | MentionsDeclining
    | NotShortPlaceholder
    | NotPlaceholder

  predicate Passes(rule: Rule, option: string)
  {
    PassesLowered(rule, option, Lower(option))
  }

  /** `Passes`, given the option and its lower-cased form `o`. */
  predicate PassesLowered(rule: Rule, option: string, o: string)
  {
    match rule
    case ExactMatch(key) => o == key
    case SuggestionInOption(key) => Contains(o, key)
    case OptionInSuggestion(key) => Contains(key, o)
    case KeywordOption(answer) =>
      (IsAffirmative(answer) && ContainsAny(o, AffirmativeKeywords)) ||
      (IsNegative(answer) && ContainsAny(o, NegativeKeywords))
    case HasDigitRule => HasDigit(option)
    case SharesTechWord(answer) =>
      var words := Split(answer);
      exists i :: 0 <= i < |words| && |words[i]| > 3 && Contains(o, Lower(words[i]))
    case MentionsYes => Contains(o, "yes")
    case MentionsAgreement => Contains(o, "agree") || Contains(o, "ok")
    case MentionsDeclining => Contains(o, "prefer not") || Contains(o, "decline")
    case NotShortPlaceholder => o !in ShortPlaceholders
    case NotPlaceholder => o !in Placeholders
  }

  /** `x` is the first of `options` that passes `rule`. */
  ghost predicate IsFirstPassing(rule: Rule, options: seq<string>, x: string)
  {
    exists i :: 0 <= i < |options| && options[i] == x && Passes(rule, x) &&
      forall j :: 0 <= j < i ==> !Passes(rule, options[j])
  }

  /** Some option passes `rule`. */
  predicate AnyPasses(rule: Rule, options: seq<string>)
  {
    exists i :: 0 <= i < |options| && Passes(rule, options[i])
  }

  /** The loop `for option in options: if <rule>: return option`. */
  function FirstPassing(rule: Rule, options: seq<string>): (r: Option<string>)
    ensures r.None? <==> !AnyPasses(rule, options)
    ensures r.Some? ==> IsFirstPassing(rule, options, r.value)
  {
    match FirstIndex(options, o => Passes(rule, o))
    case None => None
    case Some(i) => Some(options[i])
  }

  /** The form in which a suggestion is compared: `ai_answer.lower().strip()`. */
  function SuggestionKey(aiAnswer: string): string
  {
    Strip(Lower(aiAnswer))
  }

  // ---------------------------------------------------------------------
  // get_best_matching_option

  /** The option chosen for an AI suggestion: exact case-insensitive match,
      then the suggestion inside an option, then an option inside the
      suggestion, then the semantic fallback; no choice for an empty
      suggestion or an empty option list. The question and the job
      description take no part in the choice. */
  function GetBestMatchingOption(question: string, options: seq<string>, aiAnswer: string, jobDescription: string): (r: Option<string>)
    ensures aiAnswer == [] || options == [] ==> r == None
    ensures r.Some? ==> r.value in options
    ensures var key := SuggestionKey(aiAnswer);
      (aiAnswer != [] && AnyPasses(ExactMatch(key), options)) ==>
        r.Some? && IsFirstPassing(ExactMatch(key), options, r.value)
    ensures var key := SuggestionKey(aiAnswer);
      (aiAnswer != [] && !AnyPasses(ExactMatch(key), options) && AnyPasses(SuggestionInOption(key), options)) ==>
        r.Some? && IsFirstPassing(SuggestionInOption(key), options, r.value)
    ensures var key := SuggestionKey(aiAnswer);
      (aiAnswer != [] && !AnyPasses(ExactMatch(key), options) && !AnyPasses(SuggestionInOption(key), options) &&
       AnyPasses(OptionInSuggestion(key), options)) ==>
        r.Some? && IsFirstPassing(OptionInSuggestion(key), options, r.value)
    ensures var key := SuggestionKey(aiAnswer);
      (aiAnswer != [] && options != [] && !AnyPasses(ExactMatch(key), options) &&
       !AnyPasses(SuggestionInOption(key), options) && !AnyPasses(OptionInSuggestion(key), options)) ==>
        r == SemanticMatch(key, options)
  {
    if aiAnswer == [] || options == [] then None
    else
      var key := SuggestionKey(aiAnswer);
      var exact := FirstPassing(ExactMatch(key), options);
      if exact.Some? then exact
      else
        var partial := FirstPassing(SuggestionInOption(key), options);
        if partial.Some? then partial
        else
          var reverse := FirstPassing(OptionInSuggestion(key), options);
          if reverse.Some? then reverse
          else SemanticMatch(key, options)
  }

  /** A suggestion made only of white space compares as the empty string: it
      matches an empty option exactly, and otherwise it is contained in every
      option, so the first option is chosen. */
  lemma WhitespaceSuggestionPicksFirst(question: string, options: seq<string>, aiAnswer: string, jobDescription: string)
    requires aiAnswer != [] && options != []
    requires forall i :: 0 <= i < |aiAnswer| ==> IsSpace(aiAnswer[i])
    ensures (forall i :: 0 <= i < |options| ==> options[i] != []) ==>
      GetBestMatchingOption(question, options, aiAnswer, jobDescription) == Some(options[0])
    ensures (exists i :: 0 <= i < |options| && options[i] == []) ==>
      GetBestMatchingOption(question, options, aiAnswer, jobDescription) == Some([])
  {
    var key := SuggestionKey(aiAnswer);
    LowerKeepsSpaces(aiAnswer);
    assert key == [];
    assert forall o :: Passes(ExactMatch(key), o) <==> o == [];
    assert Passes(SuggestionInOption(key), options[0]);
  }

  // ---------------------------------------------------------------------
  // _semantic_match

  predicate IsAffirmative(answer: string)
  {
    ContainsAny(answer, AffirmativeKeywords)
  }

  predicate IsNegative(answer: string)
  {
    ContainsAny(answer, NegativeKeywords)
  }

  predicate LooksNumeric(answer: string)
  {
    Contains(answer, "experience") || Contains(answer, "years") || AllDigits(answer)
  }

  /** The semantic fallback, in three stages: the keyword stage (options
      scanned once, affirmative tested before negative within each option),
      then, for an answer about experience or years or made of digits, the
      first option with a digit, then the first option that contains a word of
      the answer longer than three characters. */
  function SemanticMatch(answer: string, options: seq<string>): (r: Option<string>)
    ensures r.Some? ==> r.value in options
    ensures AnyPasses(KeywordOption(answer), options) ==>
      r.Some? && IsFirstPassing(KeywordOption(answer), options, r.value)
    ensures (!AnyPasses(KeywordOption(answer), options) && LooksNumeric(answer) && AnyPasses(HasDigitRule, options)) ==>
      r.Some? && IsFirstPassing(HasDigitRule, options, r.value)
    ensures (!AnyPasses(KeywordOption(answer), options) && (!LooksNumeric(answer) || !AnyPasses(HasDigitRule, options))) ==>
      if AnyPasses(SharesTechWord(answer), options)
      then r.Some? && IsFirstPassing(SharesTechWord(answer), options, r.value)
      else r.None?
  {
    var keyword := FirstPassing(KeywordOption(answer), options);
    if keyword.Some? then keyword
    else
      var numeric := if LooksNumeric(answer) then FirstPassing(HasDigitRule, options) else None;
      if numeric.Some? then numeric
      else FirstPassing(SharesTechWord(answer), options)
  }

  /** The keyword stage goes option by option: an answer that is both
      affirmative and negative takes an earlier option with only a negative
      keyword over a later one with an affirmative keyword. */
  lemma MixedAnswerTakesEarlierOption(answer: string, options: seq<string>, k: nat)
    requires IsAffirmative(answer) && IsNegative(answer)
    requires k < |options| && ContainsAny(Lower(options[k]), NegativeKeywords)
    requires forall j :: 0 <= j < k ==> !Passes(KeywordOption(answer), options[j])
    ensures SemanticMatch(answer, options) == Some(options[k])
  {
    assert Passes(KeywordOption(answer), options[k]);
  }

  // ---------------------------------------------------------------------
  // validate_dropdown_answer

  /** The selection is valid exactly when it is one of the options, compared
      case-sensitively; the question plays no part. */
  function ValidateDropdownAnswer(question: string, selectedOption: string, options: seq<string>): (r: bool)
    ensures r <==> exists i :: 0 <= i < |options| && options[i] == selectedOption
  {
    selectedOption in options
  }

  // ---------------------------------------------------------------------
  // rank_options_by_relevance; scores are in half-points

  const YesWords: seq<string> := ["yes", "agree", "willing"]
  const NoWords: seq<string> := ["no", "disagree", "decline"]

  /** The keyword bonus: a question with "yes" and an option with a yes-word,
      or else a question with "no" and an option with a no-word. */
  predicate KeywordBonus(question: string, option: string)
  {
    var q := Lower(question);
    var o := Lower(option);
    (Contains(q, "yes") && ContainsAny(o, YesWords)) ||
    (Contains(q, "no") && ContainsAny(o, NoWords))
  }

  /** Number of distinct lower-case words the option shares with the job
      description; none without a job description. */
  function SharedWords(option: string, jobDescription: string): nat
  {
    if jobDescription == [] then 0
    else |Elements(Split(Lower(option))) * Elements(Split(Lower(jobDescription)))|
  }

  /** Each shared word is a word of the option, so an option never earns
      more half-points from the job description than it has distinct words. */
  lemma SharedWordsBounded(option: string, jobDescription: string)
    ensures SharedWords(option, jobDescription) <= |Elements(Split(Lower(option)))|
    ensures jobDescription == [] ==> SharedWords(option, jobDescription) == 0
  {
    IntersectionCardinality(Elements(Split(Lower(option))), Elements(Split(Lower(jobDescription))));
  }

  /** An option's relevance in half-points: 20 for the keyword bonus, 4 for an
      option of at most three words, 1 per shared job-description word. */
  function Score(question: string, option: string, jobDescription: string): nat
  {
    (if KeywordBonus(question, option) then 20 else 0)
    + (if |Split(option)| <= 3 then 4 else 0)
    + SharedWords(option, jobDescription)
  }

  /** Without a job description a score is at most 24 half-points, and it
      is 20 or more exactly when the keyword bonus applies. */
  lemma ScoreWithoutJobDescription(question: string, option: string)
    ensures Score(question, option, []) <= 24
    ensures Score(question, option, []) >= 20 <==> KeywordBonus(question, option)
  {
  }

  /** Each option paired with its score, in the given order. */
  function Scored(question: string, options: seq<string>, jobDescription: string): (r: seq<(string, nat)>)
    ensures |r| == |options|
    ensures forall i :: 0 <= i < |r| ==> r[i] == (options[i], Score(question, options[i], jobDescription))
  {
    seq(|options|, i requires 0 <= i < |options| => (options[i], Score(question, options[i], jobDescription)))
  }

  ghost predicate SortedDesc(s: seq<(string, nat)>)
  {
    forall i, j :: 0 <= i < j < |s| ==> s[i].1 >= s[j].1
  }

  /** The elements of `s` with score `v`, in their order in `s`. */
  function WithScore(s: seq<(string, nat)>, v: nat): seq<(string, nat)>
  {
    if s == [] then []
    else WithScore(s[..|s| - 1], v) + (if s[|s| - 1].1 == v then [s[|s| - 1]] else [])
  }

  /** Puts `x` right after the last element whose score is at least its own. */
  function Insert(t: seq<(string, nat)>, x: (string, nat)): seq<(string, nat)>
  {
    if t == [] || t[|t| - 1].1 >= x.1 then t + [x]
    else Insert(t[..|t| - 1], x) + [t[|t| - 1]]
  }

  /** The stable sort by score, highest first, as successive insertions. */
  function SortDesc(s: seq<(string, nat)>): seq<(string, nat)>
  {
    if s == [] then [] else Insert(SortDesc(s[..|s| - 1]), s[|s| - 1])
  }

  lemma {:induction false} InsertKeepsElements(t: seq<(string, nat)>, x: (string, nat))
    ensures multiset(Insert(t, x)) == multiset(t) + multiset{x}
    decreases |t|
  {
    if !(t == [] || t[|t| - 1].1 >= x.1) {
      InsertKeepsElements(t[..|t| - 1], x);
      assert t == t[..|t| - 1] + [t[|t| - 1]];
    }
  }

  lemma {:induction false} InsertKeepsSorted(t: seq<(string, nat)>, x: (string, nat))
    requires SortedDesc(t)
    ensures SortedDesc(Insert(t, x))
    decreases |t|
  {
    if !(t == [] || t[|t| - 1].1 >= x.1) {
      var init, last := t[..|t| - 1], t[|t| - 1];
      InsertKeepsSorted(init, x);
      InsertKeepsElements(init, x);
      var rest := Insert(init, x);
      forall i | 0 <= i < |rest| ensures rest[i].1 >= last.1 {
        assert rest[i] in multiset(rest);
        if rest[i] != x {
          assert rest[i] in multiset(init);
          var k :| 0 <= k < |init| && init[k] == rest[i];
          assert t[k] == init[k];
        }
      }
    }
  }

  /** The sort keeps every element. */
  lemma {:induction false} SortDescIsPermutation(s: seq<(string, nat)>)
    ensures multiset(SortDesc(s)) == multiset(s)
    decreases |s|
  {
    if s != [] {
      SortDescIsPermutation(s[..|s| - 1]);
      InsertKeepsElements(SortDesc(s[..|s| - 1]), s[|s| - 1]);
      assert s == s[..|s| - 1] + [s[|s| - 1]];
    }
  }

  /** The sort orders by score, highest first. */
  lemma {:induction false} SortDescIsSorted(s: seq<(string, nat)>)
    ensures SortedDesc(SortDesc(s))
    decreases |s|
  {
    if s != [] {
      SortDescIsSorted(s[..|s| - 1]);
      InsertKeepsSorted(SortDesc(s[..|s| - 1]), s[|s| - 1]);
    }
  }

  lemma WithScoreAppend(s: seq<(string, nat)>, x: (string, nat), v: nat)
    ensures WithScore(s + [x], v) == WithScore(s, v) + (if x.1 == v then [x] else [])
  {
    assert (s + [x])[..|s|] == s;
  }

  lemma {:induction false} InsertWithScore(t: seq<(string, nat)>, x: (string, nat), v: nat)
    ensures WithScore(Insert(t, x), v) == WithScore(t, v) + (if x.1 == v then [x] else [])
    decreases |t|
  {
    if t == [] || t[|t| - 1].1 >= x.1 {
      WithScoreAppend(t, x, v);
    } else {
      var init, last := t[..|t| - 1], t[|t| - 1];
      InsertWithScore(init, x, v);
      WithScoreAppend(Insert(init, x), last, v);
      assert t == init + [last];
      WithScoreAppend(init, last, v);
    }
  }

  /** Stability: for every score, the options with that score keep their
      relative order. */
  lemma {:induction false} SortDescIsStable(s: seq<(string, nat)>, v: nat)
    ensures WithScore(SortDesc(s), v) == WithScore(s, v)
    decreases |s|
  {
    if s != [] {
      var init, last := s[..|s| - 1], s[|s| - 1];
      SortDescIsStable(init, v);
      InsertWithScore(SortDesc(init), last, v);
      assert s == init + [last];
      WithScoreAppend(init, last, v);
    }
  }

  /** Inserting `x` at the position the scan from the back stops at. */
  lemma {:induction false} InsertAt(t: seq<(string, nat)>, x: (string, nat), j: nat)
    requires j <= |t|
    requires forall k :: j <= k < |t| ==> t[k].1 < x.1
    requires j == 0 || t[j - 1].1 >= x.1
    ensures Insert(t, x) == t[..j] + [x] + t[j..]
    decreases |t| - j
  {
    if j < |t| {
      var init := t[..|t| - 1];
      InsertAt(init, x, j);
      assert init[..j] == t[..j];
      assert init[j..] + [t[|t| - 1]] == t[j..];
    }
  }

  /** One step of the in-place insertion sort: shifts the elements before
      position `i` whose score is below that of `a[i]` one place up and puts
      `a[i]` into the gap. */
  method InsertionStep(a: array<(string, nat)>, i: nat)
    requires i < a.Length
    modifies a
    ensures a[..i + 1] == Insert(old(a[..i]), old(a[i]))
    ensures a[i + 1..] == old(a[i + 1..])
  {
    var x := a[i];
    ghost var t := a[..i];
    var j := i;
    while j > 0 && a[j - 1].1 < x.1
      invariant 0 <= j <= i
      invariant forall k :: 0 <= k < j ==> a[k] == t[k]
      invariant forall k :: j < k <= i ==> a[k] == t[k - 1]
      invariant forall k :: j <= k < i ==> t[k].1 < x.1
      invariant a[i + 1..] == old(a[i + 1..])
    {
      a[j] := a[j - 1];
      j := j - 1;
    }
    a[j] := x;
    InsertAt(t, x, j);
    ghost var inserted := t[..j] + [x] + t[j..];
    assert |inserted| == i + 1;
    forall k | 0 <= k <= i ensures a[k] == inserted[k] {
      if k < j {
        assert inserted[k] == t[k];
      } else if k > j {
        assert inserted[k] == t[k - 1];
      }
    }
    assert a[..i + 1] == inserted;
  }

  /** The in-place sort of the ranked list: a stable insertion sort by score,
      highest first. */
  method SortByScoreDescending(a: array<(string, nat)>)
    modifies a
    ensures a[..] == SortDesc(old(a[..]))
  {
    ghost var input := a[..];
    var i := 0;
    while i < a.Length
      invariant 0 <= i <= a.Length
      invariant a[..i] == SortDesc(input[..i])
      invariant a[i..] == input[i..]
    {
      InsertionStep(a, i);
      assert input[..i + 1][..i] == input[..i];
      i := i + 1;
    }
    assert input[..a.Length] == input;
  }

  /** The scoring loop: one `(option, score)` pair appended per option. */
  method ScoreOptions(question: string, options: seq<string>, jobDescription: string)
    returns (ranked: seq<(string, nat)>)
    ensures ranked == Scored(question, options, jobDescription)
  {
    ranked := [];
    ghost var all := Scored(question, options, jobDescription);
    for i := 0 to |options|
      invariant ranked == all[..i]
    {
      ranked := ranked + [(options[i], Score(question, options[i], jobDescription))];
      assert all[..i + 1] == all[..i] + [all[i]];
    }
    assert all[..|options|] == all;
  }

  /** The options with their scores, sorted by score with the highest first,
      options of equal score in their original order. */
  method RankOptionsByRelevance(question: string, options: seq<string>, jobDescription: string)
    returns (ranked: seq<(string, nat)>)
    ensures ranked == SortDesc(Scored(question, options, jobDescription))
    ensures multiset(ranked) == multiset(Scored(question, options, jobDescription))
    ensures SortedDesc(ranked)
    ensures forall v :: WithScore(ranked, v) == WithScore(Scored(question, options, jobDescription), v)
  {
    var scored := ScoreOptions(question, options, jobDescription);
    var a := new (string, nat)[|scored|](k requires 0 <= k < |scored| => scored[k]);
    assert a[..] == scored;
    SortByScoreDescending(a);
    ranked := a[..];
    SortDescIsPermutation(scored);
    SortDescIsSorted(scored);
    forall v ensures WithScore(ranked, v) == WithScore(scored, v) {
      SortDescIsStable(scored, v);
    }
  }

  // ---------------------------------------------------------------------
  // suggest_option_with_fallback

  const WillingWords: seq<string> := ["comfortable", "willing", "able", "can"]
  const SkillWords: seq<string> := ["skill", "experience", "years", "knowledge"]
  const ShortPlaceholders: seq<string> := ["select an option", "choose one", "none"]
  const Placeholders: seq<string> := ["select an option", "choose one", "none", "select", "please select"]

  predicate AsksWillingness(question: string)
  {
    ContainsAny(Lower(question), WillingWords)
  }

  predicate AsksPreference(question: string)
  {
    Contains(Lower(question), "prefer") || Contains(Lower(question), "decline")
  }

  predicate AsksSkill(question: string)
  {
    ContainsAny(Lower(question), SkillWords)
  }

  /** Rule (a) applies and finds a "yes", "agree" or "ok" option. */
  predicate WillingRuleFinds(question: string, options: seq<string>)
  {
    AsksWillingness(question) && (AnyPasses(MentionsYes, options) || AnyPasses(MentionsAgreement, options))
  }

  /** Rule (b) applies and finds a "prefer not" or "decline" option. */
  predicate DecliningRuleFinds(question: string, options: seq<string>)
  {
    AsksPreference(question) && AnyPasses(MentionsDeclining, options)
  }

  /** Rule (c) applies and finds an option that is not a short placeholder. */
  predicate SkillRuleFinds(question: string, options: seq<string>)
  {
    AsksSkill(question) && AnyPasses(NotShortPlaceholder, options)
  }

  /** The heuristic default. Rules in order, the first that finds an option
      wins: a willingness question takes a "yes" option, else an "agree"/"ok"
      one; a preference question takes a "prefer not"/"decline" option; a
      skill question takes the first option that is not one of three
      placeholders; then the first option that is not one of five
      placeholders; then the first option. No option is chosen only from an
      empty list. The question type takes no part. */
  function SuggestOptionWithFallback(question: string, options: seq<string>, questionType: string): (r: Option<string>)
    ensures r.None? <==> options == []
    ensures r.Some? ==> r.value in options
    ensures (AsksWillingness(question) && AnyPasses(MentionsYes, options)) ==>
      r.Some? && IsFirstPassing(MentionsYes, options, r.value)
    ensures (AsksWillingness(question) && !AnyPasses(MentionsYes, options) && AnyPasses(MentionsAgreement, options)) ==>
      r.Some? && IsFirstPassing(MentionsAgreement, options, r.value)
    ensures (!WillingRuleFinds(question, options) && DecliningRuleFinds(question, options)) ==>
      r.Some? && IsFirstPassing(MentionsDeclining, options, r.value)
    ensures (!WillingRuleFinds(question, options) && !DecliningRuleFinds(question, options) &&
             SkillRuleFinds(question, options)) ==>
      r.Some? && IsFirstPassing(NotShortPlaceholder, options, r.value)
    ensures (!WillingRuleFinds(question, options) && !DecliningRuleFinds(question, options) &&
             !SkillRuleFinds(question, options) && AnyPasses(NotPlaceholder, options)) ==>
      r.Some? && IsFirstPassing(NotPlaceholder, options, r.value)
    ensures (options != [] && !WillingRuleFinds(question, options) && !DecliningRuleFinds(question, options) &&
             !SkillRuleFinds(question, options) && !AnyPasses(NotPlaceholder, options)) ==>
      r == Some(options[0])
  {
    if options == [] then None
    else
      var willing :=
        if AsksWillingness(question) then
          var yes := FirstPassing(MentionsYes, options);
          if yes.Some? then yes else FirstPassing(MentionsAgreement, options)
        else None;
      if willing.Some? then willing
      else
        var declining := if AsksPreference(question) then FirstPassing(MentionsDeclining, options) else None;
        if declining.Some? then declining
        else
          var skilled := if AsksSkill(question) then FirstPassing(NotShortPlaceholder, options) else None;
          if skilled.Some? then skilled
          else
            var genuine := FirstPassing(NotPlaceholder, options);
            if genuine.Some? then genuine else Some(options[0])
  }

  /** A string lacking one character of `sub` does not contain `sub`. */
  lemma MissingCharNotContained(o: string, sub: string, c: char)
    requires c in sub && c !in o
    ensures !Contains(o, sub)
  {
    if Contains(o, sub) {
      ContainsChar(o, sub, c);
    }
  }

  /** `o` has none of the letters that tell the keywords apart: y, g, k,
      f, d. */
  predicate LacksKeywordLetters(o: string)
  {
    'y' !in o && 'g' !in o && 'k' !in o && 'f' !in o && 'd' !in o
  }

  lemma PlaceholdersLackKeywordLetters(o: string)
    requires o in Placeholders
    ensures LacksKeywordLetters(o)
  {
    assert LacksKeywordLetters("select an option");
    assert LacksKeywordLetters("choose one");
    assert LacksKeywordLetters("none");
    assert LacksKeywordLetters("select");
    assert LacksKeywordLetters("please select");
  }

  /** A text without those letters mentions neither "yes", "agree", "ok",
      "prefer not" nor "decline". */
  lemma MentionsNothing(option: string, o: string)
    requires LacksKeywordLetters(o)
    ensures !PassesLowered(MentionsYes, option, o) && !PassesLowered(MentionsAgreement, option, o)
    ensures !PassesLowered(MentionsDeclining, option, o)
  {
    MissingCharNotContained(o, "yes", 'y');
    MissingCharNotContained(o, "agree", 'g');
    MissingCharNotContained(o, "ok", 'k');
    MissingCharNotContained(o, "prefer not", 'f');
    MissingCharNotContained(o, "decline", 'd');
  }

  /** When every option is a placeholder the heuristic falls back to the
      first option, unless the question asks about skills and some option is
      one of the two placeholders ("select", "please select") that the skill
      rule does not skip. */
  lemma AllPlaceholdersPickFirst(question: string, options: seq<string>, questionType: string)
    requires options != []
    requires forall i :: 0 <= i < |options| ==> Lower(options[i]) in Placeholders
    ensures !AsksSkill(question) ==> SuggestOptionWithFallback(question, options, questionType) == Some(options[0])
    ensures (AsksSkill(question) && AnyPasses(NotShortPlaceholder, options)) ==>
      var r := SuggestOptionWithFallback(question, options, questionType);
      r.Some? && IsFirstPassing(NotShortPlaceholder, options, r.value)
  {
    forall i | 0 <= i < |options|
      ensures !Passes(MentionsYes, options[i]) && !Passes(MentionsAgreement, options[i])
      ensures !Passes(MentionsDeclining, options[i]) && !Passes(NotPlaceholder, options[i])
    {
      PlaceholdersLackKeywordLetters(Lower(options[i]));
      MentionsNothing(options[i], Lower(options[i]));
    }
  }
}

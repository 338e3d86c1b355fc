/** The answer cache: a table from a digest of the normalised question to the
    stored question, answer, question type and write time. The table is an
    insertion-ordered dictionary, modelled as the sequence of its keys plus a
    map; scans go in key order. The digest is a parameter of the cache, time is
    an integer number of microseconds passed in by the caller, and reading and
    writing the backing file are outside the model (the content read at start
    is a constructor parameter). */
module Cache {
  import opened Seqs
  import opened Text

  const CacheExpiryDays: nat := 30
  const MicrosPerDay: nat := 24 * 60 * 60 * 1000000
  /** Age beyond which an entry is expired. */
  const Ttl: nat := CacheExpiryDays * MicrosPerDay

  /** An entry's timestamp: a point in time, or a missing or unparseable one. */
  datatype Stamp = At(micros: int) | Unreadable

  /** A stored entry; `qtype` is `None` when the stored record has no type. */
  datatype Entry = Entry(question: string, answer: string, qtype: Option<string>, stamp: Stamp)

  predicate IsExpired(stamp: Stamp, now: int)
  {
    match stamp
    case Unreadable => true
    case At(t) => now - t > Ttl
  }

  /** An entry is expired only when strictly older than thirty days; an
      unreadable timestamp always counts as expired; an expired entry stays
      expired as time goes on. */
  lemma ExpiryBoundaries(t: int, now: int, later: int)
    ensures now - t == Ttl ==> !IsExpired(At(t), now)
    ensures now - t == Ttl + 1 ==> IsExpired(At(t), now)
    ensures IsExpired(Unreadable, now)
    ensures IsExpired(At(t), now) && now <= later ==> IsExpired(At(t), later)
  {
  }

  // ---------------------------------------------------------------------
  // Normalisation

  /** The normalised question: lower-cased, split into words, joined with
      single spaces, then three replacements. The first two delete the space
      after "how many" and after "do you have"; the third replaces a phrase by
      itself. */
  function Normalize(question: string): string
  {
    var collapsed := JoinSpaced(Split(Lower(question)));
    var a := Replace(collapsed, "how many ", "how many");
    var b := Replace(a, "do you have ", "do you have");
    Replace(b, "of experience", "of experience")
  }

  /** The third replacement is a no-op. */
  lemma NormalizeSkipsLastReplacement(question: string)
    ensures Normalize(question) ==
      Replace(Replace(JoinSpaced(Split(Lower(question))), "how many ", "how many"), "do you have ", "do you have")
  {
    ReplaceSameIsIdentity(
      Replace(Replace(JoinSpaced(Split(Lower(question))), "how many ", "how many"), "do you have ", "do you have"),
      "of experience");
  }

  /** The replacement for "how many " removes the space that follows. */
  lemma HowManyLosesItsSpace(rest: string)
    ensures Replace("how many " + rest, "how many ", "how many") == "how many" + Replace(rest, "how many ", "how many")
  {
    assert "how many " <= "how many " + rest;
    assert ("how many " + rest)[|"how many "|..] == rest;
  }

  /** Questions that agree up to case and surrounding white space normalise
      to the same text, and so share a key. */
  lemma NormalizeIgnoresCaseAndPadding(q1: string, q2: string, before: string, after: string)
    requires Lower(q1) == Lower(q2)
    requires forall i :: 0 <= i < |before| ==> IsSpace(before[i])
    requires forall i :: 0 <= i < |after| ==> IsSpace(after[i])
    ensures Normalize(before + q1 + after) == Normalize(q2)
  {
    LowerAppend(before + q1, after);
    LowerAppend(before, q1);
    LowerKeepsSpaces(before);
    LowerKeepsSpaces(after);
    var lb, lq, la := Lower(before), Lower(q1), Lower(after);
    assert Lower(before + q1 + after) == lb + (lq + la);
    SplitSkipsLeadingSpaces(lb, lq + la);
    SplitSkipsTrailingSpaces(lq, la);
  }

  /** Two questions with the same lower-cased words share a normal form. */
  lemma SameWordsSameNormalForm(q1: string, q2: string)
    requires Split(Lower(q1)) == Split(Lower(q2))
    ensures Normalize(q1) == Normalize(q2)
  {
  }

  // ---------------------------------------------------------------------
  // Similarity

  function Max(a: nat, b: nat): nat
  {
    if a >= b then a else b
  }

  /** Word overlap of two normalised questions: shared distinct words over
      the larger number of distinct words, compared with the threshold; never
      similar when either has no words. */
  predicate Similar(query: string, cached: string, threshold: real)
  {
    var a := Elements(Split(Normalize(query)));
    var b := Elements(Split(Normalize(cached)));
    |a| > 0 && |b| > 0 && (|a * b| as real) / (Max(|a|, |b|) as real) >= threshold
  }

  /** A query without words is similar to nothing. */
  lemma WordlessQueryMatchesNothing(query: string, threshold: real)
    ensures Split(Normalize(query)) == [] ==> forall cached :: !Similar(query, cached, threshold)
  {
  }

  /** The entry under `k` exists and its question is similar to the query. */
  predicate SimilarEntry(entries: map<string, Entry>, query: string, threshold: real, k: string)
  {
    k in entries && Similar(query, entries[k].question, threshold)
  }

  // ---------------------------------------------------------------------
  // The ordered dictionary

  /** The shape of an insertion-ordered dictionary: distinct keys, exactly
      the keys of the map. */
  ghost predicate IsTable(keys: seq<string>, entries: map<string, Entry>)
  {
    Distinct(keys) && forall k :: k in entries <==> k in keys
  }

  predicate IsLive(entries: map<string, Entry>, k: string, now: int)
  {
    k in entries && !IsExpired(entries[k].stamp, now)
  }

  /** The keys that survive the expiry sweep, in their order. */
  function LiveKeys(keys: seq<string>, entries: map<string, Entry>, now: int): (r: seq<string>)
    ensures forall k :: k in r <==> k in keys && IsLive(entries, k, now)
    ensures Distinct(keys) ==> Distinct(r)
  {
    if keys == [] then []
    else
      var rest := LiveKeys(keys[1..], entries, now);
      assert forall k :: k in keys <==> k == keys[0] || k in keys[1..];
      if IsLive(entries, keys[0], now) then [keys[0]] + rest else rest
  }

  /** The entries that survive the expiry sweep. */
  function LiveEntries(entries: map<string, Entry>, now: int): (r: map<string, Entry>)
    ensures forall k :: k in r <==> IsLive(entries, k, now)
    ensures forall k :: k in r ==> k in entries && r[k] == entries[k]
  {
    map k | k in entries && !IsExpired(entries[k].stamp, now) :: entries[k]
  }

  /** `keys` without the members of `gone`, in order. */
  function Without(keys: seq<string>, gone: set<string>): (r: seq<string>)
  {
    if keys == [] then []
    else (if keys[0] in gone then [] else [keys[0]]) + Without(keys[1..], gone)
  }

  lemma {:induction false} WithoutTwice(keys: seq<string>, gone: set<string>, k: string)
    ensures Without(Without(keys, gone), {k}) == Without(keys, gone + {k})
    decreases |keys|
  {
    if keys != [] {
      WithoutTwice(keys[1..], gone, k);
      var head := if keys[0] in gone then [] else [keys[0]];
      assert Without(keys, gone) == head + Without(keys[1..], gone);
      WithoutAppend(head, Without(keys[1..], gone), {k});
    }
  }

  lemma {:induction false} WithoutAppend(a: seq<string>, b: seq<string>, gone: set<string>)
    ensures Without(a + b, gone) == Without(a, gone) + Without(b, gone)
    decreases |a|
  {
    if a == [] {
      assert a + b == b;
    } else {
      WithoutAppend(a[1..], b, gone);
      assert (a + b)[0] == a[0];
      assert (a + b)[1..] == a[1..] + b;
      var head := if a[0] in gone then [] else [a[0]];
      assert Without(a + b, gone) == head + Without(a[1..] + b, gone);
      assert Without(a, gone) == head + Without(a[1..], gone);
    }
  }

  lemma {:induction false} WithoutNothing(keys: seq<string>)
    ensures Without(keys, {}) == keys
    decreases |keys|
  {
    if keys != [] {
      WithoutNothing(keys[1..]);
      assert [keys[0]] + keys[1..] == keys;
    }
  }

  /** Removing the expired keys leaves the live keys. */
  lemma {:induction false} WithoutExpiredIsLive(keys: seq<string>, gone: set<string>, entries: map<string, Entry>, now: int)
    requires forall k :: k in keys ==> (k in gone <==> !IsLive(entries, k, now))
    ensures Without(keys, gone) == LiveKeys(keys, entries, now)
    decreases |keys|
  {
    if keys != [] {
      WithoutExpiredIsLive(keys[1..], gone, entries, now);
    }
  }

  /** The type under which an entry is counted. */
  function TypeTag(e: Entry): string
  {
    match e.qtype
    case Some(t) => t
    case None => "unknown"
  }

  /** Number of the given keys whose entry has type tag `tag`. */
  function CountOfType(keys: seq<string>, entries: map<string, Entry>, tag: string): nat
    requires forall k :: k in keys ==> k in entries
  {
    if keys == [] then 0
    else
      CountOfType(keys[..|keys| - 1], entries, tag)
      + (if TypeTag(entries[keys[|keys| - 1]]) == tag then 1 else 0)
  }

  /** The type tags of the entries of `keys`, each once, in the order in
      which they first appear. */
  function TypesInOrder(keys: seq<string>, entries: map<string, Entry>): seq<string>
    requires forall k :: k in keys ==> k in entries
  {
    if keys == [] then []
    else
      var prev := TypesInOrder(keys[..|keys| - 1], entries);
      var tag := TypeTag(entries[keys[|keys| - 1]]);
      if tag in prev then prev else prev + [tag]
  }

  /** Each type is listed once, and exactly the types some key has are
      listed. */
  lemma {:induction false} TypesInOrderLists(keys: seq<string>, entries: map<string, Entry>)
    requires forall k :: k in keys ==> k in entries
    ensures Distinct(TypesInOrder(keys, entries))
    ensures forall t :: t in TypesInOrder(keys, entries) <==> CountOfType(keys, entries, t) > 0
  {
    if keys != [] {
      TypesInOrderLists(keys[..|keys| - 1], entries);
    }
  }

  /** Sum of the counts of the listed tags. */
  function SumOf(tags: seq<string>, counts: map<string, nat>): nat
    requires forall t :: t in tags ==> t in counts
  {
    if tags == [] then 0 else SumOf(tags[..|tags| - 1], counts) + counts[tags[|tags| - 1]]
  }

  lemma {:induction false} SumOfIgnoresOthers(tags: seq<string>, counts: map<string, nat>, t: string, v: nat)
    requires forall u :: u in tags ==> u in counts
    requires t !in tags
    ensures SumOf(tags, counts[t := v]) == SumOf(tags, counts)
    decreases |tags|
  {
    if tags != [] {
      SumOfIgnoresOthers(tags[..|tags| - 1], counts, t, v);
    }
  }

  /** A new tag appended with count `v` adds `v` to the sum. */
  lemma SumOfSnoc(tags: seq<string>, counts: map<string, nat>, t: string, v: nat)
    requires forall u :: u in tags ==> u in counts
    requires t !in tags
    ensures SumOf(tags + [t], counts[t := v]) == SumOf(tags, counts) + v
  {
    SumOfIgnoresOthers(tags, counts, t, v);
    assert (tags + [t])[..|tags|] == tags;
  }

  lemma {:induction false} SumOfIncrement(tags: seq<string>, counts: map<string, nat>, t: string)
    requires forall u :: u in tags ==> u in counts
    requires Distinct(tags) && t in tags
    ensures SumOf(tags, counts[t := counts[t] + 1]) == SumOf(tags, counts) + 1
    decreases |tags|
  {
    var init, last := tags[..|tags| - 1], tags[|tags| - 1];
    assert Distinct(init);
    if last == t {
      assert t !in init;
      SumOfIgnoresOthers(init, counts, t, counts[t] + 1);
    } else {
      assert t in init;
      SumOfIncrement(init, counts, t);
    }
  }

  /** `tags` and `counts` are the per-type counts of the entries of `keys`:
      the tags seen, each once, with positive counts adding up to the number
      of keys. */
  ghost predicate CountsFor(keys: seq<string>, entries: map<string, Entry>, tags: seq<string>, counts: map<string, nat>)
    requires forall k :: k in keys ==> k in entries
  {
    && tags == TypesInOrder(keys, entries)
    && Distinct(tags)
    && (forall t :: t in counts <==> t in tags)
    && CountsMatch(keys, entries, counts)
    && SumOf(tags, counts) == |keys|
  }

  /** Every type in `counts` has its positive number of keys, and every
      other type has none. */
  ghost predicate CountsMatch(keys: seq<string>, entries: map<string, Entry>, counts: map<string, nat>)
    requires forall k :: k in keys ==> k in entries
  {
    && (forall t :: t in counts ==> counts[t] == CountOfType(keys, entries, t) && counts[t] > 0)
    && (forall t :: t !in counts ==> CountOfType(keys, entries, t) == 0)
  }

  /** Counting one more key adds one to the count of its type. */
  lemma CountsMatchStep(keys: seq<string>, x: string, entries: map<string, Entry>, counts: map<string, nat>)
    requires forall k :: k in keys ==> k in entries
    requires x in entries
    requires CountsMatch(keys, entries, counts)
    ensures var tag := TypeTag(entries[x]);
      if tag in counts then CountsMatch(keys + [x], entries, counts[tag := counts[tag] + 1])
      else CountsMatch(keys + [x], entries, counts[tag := 1])
  {
    var tag := TypeTag(entries[x]);
    var counts' := counts[tag := (if tag in counts then counts[tag] else 0) + 1];
    forall t | t in counts' ensures counts'[t] == CountOfType(keys + [x], entries, t) && counts'[t] > 0 {
      CountOfTypeSnoc(keys, x, entries, t);
    }
    forall t | t !in counts' ensures CountOfType(keys + [x], entries, t) == 0 {
      CountOfTypeSnoc(keys, x, entries, t);
    }
  }

  /** Counting one more key adds one to its own tag and nothing to the others. */
  lemma CountOfTypeSnoc(keys: seq<string>, x: string, entries: map<string, Entry>, t: string)
    requires forall k :: k in keys ==> k in entries
    requires x in entries
    ensures CountOfType(keys + [x], entries, t) ==
      CountOfType(keys, entries, t) + (if TypeTag(entries[x]) == t then 1 else 0)
  {
    assert (keys + [x])[..|keys|] == keys;
  }

  /** One more key adds its tag at the end when the tag is new. */
  lemma TypesInOrderSnoc(keys: seq<string>, x: string, entries: map<string, Entry>)
    requires forall k :: k in keys ==> k in entries
    requires x in entries
    ensures var prev := TypesInOrder(keys, entries);
      TypesInOrder(keys + [x], entries) ==
        if TypeTag(entries[x]) in prev then prev else prev + [TypeTag(entries[x])]
  {
    assert (keys + [x])[..|keys|] == keys;
  }

  /** Types are listed by first appearance: the types of a prefix of the
      keys come first, in the same order, and later keys only add types at
      the end. */
  lemma {:induction false} TypesInOrderPrefix(keys: seq<string>, entries: map<string, Entry>, n: nat)
    requires forall k :: k in keys ==> k in entries
    requires n <= |keys|
    ensures TypesInOrder(keys[..n], entries) <= TypesInOrder(keys, entries)
    decreases |keys| - n
  {
    if n < |keys| {
      var init := keys[..|keys| - 1];
      assert init[..n] == keys[..n];
      TypesInOrderPrefix(init, entries, n);
      assert keys == init + [keys[|keys| - 1]];
      TypesInOrderSnoc(init, keys[|keys| - 1], entries);
    } else {
      assert keys[..n] == keys;
    }
  }

  /** A key of a type already seen raises that type's count. */
  lemma CountSeenType(keys: seq<string>, x: string, entries: map<string, Entry>, tags: seq<string>, counts: map<string, nat>)
    requires forall k :: k in keys ==> k in entries
    requires x in entries
    requires CountsFor(keys, entries, tags, counts)
    requires TypeTag(entries[x]) in counts
    ensures CountsFor(keys + [x], entries, tags, counts[TypeTag(entries[x]) := counts[TypeTag(entries[x])] + 1])
  {
    var tag := TypeTag(entries[x]);
    assert tag in tags;
    TypesInOrderSnoc(keys, x, entries);
    CountsMatchStep(keys, x, entries, counts);
    SumOfIncrement(tags, counts, tag);
  }

  /** A key of a new type adds that type, with count one, at the end. */
  lemma CountNewType(keys: seq<string>, x: string, entries: map<string, Entry>, tags: seq<string>, counts: map<string, nat>)
    requires forall k :: k in keys ==> k in entries
    requires x in entries
    requires CountsFor(keys, entries, tags, counts)
    requires TypeTag(entries[x]) !in counts
    ensures CountsFor(keys + [x], entries, tags + [TypeTag(entries[x])], counts[TypeTag(entries[x]) := 1])
  {
    var tag := TypeTag(entries[x]);
    var tags' := tags + [tag];
    assert tag !in tags;
    DistinctSnoc(tags, tag);
    TypesInOrderSnoc(keys, x, entries);
    CountsMatchStep(keys, x, entries, counts);
    SumOfSnoc(tags, counts, tag, 1);
    assert forall t :: t in tags' <==> t in tags || t == tag;
  }

  /** Counting the key at position `i` extends the counts of the keys before
      it to the counts of the keys up to it. */
  lemma CountKeyAt(keys: seq<string>, i: nat, entries: map<string, Entry>, tags: seq<string>, counts: map<string, nat>)
    requires forall k :: k in keys ==> k in entries
    requires i < |keys|
    requires CountsFor(keys[..i], entries, tags, counts)
    ensures var tag := TypeTag(entries[keys[i]]);
      if tag in counts then CountsFor(keys[..i + 1], entries, tags, counts[tag := counts[tag] + 1])
      else CountsFor(keys[..i + 1], entries, tags + [tag], counts[tag := 1])
  {
    assert keys[..i + 1] == keys[..i] + [keys[i]];
    if TypeTag(entries[keys[i]]) in counts {
      CountSeenType(keys[..i], keys[i], entries, tags, counts);
    } else {
      CountNewType(keys[..i], keys[i], entries, tags, counts);
    }
  }

  /** The smallest timestamp among the entries of the given keys. */
  function MinStamp(keys: seq<string>, entries: map<string, Entry>): (r: Option<int>)
    requires forall k :: k in keys ==> k in entries && entries[k].stamp.At?
    ensures r.None? <==> keys == []
    ensures r.Some? ==> exists i :: 0 <= i < |keys| && entries[keys[i]].stamp.micros == r.value
    ensures r.Some? ==> forall i :: 0 <= i < |keys| ==> r.value <= entries[keys[i]].stamp.micros
  {
    if keys == [] then None
    else
      var first := entries[keys[0]].stamp.micros;
      match MinStamp(keys[1..], entries)
      case None => Some(first)
      case Some(m) =>
        assert forall i :: 1 <= i < |keys| ==> keys[i] == keys[1..][i - 1];
        if m < first then Some(m) else Some(first)
  }

  /** The statistics of `get_stats`; the per-type counts are an ordered
      dictionary, tags in order of first appearance. */
  datatype Stats = Stats(totalCached: nat, typeOrder: seq<string>, byType: map<string, nat>,
                         oldestEntry: Option<int>, cacheFile: string)

  class AnswerCache {
    /** The digest of a normalised question (the system uses MD5). */
    const digest: string -> string
    const cacheFile: string
    var keys: seq<string>
    var entries: map<string, Entry>

    /** A dictionary, and every timestamp readable (the sweep at start
        removes the others, and every write stores the current time). */
    ghost predicate Valid()
      reads this
    {
      IsTable(keys, entries) && forall k :: k in entries ==> entries[k].stamp.At?
    }

    /** Builds the cache from the table read from the backing file and sweeps
        out expired entries. */
    constructor (digest: string -> string, cacheFile: string,
                 loadedKeys: seq<string>, loadedEntries: map<string, Entry>, now: int)
      requires IsTable(loadedKeys, loadedEntries)
      ensures Valid()
      ensures this.digest == digest && this.cacheFile == cacheFile
      ensures keys == LiveKeys(loadedKeys, loadedEntries, now)
      ensures entries == LiveEntries(loadedEntries, now)
    {
      this.digest := digest;
      this.cacheFile := cacheFile;
      keys := loadedKeys;
      entries := loadedEntries;
      new;
      SanitizeOldEntries(now);
    }

    /** The key of a question: the digest of its normal form. */
    function Key(question: string): string
    {
      digest(Normalize(question))
    }

    /** The stored answer when the question's entry exists, is not expired
        and was stored with exactly this type; otherwise none. */
    function Get(question: string, questionType: string, now: int): (r: Option<string>)
      reads this
      ensures r.Some? <==>
        var k := Key(question);
        k in entries && !IsExpired(entries[k].stamp, now) && entries[k].qtype == Some(questionType)
      ensures r.Some? ==> r.value == entries[Key(question)].answer
    {
      var k := Key(question);
      if k in entries && !IsExpired(entries[k].stamp, now) && entries[k].qtype == Some(questionType)
      then Some(entries[k].answer)
      else None
    }

    /** Stores the answer under the question's key, with the original
        question text, the type and the current time; a new key goes to the
        end of the order, an existing one keeps its place. Nothing else
        changes. */
    method Set(question: string, answer: string, questionType: string, now: int)
      requires Valid()
      modifies this
      ensures Valid()
      ensures entries == old(entries)[Key(question) := Entry(question, answer, Some(questionType), At(now))]
      ensures keys == if Key(question) in old(entries) then old(keys) else old(keys) + [Key(question)]
      ensures forall k :: k != Key(question) ==>
        (k in entries <==> k in old(entries)) && (k in entries ==> entries[k] == old(entries)[k])
    {
      var k := Key(question);
      if k !in entries {
        keys := keys + [k];
      }
      entries := entries[k := Entry(question, answer, Some(questionType), At(now))];
    }

    /** The expiry sweep: collects the expired keys in order, then deletes
        each. Afterwards no entry is expired and every live entry is kept. */
    method SanitizeOldEntries(now: int)
      requires IsTable(keys, entries)
      modifies this
      ensures Valid()
      ensures keys == LiveKeys(old(keys), old(entries), now)
      ensures entries == LiveEntries(old(entries), now)
      ensures forall k :: k in entries ==> !IsExpired(entries[k].stamp, now)
      ensures forall k :: k in old(entries) && !IsExpired(old(entries)[k].stamp, now) ==>
        k in entries && entries[k] == old(entries)[k]
    {
      var expired := ExpiredKeys(now);
      ghost var keys0, entries0 := keys, entries;
      DeleteKeys(expired);
      WithoutExpiredIsLive(keys0, Elements(expired), entries0, now);
      assert entries == LiveEntries(entries0, now);
    }

    /** The first pass of the sweep: the keys whose entries are expired, in
        key order. */
    method ExpiredKeys(now: int) returns (expired: seq<string>)
      requires IsTable(keys, entries)
      ensures Distinct(expired)
      ensures forall k :: k in expired <==> k in keys && !IsLive(entries, k, now)
    {
      expired := [];
      var ks, es := keys, entries;
      for i := 0 to |ks|
        invariant Distinct(expired)
        invariant forall k :: k in expired <==> k in ks[..i] && !IsLive(es, k, now)
      {
        assert ks[i] !in ks[..i];
        if IsExpired(es[ks[i]].stamp, now) {
          expired := expired + [ks[i]];
        }
        assert ks[..i + 1] == ks[..i] + [ks[i]];
      }
      assert ks[..|ks|] == ks;
    }

    /** The second pass of the sweep: deletes the given keys one at a
        time; each is still present when its turn comes. */
    method DeleteKeys(gone: seq<string>)
      requires Distinct(gone) && forall k :: k in gone ==> k in entries
      modifies this
      ensures entries == old(entries) - Elements(gone)
      ensures keys == Without(old(keys), Elements(gone))
    {
      ghost var keys0, entries0 := keys, entries;
      WithoutNothing(keys0);
      assert Elements(gone[..0]) == {};
      assert entries == entries - {};
      for j := 0 to |gone|
        invariant entries == entries0 - Elements(gone[..j])
        invariant keys == Without(keys0, Elements(gone[..j]))
      {
        var k := gone[j];
        assert k !in Elements(gone[..j]) by {
          forall x | x in gone[..j] ensures x != k {
            var m :| 0 <= m < j && gone[m] == x;
          }
        }
        assert k in entries;
        entries := entries - {k};
        WithoutTwice(keys0, Elements(gone[..j]), k);
        keys := Without(keys, {k});
        assert Elements(gone[..j + 1]) == Elements(gone[..j]) + {k};
      }
      assert gone[..|gone|] == gone;
    }

    /** The first entry in key order whose question is similar to the given
        one, as (stored question, answer); type and expiry play no part. */
    function FindSimilarAnswer(question: string, threshold: real): (r: Option<(string, string)>)
      reads this
      requires Valid()
      ensures r.None? <==> forall i :: 0 <= i < |keys| ==> !SimilarEntry(entries, question, threshold, keys[i])
      ensures r.Some? ==> exists i :: (0 <= i < |keys| && SimilarEntry(entries, question, threshold, keys[i]) &&
        r.value == (entries[keys[i]].question, entries[keys[i]].answer) &&
        forall j :: 0 <= j < i ==> !SimilarEntry(entries, question, threshold, keys[j]))
      ensures Split(Normalize(question)) == [] ==> r.None?
    {
      var es := entries;
      WordlessQueryMatchesNothing(question, threshold);
      match FirstIndex(keys, k => SimilarEntry(es, question, threshold, k))
      case None => None
      case Some(i) =>
        var r := Some((es[keys[i]].question, es[keys[i]].answer));
        assert 0 <= i < |keys| && SimilarEntry(entries, question, threshold, keys[i]) &&
          r.value == (entries[keys[i]].question, entries[keys[i]].answer) &&
          forall j :: 0 <= j < i ==> !SimilarEntry(entries, question, threshold, keys[j]);
        r
    }

    /** Empties the table. */
    method Clear()
      modifies this
      ensures Valid()
      ensures keys == [] && entries == map[]
    {
      keys := [];
      entries := map[];
    }

    /** The number of entries per type tag, tags in order of first
        appearance; the counts add up to the number of entries. */
    method CountByType() returns (tags: seq<string>, counts: map<string, nat>)
      requires Valid()
      ensures tags == TypesInOrder(keys, entries)
      ensures Distinct(tags) && forall t :: t in counts <==> t in tags
      ensures forall t :: t in counts ==> counts[t] == CountOfType(keys, entries, t) && counts[t] > 0
      ensures forall t :: t !in counts ==> CountOfType(keys, entries, t) == 0
      ensures SumOf(tags, counts) == |keys|
    {
      tags, counts := [], map[];
      var ks, es := keys, entries;
      assert forall k :: k in ks ==> k in es;
      for i := 0 to |ks|
        invariant forall k :: k in ks[..i] ==> k in es
        invariant CountsFor(ks[..i], es, tags, counts)
      {
        var tag := TypeTag(es[ks[i]]);
        CountKeyAt(ks, i, es, tags, counts);
        if tag in counts {
          counts := counts[tag := counts[tag] + 1];
        } else {
          tags, counts := tags + [tag], counts[tag := 1];
        }
      }
      assert ks[..|ks|] == ks;
      assert CountsFor(ks, es, tags, counts);
    }

    /** The earliest write time among the entries, none for an empty table. */
    function OldestEntryDate(): (r: Option<int>)
      reads this
      requires Valid()
      ensures r.None? <==> entries == map[]
      ensures r.Some? ==> exists k :: k in entries && entries[k].stamp == At(r.value)
      ensures r.Some? ==> forall k :: k in entries ==> r.value <= entries[k].stamp.micros
    {
      if entries == map[] then None
      else
        var m := MinStamp(keys, entries);
        assert keys != [] by {
          var k :| k in entries;
          assert k in keys;
        }
        m
    }

    /** The statistics: entry count, counts per type adding up to it, the
        oldest write time, the backing file's path. */
    method GetStats() returns (s: Stats)
      requires Valid()
      ensures s.totalCached == |entries|
      ensures s.typeOrder == TypesInOrder(keys, entries)
      ensures Distinct(s.typeOrder) && forall t :: t in s.byType <==> t in s.typeOrder
      ensures SumOf(s.typeOrder, s.byType) == s.totalCached
      ensures forall t :: t in s.byType ==> s.byType[t] == CountOfType(keys, entries, t) && s.byType[t] > 0
      ensures forall t :: t !in s.byType ==> CountOfType(keys, entries, t) == 0
      ensures s.oldestEntry == OldestEntryDate()
      ensures s.oldestEntry.None? <==> s.totalCached == 0
      ensures s.cacheFile == cacheFile
    {
      var tags, counts := CountByType();
      DistinctCardinality(keys);
      assert entries.Keys == Elements(keys);
      s := Stats(|entries|, tags, counts, OldestEntryDate(), cacheFile);
    }
  }

  /** A stored answer is found again, with the same type, up to thirty days
      after it was stored. */
  method SetThenGet(cache: AnswerCache, question: string, answer: string, questionType: string,
                    storedAt: int, now: int) returns (r: Option<string>)
    requires cache.Valid() && now - storedAt <= Ttl
    modifies cache
    ensures r == Some(answer)
  {
    cache.Set(question, answer, questionType, storedAt);
    r := cache.Get(question, questionType, now);
  }

  /** A stored answer is not found under another type, however fresh. */
  method SetThenGetOtherType(cache: AnswerCache, question: string, answer: string, questionType: string,
                             otherType: string, now: int) returns (r: Option<string>)
    requires cache.Valid() && otherType != questionType
    modifies cache
    ensures r == None
  {
    cache.Set(question, answer, questionType, now);
    r := cache.Get(question, otherType, now);
  }

  /** After clearing, the statistics report no entries and no oldest entry. */
  method ClearThenStats(cache: AnswerCache) returns (s: Stats)
    modifies cache
    ensures s.totalCached == 0 && s.oldestEntry == None && s.byType == map[]
  {
    cache.Clear();
    s := cache.GetStats();
  }
}

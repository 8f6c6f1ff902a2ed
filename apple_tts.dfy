/** The query side of the training-data browser: the samples loaded from the metadata file,
    looked up by utterance name, by fuzzy text match, by substring and by category, plus the
    phoneme breakdown of one sample and the count/category statistics. */
module AppleTts {
  import opened Collections
  import opened Strings
  import opened Sorting
  import opened Difflib

  /** One line of the metadata file, with the fields the queries use. */
  datatype Sample = Sample(
    utteranceName: string,
    words: string,
    scriptTitle: string,
    phoneSequence: string,
    transcription: string)

  /** The count and category part of `get_stats()`. */
  datatype Stats = Stats(totalSamples: nat, categories: nat, categoryNames: seq<string>)

  /** The record `analyze_phonemes` returns. */
  datatype PhonemeAnalysis = PhonemeAnalysis(
    text: string,
    phonemeCount: nat,
    phonemes: seq<string>,
    fullSequence: string,
    transcription: string)

  /** Weight of the word-overlap bonus added to the similarity ratio. */
  const BonusWeight: real := 0.3

  /** A fuzzy match is reported only when its score is strictly above this. */
  const Threshold: real := 0.3

  /** The separator between the phonemes of one word in `phone_sequence`. */
  const PhonemeSeparator: string := " # "

  // ---------------------------------------------------------------------------
  // Normalisation and the predicates the loops test

  /** `text.lower().strip()`: how `find_closest_match` normalises its query. */
  function NormalizeQuery(text: string): string {
    Strip(Lower(text))
  }

  /** `sample['words'].lower()`: the text a query is compared with (not stripped). */
  function SampleText(s: Sample): string {
    Lower(s.words)
  }

  function HasId(id: string): Sample -> bool {
    (s: Sample) => s.utteranceName == id
  }

  function IsExactFor(q: string): Sample -> bool {
    (s: Sample) => SampleText(s) == q
  }

  function ContainsQuery(q: string): Sample -> bool {
    (s: Sample) => Contains(SampleText(s), q)
  }

  function InCategory(category: string): Sample -> bool {
    (s: Sample) => s.scriptTitle == category
  }

  // ---------------------------------------------------------------------------
  // The similarity score of find_closest_match

  /** `set(s.split())`. */
  function WordSet(s: string): set<string> {
    set w | w in Words(s)
  }

  /** `text_words & sample_words`. */
  function CommonWords(q: string, t: string): set<string> {
    set w | w in WordSet(q) && w in WordSet(t)
  }

  /** The share of the query's distinct words that also occur in the sample text;
      `0` for a query without words. */
  function WordOverlap(q: string, t: string): real {
    var qw := WordSet(q);
    if qw == {} then 0.0 else |CommonWords(q, t)| as real / |qw| as real
  }

  /** The overlap is a share: between `0` and `1`. */
  lemma WordOverlapBounds(q: string, t: string)
    ensures 0.0 <= WordOverlap(q, t) <= 1.0
  {
    var qw := WordSet(q);
    if qw != {} {
      SubsetSize(CommonWords(q, t), qw);
      FractionBounds(|CommonWords(q, t)|, |qw|);
    }
  }

  /** `ratio()` plus the weighted word-overlap bonus; at most `1.3`. */
  function Score(q: string, t: string): (r: real)
    ensures 0.0 <= r <= 1.0 + BonusWeight
  {
    WordOverlapBounds(q, t);
    Ratio(q, t) + WordOverlap(q, t) * BonusWeight
  }

  lemma {:induction false} SubsetSize(x: set<string>, a: set<string>)
    requires x <= a
    ensures |x| <= |a|
    decreases |a|
  {
    if x != {} {
      var e :| e in x;
      SubsetSize(x - {e}, a - {e});
    }
  }

  /** A subset as large as its superset is the superset. */
  lemma SubsetSameSize(x: set<string>, a: set<string>)
    requires x <= a && |x| == |a|
    ensures x == a
  {
    if x != a {
      var e :| e in a && e !in x;
      SubsetSize(x, a - {e});
    }
  }

  lemma FractionOne(x: nat, y: nat)
    requires 0 < y
    ensures x as real / y as real == 1.0 <==> x == y
  {
    if x as real / y as real == 1.0 {
      assert x as real == y as real;
    }
  }

  /** The bonus vanishes exactly when query and sample text share no word. */
  lemma WordOverlapZero(q: string, t: string)
    ensures WordOverlap(q, t) == 0.0 <==> CommonWords(q, t) == {}
  {
    var qw := WordSet(q);
    if qw != {} {
      FractionZero(|CommonWords(q, t)|, |qw|);
    }
  }

  /** The full bonus is earned exactly when the query has words and every one of them
      occurs in the sample text. */
  lemma WordOverlapFull(q: string, t: string)
    ensures WordOverlap(q, t) == 1.0 <==> WordSet(q) != {} && WordSet(q) <= WordSet(t)
  {
    var qw := WordSet(q);
    if qw != {} {
      var common := CommonWords(q, t);
      FractionOne(|common|, |qw|);
      assert WordOverlap(q, t) == |common| as real / |qw| as real;
      if qw <= WordSet(t) {
        assert common == qw;
      }
      if |common| == |qw| {
        SubsetSameSize(common, qw);
        assert qw <= WordSet(t);
      }
    }
  }

  /** No sample text scores higher against a query than the query itself: the exact match
      that `find_closest_match` returns at once is a best possible match. */
  lemma ScoreSelfIsMaximal(q: string, t: string)
    ensures Score(q, t) <= Score(q, q)
  {
    RatioSelf(q);
    if WordSet(q) != {} {
      WordOverlapFull(q, q);
    }
  }

  /** Sharing more of the query's words gives at least as large an overlap. */
  lemma WordOverlapGrows(q: string, t1: string, t2: string)
    requires |CommonWords(q, t1)| <= |CommonWords(q, t2)|
    ensures WordOverlap(q, t1) <= WordOverlap(q, t2)
  {
    var qw := WordSet(q);
    if qw != {} {
      FractionMonotone(|CommonWords(q, t1)|, |CommonWords(q, t2)|, |qw|);
    }
  }

  lemma FractionMonotone(x: nat, x': nat, y: nat)
    requires 0 < y && x <= x'
    ensures x as real / y as real <= x' as real / y as real
  {
  }

  /** For equal similarity ratios, sharing more of the query's words never lowers the score. */
  lemma ScoreGrowsWithOverlap(q: string, t1: string, t2: string)
    requires Ratio(q, t1) == Ratio(q, t2)
    requires |CommonWords(q, t1)| <= |CommonWords(q, t2)|
    ensures Score(q, t1) <= Score(q, t2)
  {
    WordOverlapGrows(q, t1, t2);
  }

  /** In particular, a text sharing every word another text shares, for the same ratio,
      scores at least as high. */
  lemma ScoreGrowsWithSharedWords(q: string, t1: string, t2: string)
    requires Ratio(q, t1) == Ratio(q, t2)
    requires CommonWords(q, t1) <= CommonWords(q, t2)
    ensures Score(q, t1) <= Score(q, t2)
  {
    SubsetSize(CommonWords(q, t1), CommonWords(q, t2));
    ScoreGrowsWithOverlap(q, t1, t2);
  }

  /** A query that has words, all of which occur in the sample text, always clears the
      threshold: the full bonus reaches it and the shared word makes the ratio positive. */
  lemma FullOverlapPasses(q: string, t: string)
    requires WordSet(q) != {} && WordSet(q) <= WordSet(t)
    ensures Score(q, t) > Threshold
  {
    WordOverlapFull(q, t);
    var w :| w in WordSet(q);
    WordsAreTokens(q, w);
    WordsAreTokens(t, w);
    var i: nat :| IsTokenAt(q, w, i);
    var j: nat :| IsTokenAt(t, w, j);
    assert q[i] == q[i..i + |w|][0] == w[0];
    assert t[j] == t[j..j + |w|][0] == w[0];
    RatioZero(q, t);
  }

  /** The score of sample `s` against the normalised query `q`. */
  function ScoreOf(q: string, s: Sample): real {
    Score(q, SampleText(s))
  }

  /** The scan of `find_closest_match` has seen `samples[..n]` and keeps `samples[k]`:
      no sample seen scores higher, and every earlier one scores strictly lower. */
  predicate IsBestAt(samples: seq<Sample>, q: string, k: nat, n: nat)
    requires n <= |samples|
  {
    && k < n
    && (forall k' :: 0 <= k' < n ==> ScoreOf(q, samples[k']) <= ScoreOf(q, samples[k]))
    && (forall k' :: 0 <= k' < k ==> ScoreOf(q, samples[k']) < ScoreOf(q, samples[k]))
  }

  /** The analysis describes sample `s`, its phonemes being `phone_sequence` cut at `" # "`. */
  predicate Describes(s: Sample, a: PhonemeAnalysis) {
    && a.text == s.words
    && a.phonemes == Split(s.phoneSequence, PhonemeSeparator)
    && a.phonemeCount == |a.phonemes|
    && a.fullSequence == s.phoneSequence
    && a.transcription == s.transcription
  }

  /** A longer search query can only narrow the results: a sample that contains `q2`
      contains every substring `q1` of it. */
  lemma SearchNarrows(samples: seq<Sample>, q1: string, q2: string, s: Sample)
    requires Contains(q2, q1)
    requires s in Filter(samples, ContainsQuery(q2))
    ensures s in Filter(samples, ContainsQuery(q1))
  {
    FilterMembers(samples, ContainsQuery(q2), s);
    ContainsTransitive(SampleText(s), q2, q1);
    FilterMembers(samples, ContainsQuery(q1), s);
  }

  /** The script title of every sample, in list order. */
  function Titles(samples: seq<Sample>): seq<string> {
    seq(|samples|, k requires 0 <= k < |samples| => samples[k].scriptTitle)
  }

  lemma TitlesMember(samples: seq<Sample>, c: string)
    ensures c in Titles(samples) <==> exists k :: 0 <= k < |samples| && samples[k].scriptTitle == c
  {
    var titles := Titles(samples);
    assert |titles| == |samples| && forall k :: 0 <= k < |samples| ==> titles[k] == samples[k].scriptTitle;
    if c in titles {
      var k :| 0 <= k < |titles| && titles[k] == c;
    }
    if k :| 0 <= k < |samples| && samples[k].scriptTitle == c {
      assert titles[k] in titles;
    }
  }

  /** The loaded training samples and the queries over them. */
  class AppleTTS {
    var samples: seq<Sample>

    /** The samples as `load_metadata` leaves them: one per non-blank line, in file order. */
    constructor(loaded: seq<Sample>)
      ensures samples == loaded
    {
      samples := loaded;
    }

    /** `get_stats()` without the duration figures. Like the source, it needs at least one
        sample (the average divides by the count). The category names are the distinct
        script titles in ascending order. */
    function GetStats(): (r: Stats)
      reads this
      requires |samples| > 0
      ensures r.totalSamples == |samples|
      ensures StrictlySorted(r.categoryNames)
      ensures forall c :: c in r.categoryNames <==> exists k :: 0 <= k < |samples| && samples[k].scriptTitle == c
      ensures r.categories == |r.categoryNames| == |set k | 0 <= k < |samples| :: samples[k].scriptTitle|
    {
      var names := SortedSet(Titles(samples));
      StrictlySortedDistinct(names);
      forall c ensures c in names <==> exists k :: 0 <= k < |samples| && samples[k].scriptTitle == c {
        TitlesMember(samples, c);
      }
      assert (set y | y in names) == (set k | 0 <= k < |samples| :: samples[k].scriptTitle);
      Stats(|samples|, |names|, names)
    }

    /** `find_sample_by_id`: the first sample whose utterance name is `id`, or `None`. */
    method FindSampleById(id: string) returns (r: Option<Sample>)
      ensures r.None? <==> forall k :: 0 <= k < |samples| ==> samples[k].utteranceName != id
      ensures r.Some? ==> FirstIndex(samples, HasId(id)).Some?
                          && r.value == samples[FirstIndex(samples, HasId(id)).value]
    {
      var i := 0;
      while i < |samples|
        invariant 0 <= i <= |samples|
        invariant forall k :: 0 <= k < i ==> samples[k].utteranceName != id
      {
        if samples[i].utteranceName == id {
          assert HasId(id)(samples[i]);
          return Some(samples[i]);
        }
        i := i + 1;
      }
      return None;
    }

    /** `find_closest_match`. The first sample whose lower-cased text equals the normalised
        query is returned at once. Otherwise the result is `None` exactly when no sample
        scores above the threshold, and a returned sample has the highest score, above the
        threshold, with every earlier sample scoring strictly lower (later ties lose). */
    method FindClosestMatch(text: string) returns (r: Option<Sample>)
      ensures FirstIndex(samples, IsExactFor(NormalizeQuery(text))).Some? ==>
        r == Some(samples[FirstIndex(samples, IsExactFor(NormalizeQuery(text))).value])
      ensures FirstIndex(samples, IsExactFor(NormalizeQuery(text))).None? ==>
        (r.None? <==> forall k :: 0 <= k < |samples| ==> ScoreOf(NormalizeQuery(text), samples[k]) <= Threshold)
      ensures FirstIndex(samples, IsExactFor(NormalizeQuery(text))).None? && r.Some? ==>
        exists k: nat :: IsBestAt(samples, NormalizeQuery(text), k, |samples|) && r.value == samples[k]
                         && Threshold < ScoreOf(NormalizeQuery(text), samples[k])
    {
      var q := NormalizeQuery(text);
      var best: Option<Sample> := None;
      var bestScore: real := 0.0;
      ghost var bestIdx: nat := 0;
      var i := 0;
      while i < |samples|
        invariant 0 <= i <= |samples|
        invariant forall k :: 0 <= k < i ==> !IsExactFor(q)(samples[k])
        invariant best.None? ==> bestScore == 0.0 && forall k :: 0 <= k < i ==> ScoreOf(q, samples[k]) <= 0.0
        invariant best.Some? ==> && IsBestAt(samples, q, bestIdx, i)
                                 && best.value == samples[bestIdx]
                                 && bestScore == ScoreOf(q, samples[bestIdx])
                                 && bestScore > 0.0
      {
        var sample := samples[i];
        var sampleText := SampleText(sample);
        if sampleText == q {
          FirstIndexIs(samples, IsExactFor(q), i);
          return Some(sample);
        }
        var score := Score(q, sampleText);
        assert score == ScoreOf(q, samples[i]);
        if score > bestScore {
          best, bestScore, bestIdx := Some(sample), score, i;
        }
        i := i + 1;
      }
      FirstIndexNone(samples, IsExactFor(q));
      if bestScore > Threshold {
        r := best;
        assert IsBestAt(samples, q, bestIdx, |samples|) && r.value == samples[bestIdx];
      } else {
        r := None;
      }
    }

    /** `search_samples`: the samples whose lower-cased text contains the lower-cased query,
        in list order; an empty query matches every sample. */
    method SearchSamples(query: string) returns (results: seq<Sample>)
      ensures results == Filter(samples, ContainsQuery(Lower(query)))
      ensures forall s :: s in results <==> s in samples && Contains(SampleText(s), Lower(query))
      ensures query == [] ==> results == samples
    {
      var q := Lower(query);
      results := [];
      var i := 0;
      while i < |samples|
        invariant 0 <= i <= |samples|
        invariant results == Filter(samples[..i], ContainsQuery(q))
      {
        var sample := samples[i];
        assert samples[..i + 1][..i] == samples[..i];
        if Contains(Lower(sample.words), q) {
          results := results + [sample];
        }
        i := i + 1;
      }
      assert samples[..i] == samples;
      forall s ensures s in results <==> s in samples && Contains(SampleText(s), q) {
        FilterMembers(samples, ContainsQuery(q), s);
      }
      if query == [] {
        forall k | 0 <= k < |samples| ensures ContainsQuery(q)(samples[k]) {
          ContainsOccurs(SampleText(samples[k]), q);
        }
        FilterAll(samples, ContainsQuery(q));
      }
    }

    /** `filter_by_category`: the samples whose script title is `category`, in list order and
        with their repetitions. */
    function FilterByCategory(category: string): (r: seq<Sample>)
      reads this
      ensures IsSubsequence(r, samples)
      ensures forall s :: s in r <==> s in samples && s.scriptTitle == category
      ensures forall s :: multiset(r)[s] == if s.scriptTitle == category then multiset(samples)[s] else 0
    {
      var r := Filter(samples, InCategory(category));
      assert forall s :: s in r <==> s in samples && s.scriptTitle == category by {
        forall s ensures s in r <==> s in samples && s.scriptTitle == category {
          FilterMembers(samples, InCategory(category), s);
        }
      }
      assert forall s :: multiset(r)[s] == if s.scriptTitle == category then multiset(samples)[s] else 0 by {
        forall s ensures multiset(r)[s] == if s.scriptTitle == category then multiset(samples)[s] else 0 {
          FilterCounts(samples, InCategory(category), s);
        }
      }
      r
    }

    /** The category names of `get_stats()` are exactly the categories that
        `filter_by_category` finds samples for. */
    lemma CategoryHasSamples(category: string)
      requires |samples| > 0
      ensures category in GetStats().categoryNames <==> FilterByCategory(category) != []
    {
      var r := FilterByCategory(category);
      if category in GetStats().categoryNames {
        var k :| 0 <= k < |samples| && samples[k].scriptTitle == category;
        assert samples[k] in r;
      }
      if r != [] {
        assert r[0] in samples;
      }
    }

    /** `analyze_phonemes`: `None` when no sample has utterance name `id`; otherwise the
        analysis of the first one. Its phonemes are never empty as a list, contain no
        separator, and joined back with `" # "` give the full sequence. */
    method AnalyzePhonemes(id: string) returns (r: Option<PhonemeAnalysis>)
      ensures r.None? <==> forall k :: 0 <= k < |samples| ==> samples[k].utteranceName != id
      ensures r.Some? ==> FirstIndex(samples, HasId(id)).Some?
                          && Describes(samples[FirstIndex(samples, HasId(id)).value], r.value)
      ensures r.Some? ==> r.value.phonemeCount >= 1
                          && Join(r.value.phonemes, PhonemeSeparator) == r.value.fullSequence
                          && forall k :: 0 <= k < |r.value.phonemes| ==> !Contains(r.value.phonemes[k], PhonemeSeparator)
    {
      var sample := FindSampleById(id);
      if sample.None? {
        return None;
      }
      var s := sample.value;
      var phonemes := Split(s.phoneSequence, PhonemeSeparator);
      JoinSplit(s.phoneSequence, PhonemeSeparator);
      forall k | 0 <= k < |phonemes| ensures !Contains(phonemes[k], PhonemeSeparator) {
        ContainsOccurs(phonemes[k], PhonemeSeparator);
      }
      r := Some(PhonemeAnalysis(s.words, |phonemes|, phonemes, s.phoneSequence, s.transcription));
    }
  }
}

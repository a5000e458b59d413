/** What `DataIndexer.analyzeTweet` derives from a tweet: a lexical sentiment
    tally, the hashtag topics, the reply linkage and an engagement snapshot. */
module TweetAnalysis {
  import opened Wrappers
  import opened Text
  import opened Tweets

  // ---------------------------------------------------------------------
  // Sentiment
  // ---------------------------------------------------------------------

  const POSITIVE_WORDS: seq<string> := ["great", "good", "excellent", "bullish", "up"]
  const NEGATIVE_WORDS: seq<string> := ["bad", "poor", "bearish", "down"]

  /** The contribution of one token, in tenths: +1 for a positive word, -1
      for a negative one (the positive list is consulted first). */
  function WordScore(word: string): int
  {
    if word in POSITIVE_WORDS then 1
    else if word in NEGATIVE_WORDS then -1
    else 0
  }

  /** `words.reduce((acc, word) => acc + score(word), 0)`, in tenths. */
  function Tally(words: seq<string>): int
  {
    if words == [] then 0
    else Tally(words[..|words| - 1]) + WordScore(words[|words| - 1])
  }

  /** The sentiment of a tweet in tenths: the tally over the tokens of the
      lower-cased text split on single spaces; 0 when there is no text. */
  function Sentiment(text: Option<string>): int
  {
    if text.None? then 0 else Tally(Split(Lower(text.value), ' '))
  }

  /** Number of tokens that belong to `lexicon`. */
  function CountIn(words: seq<string>, lexicon: seq<string>): nat
  {
    if words == [] then 0
    else CountIn(words[..|words| - 1], lexicon) + (if words[|words| - 1] in lexicon then 1 else 0)
  }

  /** The tally is the number of positive tokens minus the number of negative
      ones (the two word lists share no word). */
  lemma {:induction false} TallyIsLexiconDifference(words: seq<string>)
    ensures Tally(words) == CountIn(words, POSITIVE_WORDS) - CountIn(words, NEGATIVE_WORDS)
  {
    if words != [] {
      TallyIsLexiconDifference(words[..|words| - 1]);
      var w := words[|words| - 1];
      assert w in POSITIVE_WORDS ==> w !in NEGATIVE_WORDS;
    }
  }

  lemma {:induction false} TallyAppend(a: seq<string>, b: seq<string>)
    ensures Tally(a + b) == Tally(a) + Tally(b)
    decreases |b|
  {
    if b == [] {
      assert a + b == a;
    } else {
      assert (a + b)[..|a + b| - 1] == a + b[..|b| - 1];
      TallyAppend(a, b[..|b| - 1]);
    }
  }

  /** Sentiment is additive over texts joined by a space: the score of a
      tweet is the sum of the scores of its space-separated parts. */
  lemma SentimentOfJoinedTexts(a: string, b: string)
    ensures Sentiment(Some(a + " " + b)) == Sentiment(Some(a)) + Sentiment(Some(b))
  {
    assert Lower(a + " " + b) == Lower(a) + [' '] + Lower(b);
    SplitAppend(Lower(a), Lower(b), ' ');
    TallyAppend(Split(Lower(a), ' '), Split(Lower(b), ' '));
  }

  /** Sentiment counts whole tokens only: "good," or "Good!" scores nothing,
      "GOOD" scores like "good". */
  lemma SentimentExamples()
    ensures Sentiment(Some("GOOD")) == 1
    ensures Sentiment(Some("good,")) == 0
    ensures Sentiment(None) == 0
  {
    assert Lower("GOOD") == "good";
    SplitNoSep("good", ' ');
    assert Lower("good,") == "good,";
    SplitNoSep("good,", ' ');
  }

  // ---------------------------------------------------------------------
  // Topics
  // ---------------------------------------------------------------------

  /** `\w`: ASCII letters, digits and underscore. */
  predicate IsWordChar(c: char)
  {
    'a' <= c <= 'z' || 'A' <= c <= 'Z' || '0' <= c <= '9' || c == '_'
  }

  /** A topic as extraction produces it: a non-empty run of word characters
      with no upper-case letter. */
  predicate IsTopic(t: string)
  {
    t != [] && forall i :: 0 <= i < |t| ==> IsWordChar(t[i]) && !IsUpper(t[i])
  }

  /** Length of the run of word characters at the start of `s`. */
  function WordRun(s: string): (n: nat)
    ensures n <= |s|
    ensures forall i :: 0 <= i < n ==> IsWordChar(s[i])
    ensures n < |s| ==> !IsWordChar(s[n])
  {
    if s != [] && IsWordChar(s[0]) then 1 + WordRun(s[1..]) else 0
  }

  /** No upper-case letter in `s`. */
  predicate NoUpper(s: string)
  {
    forall i :: 0 <= i < |s| ==> !IsUpper(s[i])
  }

  /** A non-empty run of word characters. */
  predicate IsWord(t: string)
  {
    t != [] && forall i :: 0 <= i < |t| ==> IsWordChar(t[i])
  }

  /** `s.match(/#\w+/g)` with the `#` of each match removed: left to right,
      each match is a `#` followed by the longest run of word characters, and
      the search goes on after the end of the previous match. */
  function Hashtags(s: string): seq<string>
    decreases |s|
  {
    if |s| < 2 then []
    else if s[0] == '#' && IsWordChar(s[1]) then
      var n := WordRun(s[1..]);
      [s[1..1 + n]] + Hashtags(s[1 + n..])
    else
      Hashtags(s[1..])
  }

  /** The topics of a tweet: the hashtags of its lower-cased text, `[]` when
      there is no text or no match. */
  function Topics(text: Option<string>): (r: seq<string>)
    ensures forall t :: t in r ==> IsTopic(t)
  {
    if text.None? then []
    else
      HashtagsAreTopics(Lower(text.value));
      Hashtags(Lower(text.value))
  }

  /** Every hashtag is a non-empty run of word characters, and has no
      upper-case letter when the text has none. */
  lemma {:induction false} HashtagsAreTopics(s: string)
    requires NoUpper(s)
    ensures forall t :: t in Hashtags(s) ==> IsTopic(t)
    decreases |s|
  {
    if |s| >= 2 {
      if s[0] == '#' && IsWordChar(s[1]) {
        var n := WordRun(s[1..]);
        var tag, rest := s[1..1 + n], s[1 + n..];
        assert forall i :: 0 <= i < |tag| ==> tag[i] == s[1 + i];
        assert forall i :: 0 <= i < |rest| ==> rest[i] == s[1 + n + i];
        HashtagsAreTopics(rest);
        assert Hashtags(s) == [tag] + Hashtags(rest);
      } else {
        assert forall i :: 0 <= i < |s| - 1 ==> s[1..][i] == s[1 + i];
        HashtagsAreTopics(s[1..]);
      }
    }
  }

  /** The word-character run at the front of `tag + rest` is exactly `tag`
      when `rest` does not continue it. */
  lemma {:induction false} WordRunOfWord(tag: string, rest: string)
    requires IsWord(tag)
    requires rest == [] || !IsWordChar(rest[0])
    ensures WordRun(tag + rest) == |tag|
    decreases |tag|
  {
    var s := tag + rest;
    assert s[0] == tag[0];
    if |tag| == 1 {
      assert s[1..] == rest;
    } else {
      assert s[1..] == tag[1..] + rest;
      WordRunOfWord(tag[1..], rest);
    }
  }

  /** One unfolding of `Hashtags` at a `#` followed by a word character. */
  lemma HashtagsAtTag(s: string)
    requires |s| >= 2 && s[0] == '#' && IsWordChar(s[1])
    ensures Hashtags(s) == [s[1..1 + WordRun(s[1..])]] + Hashtags(s[1 + WordRun(s[1..])..])
  {
  }

  /** The slices of `'#' + tag + rest` that `Hashtags` looks at. */
  lemma TaggedSlices(tag: string, rest: string) returns (s: string)
    requires tag != []
    ensures s == ['#'] + tag + rest
    ensures |s| >= 2 && s[0] == '#' && s[1] == tag[0]
    ensures s[1..] == tag + rest
    ensures s[1..1 + |tag|] == tag
    ensures s[1 + |tag|..] == rest
  {
    s := ['#'] + tag + rest;
    assert s[1..] == tag + rest;
  }

  /** A `#` followed by a whole word yields that word, and extraction resumes
      right after it. */
  lemma HashtagsTagged(tag: string, rest: string)
    requires IsWord(tag)
    requires rest == [] || !IsWordChar(rest[0])
    ensures Hashtags(['#'] + tag + rest) == [tag] + Hashtags(rest)
  {
    var s := TaggedSlices(tag, rest);
    WordRunOfWord(tag, rest);
    HashtagsAtTag(s);
  }

  /** A character that does not start a hashtag is skipped. */
  lemma HashtagsSkip(x: char, t: string)
    requires t == [] || !(x == '#' && IsWordChar(t[0]))
    ensures Hashtags([x] + t) == Hashtags(t)
  {
    var s := [x] + t;
    assert s[1..] == t;
    if t != [] {
      assert s[0] == x && s[1] == t[0];
    }
  }

  /** A character that is neither `#` nor a word character separates the
      hashtags on its two sides. */
  lemma {:induction false} HashtagsAppend(a: string, c: char, b: string)
    requires !IsWordChar(c) && c != '#'
    ensures Hashtags(a + [c] + b) == Hashtags(a) + Hashtags(b)
    decreases |a|
  {
    if a == [] {
      assert a + [c] + b == [c] + b;
      HashtagsSkip(c, b);
    } else if |a| >= 2 && a[0] == '#' && IsWordChar(a[1]) {
      var tag, rest := SplitTag(a, c, b);
      HashtagsAppend(rest, c, b);
      HashtagsAppendTagged(tag, rest, c, b);
    } else {
      var x, a' := SplitHead(a, c, b);
      HashtagsAppend(a', c, b);
      HashtagsAppendSkip(x, a', c, b);
    }
  }

  /** `a` as a tag and what follows it, when `a` starts with a hashtag. */
  lemma SplitTag(a: string, c: char, b: string) returns (tag: string, rest: string)
    requires !IsWordChar(c)
    requires |a| >= 2 && a[0] == '#' && IsWordChar(a[1])
    ensures a == ['#'] + tag + rest && |rest| < |a|
    ensures IsWord(tag) && (rest == [] || !IsWordChar(rest[0]))
    ensures a + [c] + b == ['#'] + tag + (rest + [c] + b)
    ensures !IsWordChar((rest + [c] + b)[0])
  {
    var n := WordRun(a[1..]);
    tag, rest := a[1..][..n], a[1..][n..];
    assert a == ['#'] + tag + rest;
    assert (rest + [c] + b)[0] == if rest == [] then c else rest[0];
  }

  /** `a` as its first character and the rest. */
  lemma SplitHead(a: string, c: char, b: string) returns (x: char, a': string)
    requires a != []
    ensures a == [x] + a' && |a'| < |a|
    ensures a + [c] + b == [x] + (a' + [c] + b)
    ensures (a' + [c] + b)[0] == if a' == [] then c else a'[0]
  {
    x, a' := a[0], a[1..];
    assert a == [x] + a';
  }

  /** The hashtag case of `HashtagsAppend`. */
  lemma HashtagsAppendTagged(tag: string, rest: string, c: char, b: string)
    requires IsWord(tag) && (rest == [] || !IsWordChar(rest[0]))
    requires !IsWordChar((rest + [c] + b)[0])
    requires Hashtags(rest + [c] + b) == Hashtags(rest) + Hashtags(b)
    ensures Hashtags(['#'] + tag + (rest + [c] + b)) == Hashtags(['#'] + tag + rest) + Hashtags(b)
  {
    HashtagsTagged(tag, rest);
    HashtagsTagged(tag, rest + [c] + b);
    ConsAppend(tag, Hashtags(rest), Hashtags(b));
  }

  lemma ConsAppend<T>(x: T, p: seq<T>, q: seq<T>)
    ensures [x] + (p + q) == ([x] + p) + q
  {
  }

  /** The case of `HashtagsAppend` where the first character starts no hashtag. */
  lemma HashtagsAppendSkip(x: char, a': string, c: char, b: string)
    requires !IsWordChar(c) && c != '#'
    requires !(a' != [] && x == '#' && IsWordChar(a'[0]))
    requires (a' + [c] + b)[0] == if a' == [] then c else a'[0]
    requires Hashtags(a' + [c] + b) == Hashtags(a') + Hashtags(b)
    ensures Hashtags([x] + (a' + [c] + b)) == Hashtags([x] + a') + Hashtags(b)
  {
    HashtagsSkip(x, a' + [c] + b);
    HashtagsSkip(x, a');
  }

  /** The topics of two texts joined by a space are the topics of the first
      followed by those of the second: extraction keeps the order of
      occurrence. */
  lemma TopicsOfJoinedTexts(a: string, b: string)
    ensures Topics(Some(a + " " + b)) == Topics(Some(a)) + Topics(Some(b))
  {
    assert Lower(a + " " + b) == Lower(a) + [' '] + Lower(b);
    HashtagsAppend(Lower(a), ' ', Lower(b));
  }

  /** Without a `#` there is no topic. */
  lemma {:induction false} NoHashNoHashtags(s: string)
    requires '#' !in s
    ensures Hashtags(s) == []
    decreases |s|
  {
    if |s| >= 2 {
      NoHashNoHashtags(s[1..]);
    }
  }

  lemma {:induction false} WordRunAll(s: string)
    requires forall i :: 0 <= i < |s| ==> IsWordChar(s[i])
    ensures WordRun(s) == |s|
  {
    if s != [] {
      WordRunAll(s[1..]);
    }
  }

  /** A lone hashtag yields its body as the only topic. */
  lemma SingleHashtag(tag: string)
    requires IsTopic(tag)
    ensures Hashtags("#" + tag) == [tag]
  {
    var s := "#" + tag;
    assert s[0] == '#' && s[1] == tag[0];
    assert s[1..] == tag;
    WordRunAll(tag);
    assert s[1..1 + |tag|] == tag;
    assert s[1 + |tag|..] == [];
  }

  /** A word without `#` carries no topic. */
  lemma PlainWordHasNoTopic(w: string)
    requires '#' !in w
    ensures Topics(Some(w)) == []
  {
    forall i | 0 <= i < |w|
      ensures Lower(w)[i] != '#'
    {
      assert w[i] in w;
    }
    NoHashNoHashtags(Lower(w));
  }

  /** A word that is `#` followed by a topic carries that topic. */
  lemma HashtagWordHasTopic(tag: string)
    requires IsTopic(tag)
    ensures Topics(Some("#" + tag)) == [tag]
  {
    assert Lower("#" + tag) == "#" + tag;
    SingleHashtag(tag);
  }

  /** A plain word in front of a text adds no topic. */
  lemma PlainWordThenText(w: string, rest: string)
    requires '#' !in w
    ensures Topics(Some(w + " " + rest)) == Topics(Some(rest))
  {
    TopicsOfJoinedTexts(w, rest);
    PlainWordHasNoTopic(w);
  }

  /** A hashtag in front of a text puts its topic first. */
  lemma HashtagThenText(t: string, rest: string)
    requires IsTopic(t)
    ensures Topics(Some(("#" + t) + " " + rest)) == [t] + Topics(Some(rest))
  {
    TopicsOfJoinedTexts("#" + t, rest);
    HashtagWordHasTopic(t);
  }

  /** A text of the shape `"w1 #t1 w2 #t2 w3"`, with plain words around two
      hashtags, has exactly the topics `[t1, t2]`, lower-cased tags kept in
      the order they occur (for example `"Big #launch and #update today"`). */
  lemma TwoHashtagsInText(w1: string, t1: string, w2: string, t2: string, w3: string)
    requires '#' !in w1 && '#' !in w2 && '#' !in w3
    requires IsTopic(t1) && IsTopic(t2)
    ensures Topics(Some(w1 + " " + ("#" + t1) + " " + w2 + " " + ("#" + t2) + " " + w3)) == [t1, t2]
  {
    var s4 := ("#" + t2) + " " + w3;
    var s3 := w2 + " " + s4;
    var s2 := ("#" + t1) + " " + s3;
    var s1 := w1 + " " + s2;
    assert s1 == w1 + " " + ("#" + t1) + " " + w2 + " " + ("#" + t2) + " " + w3;
    PlainWordHasNoTopic(w3);
    HashtagThenText(t2, w3);
    PlainWordThenText(w2, s4);
    HashtagThenText(t1, s3);
    PlainWordThenText(w1, s2);
  }

  // ---------------------------------------------------------------------
  // The indexed record
  // ---------------------------------------------------------------------

  datatype Engagement = Engagement(likes: nat, retweets: nat, replies: nat)

  /** A tweet with the fields derived when it is indexed. `sentiment` is in
      tenths; `timestamp` is the clock reading at indexing time. */
  datatype IndexedTweet = IndexedTweet(
    tweet: Tweet,
    sentiment: int,
    topics: seq<string>,
    timestamp: int,
    isReply: bool,
    replyToId: Option<string>,
    replyToUser: Option<string>,
    engagement: Engagement)

  /** `analyzeTweet`, with `now` standing for `Date.now()`. */
  function Analyze(tweet: Tweet, now: int): (r: IndexedTweet)
    ensures forall t :: t in r.topics ==> IsTopic(t)
  {
    IndexedTweet(
      tweet,
      Sentiment(tweet.text),
      Topics(tweet.text),
      now,
      Truthy(tweet.inReplyToStatusId),
      tweet.inReplyToStatusId,
      tweet.username,
      Engagement(tweet.likes.GetOr(0), tweet.retweets.GetOr(0), 0))
  }
}

/** `generateReplyContent`: the reply text composed from the tweet, the
    author's relevant topics and their engagement statistics. */
module ReplyPolicy {
  import opened Wrappers
  import opened Text
  import opened Tweets
  import opened TopicTables
  import opened TweetAnalysis
  import opened IndexModel

  // The three openings and the praise sentence, without the space that
  // follows each of them in the reply being built.
  const UPDATE_OPENING := "I'm tracking this update! " + "Users can find more details " + "in our latest GitHub commits."
  const GENERIC_OPENING := "Interesting insight!"
  const PRAISE := "Your community engagement is impressive!"

  function TopicOpening(topic: string): string
  {
    "This aligns with our work on " + topic + "."
  }

  /** The average number of likes above which the author is praised. */
  const PRAISE_THRESHOLD := 100

  /** The tweet speaks of an update or a release. */
  predicate MentionsUpdate(text: Option<string>)
  {
    text.Some? && (Contains(Lower(text.value), "update") || Contains(Lower(text.value), "release"))
  }

  /** Some relevant topic occurs in the lower-cased text. */
  predicate MentionsTopic(text: Option<string>, topics: seq<string>)
  {
    text.Some? && exists t :: t in topics && Contains(Lower(text.value), t)
  }

  /** The opening sentence, chosen by priority. The topic opening always names
      the author's top topic, whichever relevant topic occurred in the text. */
  function Opening(text: Option<string>, topics: seq<string>): string
  {
    if MentionsUpdate(text) then UPDATE_OPENING
    else if MentionsTopic(text, topics) then TopicOpening(topics[0])
    else GENERIC_OPENING
  }

  /** The first two topics as `#topic`, separated by a space. */
  function HashtagLine(topics: seq<string>): string
  {
    var n := if |topics| < 2 then |topics| else 2;
    Join(seq(n, i requires 0 <= i < n => "#" + topics[i]), ' ')
  }

  /** The reply as built: opening and praise each followed by a space, then
      the hashtag line, and the whole trimmed. */
  function ComposeReply(text: Option<string>, topics: seq<string>, praise: bool): string
  {
    Trim(Opening(text, topics) + " " + (if praise then PRAISE + " " else "") + HashtagLine(topics))
  }

  /** `generateReplyContent(tweet)` against the indexer state `st`. The
      author key of the memory lookup is the username as a property key, and
      the statistics select records by strict equality on the username. */
  function GenerateReply(st: IndexerState, tweet: Tweet): string
    requires WellFormed(st)
  {
    var topics := RelevantTopics(st.memory, Display(tweet.username));
    var stats := Stats(Values(st), tweet.username);
    ComposeReply(tweet.text, topics, LikesAverageAbove(stats, PRAISE_THRESHOLD))
  }

  // ---------------------------------------------------------------------
  // The reply as a list of sentences
  // ---------------------------------------------------------------------

  /** The sentences of a reply, in order: the opening, the praise when due,
      the hashtag line when there are topics. */
  function Sentences(text: Option<string>, topics: seq<string>, praise: bool): seq<string>
  {
    [Opening(text, topics)] + (if praise then [PRAISE] else []) + (if topics == [] then [] else [HashtagLine(topics)])
  }

  lemma HashtagLineShape(topics: seq<string>)
    requires forall t :: t in topics ==> IsTopic(t)
    ensures topics == [] ==> HashtagLine(topics) == ""
    ensures |topics| == 1 ==> HashtagLine(topics) == "#" + topics[0]
    ensures |topics| >= 2 ==> HashtagLine(topics) == "#" + topics[0] + " " + "#" + topics[1]
    ensures forall i :: 0 <= i < |HashtagLine(topics)| ==>
              var c := HashtagLine(topics)[i]; c == '#' || c == ' ' || (IsWordChar(c) && !IsUpper(c))
    ensures topics != [] ==> HashtagLine(topics)[0] == '#' && !IsSpace(HashtagLine(topics)[|HashtagLine(topics)| - 1])
  {
    if |topics| >= 2 {
      var parts := seq(2, i requires 0 <= i < 2 => "#" + topics[i]);
      assert parts == ["#" + topics[0], "#" + topics[1]];
      assert Join(parts, ' ') == parts[0] + [' '] + Join(parts[1..], ' ');
      assert parts[1..] == ["#" + topics[1]];
      assert topics[0] in topics && topics[1] in topics;
      var h := HashtagLine(topics);
      assert h == "#" + topics[0] + " " + "#" + topics[1];
      forall i | 0 <= i < |h|
        ensures h[i] == '#' || h[i] == ' ' || (IsWordChar(h[i]) && !IsUpper(h[i]))
      {
        if 1 <= i < 1 + |topics[0]| {
          assert h[i] == topics[0][i - 1];
        } else if 3 + |topics[0]| <= i {
          assert h[i] == topics[1][i - 3 - |topics[0]|];
        }
      }
    } else if |topics| == 1 {
      var parts := seq(1, i requires 0 <= i < 1 => "#" + topics[i]);
      assert parts == ["#" + topics[0]];
      assert topics[0] in topics;
      var h := HashtagLine(topics);
      forall i | 0 <= i < |h|
        ensures h[i] == '#' || h[i] == ' ' || (IsWordChar(h[i]) && !IsUpper(h[i]))
      {
        if 1 <= i {
          assert h[i] == topics[0][i - 1];
        }
      }
    }
  }

  /** Non-empty, with no white space at either end. */
  predicate Unpadded(s: string)
  {
    s != [] && !IsSpace(s[0]) && !IsSpace(s[|s| - 1])
  }

  lemma ConstantsShape()
    ensures Unpadded(UPDATE_OPENING) && Unpadded(GENERIC_OPENING) && Unpadded(PRAISE)
    ensures 'Y' !in UPDATE_OPENING && 'Y' !in GENERIC_OPENING && PRAISE[0] == 'Y'
  {
    assert GENERIC_OPENING[0] == 'I' && GENERIC_OPENING[|GENERIC_OPENING| - 1] == '!';
    assert PRAISE[|PRAISE| - 1] == '!';
    UpdateOpeningHasNoY();
  }

  lemma UpdateOpeningHasNoY()
    ensures 'Y' !in UPDATE_OPENING
  {
    var a, b, c := "I'm tracking this update! ", "Users can find more details ", "in our latest GitHub commits.";
    assert 'Y' !in a;
    assert 'Y' !in b;
    assert 'Y' !in c;
    assert UPDATE_OPENING == a + b + c;
  }

  lemma OpeningShape(text: Option<string>, topics: seq<string>)
    requires forall t :: t in topics ==> IsTopic(t)
    ensures Unpadded(Opening(text, topics)) && 'Y' !in Opening(text, topics)
  {
    ConstantsShape();
    if !MentionsUpdate(text) && MentionsTopic(text, topics) {
      var t := topics[0];
      assert t in topics;
      var o := TopicOpening(t);
      assert o == "This aligns with our work on " + t + ".";
      assert o[0] == 'T' && o[|o| - 1] == '.';
      forall i | 0 <= i < |o| ensures o[i] != 'Y' {
        if 29 <= i < 29 + |t| {
          assert o[i] == t[i - 29];
        }
      }
    }
  }

  lemma JoinTwo(a: string, b: string, sep: char)
    ensures Join([a, b], sep) == a + [sep] + b
  {
    assert [a, b][1..] == [b];
  }

  lemma JoinThree(a: string, b: string, c: string, sep: char)
    ensures Join([a, b, c], sep) == a + [sep] + b + [sep] + c
  {
    assert [a, b, c][1..] == [b, c];
    JoinTwo(b, c, sep);
  }

  /** Trimming a reply assembled from unpadded sentences, each but the last
      followed by one space, gives the sentences joined by single spaces. */
  lemma TrimSentences(o: string, q: string, h: string, praise: bool)
    requires Unpadded(o) && Unpadded(q) && (h == [] || Unpadded(h))
    ensures Trim(o + " " + (if praise then q + " " else "") + h)
         == Join([o] + (if praise then [q] else []) + (if h == [] then [] else [h]), ' ')
  {
    if praise && h != [] {
      TrimWithPraiseAndTags(o, q, h);
    } else if praise {
      TrimWithPraise(o, q);
    } else if h != [] {
      TrimWithTags(o, h);
    } else {
      TrimOpeningOnly(o);
    }
  }

  lemma TrimWithPraiseAndTags(o: string, q: string, h: string)
    requires Unpadded(o) && Unpadded(q) && Unpadded(h)
    ensures Trim(o + " " + (q + " ") + h) == Join([o] + [q] + [h], ' ')
  {
    UnpaddedSpaced(o, q);
    Regroup(o, " ", q, " ", h);
    TrimSpaced(o + " " + q, h);
    Singletons(o, q, h);
    JoinThree(o, q, h, ' ');
  }

  lemma TrimWithPraise(o: string, q: string)
    requires Unpadded(o) && Unpadded(q)
    ensures Trim(o + " " + (q + " ") + []) == Join([o] + [q] + [], ' ')
  {
    UnpaddedSpaced(o, q);
    Regroup(o, " ", q, " ", []);
    TrimTrailingSpace(o + " " + q);
    Singletons(o, q, q);
    JoinTwo(o, q, ' ');
  }

  lemma TrimWithTags(o: string, h: string)
    requires Unpadded(o) && Unpadded(h)
    ensures Trim(o + " " + "" + h) == Join([o] + [] + [h], ' ')
  {
    DropEmpty(o, " ", h);
    TrimSpaced(o, h);
    Singletons(o, h, h);
    JoinTwo(o, h, ' ');
  }

  lemma TrimOpeningOnly(o: string)
    requires Unpadded(o)
    ensures Trim(o + " " + "" + []) == Join([o] + [] + [], ' ')
  {
    DropEmpty(o, " ", []);
    TrimTrailingSpace(o);
    Singletons(o, o, o);
  }

  /** Two unpadded strings joined by a space form an unpadded string. */
  lemma UnpaddedSpaced(a: string, b: string)
    requires Unpadded(a) && Unpadded(b)
    ensures Unpadded(a + " " + b)
  {
    var r := a + " " + b;
    assert r[0] == a[0] && r[|r| - 1] == b[|b| - 1];
  }

  lemma Singletons<T>(x: T, y: T, z: T)
    ensures [x] + [y] + [z] == [x, y, z]
    ensures [x] + [y] + [] == [x, y] && [x] + [] + [y] == [x, y]
    ensures [x] + [] + [] == [x]
  {
  }

  lemma Regroup<T>(a: seq<T>, b: seq<T>, c: seq<T>, d: seq<T>, e: seq<T>)
    ensures a + b + (c + d) + e == a + b + c + d + e
    ensures e == [] ==> a + b + (c + d) + e == a + b + c + d
  {
  }

  lemma DropEmpty<T>(a: seq<T>, b: seq<T>, e: seq<T>)
    ensures a + b + [] + e == a + b + e
    ensures e == [] ==> a + b + [] + e == a + b
  {
  }

  /** Two unpadded strings joined by a space are left alone by trimming. */
  lemma TrimSpaced(body: string, h: string)
    requires Unpadded(body) && Unpadded(h)
    ensures Trim(body + " " + h) == body + " " + h
  {
    var built := body + " " + h;
    assert built[0] == body[0] && built[|built| - 1] == h[|h| - 1];
    TrimOfTrimmed(built);
  }

  /** Trimming an unpadded string followed by one space drops the space. */
  lemma TrimTrailingSpace(body: string)
    requires Unpadded(body)
    ensures Trim(body + " ") == body
  {
    var built := body + " ";
    assert built[0] == body[0];
    assert TrimStart(built) == built;
    TrimEndAppend(body, " ");
    assert TrimEnd(" ") == [] by {
      assert " "[..0] == [];
    }
    TrimOfTrimmed(body);
  }

  /** The built-and-trimmed reply is exactly its sentences joined by single
      spaces: trimming removes only the space left after the last sentence
      when there is no hashtag line. */
  lemma ComposeReplyIsSentences(text: Option<string>, topics: seq<string>, praise: bool)
    requires forall t :: t in topics ==> IsTopic(t)
    ensures ComposeReply(text, topics, praise) == Join(Sentences(text, topics, praise), ' ')
  {
    OpeningShape(text, topics);
    HashtagLineShape(topics);
    ConstantsShape();
    TrimSentences(Opening(text, topics), PRAISE, HashtagLine(topics), praise);
  }

  /** Joining one, two or three sentences, the middle and last ones optional. */
  lemma JoinOptional(o: string, q: string, h: string, praise: bool, tags: bool)
    ensures Join([o] + (if praise then [q] else []) + (if tags then [h] else []), ' ')
         == o + (if praise then " " + q else "") + (if tags then " " + h else "")
  {
    if praise && tags {
      assert [o] + [q] + [h] == [o, q, h];
      JoinThree(o, q, h, ' ');
    } else if praise {
      assert [o] + [q] + [] == [o, q];
      JoinTwo(o, q, ' ');
    } else if tags {
      assert [o] + [] + [h] == [o, h];
      JoinTwo(o, h, ' ');
    } else {
      assert [o] + [] + [] == [o];
    }
  }

  /** The reply as concatenated text: opening, then the praise and the
      hashtag line each after one space when present. */
  lemma ReplyLayout(text: Option<string>, topics: seq<string>, praise: bool)
    requires forall t :: t in topics ==> IsTopic(t)
    ensures ComposeReply(text, topics, praise)
         == Opening(text, topics) + (if praise then " " + PRAISE else "") + (if topics == [] then "" else " " + HashtagLine(topics))
  {
    ComposeReplyIsSentences(text, topics, praise);
    JoinOptional(Opening(text, topics), PRAISE, HashtagLine(topics), praise, topics != []);
  }

  /** The opening follows the priority order: an update or release mention
      wins over a topic mention, which wins over the generic opening. */
  lemma ReplyOpening(text: Option<string>, topics: seq<string>, praise: bool)
    requires forall t :: t in topics ==> IsTopic(t)
    ensures var r := ComposeReply(text, topics, praise);
      && (MentionsUpdate(text) ==> StartsWith(r, UPDATE_OPENING))
      && (!MentionsUpdate(text) && MentionsTopic(text, topics) ==> topics != [] && StartsWith(r, TopicOpening(topics[0])))
      && (!MentionsUpdate(text) && !MentionsTopic(text, topics) ==> StartsWith(r, GENERIC_OPENING))
  {
    ReplyStartsWithOpening(text, topics, praise);
  }

  /** The reply starts with its opening sentence. */
  lemma ReplyStartsWithOpening(text: Option<string>, topics: seq<string>, praise: bool)
    requires forall t :: t in topics ==> IsTopic(t)
    ensures StartsWith(ComposeReply(text, topics, praise), Opening(text, topics))
  {
    ReplyLayout(text, topics, praise);
    var o := Opening(text, topics);
    StartsWithAppended(o, if praise then " " + PRAISE else "", if topics == [] then "" else " " + HashtagLine(topics));
  }

  lemma StartsWithAppended(a: string, b: string, c: string)
    ensures StartsWith(a + b + c, a)
  {
    assert (a + b + c)[..|a|] == a;
  }

  /** No occurrence of a string starting with a character the text lacks. */
  lemma NotContainedWithoutFirstChar(r: string, q: string)
    requires q != [] && q[0] !in r
    ensures !Contains(r, q)
  {
    ContainsIff(r, q);
    forall i ensures !OccursAt(r, q, i) {
      if 0 <= i < |r| {
        assert r[i] in r;
      }
    }
  }

  /** A sentence that starts with a character found nowhere else occurs in
      the reply exactly when it is included. */
  lemma OptionalSentenceFound(o: string, q: string, h: string, praise: bool, tags: bool)
    requires q != [] && q[0] != ' ' && q[0] !in o && q[0] !in h
    ensures Contains(o + (if praise then " " + q else "") + (if tags then " " + h else ""), q) <==> praise
  {
    var r := o + (if praise then " " + q else "") + (if tags then " " + h else "");
    if praise {
      assert r[|o| + 1..|o| + 1 + |q|] == q;
      ContainsAt(r, q, |o| + 1);
    } else {
      assert q[0] !in r by {
        assert r == if tags then o + " " + h else o;
      }
      NotContainedWithoutFirstChar(r, q);
    }
  }

  /** The praise sentence occurs in the reply exactly when praise is due: no
      opening and no hashtag can spell it out (it is the only part with an
      upper-case `Y`). */
  lemma PraiseIffPopular(text: Option<string>, topics: seq<string>, praise: bool)
    requires forall t :: t in topics ==> IsTopic(t)
    ensures Contains(ComposeReply(text, topics, praise), PRAISE) <==> praise
  {
    ReplyLayout(text, topics, praise);
    OpeningShape(text, topics);
    HashtagLineShape(topics);
    ConstantsShape();
    var h := HashtagLine(topics);
    assert 'Y' !in h by {
      forall i | 0 <= i < |h| ensures h[i] != 'Y' { }
    }
    OptionalSentenceFound(Opening(text, topics), PRAISE, h, praise, topics != []);
  }

  /** The reply ends with the hashtag line, after one space, when the author
      has relevant topics (the line is `#t1` or `#t1 #t2`, see
      `HashtagLineShape`); without topics the reply ends with its last
      sentence, the praise or the opening. */
  lemma ReplyHashtags(text: Option<string>, topics: seq<string>, praise: bool)
    requires forall t :: t in topics ==> IsTopic(t)
    ensures topics != [] ==> EndsWith(ComposeReply(text, topics, praise), " " + HashtagLine(topics))
    ensures topics == [] ==> EndsWith(ComposeReply(text, topics, praise), if praise then PRAISE else Opening(text, topics))
  {
    ReplyLayout(text, topics, praise);
    EndsWithParts(Opening(text, topics), if praise then " " + PRAISE else "",
                  if topics == [] then "" else " " + HashtagLine(topics));
  }

  /** The end of a reply assembled from an opening and two optional parts:
      the last part when present, otherwise the praise or the opening. */
  lemma EndsWithParts(o: string, b: string, c: string)
    ensures c != [] ==> EndsWith(o + b + c, c)
    ensures c == [] && b != [] && b[0] == ' ' ==> EndsWith(o + b + c, b[1..])
    ensures c == [] && b == [] ==> EndsWith(o + b + c, o)
  {
    var r := o + b + c;
    assert r[|r| - |c|..] == c;
    if c == [] {
      assert r == o + b;
      if b != [] {
        assert r[|r| - |b[1..]|..] == b[1..];
      } else {
        assert r == o;
      }
    }
  }

  /** Indexing a new tweet by a different author changes neither the topics
      nor the statistics of this author, so their reply text stays the same. */
  lemma ReplyUnaffectedByOtherAuthors(st: IndexerState, other: Tweet, now: int, tweet: Tweet)
    requires WellFormed(st)
    requires other.id !in st.tweets
    requires other.username != tweet.username
    requires Truthy(other.username) ==> other.username.value != Display(tweet.username)
    ensures GenerateReply(Index(st, other, now), tweet) == GenerateReply(st, tweet)
  {
    var r := Index(st, other, now);
    IndexStores(st, other, now);
    ByAuthorAppendOther(Values(st), Analyze(other, now), tweet.username);
    RelevantTopicsUnaffected(st, other, now, Display(tweet.username));
  }

  /** Indexing a tweet by another author leaves this author's relevant
      topics as they were. */
  lemma RelevantTopicsUnaffected(st: IndexerState, other: Tweet, now: int, u: string)
    requires WellFormed(st)
    requires Truthy(other.username) ==> other.username.value != u
    ensures RelevantTopics(Index(st, other, now).memory, u) == RelevantTopics(st.memory, u)
  {
    var m := Index(st, other, now).memory;
    IndexRecords(st, other, now);
    assert u in m.interactions <==> u in st.memory.interactions;
    if u in st.memory.interactions {
      assert m.interactions[u] == st.memory.interactions[u];
    }
  }

  lemma ByAuthorAppendOther(values: seq<IndexedTweet>, x: IndexedTweet, author: Option<string>)
    requires x.tweet.username != author
    ensures ByAuthor(values + [x], author) == ByAuthor(values, author)
  {
    assert (values + [x])[..|values|] == values;
  }
}

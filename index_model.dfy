/** The state of a `DataIndexer` as a value, what `indexTweet` does to it, and
    the read queries over it: `getRelevantTopics`, `getEngagementStats` and
    `shouldReplyToTweet`. The class in module `Indexing` is proved against
    these functions. */
module IndexModel {
  import opened Wrappers
  import opened Text
  import opened Tweets
  import opened TopicTables
  import opened TweetAnalysis

  // ---------------------------------------------------------------------
  // Memory
  // ---------------------------------------------------------------------

  /** What the indexer remembers about one author. */
  datatype Interaction = Interaction(count: nat, lastTimestamp: int, topics: TopicTable)

  /** The agent memory: per-author interactions and the global topic counts.
      `lastInteraction` is part of the record but nothing ever updates it. */
  datatype Memory = Memory(lastInteraction: int, interactions: map<string, Interaction>, topicHistory: TopicTable)

  /** The memory used when no snapshot exists. */
  const EMPTY_MEMORY := Memory(0, map[], [])

  /** The record created for an author seen for the first time. */
  const FIRST_INTERACTION := Interaction(0, 0, [])

  /** A topic table as indexing builds it: each key once, every key a topic. */
  predicate TableWellFormed(t: TopicTable)
  {
    KeysDistinct(t) && forall k :: k in Keys(t) ==> IsTopic(k)
  }

  predicate MemoryWellFormed(m: Memory)
  {
    && TableWellFormed(m.topicHistory)
    && forall u :: u in m.interactions ==> TableWellFormed(m.interactions[u].topics)
  }

  /** `interactions[u].count`, 0 for an author never seen. */
  function CountOf(m: Memory, u: string): nat
  {
    if u in m.interactions then m.interactions[u].count else 0
  }

  /** `interactions[u].topics`, empty for an author never seen. */
  function TopicsOf(m: Memory, u: string): TopicTable
  {
    if u in m.interactions then m.interactions[u].topics else []
  }

  /** The memory update of `indexTweet` for a tweet by `u` carrying `topics`,
      at clock reading `now`: the author's count rises by one, their last
      timestamp becomes `now`, and every topic occurrence adds one to the
      author's table and to the global table. Nobody else changes. */
  function RecordInteraction(m: Memory, u: string, topics: seq<string>, now: int): (r: Memory)
    requires MemoryWellFormed(m)
    requires forall t :: t in topics ==> IsTopic(t)
    ensures MemoryWellFormed(r)
  {
    var prior := if u in m.interactions then m.interactions[u] else FIRST_INTERACTION;
    CountTopicsInto(prior.topics, topics);
    CountTopicsInto(m.topicHistory, topics);
    var updated := Interaction(prior.count + 1, now, CountAll(prior.topics, topics));
    Memory(m.lastInteraction, m.interactions[u := updated], CountAll(m.topicHistory, topics))
  }

  /** Recording an interaction of `u`: the author's count rises by one, their
      last timestamp becomes `now`, every topic occurrence adds one to the
      author's table and to the global table, and nobody else changes. */
  lemma RecordInteractionFacts(m: Memory, u: string, topics: seq<string>, now: int)
    requires MemoryWellFormed(m)
    requires forall t :: t in topics ==> IsTopic(t)
    ensures var r := RecordInteraction(m, u, topics, now);
      && r.lastInteraction == m.lastInteraction
      && r.interactions.Keys == m.interactions.Keys + {u}
      && r.interactions[u].count == CountOf(m, u) + 1
      && r.interactions[u].lastTimestamp == now
      && (forall k :: Get(r.interactions[u].topics, k) == Get(TopicsOf(m, u), k) + multiset(topics)[k])
      && (forall k :: Get(r.topicHistory, k) == Get(m.topicHistory, k) + multiset(topics)[k])
      && (forall v :: v in m.interactions && v != u ==> r.interactions[v] == m.interactions[v])
  {
    var prior := if u in m.interactions then m.interactions[u] else FIRST_INTERACTION;
    CountTopicsInto(prior.topics, topics);
    CountTopicsInto(m.topicHistory, topics);
  }

  /** Counting topic occurrences into a well-formed table adds one per
      occurrence and keeps the table well formed. */
  lemma CountTopicsInto(t: TopicTable, topics: seq<string>)
    requires TableWellFormed(t)
    requires forall x :: x in topics ==> IsTopic(x)
    ensures TableWellFormed(CountAll(t, topics))
    ensures forall k :: Get(CountAll(t, topics), k) == Get(t, k) + multiset(topics)[k]
  {
    CountAllGet(t, topics);
    CountAllKeys(t, topics);
  }

  // ---------------------------------------------------------------------
  // The indexer state
  // ---------------------------------------------------------------------

  /** The `tweets` dictionary, with its keys in insertion order, and the memory. */
  datatype IndexerState = IndexerState(ids: seq<string>, tweets: map<string, IndexedTweet>, memory: Memory)

  predicate WellFormed(st: IndexerState)
  {
    && Distinct(st.ids)
    && (forall id :: id in st.ids ==> id in st.tweets)
    && (forall id :: id in st.tweets ==> id in st.ids)
    && MemoryWellFormed(st.memory)
  }

  /** The state of a freshly constructed indexer: no tweets, and the memory
      read from the snapshot if there is one. */
  function Initial(stored: Option<Memory>): IndexerState
  {
    IndexerState([], map[], stored.GetOr(EMPTY_MEMORY))
  }

  /** `Object.values(this.tweets)`: the stored records in key insertion order. */
  function Values(st: IndexerState): (r: seq<IndexedTweet>)
    requires WellFormed(st)
    ensures |r| == |st.ids|
    ensures forall i :: 0 <= i < |st.ids| ==> r[i] == st.tweets[st.ids[i]]
  {
    seq(|st.ids|, i requires 0 <= i < |st.ids| => st.tweets[st.ids[i]])
  }

  /** The position of a key in the insertion order. */
  function IndexOf(ids: seq<string>, id: string): (p: nat)
    requires id in ids
    ensures p < |ids| && ids[p] == id
    ensures forall q :: 0 <= q < p ==> ids[q] != id
  {
    if ids[0] == id then 0 else 1 + IndexOf(ids[1..], id)
  }

  /** `indexTweet` at clock reading `now`: the analysed record is stored under
      the tweet id, and the author's interaction is recorded when the tweet
      has a (non-empty) username. */
  function Index(st: IndexerState, tweet: Tweet, now: int): (r: IndexerState)
    requires WellFormed(st)
    ensures WellFormed(r)
  {
    var record := Analyze(tweet, now);
    var ids := if tweet.id in st.tweets then st.ids else st.ids + [tweet.id];
    var memory := if Truthy(tweet.username) then RecordInteraction(st.memory, tweet.username.value, record.topics, now)
                  else st.memory;
    assert Distinct(ids) by {
      if tweet.id !in st.tweets {
        assert forall i :: 0 <= i < |st.ids| ==> ids[i] == st.ids[i];
      }
    }
    IndexerState(ids, st.tweets[tweet.id := record], memory)
  }

  /** Indexing stores the analysed record under the tweet id: a known id
      keeps its position and gets the new record, a new id goes last. */
  lemma IndexStores(st: IndexerState, tweet: Tweet, now: int)
    requires WellFormed(st)
    ensures var r := Index(st, tweet, now);
      && r.tweets == st.tweets[tweet.id := Analyze(tweet, now)]
      && (tweet.id in st.tweets ==> Values(r) == Values(st)[IndexOf(st.ids, tweet.id) := Analyze(tweet, now)])
      && (tweet.id !in st.tweets ==> Values(r) == Values(st) + [Analyze(tweet, now)])
  {
    var r := Index(st, tweet, now);
    if tweet.id in st.tweets {
      ValuesAfterReplace(st, r, tweet.id, Analyze(tweet, now));
    } else {
      ValuesAfterAdd(st, r, tweet.id, Analyze(tweet, now));
    }
  }

  /** Replacing the record of a known id changes that position of the
      values only. */
  lemma ValuesAfterReplace(st: IndexerState, r: IndexerState, id: string, record: IndexedTweet)
    requires WellFormed(st) && WellFormed(r) && id in st.tweets
    requires r.ids == st.ids && r.tweets == st.tweets[id := record]
    ensures Values(r) == Values(st)[IndexOf(st.ids, id) := record]
  {
    var p := IndexOf(st.ids, id);
    forall i | 0 <= i < |st.ids| ensures Values(r)[i] == Values(st)[p := record][i] {
      if i != p {
        assert st.ids[i] != id by {
          assert Distinct(st.ids);
        }
      }
    }
  }

  /** Adding a record under a new id appends it to the values. */
  lemma ValuesAfterAdd(st: IndexerState, r: IndexerState, id: string, record: IndexedTweet)
    requires WellFormed(st) && WellFormed(r) && id !in st.tweets
    requires r.ids == st.ids + [id] && r.tweets == st.tweets[id := record]
    ensures Values(r) == Values(st) + [record]
  {
    forall i | 0 <= i < |st.ids| ensures Values(r)[i] == Values(st)[i] {
      assert st.ids[i] in st.tweets;
    }
  }

  /** Indexing records the author's interaction when the tweet has a
      username: one more tweet, the new timestamp, and one more occurrence of
      each of the tweet's topics for the author and globally. Without a
      username the memory is unchanged; other authors never change. */
  lemma IndexRecords(st: IndexerState, tweet: Tweet, now: int)
    requires WellFormed(st)
    ensures var r := Index(st, tweet, now);
      && r.memory.lastInteraction == st.memory.lastInteraction
      && (!Truthy(tweet.username) ==> r.memory == st.memory)
      && (forall v :: v in st.memory.interactions && Some(v) != tweet.username ==>
            v in r.memory.interactions && r.memory.interactions[v] == st.memory.interactions[v])
    ensures Truthy(tweet.username) ==> var r := Index(st, tweet, now); var u := tweet.username.value;
      && r.memory.interactions.Keys == st.memory.interactions.Keys + {u}
      && CountOf(r.memory, u) == CountOf(st.memory, u) + 1
      && r.memory.interactions[u].lastTimestamp == now
      && (forall k :: Get(TopicsOf(r.memory, u), k) == Get(TopicsOf(st.memory, u), k) + multiset(Topics(tweet.text))[k])
      && (forall k :: Get(r.memory.topicHistory, k) == Get(st.memory.topicHistory, k) + multiset(Topics(tweet.text))[k])
  {
    if Truthy(tweet.username) {
      RecordInteractionFacts(st.memory, tweet.username.value, Analyze(tweet, now).topics, now);
    }
  }

  /** Indexing the same tweet twice keeps one record (the second analysis)
      under its id, but counts the author and the topics twice. */
  lemma ReindexCountsTwice(st: IndexerState, tweet: Tweet, now1: int, now2: int)
    requires WellFormed(st) && Truthy(tweet.username)
    ensures var once := Index(st, tweet, now1); var twice := Index(once, tweet, now2); var u := tweet.username.value;
      && twice.ids == once.ids
      && |Values(twice)| == |Values(once)|
      && twice.tweets[tweet.id] == Analyze(tweet, now2)
      && CountOf(twice.memory, u) == CountOf(st.memory, u) + 2
      && forall k :: Get(twice.memory.topicHistory, k) == Get(st.memory.topicHistory, k) + 2 * multiset(Topics(tweet.text))[k]
  {
    var once := Index(st, tweet, now1);
    IndexStores(st, tweet, now1);
    IndexRecords(st, tweet, now1);
    IndexStores(once, tweet, now2);
    IndexRecords(once, tweet, now2);
  }

  // ---------------------------------------------------------------------
  // Relevant topics
  // ---------------------------------------------------------------------

  /** How many topics the reply policy looks at. */
  const TOP_TOPICS := 5

  /** `getRelevantTopics(username)`: the author's topics by non-increasing
      count (ties in insertion order), at most five; `[]` for an author the
      memory does not know. */
  function RelevantTopics(m: Memory, username: string): seq<string>
  {
    if username !in m.interactions then [] else TopKeys(m.interactions[username].topics, TOP_TOPICS)
  }

  /** The relevant topics: `[]` for an unknown author; otherwise five of the
      author's topics (all of them if fewer), distinct, in non-increasing
      count order, and no topic left out counts more than one kept. */
  lemma RelevantTopicsFacts(m: Memory, username: string)
    requires MemoryWellFormed(m)
    ensures var r := RelevantTopics(m, username);
      && (username !in m.interactions ==> r == [])
      && |r| == (if |TopicsOf(m, username)| < TOP_TOPICS then |TopicsOf(m, username)| else TOP_TOPICS)
      && Distinct(r)
      && (forall i :: 0 <= i < |r| ==> r[i] in Keys(TopicsOf(m, username)) && IsTopic(r[i]))
      && (forall i, j :: 0 <= i < j < |r| ==> Get(TopicsOf(m, username), r[i]) >= Get(TopicsOf(m, username), r[j]))
      && (forall k, i :: k in Keys(TopicsOf(m, username)) && k !in r && 0 <= i < |r| ==>
            Get(TopicsOf(m, username), k) <= Get(TopicsOf(m, username), r[i]))
  {
    if username in m.interactions {
      TopKeysFacts(m.interactions[username].topics, TOP_TOPICS);
    }
  }

  // ---------------------------------------------------------------------
  // Engagement statistics
  // ---------------------------------------------------------------------

  /** The result of `getEngagementStats`, with the two averages kept as the
      sums they divide and the number of tweets they divide by. */
  datatype EngagementStats = EngagementStats(tweetCount: nat, totalLikes: nat, totalRetweets: nat, topTopics: seq<string>)

  /** The records whose author is `author` (strict equality: an absent
      username matches only records without one). */
  function ByAuthor(values: seq<IndexedTweet>, author: Option<string>): seq<IndexedTweet>
  {
    if values == [] then []
    else ByAuthor(values[..|values| - 1], author)
         + (if values[|values| - 1].tweet.username == author then [values[|values| - 1]] else [])
  }

  /** `filter` keeps exactly the records by `author`, and no more records
      than there are. */
  lemma {:induction false} ByAuthorMembers(values: seq<IndexedTweet>, author: Option<string>)
    ensures forall x :: x in ByAuthor(values, author) <==> x in values && x.tweet.username == author
    ensures |ByAuthor(values, author)| <= |values|
  {
    if values != [] {
      var init, last := values[..|values| - 1], values[|values| - 1];
      ByAuthorMembers(init, author);
      assert values == init + [last];
    }
  }

  function SumLikes(values: seq<IndexedTweet>): nat
  {
    if values == [] then 0 else SumLikes(values[..|values| - 1]) + values[|values| - 1].engagement.likes
  }

  function SumRetweets(values: seq<IndexedTweet>): nat
  {
    if values == [] then 0 else SumRetweets(values[..|values| - 1]) + values[|values| - 1].engagement.retweets
  }

  /** Every topic occurrence of the given records, record by record. */
  function AllTopics(values: seq<IndexedTweet>): seq<string>
  {
    if values == [] then [] else AllTopics(values[..|values| - 1]) + values[|values| - 1].topics
  }

  /** `getEngagementStats(author)` over the stored records `values`. */
  function Stats(values: seq<IndexedTweet>, author: Option<string>): EngagementStats
  {
    var mine := ByAuthor(values, author);
    if |mine| == 0 then EngagementStats(0, 0, 0, [])
    else EngagementStats(|mine|, SumLikes(mine), SumRetweets(mine), TopKeys(CountAll([], AllTopics(mine)), TOP_TOPICS))
  }

  /** The statistics count the author's records and are all zero when there
      are none. The top topics are the author's most frequent ones: at most
      five distinct topics of the author's records, all of them when there
      are fewer, in non-increasing number of occurrences, and no topic left
      out occurs more often than one kept. */
  lemma StatsFacts(values: seq<IndexedTweet>, author: Option<string>)
    ensures var r := Stats(values, author);
      && r.tweetCount == |ByAuthor(values, author)|
      && (r.tweetCount == 0 ==> r == EngagementStats(0, 0, 0, []))
      && |r.topTopics| <= TOP_TOPICS && Distinct(r.topTopics)
      && (forall t :: t in r.topTopics ==> t in AllTopics(ByAuthor(values, author)))
    ensures var r := Stats(values, author); var occ := multiset(AllTopics(ByAuthor(values, author)));
      && (forall i, j :: 0 <= i < j < |r.topTopics| ==> occ[r.topTopics[i]] >= occ[r.topTopics[j]])
      && (forall t, i :: t in occ && t !in r.topTopics && 0 <= i < |r.topTopics| ==> occ[t] <= occ[r.topTopics[i]])
      && (|r.topTopics| < TOP_TOPICS ==> forall t :: t in occ ==> t in r.topTopics)
  {
    var mine := ByAuthor(values, author);
    if |mine| != 0 {
      TopTopicsRanked(AllTopics(mine));
    }
  }

  /** The five most frequent of a list of topic occurrences, counted into an
      empty table: distinct occurring topics, all of them when fewer than
      five, in non-increasing number of occurrences, and none left out occurs
      more often than one kept. */
  lemma TopTopicsRanked(all: seq<string>)
    ensures var top := TopKeys(CountAll([], all), TOP_TOPICS); var occ := multiset(all);
      && |top| <= TOP_TOPICS && Distinct(top)
      && (forall t :: t in top ==> t in all)
      && (forall i, j :: 0 <= i < j < |top| ==> occ[top[i]] >= occ[top[j]])
      && (forall t, i :: t in occ && t !in top && 0 <= i < |top| ==> occ[t] <= occ[top[i]])
      && (|top| < TOP_TOPICS ==> forall t :: t in occ ==> t in top)
  {
    var counts := CountAll([], all);
    CountAllKeys([], all);
    CountAllGet([], all);
    TopKeysFacts(counts, TOP_TOPICS);
    var top := TopKeys(counts, TOP_TOPICS);
    forall t | t in top ensures t in all {
      var i :| 0 <= i < |top| && top[i] == t;
    }
    if |top| < TOP_TOPICS {
      TopKeysAllWhenFew(counts, TOP_TOPICS);
    }
  }

  /** `avgLikes > bound`, decided on integers. */
  predicate LikesAverageAbove(s: EngagementStats, bound: nat)
  {
    s.totalLikes > bound * s.tweetCount
  }

  /** The integer test agrees with comparing the real average, and with the
      zero average reported when the author has no tweets. */
  lemma LikesAverageAboveIsAverage(s: EngagementStats, bound: nat)
    ensures s.tweetCount > 0 ==> (LikesAverageAbove(s, bound) <==> s.totalLikes as real / s.tweetCount as real > bound as real)
    ensures s == EngagementStats(0, 0, 0, []) ==> !LikesAverageAbove(s, bound)
  {
    if s.tweetCount > 0 {
      var n := s.tweetCount as real;
      var avg := s.totalLikes as real / n;
      assert avg * n == s.totalLikes as real;
      if s.totalLikes > bound * s.tweetCount {
        assert avg * n > bound as real * n;
      } else {
        assert avg * n <= bound as real * n;
      }
    }
  }

  // ---------------------------------------------------------------------
  // The reply gate
  // ---------------------------------------------------------------------

  /** The account the agent replies to. */
  const TARGET_USER := "aixbt_agent"

  /** Some stored record was written by `own` in reply to `id`. */
  predicate HasReplied(values: seq<IndexedTweet>, own: Option<string>, id: string)
  {
    exists i :: 0 <= i < |values| && values[i].tweet.username == own && values[i].replyToId == Some(id)
  }

  /** `shouldReplyToTweet`: from the target account, not itself a reply, and
      not yet answered by `own` according to the stored records. */
  predicate ShouldReply(values: seq<IndexedTweet>, own: Option<string>, tweet: Tweet)
  {
    && tweet.username == Some(TARGET_USER)
    && !Truthy(tweet.inReplyToStatusId)
    && !HasReplied(values, own, tweet.id)
  }

  /** Once a reply by `own` to `target` has been indexed, the gate is shut
      for `target`. */
  lemma OwnReplyClosesGate(st: IndexerState, reply: Tweet, now: int, own: Option<string>, target: Tweet)
    requires WellFormed(st)
    requires reply.username == own && reply.inReplyToStatusId == Some(target.id)
    ensures !ShouldReply(Values(Index(st, reply, now)), own, target)
  {
    var r := Index(st, reply, now);
    IndexStores(st, reply, now);
    var p := IndexOf(r.ids, reply.id);
    assert Values(r)[p] == Analyze(reply, now);
  }

  /** Indexing any other tweet never shuts the gate: the only way for
      `shouldReplyToTweet` to turn false for a top-level target tweet is an
      indexed reply by `own` to it. */
  lemma OtherTweetsKeepGateOpen(st: IndexerState, tweet: Tweet, now: int, own: Option<string>, target: Tweet)
    requires WellFormed(st)
    requires !(tweet.username == own && tweet.inReplyToStatusId == Some(target.id))
    ensures ShouldReply(Values(st), own, target) ==> ShouldReply(Values(Index(st, tweet, now)), own, target)
    ensures HasReplied(Values(Index(st, tweet, now)), own, target.id) ==> HasReplied(Values(st), own, target.id)
  {
    IndexStores(st, tweet, now);
    var record := Analyze(tweet, now);
    if tweet.id in st.tweets {
      HasRepliedReplace(Values(st), IndexOf(st.ids, tweet.id), record, own, target.id);
    } else {
      HasRepliedAppend(Values(st), record, own, target.id);
    }
  }

  /** Overwriting a record with one that is not a reply by `own` to `id`
      cannot make `own` have replied to `id`. */
  lemma HasRepliedReplace(values: seq<IndexedTweet>, p: nat, record: IndexedTweet, own: Option<string>, id: string)
    requires p < |values|
    requires !(record.tweet.username == own && record.replyToId == Some(id))
    ensures HasReplied(values[p := record], own, id) ==> HasReplied(values, own, id)
  {
    if HasReplied(values[p := record], own, id) {
      var i :| 0 <= i < |values| && values[p := record][i].tweet.username == own && values[p := record][i].replyToId == Some(id);
      assert values[i] == values[p := record][i];
    }
  }

  /** Appending a record that is not a reply by `own` to `id` cannot make
      `own` have replied to `id`. */
  lemma HasRepliedAppend(values: seq<IndexedTweet>, record: IndexedTweet, own: Option<string>, id: string)
    requires !(record.tweet.username == own && record.replyToId == Some(id))
    ensures HasReplied(values + [record], own, id) ==> HasReplied(values, own, id)
  {
    if HasReplied(values + [record], own, id) {
      var i :| 0 <= i < |values| + 1 && (values + [record])[i].tweet.username == own && (values + [record])[i].replyToId == Some(id);
      assert values[i] == (values + [record])[i];
    }
  }

  /** A freshly constructed indexer has no stored tweets, so its gate is open
      for every top-level tweet of the target account: replies sent before a
      restart are not remembered. */
  lemma FreshIndexerGateOpen(stored: Option<Memory>, own: Option<string>, target: Tweet)
    requires stored.Some? ==> MemoryWellFormed(stored.value)
    requires target.username == Some(TARGET_USER) && !Truthy(target.inReplyToStatusId)
    ensures WellFormed(Initial(stored))
    ensures ShouldReply(Values(Initial(stored)), own, target)
  {
  }
}

/** The `DataIndexer` object: the `tweets` dictionary and the agent memory as
    fields, updated in place by `IndexTweet`. Its read queries are the
    functions of `IndexModel` and `ReplyPolicy` applied to `State()`. */
module Indexing {
  import opened Wrappers
  import opened Tweets
  import opened TopicTables
  import opened TweetAnalysis
  import opened IndexModel

  class DataIndexer {
    /** The agent's own account name (`process.env.TWITTER_USERNAME`), which
        may be unset. */
    const ownUsername: Option<string>
    /** The keys of `tweets` in insertion order. */
    var tweetIds: seq<string>
    var tweets: map<string, IndexedTweet>
    var memory: Memory

    function State(): IndexerState
      reads this
    {
      IndexerState(tweetIds, tweets, memory)
    }

    ghost predicate Valid()
      reads this
    {
      WellFormed(State())
    }

    /** A new indexer starts with no tweets and with the memory snapshot
        `stored` when one exists (the empty memory otherwise). */
    constructor(ownUsername: Option<string>, stored: Option<Memory>)
      requires stored.Some? ==> MemoryWellFormed(stored.value)
      ensures Valid()
      ensures State() == Initial(stored)
      ensures this.ownUsername == ownUsername
    {
      this.ownUsername := ownUsername;
      tweetIds := [];
      tweets := map[];
      memory := stored.GetOr(EMPTY_MEMORY);
    }

    /** `indexTweet(tweet)` with the clock reading `now`. The in-memory state is
        updated first; `snapshotWritable` says whether the two snapshot writes
        that follow succeed, and `ok` is false when one of them throws. */
    method IndexTweet(tweet: Tweet, now: int, snapshotWritable: bool) returns (ok: bool)
      requires Valid()
      modifies this
      ensures Valid()
      ensures State() == Index(old(State()), tweet, now)
      ensures ok == snapshotWritable
    {
      var record := Analyze(tweet, now);
      if tweet.id !in tweets {
        tweetIds := tweetIds + [tweet.id];
      }
      tweets := tweets[tweet.id := record];
      if Truthy(tweet.username) {
        RecordAuthor(tweet.username.value, record.topics, now);
      }
      ok := snapshotWritable;
    }

    /** The memory half of `indexTweet`: `u`'s record is created if missing,
        its count and timestamp set, then every topic occurrence counted in
        `u`'s table and in the global table, one after the other. */
    method RecordAuthor(u: string, topics: seq<string>, now: int)
      requires MemoryWellFormed(memory)
      requires forall t :: t in topics ==> IsTopic(t)
      modifies this
      ensures memory == RecordInteraction(old(memory), u, topics, now)
      ensures tweetIds == old(tweetIds) && tweets == old(tweets)
    {
      var prior := if u in memory.interactions then memory.interactions[u] else FIRST_INTERACTION;
      var userTopics, history := CountTopics(prior.topics, memory.topicHistory, topics);
      memory := Memory(memory.lastInteraction,
                       memory.interactions[u := Interaction(prior.count + 1, now, userTopics)],
                       history);
    }
  }

  /** The `forEach` over the topics: each occurrence is counted in the
      author's table and in the global table. */
  method CountTopics(userTopics0: TopicTable, history0: TopicTable, topics: seq<string>)
    returns (userTopics: TopicTable, history: TopicTable)
    ensures userTopics == CountAll(userTopics0, topics)
    ensures history == CountAll(history0, topics)
  {
    userTopics, history := userTopics0, history0;
    var i := 0;
    while i < |topics|
      invariant 0 <= i <= |topics|
      invariant userTopics == CountAll(userTopics0, topics[..i])
      invariant history == CountAll(history0, topics[..i])
    {
      assert topics[..i + 1][..i] == topics[..i];
      userTopics := Increment(userTopics, topics[i]);
      history := Increment(history, topics[i]);
      i := i + 1;
    }
    assert topics[..i] == topics;
  }
}

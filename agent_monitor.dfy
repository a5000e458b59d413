/** `AgentMonitor`: polls the target account, indexes every new tweet and
    replies to those the reply gate admits. */
module AgentMonitoring {
  import opened Wrappers
  import opened Tweets
  import opened TweetAnalysis
  import opened IndexModel
  import opened ReplyPolicy
  import opened Polling
  import opened Indexing

  /** What goes wrong while one tweet is processed: the snapshot write at the
      end of `indexTweet` throws, or `sendTweet` throws. */
  datatype Fault = NoFault | SnapshotFails | SendFails

  /** The fault met by the `i`-th processed tweet; none beyond the list. */
  function FaultAt(faults: seq<Fault>, i: nat): Fault
  {
    if i < |faults| then faults[i] else NoFault
  }

  /** The feed monitor keeps every new tweet. */
  const EVERY_TWEET: Tweet -> bool := _ => true

  /** The indexer state and the replies sent so far. */
  datatype Outcome = Outcome(st: IndexerState, sent: seq<Reply>)

  /** One step of `processTweet`: index, then ask the gate (which sees the tweet just
      indexed), then compose and send. A fault ends the step early; the
      in-memory index is updated in every case. */
  function Step(st: IndexerState, own: Option<string>, sent: seq<Reply>, tweet: Tweet, now: int, fault: Fault): (r: Outcome)
    requires WellFormed(st)
    ensures WellFormed(r.st)
  {
    var indexed := Index(st, tweet, now);
    // A snapshot fault skips the gate; a send fault loses the composed text.
    var replied := fault == NoFault && ShouldReply(Values(indexed), own, tweet);
    if replied then Outcome(indexed, sent + [Reply(GenerateReply(indexed, tweet), tweet.id, [])])
    else Outcome(indexed, sent)
  }

  /** A step always indexes the tweet, and sends at most one reply: exactly
      when no fault occurs and the gate, asked after indexing, admits the
      tweet. The reply is the generated text, addressed to the tweet, with no
      media; the replies sent before are kept. */
  lemma StepFacts(st: IndexerState, own: Option<string>, sent: seq<Reply>, tweet: Tweet, now: int, fault: Fault)
    requires WellFormed(st)
    ensures var r := Step(st, own, sent, tweet, now, fault);
      && r.st == Index(st, tweet, now)
      && |sent| <= |r.sent| <= |sent| + 1 && r.sent[..|sent|] == sent
      && (|r.sent| == |sent| + 1 <==> fault == NoFault && ShouldReply(Values(r.st), own, tweet))
      && (|r.sent| == |sent| + 1 ==> r.sent[|sent|] == Reply(GenerateReply(r.st, tweet), tweet.id, []))
  {
    var r := Step(st, own, sent, tweet, now, fault);
    assert r.sent[..|sent|] == sent;
  }

  /** The processing loop of one poll over `tweets`, in the order given. */
  function ProcessAll(st: IndexerState, own: Option<string>, sent: seq<Reply>, tweets: seq<Tweet>, now: int, faults: seq<Fault>): (r: Outcome)
    requires WellFormed(st)
    ensures WellFormed(r.st)
  {
    if tweets == [] then Outcome(st, sent)
    else
      var n := |tweets| - 1;
      var prev := ProcessAll(st, own, sent, tweets[..n], now, faults);
      Step(prev.st, own, prev.sent, tweets[n], now, FaultAt(faults, n))
  }

  /** One more tweet at the end of a poll is one more step. */
  lemma ProcessAllSnoc(st: IndexerState, own: Option<string>, sent: seq<Reply>, init: seq<Tweet>, last: Tweet, now: int, faults: seq<Fault>)
    requires WellFormed(st)
    ensures var prev := ProcessAll(st, own, sent, init, now, faults);
      ProcessAll(st, own, sent, init + [last], now, faults) == Step(prev.st, own, prev.sent, last, now, FaultAt(faults, |init|))
  {
    SnocParts(init, last);
  }

  lemma SnocParts<T>(init: seq<T>, last: T)
    ensures var s := init + [last]; |s| - 1 == |init| && s[..|s| - 1] == init && s[|s| - 1] == last
  {
  }

  lemma PrefixOfPrefix<T>(s: seq<T>, a: nat, b: nat)
    requires a <= b <= |s|
    ensures s[..b][..a] == s[..a]
  {
  }

  lemma PrefixSnoc<T>(s: seq<T>, j: nat)
    requires j < |s|
    ensures s[..j + 1] == s[..j] + [s[j]]
  {
  }

  /** The loop of a poll after `j + 1` tweets is one step after `j`. */
  lemma ProcessAllPrefix(st: IndexerState, own: Option<string>, sent: seq<Reply>, order: seq<Tweet>, j: nat, now: int, faults: seq<Fault>)
    requires WellFormed(st) && j < |order|
    ensures var prev := ProcessAll(st, own, sent, order[..j], now, faults);
      ProcessAll(st, own, sent, order[..j + 1], now, faults) == Step(prev.st, own, prev.sent, order[j], now, FaultAt(faults, j))
  {
    PrefixSnoc(order, j);
    ProcessAllSnoc(st, own, sent, order[..j], order[j], now, faults);
  }

  /** A poll keeps the replies sent before and adds at most one per tweet. */
  lemma {:induction false} ProcessAllSent(st: IndexerState, own: Option<string>, sent: seq<Reply>, tweets: seq<Tweet>, now: int, faults: seq<Fault>)
    requires WellFormed(st)
    ensures var r := ProcessAll(st, own, sent, tweets, now, faults);
      |sent| <= |r.sent| <= |sent| + |tweets| && r.sent[..|sent|] == sent
  {
    if tweets != [] {
      var n := |tweets| - 1;
      ProcessAllSent(st, own, sent, tweets[..n], now, faults);
      var prev := ProcessAll(st, own, sent, tweets[..n], now, faults);
      StepFacts(prev.st, own, prev.sent, tweets[n], now, FaultAt(faults, n));
      var r := Step(prev.st, own, prev.sent, tweets[n], now, FaultAt(faults, n));
      PrefixOfPrefix(r.sent, |sent|, |prev.sent|);
    }
  }

  /** The ids of a sequence of tweets. */
  function IdsOf(tweets: seq<Tweet>): set<string>
  {
    set t | t in tweets :: t.id
  }

  /** After a poll the index holds the ids it held before and those of the
      processed tweets, and no others. */
  lemma {:induction false} ProcessAllIds(st: IndexerState, own: Option<string>, sent: seq<Reply>, tweets: seq<Tweet>, now: int, faults: seq<Fault>)
    requires WellFormed(st)
    ensures ProcessAll(st, own, sent, tweets, now, faults).st.tweets.Keys == st.tweets.Keys + IdsOf(tweets)
  {
    if tweets != [] {
      var n := |tweets| - 1;
      ProcessAllIds(st, own, sent, tweets[..n], now, faults);
      var prev := ProcessAll(st, own, sent, tweets[..n], now, faults);
      StepIds(prev.st, own, prev.sent, tweets[n], now, FaultAt(faults, n));
      IdsSnoc(tweets[..n], tweets[n]);
      assert tweets == tweets[..n] + [tweets[n]];
    }
  }

  /** A step adds the id of its tweet to the index. */
  lemma StepIds(st: IndexerState, own: Option<string>, sent: seq<Reply>, tweet: Tweet, now: int, fault: Fault)
    requires WellFormed(st)
    ensures Step(st, own, sent, tweet, now, fault).st.tweets.Keys == st.tweets.Keys + {tweet.id}
  {
    StepFacts(st, own, sent, tweet, now, fault);
    IndexStores(st, tweet, now);
  }

  lemma IdsSnoc(init: seq<Tweet>, last: Tweet)
    ensures IdsOf(init + [last]) == IdsOf(init) + {last.id}
  {
    assert forall t :: t in init + [last] <==> t in init || t == last;
  }

  /** `reply` answers a tweet of `tweets` that is a top-level tweet of the
      target account. */
  ghost predicate AnswersTarget(reply: Reply, tweets: seq<Tweet>)
  {
    exists t :: t in tweets && reply.inReplyTo == t.id && t.username == Some(TARGET_USER) && !Truthy(t.inReplyToStatusId)
  }

  /** The replies from position `from` on answer target tweets of `tweets`
      and carry no media. */
  ghost predicate NewRepliesAnswer(sent: seq<Reply>, from: nat, tweets: seq<Tweet>)
  {
    forall k :: from <= k < |sent| ==> sent[k].media == [] && AnswersTarget(sent[k], tweets)
  }

  /** Every reply sent by a poll answers one of its tweets that is a
      top-level tweet of the target account, and carries no media. */
  lemma {:induction false} RepliesAnswerTargetTweets(st: IndexerState, own: Option<string>, sent: seq<Reply>, tweets: seq<Tweet>, now: int, faults: seq<Fault>)
    requires WellFormed(st)
    ensures NewRepliesAnswer(ProcessAll(st, own, sent, tweets, now, faults).sent, |sent|, tweets)
  {
    if tweets != [] {
      var n := |tweets| - 1;
      RepliesAnswerTargetTweets(st, own, sent, tweets[..n], now, faults);
      ProcessAllSent(st, own, sent, tweets[..n], now, faults);
      var prev := ProcessAll(st, own, sent, tweets[..n], now, faults);
      StepFacts(prev.st, own, prev.sent, tweets[n], now, FaultAt(faults, n));
      StepReplyAnswers(prev.st, own, prev.sent, tweets[n], now, FaultAt(faults, n));
      assert tweets[n] in tweets;
      NewRepliesExtend(prev.sent, Step(prev.st, own, prev.sent, tweets[n], now, FaultAt(faults, n)).sent, |sent|, tweets, n);
    }
  }

  /** The reply a step sends, if any, answers its tweet, which is a
      top-level tweet of the target account, and carries no media. */
  lemma StepReplyAnswers(st: IndexerState, own: Option<string>, sent: seq<Reply>, tweet: Tweet, now: int, fault: Fault)
    requires WellFormed(st)
    ensures var r := Step(st, own, sent, tweet, now, fault);
      |r.sent| == |sent| + 1 ==>
        && r.sent[|sent|].media == [] && r.sent[|sent|].inReplyTo == tweet.id
        && tweet.username == Some(TARGET_USER) && !Truthy(tweet.inReplyToStatusId)
  {
    StepFacts(st, own, sent, tweet, now, fault);
  }

  /** Extending the replies of the first `n` tweets by at most one reply that
      answers a target tweet among all the tweets. */
  lemma NewRepliesExtend(prev: seq<Reply>, next: seq<Reply>, from: nat, tweets: seq<Tweet>, n: nat)
    requires n < |tweets| && from <= |prev|
    requires NewRepliesAnswer(prev, from, tweets[..n])
    requires |prev| <= |next| <= |prev| + 1 && next[..|prev|] == prev
    requires |next| == |prev| + 1 ==> next[|prev|].media == [] && AnswersTarget(next[|prev|], tweets)
    ensures NewRepliesAnswer(next, from, tweets)
  {
    forall k | from <= k < |next|
      ensures next[k].media == [] && AnswersTarget(next[k], tweets)
    {
      if k < |prev| {
        assert next[k] == prev[k] by {
          assert next[..|prev|][k] == next[k];
        }
        AnswersTargetInPrefix(next[k], tweets, n);
      }
    }
  }

  lemma AnswersTargetInPrefix(reply: Reply, tweets: seq<Tweet>, n: nat)
    requires n <= |tweets|
    requires AnswersTarget(reply, tweets[..n])
    ensures AnswersTarget(reply, tweets)
  {
    var t :| t in tweets[..n] && reply.inReplyTo == t.id && t.username == Some(TARGET_USER) && !Truthy(t.inReplyToStatusId);
    assert t in tweets;
  }

  /** A fault only costs the reply: the index after a poll is the same
      whatever faults occur and whatever was sent before. */
  lemma {:induction false} IndexIgnoresFaults(st: IndexerState, own: Option<string>, sent1: seq<Reply>, sent2: seq<Reply>,
                                              tweets: seq<Tweet>, now: int, faults1: seq<Fault>, faults2: seq<Fault>)
    requires WellFormed(st)
    ensures ProcessAll(st, own, sent1, tweets, now, faults1).st == ProcessAll(st, own, sent2, tweets, now, faults2).st
  {
    if tweets != [] {
      IndexIgnoresFaults(st, own, sent1, sent2, tweets[..|tweets| - 1], now, faults1, faults2);
    }
  }

  /** Replying does not shut the gate: the sent reply is never indexed, so a
      target tweet that passed the gate before a poll still passes it after,
      unless the poll itself fetched a reply by the agent to that tweet. The
      only protection against answering twice is the cursor. */
  lemma {:induction false} GateStaysOpen(st: IndexerState, own: Option<string>, sent: seq<Reply>, tweets: seq<Tweet>, now: int,
                                         faults: seq<Fault>, target: Tweet)
    requires WellFormed(st)
    requires forall t :: t in tweets ==> !(t.username == own && t.inReplyToStatusId == Some(target.id))
    requires ShouldReply(Values(st), own, target)
    ensures ShouldReply(Values(ProcessAll(st, own, sent, tweets, now, faults).st), own, target)
  {
    if tweets != [] {
      var n := |tweets| - 1;
      assert forall t :: t in tweets[..n] ==> t in tweets;
      GateStaysOpen(st, own, sent, tweets[..n], now, faults, target);
      var prev := ProcessAll(st, own, sent, tweets[..n], now, faults);
      assert tweets[n] in tweets;
      OtherTweetsKeepGateOpen(prev.st, tweets[n], now, own, target);
      StepFacts(prev.st, own, prev.sent, tweets[n], now, FaultAt(faults, n));
    }
  }

  /** The fetch loop of `checkNewTweets`: the tweets newer than `cursor`,
      in the order fetched. */
  method KeepNew(batch: seq<Tweet>, cursor: Option<string>) returns (kept: seq<Tweet>)
    ensures kept == Select(batch, cursor, EVERY_TWEET)
  {
    kept := [];
    var i := 0;
    while i < |batch|
      invariant 0 <= i <= |batch|
      invariant kept == Select(batch[..i], cursor, EVERY_TWEET)
    {
      assert batch[..i + 1][..i] == batch[..i];
      if IsNew(batch[i].id, cursor) {
        kept := kept + [batch[i]];
      }
      i := i + 1;
    }
    assert batch[..i] == batch;
  }

  class AgentMonitor {
    const indexer: DataIndexer
    var isMonitoring: bool
    var intervalId: Option<nat>
    /** Handles of the intervals still firing. */
    var liveIntervals: set<nat>
    var nextHandle: nat
    /** `start` calls still awaiting their initial poll. */
    var pendingStarts: nat
    var lastCheckedId: Option<string>
    /** The replies sent, in order. */
    var sent: seq<Reply>

    function Life(): Lifecycle
      reads this
    {
      Lifecycle(isMonitoring, intervalId, liveIntervals, nextHandle, pendingStarts)
    }

    ghost predicate Valid()
      reads this, indexer
    {
      indexer.Valid()
    }

    constructor(indexer: DataIndexer)
      requires indexer.Valid()
      ensures Valid() && this.indexer == indexer
      ensures Life() == IDLE && lastCheckedId == None && sent == []
    {
      this.indexer := indexer;
      isMonitoring := false;
      intervalId := None;
      liveIntervals := {};
      nextHandle := 0;
      pendingStarts := 0;
      lastCheckedId := None;
      sent := [];
    }

    /** `start` up to the end of its initial poll (of `fetched`); the interval
        is armed by `FinishStart`. Returns whether the call did anything. */
    method Start(fetched: Option<seq<Tweet>>, now: int, faults: seq<Fault>) returns (began: bool)
      requires Valid()
      modifies this, indexer
      ensures Valid()
      ensures began <==> !old(isMonitoring)
      ensures Life() == BeginStart(old(Life()))
      ensures !began ==> lastCheckedId == old(lastCheckedId) && sent == old(sent) && indexer.State() == old(indexer.State())
      ensures began ==> PolledOnce(fetched, now, faults, old(lastCheckedId), old(sent), old(indexer.State()))
    {
      if isMonitoring {
        return false;
      }
      isMonitoring := true;
      pendingStarts := pendingStarts + 1;
      CheckNewTweets(fetched, now, faults);
      return true;
    }

    /** The rest of `start`: `setInterval` returns a fresh handle, which is
        stored. */
    method FinishStart()
      requires pendingStarts > 0
      modifies this
      ensures Life() == Polling.FinishStart(old(Life()))
      ensures lastCheckedId == old(lastCheckedId) && sent == old(sent)
    {
      intervalId := Some(nextHandle);
      liveIntervals := liveIntervals + {nextHandle};
      nextHandle := nextHandle + 1;
      pendingStarts := pendingStarts - 1;
    }

    method Stop()
      modifies this
      ensures Life() == Polling.Stop(old(Life()))
      ensures lastCheckedId == old(lastCheckedId) && sent == old(sent)
    {
      if !isMonitoring {
        return;
      }
      if intervalId.Some? {
        liveIntervals := liveIntervals - {intervalId.value};
        intervalId := None;
      }
      isMonitoring := false;
    }

    /** One firing of a live interval: a poll, whether or not the monitor is
        still monitoring. */
    method OnInterval(handle: nat, fetched: Option<seq<Tweet>>, now: int, faults: seq<Fault>)
      requires Valid() && handle in liveIntervals
      modifies this, indexer
      ensures Valid() && Life() == old(Life())
      ensures PolledOnce(fetched, now, faults, old(lastCheckedId), old(sent), old(indexer.State()))
    {
      CheckNewTweets(fetched, now, faults);
    }

    /** What one poll leaves behind. A failed fetch (`None`) changes nothing;
        otherwise the cursor moves to the first kept tweet and the kept tweets
        are processed oldest-first. */
    ghost predicate PolledOnce(fetched: Option<seq<Tweet>>, now: int, faults: seq<Fault>,
                               cursor0: Option<string>, sent0: seq<Reply>, st0: IndexerState)
      reads this, indexer
    {
      if fetched.None? then lastCheckedId == cursor0 && sent == sent0 && indexer.State() == st0
      else
        var kept := Select(fetched.value, cursor0, EVERY_TWEET);
        && lastCheckedId == NextCursor(cursor0, kept)
        && WellFormed(st0)
        && Outcome(indexer.State(), sent) == ProcessAll(st0, indexer.ownUsername, sent0, Reverse(kept), now, faults)
    }

    /** `checkNewTweets`. */
    method CheckNewTweets(fetched: Option<seq<Tweet>>, now: int, faults: seq<Fault>)
      requires Valid()
      modifies this, indexer
      ensures Valid() && Life() == old(Life())
      ensures PolledOnce(fetched, now, faults, old(lastCheckedId), old(sent), old(indexer.State()))
    {
      if fetched.None? {
        return;
      }
      var kept := KeepNew(fetched.value, lastCheckedId);
      if |kept| > 0 {
        lastCheckedId := Some(kept[0].id);
      }

      ProcessOldestFirst(Reverse(kept), now, faults);
    }

    /** The `for` loop over the reversed list of new tweets. */
    method ProcessOldestFirst(order: seq<Tweet>, now: int, faults: seq<Fault>)
      requires Valid()
      modifies this, indexer
      ensures Valid() && Life() == old(Life()) && lastCheckedId == old(lastCheckedId)
      ensures Outcome(indexer.State(), sent) == ProcessAll(old(indexer.State()), indexer.ownUsername, old(sent), order, now, faults)
    {
      var j := 0;
      while j < |order|
        invariant 0 <= j <= |order|
        invariant indexer.Valid()
        invariant Life() == old(Life()) && lastCheckedId == old(lastCheckedId)
        invariant Outcome(indexer.State(), sent) == ProcessAll(old(indexer.State()), indexer.ownUsername, old(sent), order[..j], now, faults)
      {
        ProcessTweet(order[j], now, FaultAt(faults, j));
        ProcessAllPrefix(old(indexer.State()), indexer.ownUsername, old(sent), order, j, now, faults);
        j := j + 1;
      }
      assert order[..j] == order;
    }

    /** `processTweet`. */
    method ProcessTweet(tweet: Tweet, now: int, fault: Fault)
      requires Valid()
      modifies this, indexer
      ensures Valid() && Life() == old(Life()) && lastCheckedId == old(lastCheckedId)
      ensures Outcome(indexer.State(), sent) == Step(old(indexer.State()), indexer.ownUsername, old(sent), tweet, now, fault)
    {
      var ok := indexer.IndexTweet(tweet, now, fault != SnapshotFails);
      if !ok {
        return;
      }
      if ShouldReply(Values(indexer.State()), indexer.ownUsername, tweet) {
        var replyContent := GenerateReply(indexer.State(), tweet);
        if fault != SendFails {
          sent := sent + [Reply(replyContent, tweet.id, [])];
        }
      }
    }
  }
}

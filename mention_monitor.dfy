/** `MentionMonitor`: polls the search for mentions carrying `#generateart`,
    renders the prompt of each new one and replies with the image, or with an
    apology when rendering or replying fails. */
module MentionMonitoring {
  import opened Wrappers
  import opened Text
  import opened Tweets
  import opened Polling
  import opened ArtPrompt

  const PNG := "image/png"

  /** `@${mention.username} `, with which both replies open. */
  function Handle(username: Option<string>): string
  {
    "@" + Display(username) + " "
  }

  /** The art reply. The last four characters are the ones the source file
      holds: the UTF-8 bytes of an artist-palette emoji read as Windows-1252. */
  function ArtReplyText(username: Option<string>): string
  {
    Handle(username) + ("Here's your generated art! " + "\U{00F0}\U{0178}\U{017D}\U{00A8}")
  }

  function ApologyText(username: Option<string>): string
  {
    Handle(username) + ("Sorry, I encountered an error " + "while generating your art. " + "Please try again later.")
  }

  /** The mention monitor keeps the mentions not written by the agent's own
      account (`tweet.username !== process.env.TWITTER_USERNAME`). */
  function NotOwn(own: Option<string>): Tweet -> bool
  {
    (t: Tweet) => t.username != own
  }

  /** How the outside world treats one mention that has a prompt: the image
      read back after rendering (none when `generateArt` or `readFile`
      throws), whether the art reply is delivered, and whether the apology is
      delivered when it is needed. */
  datatype Attempt = Attempt(image: Option<seq<bv8>>, artReplySent: bool, apologySent: bool)

  /** The attempt met by the `i`-th processed mention; beyond the list,
      rendering fails and the apology goes out. */
  function AttemptAt(attempts: seq<Attempt>, i: nat): Attempt
  {
    if i < |attempts| then attempts[i] else Attempt(None, false, true)
  }

  /** The work of one poll so far: the prompts sent to the art generator, the
      replies sent, how many mentions were taken up, and whether an error
      escaped `processMention` (which ends the poll). */
  datatype Progress = Progress(prompts: seq<string>, sent: seq<Reply>, handled: nat, escaped: bool)

  /** `processMention`. An error while rendering or sending the art is caught
      and answered with an apology; an error while sending the apology
      escapes. */
  function HandleMention(p: Progress, m: Tweet, a: Attempt): (r: Progress)
    ensures r.handled == p.handled + 1
    ensures ExtractPrompt(m.text).None? ==> r == Progress(p.prompts, p.sent, r.handled, false)
    ensures ExtractPrompt(m.text).Some? ==> r.prompts == p.prompts + [ExtractPrompt(m.text).value]
    ensures |p.sent| <= |r.sent| <= |p.sent| + 1 && r.sent[..|p.sent|] == p.sent
    ensures r.escaped <==> ExtractPrompt(m.text).Some? && |r.sent| == |p.sent| && !a.apologySent
  {
    match ExtractPrompt(m.text)
    case None => Progress(p.prompts, p.sent, p.handled + 1, false)
    case Some(prompt) =>
      var prompts := p.prompts + [prompt];
      if a.image.Some? && a.artReplySent then
        Progress(prompts, p.sent + [Reply(ArtReplyText(m.username), m.id, [Media(a.image.value, PNG)])], p.handled + 1, false)
      else if a.apologySent then
        Progress(prompts, p.sent + [Reply(ApologyText(m.username), m.id, [])], p.handled + 1, false)
      else
        Progress(prompts, p.sent, p.handled + 1, true)
  }

  /** The processing loop of one poll, oldest first, ended by an escaping
      error. */
  function HandleAll(p: Progress, ms: seq<Tweet>, attempts: seq<Attempt>): (r: Progress)
    requires !p.escaped
    ensures p.handled <= r.handled <= p.handled + |ms|
    ensures !r.escaped ==> r.handled == p.handled + |ms|
    ensures |p.sent| <= |r.sent| && r.sent[..|p.sent|] == p.sent
    ensures |r.sent| - |p.sent| <= r.handled - p.handled && |r.prompts| - |p.prompts| <= r.handled - p.handled
  {
    if ms == [] then p
    else
      var n := |ms| - 1;
      var prev := HandleAll(p, ms[..n], attempts);
      if prev.escaped then prev else HandleMention(prev, ms[n], AttemptAt(attempts, n))
  }

  /** Once an error has escaped, the rest of the poll is skipped. */
  lemma {:induction false} EscapeEndsPoll(p: Progress, ms: seq<Tweet>, attempts: seq<Attempt>, j: nat)
    requires !p.escaped && j <= |ms|
    requires HandleAll(p, ms[..j], attempts).escaped
    ensures HandleAll(p, ms, attempts) == HandleAll(p, ms[..j], attempts)
    decreases |ms| - j
  {
    if j < |ms| {
      var n := |ms| - 1;
      assert ms[..n][..j] == ms[..j];
      EscapeEndsPoll(p, ms[..n], attempts, j);
    } else {
      assert ms[..j] == ms;
    }
  }

  /** `reply` answers `m`, which carries a prompt: it is addressed to `m`,
      opens with its author's handle, and carries either one PNG or no media
      at all. */
  ghost predicate ReplyFor(reply: Reply, m: Tweet)
  {
    && ExtractPrompt(m.text).Some? && reply.inReplyTo == m.id
    && StartsWith(reply.text, Handle(m.username))
    && (reply.media == [] || (|reply.media| == 1 && reply.media[0].mediaType == PNG))
  }

  /** `reply` answers some mention of `ms`. */
  ghost predicate AnswersMention(reply: Reply, ms: seq<Tweet>)
  {
    exists m :: m in ms && ReplyFor(reply, m)
  }

  ghost predicate NewRepliesAnswer(sent: seq<Reply>, from: nat, ms: seq<Tweet>)
  {
    forall k :: from <= k < |sent| ==> AnswersMention(sent[k], ms)
  }

  lemma OpensWith(h: string, rest: string)
    ensures StartsWith(h + rest, h)
  {
    assert (h + rest)[..|h|] == h;
  }

  /** What `processMention` sends answers the mention. */
  lemma HandleMentionReplies(p: Progress, m: Tweet, a: Attempt)
    ensures var r := HandleMention(p, m, a);
      forall k :: |p.sent| <= k < |r.sent| ==> ReplyFor(r.sent[k], m)
  {
    OpensWith(Handle(m.username), "Here's your generated art! " + "\U{00F0}\U{0178}\U{017D}\U{00A8}");
    OpensWith(Handle(m.username), "Sorry, I encountered an error " + "while generating your art. " + "Please try again later.");
  }

  /** One more step of the loop. */
  lemma HandleAllStep(p: Progress, ms: seq<Tweet>, attempts: seq<Attempt>, j: nat)
    requires !p.escaped && j < |ms|
    ensures var prev := HandleAll(p, ms[..j], attempts);
      HandleAll(p, ms[..j + 1], attempts)
        == if prev.escaped then prev else HandleMention(prev, ms[j], AttemptAt(attempts, j))
  {
    assert ms[..j + 1][..j] == ms[..j];
  }

  /** Every reply of a poll answers one of its mentions with a prompt, opens
      with that mention's author's handle, and carries one PNG or nothing. */
  lemma {:induction false} RepliesAnswerMentions(p: Progress, ms: seq<Tweet>, attempts: seq<Attempt>)
    requires !p.escaped
    ensures NewRepliesAnswer(HandleAll(p, ms, attempts).sent, |p.sent|, ms)
  {
    if ms == [] {
      assert HandleAll(p, ms, attempts) == p;
    } else {
      var n := |ms| - 1;
      RepliesAnswerMentions(p, ms[..n], attempts);
      var prev := HandleAll(p, ms[..n], attempts);
      RepliesAnswerMore(prev.sent, |p.sent|, ms, n);
      if !prev.escaped {
        var r := HandleMention(prev, ms[n], AttemptAt(attempts, n));
        assert HandleAll(p, ms, attempts) == r;
        HandleMentionReplies(prev, ms[n], AttemptAt(attempts, n));
        forall k | |p.sent| <= k < |r.sent|
          ensures AnswersMention(r.sent[k], ms)
        {
          if k < |prev.sent| {
            assert r.sent[k] == prev.sent[k] by {
              assert r.sent[..|prev.sent|] == prev.sent;
            }
          } else {
            assert ms[n] in ms && ReplyFor(r.sent[k], ms[n]);
          }
        }
      }
    }
  }

  /** Answers to mentions of a prefix answer mentions of the whole list. */
  lemma RepliesAnswerMore(sent: seq<Reply>, from: nat, ms: seq<Tweet>, n: nat)
    requires n <= |ms| && NewRepliesAnswer(sent, from, ms[..n])
    ensures NewRepliesAnswer(sent, from, ms)
  {
    forall k | from <= k < |sent|
      ensures AnswersMention(sent[k], ms)
    {
      assert AnswersMention(sent[k], ms[..n]);
      var m :| m in ms[..n] && ReplyFor(sent[k], m);
      assert m in ms;
    }
  }

  /** A mention without text, or whose text has no prompt, is skipped: no
      rendering and no reply. */
  lemma NoPromptNoWork(p: Progress, m: Tweet, a: Attempt)
    requires ExtractPrompt(m.text).None?
    ensures HandleMention(p, m, a).prompts == p.prompts && HandleMention(p, m, a).sent == p.sent
  {
  }

  /** When rendering works and the art reply goes out, it carries the
      rendered image as a PNG; otherwise the author gets the apology, or
      nothing at all when that fails too. */
  lemma ArtOrApology(p: Progress, m: Tweet, a: Attempt)
    requires ExtractPrompt(m.text).Some?
    ensures var r := HandleMention(p, m, a);
      && (a.image.Some? && a.artReplySent ==> r.sent == p.sent + [Reply(ArtReplyText(m.username), m.id, [Media(a.image.value, PNG)])])
      && (!(a.image.Some? && a.artReplySent) && a.apologySent ==> r.sent == p.sent + [Reply(ApologyText(m.username), m.id, [])])
      && (!(a.image.Some? && a.artReplySent) && !a.apologySent ==> r.sent == p.sent && r.escaped)
  {
  }

  /** An escaping error loses the mentions after it for good: they were
      fetched in this poll, so the cursor already covers them and no later
      poll keeps them again. */
  lemma EscapedMentionsAreLost(batch: seq<Tweet>, cursor: Option<string>, own: Option<string>,
                               p: Progress, attempts: seq<Attempt>, x: nat)
    requires Descending(batch) && forall u :: u in batch ==> u.id != ""
    requires !p.escaped && p.handled == 0
    requires var order := Reverse(Select(batch, cursor, NotOwn(own)));
      HandleAll(p, order, attempts).escaped && HandleAll(p, order, attempts).handled <= x < |order|
    ensures var kept := Select(batch, cursor, NotOwn(own));
      !IsNew(Reverse(kept)[x].id, NextCursor(cursor, kept))
  {
    ReversedKeptAreBehindCursor(batch, cursor, NotOwn(own), x);
  }

  lemma ReversedKeptAreBehindCursor(batch: seq<Tweet>, cursor: Option<string>, wanted: Tweet -> bool, x: nat)
    requires Descending(batch) && forall u :: u in batch ==> u.id != ""
    requires x < |Select(batch, cursor, wanted)|
    ensures var kept := Select(batch, cursor, wanted);
      !IsNew(Reverse(kept)[x].id, NextCursor(cursor, kept))
  {
    var t := ReversedMember(Select(batch, cursor, wanted), x);
    KeptAreBehindCursor(batch, cursor, wanted, t);
  }

  lemma ReversedMember<T>(s: seq<T>, x: nat) returns (t: T)
    requires x < |s|
    ensures t == Reverse(s)[x] && t in s
  {
    t := s[|s| - 1 - x];
  }

  /** The fetch loop of `checkMentions`: past the cursor and not the agent's
      own. */
  method KeepNewMentions(batch: seq<Tweet>, cursor: Option<string>, own: Option<string>) returns (mentions: seq<Tweet>)
    ensures mentions == Select(batch, cursor, NotOwn(own))
  {
    mentions := [];
    var i := 0;
    while i < |batch|
      invariant 0 <= i <= |batch|
      invariant mentions == Select(batch[..i], cursor, NotOwn(own))
    {
      assert batch[..i + 1][..i] == batch[..i];
      if IsNew(batch[i].id, cursor) && batch[i].username != own {
        mentions := mentions + [batch[i]];
      }
      i := i + 1;
    }
    assert batch[..i] == batch;
  }

  class MentionMonitor {
    /** `process.env.TWITTER_USERNAME`. */
    const ownUsername: Option<string>
    var isMonitoring: bool
    var intervalId: Option<nat>
    var liveIntervals: set<nat>
    var nextHandle: nat
    var pendingStarts: nat
    var lastCheckedId: Option<string>
    /** The prompts handed to the art generator, in order. */
    var prompts: seq<string>
    /** The replies sent, in order. */
    var sent: seq<Reply>

    function Life(): Lifecycle
      reads this
    {
      Lifecycle(isMonitoring, intervalId, liveIntervals, nextHandle, pendingStarts)
    }

    constructor(ownUsername: Option<string>)
      ensures this.ownUsername == ownUsername
      ensures Life() == IDLE && lastCheckedId == None && prompts == [] && sent == []
    {
      this.ownUsername := ownUsername;
      isMonitoring := false;
      intervalId := None;
      liveIntervals := {};
      nextHandle := 0;
      pendingStarts := 0;
      lastCheckedId := None;
      prompts := [];
      sent := [];
    }

    /** What one poll leaves behind. A failed fetch (`None`) changes nothing;
        otherwise the cursor moves to the first kept mention and the kept
        mentions are processed oldest-first until an error escapes. */
    ghost predicate PolledOnce(fetched: Option<seq<Tweet>>, attempts: seq<Attempt>,
                               cursor0: Option<string>, prompts0: seq<string>, sent0: seq<Reply>)
      reads this
    {
      if fetched.None? then lastCheckedId == cursor0 && prompts == prompts0 && sent == sent0
      else
        var kept := Select(fetched.value, cursor0, NotOwn(ownUsername));
        var r := HandleAll(Progress(prompts0, sent0, 0, false), Reverse(kept), attempts);
        lastCheckedId == NextCursor(cursor0, kept) && prompts == r.prompts && sent == r.sent
    }

    /** `start` up to the end of its initial poll. */
    method Start(fetched: Option<seq<Tweet>>, attempts: seq<Attempt>) returns (began: bool)
      modifies this
      ensures began <==> !old(isMonitoring)
      ensures Life() == BeginStart(old(Life()))
      ensures !began ==> lastCheckedId == old(lastCheckedId) && prompts == old(prompts) && sent == old(sent)
      ensures began ==> PolledOnce(fetched, attempts, old(lastCheckedId), old(prompts), old(sent))
    {
      if isMonitoring {
        return false;
      }
      isMonitoring := true;
      pendingStarts := pendingStarts + 1;
      CheckMentions(fetched, attempts);
      return true;
    }

    /** The rest of `start`: the interval is armed with a fresh handle. */
    method FinishStart()
      requires pendingStarts > 0
      modifies this
      ensures Life() == Polling.FinishStart(old(Life()))
      ensures lastCheckedId == old(lastCheckedId) && prompts == old(prompts) && sent == old(sent)
    {
      intervalId := Some(nextHandle);
      liveIntervals := liveIntervals + {nextHandle};
      nextHandle := nextHandle + 1;
      pendingStarts := pendingStarts - 1;
    }

    method Stop()
      modifies this
      ensures Life() == Polling.Stop(old(Life()))
      ensures lastCheckedId == old(lastCheckedId) && prompts == old(prompts) && sent == old(sent)
    {
      if !isMonitoring {
        return;
      }
      if intervalId.Some? {
        liveIntervals := liveIntervals - {intervalId.value};
        intervalId := None;
      }
      isMonitoring := false;
    }

    /** One firing of a live interval. */
    method OnInterval(handle: nat, fetched: Option<seq<Tweet>>, attempts: seq<Attempt>)
      requires handle in liveIntervals
      modifies this
      ensures Life() == old(Life())
      ensures PolledOnce(fetched, attempts, old(lastCheckedId), old(prompts), old(sent))
    {
      CheckMentions(fetched, attempts);
    }

    /** `checkMentions`. */
    method CheckMentions(fetched: Option<seq<Tweet>>, attempts: seq<Attempt>)
      modifies this
      ensures Life() == old(Life())
      ensures PolledOnce(fetched, attempts, old(lastCheckedId), old(prompts), old(sent))
    {
      if fetched.None? {
        return;
      }
      var mentions := KeepNewMentions(fetched.value, lastCheckedId, ownUsername);
      if |mentions| > 0 {
        lastCheckedId := Some(mentions[0].id);
      }
      ProcessOldestFirst(Reverse(mentions), attempts);
    }

    /** The `for` loop over the reversed mentions, left by an escaping
        error. */
    method ProcessOldestFirst(order: seq<Tweet>, attempts: seq<Attempt>)
      modifies this
      ensures Life() == old(Life()) && lastCheckedId == old(lastCheckedId)
      ensures var r := HandleAll(Progress(old(prompts), old(sent), 0, false), order, attempts);
        prompts == r.prompts && sent == r.sent
    {
      var start := Progress(prompts, sent, 0, false);
      var j := 0;
      var escaped := false;
      while j < |order| && !escaped
        invariant 0 <= j <= |order|
        invariant Life() == old(Life()) && lastCheckedId == old(lastCheckedId)
        invariant HandleAll(start, order[..j], attempts) == Progress(prompts, sent, j, escaped)
      {
        HandleAllStep(start, order, attempts, j);
        escaped := ProcessMention(order[j], AttemptAt(attempts, j));
        j := j + 1;
      }
      if escaped {
        EscapeEndsPoll(start, order, attempts, j);
      } else {
        assert order[..j] == order;
      }
    }

    /** `processMention`; `escaped` tells whether an error left it. */
    method ProcessMention(mention: Tweet, attempt: Attempt) returns (escaped: bool)
      modifies this
      ensures Life() == old(Life()) && lastCheckedId == old(lastCheckedId)
      ensures forall n: nat :: HandleMention(Progress(old(prompts), old(sent), n, false), mention, attempt)
                               == Progress(prompts, sent, n + 1, escaped)
    {
      escaped := false;
      if !Truthy(mention.text) {
        return;
      }
      var prompt := ExtractPrompt(mention.text);
      if prompt.None? {
        return;
      }
      prompts := prompts + [prompt.value];
      if attempt.image.Some? && attempt.artReplySent {
        sent := sent + [Reply(ArtReplyText(mention.username), mention.id, [Media(attempt.image.value, PNG)])];
      } else if attempt.apologySent {
        sent := sent + [Reply(ApologyText(mention.username), mention.id, [])];
      } else {
        escaped := true;
      }
    }
  }
}

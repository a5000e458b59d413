# Agent core of agent-twitter-client, modelled in Dafny

This project models the agent that sits on top of the Twitter client library.
It has three parts:

- **`DataIndexer`** keeps an in-memory dictionary of the tweets it has seen and an "agent memory".
  - Each tweet is analysed on the way in: a lexical sentiment tally, the hashtags as topics, the reply linkage and an engagement snapshot.
  - The memory holds per-author interaction counts with topic tables, plus a global topic history.
  - It answers three read queries: `getRelevantTopics`, `getEngagementStats` and `shouldReplyToTweet`.
  - It composes the reply text in `generateReplyContent`.
- **`AgentMonitor`** polls the target account `aixbt_agent`.
  - It keeps the tweets whose id is lexically above its `lastCheckedId` cursor and moves the cursor to the first kept tweet.
  - It then processes the kept tweets oldest-first: index, ask the reply gate, compose, send.
- **`MentionMonitor`** polls the search for `#generateart` mentions.
  - It uses the same cursor and also skips the agent's own tweets.
  - From each mention it extracts the prompt with `/#generateart\s+(.+)$/i`.
  - It replies with the rendered image, or with an apology when rendering or sending fails.

The modules follow that structure:

- `wrappers.dfy`: `Option`.
- `tweets.dfy`: the client's `Tweet` and the `Reply` the agent sends.
- `text.dfy`: the JavaScript string operations used, written out over `seq<char>`.
  - `toLowerCase`, `split(' ')`, `join`, `includes`, `trim`.
  - `<=` on strings, which is lexicographic.
- `topic_tables.dfy`: the `{ [topic]: count }` objects as entry sequences in insertion order.
  - Counting.
  - The stable sort by descending count, and its top keys.
- `tweet_analysis.dfy`: `analyzeTweet`.
- `index_model.dfy`: the indexer state as a value, `indexTweet` on it, and the read queries and the reply gate.
- `reply_policy.dfy`: `generateReplyContent`.
- `indexer.dfy`: the `DataIndexer` class.
  - Its fields are updated in place by `IndexTweet`.
  - It is proved equal to the value model.
- `polling.dfy`: what both monitors share.
  - The cursor filter and the cursor update.
  - Runs of polls.
  - The `start`/`stop` life cycle with its interval timers.
- `agent_monitor.dfy`: the processing loop as functions, and the `AgentMonitor` class proved against them.
- `art_prompt.dfy`: the regular-expression match.
  - It is written as the backtracking search a JavaScript engine performs.
  - It is proved equal to the regular expression's meaning: the leftmost match, with the longest `\s+` there.
- `mention_monitor.dfy`: the mention loop as functions, and the `MentionMonitor` class proved against them.

The outside world enters as parameters:

- the clock reading `now`;
- the batch a poll fetched (`None` when the fetch throws);
- the stored memory snapshot;
- per-item `Fault`/`Attempt` values that say which call throws.

In three places the code does something other than what one might expect, and the model follows the code:

- **A failed snapshot write.** One might expect it to be logged and indexing to succeed. Instead, in `data-indexer.ts` the write throws out of `indexTweet`, so `processTweet` skips the reply gate for that tweet. `Step` models this with `SnapshotFails`.
- **A failed apology.** One might expect the apology to a mention to be best effort. Instead, in `mention-monitor.ts` an apology that fails throws out of `processMention` and ends the poll. The mentions left in that poll are lost for good (`EscapedMentionsAreLost`).
- **Two `start` calls.** One might expect `start` to be idempotent. Instead, a `stop` during the initial poll of a `start` leaves an interval that can no longer be cleared (`StopDuringStartLeaksInterval`).

## Model

| member | source | states |
|---|---|---|
| Text.LowerChar | src/data-indexer.ts:70 | `toLowerCase` on one character, ASCII letters only (see Left out); `Lower` states what the whole string becomes |
| Text.Split | src/data-indexer.ts:70 | `split(' ')`: the pieces between separators, empty pieces included; `SplitJoin` states that joining them gives the text back and that no piece holds the separator |
| Text.Join | src/data-indexer.ts:205-208 | `join(' ')`: the parts with one separator between neighbours; partner of `Split` in `SplitJoin` |
| Text.Contains | src/data-indexer.ts:191-193 | `includes`: `ContainsIff` states it holds exactly when the substring occurs at some index |
| Text.IsLineTerminator | src/mention-monitor.ts:85 | the four ECMAScript line terminators, which `.` does not match |
| Text.IsSpace | src/mention-monitor.ts:85-88 | the ECMAScript white space and line terminators: the class `\s` and what `trim` removes |
| Text.Trim | src/data-indexer.ts:211 | `trim()` removes leading and trailing white space; `TrimStart` and `TrimEnd` state what each side removes and keeps |
| Text.LexLe | src/agent-monitor.ts:56 | JavaScript `<=` on strings: character by character, a proper prefix first; the lemmas below prove it a total order |
| Text.LexLt | src/agent-monitor.ts:56 | JavaScript `<` on strings: `<=` and not equal |
| Text.Lower | src/data-indexer.ts:70 | `toLowerCase` keeps the length and maps each character to its lower case, leaving no upper-case letter |
| Text.SplitJoin | src/data-indexer.ts:70 | `split(' ')` loses nothing but the separators: joining the pieces gives the text back, and no piece contains a space |
| Text.SplitAppend | src/data-indexer.ts:70 | splitting two texts joined by the separator splits each side on its own |
| Text.SplitNoSep | src/data-indexer.ts:70 | a text without the separator splits into itself alone |
| Text.ContainsIff | src/data-indexer.ts:191-193 | `includes` holds exactly when the substring occurs at some index |
| Text.TrimStart | src/data-indexer.ts:211 | leading trim returns a suffix, removes only white space, and leaves none at the front |
| Text.TrimEnd | src/data-indexer.ts:211 | trailing trim returns a prefix, removes only white space, and leaves none at the end |
| Text.TrimEndAppend | src/data-indexer.ts:211 | trailing trim of a concatenation trims the right part, and reaches the left part only when nothing of the right part survives |
| Text.TrimOfTrimmed | src/mention-monitor.ts:88 | a string with no white space at either end is its own trim |
| Text.LexLeReflexive | src/agent-monitor.ts:56 | the string `<=` used by the cursor test is reflexive |
| Text.LexLeTotal | src/agent-monitor.ts:56 | the string `<=` is total |
| Text.LexLeAntisymmetric | src/agent-monitor.ts:56 | the string `<=` is antisymmetric |
| Text.LexLeTransitive | src/agent-monitor.ts:56 | the string `<=` is transitive |
| Text.NotLeIsGreater | src/agent-monitor.ts:56 | `!(a <= b)` means `b < a` |
| Text.LexicalNotNumeric | src/agent-monitor.ts:56 | ids compare as strings, not as numbers: "10" sorts before "9" |
| TopicTables.Get | src/data-indexer.ts:118-119 | `t[k] \|\| 0` on a topic table; `GetEntry` and `GetMissing` state what it reads (but see Left out for inherited keys) |
| TopicTables.Increment | src/data-indexer.ts:118-119 | `t[k] = (t[k] \|\| 0) + 1`; `IncrementGet`, `IncrementKeys` and `IncrementDistinct` state its effect |
| TopicTables.CountAll | src/data-indexer.ts:117-120 | the `forEach` that increments one key per occurrence; `CountAllGet` and `CountAllKeys` state its effect |
| TopicTables.InsertByCount | src/data-indexer.ts:137 | one insertion step of a stable sort by descending count; the `InsertByCount...` lemmas state it is a sorted, order-keeping permutation |
| TopicTables.SortByCount | src/data-indexer.ts:137 | `.sort((a, b) => b[1] - a[1])`; `SortByCountSortedPermutation`, `SortByCountIsStable` and `StableSortIsUnique` pin it down as the unique stable sort |
| TopicTables.TopKeys | src/data-indexer.ts:136-139 | `Object.entries(t).sort(...).map(([k]) => k).slice(0, n)`; `TopKeysFacts` and `TopKeysAllWhenFew` state which keys it keeps |
| TopicTables.GetEntry | src/data-indexer.ts:118-119 | in a table with distinct keys, `t[k] \|\| 0` reads back the entry stored under `k` |
| TopicTables.GetMissing | src/data-indexer.ts:118-119 | a key that is not in the table reads as 0 |
| TopicTables.KeysDistinctIsDistinct | src/data-indexer.ts:118-119 | distinct entry keys are exactly a duplicate-free key sequence |
| TopicTables.IncrementGet | src/data-indexer.ts:118-119 | `t[k] = (t[k] \|\| 0) + 1` raises the count of `k` by one and changes no other count |
| TopicTables.IncrementKeys | src/data-indexer.ts:118-119 | an existing key keeps its place, and a new key goes last |
| TopicTables.IncrementDistinct | src/data-indexer.ts:118-119 | incrementing keeps the keys distinct |
| TopicTables.CountAllGet | src/data-indexer.ts:117-120 | counting a topic list adds to each key its number of occurrences in the list |
| TopicTables.CountAllKeys | src/data-indexer.ts:117-120 | after counting, the keys are the old keys plus the counted ones, still distinct |
| TopicTables.WithCountMembers | src/data-indexer.ts:137 | the per-count subsequence keeps exactly the entries with that count |
| TopicTables.InsertByCountPermutes | src/data-indexer.ts:137 | one insertion step of the sort adds the entry and keeps every other entry (multiset equality) |
| TopicTables.InsertByCountSorted | src/data-indexer.ts:137 | inserting into a sequence sorted by descending count keeps it sorted |
| TopicTables.SortedCons | src/data-indexer.ts:137 | a head whose count is no smaller than every count of a sorted tail gives a sorted sequence |
| TopicTables.InsertByCountWithCount | src/data-indexer.ts:137 | insertion places the entry before the entries it ties with, and the others keep their order |
| TopicTables.SortByCountSortedPermutation | src/data-indexer.ts:137 | `.sort((a, b) => b[1] - a[1])` returns a permutation of the entries, sorted by descending count |
| TopicTables.SortByCountIsStable | src/data-indexer.ts:137 | the sort is stable: entries with the same count keep their table order |
| TopicTables.StableSortIsUnique | src/data-indexer.ts:137 | two sequences sorted by descending count with the same per-count order are equal, so the model is the result of any stable sort with this comparator |
| TopicTables.SameHead | src/data-indexer.ts:137 | two such sequences, not both empty, start with the same entry |
| TopicTables.HeadCountAtMost | src/data-indexer.ts:137 | the first entry of one such sequence occurs in the other, whose first count is at least as large |
| TopicTables.SortedTail | src/data-indexer.ts:137 | the tail of a sorted sequence is sorted |
| TopicTables.TopKeysAllWhenFew | src/data-indexer.ts:136-139 | when the table has no more than `n` entries, every key is among the top `n` |
| TopicTables.TopKeysFacts | src/data-indexer.ts:136-139 | the top `n` keys: exactly min(n, size) of them, distinct, all keys of the table, in non-increasing count, and no key left out counts more than one kept |
| TopicTables.PermutationFacts | src/data-indexer.ts:136-137 | a permutation of a table with distinct keys has the same size and distinct keys, and each entry is read back by its key |
| TopicTables.PrefixKeysFacts | src/data-indexer.ts:137-139 | the first `n` keys of any sorted permutation are min(n, size) distinct keys of the table in non-increasing count |
| TopicTables.PrefixKeysMaximal | src/data-indexer.ts:137-139 | no key left out of the first `n` keys of a sorted permutation counts more than one kept |
| TopicTables.LeftOutIsLater | src/data-indexer.ts:137-139 | a key not among the first `m` keys of a sorted permutation counts no more than any of them |
| TopicTables.SortedEntriesReadBack | src/data-indexer.ts:136-137 | every entry of the sorted table is an entry of the table, read back by its key |
| TopicTables.SortedKeysDistinct | src/data-indexer.ts:136-137 | a permutation of a table with distinct keys has distinct keys |
| TopicTables.UniqueEntry | src/data-indexer.ts:136 | in a table with distinct keys each entry occurs once |
| TweetAnalysis.WordScore | src/data-indexer.ts:71-73 | one token's contribution in tenths: +1 for the positive list, checked first, -1 for the negative list, 0 otherwise |
| TweetAnalysis.Tally | src/data-indexer.ts:70-74 | the `reduce` over the tokens from 0; `TallyIsLexiconDifference` and `TallyAppend` state its value |
| TweetAnalysis.Sentiment | src/data-indexer.ts:70-74 | the tally over the space-split tokens of the lower-cased text, 0 when there is no text (in tenths, see Left out) |
| TweetAnalysis.IsWordChar | src/data-indexer.ts:79 | `\w`: ASCII letters, digits and underscore |
| TweetAnalysis.Hashtags | src/data-indexer.ts:79-80 | `match(/#\w+/g)` with the `#` removed; the `Hashtags...` lemmas state what it extracts and in which order |
| TweetAnalysis.TallyIsLexiconDifference | src/data-indexer.ts:70-74 | the sentiment tally, in tenths, is the number of positive tokens minus the number of negative tokens |
| TweetAnalysis.TallyAppend | src/data-indexer.ts:70-74 | the tally `reduce` is additive over concatenated token lists |
| TweetAnalysis.SentimentOfJoinedTexts | src/data-indexer.ts:70-74 | the sentiment of two texts joined by a space is the sum of their sentiments |
| TweetAnalysis.SentimentExamples | src/data-indexer.ts:70-74 | whole lower-cased tokens only: "GOOD" scores one tenth, "good," scores nothing, and a missing text scores 0 |
| TweetAnalysis.WordRun | src/data-indexer.ts:79 | `\w+` is greedy: the run consists of word characters and stops at the first character that is not one |
| TweetAnalysis.Topics | src/data-indexer.ts:77-80 | every extracted topic is a non-empty run of word characters with no upper-case letter |
| TweetAnalysis.HashtagsAreTopics | src/data-indexer.ts:79-80 | every match of `/#\w+/g` on a lower-cased text, with the `#` removed, is such a topic |
| TweetAnalysis.WordRunOfWord | src/data-indexer.ts:79 | the word run of a word followed by a non-word character is exactly that word |
| TweetAnalysis.HashtagsAtTag | src/data-indexer.ts:79-80 | at a `#` followed by a word character the global match yields the longest word, then resumes after it |
| TweetAnalysis.HashtagsTagged | src/data-indexer.ts:79-80 | `#` plus a whole word yields that word, and extraction resumes right after it |
| TweetAnalysis.HashtagsSkip | src/data-indexer.ts:79-80 | a character that starts no match is skipped |
| TweetAnalysis.HashtagsAppend | src/data-indexer.ts:79-80 | a character that is neither `#` nor a word character separates the matches on its two sides |
| TweetAnalysis.TopicsOfJoinedTexts | src/data-indexer.ts:77-80 | the topics of two texts joined by a space are those of the first followed by those of the second |
| TweetAnalysis.NoHashNoHashtags | src/data-indexer.ts:79-80 | a text without `#` has no match, so `\|\| []` gives no topic |
| TweetAnalysis.WordRunAll | src/data-indexer.ts:79 | the word run of an all-word-character string is the whole string |
| TweetAnalysis.SingleHashtag | src/data-indexer.ts:79-80 | a lone hashtag yields its body as the only topic |
| TweetAnalysis.PlainWordHasNoTopic | src/data-indexer.ts:77-80 | a word without `#` carries no topic |
| TweetAnalysis.HashtagWordHasTopic | src/data-indexer.ts:77-80 | `#` followed by a topic yields exactly that topic |
| TweetAnalysis.PlainWordThenText | src/data-indexer.ts:77-80 | a plain word in front of a text adds no topic |
| TweetAnalysis.HashtagThenText | src/data-indexer.ts:77-80 | a hashtag in front of a text puts its topic first |
| TweetAnalysis.TwoHashtagsInText | src/data-indexer.ts:77-80 | "w1 #t1 w2 #t2 w3" has exactly the topics `[t1, t2]`, in order of occurrence |
| TweetAnalysis.Analyze | src/data-indexer.ts:68-96 | the analysed record carries only well-formed topics |
| IndexModel.Initial | src/data-indexer.ts:39-61 | a new indexer: no tweets, and the stored memory or the empty memory |
| IndexModel.RecordInteraction | src/data-indexer.ts:103-121 | the memory update keeps the memory well formed: every table has distinct keys that are topics |
| IndexModel.RecordInteractionFacts | src/data-indexer.ts:103-121 | the author's record is created if missing; their count rises by one; their timestamp becomes `now`; each topic occurrence adds one to the author's table and to the global history; no other author changes |
| IndexModel.CountTopicsInto | src/data-indexer.ts:117-120 | counting topics into a well-formed table adds one per occurrence and keeps it well formed |
| IndexModel.IndexOf | src/data-indexer.ts:100 | the position of an id is its first and only position in the insertion order |
| IndexModel.Index | src/data-indexer.ts:98-125 | indexing keeps the indexer state well formed: ids distinct, keys match, memory well formed |
| IndexModel.IndexStores | src/data-indexer.ts:99-100 | the analysed record is stored under the tweet id; a known id keeps its position with the new record, a new id goes last |
| IndexModel.ValuesAfterReplace | src/data-indexer.ts:100 | overwriting a known id changes only its position in `Object.values` |
| IndexModel.ValuesAfterAdd | src/data-indexer.ts:100 | a new id appends its record to `Object.values` |
| IndexModel.IndexRecords | src/data-indexer.ts:102-121 | with a non-empty username the author gets one more interaction, the new timestamp and their topic counts; without one the memory is unchanged; other authors never change |
| IndexModel.ReindexCountsTwice | src/data-indexer.ts:98-121 | indexing the same tweet twice keeps one record, the second analysis, but counts the author and every topic twice |
| IndexModel.RelevantTopics | src/data-indexer.ts:132-140 | `getRelevantTopics`: `[]` for an unknown author, otherwise the top five keys of the author's topic table; `RelevantTopicsFacts` states which |
| IndexModel.RelevantTopicsFacts | src/data-indexer.ts:132-140 | `getRelevantTopics`: `[]` for an unknown author; otherwise min(5, size) distinct topics of the author, in non-increasing count, none left out counting more than one kept |
| IndexModel.ByAuthor | src/data-indexer.ts:147 | the `filter` on `t.username === username`, keeping value order |
| IndexModel.SumLikes | src/data-indexer.ts:150 | the `reduce` summing the likes of the author's records |
| IndexModel.SumRetweets | src/data-indexer.ts:151 | the `reduce` summing the retweets of the author's records |
| IndexModel.AllTopics | src/data-indexer.ts:154-158 | every topic occurrence of the records, in the order the nested `forEach` visits them |
| IndexModel.Stats | src/data-indexer.ts:142-166 | `getEngagementStats`, with sums and count in place of the averages; `StatsFacts` states its result |
| IndexModel.ByAuthorMembers | src/data-indexer.ts:147 | the `filter` keeps exactly the records whose username equals the author |
| IndexModel.StatsFacts | src/data-indexer.ts:142-166 | `getEngagementStats` counts the author's records and is exactly zeros and `[]` when there are none. `topTopics` holds at most five distinct topics of the author's records, and all of them when there are fewer. They come in non-increasing number of occurrences, and no topic left out occurs more often than one kept |
| IndexModel.TopTopicsRanked | src/data-indexer.ts:153-163 | counting topic occurrences into an empty table and keeping the first five by count gives distinct occurring topics (all of them when fewer than five), in non-increasing number of occurrences, and none left out occurs more often than one kept |
| IndexModel.LikesAverageAbove | src/data-indexer.ts:200 | `stats.avgLikes > 100` decided on integers; `LikesAverageAboveIsAverage` states it agrees with the real average |
| IndexModel.LikesAverageAboveIsAverage | src/data-indexer.ts:150-200 | the integer test `sum > bound * n` agrees with `avgLikes > bound` on the real average, and is false for the all-zero result |
| IndexModel.HasReplied | src/data-indexer.ts:176-178 | some stored record was written by the agent's account in reply to the id |
| IndexModel.ShouldReply | src/data-indexer.ts:168-181 | `shouldReplyToTweet`: from `aixbt_agent`, not a reply, and not yet answered; the gate lemmas below state how indexing moves it |
| IndexModel.OwnReplyClosesGate | src/data-indexer.ts:168-181 | once a reply by the agent's account to a tweet is indexed, `shouldReplyToTweet` is false for that tweet |
| IndexModel.OtherTweetsKeepGateOpen | src/data-indexer.ts:168-181 | indexing any other tweet never closes the gate, and never creates a "has replied" record |
| IndexModel.HasRepliedReplace | src/data-indexer.ts:176-178 | overwriting a record with one that is not such a reply cannot create a "has replied" record |
| IndexModel.HasRepliedAppend | src/data-indexer.ts:176-178 | appending a record that is not such a reply cannot create a "has replied" record |
| IndexModel.FreshIndexerGateOpen | src/data-indexer.ts:39-43 | a new indexer has no stored tweets, so the gate is open for every top-level target tweet: replies sent before a restart are forgotten |
| Indexing.DataIndexer.constructor | src/data-indexer.ts:39-61 | a new indexer has no tweets and the stored memory, or the empty memory when there is no snapshot |
| Indexing.DataIndexer.IndexTweet | src/data-indexer.ts:98-125 | the fields become `Index` of the old state; the result reports whether the snapshot writes succeed |
| Indexing.DataIndexer.RecordAuthor | src/data-indexer.ts:103-121 | the in-place memory update equals `RecordInteraction`, and the tweets are untouched |
| Indexing.CountTopics | src/data-indexer.ts:117-120 | the `forEach` loop fills the author's table and the global table exactly as `CountAll` does |
| ReplyPolicy.MentionsUpdate | src/data-indexer.ts:191 | the lower-cased text includes "update" or "release" |
| ReplyPolicy.MentionsTopic | src/data-indexer.ts:193 | some relevant topic is included in the lower-cased text |
| ReplyPolicy.TopicOpening | src/data-indexer.ts:194 | the topic opening naming a topic |
| ReplyPolicy.Opening | src/data-indexer.ts:190-197 | the opening chosen by priority; `ReplyOpening` and `OpeningShape` state it |
| ReplyPolicy.HashtagLine | src/data-indexer.ts:204-208 | the first two topics as `#topic` joined by a space; `HashtagLineShape` states its forms |
| ReplyPolicy.ComposeReply | src/data-indexer.ts:188-211 | the reply as built and trimmed; `ComposeReplyIsSentences`, `ReplyLayout`, `PraiseIffPopular` and `ReplyHashtags` state it |
| ReplyPolicy.GenerateReply | src/data-indexer.ts:183-212 | `generateReplyContent` against the indexer state; `ReplyUnaffectedByOtherAuthors` states what it depends on |
| ReplyPolicy.HashtagLineShape | src/data-indexer.ts:205-209 | the hashtag line is "", "#t1" or "#t1 #t2"; it has only `#`, spaces and lower-case word characters; with topics it starts with `#` and ends without white space |
| ReplyPolicy.ConstantsShape | src/data-indexer.ts:192-201 | the openings and the praise have no padding; only the praise contains an upper-case `Y` |
| ReplyPolicy.UpdateOpeningHasNoY | src/data-indexer.ts:192 | the update opening contains no `Y` |
| ReplyPolicy.OpeningShape | src/data-indexer.ts:191-197 | every opening, the topic opening included, is unpadded and contains no `Y` |
| ReplyPolicy.TrimSentences | src/data-indexer.ts:188-211 | trimming the built reply gives its sentences joined by single spaces |
| ReplyPolicy.TrimWithPraiseAndTags | src/data-indexer.ts:188-211 | that holds when there is praise and there are hashtags |
| ReplyPolicy.TrimWithPraise | src/data-indexer.ts:188-211 | that holds with praise and no hashtags |
| ReplyPolicy.TrimWithTags | src/data-indexer.ts:188-211 | that holds with hashtags and no praise |
| ReplyPolicy.TrimOpeningOnly | src/data-indexer.ts:188-211 | that holds for the opening alone |
| ReplyPolicy.UnpaddedSpaced | src/data-indexer.ts:201-209 | two unpadded parts joined by a space are unpadded |
| ReplyPolicy.TrimSpaced | src/data-indexer.ts:211 | trimming leaves two unpadded parts joined by a space alone |
| ReplyPolicy.TrimTrailingSpace | src/data-indexer.ts:211 | trimming drops exactly the space after the last sentence |
| ReplyPolicy.ComposeReplyIsSentences | src/data-indexer.ts:188-211 | the reply is its sentences (opening, praise when due, hashtags when present) joined by single spaces |
| ReplyPolicy.JoinOptional | src/data-indexer.ts:188-211 | the joined sentences are the opening followed by each present part after one space |
| ReplyPolicy.ReplyLayout | src/data-indexer.ts:188-211 | the reply is the opening, then " " + praise when due, then " " + the hashtag line when there are topics |
| ReplyPolicy.ReplyOpening | src/data-indexer.ts:191-197 | the opening follows the priority order: an update or release mention wins over a topic mention, which wins over the generic opening |
| ReplyPolicy.ReplyStartsWithOpening | src/data-indexer.ts:188-197 | the reply starts with its opening |
| ReplyPolicy.NotContainedWithoutFirstChar | src/data-indexer.ts:201 | a string cannot occur in a text that lacks its first character |
| ReplyPolicy.OptionalSentenceFound | src/data-indexer.ts:200-202 | a sentence whose first character occurs nowhere else is in the reply exactly when it was added |
| ReplyPolicy.PraiseIffPopular | src/data-indexer.ts:200-202 | the praise sentence is in the reply if and only if praise is due |
| ReplyPolicy.ReplyHashtags | src/data-indexer.ts:204-211 | with topics the reply ends with " " + the hashtag line; otherwise it ends with the praise or the opening |
| ReplyPolicy.EndsWithParts | src/data-indexer.ts:204-211 | a reply assembled from parts ends with its last non-empty part |
| ReplyPolicy.ReplyUnaffectedByOtherAuthors | src/data-indexer.ts:183-212 | indexing a new tweet by a different author leaves this author's reply text unchanged |
| ReplyPolicy.RelevantTopicsUnaffected | src/data-indexer.ts:132-140 | indexing another author's tweet leaves this author's relevant topics unchanged |
| ReplyPolicy.ByAuthorAppendOther | src/data-indexer.ts:147 | a record by another author is not selected by the filter |
| Polling.IsNew | src/agent-monitor.ts:56 | `!(this.lastCheckedId && id <= this.lastCheckedId)`: no or empty cursor, or an id lexically above it |
| Polling.NextCursor | src/agent-monitor.ts:63-66 | the first kept id when something was kept, the old cursor otherwise; `CursorAdvances` states it never moves back |
| Polling.Select | src/agent-monitor.ts:54-61 | the fetch loop keeps no more tweets than were fetched |
| Polling.SelectMembers | src/mention-monitor.ts:55-65 | the loop keeps exactly the fetched tweets that pass the cursor test and the monitor's own test |
| Polling.SelectSnoc | src/agent-monitor.ts:54-61 | one loop iteration appends the tweet exactly when it passes both tests |
| Polling.Reverse | src/agent-monitor.ts:69 | `reverse()` keeps the length and puts element `i` at position `n - 1 - i` |
| Polling.NoCursorKeepsAll | src/agent-monitor.ts:56 | with no cursor, or an empty one, every wanted tweet is kept in fetch order |
| Polling.CursorAdvances | src/agent-monitor.ts:63-66 | the cursor never moves back: it stays when nothing is kept, and otherwise becomes lexically greater than a set cursor |
| Polling.SelectDescending | src/agent-monitor.ts:54-61 | filtering a newest-first batch keeps it newest-first |
| Polling.DescendingSnoc | src/agent-monitor.ts:54-61 | a tweet older than every tweet of a newest-first list can follow it |
| Polling.KeptUpToFirst | src/agent-monitor.ts:65 | in a newest-first selection every kept id is at or below the first |
| Polling.KeptAreBehindCursor | src/agent-monitor.ts:56-66 | after a poll every kept tweet is at or behind the new cursor, so no later poll keeps it again |
| Polling.Run | src/agent-monitor.ts:48-75 | a run of polls reports one kept list per poll |
| Polling.NewerThanNewerCursor | src/agent-monitor.ts:56 | passing a later cursor implies passing an earlier one |
| Polling.RunAboveStart | src/agent-monitor.ts:56-66 | every tweet kept anywhere in a run is new with respect to the cursor the run started from |
| Polling.NoIdKeptTwice | src/agent-monitor.ts:54-66 | with newest-first batches, no tweet id is kept by two different polls |
| Polling.OldestFirstBatchRepeats | src/agent-monitor.ts:54-66 | without newest-first order deduplication fails: polling the batch `["1","2"]` twice keeps tweet "2" twice |
| Polling.RunCons | src/agent-monitor.ts:48-75 | a run is the first poll's kept list, then the rest of the run from the updated cursor |
| Polling.BeginStart | src/agent-monitor.ts:19-27 | `start` up to its initial poll: nothing when monitoring, otherwise monitoring on and one start pending |
| Polling.FinishStart | src/agent-monitor.ts:29-33 | the rest of `start`: a fresh interval armed and its handle stored |
| Polling.Stop | src/agent-monitor.ts:36-46 | `stop`: nothing when not monitoring, otherwise the held interval cleared and monitoring off |
| Polling.StartStopGuards | src/agent-monitor.ts:19-46 | `start` while monitoring and `stop` while not monitoring do nothing; `stop` clears the held interval and switches monitoring off |
| Polling.TidyPreserved | src/agent-monitor.ts:19-46 | when every `start` completes before anything else happens, at most one interval is live, and it is the one held while monitoring |
| Polling.StopDuringStartLeaksInterval | src/agent-monitor.ts:19-46 | a `stop` during a `start`'s initial poll leaves a live interval that `stop` cannot clear, and a new `start` arms a second one |
| AgentMonitoring.FaultAt | src/agent-monitor.ts:94-96 | which call throws while the `i`-th tweet is processed (see Left out) |
| AgentMonitoring.Step | src/agent-monitor.ts:77-97 | `processTweet`, keeping the indexer state well formed; `StepFacts` states its effect |
| AgentMonitoring.ProcessAll | src/agent-monitor.ts:69-71 | the loop over one poll's tweets, keeping the state well formed; the `ProcessAll...` lemmas state its effect |
| AgentMonitoring.StepFacts | src/agent-monitor.ts:77-97 | `processTweet` always indexes the tweet; it sends exactly one reply (the generated text, to the tweet, no media) when no fault occurs and the gate, asked after indexing, admits it; it keeps earlier replies |
| AgentMonitoring.ProcessAllSnoc | src/agent-monitor.ts:69-71 | one more tweet in the loop is one more `processTweet` step |
| AgentMonitoring.ProcessAllPrefix | src/agent-monitor.ts:69-71 | the loop after `j + 1` tweets is one step after `j` |
| AgentMonitoring.ProcessAllSent | src/agent-monitor.ts:69-71 | a poll keeps the replies sent before and adds at most one per tweet |
| AgentMonitoring.ProcessAllIds | src/agent-monitor.ts:69-71 | after a poll the index holds exactly the ids it held before plus the ids of the processed tweets |
| AgentMonitoring.StepIds | src/agent-monitor.ts:80 | a step adds its tweet's id to the index, whatever fault occurs |
| AgentMonitoring.RepliesAnswerTargetTweets | src/agent-monitor.ts:69-97 | every reply of a poll answers one of its tweets that is a top-level tweet of `aixbt_agent`, and carries no media |
| AgentMonitoring.StepReplyAnswers | src/agent-monitor.ts:83-88 | a step's reply answers its own tweet, which is a top-level target tweet, and carries no media |
| AgentMonitoring.IndexIgnoresFaults | src/agent-monitor.ts:94-96 | per-item isolation: the index after a poll is the same whatever faults occur |
| AgentMonitoring.GateStaysOpen | src/agent-monitor.ts:83-88 | sending does not close the gate: a target tweet that passed stays open after the poll unless the poll fetched the agent's own reply to it |
| AgentMonitoring.KeepNew | src/agent-monitor.ts:54-61 | the fetch loop keeps exactly `Select` of the batch under the cursor |
| AgentMonitoring.AgentMonitor.constructor | src/agent-monitor.ts:8-17 | a new monitor is idle, has no cursor, and has sent nothing |
| AgentMonitoring.AgentMonitor.Start | src/agent-monitor.ts:19-27 | `start` does nothing while monitoring; otherwise it switches monitoring on and performs one poll |
| AgentMonitoring.AgentMonitor.FinishStart | src/agent-monitor.ts:29-33 | the rest of `start` arms a fresh interval and stores its handle |
| AgentMonitoring.AgentMonitor.Stop | src/agent-monitor.ts:36-46 | `stop` follows the life-cycle transition and leaves the cursor and the replies alone |
| AgentMonitoring.AgentMonitor.OnInterval | src/agent-monitor.ts:29-33 | each firing of a live interval is one poll, monitoring or not |
| AgentMonitoring.AgentMonitor.PolledOnce | src/agent-monitor.ts:48-75 | what one poll leaves: nothing after a failed fetch, otherwise the cursor at the first kept tweet and `ProcessAll` of the reversed kept list |
| AgentMonitoring.AgentMonitor.CheckNewTweets | src/agent-monitor.ts:48-75 | a failed fetch changes nothing; otherwise the cursor moves to the first kept tweet, and the index and the replies are `ProcessAll` of the reversed kept list |
| AgentMonitoring.AgentMonitor.ProcessOldestFirst | src/agent-monitor.ts:69-71 | the loop leaves the index and the replies equal to `ProcessAll` of the given order |
| AgentMonitoring.AgentMonitor.ProcessTweet | src/agent-monitor.ts:77-97 | the index and the replies after the call equal one `Step` |
| ArtPrompt.TagAt | src/mention-monitor.ts:85 | `#generateart` under the `i` flag at a position |
| ArtPrompt.Fits | src/mention-monitor.ts:85 | `(.+)$` matches the rest: non-empty and on one line |
| ArtPrompt.MatchesAt | src/mention-monitor.ts:85 | the regular expression matches at a position with `\s+` taking `k` characters |
| ArtPrompt.Capture | src/mention-monitor.ts:85-88 | `promptMatch[1]` of such a match |
| ArtPrompt.Backtrack | src/mention-monitor.ts:85 | `\s+` giving back one character at a time until `(.+)$` matches; `BacktrackFacts` states what it finds |
| ArtPrompt.MatchAt | src/mention-monitor.ts:85 | the engine's attempt at one position; `MatchAtIsMatch` states it equals the longest match there |
| ArtPrompt.MatchFrom | src/mention-monitor.ts:85 | the engine's scan from a position; `MatchFromFacts` states it finds the leftmost match |
| ArtPrompt.SpaceRun | src/mention-monitor.ts:85 | greedy `\s+`: the run is white space and stops at the first character that is not |
| ArtPrompt.BacktrackFacts | src/mention-monitor.ts:85 | backtracking `\s+` finds the capture for the largest count of white space after which `(.+)$` fits, and finds none only when no count fits |
| ArtPrompt.SpacesWithinRun | src/mention-monitor.ts:85 | the next `k` characters are white space exactly when the run is at least `k` long |
| ArtPrompt.MatchAtIsMatch | src/mention-monitor.ts:85 | the matcher at a position is the regular expression there with the longest `\s+`, and it fails only when no match exists there |
| ArtPrompt.MatchesAtIff | src/mention-monitor.ts:85 | after the tag, a match with `k` spaces exists exactly when `1 <= k <= run` and `(.+)$` fits after them |
| ArtPrompt.MatchFromFacts | src/mention-monitor.ts:85 | the search finds the leftmost match, with the longest `\s+` there, and finds nothing only when there is no match |
| ArtPrompt.MatchPrompt | src/mention-monitor.ts:84-86 | no text gives no match; a reported capture is that of a real match; whenever a match exists one is reported |
| ArtPrompt.ExtractPrompt | src/mention-monitor.ts:84-88 | the capture of `match`, trimmed, or nothing; the shape lemmas below state it for each kind of mention |
| ArtPrompt.TagStartsWithHash | src/mention-monitor.ts:85 | case folding never produces `#`, so only a `#` starts a tag |
| ArtPrompt.OnlyMatchAt | src/mention-monitor.ts:85 | in a text whose only `#` is at `i`, every match is at `i` |
| ArtPrompt.FirstMatch | src/mention-monitor.ts:85 | a match that takes the whole white-space run, with no `#` before it, is the one `match` reports |
| ArtPrompt.MatchFound | src/mention-monitor.ts:85-86 | whenever a match exists, `match` reports one |
| ArtPrompt.LeftmostMatch | src/mention-monitor.ts:85 | a reported match is a real, longest and leftmost one |
| ArtPrompt.LeftmostAt | src/mention-monitor.ts:85 | with no `#` before a match, the leftmost match is that one |
| ArtPrompt.WholeRun | src/mention-monitor.ts:85 | a match cannot take more white space than the whole run |
| ArtPrompt.TagShape | src/mention-monitor.ts:85 | the tag in any letter case matches under the `i` flag |
| ArtPrompt.PromptAfterTag | src/mention-monitor.ts:84-88 | a tag, white space and a one-line prompt give that prompt, trimmed ("@bot #generateart a neon cat in rain" gives "a neon cat in rain") |
| ArtPrompt.SpacesThenBody | src/mention-monitor.ts:85 | a tag, white space and a one-line text form a match whose capture is that text |
| ArtPrompt.MultiLinePromptIgnored | src/mention-monitor.ts:85-86 | a prompt that runs past a line break matches nothing, so the mention is skipped |
| ArtPrompt.TrailingWhiteSpaceOnly | src/mention-monitor.ts:84-88 | a mention ending with the tag and white space gives no prompt after one character or a final line break, and otherwise gives an empty prompt |
| ArtPrompt.TrailingEmptyPrompt | src/mention-monitor.ts:85-88 | after at least two spaces the last of which is on the line, `(.+)` captures white space only |
| ArtPrompt.TrailingNoPrompt | src/mention-monitor.ts:85-86 | fewer than two trailing spaces, or a final line break, give no match ("#generateart" alone is skipped) |
| ArtPrompt.TagAtImpliesHash | src/mention-monitor.ts:85 | only a `#` starts a tag |
| ArtPrompt.LineBreakStopsMatch | src/mention-monitor.ts:85 | no match's capture contains a line terminator |
| ArtPrompt.NonSpaceStopsMatch | src/mention-monitor.ts:85 | `\s+` cannot take a visible character |
| ArtPrompt.AllSpaceTrimsToEmpty | src/mention-monitor.ts:88 | an all-white-space capture trims to the empty prompt |
| MentionMonitoring.Handle | src/mention-monitor.ts:95 | `@${mention.username} `, with `undefined` for a missing username |
| MentionMonitoring.ArtReplyText | src/mention-monitor.ts:95 | the art reply text, with the four characters the source file holds |
| MentionMonitoring.ApologyText | src/mention-monitor.ts:106 | the apology text |
| MentionMonitoring.NotOwn | src/mention-monitor.ts:62 | `tweet.username !== process.env.TWITTER_USERNAME` |
| MentionMonitoring.AttemptAt | src/mention-monitor.ts:92-107 | how rendering and the two sends turn out for the `i`-th mention (see Left out) |
| MentionMonitoring.HandleMention | src/mention-monitor.ts:81-109 | `processMention` handles one mention. Without a prompt nothing is rendered or sent. With one the prompt goes to the generator and at most one reply is sent. An error escapes exactly when the art reply failed and the apology was not delivered |
| MentionMonitoring.HandleAll | src/mention-monitor.ts:73-78 | the loop handles every mention unless an error escapes, keeps earlier replies, and sends at most one reply and one prompt per handled mention |
| MentionMonitoring.EscapeEndsPoll | src/mention-monitor.ts:73-78 | once an error escapes, the rest of the poll is skipped |
| MentionMonitoring.HandleMentionReplies | src/mention-monitor.ts:95-107 | what `processMention` sends answers its mention, opens with `@username `, and carries one PNG or no media |
| MentionMonitoring.HandleAllStep | src/mention-monitor.ts:73-75 | one more loop step is one more `processMention` unless an error already escaped |
| MentionMonitoring.RepliesAnswerMentions | src/mention-monitor.ts:73-107 | every reply of a poll answers one of its mentions, opens with that author's handle, and carries one PNG or nothing |
| MentionMonitoring.RepliesAnswerMore | src/mention-monitor.ts:73-75 | answers to mentions of a prefix answer mentions of the whole list |
| MentionMonitoring.NoPromptNoWork | src/mention-monitor.ts:84-86 | a mention without text or without a prompt costs no render call and no reply |
| MentionMonitoring.ArtOrApology | src/mention-monitor.ts:92-107 | a rendered image that is delivered goes out as one PNG reply; otherwise the apology goes out, or nothing when that fails too and the error escapes |
| MentionMonitoring.EscapedMentionsAreLost | src/mention-monitor.ts:67-78 | the mentions left after an escaping error are behind the new cursor, so no later poll takes them up |
| MentionMonitoring.ReversedKeptAreBehindCursor | src/mention-monitor.ts:67-75 | every mention of the reversed kept list is behind the new cursor |
| MentionMonitoring.KeepNewMentions | src/mention-monitor.ts:55-65 | the fetch loop keeps exactly `Select` of the batch under the cursor and the own-account test |
| MentionMonitoring.MentionMonitor.constructor | src/mention-monitor.ts:10-18 | a new monitor is idle, has no cursor, and has sent nothing |
| MentionMonitoring.MentionMonitor.Start | src/mention-monitor.ts:20-27 | `start` does nothing while monitoring; otherwise it switches monitoring on and performs one poll |
| MentionMonitoring.MentionMonitor.FinishStart | src/mention-monitor.ts:29-32 | the rest of `start` arms a fresh interval and stores its handle |
| MentionMonitoring.MentionMonitor.Stop | src/mention-monitor.ts:35-45 | `stop` follows the life-cycle transition and leaves the cursor, the prompts and the replies alone |
| MentionMonitoring.MentionMonitor.OnInterval | src/mention-monitor.ts:30-32 | each firing of a live interval is one poll |
| MentionMonitoring.MentionMonitor.PolledOnce | src/mention-monitor.ts:47-79 | what one poll leaves: nothing after a failed fetch, otherwise the cursor at the first kept mention and `HandleAll` of the reversed kept list |
| MentionMonitoring.MentionMonitor.CheckMentions | src/mention-monitor.ts:47-79 | a failed fetch changes nothing; otherwise the cursor moves to the first kept mention, and the prompts and replies are `HandleAll` of the reversed kept list |
| MentionMonitoring.MentionMonitor.ProcessOldestFirst | src/mention-monitor.ts:73-75 | the loop leaves the prompts and the replies equal to `HandleAll` of the given order |
| MentionMonitoring.MentionMonitor.ProcessMention | src/mention-monitor.ts:81-109 | the prompts, the replies and whether an error escaped equal `HandleMention` |

## Left out

- Persistence: `loadMemory`, `saveMemory` and `saveTweets`, and the data directory, are not modelled as files. `loadMemory` accepts any parsed `memory.json` without checking it. The model assumes instead that the stored memory is one the indexer wrote itself (the `DataIndexer` constructor requires `MemoryWellFormed`): in `topicHistory` and in every author's `topics` each key occurs once and is a non-empty run of `\w` characters with no upper-case letter. `PraiseIffPopular` relies on this, because no such topic contains `Y`.
  - The stored memory is a constructor parameter.
  - A write failure is a boolean parameter of `IndexTweet`.
  - The JSON encoding is not modelled.
- `Date.now()` is the parameter `now`, one reading per call. The two separate reads in `indexTweet` (the record's `timestamp` and the interaction's `lastTimestamp`) share it, and so do all tweets of one poll, although each sent reply is followed by a 2 s delay. Nothing in the core reads these timestamps back. The 30 s and 60 s intervals and the 2 s delay are not modelled; there is no clock.
- Concurrency between overlapping polls, and between the two monitors sharing the snapshot files, is not modelled. Each call runs to completion.
- Logging (`console.log`, `console.error`) is not modelled.
- The scraper is an oracle.
  - `getTweets` and `searchTweets` become a fetched batch, or `None` when the fetch throws.
  - `sendTweet` and the art generator's `generateArt` plus `readFile` become per-item `Fault` and `Attempt` values.
  - The art-generator module, the scraper and the dashboard are not part of this model.
- `maxTweets` (10 and 20) and the search query string are properties of the fetch, so the batch is taken as given.
- `getLatestInteractions` in `agent-monitor.ts` is not modelled. It only pairs fetched tweets with `generateReplyContent`, which is modelled.
- TweetAnalysis.Sentiment: the score is kept as an integer count of tenths rather than a floating-point sum of 0.1 steps. The rounding of the floating-point sum is not modelled.
- IndexModel.Stats: keeps the sums and the count instead of the two floating-point averages. `LikesAverageAbove` decides `avgLikes > 100` on integers.
- Text.Lower: folds ASCII letters only. Other Unicode case mappings of `toLowerCase` are not modelled, including those that change the length.
- Text.LexLe: a Dafny `char` is a Unicode scalar value, while a JavaScript string is a sequence of UTF-16 code units. Above U+FFFF the two differ: such a character has length 1 here and 2 in JavaScript, and it sorts above U+FFFD here but below it in JavaScript. The ids the cursor compares are decimal digits, where both orders agree.
- TopicTables.Keys: JavaScript lists integer-like keys ("123") before the other keys, in numeric order. The model keeps insertion order for every key.
- IndexModel.Values: `Object.values(this.tweets)` lists integer-like ids (below 2^32 - 1, such as "20") first, in numeric order, then the others in insertion order. The model keeps insertion order for every id. This changes only the order in which `getEngagementStats` visits records, and so the order of equally frequent `topTopics`.
- IndexModel.RecordInteractionFacts: `memory.interactions` is a plain object, so a username that names an `Object.prototype` member reads as an existing record. Such usernames include `constructor`, `toString`, `valueOf`, `hasOwnProperty`, `isPrototypeOf`, `toLocaleString` and `__proto__`. The model creates an ordinary record for them, with count 1 and the tweet's topic counts. The source does something else (src/data-indexer.ts:104-119):
  - It creates no record.
  - It writes `count` (which becomes `NaN`) and `lastTimestamp` onto the inherited function, or onto `Object.prototype` itself.
  - When the tweet has a topic, `interaction.topics[topic]` throws a `TypeError` because `topics` is undefined. `indexTweet` then rejects before `saveMemory`.
- IndexModel.IndexRecords: for those usernames the author-record effect does not hold, for the reason in the line above.
- IndexModel.ReindexCountsTwice: for those usernames the source never counts, so the doubling does not hold.
- IndexModel.RelevantTopics: for those usernames `getRelevantTopics` (src/data-indexer.ts:133-136) finds a truthy inherited value and throws a `TypeError` from `Object.entries(undefined)`. The model returns `[]`.
- IndexModel.RelevantTopicsFacts: states `[]` for an unknown author, which for those usernames the source does not return (see the line above).
- TopicTables.GetMissing: the topic objects are plain objects, so they inherit `constructor` and `__proto__` from `Object.prototype`. These are the only inherited names a lower-case `#\w+` topic can spell. The model treats them as ordinary keys that read as 0.
  - For `constructor`, `t[k] || 0` reads the `Object` function and the table stores a string. The comparator then yields `NaN`, and the order of `sort` becomes implementation-defined, since ECMAScript only fixes it for a consistent comparator.
  - For `__proto__`, the read gives `Object.prototype` and the assignment is ignored, so the topic is never counted.
  - This affects the author tables and `topicHistory` (src/data-indexer.ts:118-119) and the counts of `getEngagementStats` (src/data-indexer.ts:156).
- TopicTables.IncrementGet: for the same two keys the source does not add one: it stores a string (`constructor`) or nothing (`__proto__`). See the line above.
- MentionMonitoring.AttemptAt: a mention beyond the given attempts is treated as a failed render with a delivered apology. This is a default of the model, not of the source.
- AgentMonitoring.FaultAt: a tweet beyond the given faults is processed without a fault. This is a default of the model, not of the source.
- `Tweet.id` is a required string, where the source relies on `tweet.id!`. A tweet without an id would be stored under "undefined" and would always pass the cursor test, because `undefined <= c` is false; the model does not capture this.
- `process.env.TWITTER_USERNAME` is an `Option<string>` read once at construction. The model does not capture the environment changing while the agent runs.

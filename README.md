# Tenkar's Tavern Twitter bot: the deduplicating publish pass

The bot reads an RSS feed and tweets each item it has not tweeted before.
It keeps a record of every tweeted item in the MongoDB collection `tweets`,
keyed by the item's URL. This project models one pass of that pipeline and
proves its properties in Dafny:

- the per-item decision of `tweetItem`;
- the counting loop of `tweetFeed`;
- the `Tweet` record.

The pipeline works on two stateful collaborators. Both are classes here:

- **`Store.Store`** is the `tweets` collection, held as an in-memory
  `seq<Tweet>` in insertion order. `Count` models `Find({url}).Count()`
  with a loop. `Insert` appends a record. It reports `DuplicateKey` when
  the unique index on `url` is in place and the url is already present.
  It reports `WriteFailed` when the database rejects the write.
- **`Publisher.Publisher`** is the Twitter account: an append-only log of
  posted messages. `Post` either appends the message or fails.

The methods `Pipeline.TweetItem` and `Pipeline.TweetFeed` change those
objects step by step, as the Go code does. Each is proved equal to a
specification function on values: `StepItem` for one item, `Pass` for the
whole feed. The properties of the pass are lemmas about these functions.

The outside world is an input. `Env` holds:

- the development flag (the `ENVIRONMENT` variable equal to `development`);
- which feed positions' posts fail;
- which feed positions' inserts fail;
- the clock that stamps each record.

`log.Fatal` after a failed post ends the process. The model turns it into
the outcome `Halted`, which stops the pass.

Files: `records.dfy` (module `Records`), `store.dfy` (`Store`),
`publisher.dfy` (`Publisher`), `pipeline.dfy` (`Pipeline`).

Three facts about the code shape the model:

- The presence check counts the matching records and compares the count
  with zero (tweet/main.go:35-36).
- Any insert error is logged and swallowed, and the item still counts as
  tweeted (tweet/main.go:56-60).
- Whether the unique index on url is in place is a flag of the store
  (`Store.Store.indexed`). In the model the count always succeeds, so an
  insert happens only after the count found no record with that url, and
  the index never refuses an insert within one pass. In the code the
  count's error is discarded (tweet/main.go:35), and a failed count reads
  as zero. The item is then posted again, and only the index, if built,
  keeps its record from being stored twice. `PassKeepsUrlsUnique` proves
  url uniqueness from the presence check alone, because the index is built
  by a goroutine (tweet/main.go:128) and may not exist yet when the pass
  starts.

## Model

| member | source | states |
|---|---|---|
| Records.Message | tweet/main.go:42 | the tweet text is the title, then one newline, then the link, laid out position by position |
| Records.MessageDeterminesItem | tweet/main.go:42 | when titles hold no newline, equal tweet texts come from equal items, so distinct items are announced distinctly |
| Records.AppendKeepsUnique | tweet/main.go:82-88 | appending a record keeps urls unique exactly when they were unique and its url was not yet on record |
| Store.MatchingPositive | tweet/main.go:35-36 | the count of records with a url is positive exactly when some record has that url |
| Store.MatchingUnique | tweet/main.go:82-88 | when urls are unique, at most one record matches a url |
| Store.InsertInto | tweet/main.go:56-59 | an insert is refused as a duplicate exactly when the index is in place and the url is present; it succeeds exactly when neither that nor a write failure happens; a success appends the record, any failure leaves the records unchanged; with the index, unique urls stay unique |
| Store.Store.Count | tweet/main.go:35 | the loop returns the number of records with the url, which is positive exactly when the url is on record and at most one when urls are unique |
| Store.Store.Insert | tweet/main.go:56 | the new records and the status are those of `InsertInto` on the old records |
| Publisher.Publisher.Post | tweet/main.go:44-47 | a post succeeds exactly when the API does not reject it; a success appends exactly that message to the log, a failure leaves the log unchanged |
| Pipeline.StepItem | tweet/main.go:28-61 | an item is skipped exactly when its link is on record, and then nothing changes; it halts exactly when it is new, not in development mode, and its post fails, and then nothing changes; otherwise it posts exactly its message (nothing in development mode) and gains exactly its record unless the write fails, with no existing record altered |
| Pipeline.PassOnlyAppends | tweet/main.go:130-137 | a pass keeps every existing record unchanged and in place and every earlier post; it gains at most one record per counted item, and counts at most one per feed item |
| Pipeline.TweetItem | tweet/main.go:28-61 | the outcome, new records and new post log are those of `StepItem` on the old state |
| Pipeline.TweetFeed | tweet/main.go:130-137 | the count, the halt flag, the new records and the new post log are those of `Pass` on the old state |
| Pipeline.HaltIsFinal | tweet/main.go:44-47 | once the pass has halted, no later item is attempted: any longer feed ends in the same state |
| Pipeline.HaltPoint | tweet/main.go:44-47 | a halted pass stopped at a new item whose real post failed; it keeps exactly what the items before it did, and that item is not recorded |
| Pipeline.DevModeNeverPosts | tweet/main.go:43-48 | in development mode nothing is posted and the pass never halts |
| Pipeline.RecordsGainedMatchCount | tweet/main.go:43-60 | in either mode, with no write failures, no counted item goes unrecorded: the records gained equal the count |
| Pipeline.PostsMatchCount | tweet/main.go:130-137 | in production the number of posts made equals the count |
| Pipeline.PostsAreRecordedInOrder | tweet/main.go:42-56 | in production with no write failures, the records are only extended, and the posts made are exactly the announcements of the records gained, in the order the records were inserted |
| Pipeline.PostsFollowFeed | tweet/main.go:130-137 | in production the posts made are exactly the messages of the items new when reached (reached before any halt, link not on record then, post not failing), one per counted item, in feed order; every such item is posted |
| Pipeline.CountIsItemsNewWhenReached | tweet/main.go:130-137 | in any mode and with any failures, the count equals the number of feed positions the pass reached before halting whose link was not on record then and whose post did not fail; the positions are listed in increasing order, and each such position is listed |
| Pipeline.RecordsComeFromFeed | tweet/main.go:56 | urls on record only grow, and every url gained is the link of a feed item |
| Pipeline.PassKeepsUrlsUnique | tweet/main.go:35-39 | from a store with unique urls, a pass leaves urls unique, with or without the index |
| Pipeline.CompletedPassRecordsFeed | tweet/main.go:130-137 | a pass that ran to the end with no write failures leaves every feed link on record |
| Pipeline.CountIsNewUrls | tweet/main.go:130-137 | with no write failures, the count equals the number of urls on record afterwards that were not on record before |
| Pipeline.CountIsDistinctNewLinks | tweet/main.go:130-137 | a pass that ran to the end with no write failures counts the distinct feed links that were not on record beforehand |
| Pipeline.KnownFeedIsNoop | tweet/main.go:35-39 | a feed whose every link is on record changes nothing, posts nothing and counts zero, whatever the environment answers |
| Pipeline.SecondPassIsNoop | tweet/main.go:27-39 | after a pass that ran to the end with no write failures, a second pass over the same feed counts zero and changes nothing |
| Pipeline.TwoNewItemsExample | tweet/main.go:130-137 | two new items on an empty store in production post "X\nhttp://a" then "Y\nhttp://b", record both, and count two |
| Pipeline.FailFastExample | tweet/main.go:44-47 | three new items whose second post fails leave exactly the first item's record and post, and the pass halts |
| Pipeline.WriteFailureAllowsRepost | tweet/main.go:56-60 | a swallowed write failure lets the same link be posted twice in one pass when the feed lists it twice |

## Left out

- The Twitter client is left out: `anaconda` construction and `VerifyCredentials` (tweet/main.go:112-121), and the network call behind `PostTweet` (tweet/main.go:44). A post is an abstract attempt whose failure is an input.
- MongoDB session handling is left out: `Dial`, `Copy`, `Close` and the database name read from the environment. The store is an in-memory table.
- The database-assigned `ID` of a `Tweet` is left out. It is generated by the database and never read.
- `ensureIndex` (tweet/main.go:76-94) runs as a goroutine. Only its effect is kept: a store flag saying the unique index on url is in place, which makes `Insert` refuse duplicates. Within one modelled pass the index never refuses an insert; in the code it matters for concurrent writers and after a failed count query, neither of which is modelled. Building the index concurrently and its `DropDups` option are not modelled.
- Feed fetching and parsing (`getFeedItems`, tweet/main.go:64-73) are left out. The items are an input sequence.
- `addSentryHook`, `godotenv`, `lambda.Start`, `main` and all log output (tweet/main.go:97-107, 137, 140-154) are entry-point and logging plumbing and are left out.
- Environment reads and `time.Now()` are parameters. The clock is an arbitrary function of the feed position, so the monotonicity of timestamps is not modelled.
- The error that the count query can return is ignored by the source (tweet/main.go:35). The model's count is total. In the code a failed count reads as zero, so the item is posted again, and only the unique index, if built, keeps its record from being stored twice; the model does not capture this re-post.
- Overlapping runs racing on the same store are concurrency and are not modelled.
- Pipeline.TweetFeed: `log.Fatal` ends the process, so the source never reports a count after a failed post. The model still returns the count reached, alongside `halted`.

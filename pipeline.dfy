/** One publish pass: for each feed item in order, skip it if its link is
    already on record, otherwise tweet it (unless in development mode) and
    record it. A failed tweet stops the pass, as `log.Fatal` ends the process. */
module Pipeline {
  import opened Records
  import opened Store
  import opened Publisher

  /** How one item was handled: `Skipped` and `Tweeted` are the source's
      `false` and `true`; `Halted` is the fatal exit on a failed post. */
  datatype Outcome = Skipped | Tweeted | Halted

  /** What the pass can observe of the outside world. `devMode` is the
      development environment setting; the other fields are the answers of
      the network, the database and the clock for the item at a feed
      position: whether its post fails, whether its insert fails, and the
      time stamped on its record. */
  datatype Env = Env(
    devMode: bool,
    postFails: set<nat>,
    insertFails: set<nat>,
    clock: nat -> Time)

  /** The state the pass changes: the store's records and the posted messages. */
  datatype World = World(records: seq<Tweet>, sent: seq<string>)

  datatype Step = Step(outcome: Outcome, world: World)

  /** The state of a pass after some prefix of the feed: what it has done,
      how many items it has tweeted, and whether it has stopped. */
  datatype Progress = Progress(world: World, count: nat, halted: bool)

  /** The record kept for an item tweeted at feed position `i`. */
  function RecordFor(item: Item, env: Env, i: nat): Tweet
  {
    Tweet(item.title, item.link, env.clock(i))
  }

  /** The handling of the item at feed position `i`. */
  function StepItem(w: World, item: Item, env: Env, i: nat): (r: Step)
    // Skip if and only if the link is already on record, changing nothing.
    ensures r.outcome == Skipped <==> HasUrl(w.records, item.link)
    // Halt if and only if a new item's real post fails, changing nothing.
    ensures r.outcome == Halted <==> !HasUrl(w.records, item.link) && !env.devMode && i in env.postFails
    ensures r.outcome != Tweeted ==> r.world == w
    // A tweeted item posts exactly its message, or nothing in development mode.
    ensures r.outcome == Tweeted ==>
      r.world.sent == w.sent + (if env.devMode then [] else [Message(item)])
    // A tweeted item is recorded unless the write fails; no record changes.
    ensures r.outcome == Tweeted ==>
      r.world.records == w.records + (if i in env.insertFails then [] else [RecordFor(item, env, i)])
  {
    if HasUrl(w.records, item.link) then
      Step(Skipped, w)
    else if !env.devMode && i in env.postFails then
      Step(Halted, w)
    else
      var sent := if env.devMode then w.sent else w.sent + [Message(item)];
      // The count found no record with this link, so the unique index on
      // url, if present, does not refuse this insert; only a failed write
      // leaves the record out. (The count is total here: a failed count
      // query, which the code reads as zero, is not modelled.)
      var records := if i in env.insertFails then w.records else w.records + [RecordFor(item, env, i)];
      Step(Tweeted, World(records, sent))
  }

  /** The pass after one more item, at feed position `i`: nothing once
      halted, otherwise the item's step, counted if it was tweeted. */
  function Advance(p: Progress, item: Item, env: Env, i: nat): Progress
  {
    if p.halted then
      p
    else
      var s := StepItem(p.world, item, env, i);
      Progress(s.world, p.count + (if s.outcome == Tweeted then 1 else 0), s.outcome == Halted)
  }

  /** The pass over `items`, item by item in feed order, stopping at the
      first halt; `count` is the number of items tweeted. */
  function Pass(w: World, items: seq<Item>, env: Env): Progress
    decreases |items|
  {
    if items == [] then
      Progress(w, 0, false)
    else
      var n := |items| - 1;
      Advance(Pass(w, items[..n], env), items[n], env, n)
  }

  /** No insert failure among the first `n` feed positions. */
  predicate NoInsertFaults(env: Env, n: nat)
  {
    forall k :: 0 <= k < n ==> k !in env.insertFails
  }

  /** The messages announcing the given records, in the same order. */
  function Announcements(records: seq<Tweet>): (m: seq<string>)
    ensures |m| == |records|
  {
    if records == [] then []
    else Announcements(records[..|records| - 1]) + [Announcement(records[|records| - 1])]
  }

  // ---------------------------------------------------------------------
  // Methods: the source's tweetItem and the counting loop of tweetFeed.

  /** Handles one feed item: counts the records with its link, skips it if
      any, otherwise posts its message (not in development mode; a failed
      post halts) and inserts its record, ignoring an insert error. */
  method TweetItem(store: Store, pub: Publisher, item: Item, env: Env, i: nat) returns (outcome: Outcome)
    modifies store, pub
    ensures Step(outcome, World(store.records, pub.sent))
         == StepItem(World(old(store.records), old(pub.sent)), item, env, i)
  {
    var count := store.Count(item.link);
    if count > 0 {
      return Skipped;
    }
    var tweet := Message(item);
    if !env.devMode {
      var ok := pub.Post(tweet, i in env.postFails);
      if !ok {
        return Halted;
      }
    }
    // An insert error is logged and does not change the outcome.
    var _ := store.Insert(RecordFor(item, env, i), i in env.insertFails);
    return Tweeted;
  }

  /** Runs the pass over the feed items in order, counting the items
      tweeted; stops at the first failed post with `halted` set. */
  method TweetFeed(store: Store, pub: Publisher, items: seq<Item>, env: Env) returns (count: nat, halted: bool)
    modifies store, pub
    ensures Progress(World(store.records, pub.sent), count, halted)
         == Pass(World(old(store.records), old(pub.sent)), items, env)
  {
    ghost var w0 := World(store.records, pub.sent);
    count, halted := 0, false;
    var i := 0;
    while i < |items| && !halted
      invariant 0 <= i <= |items|
      invariant Progress(World(store.records, pub.sent), count, halted) == Pass(w0, items[..i], env)
    {
      assert items[..i + 1][..i] == items[..i];
      var sent := TweetItem(store, pub, items[i], env, i);
      if sent == Tweeted {
        count := count + 1;
      }
      halted := sent == Halted;
      i := i + 1;
    }
    if halted {
      HaltIsFinal(w0, items, env, i);
    } else {
      assert items[..i] == items;
    }
  }

  // ---------------------------------------------------------------------
  // Properties of the pass.

  /** A pass only appends: existing records are kept unchanged and in place,
      earlier posts stay, and it gains at most one record per item it
      counted and counts at most one per feed item. */
  lemma {:induction false} PassOnlyAppends(w: World, items: seq<Item>, env: Env)
    ensures var p := Pass(w, items, env);
      && w.records <= p.world.records && w.sent <= p.world.sent
      && |p.world.records| <= |w.records| + p.count <= |w.records| + |items|
  {
    if items != [] {
      PassOnlyAppends(w, items[..|items| - 1], env);
    }
  }

  /** Fail-fast: once the pass has halted, no later item is attempted; the
      pass over any longer feed ends in the same state. */
  lemma {:induction false} HaltIsFinal(w: World, items: seq<Item>, env: Env, k: nat)
    requires k <= |items| && Pass(w, items[..k], env).halted
    ensures Pass(w, items, env) == Pass(w, items[..k], env)
    decreases |items| - k
  {
    if k == |items| {
      assert items[..k] == items;
    } else {
      var n := |items| - 1;
      var init := items[..n];
      assert init[..k] == items[..k];
      HaltIsFinal(w, init, env, k);
      assert Pass(w, init, env).halted;
    }
  }

  /** When the pass halts, it does so at a new item whose post failed, and
      keeps exactly what the items before it did: that item is not recorded. */
  lemma {:induction false} HaltPoint(w: World, items: seq<Item>, env: Env) returns (k: nat)
    requires Pass(w, items, env).halted
    ensures k < |items| && !env.devMode && k in env.postFails
    ensures !Pass(w, items[..k], env).halted
    ensures !HasUrl(Pass(w, items[..k], env).world.records, items[k].link)
    ensures Pass(w, items, env) == Pass(w, items[..k], env).(halted := true)
  {
    var n := |items| - 1;
    var before := Pass(w, items[..n], env);
    if before.halted {
      k := HaltPoint(w, items[..n], env);
      assert items[..n][..k] == items[..k];
      assert items[..n][k] == items[k];
    } else {
      k := n;
    }
  }

  /** Development mode never posts and never halts. */
  lemma {:induction false} DevModeNeverPosts(w: World, items: seq<Item>, env: Env)
    requires env.devMode
    ensures Pass(w, items, env).world.sent == w.sent
    ensures !Pass(w, items, env).halted
  {
    if items != [] {
      DevModeNeverPosts(w, items[..|items| - 1], env);
    }
  }

  /** With no write failures, in either mode, no counted item goes
      unrecorded: the records gained are exactly as many as the count. */
  lemma {:induction false} RecordsGainedMatchCount(w: World, items: seq<Item>, env: Env)
    requires NoInsertFaults(env, |items|)
    ensures |Pass(w, items, env).world.records| == |w.records| + Pass(w, items, env).count
  {
    if items != [] {
      var n := |items| - 1;
      assert NoInsertFaults(env, n);
      RecordsGainedMatchCount(w, items[..n], env);
    }
  }

  /** In production every item counted was posted: the posts made are as
      many as the count. */
  lemma {:induction false} PostsMatchCount(w: World, items: seq<Item>, env: Env)
    requires !env.devMode
    ensures |Pass(w, items, env).world.sent| == |w.sent| + Pass(w, items, env).count
  {
    if items != [] {
      PostsMatchCount(w, items[..|items| - 1], env);
    }
  }

  /** Announcing one more record appends its announcement. */
  lemma AnnouncementsAppend(start: seq<Tweet>, records: seq<Tweet>, t: Tweet)
    requires start <= records
    ensures Announcements((records + [t])[|start|..]) == Announcements(records[|start|..]) + [Announcement(t)]
  {
    var added := records[|start|..];
    assert (records + [t])[|start|..] == added + [t];
    assert (added + [t])[..|added|] == added;
  }

  /** In production with no write failures, the posts made are, in order,
      exactly the announcements of the records inserted: nothing is posted
      without being recorded and nothing recorded without being posted. */
  lemma {:induction false} PostsAreRecordedInOrder(w: World, items: seq<Item>, env: Env)
    requires !env.devMode && NoInsertFaults(env, |items|)
    ensures var p := Pass(w, items, env);
      && w.records <= p.world.records
      && p.world.sent == w.sent + Announcements(p.world.records[|w.records|..])
  {
    if items == [] {
      assert w.records[|w.records|..] == [];
    } else {
      var n := |items| - 1;
      assert NoInsertFaults(env, n);
      PostsAreRecordedInOrder(w, items[..n], env);
      PassOnlyAppends(w, items[..n], env);
      var before := Pass(w, items[..n], env);
      var p := Pass(w, items, env);
      if before.halted {
        assert p == before;
      } else {
        var s := StepItem(before.world, items[n], env, n);
        assert p.world == s.world;
        if s.outcome == Tweeted {
          AnnouncementsAppend(w.records, before.world.records, RecordFor(items[n], env, n));
        } else {
          assert s.world == before.world;
        }
      }
    }
  }

  /** Posts happen in feed order: in production the messages posted are,
      in order, exactly those of the items that were new when the pass
      reached them (see `NewWhenReached`), one per counted item. */
  lemma {:induction false} PostsFollowFeed(w: World, items: seq<Item>, env: Env) returns (ks: seq<nat>)
    requires !env.devMode
    ensures |ks| == Pass(w, items, env).count
    ensures forall j, l :: 0 <= j < l < |ks| ==> ks[j] < ks[l]
    ensures forall j :: 0 <= j < |ks| ==> ks[j] < |items| && NewWhenReached(w, items, env, ks[j])
    ensures forall i :: 0 <= i < |items| && NewWhenReached(w, items, env, i) ==> i in ks
    ensures var sent := Pass(w, items, env).world.sent;
      && w.sent <= sent && |sent| == |w.sent| + |ks|
      && forall j :: 0 <= j < |ks| ==> sent[|w.sent| + j] == Message(items[ks[j]])
  {
    if items == [] {
      ks := [];
    } else {
      var n := |items| - 1;
      var init := items[..n];
      var ks0 := PostsFollowFeed(w, init, env);
      PassOnlyAppends(w, init, env);
      PostsMatchCount(w, init, env);
      var before := Pass(w, init, env);
      var p := Pass(w, items, env);
      assert p == Advance(before, items[n], env, n);
      forall j | 0 <= j < |ks0|
        ensures p.world.sent[|w.sent| + j] == Message(items[ks0[j]])
      {
        assert items[ks0[j]] == init[ks0[j]];
        assert p.world.sent[|w.sent| + j] == before.world.sent[|w.sent| + j];
      }
      forall i | 0 <= i < n
        ensures NewWhenReached(w, init, env, i) == NewWhenReached(w, items, env, i)
      {
        NewWhenReachedPrefix(w, items, env, n, i);
      }
      assert init == items[..n];
      if !before.halted && StepItem(before.world, items[n], env, n).outcome == Tweeted {
        ks := ks0 + [n];
        assert p.world.sent == before.world.sent + [Message(items[n])];
      } else {
        ks := ks0;
        assert p.world.sent == before.world.sent && p.count == before.count;
      }
    }
  }

  /** The pass reached feed position `i` without having halted, the item's
      link was not on record then, and its post did not fail. */
  predicate NewWhenReached(w: World, items: seq<Item>, env: Env, i: nat)
    requires i < |items|
  {
    var p := Pass(w, items[..i], env);
    !p.halted && !HasUrl(p.world.records, items[i].link) && (env.devMode || i !in env.postFails)
  }

  /** Whether a position was new when reached does not depend on the items
      after it. */
  lemma NewWhenReachedPrefix(w: World, items: seq<Item>, env: Env, m: nat, i: nat)
    requires i < m <= |items|
    ensures NewWhenReached(w, items[..m], env, i) == NewWhenReached(w, items, env, i)
  {
    assert items[..m][..i] == items[..i];
    assert items[..m][i] == items[i];
  }

  /** The count is the number of feed items that were new when reached:
      `ks` lists, in increasing order, exactly the positions the pass
      reached before halting whose link was not on record then and whose
      post did not fail (or was not made, in development mode). */
  lemma {:induction false} CountIsItemsNewWhenReached(w: World, items: seq<Item>, env: Env) returns (ks: seq<nat>)
    ensures |ks| == Pass(w, items, env).count
    ensures forall j, l :: 0 <= j < l < |ks| ==> ks[j] < ks[l]
    ensures forall j :: 0 <= j < |ks| ==> ks[j] < |items| && NewWhenReached(w, items, env, ks[j])
    ensures forall i :: 0 <= i < |items| && NewWhenReached(w, items, env, i) ==> i in ks
  {
    if items == [] {
      ks := [];
    } else {
      var n := |items| - 1;
      var init := items[..n];
      var ks0 := CountIsItemsNewWhenReached(w, init, env);
      var before := Pass(w, init, env);
      assert init == items[..n];
      forall j | 0 <= j < |ks0|
        ensures items[ks0[j]] == init[ks0[j]] && items[..ks0[j]] == init[..ks0[j]]
      {
      }
      forall i | 0 <= i < n
        ensures items[i] == init[i] && items[..i] == init[..i]
      {
      }
      if !before.halted && StepItem(before.world, items[n], env, n).outcome == Tweeted {
        ks := ks0 + [n];
      } else {
        ks := ks0;
      }
    }
  }

  /** Records only ever come from the feed: every url on record after the
      pass was on record before or is the link of a feed item. */
  lemma {:induction false} RecordsComeFromFeed(w: World, items: seq<Item>, env: Env)
    ensures UrlSet(w.records) <= UrlSet(Pass(w, items, env).world.records) <= UrlSet(w.records) + LinkSet(items)
  {
    if items != [] {
      var n := |items| - 1;
      RecordsComeFromFeed(w, items[..n], env);
      var before := Pass(w, items[..n], env);
      LinkSetAppend(items);
      if !before.halted {
        var s := StepItem(before.world, items[n], env, n);
        if s.outcome == Tweeted && n !in env.insertFails {
          UrlSetAppend(before.world.records, RecordFor(items[n], env, n));
          assert items[n].link in LinkSet(items);
        }
      }
    }
  }

  /** Uniqueness: from a store whose urls are unique, a pass keeps them
      unique, whether or not the unique index is in place. */
  lemma {:induction false} PassKeepsUrlsUnique(w: World, items: seq<Item>, env: Env)
    requires UniqueUrls(w.records)
    ensures UniqueUrls(Pass(w, items, env).world.records)
  {
    if items != [] {
      var n := |items| - 1;
      PassKeepsUrlsUnique(w, items[..n], env);
      var before := Pass(w, items[..n], env);
      if !before.halted {
        AppendKeepsUnique(before.world.records, RecordFor(items[n], env, n));
      }
    }
  }

  /** One tweeted item whose record is written adds exactly one url that
      was not on record before the pass. */
  lemma StepAddsOneUrl(w: World, before: World, item: Item, env: Env, n: nat)
    requires UrlSet(w.records) <= UrlSet(before.records)
    requires StepItem(before, item, env, n).outcome == Tweeted && n !in env.insertFails
    ensures var after := StepItem(before, item, env, n).world;
      && UrlSet(after.records) == UrlSet(before.records) + {item.link}
      && |UrlSet(after.records) - UrlSet(w.records)| == |UrlSet(before.records) - UrlSet(w.records)| + 1
  {
    var u0 := UrlSet(w.records);
    UrlSetAppend(before.records, RecordFor(item, env, n));
    UrlSetHasUrl(before.records, item.link);
    var gained := UrlSet(before.records) - u0;
    assert UrlSet(StepItem(before, item, env, n).world.records) - u0 == gained + {item.link};
    assert item.link !in gained;
  }

  /** With no write failures, a pass that runs to the end leaves every
      feed link on record. */
  lemma {:induction false} CompletedPassRecordsFeed(w: World, items: seq<Item>, env: Env)
    requires NoInsertFaults(env, |items|) && !Pass(w, items, env).halted
    ensures UrlSet(Pass(w, items, env).world.records) == UrlSet(w.records) + LinkSet(items)
  {
    if items != [] {
      var n := |items| - 1;
      assert NoInsertFaults(env, n);
      CompletedPassRecordsFeed(w, items[..n], env);
      var before := Pass(w, items[..n], env);
      var s := StepItem(before.world, items[n], env, n);
      LinkSetAppend(items);
      if s.outcome == Tweeted {
        UrlSetAppend(before.world.records, RecordFor(items[n], env, n));
      } else {
        UrlSetHasUrl(before.world.records, items[n].link);
      }
    }
  }

  /** With no write failures, each item the pass counts adds one url that
      was not on record before the pass. */
  lemma {:induction false} CountIsNewUrls(w: World, items: seq<Item>, env: Env)
    requires NoInsertFaults(env, |items|)
    ensures Pass(w, items, env).count == |UrlSet(Pass(w, items, env).world.records) - UrlSet(w.records)|
  {
    if items != [] {
      var n := |items| - 1;
      assert NoInsertFaults(env, n);
      CountIsNewUrls(w, items[..n], env);
      RecordsComeFromFeed(w, items[..n], env);
      var before := Pass(w, items[..n], env);
      var p := Pass(w, items, env);
      if before.halted {
        assert p == before;
      } else {
        var s := StepItem(before.world, items[n], env, n);
        if s.outcome == Tweeted {
          assert p.world == s.world && p.count == before.count + 1;
          StepAddsOneUrl(w, before.world, items[n], env, n);
        } else {
          assert p.world == before.world && p.count == before.count;
        }
      }
    }
  }

  /** With no write failures, a pass that runs to the end tweets each new
      link exactly once: the count is the number of distinct feed links not
      on record beforehand. */
  lemma CountIsDistinctNewLinks(w: World, items: seq<Item>, env: Env)
    requires NoInsertFaults(env, |items|) && !Pass(w, items, env).halted
    ensures Pass(w, items, env).count == |LinkSet(items) - UrlSet(w.records)|
  {
    CountIsNewUrls(w, items, env);
    CompletedPassRecordsFeed(w, items, env);
    var u0 := UrlSet(w.records);
    assert (u0 + LinkSet(items)) - u0 == LinkSet(items) - u0;
  }

  /** Skip-if-present: a feed whose every link is already on record is a
      no-op, whatever the environment answers; nothing is posted. */
  lemma {:induction false} KnownFeedIsNoop(w: World, items: seq<Item>, env: Env)
    requires forall k :: 0 <= k < |items| ==> HasUrl(w.records, items[k].link)
    ensures Pass(w, items, env) == Progress(w, 0, false)
  {
    if items != [] {
      var n := |items| - 1;
      KnownFeedIsNoop(w, items[..n], env);
      assert HasUrl(w.records, items[n].link);
    }
  }

  /** Idempotence: after a pass that ran to the end with no write failures,
      a second pass over the same feed tweets nothing and changes nothing,
      even if every post would now fail. */
  lemma SecondPassIsNoop(w: World, items: seq<Item>, env: Env, env2: Env)
    requires NoInsertFaults(env, |items|) && !Pass(w, items, env).halted
    ensures var w1 := Pass(w, items, env).world;
      Pass(w1, items, env2) == Progress(w1, 0, false)
  {
    var w1 := Pass(w, items, env).world;
    CompletedPassRecordsFeed(w, items, env);
    forall k | 0 <= k < |items| ensures HasUrl(w1.records, items[k].link) {
      UrlSetHasUrl(w1.records, items[k].link);
    }
    KnownFeedIsNoop(w1, items, env2);
  }

  // ---------------------------------------------------------------------
  // Worked examples.

  /** Two new items, an empty store, production, no failures: both are
      posted in feed order, both are recorded, and the count is two. */
  lemma TwoNewItemsExample(env: Env)
    requires !env.devMode && 0 !in env.postFails && 1 !in env.postFails
    requires 0 !in env.insertFails && 1 !in env.insertFails
    ensures var items := [Item("X", "http://a"), Item("Y", "http://b")];
      Pass(World([], []), items, env)
      == Progress(
           World([Tweet("X", "http://a", env.clock(0)), Tweet("Y", "http://b", env.clock(1))],
                 ["X\nhttp://a", "Y\nhttp://b"]),
           2, false)
  {
    var items := [Item("X", "http://a"), Item("Y", "http://b")];
    assert items[..1] == [items[0]] && items[..1][..0] == [];
    assert Message(items[0]) == "X\nhttp://a";
    assert Message(items[1]) == "Y\nhttp://b";
    var w1 := World([Tweet("X", "http://a", env.clock(0))], ["X\nhttp://a"]);
    assert Pass(World([], []), items[..1][..0], env) == Progress(World([], []), 0, false);
    assert Pass(World([], []), items[..1], env) == Progress(w1, 1, false);
    assert !HasUrl(w1.records, "http://b") by {
      assert w1.records[0].url != "http://b";
    }
  }

  /** Three new items whose second post fails: the pass halts holding only
      the first item's record and post; the third is never attempted. */
  lemma FailFastExample(a: Item, b: Item, c: Item, env: Env)
    requires a.link != b.link
    requires !env.devMode && 0 !in env.postFails && 1 in env.postFails && 0 !in env.insertFails
    ensures var p := Pass(World([], []), [a, b, c], env);
      && p.halted
      && p.world == World([RecordFor(a, env, 0)], [Message(a)])
  {
    var items := [a, b, c];
    assert items[..2][..1] == [a] && [a][..0] == [];
    var w1 := World([RecordFor(a, env, 0)], [Message(a)]);
    assert Pass(World([], []), items[..1], env) == Progress(w1, 1, false);
    assert !HasUrl(w1.records, b.link) by {
      assert w1.records[0].url != b.link;
    }
    assert Pass(World([], []), items[..2], env) == Progress(w1, 1, true);
    HaltIsFinal(World([], []), items, env, 2);
  }

  /** An insert error is swallowed, so nothing stops a later item with the
      same link from being tweeted again in the same pass: a feed listing
      one link twice, whose first write fails, posts it twice. */
  lemma WriteFailureAllowsRepost(item: Item, env: Env)
    requires !env.devMode && 0 !in env.postFails && 1 !in env.postFails && 0 in env.insertFails
    ensures var p := Pass(World([], []), [item, item], env);
      p.world.sent == [Message(item), Message(item)] && p.count == 2
  {
    var items := [item, item];
    assert items[..1] == [item] && [item][..0] == [];
    assert Pass(World([], []), items[..1], env) == Progress(World([], [Message(item)]), 1, false);
  }
}

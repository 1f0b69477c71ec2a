/** The values the publish pass works on: the feed items it reads, the
    records it keeps of what was tweeted, and the text of a tweet. */
module Records {

  /** Creation time of a record; an opaque value supplied by the clock. */
  type Time = int

  /** A record of an item that has already been tweeted. The database
      identifier is assigned by the store and never read, so it is not kept. */
  datatype Tweet = Tweet(title: string, url: string, timestamp: Time)

  /** A candidate item of the feed. */
  datatype Item = Item(title: string, link: string)

  /** The text tweeted for an item: its title, a newline, then its link. */
  function Message(item: Item): (m: string)
    ensures |m| == |item.title| + 1 + |item.link|
    ensures m[..|item.title|] == item.title
    ensures m[|item.title|] == '\n'
    ensures m[|item.title| + 1..] == item.link
  {
    item.title + "\n" + item.link
  }

  /** The text that was tweeted for the item a record stands for. */
  function Announcement(t: Tweet): string
  {
    Message(Item(t.title, t.url))
  }

  predicate NoNewline(s: string)
  {
    forall k :: 0 <= k < |s| ==> s[k] != '\n'
  }

  /** When titles carry no newline, the tweet text determines the item:
      two different items are never announced with the same text. */
  lemma MessageDeterminesItem(a: Item, b: Item)
    requires NoNewline(a.title) && NoNewline(b.title)
    requires Message(a) == Message(b)
    ensures a == b
  {
  }

  /** Some record of `records` has the given url. */
  predicate HasUrl(records: seq<Tweet>, url: string)
  {
    exists k :: 0 <= k < |records| && records[k].url == url
  }

  /** No two records share a url: what the unique index on url enforces. */
  predicate UniqueUrls(records: seq<Tweet>)
  {
    forall j, k :: 0 <= j < k < |records| ==> records[j].url != records[k].url
  }

  function UrlSet(records: seq<Tweet>): set<string>
  {
    set k | 0 <= k < |records| :: records[k].url
  }

  function LinkSet(items: seq<Item>): set<string>
  {
    set k | 0 <= k < |items| :: items[k].link
  }

  lemma UrlSetHasUrl(records: seq<Tweet>, url: string)
    ensures url in UrlSet(records) <==> HasUrl(records, url)
  {
  }

  /** Appending a record adds its url to the urls on record and nothing else. */
  lemma UrlSetAppend(records: seq<Tweet>, t: Tweet)
    ensures UrlSet(records + [t]) == UrlSet(records) + {t.url}
  {
    var r := records + [t];
    forall u | u in UrlSet(r) ensures u in UrlSet(records) + {t.url} {
      var k :| 0 <= k < |r| && r[k].url == u;
      if k < |records| { assert records[k].url == u; }
    }
    forall u | u in UrlSet(records) + {t.url} ensures u in UrlSet(r) {
      if u == t.url {
        assert r[|records|].url == u;
      } else {
        var k :| 0 <= k < |records| && records[k].url == u;
        assert r[k].url == u;
      }
    }
  }

  /** Appending keeps the urls unique exactly when they were unique and the
      new record's url is not yet on record. */
  lemma AppendKeepsUnique(records: seq<Tweet>, t: Tweet)
    ensures UniqueUrls(records + [t]) <==> UniqueUrls(records) && !HasUrl(records, t.url)
  {
    var r := records + [t];
    if !UniqueUrls(records) {
      var j, k :| 0 <= j < k < |records| && records[j].url == records[k].url;
      assert r[j].url == r[k].url;
    } else if HasUrl(records, t.url) {
      var k :| 0 <= k < |records| && records[k].url == t.url;
      assert r[k].url == r[|records|].url;
    } else {
      forall j, k | 0 <= j < k < |r| ensures r[j].url != r[k].url {
        if k == |records| {
          assert r[j] == records[j];
        } else {
          assert r[j] == records[j] && r[k] == records[k];
        }
      }
    }
  }

  /** The links of a feed are those of all but its last item, plus that one. */
  lemma LinkSetAppend(items: seq<Item>)
    requires items != []
    ensures LinkSet(items) == LinkSet(items[..|items| - 1]) + {items[|items| - 1].link}
  {
  }
}

/** The `tweets` collection: an in-memory table of the records of what has
    been tweeted, with the count-by-url query and the insert the pass uses. */
module Store {
  import opened Records

  /** How an insert ended. Neither failure stops the pass. */
  datatype InsertStatus = Inserted | DuplicateKey | WriteFailed

  /** The collection after an insert, with the status the insert reported. */
  datatype InsertResult = InsertResult(records: seq<Tweet>, status: InsertStatus)

  /** Number of records whose url is `url`: what `Find({url}).Count()` returns. */
  function Matching(records: seq<Tweet>, url: string): nat
  {
    if records == [] then 0
    else Matching(records[..|records| - 1], url) + (if records[|records| - 1].url == url then 1 else 0)
  }

  /** The count is positive exactly when some record has the url. */
  lemma {:induction false} MatchingPositive(records: seq<Tweet>, url: string)
    ensures Matching(records, url) > 0 <==> HasUrl(records, url)
  {
    if records != [] {
      var init := records[..|records| - 1];
      MatchingPositive(init, url);
      if HasUrl(init, url) {
        var k :| 0 <= k < |init| && init[k].url == url;
        assert records[k].url == url;
      }
      if HasUrl(records, url) && records[|records| - 1].url != url {
        var k :| 0 <= k < |records| && records[k].url == url;
        assert init[k].url == url;
      }
    }
  }

  /** Under the unique index a url is matched by at most one record. */
  lemma {:induction false} MatchingUnique(records: seq<Tweet>, url: string)
    requires UniqueUrls(records)
    ensures Matching(records, url) <= 1
  {
    if records != [] {
      var init := records[..|records| - 1];
      assert UniqueUrls(init) by {
        forall j, k | 0 <= j < k < |init| ensures init[j].url != init[k].url {
          assert init[j] == records[j] && init[k] == records[k];
        }
      }
      MatchingUnique(init, url);
      if records[|records| - 1].url == url {
        MatchingPositive(init, url);
      }
    }
  }

  /** Inserting `rec`: with the unique index on url in place a record whose
      url is already present is refused; a failed write changes nothing;
      otherwise the record is appended. */
  function InsertInto(records: seq<Tweet>, rec: Tweet, indexed: bool, writeFails: bool): (r: InsertResult)
    ensures r.status == DuplicateKey <==> indexed && HasUrl(records, rec.url)
    ensures r.status == Inserted <==> !writeFails && !(indexed && HasUrl(records, rec.url))
    ensures r.status == Inserted ==> r.records == records + [rec]
    ensures r.status != Inserted ==> r.records == records
    ensures UniqueUrls(records) && indexed ==> UniqueUrls(r.records)
  {
    if indexed && HasUrl(records, rec.url) then
      InsertResult(records, DuplicateKey)
    else if writeFails then
      InsertResult(records, WriteFailed)
    else
      AppendKeepsUnique(records, rec);
      InsertResult(records + [rec], Inserted)
  }

  class Store {
    /** The records, in insertion order. */
    var records: seq<Tweet>
    /** Whether the unique index on url is in place. */
    const indexed: bool

    constructor (initial: seq<Tweet>, indexed: bool)
      ensures records == initial && this.indexed == indexed
    {
      records := initial;
      this.indexed := indexed;
    }

    /** Counts the records with the given url. */
    method Count(url: string) returns (n: nat)
      ensures n == Matching(records, url)
      ensures n > 0 <==> HasUrl(records, url)
      ensures UniqueUrls(records) ==> n <= 1
    {
      n := 0;
      var i := 0;
      while i < |records|
        invariant 0 <= i <= |records|
        invariant n == Matching(records[..i], url)
      {
        assert records[..i + 1][..i] == records[..i];
        if records[i].url == url {
          n := n + 1;
        }
        i := i + 1;
      }
      assert records[..i] == records;
      MatchingPositive(records, url);
      if UniqueUrls(records) {
        MatchingUnique(records, url);
      }
    }

    /** Inserts a record; `writeFails` is the database's answer to the write. */
    method Insert(rec: Tweet, writeFails: bool) returns (status: InsertStatus)
      modifies this
      ensures InsertResult(records, status) == InsertInto(old(records), rec, indexed, writeFails)
    {
      var present := Count(rec.url);
      if indexed && present > 0 {
        status := DuplicateKey;
      } else if writeFails {
        status := WriteFailed;
      } else {
        records := records + [rec];
        status := Inserted;
      }
    }
  }
}

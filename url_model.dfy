/** The Mongoose `Url` model: the shape of one short-link document, the
    defaults the schema fills in, the required `originalUrl`, the unique index
    on `shortUrl` and the TTL index on `expiresAt`, together with the
    collection those documents live in. Times are milliseconds since the
    epoch. */
module UrlModel {
  import opened Wrappers

  /** Default of the `category` path. */
  const Uncategorized: string := "Uncategorized"

  /** One stored document. */
  datatype Record = Record(
    originalUrl: string,
    shortUrl: string,
    clicks: nat,
    createdAt: int,
    expiresAt: Option<int>,
    category: string)

  /** The collection, keyed by the value of the unique `shortUrl` path. */
  type Table = map<string, Record>

  /** The largest distance from the epoch, in milliseconds, of a JavaScript
      `Date`; beyond it a date computation gives an Invalid Date. */
  const MaxTime: int := 8_640_000_000_000_000

  /** A time that a JavaScript `Date` can hold. */
  predicate IsDate(ms: int) {
    -MaxTime <= ms <= MaxTime
  }

  /** The supplied `expiresAt` casts to the `Date` path: it is null or a
      valid date. An out-of-range value stands for an Invalid Date. */
  predicate Castable(r: Record) {
    r.expiresAt.None? || IsDate(r.expiresAt.value)
  }

  /** What the schema guarantees of every stored document: it sits under its
      own `shortUrl` (so the unique index holds), the required `originalUrl`
      is a non-empty string, and `expiresAt` is null or a valid date. */
  predicate ValidTable(t: Table) {
    forall code | code in t :: t[code].shortUrl == code && t[code].originalUrl != "" && Castable(t[code])
  }

  /** No two stored documents share a `shortUrl`. */
  lemma ShortUrlUnique(t: Table, a: string, b: string)
    requires ValidTable(t)
    requires a in t && b in t && t[a].shortUrl == t[b].shortUrl
    ensures a == b
  {
  }

  /** `new Url({ ... })` with the supplied paths: `clicks` and `createdAt`
      always take their defaults, and `category` does when it is not
      supplied. */
  function NewRecord(originalUrl: string, shortUrl: string, expiresAt: Option<int>,
                     category: Option<string>, now: int): (r: Record)
    ensures r.originalUrl == originalUrl && r.shortUrl == shortUrl && r.expiresAt == expiresAt
    ensures r.clicks == 0 && r.createdAt == now
    ensures category.None? ==> r.category == Uncategorized
    ensures category.Some? ==> r.category == category.value
  {
    Record(originalUrl, shortUrl, 0, now, expiresAt, category.GetOr(Uncategorized))
  }

  /** The TTL monitor's test for the index `{ expiresAt: 1 }` with
      `expireAfterSeconds: 0`: a document is due once its `expiresAt` lies
      strictly in the past; a null `expiresAt` is never due. */
  predicate TtlDue(r: Record, now: int) {
    r.expiresAt.Some? && r.expiresAt.value < now
  }

  /** The collection after one TTL pass at time `now`. */
  function Swept(t: Table, now: int): (s: Table)
    ensures forall code | code in t :: code in s <==> !TtlDue(t[code], now)
    ensures forall code | code in t && t[code].expiresAt.None? :: code in s
    ensures forall code | code in s :: code in t && s[code] == t[code]
    ensures ValidTable(t) ==> ValidTable(s)
  {
    map code | code in t && !TtlDue(t[code], now) :: t[code]
  }

  /** Two TTL passes leave what one pass at the later time leaves: sweeping
      is idempotent and the order of passes does not matter. */
  lemma SweptTwice(t: Table, a: int, b: int)
    ensures Swept(Swept(t, a), b) == Swept(t, if a < b then b else a)
  {
  }

  /** The `urls` collection, updated in place by the route handlers. */
  class Collection {
    var docs: Table

    ghost predicate Valid()
      reads this
    {
      ValidTable(docs)
    }

    constructor ()
      ensures Valid() && docs == map[]
    {
      docs := map[];
    }

    /** `Url.findOne({ shortUrl: code })`. */
    method FindOne(code: string) returns (found: Option<Record>)
      requires Valid()
      ensures found.Some? <==> code in docs
      ensures found.Some? ==> found.value == docs[code] && found.value.shortUrl == code
    {
      if code in docs {
        found := Some(docs[code]);
      } else {
        found := None;
      }
    }

    /** `doc.save()` for a new document: validation rejects an empty
        `originalUrl` and an `expiresAt` that is an Invalid Date, the unique
        index rejects a `shortUrl` already taken, and a rejected save writes
        nothing. */
    method Insert(r: Record) returns (saved: bool)
      requires Valid()
      modifies this
      ensures Valid()
      ensures saved <==> r.originalUrl != "" && Castable(r) && r.shortUrl !in old(docs)
      ensures docs == if saved then old(docs)[r.shortUrl := r] else old(docs)
    {
      saved := r.originalUrl != "" && Castable(r) && r.shortUrl !in docs;
      if saved {
        docs := docs[r.shortUrl := r];
      }
    }

    /** `doc.save()` on a loaded document whose `clicks` was changed:
        Mongoose writes that one path back. */
    method SetClicks(code: string, clicks: nat) returns (saved: bool)
      requires Valid()
      modifies this
      ensures Valid()
      ensures saved <==> code in old(docs)
      ensures docs == if saved then old(docs)[code := old(docs)[code].(clicks := clicks)] else old(docs)
    {
      saved := code in docs;
      if saved {
        docs := docs[code := docs[code].(clicks := clicks)];
      }
    }

    /** `Url.deleteOne({ shortUrl: code })`; deleting an absent code is not
        an error. */
    method DeleteOne(code: string)
      requires Valid()
      modifies this
      ensures Valid()
      ensures docs == old(docs) - {code}
    {
      docs := docs - {code};
    }

    /** One pass of MongoDB's TTL monitor at time `now`. */
    method Sweep(now: int)
      requires Valid()
      modifies this
      ensures Valid()
      ensures docs == Swept(old(docs), now)
    {
      docs := Swept(docs, now);
    }
  }
}

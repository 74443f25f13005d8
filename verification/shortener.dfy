/**
 * The `TinyURL` model of turl.rb:16-67: the `turl` table of rows
 * (id, url, hits) with its unique index on url, and the operations
 * `add`, `pack`, `unpack` and `count` over it.
 */
module Shortener {
  import Base36
  import UrlFormat

  datatype Option<T> = None | Some(value: T)

  /** The database refused an insert: the unique index on url already holds the url. */
  datatype Error = ConstraintViolation

  datatype Result<T> = Ok(value: T) | Err(error: Error)

  /** One row of the `turl` table; the `created` timestamp is not modelled. */
  datatype Entry = Entry(url: string, hits: int)

  /** The token that would collide with the controller's `index` action. */
  const INDEX_TOKEN: string := "index"

  /** At most one row per url. */
  ghost predicate UniqueUrls(rows: map<nat, Entry>) {
    forall i, j :: i in rows && j in rows && rows[i].url == rows[j].url ==> i == j
  }

  /** A row with this url exists. */
  ghost predicate Stored(rows: map<nat, Entry>, url: string) {
    exists id :: id in rows && rows[id].url == url
  }

  /**
   * The table's invariant: ids are positive and below the next id to be
   * assigned, every row has been hit at least once (its creation), every
   * stored url passed the format check, and the unique index `byUrl`
   * maps each stored url to the id of its row and nothing else.
   */
  ghost predicate TableInvariant(rows: map<nat, Entry>, byUrl: map<string, nat>, nextId: nat) {
    && 1 <= nextId
    && (forall id :: id in rows ==> 1 <= id < nextId)
    && (forall id :: id in rows ==> 1 <= rows[id].hits)
    && (forall id :: id in rows ==> rows[id].url in byUrl && byUrl[rows[id].url] == id)
    && (forall u :: u in byUrl ==> byUrl[u] in rows && rows[byUrl[u]].url == u)
    && (forall u :: u in byUrl ==> UrlFormat.IsValidUrl(u))
  }

  /** What `count` answers for an id: the row's hits, 0 when there is no such row. */
  function HitsOf(rows: map<nat, Entry>, id: nat): int {
    if id in rows then rows[id].hits else 0
  }

  /** The rows after one `unpack` of id. */
  function Bumped(rows: map<nat, Entry>, id: nat): map<nat, Entry> {
    if id in rows then rows[id := Entry(rows[id].url, rows[id].hits + 1)] else rows
  }

  /** The rows after k `unpack`s of id. */
  function Unpacked(rows: map<nat, Entry>, id: nat, k: nat): map<nat, Entry> {
    if k == 0 then rows else Bumped(Unpacked(rows, id, k - 1), id)
  }

  /** The unique index makes urls unique across rows. */
  lemma IndexGivesUniqueUrls(rows: map<nat, Entry>, byUrl: map<string, nat>, nextId: nat)
    requires TableInvariant(rows, byUrl, nextId)
    ensures UniqueUrls(rows)
    ensures forall u :: Stored(rows, u) <==> u in byUrl
  {
    forall u | Stored(rows, u)
      ensures u in byUrl
    {
      var id :| id in rows && rows[id].url == u;
    }
  }

  /** Inserting a new valid url under the next id keeps the invariant, and that id was unused. */
  lemma InsertKeepsInvariant(rows: map<nat, Entry>, byUrl: map<string, nat>, nextId: nat, url: string)
    requires TableInvariant(rows, byUrl, nextId)
    requires url !in byUrl && UrlFormat.IsValidUrl(url)
    ensures nextId !in rows
    ensures TableInvariant(rows[nextId := Entry(url, 1)], byUrl[url := nextId], nextId + 1)
  {
    var rows', byUrl' := rows[nextId := Entry(url, 1)], byUrl[url := nextId];
    forall id | id in rows'
      ensures 1 <= id < nextId + 1
      ensures 1 <= rows'[id].hits
      ensures rows'[id].url in byUrl' && byUrl'[rows'[id].url] == id
    {
      if id != nextId {
        assert rows'[id] == rows[id];
        assert rows[id].url != url;
      }
    }
    forall u | u in byUrl'
      ensures byUrl'[u] in rows' && rows'[byUrl'[u]].url == u
    {
      if u != url {
        assert byUrl'[u] == byUrl[u] && byUrl[u] != nextId;
      }
    }
  }

  /** An unpack keeps the invariant, the keys, every url and every other row. */
  lemma BumpKeepsInvariant(rows: map<nat, Entry>, byUrl: map<string, nat>, nextId: nat, id: nat)
    requires TableInvariant(rows, byUrl, nextId)
    ensures TableInvariant(Bumped(rows, id), byUrl, nextId)
  {
    if id in rows {
      var rows' := Bumped(rows, id);
      assert rows'.Keys == rows.Keys;
      forall j | j in rows'
        ensures rows'[j].url == rows[j].url && rows'[j].hits >= rows[j].hits
      {
      }
    }
  }

  /**
   * After k unpacks of id, its row has k more hits and the same url, and
   * no other row changed; an id without a row stays without one.
   */
  lemma {:induction false} HitsAfterUnpacks(rows: map<nat, Entry>, id: nat, k: nat)
    ensures Unpacked(rows, id, k).Keys == rows.Keys
    ensures HitsOf(Unpacked(rows, id, k), id) == if id in rows then rows[id].hits + k else 0
    ensures id in rows ==> Unpacked(rows, id, k)[id].url == rows[id].url
    ensures forall j :: j in rows && j != id ==> Unpacked(rows, id, k)[j] == rows[j]
  {
    if k > 0 {
      HitsAfterUnpacks(rows, id, k - 1);
    }
  }

  /** `count` after k unpacks of a freshly created row answers 1 + k. */
  lemma CountAfterUnpacks(rows: map<nat, Entry>, id: nat, url: string, k: nat)
    requires id !in rows
    ensures HitsOf(Unpacked(rows[id := Entry(url, 1)], id, k), id) == 1 + k
  {
    HitsAfterUnpacks(rows[id := Entry(url, 1)], id, k);
  }

  /** The `turl` table. */
  class TinyUrl {
    var rows: map<nat, Entry>
    /** The unique index on url (turl.rb:22). */
    var byUrl: map<string, nat>
    /** The id the next insert receives. */
    var nextId: nat

    ghost predicate Valid()
      reads this
    {
      TableInvariant(rows, byUrl, nextId)
    }

    /** The empty table as `create_table` leaves it. */
    constructor ()
      ensures Valid()
      ensures rows == map[] && byUrl == map[] && nextId == 1
    {
      rows := map[];
      byUrl := map[];
      nextId := 1;
    }

    /** `TinyURL[:url => uri]`: the id of the row holding url, if any. */
    method FindByUrl(url: string) returns (id: Option<nat>)
      requires Valid()
      ensures id.Some? <==> Stored(rows, url)
      ensures id.Some? ==> id.value in rows && rows[id.value].url == url
    {
      IndexGivesUniqueUrls(rows, byUrl, nextId);
      if url in byUrl {
        id := Some(byUrl[url]);
      } else {
        id := None;
      }
    }

    /**
     * `add`: checks the url's format and, when it passes, inserts a row with
     * the next id and one hit, answering that id's token. A url that fails
     * the check yields "" and leaves the table as it was; a url that already
     * has a row makes the unique index reject the insert.
     */
    method Add(uri: string) returns (r: Result<string>)
      requires Valid()
      modifies this
      ensures Valid()
      ensures !UrlFormat.IsValidUrl(uri) ==> r == Ok("") && unchanged(this)
      ensures UrlFormat.IsValidUrl(uri) && uri in old(byUrl) ==>
        r == Err(ConstraintViolation) && unchanged(this)
      ensures UrlFormat.IsValidUrl(uri) && uri !in old(byUrl) ==>
        && old(nextId) !in old(rows)
        && rows == old(rows)[old(nextId) := Entry(uri, 1)]
        && byUrl == old(byUrl)[uri := old(nextId)]
        && nextId == old(nextId) + 1
        && r == Ok(Base36.Encode(old(nextId)))
    {
      if !UrlFormat.IsValidUrl(uri) {
        return Ok("");
      }
      if uri in byUrl {
        return Err(ConstraintViolation);
      }
      InsertKeepsInvariant(rows, byUrl, nextId, uri);
      var id := nextId;
      rows := rows[id := Entry(uri, 1)];
      byUrl := byUrl[uri := id];
      nextId := nextId + 1;
      r := Ok(Base36.Encode(id));
    }

    /**
     * `pack`: a url shorter than the prefix comes back as it is. Otherwise
     * the token is that of the url's existing row, or of the row `add`
     * creates ("" when `add` rejects the url). A token equal to `index`
     * sends the url through `add` once more, which the unique index refuses.
     */
    method Pack(uri: string, prefix: string) returns (r: Result<string>)
      requires Valid()
      modifies this
      ensures Valid()
      ensures |uri| < |prefix| ==> r == Ok(uri) && unchanged(this)
      ensures |uri| >= |prefix| && uri in old(byUrl) ==>
        && unchanged(this)
        && r == if Base36.Encode(old(byUrl)[uri]) == INDEX_TOKEN then Err(ConstraintViolation)
                else Ok(prefix + Base36.Encode(old(byUrl)[uri]))
      ensures |uri| >= |prefix| && uri !in old(byUrl) && !UrlFormat.IsValidUrl(uri) ==>
        r == Ok(prefix) && unchanged(this)
      ensures |uri| >= |prefix| && uri !in old(byUrl) && UrlFormat.IsValidUrl(uri) ==>
        && old(nextId) !in old(rows)
        && rows == old(rows)[old(nextId) := Entry(uri, 1)]
        && byUrl == old(byUrl)[uri := old(nextId)]
        && nextId == old(nextId) + 1
        && r == if Base36.Encode(old(nextId)) == INDEX_TOKEN then Err(ConstraintViolation)
                else Ok(prefix + Base36.Encode(old(nextId)))
      ensures r.Ok? ==> r.value != prefix + INDEX_TOKEN
      ensures r.Ok? && |uri| >= |prefix| && UrlFormat.IsValidUrl(uri) ==>
        uri in byUrl && r.value == prefix + Base36.Encode(byUrl[uri])
    {
      if |uri| < |prefix| {
        return Ok(uri);
      }
      var existing := FindByUrl(uri);
      var token: string;
      if existing.Some? {
        token := Base36.Encode(existing.value);
      } else {
        var added := Add(uri);
        token := added.value;
      }
      if token == INDEX_TOKEN {
        // The url now has a row, so this second insert always fails.
        var again := Add(uri);
        return Err(again.error);
      }
      r := Ok(prefix + token);
      assert r.value[|prefix|..] == token;
      assert token == [] ==> r.value == prefix;
    }

    /**
     * `unpack`: the row named by the token's id gains one hit and its url
     * is answered; an id without a row (0 included) answers None and
     * changes nothing.
     */
    method Unpack(token: string) returns (url: Option<string>)
      requires Valid()
      modifies this
      ensures Valid()
      ensures byUrl == old(byUrl) && nextId == old(nextId)
      ensures rows == Bumped(old(rows), Base36.Decode(token))
      ensures url == if Base36.Decode(token) in old(rows)
                     then Some(old(rows)[Base36.Decode(token)].url) else None
    {
      var id := Base36.Decode(token);
      BumpKeepsInvariant(rows, byUrl, nextId, id);
      if id in rows {
        url := Some(rows[id].url);
        rows := Bumped(rows, id);
      } else {
        url := None;
      }
    }

    /**
     * `count`: the hits of the row named by the token's id, 0 when there
     * is none; since every row has at least one hit, 0 means exactly that.
     */
    method Count(token: string) returns (n: int)
      requires Valid()
      ensures n == HitsOf(rows, Base36.Decode(token))
      ensures n == 0 <==> Base36.Decode(token) !in rows
    {
      var id := Base36.Decode(token);
      if id in rows {
        n := rows[id].hits;
      } else {
        n := 0;
      }
    }
  }

  /** Packing a url a second time answers what the first successful pack answered. */
  method PackTwice(t: TinyUrl, uri: string, prefix: string) returns (first: Result<string>, second: Result<string>)
    requires t.Valid()
    modifies t
    ensures t.Valid()
    ensures first.Ok? ==> second == first
  {
    first := t.Pack(uri, prefix);
    second := t.Pack(uri, prefix);
  }

  /** Unpacking the token of a successful pack of a valid url gives the url back. */
  method PackThenUnpack(t: TinyUrl, uri: string, prefix: string) returns (packed: Result<string>, url: Option<string>)
    requires t.Valid()
    requires UrlFormat.IsValidUrl(uri) && |uri| >= |prefix|
    modifies t
    ensures t.Valid()
    ensures packed.Ok? ==> url == Some(uri)
  {
    packed := t.Pack(uri, prefix);
    if packed.Ok? {
      var token := packed.value[|prefix|..];
      assert token == Base36.Encode(t.byUrl[uri]);
      Base36.DecodeEncode(t.byUrl[uri]);
      url := t.Unpack(token);
    } else {
      url := None;
    }
  }
}

# turl: a verified model of the TinyURL shortener core

The `TinyURL` model of `turl.rb` keeps a table `turl` of rows
`(id, url, hits, created)` with a unique index on `url`, and offers three
operations to its web front end:

- `pack(uri, prefix)` answers `prefix + id.to_s(36)` for the row holding
  `uri`, creating that row through `add` (which checks the URL format) when
  there is none;
- `unpack(token)` decodes the token with `to_i(36)`, raises that row's
  `hits` by one and answers its url;
- `count(token)` answers that row's `hits`, or 0.

The project has three modules:

- `Base36` (`base36.dfy`): the codec `Integer#to_s(36)` / `String#to_i(36)` as
  pure functions. `Encode` is the shortest numeral and `Decode` reads the
  longest leading run of digits. The lemmas prove the round trip in both
  directions (ids to tokens, and canonical tokens to ids) and that trailing
  non-digits are ignored. They also prove that id 31323561 is the one whose
  token reads `index`.
- `UrlFormat` (`url_format.dfy`): the `validates` block as predicates. Each
  piece of the regular expression is a predicate on the substring it must
  match. The regex's backtracking becomes an existential over split points,
  letters match in either case (`/i`), and `presence_of` rejects the empty url.
  `IsValidUrl`, the check `Add` and `Pack` apply, uses the pattern exactly as
  turl.rb:32 writes it (`MatchesFormatAsWritten`). `MatchesFormat` is the
  pattern with the colon its port part lacks (see "## Findings").
- `Shortener` (`shortener.dfy`): the table as the class `TinyUrl`, with
  fields `rows: map<nat, Entry>`, `byUrl: map<string, nat>` (the unique index)
  and `nextId` (the auto-increment counter). `Add`, `Pack` and `Unpack` are
  methods with `modifies this`; `Count` and `FindByUrl` only read. The object
  invariant `TableInvariant` says four things: ids are positive and below
  `nextId`; every row has at least one hit; `byUrl` and `rows` agree, so urls
  are unique; and every stored url passed the format check. Value-level
  functions `Bumped`, `Unpacked` and `HitsOf` specify the unpack and count
  steps, so that lemmas can relate several calls.
  `PackTwice` and `PackThenUnpack` are client methods. They show what callers
  can derive from the contracts alone: packing is idempotent, and unpacking a
  packed token gives the url back.

Modelling choices and points where the behaviour is fixed by the code:

- **Insert only if valid.** `add` calls `TinyURL.create` before `valid?`
  (turl.rb:41-42). Whether an invalid url then leaves a row depends on the
  persistence library, which is not part of this model. The model checks the
  format first and inserts only valid urls. An invalid url yields `""`, so
  `Pack` answers exactly `prefix`.
- **Duplicate inserts fail.** The unique index (turl.rb:22) rejects a second
  row with the same url. The model's `Add` answers `Err(ConstraintViolation)`
  there; this stands for the database exception, which `pack` does not catch.
- **The `index` token.** When the candidate token is `index`, `pack` calls
  `add` again with the same url (turl.rb:51-52). That url already has a row,
  so the insert is refused and `Pack` answers `Err(ConstraintViolation)`. The
  row created just before, if any, stays. A successful `Pack` therefore never
  answers `prefix + "index"`. The unique index makes a second row for the same
  url impossible, so no fresh id is ever assigned on this path.
- **The empty url is invalid.** The pattern's first alternative `(^$)` accepts
  the empty string, but `presence_of :url` (turl.rb:30) rejects it first, so
  `add` never stores the empty url.
- **Tokens are never refused.** `to_i(36)` reads the leading base-36 digits
  (either case) and yields 0 when there are none. Id 0 never names a row, so
  such a token reads as "no such link": `unpack` answers nil and `count` 0.
- `count` answers 0 both for "no row" and, in principle, for a row with zero
  hits. `Count` proves that every row has at least one hit, so 0 means "no row".
- `after_create` sets `hits` to 1 right after the insert (turl.rb:36-38). The
  model creates the row with `hits == 1` in one step.
- Ids come from SQLite's `INTEGER PRIMARY KEY`. Rows are never deleted, so the
  next id is always one more than the largest id so far. The model keeps this
  as the counter `nextId`, starting at 1. A refused insert does not advance it.

## Model

| member | source | states |
|---|---|---|
| `Base36.Encode` | turl.rb:44 | the token of an id is non-empty, uses only `0-9a-z`, and starts with `0` exactly when the id is 0 (no leading zero for any id ≥ 1) |
| `Base36.LeadingDigits` | turl.rb:57 | the part `to_i(36)` reads is a prefix of the token, all digits, and the longest such prefix |
| `Base36.Decode` | turl.rb:57 | a token that is empty or does not start with a base-36 digit decodes to id 0 |
| `Base36.DecodeEncode` | turl.rb:50-57 | decoding the token of any id gives that id back |
| `Base36.DecodeReadsLeadingDigits` | turl.rb:57 | a token followed by text that does not start with a digit still decodes to its id |
| `Base36.EncodeInjective` | turl.rb:44 | distinct ids get distinct tokens |
| `Base36.EncodeDecode` | turl.rb:57-63 | every canonical numeral (lower-case digits, no leading zero) decodes to a positive id whose token is that numeral |
| `Base36.ValueOfEncode` | turl.rb:44 | the positional value of an id's token is the id |
| `Base36.EncodeValueOf` | turl.rb:57 | the token of a canonical numeral's value is the numeral itself |
| `Base36.IndexIdToken` | turl.rb:51-52 | id 31323561 is encoded as `index`, and `index` decodes to 31323561 |
| `UrlFormat.SchemeLength` | turl.rb:32 | the answer is 7 exactly when the url starts with `http://` and 8 exactly when it starts with `https://` (ignoring case), 0 otherwise |
| `UrlFormat.SchemesExclusive` | turl.rb:32 | no url starts with both `http://` and `https://` |
| `UrlFormat.IsHost` | turl.rb:32 | a host matching `[a-z0-9]+([\-\.][a-z0-9]+)*\.[a-z]{2,5}` has at least four characters |
| `UrlFormat.MatchesFormatAsWritten` | turl.rb:31-32 | the pattern as written; a non-empty match starts with `http://` or `https://` and has at least a label, a dot and two letters after it |
| `UrlFormat.MatchesFormat` | turl.rb:31-32 | the pattern with `:` before the port digits; a non-empty match has the same scheme and minimum shape |
| `UrlFormat.IsValidUrl` | turl.rb:29-34 | the check `Add` and `Pack` use: `presence_of` plus the pattern as written, so a valid url is non-empty, starts with `http://` or `https://`, and has at least 11 characters |
| `UrlFormat.HostCharacters` | turl.rb:32 | a host matched by `[a-z0-9]+([\-\.][a-z0-9]+)*\.[a-z]{2,5}` holds only alphanumerics, `-` and `.` |
| `UrlFormat.NoSplitAtColon` | turl.rb:32 | no split of `host:rest` puts a host before a tail as the regex writes it |
| `UrlFormat.PortRejectedAsWritten` | turl.rb:31-32 | as written, the pattern rejects every `http://host:port/path` |
| `UrlFormat.PortAccepted` | turl.rb:31-32 | with the colon before the port, every `http://host:port/path` with 1-5 port digits matches the corrected pattern |
| `UrlFormat.PathAccepted` | turl.rb:29-34 | every `http://host/path` is a valid url, and matches the corrected pattern too |
| `UrlFormat.DigitsAfterHostAccepted` | turl.rb:31-32 | as written, every `http://host` + up to five digits + `/path` is a valid url |
| `UrlFormat.ExampleDigitSuffixUrl` | turl.rb:31-32 | `http://example.com8080/` is a valid url |
| `UrlFormat.ExampleHost` | turl.rb:32 | `example.com` matches the host part of the pattern |
| `UrlFormat.ExamplePortUrl` | turl.rb:32 | `http://example.com:8080/` is not a valid url, and passes the corrected pattern |
| `Shortener.IndexGivesUniqueUrls` | turl.rb:22 | under the table invariant no two rows share a url, and a url has a row exactly when the unique index holds it |
| `Shortener.InsertKeepsInvariant` | turl.rb:18-22 | inserting a new valid url under the next id uses an id no row has and keeps the table invariant |
| `Shortener.BumpKeepsInvariant` | turl.rb:58 | raising one row's hits keeps the table invariant |
| `Shortener.HitsAfterUnpacks` | turl.rb:56-59 | after k unpacks of an id its row has k more hits and the same url, every other row is unchanged, and an id without a row stays without one |
| `Shortener.CountAfterUnpacks` | turl.rb:62-65 | after k unpacks of a freshly created row (hits 1), count answers 1 + k |
| `Shortener.TinyUrl.constructor` | turl.rb:17-25 | the new table is empty, its invariant holds and the first id to assign is 1 |
| `Shortener.TinyUrl.FindByUrl` | turl.rb:49 | answers an id exactly when a row holds the url, and that row holds it |
| `Shortener.TinyUrl.Add` | turl.rb:40-45 | an invalid url yields `""` and no change; a url that already has a row is refused by the unique index with no change; otherwise exactly one row is added, under the previously unused next id, with the url and hits 1, and its token is answered |
| `Shortener.TinyUrl.Pack` | turl.rb:47-54 | a url shorter than the prefix comes back unchanged with no change to the table; a stored url answers `prefix` + its row's token with no change; a new invalid url answers exactly `prefix` with no change; a new valid url gets one new row; the `index` candidate answers the constraint error; a successful answer is never `prefix + "index"` and, for a valid url, is `prefix` + the token of the url's row |
| `Shortener.TinyUrl.Unpack` | turl.rb:56-60 | the row named by the decoded id gains exactly one hit and its url is answered, every other row and the index are unchanged; an unknown or zero id answers None and changes nothing |
| `Shortener.TinyUrl.Count` | turl.rb:62-65 | answers the hits of the row named by the decoded id, and 0 exactly when there is no such row |
| `Shortener.PackTwice` | turl.rb:47-54 | a second pack of the same url answers what a successful first pack answered |
| `Shortener.PackThenUnpack` | turl.rb:47-60 | unpacking the token of a successful pack of any url the program accepts (at least as long as the prefix) answers that url |

## Findings

| source | as written | input that shows it | evidently intended | confidence | as-written member | corrected member |
|---|---|---|---|---|---|---|
| turl.rb:32 | the port digits `([0-9]{1,5})?` follow the host with no colon, so a tail may start only with a digit or `/` | `http://example.com:8080/` is rejected as an invalid URL | `((:[0-9]{1,5})?\/.*)?`, a colon before the port digits | high; not executed | `UrlFormat.PortRejectedAsWritten` | `UrlFormat.PortAccepted` |

`UrlFormat.MatchesFormatAsWritten` is the pattern as written, and
`IsValidUrl`, and so `Add` and `Pack`, use it: the model keeps the program's
behaviour, rejecting `http://example.com:8080/` and accepting
`http://example.com8080/` (`ExampleDigitSuffixUrl`). `UrlFormat.MatchesFormat`
is the corrected pattern. The two readings agree on urls whose host is
followed by nothing or directly by `/` (`PathAccepted`); they differ on a
host followed by `:port/` (`ExamplePortUrl`) and on a host followed by digits
and `/` (`DigitsAfterHostAccepted`).

## Left out

- `MainController` (turl.rb:75-135): HTTP routing, redirects, the Basic-auth login table and the HTML layout are presentation and I/O.
- The database connection, `create_table`, server start-up (turl.rb:8-9, 69, 137-139), and the secondary indexes on `created` and `hits` (turl.rb:23-24), which only affect performance.
- The `created` timestamp (turl.rb:37): it comes from the clock, an external source, so `Entry` has no such field.
- `t.save!` (turl.rb:43): it saves a row that is already stored, so the model has no step for it.
- Ruby regular-expression details: `^` and `$` anchor lines, not the whole string, and `.` does not match a newline. The model anchors the pattern at both ends of the url and lets `.*` match any character.
- `to_i(36)` leniency: leading whitespace, a sign and underscores between digits are not modelled. A negative id never names a row either way.
- Whether `TinyURL.create` leaves a row for a url that then fails `valid?`: the persistence library is not part of this model. The model inserts only valid urls (see above).
- The exception raised when the unique index refuses an insert: it is modelled as the value `Err(ConstraintViolation)`, and what the web layer does with it is out of scope.
- Concurrency and the atomicity of the hit update belong to the database. The model runs one operation at a time.
- Integer widths: ids and hit counts are unbounded integers. SQLite's 64-bit limit is never reached in the model.

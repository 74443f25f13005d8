/**
 * The URL format check of the `TinyURL` model (turl.rb:29-34): `presence_of`
 * followed by the case-insensitive pattern
 *   empty | (http|https)://host[[digits]/anything]
 * where host is `[a-z0-9]+([\-\.][a-z0-9]+)*\.[a-z]{2,5}`.
 * Each regex piece is a predicate on the substring it must match; the
 * regex's backtracking becomes an existential over the split points.
 */
module UrlFormat {

  /** `[a-z]` under the `i` flag. */
  predicate IsLetter(c: char) {
    'a' <= c <= 'z' || 'A' <= c <= 'Z'
  }

  /** `[0-9]` */
  predicate IsDecimal(c: char) {
    '0' <= c <= '9'
  }

  /** `[a-z0-9]` under the `i` flag. */
  predicate IsAlnum(c: char) {
    IsLetter(c) || IsDecimal(c)
  }

  /** `[\-\.]` */
  predicate IsSeparator(c: char) {
    c == '-' || c == '.'
  }

  predicate AllDecimal(s: string) {
    forall i :: 0 <= i < |s| ==> IsDecimal(s[i])
  }

  function ToLower(c: char): char {
    if 'A' <= c <= 'Z' then (c as int + 32) as char else c
  }

  predicate SameIgnoringCase(s: string, t: string) {
    |s| == |t| && forall i :: 0 <= i < |s| ==> ToLower(s[i]) == ToLower(t[i])
  }

  /**
   * `[a-z0-9]+([\-\.][a-z0-9]+)*`: alphanumerics and separators, starting
   * and ending with an alphanumeric, never two separators in a row.
   */
  predicate IsLabels(s: string) {
    && |s| >= 1
    && IsAlnum(s[0])
    && IsAlnum(s[|s| - 1])
    && (forall i :: 0 <= i < |s| ==> IsAlnum(s[i]) || IsSeparator(s[i]))
    && (forall i :: 1 <= i < |s| ==> IsAlnum(s[i]) || IsAlnum(s[i - 1]))
  }

  /** `[a-z]{2,5}` */
  predicate IsTopLevel(w: string) {
    2 <= |w| <= 5 && forall i :: 0 <= i < |w| ==> IsLetter(w[i])
  }

  /** `[a-z0-9]+([\-\.][a-z0-9]+)*\.[a-z]{2,5}` */
  predicate IsHost(h: string): (ok: bool)
    ensures ok ==> |h| >= 4
  {
    exists j :: 0 <= j < |h| && h[j] == '.' && IsLabels(h[..j]) && IsTopLevel(h[j + 1..])
  }

  /** `(([0-9]{1,5})?\/.*)?` as turl.rb:32 writes it: the port digits follow the host with no colon. */
  predicate IsTailAsWritten(t: string) {
    t == [] || exists k :: 0 <= k <= 5 && k < |t| && t[k] == '/' && AllDecimal(t[..k])
  }

  /** `((:[0-9]{1,5})?\/.*)?`: the tail with the colon a port needs. */
  predicate IsTail(t: string) {
    || t == []
    || t[0] == '/'
    || (t[0] == ':' && exists k :: 2 <= k <= 6 && k < |t| && t[k] == '/' && AllDecimal(t[1..k]))
  }

  /** No url starts with both `http://` and `https://`. */
  lemma SchemesExclusive(u: string)
    ensures !(|u| >= 8 && SameIgnoringCase(u[..7], "http://") && SameIgnoringCase(u[..8], "https://"))
  {
    if |u| >= 8 && SameIgnoringCase(u[..8], "https://") {
      assert ToLower(u[..8][4]) == 's' && u[..8][4] == u[..7][4];
    }
  }

  /** Length of a leading `http://` or `https://`, in any case; 0 if there is neither. */
  function SchemeLength(u: string): (n: nat)
    ensures n <= |u|
    ensures n != 0 ==> SameIgnoringCase(u[..n], if n == 7 then "http://" else "https://")
    ensures |u| >= 7 && SameIgnoringCase(u[..7], "http://") ==> n == 7
    ensures |u| >= 8 && SameIgnoringCase(u[..8], "https://") ==> n == 8
  {
    SchemesExclusive(u);
    if |u| >= 7 && SameIgnoringCase(u[..7], "http://") then 7
    else if |u| >= 8 && SameIgnoringCase(u[..8], "https://") then 8
    else 0
  }

  /**
   * The pattern of turl.rb:32 as written; a non-empty match is a scheme
   * followed by at least a one-character label, a dot and two letters.
   */
  predicate MatchesFormatAsWritten(u: string): (ok: bool)
    ensures ok && u != [] ==> SchemeLength(u) != 0 && |u| >= SchemeLength(u) + 4
  {
    || u == []
    || (SchemeLength(u) != 0 &&
        exists j :: SchemeLength(u) <= j <= |u| && IsHost(u[SchemeLength(u)..j]) && IsTailAsWritten(u[j..]))
  }

  /**
   * The pattern of turl.rb:32 with the port written `:digits`; a non-empty
   * match has the same shortest shape as under the pattern as written.
   */
  predicate MatchesFormat(u: string): (ok: bool)
    ensures ok && u != [] ==> SchemeLength(u) != 0 && |u| >= SchemeLength(u) + 4
  {
    || u == []
    || (SchemeLength(u) != 0 &&
        exists j :: SchemeLength(u) <= j <= |u| && IsHost(u[SchemeLength(u)..j]) && IsTail(u[j..]))
  }

  /**
   * The check `add` applies (turl.rb:29-34): `presence_of :url` rejects the
   * empty url, then the pattern as written must match. A valid url starts
   * with `http://` or `https://` and is at least 11 characters long.
   */
  predicate IsValidUrl(u: string): (ok: bool)
    ensures ok ==> SchemeLength(u) != 0 && |u| >= 11
  {
    u != [] && MatchesFormatAsWritten(u)
  }

  /** Every character of a host is an alphanumeric, a `-` or a `.`. */
  lemma HostCharacters(h: string, i: nat)
    requires i < |h|
    ensures IsHost(h) ==> IsAlnum(h[i]) || IsSeparator(h[i])
  {
    if IsHost(h) {
      var j :| 0 <= j < |h| && h[j] == '.' && IsLabels(h[..j]) && IsTopLevel(h[j + 1..]);
      if i < j {
        assert h[i] == h[..j][i];
      } else if i > j {
        assert h[i] == h[j + 1..][i - j - 1];
      }
    }
  }

  /**
   * No split of `h + ":" + rest` puts a host before a tail as written: a
   * host cannot hold the colon, and that tail cannot start with it.
   */
  lemma NoSplitAtColon(h: string, rest: string, j: nat)
    requires IsHost(h) && j <= |h| + 1 + |rest|
    ensures var r := h + ":" + rest; !(IsHost(r[..j]) && IsTailAsWritten(r[j..]))
  {
    var r := h + ":" + rest;
    var c := |h|;
    assert r[c] == ':';
    if j > c {
      assert r[..j][c] == ':';
      HostCharacters(r[..j], c);
    } else {
      var t := r[j..];
      assert t[c - j] == ':';
      forall k | 0 <= k < c - j
        ensures t[k] != '/'
      {
        assert t[k] == h[j + k];
        HostCharacters(h, j + k);
      }
      forall k | c - j < k <= |t|
        ensures !AllDecimal(t[..k])
      {
        assert t[..k][c - j] == ':';
      }
    }
  }

  /**
   * As written, the pattern rejects every URL whose host is followed by
   * `:port/`, so a URL with an explicit port is never accepted.
   */
  lemma PortRejectedAsWritten(h: string, port: string, path: string)
    requires IsHost(h)
    requires 1 <= |port| <= 5 && AllDecimal(port)
    ensures !MatchesFormatAsWritten("http://" + h + ":" + port + "/" + path)
  {
    var u := "http://" + h + ":" + port + "/" + path;
    var rest := port + "/" + path;
    assert u[..7] == "http://";
    assert SchemeLength(u) == 7;
    forall j | 7 <= j <= |u|
      ensures !(IsHost(u[7..j]) && IsTailAsWritten(u[j..]))
    {
      var r := h + ":" + rest;
      assert u[7..] == r;
      assert u[7..j] == r[..j - 7] && u[j..] == r[j - 7..];
      NoSplitAtColon(h, rest, j - 7);
    }
  }

  /** With the colon restored, a host followed by `:port/path` matches the pattern. */
  lemma PortAccepted(h: string, port: string, path: string)
    requires IsHost(h)
    requires 1 <= |port| <= 5 && AllDecimal(port)
    ensures MatchesFormat("http://" + h + ":" + port + "/" + path)
  {
    var u := "http://" + h + ":" + port + "/" + path;
    assert u[..7] == "http://";
    assert SchemeLength(u) == 7;
    var j := 7 + |h|;
    assert u[7..j] == h;
    var t := u[j..];
    assert t == ":" + port + "/" + path;
    assert t[1..|port| + 1] == port;
    assert t[|port| + 1] == '/';
  }

  /** A host followed directly by `/path` is a valid URL, and passes the corrected pattern too. */
  lemma PathAccepted(h: string, path: string)
    requires IsHost(h)
    ensures IsValidUrl("http://" + h + "/" + path)
    ensures MatchesFormat("http://" + h + "/" + path)
  {
    var u := "http://" + h + "/" + path;
    assert u[..7] == "http://";
    assert SchemeLength(u) == 7;
    var j := 7 + |h|;
    assert u[7..j] == h;
    var t := u[j..];
    assert t[0] == '/' && t[..0] == [];
  }

  /** `example.com` is a host. */
  lemma ExampleHost()
    ensures IsHost("example.com")
  {
    var h := "example.com";
    assert h[7] == '.' && h[..7] == "example" && h[8..] == "com";
    assert IsLabels("example");
  }

  /** `http://example.com:8080/` is not a valid URL, yet passes the pattern with the colon. */
  lemma ExamplePortUrl()
    ensures !IsValidUrl("http://example.com:8080/")
    ensures MatchesFormat("http://example.com:8080/")
  {
    ExampleHost();
    var h, port := "example.com", "8080";
    assert AllDecimal(port);
    assert "http://" + h + ":" + port + "/" + "" == "http://example.com:8080/";
    PortRejectedAsWritten(h, port, "");
    PortAccepted(h, port, "");
  }

  /**
   * As written, up to five digits may follow the top-level label directly:
   * `http://` + host + digits + `/path` is a valid URL.
   */
  lemma DigitsAfterHostAccepted(h: string, digits: string, path: string)
    requires IsHost(h)
    requires |digits| <= 5 && AllDecimal(digits)
    ensures IsValidUrl("http://" + h + digits + "/" + path)
  {
    var u := "http://" + h + digits + "/" + path;
    assert u[..7] == "http://";
    assert SchemeLength(u) == 7;
    var j := 7 + |h|;
    assert u[7..j] == h;
    var t := u[j..];
    assert t == digits + "/" + path;
    assert t[..|digits|] == digits && t[|digits|] == '/';
  }

  /** `http://example.com8080/` is a valid URL. */
  lemma ExampleDigitSuffixUrl()
    ensures IsValidUrl("http://example.com8080/")
  {
    ExampleHost();
    assert "http://example.com8080/" == "http://" + "example.com" + "8080" + "/" + "";
    DigitsAfterHostAccepted("example.com", "8080", "");
  }
}

/** The k-anonymity lookup against the Pwned Passwords range API: only the
    first five hex characters of the SHA-1 digest are sent, and the digest's
    remaining 35 characters are searched for in the "SUFFIX:COUNT" lines of
    the reply. The HTTP GET goes through a `Transport`, which logs it. */
module Hibp {
  import opened Wrappers
  import opened PyStr

  /** The range endpoint, up to the placeholder for the prefix. */
  const RangeUrlBase := "https://api.pwnedpasswords.com/range/"

  const DigestLength := 40
  const PrefixLength := 5

  /** The header map sent when the caller gives none. */
  const DefaultHeaders: map<string, string> := map["User-Agent" := "Krishna_Metron_Security_Tool/1.0"]

  const BadDigestMessage := "sha1 must be 40-hex uppercase string"

  /** What a GET did: a reply with its status code and decoded body, or a
      failure of the transport (connection error, timeout) raised by it. */
  datatype HttpReply = Reply(statusCode: int, text: string) | TransportFailure(reason: string)

  /** What the server answers for a URL and headers. */
  type HttpGet = (string, map<string, string>) -> HttpReply

  /** The exceptions the lookup raises, or lets through from the transport. */
  datatype HibpError =
    | ValueError(message: string)
    | RuntimeError(message: string)
    | TransportError(reason: string)

  /** A GET that was issued: its URL and headers. */
  datatype Request = Request(url: string, headers: map<string, string>)

  /** The HTTP transport: every GET is answered by `respond` and recorded,
      in order, in `log`, so a caller's contract can say exactly which
      requests left the machine. */
  class Transport {
    const respond: HttpGet
    ghost var log: seq<Request>

    constructor (respond: HttpGet)
      ensures this.respond == respond && log == []
    {
      this.respond := respond;
      log := [];
    }

    /** `requests.get(url, headers=headers)`. */
    method Get(url: string, headers: map<string, string>) returns (reply: HttpReply)
      modifies this
      ensures reply == respond(url, headers)
      ensures log == old(log) + [Request(url, headers)]
    {
      reply := respond(url, headers);
      log := log + [Request(url, headers)];
    }
  }

  function StatusMessage(code: int): string {
    "HIBP range API returned status code " + IntToString(code)
  }

  /** The URL of the range holding every digest that starts with `prefix`. */
  function RangeUrl(prefix: string): string {
    RangeUrlBase + prefix
  }

  /** The digest's first five characters, sent to the service, and the other
      35, searched for in its reply; together they are the digest. */
  function SplitDigest(digest: string): (parts: (string, string))
    requires |digest| == DigestLength
    ensures |parts.0| == PrefixLength && |parts.1| == DigestLength - PrefixLength
    ensures parts.0 + parts.1 == digest
  {
    (digest[..PrefixLength], digest[PrefixLength..])
  }

  /** The request depends on the digest's first five characters and on
      nothing else: two digests give the same URL exactly when they share
      their prefix. */
  lemma RangeUrlIffSamePrefix(a: string, b: string)
    requires |a| == DigestLength && |b| == DigestLength
    ensures RangeUrl(a[..PrefixLength]) == RangeUrl(b[..PrefixLength]) <==> a[..PrefixLength] == b[..PrefixLength]
  {
    var ua, ub := RangeUrl(a[..PrefixLength]), RangeUrl(b[..PrefixLength]);
    if ua == ub {
      assert ua[|RangeUrlBase|..] == a[..PrefixLength];
      assert ub[|RangeUrlBase|..] == b[..PrefixLength];
    }
  }

  // ---------------------------------------------------------------- reading the range

  /** A line of the reply names `suffix`: it is not blank, splits on ':' into
      exactly two fields, and its first field, stripped, equals `suffix` up to
      case. */
  predicate LineMatches(line: string, suffix: string)
  {
    && line != []
    && var parts := Split(line, ':');
       |parts| == 2 && Upper(Strip(parts[0])) == Upper(suffix)
  }

  predicate AnyLineMatches(lines: seq<string>, suffix: string) {
    exists i :: 0 <= i < |lines| && LineMatches(lines[i], suffix)
  }

  /** Scans the reply's lines in order, skipping blank lines and lines that do
      not have exactly one ':', and stops at the first whose hash field names
      `suffix`. */
  method ScanRangeLines(lines: seq<string>, suffix: string) returns (found: bool)
    ensures found <==> AnyLineMatches(lines, suffix)
  {
    for i := 0 to |lines|
      invariant forall j :: 0 <= j < i ==> !LineMatches(lines[j], suffix)
    {
      var line := lines[i];
      if line == [] {
        continue;
      }
      var parts := Split(line, ':');
      if |parts| != 2 {
        continue;
      }
      var foundSuffix, count := Strip(parts[0]), Strip(parts[1]);
      if Upper(foundSuffix) == Upper(suffix) {
        assert LineMatches(lines[i], suffix);
        return true;
      }
      assert !LineMatches(line, suffix);
    }
    return false;
  }

  /** Looks the digest up: a digest that is not 40 characters long is refused
      before any request; otherwise exactly one GET goes to the URL of the
      digest's five-character prefix with the caller's headers (or the default
      ones), a status other than 200 is an error, and the answer is whether
      some line of the body names the remaining 35 characters. */
  method CheckSha1InHibp(sha1Upper: string, headers: Option<map<string, string>>, transport: Transport)
    returns (r: Result<bool, HibpError>)
    modifies transport
    ensures |sha1Upper| != DigestLength ==>
              r == Failure(ValueError(BadDigestMessage)) && transport.log == old(transport.log)
    ensures |sha1Upper| == DigestLength ==>
              var request := Request(RangeUrl(sha1Upper[..PrefixLength]),
                                     if headers.Some? then headers.value else DefaultHeaders);
              && transport.log == old(transport.log) + [request]
              && match transport.respond(request.url, request.headers)
                 case TransportFailure(reason) => r == Failure(TransportError(reason))
                 case Reply(code, text) =>
                   if code != 200 then r == Failure(RuntimeError(StatusMessage(code)))
                   else r == Success(AnyLineMatches(SplitLines(text), sha1Upper[PrefixLength..]))
  {
    var sent := if headers.Some? then headers.value else DefaultHeaders;
    if |sha1Upper| != DigestLength {
      return Failure(ValueError(BadDigestMessage));
    }

    var (prefix, suffix) := SplitDigest(sha1Upper);

    var url := RangeUrl(prefix);
    var resp := transport.Get(url, sent);
    if resp.TransportFailure? {
      return Failure(TransportError(resp.reason));
    }
    if resp.statusCode != 200 {
      return Failure(RuntimeError(StatusMessage(resp.statusCode)));
    }

    var body := SplitLines(resp.text);
    var found := ScanRangeLines(body, suffix);
    r := Success(found);
  }

  // ---------------------------------------------------------------- properties of the scan

  /** The comparison is case-insensitive: a line matches exactly when its
      stripped hash field has the suffix's length and agrees with it
      character by character up to letter case. */
  lemma LineMatchesIgnoringCase(line: string, suffix: string)
    ensures LineMatches(line, suffix) <==>
              && line != []
              && |Split(line, ':')| == 2
              && var field := Strip(Split(line, ':')[0]);
                 |field| == |suffix| && forall i :: 0 <= i < |field| ==> SameIgnoringCase(field[i], suffix[i])
  {
    var parts := Split(line, ':');
    if line != [] && |parts| == 2 {
      UpperEqualIff(Strip(parts[0]), suffix);
    }
  }

  /** A matching line has exactly one ':' and a hash field, once stripped,
      of the suffix's length. */
  lemma MatchingLineShape(line: string, suffix: string)
    requires LineMatches(line, suffix)
    ensures Count(line, ':') == 1
    ensures |Strip(Split(line, ':')[0])| == |suffix|
  {
    var field := Strip(Split(line, ':')[0]);
    assert |Upper(field)| == |field| && |Upper(suffix)| == |suffix|;
  }

  /** A line in the service's format, `HASH:COUNT` with optional whitespace
      around the hash, names `suffix` exactly when the hash does up to case;
      the count never matters. */
  lemma EntryMatchesIff(lead: string, hash: string, trail: string, count: string, suffix: string)
    requires AllSpace(lead) && AllSpace(trail)
    requires hash != [] && !IsSpace(hash[0]) && !IsSpace(hash[|hash| - 1])
    requires ':' !in lead + hash + trail && ':' !in count
    ensures LineMatches(lead + hash + trail + ":" + count, suffix) <==> Upper(hash) == Upper(suffix)
  {
    var field := lead + hash + trail;
    var line := field + ":" + count;
    assert line == Join([field, count], ':');
    SplitJoin([field, count], ':');
    StripPadded(lead, hash, trail);
    assert line != [] by { assert line[|field|] == ':'; }
  }

  /** A blank line, or one without exactly one ':', never names a suffix,
      so inserting one anywhere in the body changes nothing. */
  lemma SkippedLineIrrelevant(before: seq<string>, skipped: string, after: seq<string>, suffix: string)
    requires skipped == [] || Count(skipped, ':') != 1
    ensures !LineMatches(skipped, suffix)
    ensures AnyLineMatches(before + [skipped] + after, suffix) <==> AnyLineMatches(before + after, suffix)
  {
    var with, without := before + [skipped] + after, before + after;
    assert forall i :: 0 <= i < |before| ==> with[i] == without[i];
    assert forall i :: |before| <= i < |without| ==> with[i + 1] == without[i];
    if AnyLineMatches(with, suffix) {
      var i :| 0 <= i < |with| && LineMatches(with[i], suffix);
      if i >= |before| {
        assert i != |before|;
        assert LineMatches(without[i - 1], suffix);
      } else {
        assert LineMatches(without[i], suffix);
      }
    }
    if AnyLineMatches(without, suffix) {
      var i :| 0 <= i < |without| && LineMatches(without[i], suffix);
      if i >= |before| {
        assert LineMatches(with[i + 1], suffix);
      } else {
        assert LineMatches(with[i], suffix);
      }
    }
  }

  /** A body that lists entries one per line, each followed by its own
      "\n", "\r" or "\r\n", with an optional last line that has no line
      break, is read back entry by entry: the suffix is found exactly when one
      of the entries, or the last line, names it. */
  lemma ListedEntriesFound(entries: seq<string>, terms: seq<string>, last: string, suffix: string)
    requires |terms| == |entries| && Unambiguous(entries, terms)
    requires NoLineBreak(last)
    ensures AnyLineMatches(SplitLines(Terminated(entries, terms) + last), suffix)
            <==> AnyLineMatches(entries, suffix) || LineMatches(last, suffix)
  {
    var lines := SplitLines(Terminated(entries, terms) + last);
    assert lines == entries + (if last == [] then [] else [last]) by {
      SplitLinesTerminated(entries, terms, last);
    }
    if last == [] {
      assert lines == entries;
    } else {
      AnyLineMatchesAppend(entries, last, suffix);
    }
  }

  /** One more line matches exactly when it or an earlier one does. */
  lemma AnyLineMatchesAppend(lines: seq<string>, line: string, suffix: string)
    ensures AnyLineMatches(lines + [line], suffix) <==> AnyLineMatches(lines, suffix) || LineMatches(line, suffix)
  {
    var all := lines + [line];
    assert forall i :: 0 <= i < |lines| ==> all[i] == lines[i];
    assert all[|lines|] == line;
    if AnyLineMatches(all, suffix) {
      var i :| 0 <= i < |all| && LineMatches(all[i], suffix);
      if i < |lines| {
        assert LineMatches(lines[i], suffix);
      }
    }
  }

}

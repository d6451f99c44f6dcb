/**
  Browser-header authentication setup for YouTube Music: the user pastes the
  raw request headers of a signed-in `music.youtube.com` request; the script
  collects the pasted lines, parses them into a header map (field names are
  case-insensitive, section 5.1 of RFC 9110), checks for a cookie and for a
  YouTube Music origin, and builds the record saved as `browser_auth.json`.
*/
module BrowserAuth {
  import opened Wrappers
  import opened Text
  import opened Dicts

  // ---------------------------------------------------------------------------
  // Header parsing
  // ---------------------------------------------------------------------------

  /** A field name as stored: lower-case and without surrounding whitespace. */
  predicate IsNormalizedName(k: string) {
    IsStripped(k) && Lower(k) == k
  }

  /** The name/value pair one pasted line contributes: split at its first colon. */
  function ParseLine(raw: string): (r: Option<(string, string)>)
    ensures r.None? <==> ':' !in raw
  {
    var line := Strip(raw);
    StripKeeps(raw, ':');
    if ':' in line then
      var (key, value) := SplitOnce(line, ':');
      Some((Lower(Strip(key)), Strip(value)))
    else None
  }

  /** Every parsed name is normalised and every parsed value stripped. */
  lemma ParsedLineNormalized(raw: string)
    requires ParseLine(raw).Some?
    ensures IsNormalizedName(ParseLine(raw).value.0) && IsStripped(ParseLine(raw).value.1)
  {
    var name := Strip(SplitOnce(Strip(raw), ':').0);
    LowerKeepsStripped(name);
    LowerIdempotent(name);
  }

  /** `line` declares field `k` (in whatever letter case). */
  predicate Declares(line: string, k: string) {
    ParseLine(line).Some? && ParseLine(line).value.0 == k
  }

  /** The header map after reading `lines` in order. */
  function HeaderMap(lines: seq<string>): map<string, string> {
    Assign(Entries(ParseLine, lines))
  }

  /** The lines `parse_headers` walks over: the stripped text split at line breaks. */
  function HeaderLines(text: string): seq<string> {
    Split(Strip(text), '\n')
  }

  /** `parse_headers`: strips the text, splits it into lines and reads them in order. */
  method ParseHeaders(text: string) returns (headers: map<string, string>)
    ensures headers == HeaderMap(HeaderLines(text))
  {
    var lines := Split(Strip(text), '\n');
    headers := ParseHeaderLines(lines);
  }

  /** The loop of `parse_headers`: each line with a colon sets one entry of the map. */
  method ParseHeaderLines(lines: seq<string>) returns (headers: map<string, string>)
    ensures headers == HeaderMap(lines)
  {
    headers := map[];
    for i := 0 to |lines|
      invariant headers == HeaderMap(lines[..i])
    {
      var line := Strip(lines[i]);
      if ':' in line {
        var (key, value) := SplitOnce(line, ':');
        HeaderMapAppend(lines, i, Some((Lower(Strip(key)), Strip(value))));
        headers := headers[Lower(Strip(key)) := Strip(value)];
      } else {
        HeaderMapAppend(lines, i, None);
      }
    }
    assert lines[..|lines|] == lines;
  }

  /** One more line on top of the first `i`: it sets the pair it parses to, if any. */
  lemma HeaderMapAppend(lines: seq<string>, i: int, entry: Option<(string, string)>)
    requires 0 <= i < |lines| && entry == ParseLine(lines[i])
    ensures entry.None? ==> HeaderMap(lines[..i + 1]) == HeaderMap(lines[..i])
    ensures entry.Some? ==> HeaderMap(lines[..i + 1]) == HeaderMap(lines[..i])[entry.value.0 := entry.value.1]
  {
    EntriesPrefix(ParseLine, lines, i);
    AssignSnoc(Entries(ParseLine, lines[..i]), entry);
  }

  /** Every stored name is lower-case and stripped, and every stored value is stripped. */
  lemma HeaderMapNormalized(lines: seq<string>, k: string)
    requires k in HeaderMap(lines)
    ensures IsNormalizedName(k) && IsStripped(HeaderMap(lines)[k])
  {
    AssignFrom(Entries(ParseLine, lines), k);
    EntriesAt(ParseLine, lines);
    var j :| 0 <= j < |lines| && Entries(ParseLine, lines)[j] == Some((k, HeaderMap(lines)[k]));
    ParsedLineNormalized(lines[j]);
  }

  /** A line is split at its first colon only: the value keeps every later colon. */
  lemma SplitAtFirstColon(name: string, value: string)
    requires ':' !in name
    requires IsStripped(name + ":" + value)
    ensures ParseLine(name + ":" + value) == Some((Lower(Strip(name)), Strip(value)))
  {
    var line := name + ":" + value;
    assert line[|name|] == ':' && line[..|name|] == name;
    assert IndexOf(line, ':') == Some(|name|);
    assert line[|name| + 1..] == value;
  }

  /** Text without a colon yields no headers at all. */
  lemma NoColonNoHeaders(text: string)
    requires ':' !in text
    ensures HeaderMap(HeaderLines(text)) == map[]
  {
    var lines := HeaderLines(text);
    SplitKeepsAbsent(Strip(text), '\n', ':');
    StripKeeps(text, ':');
    forall k | k in HeaderMap(lines) ensures false {
      NameDeclared(lines, k);
    }
  }

  /** A name is in the map exactly when some line declares it. */
  lemma NameDeclared(lines: seq<string>, k: string)
    ensures k in HeaderMap(lines) <==> exists j :: 0 <= j < |lines| && Declares(lines[j], k)
  {
    AssignKeys(Entries(ParseLine, lines), k);
    EntriesAt(ParseLine, lines);
  }

  /** When a name repeats, in any letter case, the value of its last line wins. */
  lemma LastLineWins(lines: seq<string>, j: int)
    requires 0 <= j < |lines| && ParseLine(lines[j]).Some?
    requires forall j' :: j < j' < |lines| ==> !Declares(lines[j'], ParseLine(lines[j]).value.0)
    ensures ParseLine(lines[j]).value.0 in HeaderMap(lines)
    ensures HeaderMap(lines)[ParseLine(lines[j]).value.0] == ParseLine(lines[j]).value.1
  {
    EntriesAt(ParseLine, lines);
    AssignLastWins(Entries(ParseLine, lines), j);
  }

  // ---------------------------------------------------------------------------
  // Collecting the pasted lines
  // ---------------------------------------------------------------------------

  /** Lines `i - 1` and `i` are both blank: the second of them ends the paste. */
  predicate DoubleBlankAt(input: seq<string>, i: int) {
    1 <= i < |input| && IsBlank(input[i - 1]) && IsBlank(input[i])
  }

  /** How many lines the collector reads when looking for a double blank from line `from` on. */
  function LinesReadFrom(input: seq<string>, from: nat): (n: nat)
    requires 1 <= from
    ensures n <= |input|
    ensures n == |input| || (from <= n - 1 && DoubleBlankAt(input, n - 1))
    ensures forall k :: from <= k < n - 1 ==> !DoubleBlankAt(input, k)
    decreases |input| - from
  {
    if from >= |input| then |input|
    else if DoubleBlankAt(input, from) then from + 1
    else LinesReadFrom(input, from + 1)
  }

  /** How many lines are read before the paste ends: up to the first double blank, else to EOF. */
  function LinesRead(input: seq<string>): (n: nat)
    ensures n <= |input|
    ensures n == |input| || DoubleBlankAt(input, n - 1)
    ensures forall k :: 0 <= k < n - 1 ==> !DoubleBlankAt(input, k)
  {
    LinesReadFrom(input, 1)
  }

  /** The non-blank lines of `lines`, in order. */
  function NonBlank(lines: seq<string>): (r: seq<string>)
    ensures |r| <= |lines|
  {
    if lines == [] then []
    else
      var init := lines[..|lines| - 1];
      var last := lines[|lines| - 1];
      if IsBlank(last) then NonBlank(init) else NonBlank(init) + [last]
  }

  /** Exactly the non-blank lines are kept. */
  lemma {:induction false} NonBlankKeeps(lines: seq<string>, l: string)
    ensures l in NonBlank(lines) <==> l in lines && !IsBlank(l)
  {
    if lines != [] {
      var init, last := lines[..|lines| - 1], lines[|lines| - 1];
      NonBlankKeeps(init, l);
      assert lines == init + [last];
    }
  }

  /** One more line is kept exactly when it is not blank. */
  lemma NonBlankSnoc(lines: seq<string>, line: string)
    ensures NonBlank(lines + [line]) == if IsBlank(line) then NonBlank(lines) else NonBlank(lines) + [line]
  {
    assert (lines + [line])[..|lines|] == lines;
  }

  /** Reading line `n` keeps it exactly when it is not blank. */
  lemma NonBlankPrefix(input: seq<string>, n: int)
    requires 0 <= n < |input|
    ensures NonBlank(input[..n + 1]) == if IsBlank(input[n]) then NonBlank(input[..n]) else NonBlank(input[..n]) + [input[n]]
  {
    assert input[..n + 1][..n] == input[..n];
  }

  /** Dropping blank lines keeps the order: filtering a concatenation filters each part. */
  lemma {:induction false} NonBlankAppend(a: seq<string>, b: seq<string>)
    ensures NonBlank(a + b) == NonBlank(a) + NonBlank(b)
    decreases |b|
  {
    if b == [] {
      assert a + b == a;
    } else {
      var init, last := b[..|b| - 1], b[|b| - 1];
      var tail := if IsBlank(last) then [] else [last];
      assert NonBlank(a + b) == NonBlank(a + init) + tail by {
        assert a + b == (a + init) + [last];
        NonBlankSnoc(a + init, last);
      }
      assert NonBlank(b) == NonBlank(init) + tail by {
        assert b == init + [last];
        NonBlankSnoc(init, last);
      }
      NonBlankAppend(a, init);
      ConcatAssoc(NonBlank(a), NonBlank(init), tail);
    }
  }

  /**
    The input loop: reads lines until two consecutive blank lines or EOF, keeping the
    non-blank ones; a non-blank line resets the blank counter.
  */
  method CollectPastedLines(input: seq<string>) returns (lines: seq<string>, read: nat)
    ensures read == LinesRead(input)
    ensures lines == NonBlank(input[..read])
  {
    lines := [];
    var emptyCount := 0;
    read := 0;
    while read < |input|
      invariant read <= |input|
      invariant emptyCount == (if read > 0 && IsBlank(input[read - 1]) then 1 else 0)
      invariant forall k :: 0 <= k < read ==> !DoubleBlankAt(input, k)
      invariant lines == NonBlank(input[..read])
    {
      var line := input[read];
      PasteStep(input, read, emptyCount);
      read := read + 1;
      if Strip(line) == "" {
        emptyCount := emptyCount + 1;
        if emptyCount >= 2 {
          return;
        }
      } else {
        emptyCount := 0;
        lines := lines + [line];
      }
    }
    FirstDoubleBlank(input, read);
  }

  /** One turn of the collector's loop: reading line `n` either ends the paste or keeps the invariant. */
  lemma PasteStep(input: seq<string>, n: nat, blanks: int)
    requires n < |input|
    requires blanks == (if n > 0 && IsBlank(input[n - 1]) then 1 else 0)
    requires forall k :: 0 <= k < n ==> !DoubleBlankAt(input, k)
    ensures IsBlank(input[n]) && blanks + 1 >= 2 ==> LinesRead(input) == n + 1
    ensures !(IsBlank(input[n]) && blanks + 1 >= 2) ==> forall k :: 0 <= k < n + 1 ==> !DoubleBlankAt(input, k)
    ensures NonBlank(input[..n + 1]) == if IsBlank(input[n]) then NonBlank(input[..n]) else NonBlank(input[..n]) + [input[n]]
  {
    NonBlankPrefix(input, n);
    if IsBlank(input[n]) && blanks + 1 >= 2 {
      assert DoubleBlankAt(input, n);
      FirstDoubleBlank(input, n + 1);
    }
  }

  /** The collector stops at the first double blank: any stopping point with none before it is that one. */
  lemma FirstDoubleBlank(input: seq<string>, n: nat)
    requires n <= |input|
    requires n == |input| || DoubleBlankAt(input, n - 1)
    requires forall k :: 0 <= k < n - 1 ==> !DoubleBlankAt(input, k)
    ensures LinesRead(input) == n
  {
  }

  /** The text handed to the parser: the kept lines joined with line breaks. */
  function PastedText(input: seq<string>): string {
    Join(NonBlank(input[..LinesRead(input)]), '\n')
  }

  /** The length gate: empty text or fewer than 100 characters is rejected before parsing. */
  predicate LongEnough(text: string) {
    !(text == "" || |text| < 100)
  }

  // ---------------------------------------------------------------------------
  // The auth record
  // ---------------------------------------------------------------------------

  /** The defaulted fields of the auth record with their default values. */
  const Defaults: map<string, string> := map[
    "accept" := "*/*",
    "accept-language" := "en-US,en;q=0.9",
    "content-type" := "application/json",
    "user-agent" := "Mozilla/5.0 (Windows NT 10.0; Win64; x64) AppleWebKit/537.36",
    "x-goog-authuser" := "0",
    "origin" := "https://music.youtube.com"
  ]

  /** The seven fields every auth record has. */
  const BaseFields: set<string> := Defaults.Keys + {"cookie"}

  /** Fields copied only when they were pasted. */
  const OptionalFields: set<string> := {"authorization", "x-goog-visitor-id", "referer"}

  /**
    `auth` is a record built from `headers` after copying the optional fields in `copied`: the
    base fields, the defaulted ones taking the pasted value when there is one, the cookie
    verbatim, and each copied field exactly when it was pasted.
  */
  predicate IsRecordFor(auth: map<string, string>, headers: map<string, string>, copied: set<string>)
    requires "cookie" in headers
  {
    && auth.Keys == BaseFields + (copied * headers.Keys)
    && auth["cookie"] == headers["cookie"]
    && (forall k :: k in Defaults ==> auth[k] == Get(headers, k, Defaults[k]))
    && (forall k :: k in copied && k in headers ==> auth[k] == headers[k])
  }

  /** The finished record: every optional field copied. */
  predicate IsAuthRecordFor(auth: map<string, string>, headers: map<string, string>)
    requires "cookie" in headers
  {
    IsRecordFor(auth, headers, OptionalFields)
  }

  /** Builds `auth_data`: the base record, then the optional fields added one by one. */
  method BuildAuthData(headers: map<string, string>) returns (auth: map<string, string>)
    requires "cookie" in headers
    ensures IsAuthRecordFor(auth, headers)
  {
    auth := BaseRecord(headers);
    BaseRecordIsBase(headers);
    CopyIfPasted(auth, headers, {}, "authorization", {"authorization"});
    if "authorization" in headers {
      auth := auth["authorization" := headers["authorization"]];
    }
    CopyIfPasted(auth, headers, {"authorization"}, "x-goog-visitor-id", {"authorization", "x-goog-visitor-id"});
    if "x-goog-visitor-id" in headers {
      auth := auth["x-goog-visitor-id" := headers["x-goog-visitor-id"]];
    }
    CopyIfPasted(auth, headers, {"authorization", "x-goog-visitor-id"}, "referer", OptionalFields);
    if "referer" in headers {
      auth := auth["referer" := headers["referer"]];
    }
  }

  /** Copying one more optional field, if it was pasted, keeps the record well formed. */
  lemma CopyIfPasted(auth: map<string, string>, headers: map<string, string>, copied: set<string>,
                     field: string, next: set<string>)
    requires "cookie" in headers && IsRecordFor(auth, headers, copied)
    requires field in OptionalFields && next == copied + {field}
    ensures IsRecordFor(if field in headers then auth[field := headers[field]] else auth, headers, next)
  {
    FieldGroupsDisjoint();
  }

  /** No optional field is a base field. */
  lemma FieldGroupsDisjoint()
    ensures BaseFields * OptionalFields == {}
  {
  }

  /** The dictionary literal of `auth_data`: the cookie and the six defaulted fields. */
  function BaseRecord(headers: map<string, string>): map<string, string>
    requires "cookie" in headers
  {
    map[
      "accept" := Get(headers, "accept", "*/*"),
      "accept-language" := Get(headers, "accept-language", "en-US,en;q=0.9"),
      "content-type" := Get(headers, "content-type", "application/json"),
      "cookie" := headers["cookie"],
      "user-agent" := Get(headers, "user-agent", "Mozilla/5.0 (Windows NT 10.0; Win64; x64) AppleWebKit/537.36"),
      "x-goog-authuser" := Get(headers, "x-goog-authuser", "0"),
      "origin" := Get(headers, "origin", "https://music.youtube.com")
    ]
  }

  /** The literal is the base record: exactly the base fields, the cookie verbatim, the defaults where nothing was pasted. */
  lemma BaseRecordIsBase(headers: map<string, string>)
    requires "cookie" in headers
    ensures IsRecordFor(BaseRecord(headers), headers, {})
  {
    BaseRecordKeys(headers);
    BaseRecordDefaults(headers);
  }

  lemma BaseRecordKeys(headers: map<string, string>)
    requires "cookie" in headers
    ensures BaseRecord(headers).Keys == BaseFields
    ensures BaseRecord(headers)["cookie"] == headers["cookie"]
  {
    var names := {"accept", "accept-language", "content-type", "cookie", "user-agent", "x-goog-authuser", "origin"};
    assert BaseRecord(headers).Keys == names;
    assert BaseFields == names by {
      assert Defaults.Keys == {"accept", "accept-language", "content-type", "user-agent", "x-goog-authuser", "origin"};
    }
  }

  lemma BaseRecordDefaults(headers: map<string, string>)
    requires "cookie" in headers
    ensures forall k :: k in Defaults ==> k in BaseRecord(headers) && BaseRecord(headers)[k] == Get(headers, k, Defaults[k])
  {
  }

  /** The "not YouTube Music" warning: neither origin nor referer mentions `music.youtube.com`. */
  predicate LooksForeign(headers: map<string, string>) {
    var origin := if "origin" in headers then headers["origin"] else "";
    var referer := if "referer" in headers then headers["referer"] else "";
    !Contains(origin, "music.youtube.com") && !Contains(referer, "music.youtube.com")
  }

  // ---------------------------------------------------------------------------
  // The whole script
  // ---------------------------------------------------------------------------

  datatype SetupOutcome =
    | TooShort                          // pasted text empty or under 100 characters
    | NoCookie                          // no cookie among the parsed headers
    | Declined                          // warned about the origin and the user did not answer y
    | Saved(auth: map<string, string>)  // the record written to browser_auth.json

  /**
    `main`, up to writing `browser_auth.json`: `input` is what the user pastes (up to EOF) and
    `answer` the reply to "Continue anyway?", read only when the origin warning fires.
  */
  method RunSetup(input: seq<string>, answer: string) returns (outcome: SetupOutcome, warned: bool)
    ensures var text := PastedText(input);
            var headers := HeaderMap(HeaderLines(text));
            && (outcome == TooShort <==> !LongEnough(text))
            && (outcome == NoCookie <==> LongEnough(text) && "cookie" !in headers)
            && (warned <==> LongEnough(text) && "cookie" in headers && LooksForeign(headers))
            && (outcome == Declined <==> warned && Lower(Strip(answer)) != "y")
            && (outcome.Saved? ==> "cookie" in headers && IsAuthRecordFor(outcome.auth, headers))
  {
    warned := false;
    var lines, _ := CollectPastedLines(input);
    var text := Join(lines, '\n');
    if text == "" || |text| < 100 {
      return TooShort, false;
    }
    var headers := ParseHeaders(text);
    if "cookie" !in headers {
      return NoCookie, false;
    }
    if LooksForeign(headers) {
      warned := true;
      var choice := Lower(Strip(answer));
      if choice != "y" {
        return Declined, true;
      }
    }
    var auth := BuildAuthData(headers);
    outcome := Saved(auth);
  }
}

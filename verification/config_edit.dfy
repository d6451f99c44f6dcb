/**
  The two edits the app menu makes to the text of `config.py`: the credential
  substitution of `setup_spotify` and the mapping insertion of `add_playlist_mapping`.
  Reading and writing the file are not modelled; the text is a parameter and the new
  text, if any, is the result.
*/
module ConfigEdit {
  import opened Wrappers
  import opened Text

  // ---------------------------------------------------------------------------
  // Credential substitution: re.sub(PREFIX + '[^"]*"', PREFIX + value + '"', text)
  // ---------------------------------------------------------------------------

  const IdPrefix: string := "SPOTIFY_CLIENT_ID = \""
  const SecretPrefix: string := "SPOTIFY_CLIENT_SECRET = \""

  /** An assignment prefix as in the two patterns: it ends in the opening quote and has no other quote. */
  predicate IsAssignmentPrefix(p: string) {
    |p| >= 1 && p[|p| - 1] == '"' && '"' !in p[..|p| - 1]
  }

  /** The pattern matches at the start of `text`: the prefix, then a closing quote somewhere after it. */
  predicate MatchesAtStart(text: string, prefix: string) {
    IsPrefix(prefix, text) && '"' in text[|prefix|..]
  }

  /** Where a match at the start of `text` ends: just after the first quote following the prefix. */
  function MatchEnd(text: string, prefix: string): (n: nat)
    requires MatchesAtStart(text, prefix)
    ensures |prefix| < n <= |text| && text[n - 1] == '"' && '"' !in text[|prefix|..n - 1]
  {
    var q := IndexOf(text[|prefix|..], '"').value;
    assert text[|prefix|..][..q] == text[|prefix|..|prefix| + q];
    |prefix| + q + 1
  }

  /**
    `re.sub` with the pattern `prefix[^"]*"` and the replacement `prefix + value + '"'`:
    the text is scanned from the left; a match is replaced and scanning resumes after it,
    anywhere else one character is copied.
  */
  function ReplaceQuoted(text: string, prefix: string, value: string): string
    requires prefix != []
    decreases |text|
  {
    if MatchesAtStart(text, prefix) then
      prefix + value + "\"" + ReplaceQuoted(text[MatchEnd(text, prefix)..], prefix, value)
    else if text == [] then
      []
    else
      [text[0]] + ReplaceQuoted(text[1..], prefix, value)
  }

  /** Text in which the prefix never occurs is left exactly as it was. */
  lemma {:induction false} NoAssignmentUnchanged(text: string, prefix: string, value: string)
    requires prefix != []
    requires forall k :: !OccursAt(text, prefix, k)
    ensures ReplaceQuoted(text, prefix, value) == text
    decreases |text|
  {
    assert !OccursAt(text, prefix, 0);
    if text != [] {
      NoneAfter(text, prefix, 1);
      NoAssignmentUnchanged(text[1..], prefix, value);
    }
  }

  /** Up to the first occurrence of the prefix the text is copied unchanged. */
  lemma {:induction false} CopiedUpTo(text: string, prefix: string, value: string, i: nat)
    requires prefix != [] && i <= |text|
    requires forall k :: 0 <= k < i ==> !OccursAt(text, prefix, k)
    ensures ReplaceQuoted(text, prefix, value) == text[..i] + ReplaceQuoted(text[i..], prefix, value)
  {
    if i > 0 {
      PrefixAtStart(prefix, text);
      CopyStep(text, prefix, value);
      NoneBefore(text, prefix, i);
      CopiedUpTo(text[1..], prefix, value, i - 1);
      assert text[1..][i - 1..] == text[i..];
      ConsPrefix(text, i, ReplaceQuoted(text, prefix, value), ReplaceQuoted(text[1..], prefix, value), ReplaceQuoted(text[i..], prefix, value));
    }
  }

  /**
    With a single assignment `prefix"current"` in the text, exactly the current value between the
    quotes is replaced and everything before and after it is kept.
  */
  lemma SingleAssignmentReplaced(before: string, current: string, after: string, prefix: string, value: string)
    requires IsAssignmentPrefix(prefix) && '"' !in current
    requires forall k :: k != |before| ==> !OccursAt(before + prefix + current + "\"" + after, prefix, k)
    ensures ReplaceQuoted(before + prefix + current + "\"" + after, prefix, value) == before + prefix + value + "\"" + after
  {
    var text := before + prefix + current + "\"" + after;
    var i := |before|;
    var n := |prefix| + |current| + 1;
    assert text[i..] == prefix + current + "\"" + after;
    assert text[..i] == before;
    assert text[i + n..] == after;
    MatchEndAfter(prefix, current, after);
    CopiedUpTo(text, prefix, value, i);
    ReplaceAtMatch(text, prefix, value, i);
    RestUnchanged(text, prefix, value, i + n);
    Combine(text, prefix, value, i, n);
  }

  /**
    Every assignment is replaced in turn: at the first `prefix"current"` of the text, the text before
    it is kept, exactly its quoted value is replaced, and the scan goes on over the rest, which may
    hold further assignments.
  */
  lemma EachAssignmentReplaced(before: string, current: string, after: string, prefix: string, value: string)
    requires IsAssignmentPrefix(prefix) && '"' !in current
    requires forall k :: 0 <= k < |before| ==> !OccursAt(before + prefix + current + "\"" + after, prefix, k)
    ensures ReplaceQuoted(before + prefix + current + "\"" + after, prefix, value)
            == before + prefix + value + "\"" + ReplaceQuoted(after, prefix, value)
  {
    var text := before + prefix + current + "\"" + after;
    var i := |before|;
    var n := |prefix| + |current| + 1;
    assert text[i..] == prefix + current + "\"" + after;
    assert text[..i] == before;
    assert text[i + n..] == after;
    MatchEndAfter(prefix, current, after);
    CopiedUpTo(text, prefix, value, i);
    ReplaceAtMatch(text, prefix, value, i);
    Regroup(ReplaceQuoted(text, prefix, value), ReplaceQuoted(text[i..], prefix, value),
            before, prefix, value, ReplaceQuoted(text[i + n..], prefix, value), ReplaceQuoted(after, prefix, value));
  }

  /** The match of `prefix"current"` ends just after the quote that closes `current`. */
  lemma MatchEndAfter(prefix: string, current: string, after: string)
    requires IsAssignmentPrefix(prefix) && '"' !in current
    ensures MatchesAtStart(prefix + current + "\"" + after, prefix)
    ensures MatchEnd(prefix + current + "\"" + after, prefix) == |prefix| + |current| + 1
  {
    var s := prefix + current + "\"" + after;
    assert s[..|prefix|] == prefix;
    assert s[|prefix|..] == current + "\"" + after;
    assert (current + "\"" + after)[|current|] == '"';
    IndexOfAfter(current, after);
  }

  lemma IndexOfAfter(current: string, after: string)
    requires '"' !in current
    ensures IndexOf(current + "\"" + after, '"') == Some(|current|)
  {
    var s := current + "\"" + after;
    assert s[|current|] == '"' && s[..|current|] == current;
  }

  /** Puts the three steps of the substitution together. */
  lemma Combine(text: string, prefix: string, value: string, i: nat, n: nat)
    requires prefix != [] && i + n <= |text|
    requires ReplaceQuoted(text, prefix, value) == text[..i] + ReplaceQuoted(text[i..], prefix, value)
    requires ReplaceQuoted(text[i..], prefix, value) == prefix + value + "\"" + ReplaceQuoted(text[i + n..], prefix, value)
    requires ReplaceQuoted(text[i + n..], prefix, value) == text[i + n..]
    ensures ReplaceQuoted(text, prefix, value) == text[..i] + prefix + value + "\"" + text[i + n..]
  {
    Regroup(ReplaceQuoted(text, prefix, value), ReplaceQuoted(text[i..], prefix, value),
            text[..i], prefix, value, ReplaceQuoted(text[i + n..], prefix, value), text[i + n..]);
  }

  /** Re-associates the pieces of a replaced assignment. */
  lemma Regroup(x: string, y: string, before: string, prefix: string, value: string, z: string, after: string)
    requires x == before + y && y == prefix + value + "\"" + z && z == after
    ensures x == before + prefix + value + "\"" + after
  {
  }

  /** After the only occurrence the text is copied as it is. */
  lemma RestUnchanged(text: string, prefix: string, value: string, j: nat)
    requires prefix != [] && j <= |text|
    requires forall k :: k >= j ==> !OccursAt(text, prefix, k)
    ensures ReplaceQuoted(text[j..], prefix, value) == text[j..]
  {
    NoneAfter(text, prefix, j);
    NoAssignmentUnchanged(text[j..], prefix, value);
  }

  /** A match at position `i` is replaced and the scan resumes after it. */
  lemma ReplaceAtMatch(text: string, prefix: string, value: string, i: nat)
    requires prefix != [] && i <= |text| && MatchesAtStart(text[i..], prefix)
    ensures ReplaceQuoted(text[i..], prefix, value)
            == prefix + value + "\"" + ReplaceQuoted(text[i + MatchEnd(text[i..], prefix)..], prefix, value)
  {
    assert text[i..][MatchEnd(text[i..], prefix)..] == text[i + MatchEnd(text[i..], prefix)..];
  }

  /** A suffix holds no occurrence that the whole text does not hold. */
  lemma NoneAfter(text: string, prefix: string, j: nat)
    requires j <= |text|
    requires forall k :: k >= j ==> !OccursAt(text, prefix, k)
    ensures forall k :: !OccursAt(text[j..], prefix, k)
  {
    forall k | OccursAt(text[j..], prefix, k) ensures false {
      assert text[j..][k..k + |prefix|] == text[j + k..j + k + |prefix|];
      assert OccursAt(text, prefix, j + k);
    }
  }

  /** Dropping the first character moves every earlier non-occurrence one place back. */
  lemma NoneBefore(text: string, prefix: string, i: nat)
    requires |text| > 0
    requires forall k :: 0 <= k < i ==> !OccursAt(text, prefix, k)
    ensures forall k :: 0 <= k < i - 1 ==> !OccursAt(text[1..], prefix, k)
  {
    forall k | 0 <= k < i - 1 ensures !OccursAt(text[1..], prefix, k) {
      OccursShift(text, prefix, k);
    }
  }

  /** The number of quotes in a text. */
  function Quotes(s: string): nat {
    multiset(s)['"']
  }

  /** The substitution adds no quote and removes none that it does not put back: the number of quotes is kept. */
  lemma {:induction false} QuotesKept(text: string, prefix: string, value: string)
    requires prefix != [] && '"' !in value
    ensures Quotes(ReplaceQuoted(text, prefix, value)) == Quotes(text)
    ensures '"' in ReplaceQuoted(text, prefix, value) <==> '"' in text
    decreases |text|
  {
    if MatchesAtStart(text, prefix) {
      QuotesKept(text[MatchEnd(text, prefix)..], prefix, value);
      MatchQuotes(text, prefix, value);
    } else if text != [] {
      QuotesKept(text[1..], prefix, value);
      CopyQuotes(text, prefix, value);
    }
    QuotesPresent(ReplaceQuoted(text, prefix, value));
    QuotesPresent(text);
  }

  /** A match and its replacement both hold the prefix's quotes and one closing quote before the rest. */
  lemma MatchQuotes(text: string, prefix: string, value: string)
    requires prefix != [] && '"' !in value && MatchesAtStart(text, prefix)
    ensures var n := MatchEnd(text, prefix);
            && Quotes(text) == Quotes(prefix) + 1 + Quotes(text[n..])
            && Quotes(ReplaceQuoted(text, prefix, value))
               == Quotes(prefix) + 1 + Quotes(ReplaceQuoted(text[n..], prefix, value))
  {
    var n := MatchEnd(text, prefix);
    assert Quotes(text) == Quotes(prefix) + 1 + Quotes(text[n..]) by {
      assert text == prefix + text[|prefix|..n - 1] + "\"" + text[n..] by {
        assert text[..|prefix|] == prefix;
      }
      QuotesOfPieces(prefix, text[|prefix|..n - 1], text[n..]);
    }
    var rest := ReplaceQuoted(text[n..], prefix, value);
    assert Quotes(ReplaceQuoted(text, prefix, value)) == Quotes(prefix) + 1 + Quotes(rest) by {
      assert ReplaceQuoted(text, prefix, value) == prefix + value + "\"" + rest;
      QuotesOfPieces(prefix, value, rest);
    }
  }

  /** A copied character adds its own quote, if it is one, to both sides. */
  lemma CopyQuotes(text: string, prefix: string, value: string)
    requires prefix != [] && text != [] && !MatchesAtStart(text, prefix)
    ensures Quotes(ReplaceQuoted(text, prefix, value)) - Quotes(ReplaceQuoted(text[1..], prefix, value))
            == Quotes(text) - Quotes(text[1..])
  {
    assert text == [text[0]] + text[1..];
  }

  /** Quotes of a replaced or matched assignment: the prefix's, none in the middle, the closing one, the rest's. */
  lemma QuotesOfPieces(prefix: string, middle: string, rest: string)
    requires '"' !in middle
    ensures Quotes(prefix + middle + "\"" + rest) == Quotes(prefix) + 1 + Quotes(rest)
  {
    assert '"' !in multiset(middle);
  }

  /** A text holds a quote exactly when it holds a positive number of them. */
  lemma QuotesPresent(s: string)
    ensures '"' in s <==> Quotes(s) > 0
  {
  }

  /** Text with a single quote holds no match and is left unchanged. */
  lemma {:induction false} SingleQuoteUnchanged(text: string, prefix: string, value: string, f: nat)
    requires IsAssignmentPrefix(prefix)
    requires f < |text| && text[f] == '"' && '"' !in text[..f] && '"' !in text[f + 1..]
    ensures ReplaceQuoted(text, prefix, value) == text
    decreases |text|
  {
    if MatchesAtStart(text, prefix) {
      assert false;
    } else if text != [] {
      if f == 0 {
        assert forall k :: !OccursAt(text[1..], prefix, k);
        NoAssignmentUnchanged(text[1..], prefix, value);
      } else {
        assert text[1..][f - 1] == '"';
        assert text[1..][f..] == text[f + 1..];
        assert text[1..][..f - 1] == text[1..f];
        assert forall x :: x in text[1..f] ==> x in text[..f];
        SingleQuoteUnchanged(text[1..], prefix, value, f - 1);
      }
      assert text == [text[0]] + text[1..];
    }
  }

  /**
    An assignment whose value is never closed is left as it is, whatever comes before it,
    provided the prefix does not occur earlier.
  */
  lemma UnterminatedAssignmentKept(before: string, rest: string, prefix: string, value: string)
    requires IsAssignmentPrefix(prefix) && '"' !in rest
    requires forall k :: 0 <= k < |before| ==> !OccursAt(before + prefix + rest, prefix, k)
    ensures ReplaceQuoted(before + prefix + rest, prefix, value) == before + prefix + rest
  {
    var text := before + prefix + rest;
    var tail := prefix + rest;
    assert text[..|before|] == before && text[|before|..] == tail;
    CopiedUpTo(text, prefix, value, |before|);
    var f := |prefix| - 1;
    assert tail[..f] == prefix[..f] && tail[f + 1..] == rest;
    SingleQuoteUnchanged(tail, prefix, value, f);
  }

  /** Without a match at the start, the first character is copied and the scan moves on. */
  lemma CopyStep(s: string, prefix: string, value: string)
    requires prefix != [] && s != [] && !MatchesAtStart(s, prefix)
    ensures ReplaceQuoted(s, prefix, value) == [s[0]] + ReplaceQuoted(s[1..], prefix, value)
  {
  }

  /** The substitution keeps the text up to and including its first quote. */
  lemma {:induction false} PrefixKept(s: string, prefix: string, value: string, f: nat)
    requires IsAssignmentPrefix(prefix)
    requires f < |s| && s[f] == '"' && '"' !in s[..f]
    ensures f < |ReplaceQuoted(s, prefix, value)| && ReplaceQuoted(s, prefix, value)[..f + 1] == s[..f + 1]
    decreases |s|
  {
    var r := ReplaceQuoted(s, prefix, value);
    if MatchesAtStart(s, prefix) {
      assert s[..|prefix|] == prefix;
      FirstQuoteOfPrefix(s, prefix, f);
      assert r[..|prefix|] == prefix;
    } else {
      CopyStep(s, prefix, value);
      if f > 0 {
        var y := ReplaceQuoted(s[1..], prefix, value);
        assert f <= |y| && y[..f] == s[1..][..f] by {
          assert s[1..][f - 1] == '"';
          assert s[1..][..f - 1] == s[1..f];
          assert forall x :: x in s[1..f] ==> x in s[..f];
          PrefixKept(s[1..], prefix, value, f - 1);
        }
        ConsTake(s, y, r, f);
      }
    }
  }

  /** In a text starting with an assignment prefix, the first quote is the one ending the prefix. */
  lemma FirstQuoteOfPrefix(s: string, prefix: string, f: nat)
    requires IsAssignmentPrefix(prefix) && IsPrefix(prefix, s)
    requires f < |s| && s[f] == '"' && '"' !in s[..f]
    ensures f == |prefix| - 1
  {
    var p := |prefix| - 1;
    assert s[p] == prefix[p];
  }

  /** The prefix holds a quote, so text without quotes holds no occurrence of it. */
  lemma QuoteFreeNoOccurrence(s: string, prefix: string)
    requires IsAssignmentPrefix(prefix) && '"' !in s
    ensures forall k :: !OccursAt(s, prefix, k)
  {
    forall k ensures !OccursAt(s, prefix, k) {
      if 0 <= k && k + |prefix| <= |s| {
        assert s[k + |prefix| - 1] == s[k..k + |prefix|][|prefix| - 1];
        assert s[k + |prefix| - 1] in s;
      }
    }
  }

  /** Where the text does not start with a match, neither does its substitution. */
  lemma NoMatchStays(t: string, prefix: string, value: string)
    requires IsAssignmentPrefix(prefix) && !MatchesAtStart(t, prefix)
    ensures !MatchesAtStart(ReplaceQuoted(t, prefix, value), prefix)
  {
    var u := ReplaceQuoted(t, prefix, value);
    if '"' in t {
      var f := IndexOf(t, '"').value;
      PrefixKept(t, prefix, value, f);
      if MatchesAtStart(u, prefix) {
        FirstQuoteAtEnd(t, u, prefix, f);
        SingleQuoteUnchanged(t, prefix, value, f);
        assert false;
      }
    } else {
      QuoteFreeNoOccurrence(t, prefix);
      NoAssignmentUnchanged(t, prefix, value);
    }
  }

  /**
    If `u` agrees with `t` up to the first quote of `t` and starts with the prefix, then so
    does `t`; when `t` holds no match that quote is its only one.
  */
  lemma FirstQuoteAtEnd(t: string, u: string, prefix: string, f: nat)
    requires IsAssignmentPrefix(prefix) && !MatchesAtStart(t, prefix)
    requires f < |t| && t[f] == '"' && '"' !in t[..f]
    requires f < |u| && u[..f + 1] == t[..f + 1]
    requires IsPrefix(prefix, u)
    ensures '"' !in t[f + 1..]
  {
    var p := |prefix| - 1;
    assert u[..|prefix|] == prefix;
    assert u[p] == '"';
    assert u[f] == t[f];
    assert t[..|prefix|] == u[..|prefix|];
    assert t[|prefix|..] == t[f + 1..];
  }

  /**
    Substituting twice is substituting once with the second value: running the credential
    edit again overwrites the earlier value completely.
  */
  lemma {:induction false} LastSubstitutionWins(t: string, prefix: string, v: string, w: string)
    requires IsAssignmentPrefix(prefix) && '"' !in v
    ensures ReplaceQuoted(ReplaceQuoted(t, prefix, v), prefix, w) == ReplaceQuoted(t, prefix, w)
    decreases |t|
  {
    var u := ReplaceQuoted(t, prefix, v);
    if MatchesAtStart(t, prefix) {
      var n := MatchEnd(t, prefix);
      var r := ReplaceQuoted(t[n..], prefix, v);
      assert u == prefix + v + "\"" + r;
      MatchEndAfter(prefix, v, r);
      assert u[|prefix| + |v| + 1..] == r;
      LastSubstitutionWins(t[n..], prefix, v, w);
    } else if t != [] {
      NoMatchStays(t, prefix, v);
      CopyStep(t, prefix, v);
      assert u[0] == t[0] && u[1..] == ReplaceQuoted(t[1..], prefix, v);
      CopyStep(u, prefix, w);
      LastSubstitutionWins(t[1..], prefix, v, w);
    }
  }
  /** What `setup_spotify` ends with, before the connection test. */
  datatype SpotifyOutcome = Cancelled | Saved(content: string)

  /**
    `setup_spotify`: both answers are stripped; an empty one cancels, otherwise the id and
    then the secret assignment of the configuration text are rewritten.
  */
  function SpotifySetup(idInput: string, secretInput: string, content: string): (r: SpotifyOutcome)
    requires '\\' !in Strip(idInput) && '\\' !in Strip(secretInput)
    ensures r == Cancelled <==> Strip(idInput) == "" || Strip(secretInput) == ""
  {
    var clientId := Strip(idInput);
    if clientId == "" then Cancelled
    else
      var clientSecret := Strip(secretInput);
      if clientSecret == "" then Cancelled
      else
        var withId := ReplaceQuoted(content, IdPrefix, clientId);
        Saved(ReplaceQuoted(withId, SecretPrefix, clientSecret))
  }

  /**
    On a configuration holding one id assignment and, after the id is written, one secret
    assignment, the setup writes exactly the two new values and keeps everything else.
  */
  lemma CredentialsWritten(a: string, x: string, m: string, y: string, c: string, idInput: string, secretInput: string)
    requires '\\' !in Strip(idInput) && '\\' !in Strip(secretInput)
    requires Strip(idInput) != "" && Strip(secretInput) != "" && '"' !in x && '"' !in y
    requires forall k :: k != |a| ==> !OccursAt(a + IdPrefix + x + "\"" + m + SecretPrefix + y + "\"" + c, IdPrefix, k)
    requires forall k :: k != |a + IdPrefix + Strip(idInput) + "\"" + m| ==>
               !OccursAt(a + IdPrefix + Strip(idInput) + "\"" + m + SecretPrefix + y + "\"" + c, SecretPrefix, k)
    ensures SpotifySetup(idInput, secretInput, a + IdPrefix + x + "\"" + m + SecretPrefix + y + "\"" + c)
            == Saved(a + IdPrefix + Strip(idInput) + "\"" + m + SecretPrefix + Strip(secretInput) + "\"" + c)
  {
    var content := a + IdPrefix + x + "\"" + m + SecretPrefix + y + "\"" + c;
    CredentialPrefixes();
    SavedBothValues(idInput, secretInput, content);
    TwoAssignmentsReplaced(a, x, m, y, c, IdPrefix, SecretPrefix, Strip(idInput), Strip(secretInput));
  }

  /** Both patterns end in their opening quote. */
  lemma CredentialPrefixes()
    ensures IsAssignmentPrefix(IdPrefix) && IsAssignmentPrefix(SecretPrefix)
  {
    assert IdPrefix[|IdPrefix| - 1] == '"' && forall j :: 0 <= j < |IdPrefix| - 1 ==> IdPrefix[j] != '"';
    assert SecretPrefix[|SecretPrefix| - 1] == '"' && forall j :: 0 <= j < |SecretPrefix| - 1 ==> SecretPrefix[j] != '"';
  }

  /** With both answers given, the setup saves the text with the id and then the secret substituted. */
  lemma SavedBothValues(idInput: string, secretInput: string, content: string)
    requires '\\' !in Strip(idInput) && '\\' !in Strip(secretInput)
    requires Strip(idInput) != "" && Strip(secretInput) != ""
    ensures SpotifySetup(idInput, secretInput, content)
            == Saved(ReplaceQuoted(ReplaceQuoted(content, IdPrefix, Strip(idInput)), SecretPrefix, Strip(secretInput)))
  {
  }

  /** Two assignment edits in a row, each on a text holding its prefix once. */
  lemma TwoAssignmentsReplaced(a: string, x: string, m: string, y: string, c: string,
                               p: string, q: string, v: string, w: string)
    requires IsAssignmentPrefix(p) && IsAssignmentPrefix(q) && '"' !in x && '"' !in y
    requires forall k :: k != |a| ==> !OccursAt(a + p + x + "\"" + m + q + y + "\"" + c, p, k)
    requires forall k :: k != |a + p + v + "\"" + m| ==> !OccursAt(a + p + v + "\"" + m + q + y + "\"" + c, q, k)
    ensures ReplaceQuoted(ReplaceQuoted(a + p + x + "\"" + m + q + y + "\"" + c, p, v), q, w)
            == a + p + v + "\"" + m + q + w + "\"" + c
  {
    var rest := m + q + y + "\"" + c;
    Reassociate(a + p + x + "\"", m, q, y, "\"", c);
    SingleAssignmentReplaced(a, x, rest, p, v);
    var before := a + p + v + "\"" + m;
    Reassociate(a + p + v + "\"", m, q, y, "\"", c);
    SingleAssignmentReplaced(before, y, c, q, w);
  }

  lemma Reassociate(s0: string, s1: string, s2: string, s3: string, s4: string, s5: string)
    ensures s0 + (s1 + s2 + s3 + s4 + s5) == s0 + s1 + s2 + s3 + s4 + s5
  {
  }

  // ---------------------------------------------------------------------------
  // Mapping insertion: re.search(r'(PLAYLIST_MAPPING = \{[^}]*)', content, re.DOTALL)
  // ---------------------------------------------------------------------------

  const MappingMarker: string := "PLAYLIST_MAPPING = {"

  /** Where `[^}]*` stops when started at `start`: the first `}` from there, or the end of the text. */
  function BlockEnd(content: string, start: nat): (e: nat)
    requires start <= |content|
    ensures start <= e <= |content| && '}' !in content[start..e]
    ensures e < |content| ==> content[e] == '}'
  {
    match IndexOf(content[start..], '}')
    case None => assert content[start..|content|] == content[start..]; |content|
    case Some(q) =>
      assert content[start..][..q] == content[start..start + q];
      start + q
  }

  /** The line added for a new mapping. */
  function MappingEntry(spotifyId: string, ytmusicId: string): string {
    "\n    \"" + spotifyId + "\": \"" + ytmusicId + "\","
  }

  /** Python's `s.replace(pattern, replacement)` for a non-empty pattern: every occurrence, left to right, without overlap. */
  function ReplaceAll(s: string, pattern: string, replacement: string): string
    requires pattern != []
    decreases |s|
  {
    if IsPrefix(pattern, s) then replacement + ReplaceAll(s[|pattern|..], pattern, replacement)
    else if s == [] then []
    else [s[0]] + ReplaceAll(s[1..], pattern, replacement)
  }

  /** A text without the pattern is left as it is. */
  lemma {:induction false} ReplaceAllAbsent(s: string, pattern: string, replacement: string)
    requires pattern != [] && forall k :: !OccursAt(s, pattern, k)
    ensures ReplaceAll(s, pattern, replacement) == s
    decreases |s|
  {
    assert !OccursAt(s, pattern, 0);
    if s != [] {
      NoneAfter(s, pattern, 1);
      ReplaceAllAbsent(s[1..], pattern, replacement);
    }
  }

  /** Before the first occurrence of the pattern the text is copied. */
  lemma {:induction false} ReplaceAllCopiesUpTo(s: string, pattern: string, replacement: string, i: nat)
    requires pattern != [] && i <= |s|
    requires forall k :: 0 <= k < i ==> !OccursAt(s, pattern, k)
    ensures ReplaceAll(s, pattern, replacement) == s[..i] + ReplaceAll(s[i..], pattern, replacement)
  {
    if i > 0 {
      PrefixAtStart(pattern, s);
      ReplaceAllCopyStep(s, pattern, replacement);
      NoneBefore(s, pattern, i);
      ReplaceAllCopiesUpTo(s[1..], pattern, replacement, i - 1);
      assert s[1..][i - 1..] == s[i..];
      ConsPrefix(s, i, ReplaceAll(s, pattern, replacement), ReplaceAll(s[1..], pattern, replacement), ReplaceAll(s[i..], pattern, replacement));
    }
  }

  /** Without the pattern at the start, the first character is copied and the scan moves on. */
  lemma ReplaceAllCopyStep(s: string, pattern: string, replacement: string)
    requires pattern != [] && s != [] && !IsPrefix(pattern, s)
    ensures ReplaceAll(s, pattern, replacement) == [s[0]] + ReplaceAll(s[1..], pattern, replacement)
  {
  }

  /** Where `s` starts with `p + q`, it starts with `p`. */
  lemma LongerOccurrence(s: string, p: string, q: string, k: int)
    requires OccursAt(s, p + q, k)
    ensures OccursAt(s, p, k)
  {
    assert s[k..k + |p|] == s[k..k + |p + q|][..|p|];
  }

  /** What `add_playlist_mapping` ends with. */
  datatype AddOutcome =
    | Skipped              // an id was left empty
    | MarkerMissing        // no `PLAYLIST_MAPPING = {` in the text
    | Added(content: string)

  /**
    `add_playlist_mapping`: the block from the first `PLAYLIST_MAPPING = {` up to (not
    including) the next `}` is found, and every copy of that block in the text gets the new
    entry appended.
  */
  function AddMapping(spInput: string, ytInput: string, content: string): (r: AddOutcome)
    ensures r == Skipped <==> Strip(spInput) == "" || Strip(ytInput) == ""
    ensures r == MarkerMissing <==> r != Skipped && !Contains(content, MappingMarker)
    ensures r.Added? ==> Contains(r.content, MappingEntry(Strip(spInput), Strip(ytInput)))
  {
    var spotifyId := Strip(spInput);
    if spotifyId == "" then Skipped
    else
      var ytmusicId := Strip(ytInput);
      if ytmusicId == "" then Skipped
      else
        match Find(content, MappingMarker)
        case None => MarkerMissing
        case Some(start) => Added(AppendToBlock(content, start, MappingEntry(spotifyId, ytmusicId)))
  }

  /** The text once the block starting at the first marker, `start`, has the entry appended wherever it occurs. */
  function AppendToBlock(content: string, start: nat, entry: string): (r: string)
    requires OccursAt(content, MappingMarker, start)
    requires forall k :: 0 <= k < start ==> !OccursAt(content, MappingMarker, k)
    ensures Contains(r, entry)
  {
    var e := BlockEnd(content, start + |MappingMarker|);
    var block := content[start..e];
    BlockFirstAt(content, start, e);
    ReplaceAllAdds(content, block, entry, start);
    ReplaceAll(content, block, block + entry)
  }

  /** Appending to every copy of a block that occurs leaves the added text in the result. */
  lemma ReplaceAllAdds(s: string, block: string, entry: string, i: nat)
    requires block != [] && OccursAt(s, block, i)
    requires forall k :: 0 <= k < i ==> !OccursAt(s, block, k)
    ensures OccursAt(ReplaceAll(s, block, block + entry), entry, i + |block|)
  {
    ReplaceAllCopiesUpTo(s, block, block + entry, i);
    assert IsPrefix(block, s[i..]);
    var r := ReplaceAll(s, block, block + entry);
    assert r == s[..i] + (block + entry + ReplaceAll(s[i..][|block|..], block, block + entry));
    assert r[i + |block|..i + |block| + |entry|] == entry;
  }

  /** The block found starts with the marker, so it occurs nowhere the marker does not. */
  lemma BlockOccurrences(content: string, start: nat, e: nat, k: int)
    requires start + |MappingMarker| <= e <= |content| && OccursAt(content, MappingMarker, start)
    requires OccursAt(content, content[start..e], k)
    ensures OccursAt(content, MappingMarker, k)
  {
    assert content[start..e] == MappingMarker + content[start + |MappingMarker|..e];
    LongerOccurrence(content, MappingMarker, content[start + |MappingMarker|..e], k);
  }

  /** The block first occurs where the marker first occurs. */
  lemma BlockFirstAt(content: string, start: nat, e: nat)
    requires start + |MappingMarker| <= e <= |content| && OccursAt(content, MappingMarker, start)
    requires forall k :: 0 <= k < start ==> !OccursAt(content, MappingMarker, k)
    ensures OccursAt(content, content[start..e], start)
    ensures forall k :: 0 <= k < start ==> !OccursAt(content, content[start..e], k)
  {
    forall k | 0 <= k < start ensures !OccursAt(content, content[start..e], k) {
      if OccursAt(content, content[start..e], k) {
        BlockOccurrences(content, start, e, k);
      }
    }
  }

  /** Appending to a block that occurs once inserts the entry right after it. */
  lemma AppendedToSingleBlock(s: string, block: string, entry: string, i: nat, e: nat)
    requires block != [] && OccursAt(s, block, i) && e == i + |block|
    requires forall k :: k != i ==> !OccursAt(s, block, k)
    ensures ReplaceAll(s, block, block + entry) == s[..e] + entry + s[e..]
  {
    var y := ReplaceAll(s[i..], block, block + entry);
    assert ReplaceAll(s, block, block + entry) == s[..i] + y by {
      ReplaceAllCopiesUpTo(s, block, block + entry, i);
    }
    assert y == block + entry + ReplaceAll(s[e..], block, block + entry) by {
      assert s[i..][..|block|] == s[i..e];
      ReplaceAllAtMatch(s[i..], block, block + entry);
      assert s[i..][|block|..] == s[e..];
    }
    assert ReplaceAll(s[e..], block, block + entry) == s[e..] by {
      NoneAfter(s, block, e);
      ReplaceAllAbsent(s[e..], block, block + entry);
    }
    assert s[..e] == s[..i] + block by {
      assert s[..i] + s[i..e] == s[..e];
    }
    Splice(ReplaceAll(s, block, block + entry), s[..i], y, block, entry, s[e..], s[..e]);
  }

  /** A text starting with the pattern has the replacement in its place. */
  lemma ReplaceAllAtMatch(s: string, pattern: string, replacement: string)
    requires pattern != [] && IsPrefix(pattern, s)
    ensures ReplaceAll(s, pattern, replacement) == replacement + ReplaceAll(s[|pattern|..], pattern, replacement)
  {
  }

  /** Re-associates a copied head, a replaced block and a kept tail. */
  lemma Splice(r: string, head: string, y: string, block: string, entry: string, tail: string, upTo: string)
    requires r == head + y && y == block + entry + tail && upTo == head + block
    ensures r == upTo + entry + tail
  {
  }

  /**
    With a single `PLAYLIST_MAPPING = {` in the text, the new entry is inserted exactly once,
    right before the `}` that closes the mapping (or at the end when there is none), and the
    rest of the text is kept.
  */
  lemma EntryInsertedBeforeBrace(content: string, spInput: string, ytInput: string, start: nat)
    requires Strip(spInput) != "" && Strip(ytInput) != ""
    requires OccursAt(content, MappingMarker, start)
    requires forall k :: k != start ==> !OccursAt(content, MappingMarker, k)
    ensures var e := BlockEnd(content, start + |MappingMarker|);
            AddMapping(spInput, ytInput, content)
            == Added(content[..e] + MappingEntry(Strip(spInput), Strip(ytInput)) + content[e..])
  {
    var entry := MappingEntry(Strip(spInput), Strip(ytInput));
    assert Find(content, MappingMarker) == Some(start);
    AddedAtMarker(spInput, ytInput, content, start);
    SingleBlockAppended(content, start, entry);
  }

  /** With both ids given and the marker first found at `start`, the block there is extended. */
  lemma AddedAtMarker(spInput: string, ytInput: string, content: string, start: nat)
    requires Strip(spInput) != "" && Strip(ytInput) != ""
    requires Find(content, MappingMarker) == Some(start)
    ensures AddMapping(spInput, ytInput, content)
            == Added(AppendToBlock(content, start, MappingEntry(Strip(spInput), Strip(ytInput))))
  {
  }

  /** When the marker occurs once, the entry goes right after the one copy of the block. */
  lemma SingleBlockAppended(content: string, start: nat, entry: string)
    requires OccursAt(content, MappingMarker, start)
    requires forall k :: k != start ==> !OccursAt(content, MappingMarker, k)
    ensures var e := BlockEnd(content, start + |MappingMarker|);
            AppendToBlock(content, start, entry) == content[..e] + entry + content[e..]
  {
    var e := BlockEnd(content, start + |MappingMarker|);
    var block := content[start..e];
    assert ReplaceAll(content, block, block + entry) == content[..e] + entry + content[e..] by {
      BlockOnlyAtMarker(content, start, e);
      AppendedToSingleBlock(content, block, entry, start, e);
    }
  }

  /** A block that starts at the only marker occurs only there. */
  lemma BlockOnlyAtMarker(content: string, start: nat, e: nat)
    requires start + |MappingMarker| <= e <= |content| && OccursAt(content, MappingMarker, start)
    requires forall k :: k != start ==> !OccursAt(content, MappingMarker, k)
    ensures OccursAt(content, content[start..e], start)
    ensures forall k :: k != start ==> !OccursAt(content, content[start..e], k)
  {
    forall k | k != start && OccursAt(content, content[start..e], k) ensures false {
      BlockOccurrences(content, start, e, k);
    }
  }
}

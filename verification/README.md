# SpotifytoYTMusicSync setup and mapping logic in Dafny

SpotifytoYTMusicSync copies Spotify playlists into YouTube Music. This project models the parts of
it that are deterministic and visible. The Dafny model covers:

- **Browser-header setup** (`setup_browser_auth.py`): collecting the pasted lines, the length
  gate, the header parser, the cookie and origin checks, and the `browser_auth.json` record.
- **OAuth device-flow setup** (`setup_oauth.py`): the credential check, the device-code reply,
  the token polling loop and the `oauth.json` record.
- **Stand-alone playlist creator** (`create_ytmusic_playlist.py`): the privacy menu, the dialogue
  guards and the command-line dispatch.
- **App menu** (`app.py`):
  - the check of playlist mappings against the YouTube Music library;
  - the two text edits of `config.py`: the Spotify credentials and a new mapping entry;
  - the quick YouTube Music setup;
  - the auto-creation of playlists for unmapped Spotify playlists;
  - the privacy table of the create dialogue.

Remote services are parameters:

- The Spotify listing is a sequence of playlists.
- The YouTube Music library is a sequence of entries.
- A direct playlist lookup is a predicate.
- The replies to `create_playlist` and to the OAuth endpoints are given sequences.

Terminal input is a sequence of typed lines, and file contents are strings. Text handling follows
Python on ASCII:

- `strip` removes ASCII whitespace;
- `lower`/`upper` change ASCII letters only;
- `split`, `join`, `in`, `find`, `dict` assignment, `str.replace` and `re.sub` are modelled by the
  functions of `Text`, `Dicts` and `ConfigEdit`.

Where the code and its description disagree, the model follows the code:

- **Token reply without a refresh token.** A reply with `access_token` but no `refresh_token` does
  not succeed: building `oauth_data` raises a `KeyError` (`OAuthSetup.Verdict.Crashed`).
- **Slow-down interval.** A `slow_down` reply adds 2 seconds to the interval. Section 3.5 of
  RFC 8628 asks for 5.

Modules:

- `Wrappers`: `Option`.
- `Text`: string operations.
- `Dicts`: filling a dictionary from ordered pairs, where the last pair for a key wins.
- `BrowserAuth`, `OAuthSetup`, `PlaylistCreator`: one module per script.
- `MappingValidation`, `ConfigEdit`, `AutoCreate`, `AppDialogs`: the parts of `app.py`.

## Model

| member | source | states |
|---|---|---|
| Dicts.AssignKeys | setup_browser_auth.py:66-70 | a key is in the dictionary exactly when some pair stored it |
| Dicts.AssignFrom | setup_browser_auth.py:70 | every stored value is the value of some pair with that key |
| Dicts.AssignLastWins | setup_browser_auth.py:70 | the last pair for a key decides its value |
| BrowserAuth.ParseLine | setup_browser_auth.py:67-70 | a line contributes a header exactly when it holds a colon |
| BrowserAuth.ParsedLineNormalized | setup_browser_auth.py:69-70 | a parsed name is lower-case and stripped, and its value is stripped |
| BrowserAuth.ParseHeaders | setup_browser_auth.py:61-72 | `parse_headers` returns the dictionary filled from the stripped text's lines in order |
| BrowserAuth.ParseHeaderLines | setup_browser_auth.py:66-70 | the loop stores each colon line's name and value, later lines overwriting earlier ones |
| BrowserAuth.HeaderMapNormalized | setup_browser_auth.py:67-70 | every key of the result is lower-case and stripped, and every value is stripped |
| BrowserAuth.SplitAtFirstColon | setup_browser_auth.py:69 | a line is split at its first colon only, so the value keeps later colons |
| BrowserAuth.NoColonNoHeaders | setup_browser_auth.py:66-68 | text without a colon parses to the empty dictionary |
| BrowserAuth.NameDeclared | setup_browser_auth.py:66-70 | a name is a key exactly when some line declares it, in any letter case |
| BrowserAuth.LastLineWins | setup_browser_auth.py:70 | for a repeated name the value of its last line wins |
| BrowserAuth.LinesRead | setup_browser_auth.py:83-94 | reading stops just after the first two consecutive blank lines, or at EOF |
| BrowserAuth.NonBlankKeeps | setup_browser_auth.py:86-92 | a line is kept exactly when it was read and is not blank |
| BrowserAuth.NonBlankAppend | setup_browser_auth.py:90-92 | the kept lines keep their input order |
| BrowserAuth.CollectPastedLines | setup_browser_auth.py:81-94 | the loop keeps the non-blank lines of what it reads; a non-blank line resets the blank counter |
| BrowserAuth.BaseRecordIsBase | setup_browser_auth.py:129-137 | the record literal has exactly the seven base keys, with pasted values or the defaults and the cookie verbatim |
| BrowserAuth.BuildAuthData | setup_browser_auth.py:129-145 | the record is the base record plus `authorization`, `x-goog-visitor-id` and `referer` exactly when pasted |
| BrowserAuth.RunSetup | setup_browser_auth.py:81-145 | short text is rejected before parsing; a missing cookie stops; the warning fires exactly when neither origin nor referer mentions `music.youtube.com` |
| OAuthSetup.StartPolling | setup_oauth.py:121-132 | an `error` key aborts with its description; otherwise polling starts with the reply's interval, 5 by default |
| OAuthSetup.Classify | setup_oauth.py:161-210 | an access token ends the loop; pending keeps the interval; slow-down adds 2; every other reply ends the loop |
| OAuthSetup.Poll | setup_oauth.py:148-210 | the first sleep is the starting interval; the loop only runs out while every reply is pending or slow-down |
| OAuthSetup.PollForToken | setup_oauth.py:148-210 | the loop's verdict and sleeps are those of `Poll` |
| OAuthSetup.SleepsGrowBySlowDowns | setup_oauth.py:196-199 | each sleep is the start interval plus 2 per earlier slow-down |
| OAuthSetup.SleepsNonDecreasing | setup_oauth.py:192-199 | the interval never shrinks |
| OAuthSetup.StopsAtFirstVerdict | setup_oauth.py:161-210 | replies after the one that ends the loop are never requested |
| OAuthSetup.VerdictFromLastRequest | setup_oauth.py:148-210 | the verdict comes from the last reply requested, and every earlier reply was pending or slow-down |
| OAuthSetup.OAuthRecord | setup_oauth.py:163-171 | the saved record has seven keys, with token type, lifetime and scope defaulted and the credentials copied |
| OAuthSetup.RunOAuthSetup | setup_oauth.py:100-210 | empty credentials abort before any request; a device-code error aborts before polling; aborted exactly when the device-code reply is malformed or polling crashes; once polling starts, each outcome holds exactly when the poll verdict is the matching one |
| PlaylistCreator.PrivacyFor | create_ytmusic_playlist.py:141-148 | "2" gives PUBLIC, "3" gives UNLISTED, and every other choice gives PRIVATE |
| PlaylistCreator.InteractiveCreate | create_ytmusic_playlist.py:124-164 | nothing is created for an empty stripped name or a confirmation other than `y`; otherwise the request carries the stripped answers |
| PlaylistCreator.Dispatch | create_ytmusic_playlist.py:173-208 | no arguments run the dialogue; `list` and `create` are accepted in any case; anything else exits 1; `create` without a name exits 1 |
| PlaylistCreator.PrivacyArgument | create_ytmusic_playlist.py:192-197 | a privacy argument is upper-cased and accepted only when it is one of the three settings |
| PlaylistCreator.PrivacyDefault | create_ytmusic_playlist.py:191-192 | without a privacy argument the playlist is private |
| PlaylistCreator.CommandCaseInsensitive | create_ytmusic_playlist.py:175 | lower-casing the command word first changes nothing |
| MappingValidation.CollectKnownIds | app.py:363-367 | the known ids are exactly the non-empty `playlistId`s of the non-null library entries |
| MappingValidation.Broken | app.py:373-383 | a mapping is broken exactly when its target is neither known nor found; mapping order is kept |
| MappingValidation.ValidateMappings | app.py:370-383 | valid plus broken equals the number of mappings; the known set ends as the library ids plus every confirmed target |
| MappingValidation.LookupsAvoidKnown | app.py:374-379 | a known target is never looked up |
| MappingValidation.ConfirmedLookedUpOnce | app.py:378-381 | a target confirmed by a lookup is never looked up again |
| MappingValidation.KnownTargetsNeedNoLookup | app.py:374-375 | mappings to library playlists cost no lookup |
| MappingValidation.RunValidation | app.py:343-407 | an empty mapping and a missing setup stop early; broken mappings are removed only after `y`; all mappings are valid exactly when none is broken, and the broken ones reported are exactly those that point at no known playlist |
| ConfigEdit.NoAssignmentUnchanged | app.py:94-103 | text without the assignment prefix is not changed |
| ConfigEdit.SingleAssignmentReplaced | app.py:94-98 | with one assignment, only the quoted value is replaced |
| ConfigEdit.EachAssignmentReplaced | app.py:94-98 | at each assignment, in turn, the text before it is kept, exactly its quoted value is replaced and the scan resumes after the closing quote, so every occurrence is rewritten |
| ConfigEdit.QuotesKept | app.py:94-103 | the number of quotes is unchanged by the substitution, given a value without quotes |
| ConfigEdit.SingleQuoteUnchanged | app.py:94-98 | a text holding a single quote is left unchanged |
| ConfigEdit.UnterminatedAssignmentKept | app.py:94-98 | an assignment whose value is never closed is left as it is, whatever text without that prefix comes before it |
| ConfigEdit.LastSubstitutionWins | app.py:94-103 | running the credential edit again overwrites the earlier value completely |
| ConfigEdit.SpotifySetup | app.py:74-103 | an empty stripped id or secret cancels before any edit |
| ConfigEdit.TwoAssignmentsReplaced | app.py:94-103 | the id edit and then the secret edit replace exactly the two values |
| ConfigEdit.CredentialsWritten | app.py:94-103 | on a configuration with one id and one secret assignment, the setup writes the two stripped credentials and keeps all other text |
| ConfigEdit.BlockEnd | app.py:274-276 | `[^}]*` stops at the first `}` after the marker, or at the end of the text |
| ConfigEdit.ReplaceAllAbsent | app.py:281 | `str.replace` leaves text without the pattern unchanged |
| ConfigEdit.AddMapping | app.py:259-290 | an empty stripped id skips; a missing marker reports an error and edits nothing; otherwise the entry appears in the text |
| ConfigEdit.AppendToBlock | app.py:274-281 | appending the entry to the found block puts the entry into the text |
| ConfigEdit.AppendedToSingleBlock | app.py:281 | a block that occurs once gets the entry right after it and nothing else changes |
| ConfigEdit.EntryInsertedBeforeBrace | app.py:274-285 | with one marker, exactly the new entry is inserted before the closing `}` and the rest of the text is kept |
| AutoCreate.Unmapped | app.py:579-580 | every selected playlist is non-null, has a non-empty id and is not yet mapped |
| AutoCreate.UnmappedKeeps | app.py:579-580 | a playlist is selected exactly when it is listed, non-null, has a non-empty id and is not yet mapped |
| AutoCreate.UnmappedAppend | app.py:579-580 | the selection keeps listing order |
| AutoCreate.MoreMappedFewerUnmapped | app.py:579-580 | more mappings never select more playlists |
| AutoCreate.EveryPlaylistAccounted | app.py:579-585 | "all mapped" is reported exactly when every playlist is null, has no id or is mapped |
| AutoCreate.PrivacyStatus | app.py:615 | new playlists are private unless the setting is false, and then public |
| AutoCreate.CreateMissing | app.py:608-620 | one request per selected playlist, titled with its name, described "Synced from Spotify" |
| AutoCreate.OnlySuccessfulCreations | app.py:609-620 | `new_mappings` gains a Spotify id exactly when a creation for it succeeded |
| AutoCreate.NewIdFromReply | app.py:612-617 | each new mapping holds the id returned for that playlist |
| AutoCreate.NewMappingsFromListing | app.py:579-617 | every new mapping is keyed by the id of a playlist in the Spotify listing |
| AutoCreate.NewMappingsAreFresh | app.py:576-620 | new mappings never cover an already mapped playlist |
| AutoCreate.AutoCreatePlaylists | app.py:539-630 | checks configuration, reports all-mapped, dry-run count and cancellation; created mappings are new, come from the listing and are exactly the mappings built from the unmapped playlists and the creation replies |
| AppDialogs.TypedLines | app.py:154-167 | the lines read are those before the first Ctrl-C |
| AppDialogs.CollectHeaderPaste | app.py:154-167 | the app's paste loop keeps what the stand-alone collector keeps from the lines typed before Ctrl-C |
| AppDialogs.SetupYTMusic | app.py:144-174 | quick setup runs only after `y`; short text is rejected; otherwise the collected text is handed on |
| AppDialogs.NoInterruptSameLines | app.py:154-167 | without Ctrl-C every typed line is considered |
| AppDialogs.InterruptEndsPaste | app.py:166-167 | nothing typed after Ctrl-C is read |
| AppDialogs.PrivacyStatus | app.py:482-483 | the app's privacy table agrees with the stand-alone creator's on every choice |

## Left out

- The sync engine (`sync_playlists`), `config_updater` and the `utils` clients and UI helpers are not part of this model. `utils/__init__.py` only re-exports names.
- Remote calls are parameters:
  - ytmusicapi (library listing, lookup, `create_playlist`, `setup`);
  - spotipy pagination;
  - the two OAuth `requests.post` calls;
  - `time.sleep`, which appears only as the list of sleep lengths.
- Their error messages, the connection tests and every message printed are left out.
- Reading and writing `config.py`, `browser_auth.json` and `oauth.json`, `ensure_config_exists` and `importlib.reload` are left out. An exception while writing is not modelled.
- Menus, colours and `pause` are left out. The two configuration checks are booleans.
- The removal of mappings at app.py:326-327 is not modelled: its regular expression is not reproduced. `validate_mappings` stops at the list of Spotify ids handed to the remover.
- The module-level deprecation prompt and the pip fallback of `setup_oauth.py` (lines 32-63) are left out.
- Python's Unicode `strip`/`lower`/`upper` are modelled on ASCII only.
- JSON floats and booleans are not modelled. A non-integer `interval` counts as one that cannot be slept, which aborts.
- ConfigEdit.SpotifySetup: requires that the stripped credentials hold no backslash. `re.sub` would interpret escapes in the replacement, and that template processing is not modelled.
- ConfigEdit.CredentialsWritten: assumes the old id and secret values hold no quote, the file holds one id assignment, and writing the id creates no second secret assignment (the stripped credentials must also hold no backslash, as for `SpotifySetup`). A file with several assignments of a prefix is covered, one assignment at a time, by `ConfigEdit.EachAssignmentReplaced`.
- ConfigEdit.EntryInsertedBeforeBrace: assumes `PLAYLIST_MAPPING = {` occurs once. `AddMapping` itself models `str.replace` on every copy of the block.
- OAuthSetup.PollForToken: the real loop never ends while replies stay pending. With a finite list of replies the model ends in `Waiting`/`StillWaiting`, which the script never reports.
- AutoCreate.AutoCreatePlaylists: the number of `create_playlist` replies must equal the number of selected playlists. That is the shape of the reply list, not a demand of the code.
- The Ctrl-C of the stand-alone browser setup is not caught there and ends the script. `BrowserAuth` reads lines up to EOF only.
- The `list` and `create` commands of the creator exit 1 when the remote call raises. `PlaylistCreator.Dispatch` returns the command that would run.

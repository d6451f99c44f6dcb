/**
  Auto-creation of YouTube Music playlists from the Spotify library (`auto_create_ytm_playlists`
  in `app.py`): the Spotify playlists that have no mapping yet are selected, one YouTube Music
  playlist is requested per playlist, and the successful creations become new mappings.

  The Spotify listing is given (pagination is not modelled), the two configuration checks are
  booleans, and the replies of `create_playlist` are a sequence: `Some(id)` for a created
  playlist, `None` for a call that raised.
*/
module AutoCreate {
  import opened Wrappers
  import opened Text
  import opened Dicts
  import PlaylistCreator

  /** One item of the Spotify listing: `None`, or a playlist whose `id` may be absent. */
  datatype SpotifyPlaylist = NullPlaylist | Playlist(id: Option<string>, name: string)

  /** Spotify playlist id to YouTube Music playlist id, as in `PLAYLIST_MAPPING`. */
  type Mapping = map<string, string>

  /** `pl and pl.get('id') and pl.get('id') not in current_mapping`. */
  predicate IsUnmapped(pl: SpotifyPlaylist, current: Mapping) {
    pl.Playlist? && pl.id.Some? && pl.id.value != "" && pl.id.value !in current
  }

  /** The list comprehension selecting the playlists still to be created, in listing order. */
  function Unmapped(all: seq<SpotifyPlaylist>, current: Mapping): (r: seq<SpotifyPlaylist>)
    ensures |r| <= |all|
    ensures forall i :: 0 <= i < |r| ==> IsUnmapped(r[i], current)
    ensures AllHaveIds(r)
  {
    if all == [] then []
    else
      var init := all[..|all| - 1];
      var last := all[|all| - 1];
      Unmapped(init, current) + (if IsUnmapped(last, current) then [last] else [])
  }

  /** One more playlist of the listing is selected exactly when it is unmapped. */
  lemma UnmappedSnoc(a: seq<SpotifyPlaylist>, pl: SpotifyPlaylist, current: Mapping)
    ensures Unmapped(a + [pl], current) == Unmapped(a, current) + (if IsUnmapped(pl, current) then [pl] else [])
  {
    assert (a + [pl])[..|a|] == a;
  }

  /** Selected are exactly the listed playlists that are present, have an id and are not mapped. */
  lemma {:induction false} UnmappedKeeps(all: seq<SpotifyPlaylist>, current: Mapping, pl: SpotifyPlaylist)
    ensures pl in Unmapped(all, current) <==> pl in all && IsUnmapped(pl, current)
  {
    if all != [] {
      var init, last := all[..|all| - 1], all[|all| - 1];
      UnmappedKeeps(init, current, pl);
      assert all == init + [last];
    }
  }

  /** Selecting from a concatenation selects from each part: the listing order is kept. */
  lemma {:induction false} UnmappedAppend(a: seq<SpotifyPlaylist>, b: seq<SpotifyPlaylist>, current: Mapping)
    ensures Unmapped(a + b, current) == Unmapped(a, current) + Unmapped(b, current)
    decreases |b|
  {
    if b == [] {
      assert a + b == a;
    } else {
      var init, last := b[..|b| - 1], b[|b| - 1];
      var tail := if IsUnmapped(last, current) then [last] else [];
      assert Unmapped(a + b, current) == Unmapped(a + init, current) + tail by {
        assert a + b == (a + init) + [last];
        UnmappedSnoc(a + init, last, current);
      }
      assert Unmapped(b, current) == Unmapped(init, current) + tail by {
        assert b == init + [last];
        UnmappedSnoc(init, last, current);
      }
      UnmappedAppend(a, init, current);
      ConcatAssoc(Unmapped(a, current), Unmapped(init, current), tail);
    }
  }

  /** Adding mappings never brings a playlist back: the selection only shrinks. */
  lemma MoreMappedFewerUnmapped(all: seq<SpotifyPlaylist>, current: Mapping, more: Mapping)
    requires current.Keys <= more.Keys
    ensures forall pl :: pl in Unmapped(all, more) ==> pl in Unmapped(all, current)
  {
    forall pl | pl in Unmapped(all, more) ensures pl in Unmapped(all, current) {
      UnmappedKeeps(all, more, pl);
      UnmappedKeeps(all, current, pl);
    }
  }

  /** Every playlist of the listing is either mapped already or selected. */
  lemma EveryPlaylistAccounted(all: seq<SpotifyPlaylist>, current: Mapping)
    ensures Unmapped(all, current) == []
            <==> forall i :: 0 <= i < |all| ==> !IsUnmapped(all[i], current)
  {
    if Unmapped(all, current) == [] {
      forall i | 0 <= i < |all| ensures !IsUnmapped(all[i], current) {
        UnmappedKeeps(all, current, all[i]);
      }
    } else {
      var pl := Unmapped(all, current)[0];
      UnmappedKeeps(all, current, pl);
      var i :| 0 <= i < |all| && all[i] == pl;
    }
  }

  /** The description every auto-created playlist gets. */
  const SyncedDescription: string := "Synced from Spotify"

  /** `'PRIVATE' if YTMUSIC_PLAYLIST_PRIVATE else 'PUBLIC'`, the setting defaulting to true. */
  function PrivacyStatus(private: bool): (p: string)
    ensures p in PlaylistCreator.Privacies && p != "UNLISTED"
    ensures p == "PRIVATE" <==> private
  {
    if private then "PRIVATE" else "PUBLIC"
  }

  /** Every playlist of `unmapped` is present and has a non-empty id, as the selection ensures. */
  predicate AllHaveIds(unmapped: seq<SpotifyPlaylist>) {
    forall i :: 0 <= i < |unmapped| ==> unmapped[i].Playlist? && unmapped[i].id.Some? && unmapped[i].id.value != ""
  }

  /** What each creation contributes to `new_mappings`: its Spotify id and new id, or nothing on failure. */
  function Created(unmapped: seq<SpotifyPlaylist>, replies: seq<Option<string>>): (e: seq<Option<(string, string)>>)
    requires |replies| == |unmapped| && AllHaveIds(unmapped)
    ensures |e| == |unmapped|
    ensures forall i :: 0 <= i < |e| ==> (e[i].Some? <==> replies[i].Some?)
    ensures forall i :: 0 <= i < |e| && e[i].Some? ==> e[i].value == (unmapped[i].id.value, replies[i].value)
  {
    seq(|unmapped|, i requires 0 <= i < |unmapped| && unmapped[i].Playlist? && unmapped[i].id.Some? =>
      if replies[i].Some? then Some((unmapped[i].id.value, replies[i].value)) else None)
  }

  /** `new_mappings` after the loop: every successful creation, a repeated id keeping its last. */
  function NewMappings(unmapped: seq<SpotifyPlaylist>, replies: seq<Option<string>>): Mapping
    requires |replies| == |unmapped| && AllHaveIds(unmapped)
  {
    Assign(Created(unmapped, replies))
  }

  /**
    The creation loop: one `create_playlist` request per selected playlist, titled with its
    name, and a new mapping for each request that succeeded.
  */
  method CreateMissing(unmapped: seq<SpotifyPlaylist>, private: bool, replies: seq<Option<string>>)
    returns (requests: seq<PlaylistCreator.CreateRequest>, newMappings: Mapping)
    requires |replies| == |unmapped| && AllHaveIds(unmapped)
    ensures |requests| == |unmapped|
    ensures forall i :: 0 <= i < |unmapped| ==>
              requests[i] == PlaylistCreator.CreateRequest(unmapped[i].name, SyncedDescription, PrivacyStatus(private))
    ensures newMappings == NewMappings(unmapped, replies)
  {
    ghost var e := Created(unmapped, replies);
    requests, newMappings := [], map[];
    for i := 0 to |unmapped|
      invariant |requests| == i
      invariant forall j :: 0 <= j < i ==>
                  requests[j] == PlaylistCreator.CreateRequest(unmapped[j].name, SyncedDescription, PrivacyStatus(private))
      invariant newMappings == Assign(e[..i])
    {
      var pl := unmapped[i];
      var privacy := if private then "PRIVATE" else "PUBLIC";
      requests := requests + [PlaylistCreator.CreateRequest(pl.name, SyncedDescription, privacy)];
      AssignAppend(e, i);
      match replies[i]
      case Some(ytId) =>
        newMappings := newMappings[pl.id.value := ytId];
      case None =>
    }
    assert e[..|unmapped|] == e;
  }

  /** `new_mappings` gains a Spotify id exactly when a creation for that playlist succeeded. */
  lemma OnlySuccessfulCreations(unmapped: seq<SpotifyPlaylist>, replies: seq<Option<string>>, spotifyId: string)
    requires |replies| == |unmapped| && AllHaveIds(unmapped)
    ensures spotifyId in NewMappings(unmapped, replies)
            <==> exists i :: 0 <= i < |unmapped| && unmapped[i].id.value == spotifyId && replies[i].Some?
  {
    var e := Created(unmapped, replies);
    AssignKeys(e, spotifyId);
    if exists i :: 0 <= i < |unmapped| && unmapped[i].id.value == spotifyId && replies[i].Some? {
      var i :| 0 <= i < |unmapped| && unmapped[i].id.value == spotifyId && replies[i].Some?;
      assert e[i].Some? && e[i].value.0 == spotifyId;
    }
  }

  /** Each new mapping points at the id some successful creation for that playlist returned. */
  lemma NewIdFromReply(unmapped: seq<SpotifyPlaylist>, replies: seq<Option<string>>, spotifyId: string)
    requires |replies| == |unmapped| && AllHaveIds(unmapped)
    requires spotifyId in NewMappings(unmapped, replies)
    ensures exists i :: 0 <= i < |unmapped| && unmapped[i].id.value == spotifyId
                        && replies[i] == Some(NewMappings(unmapped, replies)[spotifyId])
  {
    AssignFrom(Created(unmapped, replies), spotifyId);
  }

  /** The new mappings only cover playlists that had none: they never overwrite an existing mapping. */
  lemma NewMappingsAreFresh(all: seq<SpotifyPlaylist>, current: Mapping, replies: seq<Option<string>>)
    requires |replies| == |Unmapped(all, current)|
    requires AllHaveIds(Unmapped(all, current))
    ensures NewMappings(Unmapped(all, current), replies).Keys !! current.Keys
  {
    var unmapped := Unmapped(all, current);
    forall k | k in NewMappings(unmapped, replies) ensures k !in current {
      OnlySuccessfulCreations(unmapped, replies, k);
    }
  }

  /** Every new mapping is keyed by the id of a playlist of the listing. */
  lemma NewMappingsFromListing(all: seq<SpotifyPlaylist>, current: Mapping, replies: seq<Option<string>>)
    requires |replies| == |Unmapped(all, current)|
    requires AllHaveIds(Unmapped(all, current))
    ensures forall k :: k in NewMappings(Unmapped(all, current), replies) ==>
              exists i :: 0 <= i < |all| && all[i].Playlist? && all[i].id == Some(k)
  {
    var unmapped := Unmapped(all, current);
    forall k | k in NewMappings(unmapped, replies) ensures exists i :: 0 <= i < |all| && all[i].Playlist? && all[i].id == Some(k) {
      OnlySuccessfulCreations(unmapped, replies, k);
      var j :| 0 <= j < |unmapped| && unmapped[j].id.value == k && replies[j].Some?;
      UnmappedKeeps(all, current, unmapped[j]);
      var i :| 0 <= i < |all| && all[i] == unmapped[j];
    }
  }

  /** What `auto_create_ytm_playlists` ends with. */
  datatype AutoCreateOutcome =
    | SpotifyNotConfigured
    | YTMusicNotConfigured
    | AllMapped                   // nothing left to create
    | DryRun(count: nat)          // preview only: how many playlists would be created
    | Cancelled                   // the confirmation was not `yes` or `y`
    | Done(requests: seq<PlaylistCreator.CreateRequest>, newMappings: Mapping)

  /**
    `auto_create_ytm_playlists`: `confirm` is the answer to "Create N playlists?", read only
    outside a dry run; `replies` answers the creation calls in order. The new mappings are
    handed to the config updater when there are any.
  */
  method AutoCreatePlaylists(dryRun: bool, spotifyConfigured: bool, ytmusicConfigured: bool,
                             all: seq<SpotifyPlaylist>, current: Mapping, confirm: string,
                             private: bool, replies: seq<Option<string>>)
    returns (outcome: AutoCreateOutcome)
    requires |replies| == |Unmapped(all, current)|
    ensures outcome == SpotifyNotConfigured <==> !spotifyConfigured
    ensures outcome == YTMusicNotConfigured <==> spotifyConfigured && !ytmusicConfigured
    ensures outcome == AllMapped <==> spotifyConfigured && ytmusicConfigured && Unmapped(all, current) == []
    ensures outcome.DryRun? <==> spotifyConfigured && ytmusicConfigured && Unmapped(all, current) != [] && dryRun
    ensures outcome.DryRun? ==> outcome.count == |Unmapped(all, current)|
    ensures outcome == Cancelled <==>
              && spotifyConfigured && ytmusicConfigured && Unmapped(all, current) != [] && !dryRun
              && Lower(Strip(confirm)) != "yes" && Lower(Strip(confirm)) != "y"
    ensures outcome.Done? ==>
              && |outcome.requests| == |Unmapped(all, current)|
              && (forall i :: 0 <= i < |outcome.requests| ==>
                    && outcome.requests[i].title == Unmapped(all, current)[i].name
                    && outcome.requests[i].description == SyncedDescription
                    && outcome.requests[i].privacy == PrivacyStatus(private))
              && outcome.newMappings == NewMappings(Unmapped(all, current), replies)
              && outcome.newMappings.Keys !! current.Keys
              && (forall k :: k in outcome.newMappings ==>
                    exists i :: 0 <= i < |all| && all[i].Playlist? && all[i].id == Some(k))
  {
    if !spotifyConfigured {
      return SpotifyNotConfigured;
    }
    if !ytmusicConfigured {
      return YTMusicNotConfigured;
    }
    var unmapped := Unmapped(all, current);
    if unmapped == [] {
      return AllMapped;
    }
    if dryRun {
      return DryRun(|unmapped|);
    }
    var answer := Lower(Strip(confirm));
    if answer != "yes" && answer != "y" {
      return Cancelled;
    }
    var requests, newMappings := CreateMissing(unmapped, private, replies);
    NewMappingsAreFresh(all, current, replies);
    NewMappingsFromListing(all, current, replies);
    outcome := Done(requests, newMappings);
  }
}

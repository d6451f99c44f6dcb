/**
  The mapping check of the app menu (`validate_mappings` in `app.py`): every Spotify to
  YouTube Music mapping is counted valid or listed as broken.

  The library listing is given as a sequence of entries; the direct playlist lookup
  (`get_playlist`) is the predicate `found`, true when the lookup succeeds.
*/
module MappingValidation {
  import opened Wrappers
  import opened Text

  /** One item of `get_library_playlists`: `None`, or a record whose `playlistId` may be absent. */
  datatype LibraryEntry = NullEntry | Entry(playlistId: Option<string>)

  /** A mapping as iterated: Spotify playlist id and YouTube Music playlist id. */
  type Mapping = seq<(string, string)>

  /** `entry and entry.get('playlistId')`: a present record with a non-empty id. */
  predicate HasId(entry: LibraryEntry) {
    entry.Entry? && entry.playlistId.Some? && entry.playlistId.value != ""
  }

  /** The ids of the library: the non-empty `playlistId` of every non-null entry. */
  method CollectKnownIds(library: seq<LibraryEntry>) returns (known: set<string>)
    ensures forall id :: id in known <==> exists i :: 0 <= i < |library| && HasId(library[i]) && library[i].playlistId.value == id
  {
    known := {};
    for i := 0 to |library|
      invariant forall id :: id in known <==> exists j :: 0 <= j < i && HasId(library[j]) && library[j].playlistId.value == id
    {
      var entry := library[i];
      if entry.Entry? && entry.playlistId.Some? && entry.playlistId.value != "" {
        known := known + {entry.playlistId.value};
      }
    }
  }

  /** A mapping is broken when its target is neither in the library nor found by a direct lookup. */
  predicate IsBroken(m: (string, string), known0: set<string>, found: string -> bool) {
    m.1 !in known0 && !found(m.1)
  }

  /** The broken mappings, in mapping order. */
  function Broken(mapping: Mapping, known0: set<string>, found: string -> bool): (r: Mapping)
    ensures |r| <= |mapping|
    ensures forall m :: m in r <==> m in mapping && IsBroken(m, known0, found)
  {
    if mapping == [] then []
    else
      var init := mapping[..|mapping| - 1];
      var last := mapping[|mapping| - 1];
      assert mapping == init + [last];
      Broken(init, known0, found) + (if IsBroken(last, known0, found) then [last] else [])
  }

  /** The targets confirmed by a direct lookup. */
  function Confirmed(mapping: Mapping, found: string -> bool): set<string> {
    set i | 0 <= i < |mapping| && found(mapping[i].1) :: mapping[i].1
  }

  /**
    The direct lookups made, in order, when the known set is `known` on entry: a target
    outside the set is looked up and, if found, joins the set.
  */
  function Lookups(mapping: Mapping, known: set<string>, found: string -> bool): seq<string> {
    if mapping == [] then []
    else
      var t := mapping[0].1;
      if t in known then Lookups(mapping[1..], known, found)
      else [t] + Lookups(mapping[1..], if found(t) then known + {t} else known, found)
  }

  /**
    The loop of `validate_mappings`. Every mapping is either valid or broken, the broken
    ones are exactly those whose target is unknown and not found, and the known set ends
    as the library ids plus every target a lookup confirmed.
  */
  method ValidateMappings(mapping: Mapping, known0: set<string>, found: string -> bool)
    returns (validCount: nat, broken: Mapping, known: set<string>, lookups: seq<string>)
    ensures validCount + |broken| == |mapping|
    ensures broken == Broken(mapping, known0, found)
    ensures known == known0 + Confirmed(mapping, found)
    ensures lookups == Lookups(mapping, known0, found)
  {
    validCount, broken, known, lookups := 0, [], known0, [];
    for i := 0 to |mapping|
      invariant validCount + |broken| == i
      invariant broken == Broken(mapping[..i], known0, found)
      invariant known == known0 + Confirmed(mapping[..i], found)
      invariant lookups + Lookups(mapping[i..], known, found) == Lookups(mapping, known0, found)
    {
      var (spId, ytId) := mapping[i];
      ValidateStep(mapping, i, known0, known, found, lookups);
      if ytId in known {
        validCount := validCount + 1;
      } else if found(ytId) {
        lookups := lookups + [ytId];
        validCount := validCount + 1;
        known := known + {ytId};
      } else {
        lookups := lookups + [ytId];
        broken := broken + [(spId, ytId)];
      }
    }
    assert mapping[..|mapping|] == mapping;
  }

  /** One turn of the loop of `validate_mappings`, for each of its three branches. */
  lemma ValidateStep(mapping: Mapping, i: int, known0: set<string>, known: set<string>, found: string -> bool,
                     lookups: seq<string>)
    requires 0 <= i < |mapping|
    requires known == known0 + Confirmed(mapping[..i], found)
    ensures var t := mapping[i].1;
            t in known ==>
              && known0 + Confirmed(mapping[..i + 1], found) == known
              && Broken(mapping[..i + 1], known0, found) == Broken(mapping[..i], known0, found)
              && lookups + Lookups(mapping[i..], known, found) == lookups + Lookups(mapping[i + 1..], known, found)
    ensures var t := mapping[i].1;
            t !in known && found(t) ==>
              && known0 + Confirmed(mapping[..i + 1], found) == known + {t}
              && Broken(mapping[..i + 1], known0, found) == Broken(mapping[..i], known0, found)
              && lookups + Lookups(mapping[i..], known, found) == lookups + [t] + Lookups(mapping[i + 1..], known + {t}, found)
    ensures var t := mapping[i].1;
            t !in known && !found(t) ==>
              && known0 + Confirmed(mapping[..i + 1], found) == known
              && Broken(mapping[..i + 1], known0, found) == Broken(mapping[..i], known0, found) + [mapping[i]]
              && lookups + Lookups(mapping[i..], known, found) == lookups + [t] + Lookups(mapping[i + 1..], known, found)
  {
    KnownStep(mapping, i, known0, known, found);
    BrokenStep(mapping, i, known0, found);
    LookupsStep(mapping, i, known, found, lookups);
  }

  lemma KnownStep(mapping: Mapping, i: int, known0: set<string>, known: set<string>, found: string -> bool)
    requires 0 <= i < |mapping|
    requires known == known0 + Confirmed(mapping[..i], found)
    ensures known0 + Confirmed(mapping[..i + 1], found) == if found(mapping[i].1) then known + {mapping[i].1} else known
    ensures IsBroken(mapping[i], known0, found) <==> mapping[i].1 !in known && !found(mapping[i].1)
  {
    ConfirmedStep(mapping, i, found);
    var t := mapping[i].1;
    if t in known && !(t in known0) {
      var j :| 0 <= j < i && found(mapping[..i][j].1) && mapping[..i][j].1 == t;
    }
  }

  lemma LookupsStep(mapping: Mapping, i: int, known: set<string>, found: string -> bool, lookups: seq<string>)
    requires 0 <= i < |mapping|
    ensures var t := mapping[i].1;
            lookups + Lookups(mapping[i..], known, found)
            == if t in known then lookups + Lookups(mapping[i + 1..], known, found)
               else lookups + [t] + Lookups(mapping[i + 1..], if found(t) then known + {t} else known, found)
  {
    assert mapping[i..][0] == mapping[i] && mapping[i..][1..] == mapping[i + 1..];
    var t := mapping[i].1;
    var next := if found(t) then known + {t} else known;
    assert lookups + ([t] + Lookups(mapping[i + 1..], next, found)) == lookups + [t] + Lookups(mapping[i + 1..], next, found);
  }

  lemma ConfirmedStep(mapping: Mapping, i: int, found: string -> bool)
    requires 0 <= i < |mapping|
    ensures Confirmed(mapping[..i + 1], found)
            == Confirmed(mapping[..i], found) + (if found(mapping[i].1) then {mapping[i].1} else {})
  {
    var done := mapping[..i + 1];
    assert forall j :: 0 <= j < i ==> done[j] == mapping[..i][j];
    assert done[i] == mapping[i];
  }

  lemma BrokenStep(mapping: Mapping, i: int, known0: set<string>, found: string -> bool)
    requires 0 <= i < |mapping|
    ensures Broken(mapping[..i + 1], known0, found)
            == Broken(mapping[..i], known0, found) + (if IsBroken(mapping[i], known0, found) then [mapping[i]] else [])
  {
    assert mapping[..i + 1][..i] == mapping[..i];
  }

  /** A target is looked up only while it is unknown: the ids already in the set are never fetched. */
  lemma {:induction false} LookupsAvoidKnown(mapping: Mapping, known: set<string>, found: string -> bool)
    ensures forall t :: t in Lookups(mapping, known, found) ==> t !in known
  {
    if mapping != [] {
      var t := mapping[0].1;
      var next := if t !in known && found(t) then known + {t} else known;
      LookupsAvoidKnown(mapping[1..], next, found);
    }
  }

  /** No confirmed id appears twice in `l`. */
  predicate OnlyFailuresRepeat(l: seq<string>, found: string -> bool) {
    forall i, j :: 0 <= i < j < |l| && l[i] == l[j] ==> !found(l[i])
  }

  /** A target confirmed by a lookup is never looked up again; only failing targets repeat. */
  lemma {:induction false} ConfirmedLookedUpOnce(mapping: Mapping, known: set<string>, found: string -> bool)
    ensures OnlyFailuresRepeat(Lookups(mapping, known, found), found)
  {
    if mapping != [] {
      var t := mapping[0].1;
      var next := if t !in known && found(t) then known + {t} else known;
      ConfirmedLookedUpOnce(mapping[1..], next, found);
      if t !in known {
        var l := Lookups(mapping, known, found);
        var rest := Lookups(mapping[1..], next, found);
        assert l == [t] + rest;
        assert OnlyFailuresRepeat(rest, found);
        if found(t) {
          LookupsAvoidKnown(mapping[1..], next, found);
        }
        forall i, j | 0 <= i < j < |l| && l[i] == l[j] ensures !found(l[i]) {
          if i == 0 {
            assert l[j] == rest[j - 1];
            assert rest[j - 1] in rest;
          } else {
            assert l[i] == rest[i - 1] && l[j] == rest[j - 1];
          }
        }
      }
    }
  }

  /** Mapping to an id already in the library never costs a lookup. */
  lemma {:induction false} KnownTargetsNeedNoLookup(mapping: Mapping, known: set<string>, found: string -> bool)
    requires forall i :: 0 <= i < |mapping| ==> mapping[i].1 in known
    ensures Lookups(mapping, known, found) == []
  {
    if mapping != [] {
      KnownTargetsNeedNoLookup(mapping[1..], known, found);
    }
  }

  /** What `validate_mappings` ends with. */
  datatype ValidationOutcome =
    | NoMappings
    | NotConfigured
    | AllValid(validCount: nat)
    | BrokenFound(validCount: nat, broken: Mapping, removeIds: seq<string>)  // removeIds: what the user agreed to drop

  /**
    `validate_mappings`: `configured` is the YouTube Music setup check, `library` the listing,
    `confirm` the answer to the removal question. The ids handed to the remover are the
    Spotify ids of the broken mappings, and only after a `y`.
  */
  method RunValidation(mapping: Mapping, configured: bool, library: seq<LibraryEntry>,
                       found: string -> bool, confirm: string)
    returns (outcome: ValidationOutcome)
    ensures mapping == [] <==> outcome == NoMappings
    ensures outcome == NotConfigured <==> mapping != [] && !configured
    ensures outcome.AllValid? ==> outcome.validCount == |mapping|
    ensures outcome.BrokenFound? ==>
              && outcome.broken != []
              && outcome.validCount + |outcome.broken| == |mapping|
              && (forall m :: m in outcome.broken ==> m in mapping && m.1 !in LibraryIdSet(library) && !found(m.1))
              && (Lower(Strip(confirm)) == "y" ==>
                    |outcome.removeIds| == |outcome.broken|
                    && forall k :: 0 <= k < |outcome.broken| ==> outcome.removeIds[k] == outcome.broken[k].0)
              && (Lower(Strip(confirm)) != "y" ==> outcome.removeIds == [])
    ensures mapping != [] && configured ==>
              (outcome.AllValid? <==> Broken(mapping, LibraryIdSet(library), found) == [])
    ensures outcome.BrokenFound? ==> outcome.broken == Broken(mapping, LibraryIdSet(library), found)
  {
    if mapping == [] {
      return NoMappings;
    }
    if !configured {
      return NotConfigured;
    }
    var known0 := CollectKnownIds(library);
    LibraryIds(library, known0);
    var validCount, broken, _, _ := ValidateMappings(mapping, known0, found);
    if broken == [] {
      return AllValid(validCount);
    }
    var removeIds := [];
    if Lower(Strip(confirm)) == "y" {
      removeIds := seq(|broken|, k requires 0 <= k < |broken| => broken[k].0);
    }
    outcome := BrokenFound(validCount, broken, removeIds);
  }

  /** The ids the library listing supplies. */
  function LibraryIdSet(library: seq<LibraryEntry>): set<string> {
    set i | 0 <= i < |library| && HasId(library[i]) :: library[i].playlistId.value
  }

  lemma LibraryIds(library: seq<LibraryEntry>, known: set<string>)
    requires forall id :: id in known <==> exists i :: 0 <= i < |library| && HasId(library[i]) && library[i].playlistId.value == id
    ensures known == LibraryIdSet(library)
  {
  }
}

/**
  The stand-alone playlist creator (`create_ytmusic_playlist.py`): the privacy menu, the
  guards of the interactive dialogue and the command-line dispatch. The YouTube Music call
  itself is not made; the model returns the request that would be sent.
*/
module PlaylistCreator {
  import opened Wrappers
  import opened Text

  /** The three privacy settings YouTube Music accepts. */
  const Privacies: set<string> := {"PRIVATE", "PUBLIC", "UNLISTED"}

  /** What `create_playlist` is called with. */
  datatype CreateRequest = CreateRequest(title: string, description: string, privacy: string)

  /** The menu choice table: "1", "2", "3" and the empty default. */
  const PrivacyMenu: map<string, string> := map["1" := "PRIVATE", "2" := "PUBLIC", "3" := "UNLISTED", "" := "PRIVATE"]

  /** `privacy_map.get(choice, "PRIVATE")`: only "2" and "3" pick something other than PRIVATE. */
  function PrivacyFor(choice: string): (p: string)
    ensures p in Privacies
    ensures p == "PUBLIC" <==> choice == "2"
    ensures p == "UNLISTED" <==> choice == "3"
    ensures p == "PRIVATE" <==> choice != "2" && choice != "3"
  {
    if choice in PrivacyMenu then PrivacyMenu[choice] else "PRIVATE"
  }

  /**
    `interactive_create` up to the API call: the four answers as typed. Nothing is created
    when the stripped name is empty or the confirmation is not `y`.
  */
  function InteractiveCreate(nameInput: string, descInput: string, choiceInput: string, confirmInput: string)
    : (r: Option<CreateRequest>)
    ensures r.None? <==> Strip(nameInput) == "" || Lower(Strip(confirmInput)) != "y"
    ensures r.Some? ==> r.value.title != "" && IsStripped(r.value.title) && Strip(nameInput) == r.value.title
    ensures r.Some? ==> r.value.description == Strip(descInput)
    ensures r.Some? ==> r.value.privacy == PrivacyFor(Strip(choiceInput))
  {
    var name := Strip(nameInput);
    if name == "" then None
    else
      var description := Strip(descInput);
      var privacy := PrivacyFor(Strip(choiceInput));
      var confirm := Lower(Strip(confirmInput));
      if confirm != "y" then None
      else Some(CreateRequest(name, description, privacy))
  }

  /** What `main` does with the command-line arguments after the script name. */
  datatype Command =
    | Interactive                    // no arguments
    | ListPlaylists                  // `list`
    | Create(request: CreateRequest) // `create <name> [description] [privacy]`
    | Exit(status: int)              // usage error, bad privacy or unknown command

  /**
    The argv dispatch of `main`; `args` is `sys.argv[1:]`. The command word is lower-cased,
    the privacy upper-cased; the name and description are taken as given.
  */
  function Dispatch(args: seq<string>): (c: Command)
    ensures c == Interactive <==> args == []
    ensures c == ListPlaylists <==> |args| >= 1 && Lower(args[0]) == "list"
    ensures c.Create? ==> && |args| >= 2 && Lower(args[0]) == "create"
                          && c.request.title == args[1]
                          && c.request.description == (if |args| > 2 then args[2] else "")
                          && c.request.privacy in Privacies
    ensures c.Exit? ==> c.status == 1
    ensures |args| >= 1 && Lower(args[0]) != "list" && Lower(args[0]) != "create" ==> c == Exit(1)
    ensures |args| >= 1 && Lower(args[0]) == "create" && |args| < 2 ==> c == Exit(1)
  {
    if args == [] then Interactive
    else
      var command := Lower(args[0]);
      if command == "list" then ListPlaylists
      else if command == "create" then
        if |args| < 2 then Exit(1)
        else
          var name := args[1];
          var description := if |args| > 2 then args[2] else "";
          var privacy := if |args| > 3 then Upper(args[3]) else "PRIVATE";
          if privacy !in Privacies then Exit(1)
          else Create(CreateRequest(name, description, privacy))
      else Exit(1)
  }

  /** A privacy argument is accepted in any letter case, and rejected exactly when its upper-case form is not a setting. */
  lemma PrivacyArgument(args: seq<string>)
    requires |args| >= 4 && Lower(args[0]) == "create"
    ensures Upper(args[3]) in Privacies ==> Dispatch(args) == Create(CreateRequest(args[1], args[2], Upper(args[3])))
    ensures Upper(args[3]) !in Privacies ==> Dispatch(args) == Exit(1)
  {
  }

  /** Without a privacy argument the playlist is private. */
  lemma PrivacyDefault(args: seq<string>)
    requires 2 <= |args| <= 3 && Lower(args[0]) == "create"
    ensures Dispatch(args).Create? && Dispatch(args).request.privacy == "PRIVATE"
  {
  }

  /** The command word is case-insensitive: lower-casing it first changes nothing. */
  lemma CommandCaseInsensitive(args: seq<string>)
    requires |args| >= 1
    ensures Dispatch([Lower(args[0])] + args[1..]) == Dispatch(args)
  {
    var args' := [Lower(args[0])] + args[1..];
    LowerIdempotent(args[0]);
    assert args'[0] == Lower(args[0]) && args'[1..] == args[1..];
  }
}

/**
  Two dialogs of the app menu in `app.py`: the quick YouTube Music setup (`setup_ytmusic`),
  which collects pasted request headers the same way the stand-alone browser setup does but
  also stops on Ctrl-C, and the privacy choice of `create_ytmusic_playlist_interactive`.
*/
module AppDialogs {
  import opened Text
  import BrowserAuth
  import PlaylistCreator

  // ---------------------------------------------------------------------------
  // Header paste of setup_ytmusic
  // ---------------------------------------------------------------------------

  /** One read of `input()`: a typed line, or Ctrl-C. The end of the sequence is EOF. */
  datatype PasteEvent = Line(text: string) | Interrupt

  /** The lines typed before the first Ctrl-C (or all of them when there is none). */
  function TypedLines(events: seq<PasteEvent>): (r: seq<string>)
    ensures |r| <= |events|
    ensures forall k :: 0 <= k < |r| ==> events[k] == Line(r[k])
    ensures |r| < |events| ==> events[|r|] == Interrupt
  {
    if events == [] || events[0] == Interrupt then []
    else [events[0].text] + TypedLines(events[1..])
  }

  /**
    The paste loop of `setup_ytmusic`: non-blank lines are kept until two consecutive blank
    lines, EOF or Ctrl-C. It keeps what the stand-alone collector keeps from the lines typed
    before the interrupt.
  */
  method CollectHeaderPaste(events: seq<PasteEvent>) returns (lines: seq<string>)
    ensures var typed := TypedLines(events);
            lines == BrowserAuth.NonBlank(typed[..BrowserAuth.LinesRead(typed)])
  {
    ghost var typed := TypedLines(events);
    lines := [];
    var emptyCount := 0;
    var read := 0;
    while read < |events|
      invariant read <= |typed|
      invariant emptyCount == (if read > 0 && IsBlank(typed[read - 1]) then 1 else 0)
      invariant forall k :: 0 <= k < read ==> !BrowserAuth.DoubleBlankAt(typed, k)
      invariant lines == BrowserAuth.NonBlank(typed[..read])
    {
      TypedAt(events, read);
      if events[read] == Interrupt {
        break;
      }
      var line := events[read].text;
      BrowserAuth.PasteStep(typed, read, emptyCount);
      read := read + 1;
      if Strip(line) == "" {
        emptyCount := emptyCount + 1;
        if emptyCount >= 2 {
          return;
        }
      } else {
        emptyCount := 0;
        lines := lines + [line];
      }
    }
    BrowserAuth.FirstDoubleBlank(typed, read);
  }

  /** Reading event `i` after `i` typed lines: a line is the next typed one, Ctrl-C ends them. */
  lemma TypedAt(events: seq<PasteEvent>, i: nat)
    requires i <= |TypedLines(events)| && i < |events|
    ensures events[i].Line? ==> i < |TypedLines(events)| && TypedLines(events)[i] == events[i].text
    ensures events[i] == Interrupt ==> i == |TypedLines(events)|
  {
  }

  /** What `setup_ytmusic` ends with, before `ytmusicapi.setup` is called. */
  datatype YTMusicOutcome =
    | Declined               // the quick setup was not chosen
    | TooShort               // pasted text empty or under 100 characters
    | Handoff(text: string)  // the headers passed to `ytmusicapi.setup`

  /**
    `setup_ytmusic`: `choice` answers "Continue with quick setup here?", `events` is the paste.
    The text handed on is the text the stand-alone browser setup would build from the lines
    typed before any Ctrl-C, and it passes the same length gate.
  */
  method SetupYTMusic(choice: string, events: seq<PasteEvent>) returns (outcome: YTMusicOutcome)
    ensures outcome == Declined <==> Lower(Strip(choice)) != "y"
    ensures outcome == TooShort <==>
              Lower(Strip(choice)) == "y" && !BrowserAuth.LongEnough(BrowserAuth.PastedText(TypedLines(events)))
    ensures outcome.Handoff? ==>
              && outcome.text == BrowserAuth.PastedText(TypedLines(events))
              && BrowserAuth.LongEnough(outcome.text)
  {
    if Lower(Strip(choice)) != "y" {
      return Declined;
    }
    var lines := CollectHeaderPaste(events);
    var text := Join(lines, '\n');
    if text == "" || |text| < 100 {
      return TooShort;
    }
    outcome := Handoff(text);
  }

  /** Without Ctrl-C the quick setup collects exactly what the stand-alone setup collects. */
  lemma {:induction false} NoInterruptSameLines(input: seq<string>)
    ensures TypedLines(seq(|input|, k requires 0 <= k < |input| => Line(input[k]))) == input
    decreases |input|
  {
    var events := seq(|input|, k requires 0 <= k < |input| => Line(input[k]));
    if input != [] {
      assert events[0] == Line(input[0]);
      var rest := seq(|input| - 1, k requires 0 <= k < |input| - 1 => Line(input[1..][k]));
      assert events[1..] == rest;
      NoInterruptSameLines(input[1..]);
      assert input == [input[0]] + input[1..];
    }
  }

  /** Everything typed after a Ctrl-C is ignored. */
  lemma {:induction false} InterruptEndsPaste(before: seq<PasteEvent>, after: seq<PasteEvent>)
    requires Interrupt !in before
    ensures TypedLines(before + [Interrupt] + after) == TypedLines(before)
    decreases |before|
  {
    if before == [] {
      assert (before + [Interrupt] + after)[0] == Interrupt;
    } else {
      assert (before + [Interrupt] + after)[1..] == before[1..] + [Interrupt] + after;
      assert before[0] in before;
      InterruptEndsPaste(before[1..], after);
    }
  }

  // ---------------------------------------------------------------------------
  // Privacy choice of create_ytmusic_playlist_interactive
  // ---------------------------------------------------------------------------

  /** The app's own copy of the privacy table. */
  const PrivacyOptions: map<string, string> := map["1" := "PRIVATE", "2" := "PUBLIC", "3" := "UNLISTED", "" := "PRIVATE"]

  /** `privacy_map.get(privacy_choice, "PRIVATE")`: it agrees with the stand-alone creator's table on every choice. */
  function PrivacyStatus(choice: string): (p: string)
    ensures p == PlaylistCreator.PrivacyFor(choice)
    ensures p in PlaylistCreator.Privacies
  {
    if choice in PrivacyOptions then PrivacyOptions[choice] else "PRIVATE"
  }
}

/**
 * The progress display. The page script of `setup_progress_monitoring` (app.py)
 * watches the progress panel and, on every mutation, serializes the three progress
 * texts; it dispatches an event only when that serialization differs from the last
 * one it dispatched. A listener logs each event as `PROGRESS_UPDATE:` followed by the
 * JSON of the event's detail, and `handle_console` turns such console lines back into
 * a status line on the terminal.
 */
module Progress {
  import opened Wrappers
  import opened Text
  import opened Json

  /**
   * The `textContent` of `.current-title`, `.next-left` and `.next-title`; `None` when
   * the element is missing and optional chaining yields `undefined`.
   */
  datatype Snapshot = Snapshot(currentTitle: Option<string>, nextLeft: Option<string>, nextTitle: Option<string>)

  /** The object literal `{currentTitle, nextLeft, nextTitle}`, member by member. */
  function Entries(snap: Snapshot): seq<(string, Option<string>)>
  {
    [("currentTitle", snap.currentTitle), ("nextLeft", snap.nextLeft), ("nextTitle", snap.nextTitle)]
  }

  /** `JSON.stringify({currentTitle, nextLeft, nextTitle})`. */
  function Serialize(snap: Snapshot): string
  {
    StringifyObject(Entries(snap))
  }

  /** `key in status`, as an option. */
  function Lookup(status: map<string, string>, key: string): Option<string>
  {
    if key in status then Some(status[key]) else None
  }

  lemma EntryKeys(snap: Snapshot)
    ensures DistinctKeys(Entries(snap))
    ensures Find(Entries(snap), "currentTitle") == snap.currentTitle
    ensures Find(Entries(snap), "nextLeft") == snap.nextLeft
    ensures Find(Entries(snap), "nextTitle") == snap.nextTitle
  {
    var e := Entries(snap);
    assert |e[0].0| == 12 && |e[1].0| == 8 && |e[2].0| == 9;
    assert e[1..][0] == e[1] && e[1..][1..] == [e[2]];
    assert Find(e, "nextTitle") == Find(e[1..], "nextTitle") == Find([e[2]], "nextTitle");
  }

  /** Decoding a serialized snapshot gives back each of its three texts. */
  lemma DecodeSerialized(snap: Snapshot)
    ensures Loads(Serialize(snap)).Ok?
    ensures var status := Loads(Serialize(snap)).value;
            Lookup(status, "currentTitle") == snap.currentTitle
            && Lookup(status, "nextLeft") == snap.nextLeft
            && Lookup(status, "nextTitle") == snap.nextTitle
  {
    LoadsStringify(Entries(snap));
    EntryKeys(snap);
    EnterPresent(map[], Entries(snap), "currentTitle");
    EnterPresent(map[], Entries(snap), "nextLeft");
    EnterPresent(map[], Entries(snap), "nextTitle");
  }

  /** Different snapshots serialize differently, so comparing serializations compares snapshots. */
  lemma SerializeInjective(a: Snapshot, b: Snapshot)
    ensures Serialize(a) == Serialize(b) <==> a == b
  {
    DecodeSerialized(a);
    DecodeSerialized(b);
  }

  /** A serialization is never the initial `lastUpdate`, the empty string. */
  lemma SerializeNonEmpty(snap: Snapshot)
    ensures Serialize(snap) != ""
  {
    assert Serialize(snap)[0] == '{';
  }

  // ---------------------------------------------------------------- the debounce

  /**
   * The events dispatched for a series of observed snapshots: a snapshot is dispatched
   * unless it equals the last one dispatched.
   */
  function Emitted(observed: seq<Snapshot>): (events: seq<Snapshot>)
    ensures |events| <= |observed|
  {
    if observed == [] then [] else Dispatch(Emitted(observed[..|observed| - 1]), observed[|observed| - 1])
  }

  /** One debounce decision: `snap` is dispatched unless it equals the last event. */
  function Dispatch(events: seq<Snapshot>, snap: Snapshot): seq<Snapshot>
  {
    if events != [] && events[|events| - 1] == snap then events else events + [snap]
  }

  /** After anything was observed, the last event carries the latest snapshot. */
  lemma EmittedEndsWithLatest(observed: seq<Snapshot>)
    requires observed != []
    ensures Emitted(observed) != []
    ensures Emitted(observed)[|Emitted(observed)| - 1] == observed[|observed| - 1]
  {
  }

  /** Observing one more snapshot appends it to the events unless it repeats the last event. */
  lemma EmittedStep(observed: seq<Snapshot>, snap: Snapshot)
    ensures Emitted(observed + [snap]) == Dispatch(Emitted(observed), snap)
  {
    var longer := observed + [snap];
    assert longer != [] && longer[..|longer| - 1] == observed && longer[|longer| - 1] == snap;
  }

  predicate NoConsecutiveRepeats(events: seq<Snapshot>)
  {
    forall i :: 0 < i < |events| ==> events[i - 1] != events[i]
  }

  /** No two consecutive events carry the same snapshot. */
  lemma {:induction false} EmittedNoConsecutiveRepeats(observed: seq<Snapshot>)
    ensures NoConsecutiveRepeats(Emitted(observed))
  {
    if observed != [] {
      var prefix := observed[..|observed| - 1];
      EmittedNoConsecutiveRepeats(prefix);
      var earlier := Emitted(prefix);
      var snap := observed[|observed| - 1];
      if !(earlier != [] && earlier[|earlier| - 1] == snap) {
        AppendKeepsNoRepeats(earlier, snap);
      }
    }
  }

  lemma AppendKeepsNoRepeats(events: seq<Snapshot>, snap: Snapshot)
    requires NoConsecutiveRepeats(events)
    requires events != [] ==> events[|events| - 1] != snap
    ensures NoConsecutiveRepeats(events + [snap])
  {
    var longer := events + [snap];
    forall i | 0 < i < |longer| ensures longer[i - 1] != longer[i] {
      if i < |events| {
        assert longer[i - 1] == events[i - 1] && longer[i] == events[i];
      }
    }
  }

  /** Every event carries a snapshot that was observed. */
  lemma {:induction false} EmittedWereObserved(observed: seq<Snapshot>)
    ensures forall e :: e in Emitted(observed) ==> e in observed
  {
    if observed != [] {
      var prefix := observed[..|observed| - 1];
      EmittedWereObserved(prefix);
      assert forall e :: e in prefix ==> e in observed;
    }
  }

  /** Observing the same snapshot twice in a row emits no more than observing it once. */
  lemma RepeatIsSilent(observed: seq<Snapshot>, snap: Snapshot)
    ensures Emitted(observed + [snap, snap]) == Emitted(observed + [snap])
  {
    var once := observed + [snap];
    var twice := observed + [snap, snap];
    assert twice[..|twice| - 1] == once;
    EmittedEndsWithLatest(once);
  }

  /** The string `lastUpdate` holds once `events` have been dispatched. */
  function LastUpdate(events: seq<Snapshot>): string
  {
    if events == [] then "" else Serialize(events[|events| - 1])
  }

  /**
   * Comparing serializations, as the script does, is comparing the snapshot with the
   * last one dispatched, so the script dispatches exactly what `Emitted` describes.
   */
  lemma DebounceStep(observed: seq<Snapshot>, snap: Snapshot)
    ensures var events := Emitted(observed);
            Emitted(observed + [snap])
            == if Serialize(snap) != LastUpdate(events) then events + [snap] else events
  {
    LastUpdateDiffers(Emitted(observed), snap);
    EmittedStep(observed, snap);
  }

  /** A snapshot's serialization differs from `lastUpdate` unless it repeats the last event. */
  lemma LastUpdateDiffers(events: seq<Snapshot>, snap: Snapshot)
    ensures Serialize(snap) != LastUpdate(events) <==> !(events != [] && events[|events| - 1] == snap)
  {
    if events != [] {
      SerializeInjective(snap, events[|events| - 1]);
    } else {
      SerializeNonEmpty(snap);
    }
  }

  /** The page-side observer: the captured `lastUpdate` string, with its history as ghost state. */
  class ProgressObserver {
    var lastUpdate: string
    ghost var observed: seq<Snapshot>
    ghost var events: seq<Snapshot>

    /** `lastUpdate` is the serialization of the last dispatched snapshot, `''` before any. */
    ghost predicate Valid()
      reads this
    {
      events == Emitted(observed) && lastUpdate == LastUpdate(events)
    }

    constructor ()
      ensures Valid() && lastUpdate == "" && observed == [] && events == []
    {
      lastUpdate := "";
      observed := [];
      events := [];
    }

    /** One call of the MutationObserver callback; returns the dispatched event's detail, if any. */
    method OnMutation(snap: Snapshot) returns (event: Option<Snapshot>)
      requires Valid()
      modifies this
      ensures Valid()
      ensures event.Some? <==> Serialize(snap) != old(lastUpdate)
      ensures event.Some? ==> event.value == snap
      ensures lastUpdate == Serialize(snap)
      ensures observed == old(observed) + [snap]
      ensures events == old(events) + (if event.Some? then [snap] else [])
    {
      var update := Serialize(snap);
      DebounceStep(observed, snap);
      if update != lastUpdate {
        lastUpdate := update;
        event := Some(snap);
        events := events + [snap];
      } else {
        event := None;
      }
      observed := observed + [snap];
    }
  }

  /** The script's set-up: without the progress panel it returns before creating an observer. */
  method SetupProgressMonitoring(panelPresent: bool) returns (observer: Option<ProgressObserver>)
    ensures observer.Some? <==> panelPresent
    ensures observer.Some? ==> fresh(observer.value) && observer.value.Valid()
                               && observer.value.lastUpdate == "" && observer.value.observed == []
  {
    if panelPresent {
      var o := new ProgressObserver();
      observer := Some(o);
    } else {
      observer := None;
    }
  }

  // ---------------------------------------------------------------- the console bridge

  const Tag := "PROGRESS_UPDATE:"

  /** The console line the page logs for a dispatched event. */
  function BridgeLine(snap: Snapshot): string
  {
    Tag + Serialize(snap)
  }

  datatype Failure =
    | DecodeFailed(error: DecodeError)   // `json.loads` raised, or gave something other than a dict of strings
    | KeyError(key: string)              // the decoded object lacks a key the f-string reads

  /** What `handle_console` does with one console message. */
  datatype ConsoleEffect = Ignored | Wrote(line: string) | Raised(failure: Failure)

  /** The f-string of `handle_console`. */
  function StatusLine(currentTitle: string, nextLeft: string, nextTitle: string): string
  {
    currentTitle + " - " + nextLeft + " points to " + nextTitle + "\n"
  }

  /**
   * `handle_console(msg)` for `msg.text == text`. Only tagged lines are handled; every
   * occurrence of the tag is removed before decoding, and the f-string reads the three
   * keys left to right, so the first missing one raises.
   */
  function HandleConsole(text: string): (effect: ConsoleEffect)
    ensures effect.Ignored? <==> !StartsWith(text, Tag)
    ensures effect.Wrote? ==>
              exists status :: Loads(Replace(text, Tag, "")) == Ok(status)
                && "currentTitle" in status && "nextLeft" in status && "nextTitle" in status
                && effect.line == StatusLine(status["currentTitle"], status["nextLeft"], status["nextTitle"])
    ensures StartsWith(text, Tag) ==>
              var decoded := Loads(Replace(text, Tag, ""));
              (decoded.Err? ==> effect == Raised(DecodeFailed(decoded.error)))
              && (decoded.Ok? ==> HandlesStatus(decoded.value, effect))
  {
    if !StartsWith(text, Tag) then Ignored
    else match Loads(Replace(text, Tag, ""))
      case Err(e) => Raised(DecodeFailed(e))
      case Ok(status) =>
        if "currentTitle" !in status then Raised(KeyError("currentTitle"))
        else if "nextLeft" !in status then Raised(KeyError("nextLeft"))
        else if "nextTitle" !in status then Raised(KeyError("nextTitle"))
        else Wrote(StatusLine(status["currentTitle"], status["nextLeft"], status["nextTitle"]))
  }

  /**
   * What the f-string does with a decoded dict: it raises the `KeyError` of the first
   * missing key, read left to right, and otherwise the status line is written.
   */
  predicate HandlesStatus(status: map<string, string>, effect: ConsoleEffect)
  {
    if "currentTitle" !in status then effect == Raised(KeyError("currentTitle"))
    else if "nextLeft" !in status then effect == Raised(KeyError("nextLeft"))
    else if "nextTitle" !in status then effect == Raised(KeyError("nextTitle"))
    else effect == Wrote(StatusLine(status["currentTitle"], status["nextLeft"], status["nextTitle"]))
  }

  /** The terminal effect a snapshot is meant to have: its status line, or the first missing key. */
  function Displayed(snap: Snapshot): ConsoleEffect
  {
    if snap.currentTitle.None? then Raised(KeyError("currentTitle"))
    else if snap.nextLeft.None? then Raised(KeyError("nextLeft"))
    else if snap.nextTitle.None? then Raised(KeyError("nextTitle"))
    else Wrote(StatusLine(snap.currentTitle.value, snap.nextLeft.value, snap.nextTitle.value))
  }

  /** None of the three texts contains `c`. */
  predicate TextsAvoid(snap: Snapshot, c: char)
  {
    (snap.currentTitle.Some? ==> c !in snap.currentTitle.value)
    && (snap.nextLeft.Some? ==> c !in snap.nextLeft.value)
    && (snap.nextTitle.Some? ==> c !in snap.nextTitle.value)
  }

  /** A decoded payload that round-trips a snapshot is displayed as that snapshot. */
  lemma HandleDecoded(text: string, snap: Snapshot)
    requires StartsWith(text, Tag) && Replace(text, Tag, "") == Serialize(snap)
    ensures HandleConsole(text) == Displayed(snap)
  {
    DecodeSerialized(snap);
  }

  /** The serialization of a snapshot whose texts avoid `_` does not contain the tag. */
  lemma SerializeAvoidsTag(snap: Snapshot)
    requires TextsAvoid(snap, '_')
    ensures Replace(Serialize(snap), Tag, "") == Serialize(snap)
  {
    var e := Entries(snap);
    assert '_' !in "currentTitle" && '_' !in "nextLeft" && '_' !in "nextTitle";
    assert EntriesAvoid(e, '_');
    StringifyAvoids(e, '_');
    assert Tag[8] == '_';
    ReplaceWithoutChar(Serialize(snap), Tag, "", '_');
  }

  /**
   * A line the page logs for a snapshot is consumed into that snapshot's status line
   * (or the KeyError of its first missing text), provided no text contains `_` and so
   * cannot hold a copy of the tag.
   */
  lemma ConsumeBridgeLine(snap: Snapshot)
    requires TextsAvoid(snap, '_')
    ensures HandleConsole(BridgeLine(snap)) == Displayed(snap)
  {
    var y := Serialize(snap);
    assert (Tag + y)[..|Tag|] == Tag;
    ReplaceLeading(Tag, y, "");
    SerializeAvoidsTag(snap);
    assert "" + y == y;
    HandleDecoded(Tag + y, snap);
  }

  /**
   * `replace` drops every copy of the tag, not only the leading one: a current title
   * that itself starts with the tag is shown without it.
   */
  lemma TaggedTitleIsStripped(snap: Snapshot, title: string)
    requires snap.currentTitle == Some(Tag + title)
    requires TextsAvoid(snap.(currentTitle := Some(title)), '_')
    ensures HandleConsole(BridgeLine(snap)) == Displayed(snap.(currentTitle := Some(title)))
  {
    var shown := snap.(currentTitle := Some(title));
    var x, y := SplitAroundTitle(snap, title);
    SerializeAvoidsTag(shown);
    RemoveBothCopies(Tag, x, y);
    assert BridgeLine(snap) == Tag + (x + (Tag + y));
    HandleDecoded(BridgeLine(snap), shown);
  }

  /**
   * The serialization of a snapshot whose current title starts with the tag, cut at
   * that copy of the tag: the text `x` before it and the text `y` after it, which
   * together serialize the snapshot without the tag.
   */
  lemma SplitAroundTitle(snap: Snapshot, title: string) returns (x: string, y: string)
    requires snap.currentTitle == Some(Tag + title)
    ensures Serialize(snap) == x + (Tag + y)
    ensures Serialize(snap.(currentTitle := Some(title))) == x + y
    ensures Tag[0] !in x
  {
    var shown := snap.(currentTitle := Some(title));
    var others := Entries(snap)[1..];
    assert Entries(snap) == [("currentTitle", Some(Tag + title))] + others;
    assert Entries(shown) == [("currentTitle", Some(title))] + others;
    assert AllPlain(Tag) && Tag[0] == 'P';
    assert OutsideSyntax('P') && 'P' !in "currentTitle";
    x, y := SplitFirstValue("currentTitle", Tag, title, others, 'P');
  }
}

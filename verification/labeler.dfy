/** The script's mutable state and the loops that change it: the module
    globals `x0, y0, is_drawing` updated by the mouse callback, the output
    file (as the sequence of records it holds), the polling loop of
    `render_image` and the loop over the directory. Each method is proved
    against the value-level specification in Sessions and Batches. */
module FlowVizLabeler {
  import opened Geometry
  import opened Records
  import opened Extensions
  import opened Sessions
  import opened Batches

  class Labeler {
    var x0: int
    var y0: int
    var isDrawing: bool
    /** The records in the output file, in file order. */
    var log: seq<Record>

    function State(): Tracker
      reads this
    {
      Tracker(Point(x0, y0), isDrawing, log)
    }

    /** Module load: `x0, y0 = -1, -1` and `is_drawing = False`; the output
        file may already hold records from earlier runs. */
    constructor (existing: seq<Record>)
      ensures State() == Tracker(UNSET, false, existing)
    {
      x0, y0 := -1, -1;
      isDrawing := false;
      log := existing;
    }

    /** `EVENT_LBUTTONDOWN`: the press point becomes the origin, overriding
        any drag in progress. Nothing is written. */
    method Press(x: int, y: int)
      modifies this
      ensures x0 == x && y0 == y && isDrawing
      ensures log == old(log)
    {
      isDrawing := true;
      x0, y0 := x, y;
    }

    /** `EVENT_MOUSEMOVE`: changes no state; a preview dot is drawn only
        while a drag is in progress. */
    method Move(x: int, y: int) returns (dotDrawn: bool)
      ensures dotDrawn == isDrawing
    {
      dotDrawn := isDrawing;
    }

    /** `EVENT_LBUTTONUP`: commits one record for the current image, centred
        at the origin with the truncated distance to the release point as
        radius. It does not look at `is_drawing`, so without a press it uses
        whatever origin is left (the sentinel, or a previous image's press). */
    method Release(x: int, y: int, filename: string)
      modifies this
      ensures x0 == old(x0) && y0 == old(y0) && !isDrawing
      ensures log == old(log) + [Record(filename, Point(x0, y0), Radius(Point(x0, y0), Point(x, y)))]
    {
      var radius := Radius(Point(x0, y0), Point(x, y));
      isDrawing := false;
      log := log + [Record(filename, Point(x0, y0), radius)];
    }

    /** The `while True` loop of `render_image` for an image that loaded:
        mouse events go to the callback, keys are reduced to their low byte
        and n/N, s/S or q/Q end the review. */
    method Review(events: seq<Event>, filename: string) returns (outcome: Outcome, rest: seq<Event>)
      modifies this
      ensures SessionResult(outcome, State(), rest) == Session(old(State()), events, filename)
    {
      var i := 0;
      while i < |events|
        invariant 0 <= i <= |events|
        invariant Session(old(State()), events, filename) == Session(State(), events[i..], filename)
      {
        assert events[i..][1..] == events[i + 1..];
        match events[i] {
          case Press(x, y) =>
            Press(x, y);
          case Move(x, y) =>
            var _ := Move(x, y);
          case Release(x, y) =>
            Release(x, y, filename);
          case Key(code) =>
            var d := Decide(code);
            if d == Next {
              return Advance(false), events[i + 1..];
            } else if d == Scrap {
              log := DeleteRecords(log, filename);
              return Advance(true), events[i + 1..];
            } else if d == Quit {
              return Stop, events[i + 1..];
            }
        }
        i := i + 1;
      }
      return Pending, [];
    }

    /** `render_image(filepath)` for a file name: the extension check of
        `load_image`, then the review. A rejected name is skipped. */
    method RenderImage(name: string, events: seq<Event>) returns (outcome: Outcome, rest: seq<Event>)
      modifies this
      ensures SessionResult(outcome, State(), rest) == Render(old(State()), name, events)
    {
      if !HasValidExtension(name) {
        return Skipped, events;
      }
      outcome, rest := Review(events, name);
    }

    /** The directory loop: render each name in order and stop at the first
        truthy return value (`sys.exit(-1)`), or when the input runs out
        while a review is still polling; `rest` is the input left unread. */
    method RunDirectory(names: seq<string>, events: seq<Event>) returns (status: BatchStatus, visited: nat, rendered: seq<string>, rest: seq<Event>)
      modifies this
      ensures BatchResult(status, State(), visited, rendered, rest) == Batch(old(State()), names, events)
    {
      var i := 0;
      var input := events;
      rendered := [];
      while i < |names|
        invariant 0 <= i <= |names|
        invariant Batch(old(State()), names, events) == Shift(Batch(State(), names[i..], input), i, rendered)
      {
        BatchStep(State(), names, input, i, rendered);
        var outcome;
        outcome, input := RenderImage(names[i], input);
        var shown := if outcome == Skipped then [] else [names[i]];
        if outcome == Pending {
          return Waiting, i + 1, rendered + shown, input;
        }
        if Truthy(outcome) {
          return QuitExit, i + 1, rendered + shown, input;
        }
        rendered := rendered + shown;
        i := i + 1;
      }
      assert names[i..] == [];
      return Finished, |names|, rendered, input;
    }
  }
}

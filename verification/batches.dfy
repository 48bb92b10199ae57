/** The directory branch of the script's entry point: one review per file
    name, in the given (sorted) order, ending the run at the first review
    whose return value is truthy. */
module Batches {
  import opened Records
  import opened Extensions
  import opened Sessions

  /** `render_image` for one file name, with the corrected handling of an
      unrecognised extension: the name is skipped (the bare `return`, i.e.
      None) and the state and input are left as they were. */
  function Render(t: Tracker, name: string, events: seq<Event>): SessionResult {
    if HasValidExtension(name) then Session(t, events, name)
    else SessionResult(Skipped, t, events)
  }

  /** `if quit:` on the value `render_image` returned: 1 is truthy, 0 and None are not. */
  predicate Truthy(o: Outcome) {
    o == Stop
  }

  /** How the run ends: every name was visited, the operator quit
      (`sys.exit(-1)`), the input ran out while a review was still polling,
      or an exception escaped. */
  datatype BatchStatus = Finished | QuitExit | Waiting | Crashed

  /** `visited` counts the names the loop reached; `rendered` lists those
      that were displayed, in order; `rest` is the input the run left unread. */
  datatype BatchResult = BatchResult(status: BatchStatus, after: Tracker, visited: nat, rendered: seq<string>, rest: seq<Event>)

  /** The names with a recognised extension, in order. */
  function ValidOnly(names: seq<string>): seq<string> {
    if names == [] then []
    else (if HasValidExtension(names[0]) then [names[0]] else []) + ValidOnly(names[1..])
  }

  /** A result of the loop over the remaining names, seen from `done` names earlier. */
  function Shift(b: BatchResult, done: nat, shown: seq<string>): BatchResult {
    b.(visited := b.visited + done, rendered := shown + b.rendered)
  }

  /** The `for filename in sorted(os.listdir(dirpath))` loop, with the
      invalid-extension path skipping the name. */
  function Batch(t: Tracker, names: seq<string>, events: seq<Event>): (b: BatchResult)
    decreases |names|
  {
    if names == [] then BatchResult(Finished, t, 0, [], events)
    else
      var s := Render(t, names[0], events);
      var shown := if s.outcome == Skipped then [] else [names[0]];
      if s.outcome == Pending then BatchResult(Waiting, s.after, 1, shown, s.rest)
      else if Truthy(s.outcome) then BatchResult(QuitExit, s.after, 1, shown, s.rest)
      else Shift(Batch(s.after, names[1..], s.rest), 1, shown)
  }

  /** One turn of the loop, seen from the names already done: render the
      next name, then stop, or go on with the rest of the names and input. */
  lemma BatchStep(t: Tracker, names: seq<string>, events: seq<Event>, done: nat, rendered: seq<string>)
    requires done < |names|
    ensures var s := Render(t, names[done], events);
            var shown := if s.outcome == Skipped then [] else [names[done]];
            Shift(Batch(t, names[done..], events), done, rendered)
              == if s.outcome == Pending then BatchResult(Waiting, s.after, done + 1, rendered + shown, s.rest)
                 else if Truthy(s.outcome) then BatchResult(QuitExit, s.after, done + 1, rendered + shown, s.rest)
                 else Shift(Batch(s.after, names[done + 1..], s.rest), done + 1, rendered + shown)
  {
    var s := Render(t, names[done], events);
    var shown := if s.outcome == Skipped then [] else [names[done]];
    assert names[done..][0] == names[done] && names[done..][1..] == names[done + 1..];
    if s.outcome != Pending && !Truthy(s.outcome) {
      var b := Batch(s.after, names[done + 1..], s.rest);
      assert rendered + (shown + b.rendered) == (rendered + shown) + b.rendered;
    }
  }

  /** A name is skipped exactly when its extension is not recognised. */
  lemma RenderSkipsOnlyInvalid(t: Tracker, name: string, events: seq<Event>)
    ensures Render(t, name, events).outcome == Skipped <==> !HasValidExtension(name)
  {
  }

  /** The loop visits a prefix of the names in order and displays exactly the
      recognised ones among them. */
  lemma {:induction false} BatchVisitsPrefix(t: Tracker, names: seq<string>, events: seq<Event>)
    ensures var b := Batch(t, names, events);
            b.visited <= |names| && b.rendered == ValidOnly(names[..b.visited])
    decreases |names|
  {
    if names != [] {
      var s := Render(t, names[0], events);
      var shown := if HasValidExtension(names[0]) then [names[0]] else [];
      assert Batch(t, names, events) == Shift(Batch(t, names[0..], events), 0, []);
      BatchStep(t, names, events, 0, []);
      RenderSkipsOnlyInvalid(t, names[0], events);
      if s.outcome != Pending && !Truthy(s.outcome) {
        var b := Batch(s.after, names[1..], s.rest);
        BatchVisitsPrefix(s.after, names[1..], s.rest);
        ValidOnlyPrefix(names, b.visited);
      } else {
        ValidOnlyPrefix(names, 0);
        assert ValidOnly(names[1..][..0]) == [];
      }
    }
  }

  /** The recognised names among the first v + 1: the first name if it is
      recognised, then those among the v after it. */
  lemma ValidOnlyPrefix(names: seq<string>, v: nat)
    requires v < |names|
    ensures ValidOnly(names[..v + 1])
         == (if HasValidExtension(names[0]) then [names[0]] else []) + ValidOnly(names[1..][..v])
  {
    var seen := names[..v + 1];
    assert seen[0] == names[0] && seen[1..] == names[1..][..v];
  }

  /** The loop never crashes: it finishes after the last name, or ends early
      on an image it displayed (the one quit on, or the one still waiting for
      a key), and names after that one are never reached. */
  lemma {:induction false} BatchEndsOnDisplayed(t: Tracker, names: seq<string>, events: seq<Event>)
    ensures var b := Batch(t, names, events);
            && b.status != Crashed
            && (b.status == Finished ==> b.visited == |names|)
            && (b.status != Finished ==> 0 < b.visited <= |names| && HasValidExtension(names[b.visited - 1]))
    decreases |names|
  {
    if names != [] {
      var s := Render(t, names[0], events);
      BatchStep(t, names, events, 0, []);
      assert names[0..] == names;
      RenderSkipsOnlyInvalid(t, names[0], events);
      if s.outcome != Pending && !Truthy(s.outcome) {
        var b := Batch(s.after, names[1..], s.rest);
        BatchEndsOnDisplayed(s.after, names[1..], s.rest);
        if b.status != Finished {
          assert names[b.visited] == names[1..][b.visited - 1];
        }
      }
    }
  }

  /** `events[i]` is the first q/Q key of the input. */
  predicate FirstQuitKeyAt(events: seq<Event>, i: int) {
    0 <= i < |events| && IsQuitKey(events[i]) && forall j | 0 <= j < i :: !IsQuitKey(events[j])
  }

  /** The first q/Q key after a stretch without one is the first of all. */
  lemma FirstQuitKeyAfter(events: seq<Event>, n: nat, i: int)
    requires n <= |events| && forall j | 0 <= j < n :: !IsQuitKey(events[j])
    requires FirstQuitKeyAt(events[n..], i)
    ensures FirstQuitKeyAt(events, n + i) && events[n..][i + 1..] == events[n + i + 1..]
  {
    forall j | n <= j < n + i
      ensures !IsQuitKey(events[j])
    {
      assert events[j] == events[n..][j - n];
    }
  }

  /** How one turn of the loop decides the status and the input left. */
  lemma BatchTurn(t: Tracker, names: seq<string>, events: seq<Event>)
    requires names != []
    ensures var s := Render(t, names[0], events);
            var b := Batch(t, names, events);
            && (s.outcome == Stop ==> b.status == QuitExit && b.rest == s.rest)
            && (s.outcome == Pending ==> b.status == Waiting)
            && (s.outcome != Stop && s.outcome != Pending ==>
                  var b' := Batch(s.after, names[1..], s.rest);
                  b.status == b'.status && b.rest == b'.rest)
  {
  }

  /** The run exits early (`sys.exit(-1)`) only because the operator pressed
      q/Q: the input holds such a key, and the run ends on the first one,
      leaving unread exactly the input after it. */
  lemma {:induction false} BatchQuitsOnFirstQuitKey(t: Tracker, names: seq<string>, events: seq<Event>)
    ensures var b := Batch(t, names, events);
            b.status == QuitExit ==> exists i :: FirstQuitKeyAt(events, i) && b.rest == events[i + 1..]
    decreases |names|
  {
    if names != [] {
      var s := Render(t, names[0], events);
      BatchTurn(t, names, events);
      if s.outcome == Stop {
        RenderQuits(t, names[0], events);
      } else if s.outcome != Pending {
        var b := Batch(s.after, names[1..], s.rest);
        BatchQuitsOnFirstQuitKey(s.after, names[1..], s.rest);
        if b.status == QuitExit {
          var i :| FirstQuitKeyAt(s.rest, i) && b.rest == s.rest[i + 1..];
          RenderPassesOn(t, names[0], events, i);
        }
      }
    }
  }

  /** An image quit on ends at the first q/Q key of its input. */
  lemma RenderQuits(t: Tracker, name: string, events: seq<Event>)
    requires Render(t, name, events).outcome == Stop
    ensures var rest := Render(t, name, events).rest;
            FirstQuitKeyAt(events, |events| - |rest| - 1) && rest == events[|events| - |rest|..]
  {
    SessionQuitKeys(t, events, name);
  }

  /** An image left without quitting reads no q/Q key, so the first q/Q key
      of the input it leaves is the first of all its input. */
  lemma RenderPassesOn(t: Tracker, name: string, events: seq<Event>, i: int)
    requires var s := Render(t, name, events); s.outcome != Stop && s.outcome != Pending
    requires FirstQuitKeyAt(Render(t, name, events).rest, i)
    ensures var rest := Render(t, name, events).rest;
            var j := |events| - |rest| + i;
            FirstQuitKeyAt(events, j) && rest[i + 1..] == events[j + 1..]
  {
    var s := Render(t, name, events);
    if s.outcome == Skipped {
      assert s.rest == events;
    } else {
      SessionQuitKeys(t, events, name);
      FirstQuitKeyAfter(events, |events| - |s.rest|, i);
    }
  }

  /** A q key as the next input ends a review with the state unchanged. */
  lemma QuitKeyEndsReview(t: Tracker, rest: seq<Event>, name: string)
    ensures Session(t, [Key('q' as int)] + rest, name) == SessionResult(Stop, t, rest)
  {
    assert ([Key('q' as int)] + rest)[1..] == rest;
  }

  /** Three names, the first two recognised, with n on the first image and q
      on the second: the run exits after the second image and never shows the
      third, and no log record changes. */
  lemma QuitOnSecondImage(t: Tracker, a: string, b: string, c: string)
    requires HasValidExtension(a) && HasValidExtension(b)
    ensures Batch(t, [a, b, c], [Key('n' as int), Key('q' as int), Key('n' as int)])
         == BatchResult(QuitExit, t, 2, [a, b], [Key('n' as int)])
  {
    var n := Key('n' as int);
    var q := Key('q' as int);
    NextKeyEndsReview(t, [q, n], a);
    QuitKeyEndsReview(t, [n], b);
    assert [n, q, n] == [n] + [q, n] && [q, n] == [q] + [n];
    assert [a, b, c][1..] == [b, c];
    assert Batch(t, [b, c], [q, n]) == BatchResult(QuitExit, t, 1, [b], [n]);
  }

  /** The same loop as the script runs it: the invalid-extension path calls
      `sys.stderr(...)`, which raises TypeError, so the first unrecognised
      name ends the whole run. */
  function BatchAsWritten(t: Tracker, names: seq<string>, events: seq<Event>): (b: BatchResult)
    ensures b.visited <= |names|
    decreases |names|
  {
    if names == [] then BatchResult(Finished, t, 0, [], events)
    else if !HasValidExtension(names[0]) then BatchResult(Crashed, t, 1, [], events)
    else
      var s := Session(t, events, names[0]);
      if s.outcome == Pending then BatchResult(Waiting, s.after, 1, [names[0]], s.rest)
      else if Truthy(s.outcome) then BatchResult(QuitExit, s.after, 1, [names[0]], s.rest)
      else Shift(BatchAsWritten(s.after, names[1..], s.rest), 1, [names[0]])
  }

  /** As written, no name after an unrecognised one is ever reached. */
  lemma {:induction false} AsWrittenStopsAtInvalid(t: Tracker, names: seq<string>, events: seq<Event>, k: nat)
    requires k < |names| && !HasValidExtension(names[k])
    ensures BatchAsWritten(t, names, events).visited <= k + 1
    decreases k
  {
    if k > 0 && HasValidExtension(names[0]) {
      var s := Session(t, events, names[0]);
      if s.outcome != Pending && !Truthy(s.outcome) {
        assert !HasValidExtension(names[1..][k - 1]) by {
          assert names[1..][k - 1] == names[k];
        }
        AsWrittenStopsAtInvalid(s.after, names[1..], s.rest, k - 1);
      }
    }
    AsWrittenVisited(t, names, events);
  }

  /** How many names the loop as written reaches, one name at a time. */
  lemma AsWrittenVisited(t: Tracker, names: seq<string>, events: seq<Event>)
    requires names != []
    ensures var s := Session(t, events, names[0]);
            BatchAsWritten(t, names, events).visited
              == if !HasValidExtension(names[0]) || s.outcome == Pending || Truthy(s.outcome) then 1
                 else BatchAsWritten(s.after, names[1..], s.rest).visited + 1
  {
  }

  /** Going from log `before` to log `after`, every record gained and every
      record lost belongs to one of `names`: each index holds the same record
      in both logs, or the record there belongs to one of `names`. */
  predicate ChangesOnlyNames(before: seq<Record>, after: seq<Record>, names: seq<string>) {
    && (forall i | 0 <= i < |after| :: (i < |before| && after[i] == before[i]) || after[i].filename in names)
    && (forall i | 0 <= i < |before| :: (i < |after| && after[i] == before[i]) || before[i].filename in names)
  }

  lemma ChangesOnlyNamesTransitive(a: seq<Record>, b: seq<Record>, c: seq<Record>, n1: seq<string>, n2: seq<string>)
    requires ChangesOnlyNames(a, b, n1) && ChangesOnlyNames(b, c, n2)
    ensures ChangesOnlyNames(a, c, n1 + n2)
  {
    forall i | 0 <= i < |c|
      ensures (i < |a| && c[i] == a[i]) || c[i].filename in n1 + n2
    {
      if !(c[i].filename in n2) {
        assert i < |b| && c[i] == b[i];
      }
    }
    forall i | 0 <= i < |a|
      ensures (i < |c| && c[i] == a[i]) || a[i].filename in n1 + n2
    {
      if !(a[i].filename in n1) {
        assert i < |b| && b[i] == a[i];
      }
    }
  }

  /** A review adds and removes only records of its own image. */
  lemma SessionChangesOnlyOwnImage(t: Tracker, events: seq<Event>, filename: string)
    ensures ChangesOnlyNames(t.log, Session(t, events, filename).after.log, [filename])
  {
    var r := Session(t, events, filename);
    SessionScrapLog(t, events, filename);
    SessionAppendLog(t, events, filename);
    ScrappedPrefix(t.log, filename);
    if r.outcome == Advance(true) {
      var k := |r.after.log|;
      forall i | k <= i < |t.log|
        ensures t.log[i].filename in [filename]
      {
        assert t.log[i] == t.log[k..][i - k];
      }
    } else {
      forall i | |t.log| <= i < |r.after.log|
        ensures r.after.log[i].filename in [filename]
      {
        assert r.after.log[i] == r.after.log[|t.log|..][i - |t.log|];
      }
    }
  }

  /** A run adds and removes only records of images it displayed. Names
      never rendered (those after the one the operator quit on, and skipped
      ones) gain no records, and no record of theirs is removed. */
  lemma {:induction false} BatchTouchesOnlyRendered(t: Tracker, names: seq<string>, events: seq<Event>)
    ensures var b := Batch(t, names, events);
            ChangesOnlyNames(t.log, b.after.log, b.rendered)
    decreases |names|
  {
    if names != [] {
      var s := Render(t, names[0], events);
      if s.outcome == Skipped {
        var rest := Batch(t, names[1..], events);
        assert Batch(t, names, events) == Shift(rest, 1, []);
        assert [] + rest.rendered == rest.rendered;
        BatchTouchesOnlyRendered(t, names[1..], events);
      } else {
        SessionChangesOnlyOwnImage(t, events, names[0]);
        if s.outcome != Pending && !Truthy(s.outcome) {
          var rest := Batch(s.after, names[1..], s.rest);
          assert Batch(t, names, events) == Shift(rest, 1, [names[0]]);
          BatchTouchesOnlyRendered(s.after, names[1..], s.rest);
          ChangesOnlyNamesTransitive(t.log, s.after.log, rest.after.log, [names[0]], rest.rendered);
        }
      }
    }
  }

  /** The names a.png, b.txt, c.jpg against the extension check. */
  lemma ExampleNames()
    ensures HasValidExtension("a.png") && !HasValidExtension("b.txt") && HasValidExtension("c.jpg")
  {
    assert HasValidExtension("a.png") by {
      assert "a.png"[..1][0] == 'a' && "a.png"[1..] == ".png";
      ExtensionOfSuffix("a.png", ".png");
    }
    assert !HasValidExtension("b.txt") by {
      assert "b.txt"[..1][0] == 'b' && "b.txt"[1..] == ".txt";
      ExtensionOfSuffix("b.txt", ".txt");
    }
    assert HasValidExtension("c.jpg") by {
      assert "c.jpg"[..1][0] == 'c' && "c.jpg"[1..] == ".jpg";
      ExtensionOfSuffix("c.jpg", ".jpg");
    }
  }

  /** An n key as the next input ends a review with the state unchanged. */
  lemma NextKeyEndsReview(t: Tracker, rest: seq<Event>, name: string)
    ensures Session(t, [Key('n' as int)] + rest, name) == SessionResult(Advance(false), t, rest)
  {
    assert ([Key('n' as int)] + rest)[1..] == rest;
  }

  /** A directory listing a, b, c where only b has an unrecognised extension
      (a.png, b.txt, c.jpg, say), with the operator pressing n on each image:
      as written the run dies at b and c is never shown. */
  lemma InvalidEntryAsWritten(t: Tracker, a: string, b: string, c: string)
    requires HasValidExtension(a) && !HasValidExtension(b) && HasValidExtension(c)
    ensures BatchAsWritten(t, [a, b, c], [Key('n' as int), Key('n' as int)])
         == BatchResult(Crashed, t, 2, [a], [Key('n' as int)])
  {
    var key := Key('n' as int);
    NextKeyEndsReview(t, [key], a);
    assert [key, key] == [key] + [key];
    assert [a, b, c][1..] == [b, c];
    assert BatchAsWritten(t, [b, c], [key]) == BatchResult(Crashed, t, 1, [], [key]);
  }

  /** The same directory and keys with the entry skipped: both images are
      reviewed, in order, and the run finishes. */
  lemma InvalidEntrySkipped(t: Tracker, a: string, b: string, c: string)
    requires HasValidExtension(a) && !HasValidExtension(b) && HasValidExtension(c)
    ensures Batch(t, [a, b, c], [Key('n' as int), Key('n' as int)])
         == BatchResult(Finished, t, 3, [a, c], [])
  {
    var key := Key('n' as int);
    NextKeyEndsReview(t, [key], a);
    NextKeyEndsReview(t, [], c);
    assert [key, key] == [key] + [key] && [key] == [key] + [];
    assert [a, b, c][1..] == [b, c] && [b, c][1..] == [c] && [c][1..] == [];
    assert Batch(t, [c], [key]) == BatchResult(Finished, t, 1, [c], []);
    assert Batch(t, [b, c], [key]) == BatchResult(Finished, t, 2, [c], []);
  }
}

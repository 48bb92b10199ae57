/** The per-image review loop of `render_image` as a specification over
    values: the labeler's state is a Tracker (the globals x0, y0, is_drawing
    and the contents of the output file), the operator's input is a sequence
    of mouse events and `waitKey` results, and Session says how far into that
    input one image's review runs, what it returns and what state it leaves. */
module Sessions {
  import opened Geometry
  import opened Records

  /** What the mouse callback or `cv2.waitKey` delivers. `Key(code)` carries the
      raw `waitKey` value, which is -1 when no key was pressed in time. */
  datatype Event = Press(x: int, y: int) | Move(x: int, y: int) | Release(x: int, y: int) | Key(code: int)

  /** The module globals `x0, y0, is_drawing` and the output log. */
  datatype Tracker = Tracker(origin: Point, drawing: bool, log: seq<Record>)

  /** The origin before any press: `x0, y0 = -1, -1`. */
  const UNSET: Point := Point(-1, -1)

  /** What a key does to the review of one image. */
  datatype Decision = Next | Scrap | Quit | Ignore

  /** `key & 0xFF`; on Python's unbounded two's-complement integers this is the
      non-negative remainder modulo 256, also for the -1 of "no key". */
  function LowByte(code: int): (b: int)
    ensures 0 <= b < 256
    ensures (code - b) % 256 == 0
  {
    code % 256
  }

  function Decide(code: int): Decision {
    var b := LowByte(code);
    if b == 'n' as int || b == 'N' as int then Next
    else if b == 's' as int || b == 'S' as int then Scrap
    else if b == 'q' as int || b == 'Q' as int then Quit
    else Ignore
  }

  /** Only the low byte of a key code is dispatched on: codes that differ by
      a multiple of 256 (modifier or extended-key bits) decide the same way. */
  lemma DecideIgnoresHighBits(code: int, k: int)
    ensures Decide(code + 256 * k) == Decide(code)
  {
    assert LowByte(code + 256 * k) == LowByte(code) by {
      var b := LowByte(code);
      assert code + 256 * k - b == (code - b) + 256 * k;
    }
  }

  /** The -1 that `waitKey` returns when no key arrived keeps the loop polling. */
  lemma NoKeyKeepsPolling()
    ensures Decide(-1) == Ignore
  {
    assert LowByte(-1) == 255;
  }

  /** Letters are dispatched without regard to case, and n, s and q are the
      only letters that decide. */
  lemma DecideLetters(c: char)
    requires 'a' <= c <= 'z'
    ensures Decide(c as int) == Decide(c as int - 32)
    ensures Decide(c as int) != Ignore <==> c == 'n' || c == 's' || c == 'q'
  {
    assert LowByte(c as int) == c as int;
    assert LowByte(c as int - 32) == c as int - 32;
  }

  /** Outcome of `render_image` for one path. `Advance` is its `return 0`
      (`scrapped` tells whether the key was s/S), `Stop` its `return 1`,
      `Skipped` the bare `return` of a rejected extension, and `Pending` says
      the input ran out while the loop was still polling for a key. */
  datatype Outcome = Advance(scrapped: bool) | Stop | Pending | Skipped

  function OutcomeOf(d: Decision): Outcome
    requires d != Ignore
  {
    match d
    case Next => Advance(false)
    case Scrap => Advance(true)
    case Quit => Stop
  }

  predicate IsDecisionKey(e: Event) {
    e.Key? && Decide(e.code) != Ignore
  }

  predicate NoDecisionKey(events: seq<Event>) {
    forall i | 0 <= i < |events| :: !IsDecisionKey(events[i])
  }

  /** The `draw_circle` callback for one mouse event. A press sets the origin
      and the drawing flag, a move changes nothing, and a release commits a
      record centred at the current origin, whether or not a press preceded it. */
  function Step(t: Tracker, e: Event, filename: string): Tracker {
    match e
    case Press(x, y) => t.(origin := Point(x, y), drawing := true)
    case Move(_, _) => t
    case Release(x, y) =>
      t.(drawing := false, log := t.log + [Record(filename, t.origin, Radius(t.origin, Point(x, y)))])
    case Key(_) => t
  }

  datatype SessionResult = SessionResult(outcome: Outcome, after: Tracker, rest: seq<Event>)

  /** The `while True` loop of `render_image` for the image `filename`, fed
      with `events`; `rest` is the input left for the next image. */
  function Session(t: Tracker, events: seq<Event>, filename: string): (r: SessionResult)
    ensures |r.rest| <= |events|
    ensures r.outcome != Skipped
    decreases |events|
  {
    if events == [] then SessionResult(Pending, t, [])
    else if IsDecisionKey(events[0]) then Decided(t, Decide(events[0].code), events[1..], filename)
    else Session(Step(t, events[0], filename), events[1..], filename)
  }

  /** The branch of the loop taken on a decision key: n/N and q/Q leave the
      state alone, s/S runs `delete_records` for the current image. */
  function Decided(t: Tracker, d: Decision, rest: seq<Event>, filename: string): SessionResult
    requires d != Ignore
  {
    var after := if d == Scrap then t.(log := Scrapped(t.log, filename)) else t;
    SessionResult(OutcomeOf(d), after, rest)
  }

  /** Number of releases in `events`. */
  function Releases(events: seq<Event>): nat {
    if events == [] then 0
    else (if events[0].Release? then 1 else 0) + Releases(events[1..])
  }

  /** A review is still polling exactly when the input holds no n/N, s/S or
      q/Q key, and then it has used up all of the input. */
  lemma {:induction false} SessionPendingIffNoKey(t: Tracker, events: seq<Event>, filename: string)
    ensures var r := Session(t, events, filename);
            && (r.outcome == Pending <==> NoDecisionKey(events))
            && (r.outcome == Pending ==> r.rest == [])
    decreases |events|
  {
    if events != [] && !IsDecisionKey(events[0]) {
      var t' := Step(t, events[0], filename);
      SessionPendingIffNoKey(t', events[1..], filename);
      assert NoDecisionKey(events) <==> NoDecisionKey(events[1..]) by {
        assert forall i | 0 < i < |events| :: events[i] == events[1..][i - 1];
      }
    }
  }

  /** A review that decides ends at the first n/N, s/S or q/Q key, whose
      meaning is its outcome, and leaves the input after that key to the next
      image. */
  lemma {:induction false} SessionStopsAtFirstDecisionKey(t: Tracker, events: seq<Event>, filename: string)
    ensures var r := Session(t, events, filename);
            var n := |events| - |r.rest|;
            r.outcome != Pending ==>
              && 0 < n
              && r.rest == events[n..]
              && IsDecisionKey(events[n - 1])
              && NoDecisionKey(events[..n - 1])
              && r.outcome == OutcomeOf(Decide(events[n - 1].code))
    decreases |events|
  {
    if events != [] {
      var r := Session(t, events, filename);
      var n := |events| - |r.rest|;
      if IsDecisionKey(events[0]) {
        assert r.rest == events[1..];
        assert events[..n - 1] == [];
      } else {
        var t' := Step(t, events[0], filename);
        assert r == Session(t', events[1..], filename);
        SessionStopsAtFirstDecisionKey(t', events[1..], filename);
        if r.outcome != Pending {
          assert events[1..][n - 1..] == events[n..];
          assert events[1..][n - 2] == events[n - 1];
          assert events[..n - 1] == [events[0]] + events[1..][..n - 2];
        }
      }
    }
  }

  /** A q or Q key (after `& 0xFF`). */
  predicate IsQuitKey(e: Event) {
    e.Key? && Decide(e.code) == Quit
  }

  /** A review that decides reads no q/Q key before its deciding key, and
      that key is q/Q exactly when the review returns 1. */
  lemma SessionQuitKeys(t: Tracker, events: seq<Event>, filename: string)
    ensures var r := Session(t, events, filename);
            var n := |events| - |r.rest|;
            r.outcome != Pending ==>
              && 0 < n
              && r.rest == events[n..]
              && (forall j | 0 <= j < n - 1 :: !IsQuitKey(events[j]))
              && (IsQuitKey(events[n - 1]) <==> r.outcome == Stop)
  {
    var r := Session(t, events, filename);
    var n := |events| - |r.rest|;
    SessionStopsAtFirstDecisionKey(t, events, filename);
    if r.outcome != Pending {
      forall j | 0 <= j < n - 1
        ensures !IsQuitKey(events[j])
      {
        assert events[..n - 1][j] == events[j];
      }
    }
  }

  /** Scrapping at the end of a review leaves exactly the scrapped log the
      review started from: every circle drawn on this image is gone, together
      with the trailing run for this image that was already there. */
  lemma {:induction false} SessionScrapLog(t: Tracker, events: seq<Event>, filename: string)
    ensures var r := Session(t, events, filename);
            r.outcome == Advance(true) ==> r.after.log == Scrapped(t.log, filename)
    decreases |events|
  {
    if events != [] && !IsDecisionKey(events[0]) {
      var e := events[0];
      var t' := Step(t, e, filename);
      SessionScrapLog(t', events[1..], filename);
      if e.Release? {
        ScrappedAbsorbsAppends(t.log, t'.log[|t.log|..], filename);
        assert t'.log == t.log + t'.log[|t.log|..];
      }
    }
  }

  /** `longer` is `shorter` followed only by records for `filename`. */
  predicate ExtendsFor(shorter: seq<Record>, longer: seq<Record>, filename: string) {
    |shorter| <= |longer| && longer[..|shorter|] == shorter && AllNamed(longer[|shorter|..], filename)
  }

  lemma ExtendsForTransitive(a: seq<Record>, b: seq<Record>, c: seq<Record>, filename: string)
    requires ExtendsFor(a, b, filename) && ExtendsFor(b, c, filename)
    ensures ExtendsFor(a, c, filename)
  {
    assert c[..|b|][..|a|] == c[..|a|];
    forall i | 0 <= i < |c| - |a|
      ensures c[|a|..][i].filename == filename
    {
      if |a| + i < |b| {
        assert c[|a|..][i] == b[|a|..][i];
      } else {
        assert c[|a|..][i] == c[|b|..][|a| + i - |b|];
      }
    }
  }

  /** Without a scrap the old log is kept as it was and one record for this
      image is appended per release before the deciding key. */
  lemma {:induction false} SessionAppendLog(t: Tracker, events: seq<Event>, filename: string)
    ensures var r := Session(t, events, filename);
            var n := |events| - |r.rest|;
            r.outcome != Advance(true) ==>
              && ExtendsFor(t.log, r.after.log, filename)
              && |r.after.log| == |t.log| + Releases(events[..n])
    decreases |events|
  {
    var r := Session(t, events, filename);
    var n := |events| - |r.rest|;
    if events == [] {
      assert events[..n] == [];
      assert t.log[..|t.log|] == t.log;
    } else if IsDecisionKey(events[0]) {
      assert events[..n] == [events[0]];
      assert Releases(events[..n]) == Releases(events[..n][1..]);
      assert t.log[..|t.log|] == t.log;
    } else {
      var e := events[0];
      var t' := Step(t, e, filename);
      assert r == Session(t', events[1..], filename);
      SessionAppendLog(t', events[1..], filename);
      if r.outcome != Advance(true) {
        assert Releases(events[..n]) == (if e.Release? then 1 else 0) + Releases(events[1..][..n - 1]) by {
          assert events[..n][1..] == events[1..][..n - 1];
        }
        assert ExtendsFor(t.log, t'.log, filename) by {
          assert t'.log[..|t.log|] == t.log;
        }
        ExtendsForTransitive(t.log, t'.log, r.after.log, filename);
      }
    }
  }

  /** The origin is never reset between images: a review with no press
      before its deciding key keeps the origin it started with and centres
      every record it commits there (the sentinel (-1, -1) on the first
      image, the previous image's last press point afterwards). Input after
      the deciding key belongs to later images and may hold presses. */
  lemma {:induction false} SessionWithoutPressKeepsOrigin(t: Tracker, events: seq<Event>, filename: string)
    requires forall i | 0 <= i < |events| && NoDecisionKey(events[..i]) :: !events[i].Press?
    ensures var r := Session(t, events, filename);
            && r.after.origin == t.origin
            && forall i | |t.log| <= i < |r.after.log| :: r.after.log[i].center == t.origin
    decreases |events|
  {
    if events == [] {
    } else if IsDecisionKey(events[0]) {
      ScrappedPrefix(t.log, filename);
    } else {
      var r := Session(t, events, filename);
      var e := events[0];
      var t' := Step(t, e, filename);
      assert r == Session(t', events[1..], filename);
      assert !e.Press? by {
        assert events[..0] == [];
      }
      forall i | 0 <= i < |events[1..]| && NoDecisionKey(events[1..][..i])
        ensures !events[1..][i].Press?
      {
        assert events[..i + 1] == [e] + events[1..][..i];
      }
      SessionWithoutPressKeepsOrigin(t', events[1..], filename);
      if e.Release? && |t.log| < |r.after.log| {
        assert r.after.log[|t.log|] == t'.log[|t.log|] by {
          SessionAppendLog(t', events[1..], filename);
          SessionScrapLog(t', events[1..], filename);
          ScrappedPrefix(t'.log, filename);
        }
      }
    }
  }

  /** A full drag from p to q followed by n commits exactly one record for
      this image, centred at p with the radius of the drag. */
  lemma GestureThenNext(t: Tracker, p: Point, q: Point, filename: string)
    ensures var events := [Press(p.x, p.y), Move(q.x, q.y), Release(q.x, q.y), Key('n' as int)];
            Session(t, events, filename)
              == SessionResult(Advance(false), Tracker(p, false, t.log + [Record(filename, p, Radius(p, q))]), [])
  {
    var pressed := t.(origin := p, drawing := true);
    var released := Tracker(p, false, t.log + [Record(filename, p, Radius(p, q))]);
    var keys := [Key('n' as int)];
    var drag := [Release(q.x, q.y)] + keys;
    var moves := [Move(q.x, q.y)] + drag;
    assert Session(released, keys, filename) == SessionResult(Advance(false), released, []);
    SessionStep(pressed, Release(q.x, q.y), keys, filename);
    SessionStep(pressed, Move(q.x, q.y), drag, filename);
    SessionStep(t, Press(p.x, p.y), moves, filename);
    assert [Press(p.x, p.y)] + moves == [Press(p.x, p.y), Move(q.x, q.y), Release(q.x, q.y), Key('n' as int)];
  }

  /** One event that is not a decision key goes to the mouse callback and the
      loop polls again. */
  lemma SessionStep(t: Tracker, e: Event, rest: seq<Event>, filename: string)
    requires !IsDecisionKey(e)
    ensures Session(t, [e] + rest, filename) == Session(Step(t, e, filename), rest, filename)
  {
    assert ([e] + rest)[1..] == rest;
  }

  /** press(10,10), move(13,14), release(13,14), n: one record centred at
      (10,10) with radius 5. */
  lemma GestureCommitExample(log: seq<Record>, filename: string)
    ensures Session(Tracker(UNSET, false, log), [Press(10, 10), Move(13, 14), Release(13, 14), Key('n' as int)], filename)
         == SessionResult(Advance(false), Tracker(Point(10, 10), false, log + [Record(filename, Point(10, 10), 5)]), [])
  {
    GestureThenNext(Tracker(UNSET, false, log), Point(10, 10), Point(13, 14), filename);
    RadiusOfThreeFourFive();
  }

  /** On a fresh labeler a release with no press commits the sentinel centre
      (-1, -1) and measures the radius from it. */
  lemma ReleaseWithoutPressExample(filename: string)
    ensures Session(Tracker(UNSET, false, []), [Release(2, 3), Key('q' as int)], filename)
         == SessionResult(Stop, Tracker(UNSET, false, [Record(filename, Point(-1, -1), 5)]), [])
  {
    var events := [Release(2, 3), Key('q' as int)];
    assert Radius(UNSET, Point(2, 3)) == 5 by {
      assert SquaredDistance(UNSET, Point(2, 3)) == 25;
      FloorSqrtUnique(25, 5);
    }
    assert [] + [Record(filename, UNSET, 5)] == [Record(filename, UNSET, 5)];
    assert IsDecisionKey(events[1]);
  }
}

/** The annotation log: one record per committed circle, in append order,
    and the "scrap" operation that drops the trailing run of records of one image. */
module Records {
  import opened Geometry

  /** One line of the output file: `{"filename": .., "center": [x0, y0], "radius": ..}`. */
  datatype Record = Record(filename: string, center: Point, radius: nat)

  predicate AllNamed(rs: seq<Record>, name: string) {
    forall i | 0 <= i < |rs| :: rs[i].filename == name
  }

  /** The log with its longest trailing run of records for `name` removed. */
  function Scrapped(log: seq<Record>, name: string): seq<Record>
    decreases |log|
  {
    if log != [] && log[|log| - 1].filename == name then Scrapped(log[..|log| - 1], name)
    else log
  }

  /** Scrapping keeps a prefix of the log, and every record it drops is
      for `name`. */
  lemma {:induction false} ScrappedPrefix(log: seq<Record>, name: string)
    ensures var kept := Scrapped(log, name);
            && |kept| <= |log| && kept == log[..|kept|]
            && AllNamed(log[|kept|..], name)
    decreases |log|
  {
    if log != [] && log[|log| - 1].filename == name {
      var init := log[..|log| - 1];
      var kept := Scrapped(init, name);
      ScrappedPrefix(init, name);
      assert kept == log[..|kept|] by {
        assert init[..|kept|] == log[..|kept|];
      }
      assert log[|kept|..] == init[|kept|..] + [log[|log| - 1]];
    } else {
      assert log[..|log|] == log;
    }
  }

  /** What scrapping keeps does not end with a record for `name`, and a log
      whose last record is for another image is left as it is. */
  lemma {:induction false} ScrappedLast(log: seq<Record>, name: string)
    ensures var kept := Scrapped(log, name);
            && (kept == [] || kept[|kept| - 1].filename != name)
            && (log != [] && log[|log| - 1].filename != name ==> kept == log)
    decreases |log|
  {
    if log != [] && log[|log| - 1].filename == name {
      ScrappedLast(log[..|log| - 1], name);
    }
  }

  /** Scrapping `p + t` yields `p` exactly when `t` is all for `name` and `p`
      does not end with a record for `name`: earlier records for the same
      image that are separated from the tail survive. */
  lemma {:induction false} ScrappedSplit(p: seq<Record>, t: seq<Record>, name: string)
    requires AllNamed(t, name)
    requires p == [] || p[|p| - 1].filename != name
    ensures Scrapped(p + t, name) == p
    decreases |t|
  {
    if t == [] {
      assert p + t == p;
    } else {
      var t' := t[..|t| - 1];
      assert (p + t)[..|p + t| - 1] == p + t';
      ScrappedSplit(p, t', name);
    }
  }

  /** Scrapping twice is scrapping once. */
  lemma {:induction false} ScrappedIdempotent(log: seq<Record>, name: string)
    ensures Scrapped(Scrapped(log, name), name) == Scrapped(log, name)
  {
    var kept := Scrapped(log, name);
    ScrappedLast(log, name);
    assert kept + [] == kept;
    ScrappedSplit(kept, [], name);
  }

  /** Records for `name` appended after the log are all scrapped along with the
      log's own trailing run for `name`. */
  lemma {:induction false} ScrappedAbsorbsAppends(log: seq<Record>, added: seq<Record>, name: string)
    requires AllNamed(added, name)
    ensures Scrapped(log + added, name) == Scrapped(log, name)
  {
    var kept := Scrapped(log, name);
    ScrappedPrefix(log, name);
    ScrappedLast(log, name);
    var run := log[|kept|..];
    assert log + added == kept + (run + added);
    ScrappedSplit(kept, run + added, name);
  }

  /** `delete_records`: scan backwards from the last record while it belongs to
      `name`, then keep the prefix before that run. */
  method DeleteRecords(lines: seq<Record>, name: string) returns (kept: seq<Record>)
    ensures kept == Scrapped(lines, name)
  {
    var i := |lines| - 1;
    while i >= 0 && lines[i].filename == name
      invariant -1 <= i < |lines|
      invariant AllNamed(lines[i + 1..], name)
      decreases i
    {
      i := i - 1;
    }
    kept := lines[..i + 1];
    assert lines == kept + lines[i + 1..];
    ScrappedSplit(kept, lines[i + 1..], name);
  }
}

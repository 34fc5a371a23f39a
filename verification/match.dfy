/** The `Match` record shared by the fixture parser and the calendar
    projector, and the bye filter both of them apply. */
module Fixtures {
  import opened Wrappers

  /** A geocoded venue position. The values are only ever copied, never
      computed with. */
  datatype Coords = Coords(lat: real, lon: real)

  /** One fixture. The type of `date` differs between the two producers of
      matches: the parser stores the raw `dd.MM.yy` text, the calendar
      projector reads an already parsed kickoff. `time` is the parser's
      extra field; the others are the fields of the interface. */
  datatype Match<D> = Match(
    date: D,
    time: Option<string>,
    homeTeam: string,
    awayTeam: string,
    spielfrei: bool,
    location: Option<string>,
    locationCoords: Option<Coords>)

  /** Keeps the matches that are not byes, in their original order. */
  function NonByes<D>(ms: seq<Match<D>>): (r: seq<Match<D>>)
    ensures |r| <= |ms|
    ensures forall j :: 0 <= j < |r| ==> !r[j].spielfrei
  {
    if ms == [] then []
    else if ms[0].spielfrei then NonByes(ms[1..])
    else [ms[0]] + NonByes(ms[1..])
  }

  /** The positions, from `from` on, of the non-bye matches, in ascending order. */
  function NonByePositions<D>(ms: seq<Match<D>>, from: nat): seq<nat>
    requires from <= |ms|
    decreases |ms| - from
  {
    if from == |ms| then []
    else (if ms[from].spielfrei then [] else [from]) + NonByePositions(ms, from + 1)
  }

  predicate StrictlyIncreasing(xs: seq<nat>) {
    forall a, b :: 0 <= a < b < |xs| ==> xs[a] < xs[b]
  }

  /** Unfolds `NonByes` on a suffix by one step. */
  lemma NonByesSuffixStep<D>(ms: seq<Match<D>>, from: nat)
    requires from < |ms|
    ensures NonByes(ms[from..]) ==
      (if ms[from].spielfrei then [] else [ms[from]]) + NonByes(ms[from + 1..])
  {
    assert ms[from..][1..] == ms[from + 1..];
  }

  /** Every listed position lies in the suffix and names the match the
      filter put at the same place. */
  lemma {:induction false} NonByePositionsPick<D>(ms: seq<Match<D>>, from: nat)
    requires from <= |ms|
    ensures |NonByePositions(ms, from)| == |NonByes(ms[from..])|
    ensures forall j :: 0 <= j < |NonByePositions(ms, from)| ==>
      from <= NonByePositions(ms, from)[j] < |ms| &&
      NonByes(ms[from..])[j] == ms[NonByePositions(ms, from)[j]]
    decreases |ms| - from
  {
    if from < |ms| {
      NonByePositionsPick(ms, from + 1);
      NonByesSuffixStep(ms, from);
    }
  }

  /** The positions are listed in ascending order. */
  lemma {:induction false} NonByePositionsIncrease<D>(ms: seq<Match<D>>, from: nat)
    requires from <= |ms|
    ensures StrictlyIncreasing(NonByePositions(ms, from))
    decreases |ms| - from
  {
    if from < |ms| {
      NonByePositionsIncrease(ms, from + 1);
      NonByePositionsPick(ms, from + 1);
    }
  }

  /** A position is listed exactly when the match there is not a bye. */
  lemma {:induction false} NonByePositionsComplete<D>(ms: seq<Match<D>>, from: nat)
    requires from <= |ms|
    ensures forall i :: from <= i < |ms| ==> (i in NonByePositions(ms, from) <==> !ms[i].spielfrei)
    decreases |ms| - from
  {
    if from < |ms| {
      NonByePositionsComplete(ms, from + 1);
      NonByePositionsPick(ms, from + 1);
    }
  }

  /** `NonByes` is a filter: its result lists exactly the non-bye matches
      of `ms`, each once, in the order they have in `ms`. */
  lemma NonByesIsOrderedFilter<D>(ms: seq<Match<D>>)
    ensures var r, pos := NonByes(ms), NonByePositions(ms, 0);
      && |pos| == |r|
      && StrictlyIncreasing(pos)
      && (forall j :: 0 <= j < |r| ==> pos[j] < |ms| && r[j] == ms[pos[j]])
      && (forall i :: 0 <= i < |ms| ==> (i in pos <==> !ms[i].spielfrei))
  {
    assert ms[0..] == ms;
    NonByePositionsPick(ms, 0);
    NonByePositionsIncrease(ms, 0);
    NonByePositionsComplete(ms, 0);
  }

  /** A property holds of every kept match exactly when it holds of every
      non-bye match of the input. */
  lemma NonByesAll<D>(ms: seq<Match<D>>, P: Match<D> -> bool)
    ensures (forall j :: 0 <= j < |NonByes(ms)| ==> P(NonByes(ms)[j])) <==>
            (forall i :: 0 <= i < |ms| && !ms[i].spielfrei ==> P(ms[i]))
  {
    var r, pos := NonByes(ms), NonByePositions(ms, 0);
    NonByesIsOrderedFilter(ms);
    if forall j :: 0 <= j < |r| ==> P(r[j]) {
      forall i | 0 <= i < |ms| && !ms[i].spielfrei
        ensures P(ms[i])
      {
        assert i in pos;
        var j :| 0 <= j < |pos| && pos[j] == i;
        assert r[j] == ms[i];
      }
    }
  }

  /** Filtering distributes over concatenation. */
  lemma {:induction false} NonByesAppend<D>(a: seq<Match<D>>, b: seq<Match<D>>)
    ensures NonByes(a + b) == NonByes(a) + NonByes(b)
  {
    if a == [] {
      assert a + b == b;
    } else {
      assert (a + b)[1..] == a[1..] + b;
      NonByesAppend(a[1..], b);
    }
  }

  /** Filtering twice is filtering once. */
  lemma {:induction false} NonByesIdempotent<D>(ms: seq<Match<D>>)
    ensures NonByes(NonByes(ms)) == NonByes(ms)
  {
    if ms != [] {
      NonByesIdempotent(ms[1..]);
      if !ms[0].spielfrei {
        assert ([ms[0]] + NonByes(ms[1..]))[1..] == NonByes(ms[1..]);
      }
    }
  }
}

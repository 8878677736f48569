/** Whole games of Snake: what every run keeps, and a run that fills the board. */
module SnakeRun {
  import opened Snake

  ghost predicate Follows(s: State, t: State) { exists turn :: Ticks(s, turn, t) }

  /** A game from its start, tick by tick. */
  ghost predicate Run(states: seq<State>) {
    && states != [] && Starts(states[0])
    && forall i :: 0 <= i < |states| - 1 ==> Follows(states[i], states[i + 1])
  }

  /** The body is one and fits the board, the head has just moved in the last direction, and the food waits on a
      free cell while there is one. */
  ghost predicate Good(s: State) {
    && IsBody(s.body) && 3 <= |s.body| <= INTERIOR
    && s.body[0] == Step(s.body[1], s.dir)
    && (|s.body| < INTERIOR ==> Inside(s.food) && s.food !in s.body)
  }

  lemma TickKeepsGood(s: State, t: State)
    requires Good(s) && Follows(s, t)
    ensures Good(t)
  {
    var turn :| Ticks(s, turn, t);
    var head := Step(s.body[0], turn);
    StepKeepsBody(s.body, head, head == s.food);
    hide Inside, Step, CellsBelow;
    Pigeonhole(t.body, INTERIOR);
  }

  /** Every state of every game is good, whatever keys are pressed and wherever the food is drawn. */
  lemma {:induction false} RunIsGood(states: seq<State>, k: nat)
    requires Run(states) && k < |states|
    ensures Good(states[k])
  {
    if k > 0 {
      RunIsGood(states, k - 1);
      TickKeepsGood(states[k - 1], states[k - 1 + 1]);
    }
  }

  // ---------- a game that fills the board ----------

  /** The way from the first tail to the end of the track: right, down, left, down and right again. */
  function Route(k: nat): Position {
    if k <= 2 then Position(3 + k, 10)
    else if k <= 9 then Position(5, 8 + k)
    else if k <= 13 then Position(14 - k, 17)
    else if k == 14 then Position(1, 18)
    else Position(k - 13, 18)
  }

  function RouteDir(k: nat): Direction {
    if k <= 2 then Right else if k <= 9 then Down else if k <= 13 then Left else if k == 14 then Down else Right
  }

  const APPROACH: nat := 14

  /** On the way, while the food waits on the track. */
  function Approach(i: nat): State {
    State([Route(i + 2), Route(i + 1), Route(i)], RouteDir(i + 2), Position(4, 18))
  }

  lemma ApproachTicks(i: nat)
    requires i < APPROACH
    ensures Follows(Approach(i), Approach(i + 1))
  {
    assert Ticks(Approach(i), RouteDir(i + 3), Approach(i + 1));
  }

  lemma ApproachStarts()
    ensures Starts(Approach(0))
  {}

  /** The direction in which the track is followed backwards into cell k. */
  function Heading(k: nat): Direction {
    if k % COLUMNS == COLUMNS - 1 then Up else if k / COLUMNS % 2 == 0 then Left else Right
  }

  lemma Back(k: nat)
    ensures Track(k) == Step(Track(k + 1), Heading(k)) && Heading(k) != Opposite(Heading(k + 1))
  {
    var row, column := k / COLUMNS, k % COLUMNS;
    if column < COLUMNS - 1 {
      assert (k + 1) / COLUMNS == row && (k + 1) % COLUMNS == column + 1;
    } else {
      assert (k + 1) / COLUMNS == row + 1 && (k + 1) % COLUMNS == 0;
    }
  }

  /** On the track from cell k to its end, with the food on the cell before. */
  function Feast(k: nat): State
    requires k <= INTERIOR
  {
    State(TrackFrom(k), Heading(k), Track(if k > 0 then k - 1 else 0))
  }

  /** Each bite takes the next cell, and the food is drawn on the one after it. */
  lemma FeastTicks(k: nat)
    requires 0 < k < INTERIOR
    ensures Follows(Feast(k), Feast(k - 1))
  {
    Back(k - 1);
    NotOnTrack(k);
    if k > 1 { NotOnTrack(k - 1); }
    hide Inside, Step, Track, Heading;
    assert Ticks(Feast(k), Heading(k - 1), Feast(k - 1));
  }

  lemma NotOnTrack(k: nat)
    requires 0 < k < INTERIOR
    ensures Inside(Track(k - 1)) && Track(k - 1) !in TrackFrom(k)
    ensures TrackFrom(k - 1) == [Track(k - 1)] + TrackFrom(k)
  {
    TrackStep(k - 1);
    forall i | 0 <= i < |TrackFrom(k)| ensures TrackFrom(k)[i] != Track(k - 1) { TrackOnce(k - 1, k + i); }
  }

  /** Where the way ends the feast begins. */
  lemma Arrived(last: nat)
    requires last == INTERIOR - 3
    ensures Approach(APPROACH) == Feast(last)
  {
    assert Track(last) == Position(3, 18) && Track(last + 1) == Position(2, 18) && Track(last + 2) == Position(1, 18);
    assert Track(last - 1) == Position(4, 18);
    assert TrackFrom(last) == [Track(last), Track(last + 1), Track(last + 2)];
  }

  lemma FeastEnds()
    ensures Feast(1) == State(TrackFrom(1), Left, Track(0)) && Feast(0).body == TrackFrom(0)
  {}

  /** The whole game. */
  function Play(last: nat): (states: seq<State>)
    requires last == INTERIOR - 3
    ensures |states| == APPROACH + last + 1
  {
    seq(APPROACH + last + 1, i requires 0 <= i <= APPROACH + last =>
      if i < APPROACH then Approach(i) else Feast(last - (i - APPROACH)))
  }

  /** A game can fill the board: it reaches the state in which one cell is left and holds the food, and then the
      one in which the search for a free cell never ends. */
  lemma BoardFills(last: nat)
    requires last == INTERIOR - 3
    ensures var states := Play(last);
            && Run(states)
            && states[|states| - 2] == State(TrackFrom(1), Left, Track(0))
            && states[|states| - 1].body == TrackFrom(0) && |TrackFrom(0)| == INTERIOR
  {
    var states := Play(last);
    ApproachStarts();
    Arrived(last);
    FeastEnds();
    hide Starts, Approach, Feast, Follows;
    forall i | 0 <= i < |states| - 1 ensures Follows(states[i], states[i + 1]) {
      if i < APPROACH { ApproachTicks(i); } else { FeastTicks(last - (i - APPROACH)); }
    }
  }
}

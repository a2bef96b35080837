/**
 The session state machine of the treasure box widget, on values.

 A session is the four state cells of the component (the screen being shown,
 the box being opened, the challenge last revealed and the boxes already opened)
 together with the reveal timeout a box click has scheduled and that has not
 fired yet. Each user action, and the firing of that timeout, is a function
 from one session to the next; the lemmas below state what the
 component promises about every session reachable from the initial one.
 */
module Session {

  datatype Option<T> = None | Some(value: T)

  /** The three screens of the component. */
  datatype Phase = Menu | Playing | Result

  /** The boxes the playing screen offers: the buttons [0, 1, 2, 3, 4, 5]. */
  const Grid: set<nat> := {0, 1, 2, 3, 4, 5}

  /** Number of boxes in the grid, the "/6" of the used-box counter. */
  const BoxCount: nat := 6

  /** The challenge catalog, in source order. Emoji are written as code-point escapes. */
  const Rewards: seq<string> := [
    "sub x5 \U{1F389}",
    "mangia qualcosa \U{1F355}",
    "bevi qualcosa \U{1F964}",
    "fai 10 flessioni \U{1F4AA}",
    "fai 10 squat \U{1F9B5}",
    "fai un balletto \U{1F483}",
    "parla con un accento diverso \U{1F5E3}\U{FE0F}",
    "canta una canzone cringe \U{1F3B5}",
    "racconta un segreto imbarazzante \U{1F92B}",
    "imita un animale \U{1F436}",
    "leggi un messaggio con voce sexy \U{1F60F}",
    "indossa un accessorio buffo \U{1F3AD}",
    "fai il contrario di quello che dice la chat \U{21A9}\U{FE0F}",
    "metti una foto imbarazzante \U{1F4F8}",
    "parla solo a gesti per 1 minuto \U{1F910}"
  ]

  /**
   A reveal timeout scheduled by a successful box click: the clicked box and the
   `usedBoxes` list its callback captured at click time.
   */
  datatype Timeout = Timeout(box: nat, captured: seq<nat>)

  /**
   The component's state cells gameState, selectedBox, currentReward and
   usedBoxes, and the reveal timeout still to fire, if any.
   */
  datatype State = State(
    phase: Phase,
    selectedBox: Option<nat>,
    currentReward: string,
    usedBoxes: seq<nat>,
    pending: Option<Timeout>)

  /** The values the cells are created with; no timeout is scheduled. */
  const Initial: State := State(Menu, None, "", [], None)

  /** A user action, or the firing of the pending reveal timeout (`draw` is the random index). */
  datatype Action = StartNewGame | ClickBox(box: nat) | Reveal(draw: nat) | ResetGame | PlayAgain

  // ---------------------------------------------------------------------------
  // Transitions

  /**
   The click handler: ignore a used box; otherwise select it and schedule the
   reveal, whose callback keeps the box and the current usedBoxes.
   */
  function HandleBoxClick(s: State, box: nat): State
  {
    if box in s.usedBoxes then s
    else s.(selectedBox := Some(box), pending := Some(Timeout(box, s.usedBoxes)))
  }

  /**
   The timeout callback: show the drawn challenge, store the captured list with
   the box appended, go to the result screen. The timeout is then spent.
   */
  function RevealReward(s: State, draw: nat): State
    requires s.pending.Some? && draw < |Rewards|
  {
    var t := s.pending.value;
    s.(currentReward := Rewards[draw], usedBoxes := t.captured + [t.box], phase := Result, pending := None)
  }

  function StartGame(s: State): State
  {
    s.(phase := Playing)
  }

  /** Every cell back to its initial value; a scheduled timeout is not cancelled. */
  function Reset(s: State): State
  {
    Initial.(pending := s.pending)
  }

  /** Another round while boxes remain, a full reset once all six are used. */
  function Replay(s: State): State
  {
    if |s.usedBoxes| >= BoxCount then Reset(s)
    else s.(phase := Playing, selectedBox := None, currentReward := "")
  }

  /**
   When an action can happen: the grid offers only its six boxes, and hides them
   while a box is being opened, so a click never finds a timeout pending; the
   reveal fires only when a click has scheduled it.
   */
  predicate Enabled(s: State, a: Action)
  {
    match a
    case ClickBox(box) => box in Grid && s.pending.None?
    case Reveal(draw) => s.pending.Some? && draw < |Rewards|
    case _ => true
  }

  function Step(s: State, a: Action): State
    requires Enabled(s, a)
  {
    match a
    case StartNewGame => StartGame(s)
    case ClickBox(box) => HandleBoxClick(s, box)
    case Reveal(draw) => RevealReward(s, draw)
    case ResetGame => Reset(s)
    case PlayAgain => Replay(s)
  }

  /** Every action of `trace` is enabled in the session the previous ones lead to. */
  predicate Runs(s: State, trace: seq<Action>)
    decreases |trace|
  {
    trace == [] || (Enabled(s, trace[0]) && Runs(Step(s, trace[0]), trace[1..]))
  }

  function Run(s: State, trace: seq<Action>): State
    requires Runs(s, trace)
    decreases |trace|
  {
    if trace == [] then s else Run(Step(s, trace[0]), trace[1..])
  }

  // ---------------------------------------------------------------------------
  // Invariant

  predicate NoDuplicates(xs: seq<nat>)
  {
    forall i, j :: 0 <= i < j < |xs| ==> xs[i] != xs[j]
  }

  predicate AllInGrid(xs: seq<nat>)
  {
    forall k :: 0 <= k < |xs| ==> xs[k] in Grid
  }

  /**
   No box is recorded twice, now or when the pending timeout fires: its box
   was not in the list it captured.
   */
  predicate DuplicateFree(s: State)
  {
    && NoDuplicates(s.usedBoxes)
    && (s.pending.Some? ==> NoDuplicates(s.pending.value.captured) && s.pending.value.box !in s.pending.value.captured)
  }

  /** Every reachable session: duplicate-free, and every box involved is a grid box. */
  predicate Invariant(s: State)
  {
    && DuplicateFree(s)
    && AllInGrid(s.usedBoxes)
    && (s.selectedBox.Some? ==> s.selectedBox.value in Grid)
    && (s.pending.Some? ==> s.pending.value.box in Grid && AllInGrid(s.pending.value.captured))
  }

  // ---------------------------------------------------------------------------
  // Counting distinct boxes

  /** A duplicate-free sequence drawn from `pool` is no longer than `pool` is large. */
  lemma {:induction false} DistinctWithin(xs: seq<nat>, pool: set<nat>)
    requires NoDuplicates(xs)
    requires forall k :: 0 <= k < |xs| ==> xs[k] in pool
    ensures |xs| <= |pool|
  {
    if xs != [] {
      var rest := pool - {xs[0]};
      assert pool == rest + {xs[0]};
      forall k | 0 <= k < |xs[1..]|
        ensures xs[1..][k] in rest
      {
        assert xs[1..][k] == xs[k + 1];
      }
      DistinctWithin(xs[1..], rest);
    }
  }

  /** At most BoxCount boxes can ever be recorded as used. */
  lemma UsedBoxesBounded(s: State)
    requires Invariant(s)
    ensures |s.usedBoxes| <= BoxCount
  {
    DistinctWithin(s.usedBoxes, Grid);
  }

  /** Once BoxCount boxes are used, every box of the grid is among them. */
  lemma FullSessionUsesEveryBox(s: State, box: nat)
    requires Invariant(s)
    requires |s.usedBoxes| == BoxCount
    requires box in Grid
    ensures box in s.usedBoxes
  {
    if box !in s.usedBoxes {
      var pool := Grid - {box};
      DistinctWithin(s.usedBoxes, pool);
    }
  }

  /** The "you can still pick N" figure of the playing screen, never negative. */
  function BoxesLeft(s: State): (n: nat)
    requires Invariant(s)
    ensures n + |s.usedBoxes| == BoxCount
  {
    UsedBoxesBounded(s);
    BoxCount - |s.usedBoxes|
  }

  // ---------------------------------------------------------------------------
  // Properties of single steps

  /**
   Duplicates never enter usedBoxes: the click guard schedules a box only when
   it is missing from the list the reveal will append it to.
   */
  lemma StepKeepsNoDuplicates(s: State, a: Action)
    requires DuplicateFree(s)
    requires Enabled(s, a)
    ensures DuplicateFree(Step(s, a))
  {
  }

  lemma StepPreservesInvariant(s: State, a: Action)
    requires Invariant(s) && Enabled(s, a)
    ensures Invariant(Step(s, a))
    ensures |Step(s, a).usedBoxes| <= BoxCount
  {
    StepKeepsNoDuplicates(s, a);
    UsedBoxesBounded(Step(s, a));
  }

  /**
   A box click followed by its reveal records the box at the end of usedBoxes,
   shows a catalog entry and lands on the result screen with the box still selected.
   */
  lemma OpenBoxOutcome(s: State, box: nat, draw: nat)
    requires box in Grid && box !in s.usedBoxes && s.pending.None? && draw < |Rewards|
    ensures Enabled(Step(s, ClickBox(box)), Reveal(draw))
    ensures var t := Step(Step(s, ClickBox(box)), Reveal(draw));
      && t.phase == Result
      && t.usedBoxes == s.usedBoxes + [box]
      && t.currentReward in Rewards
      && t.selectedBox == Some(box)
      && t.pending.None?
  {
  }

  /**
   The callback appends to the list it captured at click time: a reset between
   the click and the reveal is undone for usedBoxes.
   */
  lemma RevealAfterResetRestoresCapturedList(s: State, box: nat, draw: nat)
    requires box in Grid && box !in s.usedBoxes && s.pending.None? && draw < |Rewards|
    ensures Runs(s, [ClickBox(box), ResetGame, Reveal(draw)])
    ensures Run(s, [ClickBox(box), ResetGame, Reveal(draw)]).usedBoxes == s.usedBoxes + [box]
  {
    var s1 := Step(s, ClickBox(box));
    var s2 := Step(s1, ResetGame);
    var s3 := Step(s2, Reveal(draw));
    assert [ClickBox(box), ResetGame, Reveal(draw)][1..] == [ResetGame, Reveal(draw)];
    assert [ResetGame, Reveal(draw)][1..] == [Reveal(draw)];
    assert Runs(s2, [Reveal(draw)]) && Run(s2, [Reveal(draw)]) == s3;
    assert Runs(s1, [ResetGame, Reveal(draw)]) && Run(s1, [ResetGame, Reveal(draw)]) == s3;
  }

  /** In a reachable full session no click does anything: every grid box is used. */
  lemma FullSessionIgnoresClicks(s: State, box: nat)
    requires Invariant(s) && |s.usedBoxes| == BoxCount && box in Grid
    ensures HandleBoxClick(s, box) == s
  {
    FullSessionUsesEveryBox(s, box);
  }

  // ---------------------------------------------------------------------------
  // Whole sessions

  lemma {:induction false} RunPreservesInvariant(s: State, trace: seq<Action>)
    requires Invariant(s) && Runs(s, trace)
    ensures Invariant(Run(s, trace))
    ensures |Run(s, trace).usedBoxes| <= BoxCount
    decreases |trace|
  {
    if trace == [] {
      UsedBoxesBounded(s);
    } else {
      StepPreservesInvariant(s, trace[0]);
      RunPreservesInvariant(Step(s, trace[0]), trace[1..]);
    }
  }

  /** Every session reachable from the initial one keeps the invariant and at most six used boxes. */
  lemma ReachableSessionsAreBounded(trace: seq<Action>)
    requires Runs(Initial, trace)
    ensures Invariant(Run(Initial, trace))
    ensures |Run(Initial, trace).usedBoxes| <= BoxCount
  {
    RunPreservesInvariant(Initial, trace);
  }
}

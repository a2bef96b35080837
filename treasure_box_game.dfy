/**
 The TreasureBoxGame component: its four state cells as fields of an object,
 the reveal timeout its click handler schedules as a fifth field, and its
 handlers as methods that overwrite them.

 Each method states the exact new value of every cell and ties it to the
 matching step of the Session state machine, whose lemmas carry the
 properties that hold across whole sessions.
 */
module Component {
  import opened Session

  class TreasureBoxGame {
    var phase: Phase
    var selectedBox: Option<nat>
    var currentReward: string
    var usedBoxes: seq<nat>
    /** The reveal timeout scheduled by a click and not fired yet. */
    var pending: Option<Timeout>

    /** The cells as one session value. */
    function Cells(): State
      reads this
    {
      State(phase, selectedBox, currentReward, usedBoxes, pending)
    }

    /** Holds in every state the component can reach (see Session.Invariant). */
    ghost predicate Valid()
      reads this
    {
      Invariant(Cells())
    }

    /**
     The initial values given to useState: the menu, nothing selected or revealed,
     no box used; no timeout is scheduled.
     */
    constructor ()
      ensures Valid()
      ensures phase == Menu && selectedBox == None && currentReward == "" && usedBoxes == []
      ensures pending == None
    {
      phase := Menu;
      selectedBox := None;
      currentReward := "";
      usedBoxes := [];
      pending := None;
    }

    /** The menu button: switch to the playing screen. Nothing else is touched, not even usedBoxes. */
    method StartNewGame()
      requires Valid()
      modifies this
      ensures Valid()
      ensures phase == Playing
      ensures selectedBox == old(selectedBox) && currentReward == old(currentReward) && usedBoxes == old(usedBoxes)
      ensures pending == old(pending)
      ensures Cells() == Step(old(Cells()), Action.StartNewGame)
    {
      phase := Playing;
    }

    /**
     The click handler. Its only guard is that the box is not yet used; then it
     selects the box and schedules the reveal, which keeps the box and the current
     usedBoxes. Only the six grid buttons call it (`box in Grid`), and the grid is
     hidden while a box is being opened, so no reveal is pending.
     */
    method ClickBox(box: nat)
      requires Valid()
      requires box in Grid && pending == None
      modifies this
      ensures Valid()
      ensures box in old(usedBoxes) ==> unchanged(this)
      ensures box !in old(usedBoxes) ==> selectedBox == Some(box) && pending == Some(Timeout(box, usedBoxes))
      ensures phase == old(phase) && currentReward == old(currentReward) && usedBoxes == old(usedBoxes)
      ensures Cells() == Step(old(Cells()), Action.ClickBox(box))
    {
      if box in usedBoxes {
        return;
      }
      selectedBox := Some(box);
      pending := Some(Timeout(box, usedBoxes));
    }

    /**
     The pending timeout fires: `draw` stands for the random index into Rewards.
     The callback writes the list it captured at click time with its box appended;
     selectedBox is left as it is.
     */
    method Reveal(draw: nat)
      requires Valid()
      requires pending.Some? && draw < |Rewards|
      modifies this
      ensures Valid()
      ensures currentReward == Rewards[draw]
      ensures usedBoxes == old(pending.value.captured) + [old(pending.value.box)]
      ensures phase == Result
      ensures selectedBox == old(selectedBox)
      ensures pending == None
      ensures |usedBoxes| <= BoxCount
      ensures Cells() == Step(old(Cells()), Action.Reveal(draw))
    {
      ghost var before := Cells();
      var t := pending.value;
      currentReward := Rewards[draw];
      usedBoxes := t.captured + [t.box];
      phase := Result;
      pending := None;
      StepPreservesInvariant(before, Action.Reveal(draw));
    }

    /** The reset button, from any state: every cell back to its initial value; a pending timeout is not cancelled. */
    method ResetGame()
      requires Valid()
      modifies this
      ensures Valid()
      ensures phase == Menu && selectedBox == None && currentReward == "" && usedBoxes == []
      ensures pending == old(pending)
      ensures Cells() == Step(old(Cells()), Action.ResetGame)
    {
      phase := Menu;
      selectedBox := None;
      currentReward := "";
      usedBoxes := [];
    }

    /** Another round while fewer than six boxes are used, otherwise a full reset. */
    method PlayAgain()
      requires Valid()
      modifies this
      ensures Valid()
      ensures |old(usedBoxes)| >= BoxCount ==>
        phase == Menu && selectedBox == None && currentReward == "" && usedBoxes == []
      ensures |old(usedBoxes)| < BoxCount ==>
        phase == Playing && selectedBox == None && currentReward == "" && usedBoxes == old(usedBoxes)
      ensures pending == old(pending)
      ensures Cells() == Step(old(Cells()), Action.PlayAgain)
    {
      if |usedBoxes| >= BoxCount {
        ResetGame();
      } else {
        phase := Playing;
        selectedBox := None;
        currentReward := "";
      }
    }
  }

  /**
   A whole session driven through the component: start, then open every grid box
   in the given order, each with its own draw, asking to play again after each
   reveal. Every reveal shows its drawn challenge, the sixth fills usedBoxes, and
   the play-again request that follows returns the component to the menu.
   */
  method SixRoundSession(order: seq<nat>, draws: seq<nat>) returns (shown: seq<string>, final: State)
    requires |order| == BoxCount && NoDuplicates(order) && AllInGrid(order)
    requires |draws| == BoxCount && forall k :: 0 <= k < |draws| ==> draws[k] < |Rewards|
    ensures |shown| == BoxCount
    ensures forall k :: 0 <= k < BoxCount ==> shown[k] == Rewards[draws[k]]
    ensures final == Initial
  {
    var game := new TreasureBoxGame();
    game.StartNewGame();
    shown := [];
    var k := 0;
    while k < BoxCount
      invariant 0 <= k <= BoxCount
      invariant game.Valid()
      invariant game.usedBoxes == order[..k]
      invariant game.pending == None
      invariant k < BoxCount ==> game.selectedBox == None && game.phase == Playing
      invariant |shown| == k
      invariant forall j :: 0 <= j < k ==> shown[j] == Rewards[draws[j]]
    {
      var box := order[k];
      game.ClickBox(box);
      game.Reveal(draws[k]);
      shown := shown + [game.currentReward];
      assert order[..k + 1] == order[..k] + [box];
      if k + 1 < BoxCount {
        game.PlayAgain();
      }
      k := k + 1;
    }
    game.PlayAgain();
    final := game.Cells();
  }
}

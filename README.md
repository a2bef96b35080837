# Treasure box session state machine

A Dafny model of the `TreasureBoxGame` React component of streamer-box: a
six-box reward picker for livestreams. The component keeps four state cells —
the screen shown (`gameState`: menu, playing, result), the box being opened
(`selectedBox`), the challenge last revealed (`currentReward`) and the boxes
opened so far (`usedBoxes`) — and changes them in four handlers:
`startNewGame`, `handleBoxClick` (whose 1500 ms timeout callback draws a
challenge from a fixed list of 15), `resetGame` and `playAgain`.

- `session.dfy`, module `Session`: the cells and the pending reveal timeout as a
  `State` value, the reward catalog `Rewards`, one transition function per
  handler and one for the timeout callback (`StartGame`, `HandleBoxClick`,
  `RevealReward`, `Reset`, `Replay`), their combination `Step` over an `Action`,
  whole sessions as traces (`Runs`, `Run`), the invariant of reachable sessions
  and the lemmas about it.
- `treasure_box_game.dfy`, module `Component`: class `TreasureBoxGame`, whose
  fields are the four cells plus `pending`, and whose methods are the handlers
  and the timeout callback. Each method states the new value of every field and
  ties it to `Session.Step`, so the session lemmas apply to the object.
  `SixRoundSession` drives one object through a full six-box session.

The timeout that `handleBoxClick` schedules is explicit state: a successful
click stores `Timeout(box, captured)` in `pending`, where `captured` is the
`usedBoxes` list the callback closes over, and the separate step `Reveal(draw)`
fires it. Firing writes `captured + [box]` to `usedBoxes`, as the callback does,
even if the cells changed in between; a reset does not cancel it.
`Math.random()` becomes the injected index `draw < |Rewards|`.

Preconditions that come from what the screen offers, not from the handlers:
- a click is on one of the six grid buttons `[0, 1, 2, 3, 4, 5]` (`box in Grid`);
  the handler itself checks only `usedBoxes.includes(box)`, so it has no range
  check and no screen check, and any unused index reaching it is selected;
- no click arrives while a reveal is pending, because the grid is replaced by
  the opening animation as soon as a box is selected.

Other behaviour of the code that the model keeps:
- `startNewGame` only switches the screen; it clears neither the selection nor
  the used boxes;
- the reveal does not clear `selectedBox`; only `playAgain` and `resetGame` do.

The transition functions of `Session` and `Enabled` carry no contracts of their
own: each is specified by the method of `TreasureBoxGame` that is tied to it,
or by the lemmas that use it.

The emoji in the reward strings are written as code-point escapes; the code
points are those of the source text (two of them carry the U+FE0F variation
selector).

## Model

| member | source | states |
|---|---|---|
| `Component.TreasureBoxGame.constructor` | src/treasure_box_game.tsx:13-16 | A new component is on the menu with no selection, an empty reward, no used box and no pending timeout, and satisfies the session invariant. |
| `Component.TreasureBoxGame.StartNewGame` | src/treasure_box_game.tsx:92-94 | The screen becomes playing; selection, reward, used boxes and the pending timeout are left exactly as they were. |
| `Component.TreasureBoxGame.ClickBox` | src/treasure_box_game.tsx:69-75 | Clicking a used box changes no field at all; clicking an unused box selects it and schedules the reveal with the box and the current used boxes, changing nothing else (screen, reward and used boxes stay until the reveal). |
| `Component.TreasureBoxGame.Reveal` | src/treasure_box_game.tsx:75-80 | The reward becomes catalog entry `draw`, the used boxes become the list captured at click time with the box appended, the screen becomes result, the selection stays, the timeout is spent, and at most six boxes are used afterwards. |
| `Component.TreasureBoxGame.ResetGame` | src/treasure_box_game.tsx:83-90 | From any reachable state: menu, no selection, empty reward, no used box; a pending timeout stays scheduled. |
| `Component.TreasureBoxGame.PlayAgain` | src/treasure_box_game.tsx:96-104 | With six or more used boxes the result is the reset state; otherwise playing, no selection, empty reward, used boxes unchanged. |
| `Component.SixRoundSession` | src/treasure_box_game.tsx:69-104 | Opening all six grid boxes in any order shows the drawn challenge after each click, and asking to play again after the sixth returns the component to its initial state. |
| `Session.HandleBoxClick` | src/treasure_box_game.tsx:69-80 | No contract; specified through `TreasureBoxGame.ClickBox`. |
| `Session.RevealReward` | src/treasure_box_game.tsx:75-80 | No contract; specified through `TreasureBoxGame.Reveal`. |
| `Session.StartGame` | src/treasure_box_game.tsx:92-94 | No contract; specified through `TreasureBoxGame.StartNewGame`. |
| `Session.Reset` | src/treasure_box_game.tsx:83-90 | No contract; specified through `TreasureBoxGame.ResetGame`. |
| `Session.Replay` | src/treasure_box_game.tsx:96-104 | No contract; specified through `TreasureBoxGame.PlayAgain`. |
| `Session.Enabled` | src/treasure_box_game.tsx:163-175 | No contract; a click is on a grid box with no reveal pending, a reveal fires only a scheduled timeout. Used by `StepPreservesInvariant` and `RunPreservesInvariant`. |
| `Session.OpenBoxOutcome` | src/treasure_box_game.tsx:69-80 | A click on an unused grid box enables its reveal, and the two together record the box at the end of `usedBoxes`, show a member of the catalog, reach the result screen and leave no timeout pending. |
| `Session.RevealAfterResetRestoresCapturedList` | src/treasure_box_game.tsx:75-90 | A reset between a click and its reveal does not stop the reveal from writing the click-time list with the box appended. |
| `Session.StepKeepsNoDuplicates` | src/treasure_box_game.tsx:70-78 | No step puts a duplicate into `usedBoxes`: the click guard schedules a box only when it is missing from the list the reveal appends it to. |
| `Session.UsedBoxesBounded` | src/treasure_box_game.tsx:171 | Distinct used boxes drawn from the six-box grid number at most six. |
| `Session.BoxesLeft` | src/treasure_box_game.tsx:202-205 | The remaining-box count `6 - usedBoxes.length` shown on the playing screen is a natural number, and with the used count it adds up to six. |
| `Session.FullSessionUsesEveryBox` | src/treasure_box_game.tsx:171-175 | In a session satisfying the invariant with six used boxes, every grid box is among them. |
| `Session.FullSessionIgnoresClicks` | src/treasure_box_game.tsx:69-70 | Once six boxes are used, the click handler on any grid box returns the session unchanged. |
| `Session.StepPreservesInvariant` | src/treasure_box_game.tsx:69-104 | Every enabled step keeps used boxes and the pending timeout duplicate-free and in the grid, the selection in the grid, and at most six used boxes. |
| `Session.RunPreservesInvariant` | src/treasure_box_game.tsx:69-104 | Any sequence of enabled steps from a session satisfying the invariant ends in one that satisfies it, with at most six used boxes. |
| `Session.ReachableSessionsAreBounded` | src/treasure_box_game.tsx:13-16 | Every session reachable from the initial cell values satisfies the invariant and has at most six used boxes. |

## Left out

- Rendering: the JSX, the CSS classes and the `boxColors` palette are presentation only.
- Particles (`createParticles`, the `particles` cell) and the `showAnimation` cell with its 3000 ms effect timer: floating-point random coordinates and visual timing, no effect on the session cells.
- The 1500 ms delay: replaced by the explicit `Reveal` step, which may come after any other actions.
- `Math.random()`: replaced by the injected index `draw`; the distribution (uniform, with replacement) is not modelled.
- Component.TreasureBoxGame.ClickBox: requires `box in Grid` and no pending timeout, which the rendered grid guarantees; the handler itself accepts any number at any time, and a second click before the reveal would schedule a second timeout, which the single `pending` field does not hold.
- Component.TreasureBoxGame.Reveal: requires a pending timeout, the only way the callback runs.
- The other UI-only restrictions (used boxes disabled, play-again button hidden at six used boxes, the reset button shown only on the result screen) are not modelled as guards, because the handlers do not check them.
- JavaScript strings are UTF-16; the catalog strings are modelled as sequences of Unicode scalar values, and their lengths are never used.

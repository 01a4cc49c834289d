# Christmas scratch-card game: a Dafny model of its game logic

The game shows a grid of 17 tiles. Each tile hides a prize number from 1 to 17
under a wrapping-paper cover. The player scratches covers off with the mouse or
a finger, and the game is won once all 17 are open. This project models the two
pieces of sequential logic behind that in Dafny and proves their properties:

- **The controller in `App.tsx`** (`shuffle.dfy`, module `Shuffle`; `app.dfy`,
  module `App`; the tile record `ScratchItem` in `types.dfy`, module `Types`).
  `shuffleArray` is a Fisher–Yates shuffle, modelled as a method over arrays.
  It copies its argument into a fresh array and runs the descending swap loop
  on the copy. Its random draws come from an explicit sequence `js` with
  `0 <= js[i] <= i`. The component's five state variables are the fields of the
  class `App.Game`: `items`, `revealedCount`, `gameWon`, `activeCardId` and
  `lastRevealed`. Its methods are the handlers `startNewGame`, `handleReveal`,
  `handleStartScratch` and `handleScratchEnd`, each one atomic transition.
  The `map`, `filter` and `find` calls inside `handleReveal` are the functions
  `MarkRevealed`, `Revealed` and `FindItem`.
- **The per-tile scratch logic in `components/ScratchCard.tsx`**
  (`scratch_card.dfy`, module `Scratch`). The canvas is an idealised RGBA byte
  array of `4 * width * height` bytes held by the class `Scratch.ScratchCard`.
  Next to it are the flags `isScratching` and `isFullyRevealed` and the tile
  the card shows. The ids the card passes to its `onReveal` callback are
  recorded in the field `revealCalls`. The eraser is a `destination-out` disk
  of radius 20 on an integer pixel grid. It makes every channel of each pixel
  inside the disk 0 and leaves all other pixels alone. `checkRevealStatus`
  counts the alpha bytes below 128 with a stride-4 loop. It reveals when
  `100 * transparent > 40 * width * height`, which is the source's
  `transparent / total * 100 > 40` in exact arithmetic. The 10% sampling draw
  in `handleMouseMove` is a boolean parameter. The comment on that line speaks
  of 20%, but the code uses 0.1.

Properties proved:

- The shuffle returns a permutation of its argument for every choice of draws.
  Conversely, every permutation is produced by some choice of draws.
- A new game deals 1..17 once each onto tiles 0..16, all closed. It also resets
  the count, the win flag, the lock and the popup, whatever the state before.
- A reveal opens only the named tile. The count is recomputed, so revealing a
  tile twice counts it once. The count never goes down and never exceeds the
  number of tiles. The win flag is raised exactly when the count reaches 17 and
  is never lowered.
- The scratch lock refuses a second tile. Ending a gesture keeps the lock; a
  reveal releases it.
- The transparent count is exactly the number of pixels with alpha below 128.
  Erasing never lowers it. Exactly 40% transparent does not reveal.
- A card reveals again on a later release, because `checkRevealStatus` does not
  look at `isFullyRevealed`.

Two facts about the source that the model keeps as written:

- **The card never engages the lock.** `ScratchCard` takes only `item`,
  `onReveal`, `width` and `height` from its props (components/ScratchCard.tsx:4).
  It never calls `onStartScratch` or `onScratchEnd` and ignores `isLocked`. The
  lock is therefore modelled in `App.Game` exactly as written, and nothing in
  `Scratch.ScratchCard` consults it.
- **A second reveal can fire.** Once a card is revealed its buffer is fully
  transparent, so every later release passes the 40% test again and calls
  `onReveal` again (`Scratch.SecondRevealFires`). In the browser only the CSS
  class `pointer-events-none` (components/ScratchCard.tsx:185) stops the events.
  The controller tolerates the repeat because it recounts instead of
  incrementing (`App.MarkRevealedIdempotent`).

Three behaviours of the code worth stating plainly, all kept as written:

- A card reveals as soon as strictly more than 40% of its pixels are
  transparent (components/ScratchCard.tsx:108), so a card still 55% covered
  (45% transparent) is revealed.
- Mouse-leave only ends the gesture and runs no reveal check
  (components/ScratchCard.tsx:191); the check runs on mouse-up and touch-end.
- Any reveal releases the scratch lock, whichever tile holds it (App.tsx:82).

## Model

| member | source | states |
|---|---|---|
| `Shuffle.Swap` | App.tsx:11 | The destructuring swap exchanges positions i and j and leaves every other position as it was. |
| `Shuffle.ShuffledFromPermutes` | App.tsx:9-12 | Every tail of the descending loop keeps the length and the multiset of elements. |
| `Shuffle.FisherYatesPermutes` | App.tsx:7-14 | Whatever the random draws, the shuffled array is a permutation of the input: same length, same multiset. |
| `Shuffle.ShuffledFromReaches` | App.tsx:9-12 | Any arrangement that agrees with the input above index i is produced by the loop from i down to 1 for some valid choice of draws. |
| `Shuffle.EveryArrangementReachable` | App.tsx:7-14 | Every permutation of the input is the result of the shuffle for some draws with 0 <= j <= i. |
| `Shuffle.ShuffleArray` | App.tsx:7-14 | Returns a fresh array of the same length whose contents are the Fisher–Yates result of the input under the draws, and a permutation of it. The argument is left unmodified: the method may not write to it. |
| `App.UpToEachOnce` | App.tsx:49 | The generated numbers 1..n contain each of 1..n exactly once and nothing else. |
| `App.PrizesEachOnce` | App.tsx:49-50 | Any arrangement of the prize numbers has 17 entries, each of 1..17 exactly once, all within 1..17. |
| `App.NewItemsDealt` | App.tsx:52-56 | The new tile list carries the shuffled values in order, tile k has id k, and no tile is open. |
| `App.MarkRevealed` | App.tsx:67-69 | The map keeps the length, every id and every value, and opens exactly the tiles whose id matches; every other tile keeps its flag. |
| `App.Revealed` | App.tsx:72 | The filtered list is no longer than the tile list, and has the full length exactly when every tile is open. |
| `App.RevealedIsFilter` | App.tsx:72 | The filter keeps exactly the open tiles of the list. |
| `App.FindItem` | App.tsx:74 | The find returns null exactly when no tile has the id; otherwise it returns the first tile with that id. |
| `App.MarkRevealedIdempotent` | App.tsx:66-73 | Revealing the same id twice gives the same tile list, and so the same count, as revealing it once. |
| `App.RevealNeverUncounts` | App.tsx:66-73 | The recomputed count after a reveal is never below the count before it. |
| `App.RevealCountsOnce` | App.tsx:66-73 | When one tile carries the id, a reveal adds one to the count if that tile was closed and nothing if it was already open. |
| `App.RevealReportsTile` | App.tsx:74-75 | With ids equal to positions, the reported tile is the tile with that id, now open; an id outside the grid reports null. |
| `App.Game.constructor` | App.tsx:17-21 | The initial state is an empty tile list, count 0, not won, no lock and no popup, and it satisfies the controller invariant. |
| `App.Game.StartNewGame` | App.tsx:47-63 | After a new game there are 17 tiles, tile k has id k, the values are the shuffle of 1..17 and a permutation of it, and no tile is open. Count, win flag, lock and popup are reset whatever the state before. |
| `App.Game.HandleReveal` | App.tsx:65-83 | The tiles become MarkRevealed of the old tiles. The count is the number of open tiles and never falls. The popup is the found tile. The win flag becomes old flag or count == 17. The lock is released. The invariant is kept: won exactly when 17 tiles are open, 1..17 dealt once each. |
| `App.Game.HandleStartScratch` | App.tsx:85-90 | If another tile holds the lock, nothing changes. Otherwise the requester holds the lock and the popup is cleared, and tiles, count and win flag are unchanged. |
| `App.Game.HandleScratchEnd` | App.tsx:92-95 | Ending a gesture changes nothing, so the lock stays held. |
| `App.LockScenario` | App.tsx:85-95 | Tile a takes the lock. Tile b is refused while a holds it. Ending the gesture keeps it, a reveal releases it, and then b takes it. |
| `App.RevealNextInOrder` | App.tsx:66-73 | Revealing tile id when exactly the tiles below id are open opens exactly the tiles below id + 1 and adds one to the count. |
| `App.RevealInOrder` | App.tsx:65-83 | Revealing tiles 0..16 of a freshly dealt game gives counts 1, 2, ..., 17. The win flag is false after each of the first 16 reveals and true after the 17th. |
| `App.RevealAll` | App.tsx:47-83 | For any draws, a new game followed by revealing every tile counts 1..17 and is won at the 17th reveal and not before. |
| `Scratch.CoverColour` | components/ScratchCard.tsx:21-22 | The cover is opaque, red (#D42426) exactly when the prize is even, and green (#165B33) exactly when it is odd. |
| `Scratch.Erased` | components/ScratchCard.tsx:149-152 | A destination-out disk keeps the buffer length. Every channel of a pixel inside the disk becomes 0 (fully transparent), bytes of pixels outside the disk are unchanged, and so no byte grows. |
| `Scratch.TransparentCount` | components/ScratchCard.tsx:95-102 | The number of transparent pixels among the first n is at most n. |
| `Scratch.TransparentCountIsCardinality` | components/ScratchCard.tsx:95-102 | The count equals the number of pixel indices k < n whose alpha byte 4k+3 is below 128. |
| `Scratch.ErasingNeverLowersCount` | components/ScratchCard.tsx:149-152 | Erasing a disk never lowers the transparent count, so the count only grows while scratching. |
| `Scratch.ClearedIsTransparent` | components/ScratchCard.tsx:122 | After clearRect every pixel counts as transparent. |
| `Scratch.CoverIsOpaque` | components/ScratchCard.tsx:19-23 | A freshly drawn cover has no transparent pixel. |
| `Scratch.FortyPercentIsNotEnough` | components/ScratchCard.tsx:104-108 | Exactly 40% transparent does not reveal, and one pixel more does. |
| `Scratch.TileThreshold` | components/ScratchCard.tsx:104-108 | On the 160×160 tile the grid uses, a reveal needs more than 10240 of the 25600 pixels transparent. |
| `Scratch.ClearedBufferRevealsAgain` | components/ScratchCard.tsx:86-111 | On a cleared buffer of a non-empty canvas the reveal test passes, so nothing in the check prevents a second reveal. |
| `Scratch.ScratchCard.constructor` | components/ScratchCard.tsx:4-83 | Mounting sets no gesture, copies the item's revealed flag into the local flag, and starts with no onReveal calls. The drawing effect leaves the cover for a closed tile and a cleared canvas for an open one. Default size is 200×200. |
| `Scratch.ScratchCard.DrawGiftCover` | components/ScratchCard.tsx:19-23 | Every pixel of the canvas becomes the parity colour of the prize. |
| `Scratch.ScratchCard.ClearRect` | components/ScratchCard.tsx:122 | Every byte of the canvas becomes 0 (transparent black). |
| `Scratch.ScratchCard.Paint` | components/ScratchCard.tsx:66-83 | The drawing effect leaves the cover when the tile is closed and a cleared canvas when it is open. |
| `Scratch.ScratchCard.CountTransparent` | components/ScratchCard.tsx:93-102 | The stride-4 loop from index 3 returns exactly the transparent count over width×height pixels, at most width×height. |
| `Scratch.ScratchCard.Reveal` | components/ScratchCard.tsx:113-125 | The local flag becomes true, onReveal is called once with the item's id, and the whole canvas is cleared. |
| `Scratch.ScratchCard.CheckRevealStatus` | components/ScratchCard.tsx:86-111 | If strictly more than 40% of the pixels are transparent, the card reveals. Otherwise nothing changes. The local flag is not consulted. |
| `Scratch.ScratchCard.EraseDisk` | components/ScratchCard.tsx:145-152 | The canvas becomes the erased buffer for the disk at the canvas-local point (x, y). |
| `Scratch.ScratchCard.PointerMove` | components/ScratchCard.tsx:127-162 | Without a gesture, or once revealed, nothing changes. Otherwise a disk is erased, and if the sampling draw comes up, the reveal check runs on the erased buffer. |
| `Scratch.ScratchCard.PointerDown` | components/ScratchCard.tsx:186-193 | Mouse-down and touch-start start a gesture and change nothing else. |
| `Scratch.ScratchCard.PointerUp` | components/ScratchCard.tsx:187-197 | Mouse-up and touch-end end the gesture and always run the reveal check on the current buffer. |
| `Scratch.ScratchCard.MouseLeave` | components/ScratchCard.tsx:191 | Mouse-leave ends the gesture and runs no check. |
| `Scratch.ScratchCard.Rerender` | components/ScratchCard.tsx:11-83 | On a new item prop the local flag is set to match when isRevealed changed. When isRevealed or the value changed, the canvas is repainted for the new item (cover if closed, cleared if open). Otherwise the canvas is unchanged. |
| `Scratch.SecondRevealFires` | components/ScratchCard.tsx:86-125 | Scratching a 1×1 card open and releasing twice calls onReveal twice with the same id. |

## Left out

- components/Snowfall.tsx is not part of this model. It is a decorative particle animation built on floating-point trigonometry, Math.random, requestAnimationFrame and resize listeners.
- Audio preload and playback (App.tsx:24-40, 81) are browser I/O and are not modelled. That includes silently ignoring a rejected play().
- JSX rendering, the overlays, the styling and the injected keyframes are not modelled. That includes the popup's dismiss button (App.tsx:152), which clears lastRevealed; the play-again buttons only call startNewGame, which is modelled.
- The CSS class `pointer-events-none` (components/ScratchCard.tsx:185) is styling, so the model delivers every event to a card whether or not it is revealed.
- Only the base fill of drawGiftCover is modelled. The stripes, ribbon, bow, text and shadow are foreign canvas calls. They are opaque fills over an opaque base, so every cover pixel is opaque either way, and only their colours are lost.
- Canvas antialiasing, getBoundingClientRect and fractional pointer coordinates are not modelled. The eraser takes the canvas-local point as integers and covers the pixels whose integer coordinates lie within distance 20.
- Floating-point rounding of the percentage is not modelled: the threshold is compared in exact integer arithmetic.
- The case where the canvas or its 2D context is unavailable (the early returns in components/ScratchCard.tsx) is left out: the model always has a buffer.
- A canvas of width or height 0 is not modelled faithfully: there `getImageData` (components/ScratchCard.tsx:93) throws `IndexSizeError`, while the model's reveal test is simply false. The grid only creates 160×160 cards and the default is 200×200.
- A canvas that was never resized keeps the browser's default size. That happens to a card mounted already revealed. The model's buffer is always width×height.
- React scheduling and state batching are left out: each handler is one atomic transition, and setters called inside the setItems updater take effect with it.
- Math.random is replaced by parameters: the shuffle's draws and the 10% sampling draw. Probabilities, including the uniformity of the shuffle, are not modelled; only that every permutation can be dealt is proved.
- App.Game.HandleReveal, App.Game.HandleStartScratch: require the controller invariant `Valid()`. The constructor and every handler establish it, so any reachable state meets it.
- Scratch.ScratchCard.Rerender: requires the new item to keep the card's id. The grid keys cards by id, so React never hands a card a different tile.

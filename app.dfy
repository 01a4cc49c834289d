/** The game-state controller of App.tsx: the five pieces of component state
    that the handlers `startNewGame`, `handleReveal`, `handleStartScratch` and
    `handleScratchEnd` update. Each handler is one atomic state transition. */
module App {
  import opened Types
  import opened Shuffle

  /** Number of tiles in a game, and the revealed count that wins it. */
  const GridSize: nat := 17

  // ------------------------------------------------------------------
  // The prize numbers 1..17
  // ------------------------------------------------------------------

  /** The numbers 1..n in increasing order. */
  function UpTo(n: nat): seq<int> {
    seq(n, i => i + 1)
  }

  /** 1..n holds each of 1..n exactly once and nothing else. */
  lemma {:induction false} UpToEachOnce(n: nat)
    ensures forall v :: multiset(UpTo(n))[v] == if 1 <= v <= n then 1 else 0
  {
    if n > 0 {
      UpToEachOnce(n - 1);
      assert UpTo(n) == UpTo(n - 1) + [n];
    }
  }

  /** The prize numbers of one game: Array.from({length: 17}, (_, i) => i + 1). */
  function Numbers(): seq<int> {
    UpTo(GridSize)
  }

  /** Any arrangement of the prize numbers has 17 entries, each of 1..17
      appearing exactly once, and nothing outside 1..17. */
  lemma PrizesEachOnce(vals: seq<int>)
    requires multiset(vals) == multiset(Numbers())
    ensures |vals| == GridSize
    ensures forall v :: 1 <= v <= GridSize ==> multiset(vals)[v] == 1
    ensures forall k :: 0 <= k < |vals| ==> 1 <= vals[k] <= GridSize
  {
    UpToEachOnce(GridSize);
    assert |vals| == |multiset(vals)| == |multiset(Numbers())| == |Numbers()|;
    forall k | 0 <= k < |vals| ensures 1 <= vals[k] <= GridSize {
      assert vals[k] in multiset(vals);
    }
  }

  // ------------------------------------------------------------------
  // Building and updating the tile list
  // ------------------------------------------------------------------

  /** The tile list of a new game: tile k has id k and the k-th shuffled value. */
  function NewItems(vals: seq<int>): seq<ScratchItem> {
    seq(|vals|, k requires 0 <= k < |vals| => ScratchItem(k, vals[k], false))
  }

  /** The prize numbers of a tile list, in tile order. */
  function Values(s: seq<ScratchItem>): seq<int> {
    seq(|s|, k requires 0 <= k < |s| => s[k].value)
  }

  predicate IdsAreIndices(s: seq<ScratchItem>) {
    forall k :: 0 <= k < |s| ==> s[k].id == k
  }

  /** A fresh tile list carries the dealt values, ids 0..n-1, and no tile is open. */
  lemma NewItemsDealt(vals: seq<int>)
    ensures |NewItems(vals)| == |vals| && Values(NewItems(vals)) == vals
    ensures IdsAreIndices(NewItems(vals))
    ensures forall k :: 0 <= k < |vals| ==> !NewItems(vals)[k].isRevealed
  {
  }

  /** The map at App.tsx:67-69: the tile(s) with this id become revealed. */
  function MarkRevealed(s: seq<ScratchItem>, id: int): (r: seq<ScratchItem>)
    ensures |r| == |s|
    ensures forall k :: 0 <= k < |s| ==>
      && r[k].id == s[k].id
      && r[k].value == s[k].value
      && r[k].isRevealed == (s[k].isRevealed || s[k].id == id)
  {
    seq(|s|, k requires 0 <= k < |s| => if s[k].id == id then s[k].(isRevealed := true) else s[k])
  }

  /** The filter at App.tsx:72: the revealed tiles, in order. */
  function Revealed(s: seq<ScratchItem>): (r: seq<ScratchItem>)
    ensures |r| <= |s|
    ensures |r| == |s| <==> forall k :: 0 <= k < |s| ==> s[k].isRevealed
  {
    if s == [] then []
    else if s[0].isRevealed then [s[0]] + Revealed(s[1..])
    else Revealed(s[1..])
  }

  /** The filter keeps exactly the open tiles. */
  lemma {:induction false} RevealedIsFilter(s: seq<ScratchItem>)
    ensures forall x :: x in Revealed(s) <==> x in s && x.isRevealed
  {
    if s != [] {
      RevealedIsFilter(s[1..]);
      assert forall x :: x in s <==> x == s[0] || x in s[1..];
    }
  }

  /** The find at App.tsx:74: the first tile with this id, or None. */
  function FindItem(s: seq<ScratchItem>, id: int): (r: Option<ScratchItem>)
    ensures r.None? <==> forall k :: 0 <= k < |s| ==> s[k].id != id
    ensures r.Some? ==> exists k :: 0 <= k < |s| && s[k] == r.value && r.value.id == id &&
                                    forall j :: 0 <= j < k ==> s[j].id != id
  {
    if s == [] then None
    else if s[0].id == id then Some(s[0])
    else
      var r := FindItem(s[1..], id);
      assert forall k :: 0 < k < |s| ==> s[k] == s[1..][k - 1];
      r
  }

  /** Revealing a tile twice leaves the same list as revealing it once. */
  lemma MarkRevealedIdempotent(s: seq<ScratchItem>, id: int)
    ensures MarkRevealed(MarkRevealed(s, id), id) == MarkRevealed(s, id)
    ensures |Revealed(MarkRevealed(MarkRevealed(s, id), id))| == |Revealed(MarkRevealed(s, id))|
  {
  }

  /** MarkRevealed works tile by tile, so it commutes with dropping the first tile. */
  lemma MarkRevealedTail(s: seq<ScratchItem>, id: int)
    requires s != []
    ensures MarkRevealed(s, id)[1..] == MarkRevealed(s[1..], id)
  {
  }

  /** A reveal never un-counts a tile. */
  lemma {:induction false} RevealNeverUncounts(s: seq<ScratchItem>, id: int)
    ensures |Revealed(MarkRevealed(s, id))| >= |Revealed(s)|
  {
    if s != [] {
      MarkRevealedTail(s, id);
      RevealNeverUncounts(s[1..], id);
    }
  }

  /** When exactly one tile, at p, carries the id, a reveal adds one to the
      count if that tile was closed and nothing if it was already open. */
  lemma {:induction false} RevealCountsOnce(s: seq<ScratchItem>, id: int, p: nat)
    requires p < |s| && s[p].id == id
    requires forall k :: 0 <= k < |s| && s[k].id == id ==> k == p
    ensures |Revealed(MarkRevealed(s, id))| == |Revealed(s)| + (if s[p].isRevealed then 0 else 1)
  {
    MarkRevealedTail(s, id);
    if p == 0 {
      assert MarkRevealed(s[1..], id) == s[1..];
    } else {
      RevealCountsOnce(s[1..], id, p - 1);
    }
  }

  /** With ids equal to positions, the tile a reveal reports is the tile with
      that id, now open; an id outside the grid reports nothing. */
  lemma RevealReportsTile(s: seq<ScratchItem>, id: int)
    requires IdsAreIndices(s)
    ensures 0 <= id < |s| ==> FindItem(MarkRevealed(s, id), id) == Some(s[id].(isRevealed := true))
    ensures !(0 <= id < |s|) ==> FindItem(MarkRevealed(s, id), id) == None
  {
    var r := FindItem(MarkRevealed(s, id), id);
    if 0 <= id < |s| {
      assert MarkRevealed(s, id)[id].id == id;
      var k :| 0 <= k < |s| && MarkRevealed(s, id)[k] == r.value && r.value.id == id;
      assert k == id;
    }
  }

  // ------------------------------------------------------------------
  // The App component's state
  // ------------------------------------------------------------------

  /** True when another tile holds the scratch lock (App.tsx:87, and the
      isLocked prop at App.tsx:137). */
  predicate LockedOut(active: Option<int>, id: int) {
    active.Some? && active.value != id
  }

  class Game {
    var items: seq<ScratchItem>
    var revealedCount: int
    var gameWon: bool
    var activeCardId: Option<int>
    var lastRevealed: Option<ScratchItem>

    /** The controller's invariant: tile k has id k; a dealt grid holds the
        numbers 1..17 once each; the count is the number of open tiles; the
        game is won exactly when that count is 17; the popup tile is an open
        tile of the grid. */
    ghost predicate Valid()
      reads this
    {
      && IdsAreIndices(items)
      && (items == [] || multiset(Values(items)) == multiset(Numbers()))
      && revealedCount == |Revealed(items)|
      && (gameWon <==> revealedCount == GridSize)
      && (lastRevealed.Some? ==> lastRevealed.value in items && lastRevealed.value.isRevealed)
    }

    /** The initial useState values, before the mount effect deals a game. */
    constructor ()
      ensures Valid()
      ensures items == [] && revealedCount == 0 && !gameWon
      ensures activeCardId == None && lastRevealed == None
    {
      items := [];
      revealedCount := 0;
      gameWon := false;
      activeCardId := None;
      lastRevealed := None;
    }

    /** startNewGame: deal a shuffled 1..17 onto tiles 0..16, all closed, and
        reset the counters, the win flag, the lock and the popup, whatever
        the state before. */
    method StartNewGame(js: seq<nat>)
      requires OracleFits(js, GridSize)
      modifies this
      ensures Valid()
      ensures |items| == GridSize && IdsAreIndices(items)
      ensures Values(items) == FisherYates(Numbers(), js)
      ensures multiset(Values(items)) == multiset(Numbers())
      ensures forall k :: 0 <= k < |items| ==> !items[k].isRevealed
      ensures revealedCount == 0 && !gameWon
      ensures activeCardId == None && lastRevealed == None
    {
      var numbers := new int[GridSize](i => i + 1);
      assert numbers[..] == Numbers();
      var shuffled := ShuffleArray(numbers, js);
      var newItems := NewItems(shuffled[..]);
      NewItemsDealt(shuffled[..]);
      assert Revealed(newItems) == [] by {
        RevealedIsFilter(newItems);
        if Revealed(newItems) != [] {
          assert Revealed(newItems)[0] in Revealed(newItems);
        }
      }
      items := newItems;
      revealedCount := 0;
      gameWon := false;
      activeCardId := None;
      lastRevealed := None;
    }

    /** handleReveal: open the tile with this id, recount the open tiles,
        report the opened tile, set the win flag at 17 (never clear it) and
        release the scratch lock. */
    method HandleReveal(id: int)
      requires Valid()
      modifies this
      ensures Valid()
      ensures items == MarkRevealed(old(items), id)
      ensures revealedCount == |Revealed(items)| >= old(revealedCount)
      ensures lastRevealed == FindItem(items, id)
      ensures gameWon == (old(gameWon) || revealedCount == GridSize)
      ensures activeCardId == None
    {
      var newItems := MarkRevealed(items, id);
      var count := |Revealed(newItems)|;
      RevealNeverUncounts(items, id);
      if gameWon {
        PrizesEachOnce(Values(items));
      }
      revealedCount := count;
      lastRevealed := FindItem(newItems, id);
      if count == GridSize {
        gameWon := true;
      }
      assert Values(newItems) == Values(items);
      items := newItems;
      activeCardId := None;
    }

    /** handleStartScratch: a request from another tile while one holds the
        lock is ignored; otherwise the requester takes the lock and the popup
        is dismissed. */
    method HandleStartScratch(id: int)
      requires Valid()
      modifies this
      ensures Valid()
      ensures LockedOut(old(activeCardId), id) ==> unchanged(this)
      ensures !LockedOut(old(activeCardId), id) ==>
        && activeCardId == Some(id) && lastRevealed == None
        && items == old(items) && revealedCount == old(revealedCount) && gameWon == old(gameWon)
    {
      if LockedOut(activeCardId, id) {
        return;
      }
      activeCardId := Some(id);
      lastRevealed := None;
    }

    /** handleScratchEnd: deliberately does nothing, so ending a gesture keeps
        the lock; only a reveal or a new game releases it. */
    method HandleScratchEnd()
      ensures unchanged(this)
    {
    }
  }

  /** The scratch lock across a sequence of handler calls: tile a takes it,
      tile b is refused while a holds it, ending the gesture keeps it, a
      reveal releases it, and then b can take it. */
  method LockScenario(js: seq<nat>, a: int, b: int) returns (holders: seq<Option<int>>)
    requires OracleFits(js, GridSize) && a != b
    ensures holders == [Some(a), Some(a), Some(a), None, Some(b)]
  {
    var g := new Game();
    g.StartNewGame(js);
    g.HandleStartScratch(a);
    holders := [g.activeCardId];
    g.HandleStartScratch(b);
    holders := holders + [g.activeCardId];
    g.HandleScratchEnd();
    holders := holders + [g.activeCardId];
    g.HandleReveal(a);
    holders := holders + [g.activeCardId];
    g.HandleStartScratch(b);
    holders := holders + [g.activeCardId];
  }

  /** Exactly the tiles before position n are open. */
  predicate OpenBelow(s: seq<ScratchItem>, n: nat) {
    forall k :: 0 <= k < |s| ==> s[k].isRevealed == (k < n)
  }

  /** Revealing tile id when exactly the tiles below id are open opens
      exactly the tiles below id + 1, and the count goes up by one. */
  lemma RevealNextInOrder(s: seq<ScratchItem>, id: nat)
    requires IdsAreIndices(s) && id < |s| && OpenBelow(s, id)
    ensures OpenBelow(MarkRevealed(s, id), id + 1)
    ensures |Revealed(MarkRevealed(s, id))| == |Revealed(s)| + 1
  {
    RevealCountsOnce(s, id, id);
  }

  /** A whole game played in tile order: every reveal adds exactly one to the
      count, and the win flag is raised by the 17th reveal and by no earlier one. */
  method RevealAll(js: seq<nat>) returns (counts: seq<int>, wins: seq<bool>)
    requires OracleFits(js, GridSize)
    ensures |counts| == |wins| == GridSize
    ensures forall k :: 0 <= k < GridSize ==> counts[k] == k + 1
    ensures forall k :: 0 <= k < GridSize ==> (wins[k] <==> k == GridSize - 1)
  {
    var g := new Game();
    g.StartNewGame(js);
    counts, wins := RevealInOrder(g);
  }

  /** Reveal tiles 0, 1, ..., 16 of a freshly dealt game, recording the count
      and the win flag after each reveal. */
  method RevealInOrder(g: Game) returns (counts: seq<int>, wins: seq<bool>)
    requires g.Valid() && |g.items| == GridSize && OpenBelow(g.items, 0) && g.revealedCount == 0
    modifies g
    ensures |counts| == |wins| == GridSize
    ensures forall k :: 0 <= k < GridSize ==> counts[k] == k + 1
    ensures forall k :: 0 <= k < GridSize ==> (wins[k] <==> k == GridSize - 1)
  {
    counts, wins := [], [];
    var id := 0;
    while id < GridSize
      invariant 0 <= id <= GridSize
      invariant g.Valid() && |g.items| == GridSize && OpenBelow(g.items, id)
      invariant g.revealedCount == id
      invariant |counts| == |wins| == id
      invariant forall k :: 0 <= k < id ==> counts[k] == k + 1
      invariant forall k :: 0 <= k < id ==> (wins[k] <==> k == GridSize - 1)
    {
      RevealNextInOrder(g.items, id);
      g.HandleReveal(id);
      counts, wins := counts + [g.revealedCount], wins + [g.gameWon];
      id := id + 1;
    }
  }
}

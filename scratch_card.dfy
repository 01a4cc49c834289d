/** The scratch-reveal logic of one tile (components/ScratchCard.tsx): an
    RGBA pixel buffer covering the prize, an eraser that punches transparent
    disks into it, and a counter that reveals the tile once more than 40% of
    its pixels are transparent. Each event handler is one atomic transition. */
module Scratch {
  import opened Types

  /** One channel of an RGBA pixel, as in a canvas ImageData buffer. */
  newtype byte = x: int | 0 <= x < 256

  /** Radius of the eraser disk (ScratchCard.tsx:151). */
  const BrushRadius: int := 20
  /** An alpha below this counts as transparent (ScratchCard.tsx:99). */
  const AlphaCutoff: byte := 128
  /** More than this percentage of transparent pixels reveals the tile (ScratchCard.tsx:108). */
  const RevealPercent: int := 40
  /** Width and height when the parent passes none (ScratchCard.tsx:4). */
  const DefaultSize: nat := 200
  /** Width and height the grid gives every tile (App.tsx:138-139). */
  const TileSize: nat := 160

  /** #D42426, fully opaque. */
  const Red: seq<byte> := [0xD4, 0x24, 0x26, 0xFF]
  /** #165B33, fully opaque. */
  const Green: seq<byte> := [0x16, 0x5B, 0x33, 0xFF]

  /** The cover's base colour: red for an even prize, green for an odd one.
      The source tests `value % 2 === 0`; a truncating and a Euclidean
      remainder are zero for the same values, so the test carries over. */
  function CoverColour(value: int): (c: seq<byte>)
    ensures |c| == 4 && c[3] == 255
    ensures c == Red <==> value % 2 == 0
    ensures c == Green <==> value % 2 != 0
  {
    if value % 2 == 0 then Red else Green
  }

  // ------------------------------------------------------------------
  // Buffers
  // ------------------------------------------------------------------

  /** A buffer of `len` bytes painted with the cover of `value`. */
  function Covered(len: nat, value: int): seq<byte> {
    seq(len, i => CoverColour(value)[i % 4])
  }

  /** A buffer of `len` bytes that is transparent black everywhere (clearRect). */
  function Cleared(len: nat): seq<byte> {
    seq(len, _ => 0)
  }

  /** What the drawing effect leaves for `it`: the cover while the tile is
      closed, a cleared buffer once it is open (ScratchCard.tsx:72-82). */
  function PaintedFor(it: ScratchItem, len: nat): seq<byte> {
    if it.isRevealed then Cleared(len) else Covered(len, it.value)
  }

  /** The alpha byte of pixel k. */
  function Alpha(s: seq<byte>, k: nat): byte
    requires 4 * k + 3 < |s|
  {
    s[4 * k + 3]
  }

  /** Pixel k of a w-wide buffer lies in the eraser disk centred at (cx, cy),
      on an idealised integer grid without antialiasing. */
  predicate InBrush(k: int, w: nat, cx: int, cy: int) {
    w > 0 && k >= 0 &&
    (k % w - cx) * (k % w - cx) + (k / w - cy) * (k / w - cy) <= BrushRadius * BrushRadius
  }

  /** The buffer after a `destination-out` fill of the disk: every channel of
      a pixel inside the disk becomes 0, every other byte is kept. */
  function Erased(s: seq<byte>, w: nat, cx: int, cy: int): (r: seq<byte>)
    ensures |r| == |s|
    ensures forall i :: 0 <= i < |s| ==> r[i] <= s[i]
    ensures forall i :: 0 <= i < |s| && !InBrush(i / 4, w, cx, cy) ==> r[i] == s[i]
    ensures forall i :: 0 <= i < |s| && InBrush(i / 4, w, cx, cy) ==> r[i] == 0
  {
    seq(|s|, i requires 0 <= i < |s| => if InBrush(i / 4, w, cx, cy) then 0 else s[i])
  }

  /** The number of transparent pixels among the first n. */
  function TransparentCount(s: seq<byte>, n: nat): (r: nat)
    requires 4 * n <= |s|
    ensures r <= n
  {
    if n == 0 then 0
    else TransparentCount(s, n - 1) + (if Alpha(s, n - 1) < AlphaCutoff then 1 else 0)
  }

  /** The reveal test of ScratchCard.tsx:104-108, `transparent / (w*h) * 100 > 40`,
      in exact integer arithmetic. On a canvas with no pixels the source never
      reaches the test (reading the pixels throws); here the test is false. */
  predicate Reveals(transparent: int, w: nat, h: nat) {
    100 * transparent > RevealPercent * (w * h)
  }

  // ------------------------------------------------------------------
  // Properties of the buffers and the threshold
  // ------------------------------------------------------------------

  /** The count is the size of the set of transparent pixel indices. */
  lemma {:induction false} TransparentCountIsCardinality(s: seq<byte>, n: nat)
    requires 4 * n <= |s|
    ensures TransparentCount(s, n) == |set k | 0 <= k < n && Alpha(s, k) < AlphaCutoff|
  {
    if n > 0 {
      TransparentCountIsCardinality(s, n - 1);
      var before := set k | 0 <= k < n - 1 && Alpha(s, k) < AlphaCutoff;
      var after := set k | 0 <= k < n && Alpha(s, k) < AlphaCutoff;
      if Alpha(s, n - 1) < AlphaCutoff {
        assert after == before + {n - 1};
      } else {
        assert after == before;
      }
    }
  }

  /** Erasing never makes a transparent pixel opaque again, so the count
      never decreases while scratching. */
  lemma {:induction false} ErasingNeverLowersCount(s: seq<byte>, w: nat, cx: int, cy: int, n: nat)
    requires 4 * n <= |s|
    ensures TransparentCount(Erased(s, w, cx, cy), n) >= TransparentCount(s, n)
  {
    if n > 0 {
      ErasingNeverLowersCount(s, w, cx, cy, n - 1);
    }
  }

  /** In a cleared buffer every pixel is transparent. */
  lemma {:induction false} ClearedIsTransparent(len: nat, n: nat)
    requires 4 * n <= len
    ensures TransparentCount(Cleared(len), n) == n
  {
    if n > 0 {
      ClearedIsTransparent(len, n - 1);
    }
  }

  /** A freshly drawn cover has no transparent pixel. */
  lemma {:induction false} CoverIsOpaque(len: nat, value: int, n: nat)
    requires 4 * n <= len
    ensures TransparentCount(Covered(len, value), n) == 0
  {
    if n > 0 {
      CoverIsOpaque(len, value, n - 1);
      assert Alpha(Covered(len, value), n - 1) == CoverColour(value)[3];
    }
  }

  /** Exactly 40% transparent does not reveal; one pixel more does. */
  lemma FortyPercentIsNotEnough(w: nat, h: nat)
    requires (w * h) % 5 == 0 && w * h > 0
    ensures !Reveals(2 * ((w * h) / 5), w, h)
    ensures Reveals(2 * ((w * h) / 5) + 1, w, h)
  {
  }

  /** On the 160×160 tile of the grid a reveal needs more than 10240 of the
      25600 pixels to be transparent. */
  lemma TileThreshold(transparent: int)
    ensures Reveals(transparent, TileSize, TileSize) <==> transparent > 10240
  {
  }

  /** Once the buffer has been cleared the test passes again: nothing in the
      counter itself stops a second reveal. */
  lemma ClearedBufferRevealsAgain(w: nat, h: nat)
    requires w * h > 0
    ensures Reveals(TransparentCount(Cleared(4 * (w * h)), w * h), w, h)
  {
    ClearedIsTransparent(4 * (w * h), w * h);
  }

  // ------------------------------------------------------------------
  // The ScratchCard component
  // ------------------------------------------------------------------

  class ScratchCard {
    const width: nat
    const height: nat
    /** The canvas bitmap: 4 bytes (R, G, B, A) per pixel, row by row. */
    const pixels: array<byte>
    /** The tile this card shows, as last passed by the parent. */
    var item: ScratchItem
    var isScratching: bool
    var isFullyRevealed: bool
    /** The ids passed to the parent's onReveal callback, in call order. */
    var revealCalls: seq<int>

    ghost predicate Valid()
      reads this
    {
      pixels.Length == 4 * (width * height)
    }

    /** Mounting: the local flag starts as the item's, and the drawing effect
        paints the cover (or clears the canvas for an open tile). */
    constructor (item: ScratchItem, width: nat := DefaultSize, height: nat := DefaultSize)
      ensures Valid() && fresh(pixels)
      ensures this.item == item && this.width == width && this.height == height
      ensures !isScratching && isFullyRevealed == item.isRevealed && revealCalls == []
      ensures pixels[..] == PaintedFor(item, pixels.Length)
    {
      this.width := width;
      this.height := height;
      this.item := item;
      pixels := new byte[4 * (width * height)];
      isScratching := false;
      isFullyRevealed := item.isRevealed;
      revealCalls := [];
      new;
      Paint();
    }

    /** The base fill of drawGiftCover: every pixel gets the parity colour. */
    method DrawGiftCover()
      modifies pixels
      ensures pixels[..] == Covered(pixels.Length, item.value)
    {
      var colour := CoverColour(item.value);
      forall i | 0 <= i < pixels.Length {
        pixels[i] := colour[i % 4];
      }
    }

    /** clearRect over the whole canvas. */
    method ClearRect()
      modifies pixels
      ensures pixels[..] == Cleared(pixels.Length)
    {
      forall i | 0 <= i < pixels.Length {
        pixels[i] := 0;
      }
    }

    /** The drawing effect (ScratchCard.tsx:66-83): resizing the canvas wipes
        it, then the cover is drawn; an open tile is cleared instead. */
    method Paint()
      modifies pixels
      ensures pixels[..] == PaintedFor(item, pixels.Length)
    {
      if !item.isRevealed {
        ClearRect();
        DrawGiftCover();
      } else {
        ClearRect();
      }
    }

    /** The counting loop of checkRevealStatus: the alpha bytes 3, 7, 11, ...
        that are below 128. */
    method CountTransparent() returns (count: nat)
      requires Valid()
      ensures count == TransparentCount(pixels[..], width * height)
      ensures count <= width * height
    {
      ghost var n := width * height;
      count := 0;
      var i := 3;
      ghost var k := 0;
      while i < pixels.Length
        invariant 0 <= k <= n && i == 4 * k + 3
        invariant count == TransparentCount(pixels[..], k)
      {
        if pixels[i] < AlphaCutoff {
          count := count + 1;
        }
        i := i + 4;
        k := k + 1;
      }
    }

    /** reveal: set the local flag, call onReveal(item.id), clear the canvas. */
    method Reveal()
      modifies this, pixels
      ensures isFullyRevealed && revealCalls == old(revealCalls) + [item.id]
      ensures pixels[..] == Cleared(pixels.Length)
      ensures item == old(item) && isScratching == old(isScratching)
    {
      isFullyRevealed := true;
      revealCalls := revealCalls + [item.id];
      ClearRect();
    }

    /** checkRevealStatus: reveal when more than 40% of the pixels are
        transparent. It does not look at isFullyRevealed. */
    method CheckRevealStatus()
      requires Valid()
      modifies this, pixels
      ensures var fires := Reveals(TransparentCount(old(pixels[..]), width * height), width, height);
        && (fires ==> isFullyRevealed && revealCalls == old(revealCalls) + [item.id]
                      && pixels[..] == Cleared(pixels.Length))
        && (!fires ==> isFullyRevealed == old(isFullyRevealed) && revealCalls == old(revealCalls)
                       && pixels[..] == old(pixels[..]))
      ensures item == old(item) && isScratching == old(isScratching)
    {
      var transparent := CountTransparent();
      if Reveals(transparent, width, height) {
        Reveal();
      }
    }

    /** The eraser stroke: a `destination-out` disk of radius 20 at the
        canvas-local point (x, y). */
    method EraseDisk(x: int, y: int)
      modifies pixels
      ensures pixels[..] == Erased(old(pixels[..]), width, x, y)
    {
      forall i | 0 <= i < pixels.Length && InBrush(i / 4, width, x, y) {
        pixels[i] := 0;
      }
    }

    /** handleMouseMove (mouse and touch): nothing unless a gesture is under
        way on a card that is not yet revealed; otherwise erase a disk and,
        when the sampling draw `sample` comes up (Math.random() < 0.1 in the
        source), check the reveal status. */
    method PointerMove(x: int, y: int, sample: bool)
      requires Valid()
      modifies this, pixels
      ensures !old(isScratching) || old(isFullyRevealed) ==> unchanged(this) && unchanged(pixels)
      ensures old(isScratching) && !old(isFullyRevealed) ==>
        var erased := Erased(old(pixels[..]), width, x, y);
        var fires := sample && Reveals(TransparentCount(erased, width * height), width, height);
        && (fires ==> isFullyRevealed && revealCalls == old(revealCalls) + [item.id]
                      && pixels[..] == Cleared(pixels.Length))
        && (!fires ==> !isFullyRevealed && revealCalls == old(revealCalls) && pixels[..] == erased)
      ensures item == old(item) && isScratching == old(isScratching)
    {
      if !isScratching || isFullyRevealed {
        return;
      }
      EraseDisk(x, y);
      if sample {
        CheckRevealStatus();
      }
    }

    /** onMouseDown and onTouchStart: a gesture starts. */
    method PointerDown()
      modifies this
      ensures isScratching
      ensures item == old(item) && isFullyRevealed == old(isFullyRevealed)
      ensures revealCalls == old(revealCalls)
    {
      isScratching := true;
    }

    /** onMouseUp and onTouchEnd: the gesture ends and the reveal status is
        checked without sampling. */
    method PointerUp()
      requires Valid()
      modifies this, pixels
      ensures !isScratching
      ensures var fires := Reveals(TransparentCount(old(pixels[..]), width * height), width, height);
        && (fires ==> isFullyRevealed && revealCalls == old(revealCalls) + [item.id]
                      && pixels[..] == Cleared(pixels.Length))
        && (!fires ==> isFullyRevealed == old(isFullyRevealed) && revealCalls == old(revealCalls)
                       && pixels[..] == old(pixels[..]))
      ensures item == old(item)
    {
      isScratching := false;
      CheckRevealStatus();
    }

    /** onMouseLeave: the gesture ends without a check. */
    method MouseLeave()
      modifies this
      ensures !isScratching
      ensures item == old(item) && isFullyRevealed == old(isFullyRevealed)
      ensures revealCalls == old(revealCalls)
    {
      isScratching := false;
    }

    /** A re-render with a new item prop (same id, as the grid keys cards by
        id). When isRevealed changed, the sync effect copies it into the local
        flag; when isRevealed or the value changed, the drawing effect runs. */
    method Rerender(newItem: ScratchItem)
      requires Valid() && newItem.id == item.id
      modifies this, pixels
      ensures item == newItem
      ensures isFullyRevealed ==
        if newItem.isRevealed != old(item.isRevealed) then newItem.isRevealed else old(isFullyRevealed)
      ensures newItem.isRevealed != old(item.isRevealed) || newItem.value != old(item.value) ==>
        pixels[..] == PaintedFor(newItem, pixels.Length)
      ensures newItem.isRevealed == old(item.isRevealed) && newItem.value == old(item.value) ==>
        pixels[..] == old(pixels[..])
      ensures isScratching == old(isScratching) && revealCalls == old(revealCalls)
    {
      var revealedChanged := newItem.isRevealed != item.isRevealed;
      var valueChanged := newItem.value != item.value;
      item := newItem;
      if revealedChanged && item.isRevealed != isFullyRevealed {
        isFullyRevealed := item.isRevealed;
      }
      if revealedChanged || valueChanged {
        Paint();
      }
    }
  }

  /** Without the stylesheet's pointer-events guard, a card fires onReveal a
      second time: scratch a 1×1 card open, release, release again. */
  method SecondRevealFires(id: int, value: int) returns (calls: seq<int>)
    ensures calls == [id, id]
  {
    var card := new ScratchCard(ScratchItem(id, value, false), 1, 1);
    card.PointerDown();
    card.PointerMove(0, 0, false);
    assert InBrush(0, 1, 0, 0);
    assert TransparentCount(card.pixels[..], 1) == 1;
    card.PointerUp();
    ClearedBufferRevealsAgain(1, 1);
    card.PointerUp();
    calls := card.revealCalls;
  }
}

/** The software UI (src/natives/ui.rs): one optional window whose pixels
    live in a flat `width * height` framebuffer, row after row. Drawing
    writes into that framebuffer in place; presenting it and reading the
    keyboard are calls into the windowing library, whose answers are
    parameters here. */
module Ui {
  import opened Machine
  import opened Keys
  import opened Font

  /** The colour a new window's framebuffer starts out with. */
  const InitialColor: u32 := 0x222222

  /** Glyphs are 5 pixels wide and 7 high; each character advances the
      pen by 6, leaving one blank column. */
  const GlyphWidth: nat := 5
  const GlyphHeight: nat := 7
  const Advance: nat := 6

  // ----- pixel geometry -----

  lemma IndexBound(px: nat, py: nat, width: nat, height: nat)
    requires px < width && py < height
    ensures py * width + px < width * height
  {
    assert py * width <= (height - 1) * width by {
      assert py <= height - 1;
    }
  }

  /** The framebuffer position of pixel (`px`, `py`). */
  function Index(px: nat, py: nat, width: nat, height: nat): (i: nat)
    requires px < width && py < height
    ensures i < width * height
  {
    IndexBound(px, py, width, height);
    py * width + px
  }

  /** A later row starts at least a whole row further on. */
  lemma RowsApart(a: nat, b: nat, width: nat)
    ensures a < b ==> a * width + width <= b * width
  {
    if a < b {
      var d := b - a - 1;
      assert b == a + 1 + d;
      assert (a + 1 + d) * width == a * width + width + d * width;
      assert d * width >= 0;
    }
  }

  /** Distinct pixels have distinct positions. */
  lemma IndexInjective(px: nat, py: nat, qx: nat, qy: nat, width: nat, height: nat)
    requires px < width && py < height && qx < width && qy < height
    requires Index(px, py, width, height) == Index(qx, qy, width, height)
    ensures px == qx && py == qy
  {
    RowsApart(py, qy, width);
    RowsApart(qy, py, width);
  }

  /** Pixel (`px`, `py`) lies in the `w` by `h` rectangle at (`x`, `y`). */
  predicate InRect(px: nat, py: nat, x: nat, y: nat, w: nat, h: nat) {
    x <= px < x + w && y <= py < y + h
  }

  /** Pixel (`px`, `py`) is lit by glyph `g` drawn with its top left
      corner at (`cx`, `cy`). */
  predicate GlyphAt(g: Glyph, cx: nat, cy: nat, px: nat, py: nat)
    requires |g| == GlyphHeight
  {
    cx <= px < cx + GlyphWidth && cy <= py < cy + GlyphHeight && Lit(g[py - cy], px - cx)
  }

  /** Pixel (`px`, `py`) is lit by one of the first `k` characters of
      `text` drawn at (`x`, `y`): the pixel's column picks the character,
      `(px - x) / 6`, and its column within the glyph, `(px - x) % 6`,
      which is blank spacing when it is 5. */
  predicate TextAt(text: string, k: nat, x: nat, y: nat, px: nat, py: nat)
    requires k <= |text|
  {
    && x <= px && y <= py < y + GlyphHeight
    && (px - x) / Advance < k
    && (px - x) % Advance < GlyphWidth
    && Lit(GetGlyph(text[(px - x) / Advance])[py - y], (px - x) % Advance)
  }

  /** Drawing character `k` adds exactly its glyph, six columns on from
      the one before, to what the first `k` characters light. */
  lemma {:induction false} TextStep(text: string, k: nat, x: nat, y: nat, px: nat, py: nat)
    requires k < |text|
    ensures TextAt(text, k + 1, x, y, px, py) <==>
      TextAt(text, k, x, y, px, py) || GlyphAt(GetGlyph(text[k]), x + Advance * k, y, px, py)
  {
    if x <= px {
      var d := px - x;
      if x + Advance * k <= px < x + Advance * k + Advance {
        assert d / Advance == k && d % Advance == d - Advance * k;
      } else if px < x + Advance * k {
        assert d / Advance < k;
      } else {
        assert d / Advance > k;
      }
    }
  }

  /** The whole of `text` lights no pixel left of or above its origin,
      nor below its seventh row. */
  lemma TextStaysInBand(text: string, x: nat, y: nat, px: nat, py: nat)
    requires TextAt(text, |text|, x, y, px, py)
    ensures x <= px < x + Advance * |text| && y <= py < y + GlyphHeight
  {
    var d := px - x;
    assert d / Advance < |text|;
    assert d < Advance * |text|;
  }

  // ----- the framebuffer -----

  class Framebuffer {
    const width: nat
    const height: nat
    const pixels: array<u32>

    ghost predicate Valid()
      reads this
    {
      pixels.Length == width * height
    }

    /** The colour of pixel (`px`, `py`). */
    ghost function At(px: nat, py: nat): u32
      reads this, pixels
      requires Valid() && px < width && py < height
    {
      pixels[Index(px, py, width, height)]
    }

    constructor (w: nat, h: nat, fill: u32)
      ensures Valid() && width == w && height == h && fresh(pixels)
      ensures forall i :: 0 <= i < pixels.Length ==> pixels[i] == fill
    {
      width, height := w, h;
      pixels := new u32[w * h](_ => fill);
    }

    /** Positions of pixels other than (`px`, `py`) differ from its own. */
    lemma OthersElsewhere(px: nat, py: nat)
      requires Valid() && px < width && py < height
      ensures forall qx: nat, qy: nat :: qx < width && qy < height && (qx != px || qy != py) ==>
        Index(qx, qy, width, height) != Index(px, py, width, height)
    {
      forall qx: nat, qy: nat | qx < width && qy < height && (qx != px || qy != py)
        ensures Index(qx, qy, width, height) != Index(px, py, width, height)
      {
        if Index(qx, qy, width, height) == Index(px, py, width, height) {
          IndexInjective(qx, qy, px, py, width, height);
        }
      }
    }

    /** Sets pixel (`px`, `py`) to `c` when it lies on the framebuffer. */
    method Plot(px: nat, py: nat, c: u32)
      requires Valid()
      modifies pixels
      ensures forall qx: nat, qy: nat :: qx < width && qy < height ==>
        At(qx, qy) == (if qx == px && qy == py then c else old(At(qx, qy)))
    {
      if px < width && py < height {
        OthersElsewhere(px, py);
        pixels[Index(px, py, width, height)] := c;
      }
    }

    /** Every pixel becomes `c`. */
    method Clear(c: u32)
      requires Valid()
      modifies pixels
      ensures forall i :: 0 <= i < pixels.Length ==> pixels[i] == c
    {
      for i := 0 to pixels.Length
        invariant forall j :: 0 <= j < i ==> pixels[j] == c
      {
        pixels[i] := c;
      }
    }

    /** The pixels of the `w` by `h` rectangle at (`x`, `y`) that lie on
        the framebuffer become `c`; all others keep their colour. */
    method FillRect(x: nat, y: nat, w: nat, h: nat, c: u32)
      requires Valid()
      modifies pixels
      ensures forall px: nat, py: nat :: px < width && py < height ==>
        At(px, py) == (if InRect(px, py, x, y, w, h) then c else old(At(px, py)))
    {
      for dy := 0 to h
        invariant forall px: nat, py: nat :: px < width && py < height ==>
          At(px, py) == (if InRect(px, py, x, y, w, dy) then c else old(At(px, py)))
      {
        for dx := 0 to w
          invariant forall px: nat, py: nat :: px < width && py < height ==>
            At(px, py) == (if InRect(px, py, x, y, w, dy) || InRect(px, py, x, y + dy, dx, 1) then c
                           else old(At(px, py)))
        {
          Plot(x + dx, y + dy, c);
        }
      }
    }

    /** The lit pixels of glyph `g`, with its top left corner at
        (`cx`, `cy`), that lie on the framebuffer become `c`; all others
        keep their colour. */
    method DrawGlyph(g: Glyph, cx: nat, cy: nat, c: u32)
      requires Valid() && |g| == GlyphHeight
      modifies pixels
      ensures forall px: nat, py: nat :: px < width && py < height ==>
        At(px, py) == (if GlyphAt(g, cx, cy, px, py) then c else old(At(px, py)))
    {
      for row := 0 to GlyphHeight
        invariant forall px: nat, py: nat :: px < width && py < height ==>
          At(px, py) == (if GlyphAt(g, cx, cy, px, py) && py < cy + row then c else old(At(px, py)))
      {
        for col := 0 to GlyphWidth
          invariant forall px: nat, py: nat :: px < width && py < height ==>
            At(px, py) == (if GlyphAt(g, cx, cy, px, py) && (py < cy + row || (py == cy + row && px < cx + col))
                           then c else old(At(px, py)))
        {
          if Lit(g[row], col) {
            Plot(cx + col, cy + row, c);
          }
        }
      }
    }

    /** The pixels `text` lights, drawn from (`x`, `y`), that lie on the
        framebuffer become `c`; all others keep their colour. */
    method DrawText(x: nat, y: nat, text: string, c: u32)
      requires Valid()
      modifies pixels
      ensures forall px: nat, py: nat :: px < width && py < height ==>
        At(px, py) == (if TextAt(text, |text|, x, y, px, py) then c else old(At(px, py)))
    {
      var cx := x;
      for k := 0 to |text|
        invariant cx == x + Advance * k
        invariant forall px: nat, py: nat :: px < width && py < height ==>
          At(px, py) == (if TextAt(text, k, x, y, px, py) then c else old(At(px, py)))
      {
        DrawGlyph(GetGlyph(text[k]), cx, y, c);
        forall px: nat, py: nat | px < width && py < height
          ensures At(px, py) == (if TextAt(text, k + 1, x, y, px, py) then c else old(At(px, py)))
        {
          TextStep(text, k, x, y, px, py);
        }
        cx := cx + Advance;
      }
    }
  }

  // ----- the UI state -----

  /** The window state, absent until a window has been opened. Every
      operation on an absent window does nothing, and every query on it
      answers false or the empty string. */
  class Ui {
    var state: Framebuffer?

    ghost predicate Valid()
      reads this, state
    {
      state != null ==> state.Valid()
    }

    /** What drawing may change: the framebuffer, if there is one. */
    ghost function Frame(): set<object>
      reads this
    {
      if state == null then {} else {state.pixels}
    }

    constructor ()
      ensures Valid() && state == null
    {
      state := null;
    }

    /** Opens a `width` by `height` window (`windowOk` says whether the
        windowing library managed it) with a framebuffer of the initial
        colour. A failure leaves any earlier window in place. */
    method InitWindow(width: i64, height: i64, windowOk: bool) returns (ok: bool)
      requires Valid()
      modifies this
      ensures Valid()
      ensures ok == windowOk
      ensures ok ==> state != null && fresh(state) && fresh(state.pixels)
      ensures ok ==> state.width == AsUsize(width) && state.height == AsUsize(height)
      ensures ok ==> forall i :: 0 <= i < state.pixels.Length ==> state.pixels[i] == InitialColor
      ensures !ok ==> state == old(state)
    {
      var w := AsUsize(width);
      var h := AsUsize(height);
      if windowOk {
        state := new Framebuffer(w, h, InitialColor);
        ok := true;
      } else {
        ok := false;
      }
    }

    /** Paints the whole framebuffer in `color`, cut to `u32`. */
    method Clear(color: i64)
      requires Valid()
      modifies Frame()
      ensures state != null ==> forall i :: 0 <= i < state.pixels.Length ==> state.pixels[i] == AsU32(color)
    {
      if state != null {
        state.Clear(AsU32(color));
      }
    }

    /** Fills the `w` by `h` rectangle at (`x`, `y`), clipped to the
        framebuffer. */
    method DrawRect(x: i64, y: i64, w: i64, h: i64, color: i64)
      requires Valid()
      modifies Frame()
      ensures state != null ==> forall px: nat, py: nat :: px < state.width && py < state.height ==>
        state.At(px, py) == (if InRect(px, py, AsUsize(x), AsUsize(y), AsUsize(w), AsUsize(h)) then AsU32(color)
                             else old(state.At(px, py)))
    {
      if state != null {
        state.FillRect(AsUsize(x), AsUsize(y), AsUsize(w), AsUsize(h), AsU32(color));
      }
    }

    /** Draws `text` in the 5x7 font from (`x`, `y`), clipped to the
        framebuffer. */
    method DrawText(x: i64, y: i64, text: string, color: i64)
      requires Valid()
      modifies Frame()
      ensures state != null ==> forall px: nat, py: nat :: px < state.width && py < state.height ==>
        state.At(px, py) == (if TextAt(text, |text|, AsUsize(x), AsUsize(y), px, py) then AsU32(color)
                             else old(state.At(px, py)))
    {
      if state != null {
        state.DrawText(AsUsize(x), AsUsize(y), text, AsU32(color));
      }
    }

    /** Shows the framebuffer; true while the window stays usable
        (`presented`: the library took the frame and the window is still
        open; `escapeDown`: the Escape key is held). */
    method Present(presented: bool, escapeDown: bool) returns (open: bool)
      ensures open <==> state != null && presented && !escapeDown
    {
      open := state != null && presented && !escapeDown;
    }

    /** Whether the key called `name` is held (`down`: the keys the
        library reports held). An unknown name is never held. */
    method IsKeyDown(name: string, down: set<Key>) returns (held: bool)
      ensures held <==> state != null && NameToKey(name).Some? && NameToKey(name).value in down
    {
      if state == null {
        return false;
      }
      var key := NameToKey(name);
      held := key.Some? && key.value in down;
    }

    /** The name of the first key pressed since the last frame (`pressed`,
        in the library's order), or the empty string. */
    method GetKeyPressed(pressed: seq<Key>) returns (name: string)
      ensures state == null || pressed == [] ==> name == ""
      ensures state != null && pressed != [] ==> name == KeyToName(pressed[0])
      ensures name == "" || name in KeyNames
    {
      if state == null || pressed == [] {
        return "";
      }
      name := KeyToName(pressed[0]);
    }
  }
}

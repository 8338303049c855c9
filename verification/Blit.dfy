/** Copying boxes of the shared picture into a texture: row by row into a locked Direct3D texture,
    or packed into a buffer first for OpenGL. */
module Blitting {
  import opened Bytes
  import Rects

  /** A picture of width by height texels of 4 bytes each, whose rows start pitch bytes apart. */
  datatype Layout = Layout(width: nat, height: nat, pitch: nat) {
    predicate Fits(size: nat) {
      4 * width <= pitch && height * pitch <= size
    }
  }

  /** The byte offset of texel (x, y). */
  function At(pitch: nat, x: nat, y: nat): nat { y * pitch + 4 * x }

  function Tight(width: nat, height: nat): Layout { Layout(width, height, 4 * width) }

  lemma RowsApart(pitch: nat, y: nat, y': nat)
    requires y < y'
    ensures At(pitch, 0, y) + pitch <= At(pitch, 0, y')
  {
    var gap := y' - y;
    assert y' * pitch == y * pitch + gap * pitch;
    assert gap * pitch == pitch + (gap - 1) * pitch;
  }

  lemma SameRow(pitch: nat, x: nat, y: nat)
    ensures At(pitch, x, y) == At(pitch, 0, y) + 4 * x
  {
  }

  lemma RowsFit(g: Layout, size: nat)
    requires g.Fits(size)
    ensures 4 * g.width <= g.pitch
  {
  }

  lemma AtFits(g: Layout, size: nat, x: nat, y: nat, w: nat)
    requires g.Fits(size) && x + w <= g.width && y < g.height
    ensures At(g.pitch, x, y) + 4 * w <= size
  {
    RowsApart(g.pitch, y, g.height);
    SameRow(g.pitch, x, y);
  }

  /** A byte of texel (px, py) lies in the w texels from (x, y) on exactly when the texel does. */
  lemma InRowIff(pitch: nat, width: nat, px: nat, py: nat, x: nat, y: nat, w: nat)
    requires 4 * width <= pitch && px < width && x + w <= width
    ensures var (row, p) := (At(pitch, x, y), At(pitch, px, py));
            if py == y && x <= px < x + w then row <= p == row + 4 * (px - x) && p + 4 <= row + 4 * w
            else p + 4 <= row || row + 4 * w <= p
  {
    hide At;
    SameRow(pitch, px, py);
    SameRow(pitch, x, y);
    if py < y {
      RowsApart(pitch, py, y);
    } else if py > y {
      RowsApart(pitch, y, py);
    }
  }

  /** Four bytes of a picture into which n bytes of the view have been copied, inside or outside those. */
  lemma SplicedQuad(cur: seq<byte>, at: nat, view: seq<byte>, start: nat, n: nat, p: nat)
    requires at + n <= |cur| && p + 4 <= |cur| && start + n <= |view|
    ensures at <= p && p + 4 <= at + n ==>
      Splice(cur, at, view[start..start + n])[p..p + 4] == view[start + p - at..start + p - at + 4]
    ensures p + 4 <= at || at + n <= p ==> Splice(cur, at, view[start..start + n])[p..p + 4] == cur[p..p + 4]
  {
    hide Splice;
    var next := Splice(cur, at, view[start..start + n]);
    if at <= p && p + 4 <= at + n {
      assert forall k :: p <= k < p + 4 ==> next[k] == view[start + (k - at)];
    } else if p + 4 <= at || at + n <= p {
      assert forall k :: p <= k < p + 4 ==> next[k] == cur[k];
    }
  }

  /** The texel of a picture laid out as g. */
  function Texel(bytes: seq<byte>, g: Layout, x: nat, y: nat): seq<byte>
    requires g.Fits(|bytes|) && x < g.width && y < g.height
  {
    AtFits(g, |bytes|, x, y, 1);
    var p := At(g.pitch, x, y);
    bytes[p..p + 4]
  }

  ghost predicate Covered(boxes: seq<Rects.Rect>, x: nat, y: nat) {
    exists b :: b in boxes && b.Has(x, y)
  }

  /** The step from old bytes to new bytes copies exactly the texels of the boxes from the view. */
  ghost predicate Blitted(was: seq<byte>, now: seq<byte>, g: Layout, view: seq<byte>, boxes: seq<Rects.Rect>) {
    g.Fits(|was|) && |was| == |now| && Tight(g.width, g.height).Fits(|view|) &&
    forall x: nat, y: nat :: x < g.width && y < g.height ==>
      Texel(now, g, x, y) ==
      if Covered(boxes, x, y) then Texel(view, Tight(g.width, g.height), x, y) else Texel(was, g, x, y)
  }

  /** The source offset as the code computes it, in 32-bit arithmetic. */
  function SourceOffset(x: uint32, y: uint32, row: uint32, width: uint32): uint32 {
    Mul32(4, Add32(Mul32(Add32(y, row), width), x))
  }

  /** Every byte of the picture has a 32-bit offset. */
  predicate Addressable(width: nat, height: nat) { 4 * (height * width) < TWO32 }

  lemma SourceOffsetExact(x: uint32, y: uint32, row: uint32, width: uint32, height: uint32)
    requires x < width && y + row < height && Addressable(width, height)
    ensures SourceOffset(x, y, row, width) == At(4 * width, x, y + row)
  {
    var line := y + row;
    var n := line * width;
    assert At(4 * width, x, line) == 4 * (n + x) && height * (4 * width) == 4 * (height * width) by {
      assert line * (4 * width) == 4 * n;
    }
    AtFits(Tight(width, height), 4 * (height * width), x, line, 1);
    hide At;
    assert Add32(y, row) == line && Mul32(line, width) == Wrap(n);
    OffsetWraps(n, x);
  }

  lemma OffsetWraps(n: nat, x: nat)
    requires 4 * (n + x) < TWO32
    ensures Mul32(4, Add32(Wrap(n), x)) == 4 * (n + x)
  {
  }

  /** memcpy: where nothing is copied, the source address does not matter. */
  method CopyBytes(dst: array<byte>, at: nat, src: array<byte>, start: nat, n: nat)
    requires dst != src && at + n <= dst.Length && (n > 0 ==> start + n <= src.Length)
    modifies dst
    ensures dst[..] == if n > 0 then Splice(old(dst[..]), at, src[start..start + n]) else old(dst[..])
  {
    for i := 0 to n
      invariant forall j :: 0 <= j < dst.Length ==>
        dst[j] == if at <= j < at + i then src[start + (j - at)] else old(dst[..])[j]
    {
      dst[at + i] := src[start + i];
    }
  }

  function Part(x: nat, y: nat, w: nat, h: nat): Rects.Rect { Rects.Rect(x, y, x + w, y + h) }

  /** The texture after the texels (x, y) to (x + w - 1, y) have been copied from the view. */
  function RowCopied(cur: seq<byte>, g: Layout, view: seq<byte>, x: nat, y: nat, w: nat): (next: seq<byte>)
    requires g.Fits(|cur|) && Tight(g.width, g.height).Fits(|view|) && x + w <= g.width && y < g.height
    ensures |next| == |cur|
  {
    AtFits(g, |cur|, x, y, w);
    AtFits(Tight(g.width, g.height), |view|, x, y, w);
    var start := At(4 * g.width, x, y);
    Splice(cur, At(g.pitch, x, y), view[start..start + 4 * w])
  }

  /** A row of texels is copied from a picture laid out as v to one laid out as g: what each texel of
      the result is. */
  lemma TexelAfterCopy(cur: seq<byte>, g: Layout, x: nat, y: nat, view: seq<byte>, v: Layout, vx: nat, vy: nat,
                       w: nat, px: nat, py: nat)
    requires g.Fits(|cur|) && x + w <= g.width && y < g.height && px < g.width && py < g.height
    requires v.Fits(|view|) && vx + w <= v.width && vy < v.height
    requires At(g.pitch, x, y) + 4 * w <= |cur| && At(v.pitch, vx, vy) + 4 * w <= |view|
    ensures var start := At(v.pitch, vx, vy);
            Texel(Splice(cur, At(g.pitch, x, y), view[start..start + 4 * w]), g, px, py) ==
            if py == y && x <= px < x + w then Texel(view, v, vx + (px - x), vy) else Texel(cur, g, px, py)
  {
    hide At, Layout.Fits, Splice;
    RowsFit(g, |cur|);
    AtFits(g, |cur|, px, py, 1);
    SplicedQuad(cur, At(g.pitch, x, y), view, At(v.pitch, vx, vy), 4 * w, At(g.pitch, px, py));
    InRowIff(g.pitch, g.width, px, py, x, y, w);
    if py == y && x <= px < x + w {
      AtFits(v, |view|, vx + (px - x), vy, 1);
      SameRow(v.pitch, vx, vy);
      SameRow(v.pitch, vx + (px - x), vy);
    }
  }

  lemma TexelAfterRow(cur: seq<byte>, g: Layout, view: seq<byte>, x: nat, y: nat, w: nat, px: nat, py: nat)
    requires g.Fits(|cur|) && Tight(g.width, g.height).Fits(|view|) && x + w <= g.width && y < g.height
    requires px < g.width && py < g.height
    ensures Texel(RowCopied(cur, g, view, x, y, w), g, px, py) ==
            if py == y && x <= px < x + w then Texel(view, Tight(g.width, g.height), px, py) else Texel(cur, g, px, py)
  {
    hide At, Layout.Fits, Splice, Texel;
    AtFits(g, |cur|, x, y, w);
    AtFits(Tight(g.width, g.height), |view|, x, y, w);
    TexelAfterCopy(cur, g, x, y, view, Tight(g.width, g.height), x, y, w, px, py);
  }

  /** Copying one more row extends the box copied so far by that row. */
  lemma RowExtends(was: seq<byte>, cur: seq<byte>, g: Layout, view: seq<byte>, x: nat, y: nat, w: nat, r: nat)
    requires Blitted(was, cur, g, view, [Part(x, y, w, r)])
    requires x + w <= g.width && y + r < g.height
    ensures Blitted(was, RowCopied(cur, g, view, x, y + r, w), g, view, [Part(x, y, w, r + 1)])
  {
    hide At, Layout.Fits, Texel, RowCopied;
    var next := RowCopied(cur, g, view, x, y + r, w);
    var before, after := [Part(x, y, w, r)], [Part(x, y, w, r + 1)];
    forall px: nat, py: nat | px < g.width && py < g.height
      ensures Texel(next, g, px, py) ==
              if Covered(after, px, py) then Texel(view, Tight(g.width, g.height), px, py) else Texel(was, g, px, py)
    {
      assert Covered(before, px, py) <==> before[0].Has(px, py);
      assert Covered(after, px, py) <==> after[0].Has(px, py);
      TexelAfterRow(cur, g, view, x, y + r, w, px, py);
    }
  }

  /** Copying box by box copies all the boxes, in whatever way they overlap. */
  lemma BlittedTrans(a: seq<byte>, b: seq<byte>, c: seq<byte>, g: Layout, view: seq<byte>,
                     boxes: seq<Rects.Rect>, box: Rects.Rect)
    requires Blitted(a, b, g, view, boxes) && Blitted(b, c, g, view, [box])
    ensures Blitted(a, c, g, view, boxes + [box])
  {
    hide Layout.Fits, Texel;
    forall x: nat, y: nat | x < g.width && y < g.height
      ensures Covered(boxes + [box], x, y) <==> Covered(boxes, x, y) || Covered([box], x, y)
    {
      assert forall r :: r in boxes + [box] <==> r in boxes || r in [box];
    }
  }

  lemma NothingBlitted(a: seq<byte>, g: Layout, view: seq<byte>, boxes: seq<Rects.Rect>)
    requires g.Fits(|a|) && Tight(g.width, g.height).Fits(|view|)
    requires forall b :: b in boxes ==> b.Empty()
    ensures Blitted(a, a, g, view, boxes)
  {
    forall x: nat, y: nat ensures !Covered(boxes, x, y) {
    }
  }

  /** The drawing half of DevState: the texture as its locked bytes, and the mapped picture. */
  class DevState {
    var bits: array?<byte>
    var pitch: nat
    var view: array?<byte>
    var uiWidth: uint32
    var uiHeight: uint32
    var uiLeft: uint32
    var uiRight: uint32

    ghost function Geometry(): Layout
      reads this
    {
      Layout(uiWidth, uiHeight, pitch)
    }

    /** Both buffers hold the picture. The bound on its size is the one under which the size check
        on the mapping says what it means. */
    ghost predicate Ready()
      reads this
    {
      && (bits != null ==> Geometry().Fits(bits.Length))
      && (view != null ==> Tight(uiWidth, uiHeight).Fits(view.Length))
      && (bits != null ==> bits != view)
      && Addressable(uiWidth, uiHeight)
    }

    predicate Drawable()
      reads this
    {
      bits != null && view != null && uiLeft != uiRight
    }

    /** LockRect grants a part that lies on the texture; it may also fail. A discarding lock of the
        whole texture leaves unspecified bytes behind. */
    predicate MayLock(x: uint32, y: uint32, w: uint32, h: uint32)
      reads this
    {
      x + w <= uiWidth && y + h <= uiHeight
    }

    method Discard()
      requires bits != null
      modifies bits
    {
      for i := 0 to bits.Length {
        bits[i] := *;
      }
    }

    method Blit(x: uint32, y: uint32, w: uint32, h: uint32, locked: bool)
      requires Ready() && (locked ==> MayLock(x, y, w, h))
      modifies bits
      ensures Ready()
      ensures !Drawable() || !locked ==> bits != null ==> bits[..] == old(bits[..])
      ensures Drawable() && locked ==> Blitted(old(bits[..]), bits[..], Geometry(), view[..], [Part(x, y, w, h)])
    {
      hide At, Layout.Fits, Covered;
      if bits == null || view == null || uiLeft == uiRight {
        return;
      }
      if !locked {
        return;
      }
      ghost var before := bits[..];
      if x == 0 && y == 0 && w == uiWidth && h == uiHeight {
        Discard();
      }
      ghost var start := bits[..];
      CopyRows(x, y, w, h);
      WholeOrPart(before, start, bits[..], Geometry(), view[..], Part(x, y, w, h));
    }

    method CopyRows(x: uint32, y: uint32, w: uint32, h: uint32)
      requires Ready() && Drawable() && MayLock(x, y, w, h)
      modifies bits
      ensures Blitted(old(bits[..]), bits[..], Geometry(), view[..], [Part(x, y, w, h)])
    {
      hide At, Layout.Fits, SourceOffset, Blitted, Addressable, LockedRow;
      ghost var g, start, shown := Geometry(), bits[..], view[..];
      NothingBlitted(start, g, shown, [Part(x, y, w, 0)]);
      for r := 0 to h
        invariant view[..] == shown
        invariant Blitted(start, bits[..], g, shown, [Part(x, y, w, r)])
      {
        ghost var cur := bits[..];
        AtFits(g, bits.Length, x, y + r, w);
        AtFits(Tight(uiWidth, uiHeight), view.Length, x, y + r, w);
        if w > 0 {
          SourceOffsetExact(x, y, r, uiWidth, uiHeight);
        }
        CopyBytes(bits, LockedRow(x, y, r), view, SourceOffset(x, y, r, uiWidth), 4 * w);
        assert bits[..] == RowCopied(cur, g, shown, x, y + r, w);
        RowExtends(start, cur, g, shown, x, y, w, r);
      }
    }

    /** Row r of the locked part: the lock points at (x, y), and rows lie pitch bytes apart. */
    function LockedRow(x: nat, y: nat, r: nat): (p: nat)
      reads this
      ensures p == At(pitch, x, y + r)
    {
      assert y * pitch + r * pitch == (y + r) * pitch;
      (y * pitch + 4 * x) + r * pitch
    }

    /** One box, handed over as position and size. */
    method BlitBox(b: Rects.Rect, locked: bool)
      requires Ready() && (locked ==> !b.Empty() && Rects.Inside(b, Rects.Rect(0, 0, uiWidth, uiHeight)))
      modifies bits
      ensures Ready()
      ensures bits != null ==>
        if Drawable() && locked then Blitted(old(bits[..]), bits[..], Geometry(), view[..], [b]) else bits[..] == old(bits[..])
    {
      hide Layout.Fits, Blitted, Wrap, Sub32, Part, Rects.Inside;
      if locked {
        PositionAndSize(b, uiWidth, uiHeight);
      }
      Blit(Wrap(b.left), Wrap(b.top), Sub32(b.right, b.left), Sub32(b.bottom, b.top), locked);
    }

    /** The end of checkMessage: every box in turn, as far as its lock is granted. */
    method BlitAll(boxes: seq<Rects.Rect>, locked: seq<bool>)
      requires Ready() && |locked| == |boxes|
      requires forall i :: 0 <= i < |boxes| && locked[i] ==>
        !boxes[i].Empty() && Rects.Inside(boxes[i], Rects.Rect(0, 0, uiWidth, uiHeight))
      modifies bits
      ensures Ready()
      ensures bits != null ==>
        if Drawable() then Blitted(old(bits[..]), bits[..], Geometry(), view[..], Granted(boxes, locked))
        else bits[..] == old(bits[..])
    {
      hide Layout.Fits, Blitted, Granted;
      if !Drawable() {
        for i := 0 to |boxes|
          invariant Ready() && (bits != null ==> bits[..] == old(bits[..]))
        {
          BlitBox(boxes[i], locked[i]);
        }
        return;
      }
      ghost var before, shown := bits[..], view[..];
      NothingBlitted(before, Geometry(), shown, []);
      assert Granted(boxes[..0], locked[..0]) == [] by { NothingGranted(); }
      for i := 0 to |boxes|
        invariant Ready() && Drawable() && view[..] == shown
        invariant Blitted(before, bits[..], Geometry(), shown, Granted(boxes[..i], locked[..i]))
      {
        var b := boxes[i];
        ghost var cur := bits[..];
        BlitBox(b, locked[i]);
        GrantedNext(boxes, locked, i);
        if locked[i] {
          BlittedTrans(before, cur, bits[..], Geometry(), shown, Granted(boxes[..i], locked[..i]), b);
        }
      }
      assert boxes[..|boxes|] == boxes && locked[..|locked|] == locked;
    }
  }

  /** The boxes whose locks were granted. */
  function Granted(boxes: seq<Rects.Rect>, locked: seq<bool>): seq<Rects.Rect>
    requires |locked| == |boxes|
  {
    if boxes == [] then []
    else
      var n := |boxes| - 1;
      Granted(boxes[..n], locked[..n]) + if locked[n] then [boxes[n]] else []
  }

  lemma NothingGranted()
    ensures Granted([], []) == []
  {
  }

  lemma GrantedNext(boxes: seq<Rects.Rect>, locked: seq<bool>, i: nat)
    requires |locked| == |boxes| && i < |boxes|
    ensures Granted(boxes[..i + 1], locked[..i + 1]) ==
            if locked[i] then Granted(boxes[..i], locked[..i]) + [boxes[i]] else Granted(boxes[..i], locked[..i])
  {
    assert boxes[..i + 1][..i] == boxes[..i] && locked[..i + 1][..i] == locked[..i];
  }

  lemma {:induction false} GrantedCovers(boxes: seq<Rects.Rect>, locked: seq<bool>, x: nat, y: nat)
    requires |locked| == |boxes| && forall i :: 0 <= i < |boxes| ==> (locked[i] <==> !boxes[i].Empty())
    ensures Covered(Granted(boxes, locked), x, y) <==> Covered(boxes, x, y)
  {
    if boxes != [] {
      var n := |boxes| - 1;
      GrantedCovers(boxes[..n], locked[..n], x, y);
      assert forall b :: b in boxes <==> b in boxes[..n] || b == boxes[n];
    }
  }

  /** A box on the screen survives the conversions to unsigned numbers and back. */
  lemma PositionAndSize(b: Rects.Rect, width: uint32, height: uint32)
    requires !b.Empty() && Rects.Inside(b, Rects.Rect(0, 0, width, height))
    ensures var (x, y, w, h) := (Wrap(b.left), Wrap(b.top), Sub32(b.right, b.left), Sub32(b.bottom, b.top));
            Part(x, y, w, h) == b && (x as int) + w <= width && (y as int) + h <= height
  {
  }

  /** What a discarding lock destroys, the blit that follows restores: it covers every texel. */
  lemma WholeOrPart(before: seq<byte>, start: seq<byte>, end: seq<byte>, g: Layout, view: seq<byte>, b: Rects.Rect)
    requires Blitted(start, end, g, view, [b])
    requires |before| == |start| && (before != start ==> b == Rects.Rect(0, 0, g.width, g.height))
    ensures Blitted(before, end, g, view, [b])
  {
    hide Layout.Fits, Texel;
    if before != start {
      assert b in [b];
    }
  }

  /** The first rows of the packed buffer hold those of the box. */
  ghost predicate Packed(packed: seq<byte>, view: seq<byte>, width: nat, height: nat,
                         x: nat, y: nat, w: nat, h: nat, rows: nat) {
    && Tight(w, h).Fits(|packed|) && Tight(width, height).Fits(|view|)
    && x + w <= width && y + h <= height && rows <= h
    && forall i: nat, j: nat :: i < w && j < rows ==>
      Texel(packed, Tight(w, h), i, j) == Texel(view, Tight(width, height), x + i, y + j)
  }

  /** OpenGL: the rows of the box packed into a buffer of their own. */
  method PackRows(view: array<byte>, width: uint32, height: uint32, x: uint32, y: uint32, w: uint32, h: uint32)
    returns (packed: array<byte>)
    requires Tight(width, height).Fits(view.Length) && x + w <= width && y + h <= height
    requires Addressable(width, height)
    ensures fresh(packed) && packed.Length == h * (4 * w) && Packed(packed[..], view[..], width, height, x, y, w, h, h)
  {
    hide At, Layout.Fits, SourceOffset, Packed, PackedSize, Tight, Addressable, PackedRow;
    packed := new byte[PackedSize(w, h)](_ => 0);
    ghost var shown := view[..];
    NothingPacked(packed[..], shown, width, height, x, y, w, h);
    for row := 0 to h
      invariant view[..] == shown
      invariant Packed(packed[..], shown, width, height, x, y, w, h, row)
    {
      ghost var cur := packed[..];
      PackedSizes(cur, shown, width, height, x, y, w, h, row);
      if w > 0 {
        SourceOffsetExact(x, y, row, width, height);
        RowPacked(cur, shown, width, height, x, y, w, h, row);
      } else {
        NoColumnsPacked(cur, shown, width, height, x, y, h, row);
      }
      CopyBytes(packed, PackedRow(w, row), view, SourceOffset(x, y, row, width), 4 * w);
    }
  }

  function PackedSize(w: nat, h: nat): nat { h * (4 * w) }

  lemma NothingPacked(packed: seq<byte>, view: seq<byte>, width: nat, height: nat, x: nat, y: nat, w: nat, h: nat)
    requires |packed| == PackedSize(w, h) && Tight(width, height).Fits(|view|) && x + w <= width && y + h <= height
    ensures |packed| == h * (4 * w) && Packed(packed, view, width, height, x, y, w, h, 0)
  {
    PackedFits(w, h);
  }

  lemma NoColumnsPacked(packed: seq<byte>, view: seq<byte>, width: nat, height: nat, x: nat, y: nat, h: nat, row: nat)
    requires Packed(packed, view, width, height, x, y, 0, h, row) && row < h
    ensures Packed(packed, view, width, height, x, y, 0, h, row + 1)
  {
  }

  lemma PackedSizes(packed: seq<byte>, view: seq<byte>, width: nat, height: nat,
                    x: nat, y: nat, w: nat, h: nat, row: nat)
    requires Packed(packed, view, width, height, x, y, w, h, row) && row < h
    ensures At(4 * w, 0, row) + 4 * w <= |packed| && At(4 * width, x, y + row) + 4 * w <= |view|
  {
    AtFits(Tight(w, h), |packed|, 0, row, w);
    AtFits(Tight(width, height), |view|, x, y + row, w);
  }

  lemma RowPacked(cur: seq<byte>, view: seq<byte>, width: nat, height: nat,
                  x: nat, y: nat, w: nat, h: nat, row: nat)
    requires Packed(cur, view, width, height, x, y, w, h, row) && row < h
    requires At(4 * w, 0, row) + 4 * w <= |cur| && At(4 * width, x, y + row) + 4 * w <= |view|
    ensures var start := At(4 * width, x, y + row);
            Packed(Splice(cur, At(4 * w, 0, row), view[start..start + 4 * w]), view, width, height, x, y, w, h, row + 1)
  {
    hide At, Layout.Fits, Texel;
    var start := At(4 * width, x, y + row);
    var next := Splice(cur, At(4 * w, 0, row), view[start..start + 4 * w]);
    forall i: nat, j: nat | i < w && j < row + 1
      ensures Texel(next, Tight(w, h), i, j) == Texel(view, Tight(width, height), x + i, y + j)
    {
      TexelAfterPacking(cur, view, width, height, x, y, w, h, row, i, j);
    }
  }

  lemma PackedFits(w: nat, h: nat)
    ensures Tight(w, h).Fits(h * (4 * w))
  {
  }

  function PackedRow(w: nat, row: nat): (p: nat)
    ensures p == At(4 * w, 0, row)
  {
    assert 4 * w * row == row * (4 * w);
    4 * w * row
  }

  lemma TexelAfterPacking(cur: seq<byte>, view: seq<byte>, width: nat, height: nat,
                          x: nat, y: nat, w: nat, h: nat, row: nat, i: nat, j: nat)
    requires Tight(w, h).Fits(|cur|) && Tight(width, height).Fits(|view|)
    requires x + w <= width && y + h <= height && i < w && j <= row < h
    requires At(4 * w, 0, row) + 4 * w <= |cur| && At(4 * width, x, y + row) + 4 * w <= |view|
    ensures var start := At(4 * width, x, y + row);
            var next := Splice(cur, At(4 * w, 0, row), view[start..start + 4 * w]);
            Texel(next, Tight(w, h), i, j) ==
            if j == row then Texel(view, Tight(width, height), x + i, y + j) else Texel(cur, Tight(w, h), i, j)
  {
    hide At, Layout.Fits, Splice, Texel;
    TexelAfterCopy(cur, Tight(w, h), 0, row, view, Tight(width, height), x, y + row, w, i, j);
  }

  /** glTexSubImage2D: texel (i, j) of the packed buffer replaces texel (x + i, y + j). */
  ghost predicate SubImage(was: seq<byte>, now: seq<byte>, g: Layout, packed: seq<byte>, x: nat, y: nat, w: nat, h: nat)
    requires Tight(w, h).Fits(|packed|)
  {
    g.Fits(|was|) && |was| == |now| &&
    forall px: nat, py: nat :: px < g.width && py < g.height ==>
      Texel(now, g, px, py) ==
      if Part(x, y, w, h).Has(px, py) then Texel(packed, Tight(w, h), px - x, py - y) else Texel(was, g, px, py)
  }

  /** Uploading the packed rows has the same effect on every texel as copying the box directly. */
  lemma PackedUploadIsBlit(was: seq<byte>, now: seq<byte>, g: Layout, view: seq<byte>, packed: seq<byte>,
                           x: nat, y: nat, w: nat, h: nat)
    requires Packed(packed, view, g.width, g.height, x, y, w, h, h) && g.Fits(|was|)
    ensures SubImage(was, now, g, packed, x, y, w, h) <==> Blitted(was, now, g, view, [Part(x, y, w, h)])
  {
    hide Layout.Fits, Texel;
    var boxes := [Part(x, y, w, h)];
    assert forall px: nat, py: nat :: Covered(boxes, px, py) <==> boxes[0].Has(px, py);
    forall px: nat, py: nat | px < g.width && py < g.height && boxes[0].Has(px, py)
      ensures Texel(packed, Tight(w, h), px - x, py - y) == Texel(view, Tight(g.width, g.height), px, py)
    {
      var (i, j) := (px - x, py - y);
      assert Texel(packed, Tight(w, h), i, j) == Texel(view, Tight(g.width, g.height), x + i, y + j);
    }
  }

  /** Cache agreement: blitting the merged boxes makes the texture show the shared picture on every
      texel of every request, and leaves every texel outside the boxes as it was. */
  lemma RequestsAreShown(was: seq<byte>, now: seq<byte>, g: Layout, view: seq<byte>,
                         requests: seq<Rects.Rect>, locked: seq<bool>)
    requires var boxes := Rects.MergeAll(requests);
             |locked| == |boxes| && (forall i :: 0 <= i < |boxes| ==> (locked[i] <==> !boxes[i].Empty())) &&
             Blitted(was, now, g, view, Granted(boxes, locked))
    ensures forall r, x: nat, y: nat :: r in requests && r.Has(x, y) && x < g.width && y < g.height ==>
      Texel(now, g, x, y) == Texel(view, Tight(g.width, g.height), x, y)
    ensures forall x: nat, y: nat :: x < g.width && y < g.height && !Covered(Rects.MergeAll(requests), x, y) ==>
      Texel(now, g, x, y) == Texel(was, g, x, y)
  {
    hide Layout.Fits, Texel, Rects.MergeAll, Granted;
    var boxes := Rects.MergeAll(requests);
    Rects.BoxesCoverAndStayOnScreen(requests, Rects.Rect(0, 0, g.width, g.height));
    forall x: nat, y: nat ensures Covered(Granted(boxes, locked), x, y) <==> Covered(boxes, x, y) {
      GrantedCovers(boxes, locked, x, y);
    }
    forall r, x: nat, y: nat | r in requests && r.Has(x, y) && x < g.width && y < g.height
      ensures Covered(boxes, x, y)
    {
    }
  }
}

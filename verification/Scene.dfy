/** What the screen ought to show: pointer over windows in z-order over the desktop. */
module Scene {
  import opened Bytes
  import opened Status
  import opened Primitives

  const MAX_EXTENT := 0x7fff_ffff

  datatype Surface = Surface(width: nat, height: nat, pixels: seq<seq<Color>>) {
    predicate Valid() {
      && 0 < width <= MAX_EXTENT && 0 < height <= MAX_EXTENT
      && |pixels| == height && forall y :: 0 <= y < height ==> |pixels[y]| == width
    }
  }

  datatype Window = Window(
    surface: Surface, bounds: Rect, owner: u32, generation: u16, zOrder: nat,
    live: bool, visible: bool, focused: bool)
  {
    predicate Valid() {
      live ==> surface.Valid() && bounds.width == surface.width && bounds.height == surface.height
    }

    predicate Shows(z: nat, x: int, y: int) {
      live && visible && zOrder == z && InRect(bounds, x, y)
    }

    function Pixel(x: int, y: int): Color
      requires Valid() && live && InRect(bounds, x, y)
    {
      surface.pixels[y - bounds.y][x - bounds.x]
    }
  }

  predicate AllValid(ws: seq<Window>) {
    forall i :: 0 <= i < |ws| ==> ws[i].Valid()
  }

  /** The z-orders of the allocated windows are a permutation of 1 to `count`. */
  ghost predicate Ordered(ws: seq<Window>, count: nat) {
    && (forall i :: 0 <= i < |ws| && ws[i].live ==> 1 <= ws[i].zOrder <= count)
    && (forall i, j :: 0 <= i < j < |ws| && ws[i].live && ws[j].live ==> ws[i].zOrder != ws[j].zOrder)
    && (forall z :: 1 <= z <= count ==> HasOrder(ws, z))
  }

  ghost predicate HasOrder(ws: seq<Window>, z: nat) {
    exists i :: 0 <= i < |ws| && ws[i].live && ws[i].zOrder == z
  }

  /** What the window at layer `z` shows at a pixel, if there is one and it covers the pixel. */
  function Layer(ws: seq<Window>, z: nat, x: int, y: int): Option<Color>
    requires AllValid(ws)
  {
    if ws == [] then None
    else if ws[|ws| - 1].Shows(z, x, y) then Some(ws[|ws| - 1].Pixel(x, y))
    else Layer(ws[..|ws| - 1], z, x, y)
  }

  /** Layers 1 to `z` over the desktop, the highest one on top. */
  function Stack(ws: seq<Window>, z: nat, desktop: Color, x: int, y: int): Color
    requires AllValid(ws)
  {
    if z == 0 then desktop
    else
      match Layer(ws, z, x, y)
      case Some(c) => c
      case None => Stack(ws, z - 1, desktop, x, y)
  }

  /** Two windows look alike at a pixel, each at its own layer. */
  predicate Alike(a: Window, za: nat, b: Window, zb: nat, x: int, y: int)
    requires a.Valid() && b.Valid()
  {
    && (a.Shows(za, x, y) <==> b.Shows(zb, x, y))
    && (a.Shows(za, x, y) ==> a.Pixel(x, y) == b.Pixel(x, y))
  }

  lemma {:induction false} LayersMatch(a: seq<Window>, b: seq<Window>, za: nat, zb: nat, x: int, y: int)
    requires AllValid(a) && AllValid(b) && |a| == |b|
    requires forall i :: 0 <= i < |a| ==> Alike(a[i], za, b[i], zb, x, y)
    ensures Layer(a, za, x, y) == Layer(b, zb, x, y)
  {
    if a != [] {
      LayersMatch(a[..|a| - 1], b[..|b| - 1], za, zb, x, y);
    }
  }

  lemma {:induction false} LayerEmpty(ws: seq<Window>, z: nat, x: int, y: int)
    requires AllValid(ws) && forall i :: 0 <= i < |ws| ==> !ws[i].Shows(z, x, y)
    ensures Layer(ws, z, x, y) == None
  {
    if ws != [] {
      LayerEmpty(ws[..|ws| - 1], z, x, y);
    }
  }

  lemma {:induction false} LayerIs(ws: seq<Window>, z: nat, x: int, y: int, i: nat)
    requires AllValid(ws) && i < |ws| && ws[i].Shows(z, x, y)
    requires forall j :: 0 <= j < |ws| && j != i ==> !ws[j].Shows(z, x, y)
    ensures Layer(ws, z, x, y) == Some(ws[i].Pixel(x, y))
  {
    if i < |ws| - 1 {
      LayerIs(ws[..|ws| - 1], z, x, y, i);
    }
  }

  lemma {:induction false} StacksMatch(a: seq<Window>, b: seq<Window>, z: nat, desktop: Color, x: int, y: int)
    requires AllValid(a) && AllValid(b)
    requires forall k :: 1 <= k <= z ==> Layer(a, k, x, y) == Layer(b, k, x, y)
    ensures Stack(a, z, desktop, x, y) == Stack(b, z, desktop, x, y)
  {
    if z > 0 {
      StacksMatch(a, b, z - 1, desktop, x, y);
    }
  }

  /** Taking out a layer that shows nothing at a pixel changes nothing there. */
  lemma {:induction false} StackCloses(a: seq<Window>, b: seq<Window>, z: nat, n: nat, desktop: Color, x: int, y: int)
    requires AllValid(a) && AllValid(b) && 1 <= z <= n && Layer(a, z, x, y) == None
    requires forall k :: 1 <= k < z ==> Layer(b, k, x, y) == Layer(a, k, x, y)
    requires forall k :: z <= k < n ==> Layer(b, k, x, y) == Layer(a, k + 1, x, y)
    ensures Stack(b, n - 1, desktop, x, y) == Stack(a, n, desktop, x, y)
    decreases n
  {
    if n == z {
      StacksMatch(a, b, n - 1, desktop, x, y);
    } else {
      StackCloses(a, b, z, n - 1, desktop, x, y);
      assert Layer(b, n - 1, x, y) == Layer(a, n, x, y);
    }
  }

  // ----- the changes that the window manager makes --------------------------------------------------

  function Lowered(ws: seq<Window>, z: nat): (r: seq<Window>)
    ensures |r| == |ws|
    ensures forall i :: 0 <= i < |ws| ==>
            r[i] == if ws[i].live && ws[i].zOrder > z then ws[i].(zOrder := ws[i].zOrder - 1) else ws[i]
  {
    seq(|ws|, i requires 0 <= i < |ws| =>
      if ws[i].live && ws[i].zOrder > z then ws[i].(zOrder := ws[i].zOrder - 1) else ws[i])
  }

  function Without(ws: seq<Window>, slot: nat): seq<Window>
    requires slot < |ws|
  {
    Lowered(ws[slot := ws[slot].(live := false, visible := false, focused := false)], ws[slot].zOrder)
  }

  function OnTop(ws: seq<Window>, slot: nat, count: nat): seq<Window>
    requires slot < |ws|
  {
    var lowered := Lowered(ws, ws[slot].zOrder);
    lowered[slot := ws[slot].(zOrder := count)]
  }

  lemma RemovalKeepsOrder(ws: seq<Window>, slot: nat, count: nat)
    requires Ordered(ws, count) && slot < |ws| && ws[slot].live
    ensures Ordered(Without(ws, slot), count - 1)
  {
    var after, z := Without(ws, slot), ws[slot].zOrder;
    forall k | 1 <= k <= count - 1 ensures HasOrder(after, k) {
      var before := if k < z then k else k + 1;
      assert HasOrder(ws, before);
      var i :| 0 <= i < |ws| && ws[i].live && ws[i].zOrder == before;
      assert i != slot && after[i].live && after[i].zOrder == k;
    }
  }

  lemma RaiseKeepsOrder(ws: seq<Window>, slot: nat, count: nat)
    requires Ordered(ws, count) && slot < |ws| && ws[slot].live
    ensures Ordered(OnTop(ws, slot, count), count)
  {
    var after, z := OnTop(ws, slot, count), ws[slot].zOrder;
    forall k | 1 <= k <= count ensures HasOrder(after, k) {
      if k == count {
        assert after[slot].live && after[slot].zOrder == k;
      } else {
        var before := if k < z then k else k + 1;
        assert HasOrder(ws, before);
        var i :| 0 <= i < |ws| && ws[i].live && ws[i].zOrder == before;
        assert i != slot && after[i].live && after[i].zOrder == k;
      }
    }
  }

  lemma InsertKeepsOrder(ws: seq<Window>, slot: nat, count: nat, w: Window)
    requires Ordered(ws, count) && slot < |ws| && !ws[slot].live && w.live && w.zOrder == count + 1
    ensures Ordered(ws[slot := w], count + 1)
  {
    var after := ws[slot := w];
    forall k | 1 <= k <= count + 1 ensures HasOrder(after, k) {
      if k == count + 1 {
        assert after[slot].live && after[slot].zOrder == k;
      } else {
        assert HasOrder(ws, k);
        var i :| 0 <= i < |ws| && ws[i].live && ws[i].zOrder == k;
        assert after[i].live && after[i].zOrder == k;
      }
    }
  }

  lemma ReplaceKeepsOrder(ws: seq<Window>, slot: nat, count: nat, w: Window)
    requires Ordered(ws, count) && slot < |ws| && w.live == ws[slot].live && w.zOrder == ws[slot].zOrder
    ensures Ordered(ws[slot := w], count)
  {
    var after := ws[slot := w];
    forall k | 1 <= k <= count ensures HasOrder(after, k) {
      assert HasOrder(ws, k);
      var i :| 0 <= i < |ws| && ws[i].live && ws[i].zOrder == k;
      assert after[i].live && after[i].zOrder == k;
    }
  }

  /** Where the removed window showed nothing, the stack looks as before. */
  lemma RemovalLooksSame(ws: seq<Window>, slot: nat, count: nat, desktop: Color, x: int, y: int)
    requires AllValid(ws) && Ordered(ws, count) && slot < |ws| && ws[slot].live
    requires !(ws[slot].visible && InRect(ws[slot].bounds, x, y))
    ensures AllValid(Without(ws, slot))
    ensures Stack(Without(ws, slot), count - 1, desktop, x, y) == Stack(ws, count, desktop, x, y)
  {
    var after, z := Without(ws, slot), ws[slot].zOrder;
    LayerEmpty(ws, z, x, y);
    forall k | 1 <= k < z ensures Layer(after, k, x, y) == Layer(ws, k, x, y) {
      LayersMatch(after, ws, k, k, x, y);
    }
    forall k | z <= k < count ensures Layer(after, k, x, y) == Layer(ws, k + 1, x, y) {
      LayersMatch(after, ws, k, k + 1, x, y);
    }
    StackCloses(ws, after, z, count, desktop, x, y);
  }

  lemma RaiseLooksSame(ws: seq<Window>, slot: nat, count: nat, desktop: Color, x: int, y: int)
    requires AllValid(ws) && Ordered(ws, count) && slot < |ws| && ws[slot].live
    requires !(ws[slot].visible && InRect(ws[slot].bounds, x, y))
    ensures AllValid(OnTop(ws, slot, count))
    ensures Stack(OnTop(ws, slot, count), count, desktop, x, y) == Stack(ws, count, desktop, x, y)
  {
    var after, z := OnTop(ws, slot, count), ws[slot].zOrder;
    LayerEmpty(ws, z, x, y);
    LayerEmpty(after, count, x, y);
    forall k | 1 <= k < z ensures Layer(after, k, x, y) == Layer(ws, k, x, y) {
      LayersMatch(after, ws, k, k, x, y);
    }
    forall k | z <= k < count ensures Layer(after, k, x, y) == Layer(ws, k + 1, x, y) {
      LayersMatch(after, ws, k, k + 1, x, y);
    }
    StackCloses(ws, after, z, count, desktop, x, y);
  }

  /** A window that is changed looks the same wherever it shows the same before and after. */
  lemma ReplaceLooksSame(ws: seq<Window>, slot: nat, count: nat, w: Window, desktop: Color, x: int, y: int)
    requires AllValid(ws) && slot < |ws| && w.Valid()
    requires forall z :: Alike(w, z, ws[slot], z, x, y)
    ensures AllValid(ws[slot := w]) && Stack(ws[slot := w], count, desktop, x, y) == Stack(ws, count, desktop, x, y)
  {
    forall k | 1 <= k <= count ensures Layer(ws[slot := w], k, x, y) == Layer(ws, k, x, y) {
      LayersMatch(ws[slot := w], ws, k, k, x, y);
    }
    StacksMatch(ws[slot := w], ws, count, desktop, x, y);
  }

  lemma InsertLooksSame(ws: seq<Window>, slot: nat, count: nat, w: Window, desktop: Color, x: int, y: int)
    requires AllValid(ws) && Ordered(ws, count) && slot < |ws| && !ws[slot].live && w.Valid() && w.zOrder == count + 1
    requires !InRect(w.bounds, x, y)
    ensures AllValid(ws[slot := w]) && Stack(ws[slot := w], count + 1, desktop, x, y) == Stack(ws, count, desktop, x, y)
  {
    var after := ws[slot := w];
    LayerEmpty(after, count + 1, x, y);
    forall k | 1 <= k <= count ensures Layer(after, k, x, y) == Layer(ws, k, x, y) {
      LayersMatch(after, ws, k, k, x, y);
    }
    StacksMatch(after, ws, count, desktop, x, y);
  }

  // ----- focus --------------------------------------------------------------------------------------

  /** Exactly the topmost visible window has the focus. */
  ghost predicate TopFocused(ws: seq<Window>) {
    forall i :: 0 <= i < |ws| ==>
      (ws[i].focused <==> ws[i].live && ws[i].visible
                          && forall j :: 0 <= j < |ws| && ws[j].live && ws[j].visible ==> ws[j].zOrder <= ws[i].zOrder)
  }

  ghost predicate SameButFocus(a: seq<Window>, b: seq<Window>) {
    |a| == |b| && forall i :: 0 <= i < |a| ==> b[i] == a[i].(focused := b[i].focused)
  }

  lemma FocusLooksSame(a: seq<Window>, b: seq<Window>, count: nat, desktop: Color, x: int, y: int)
    requires AllValid(a) && SameButFocus(a, b)
    ensures AllValid(b) && Stack(b, count, desktop, x, y) == Stack(a, count, desktop, x, y)
  {
    forall k | 1 <= k <= count ensures Layer(b, k, x, y) == Layer(a, k, x, y) {
      LayersMatch(b, a, k, k, x, y);
    }
    StacksMatch(b, a, count, desktop, x, y);
  }

  lemma FocusKeepsOrder(a: seq<Window>, b: seq<Window>, count: nat)
    requires Ordered(a, count) && SameButFocus(a, b)
    ensures Ordered(b, count)
  {
    forall k | 1 <= k <= count ensures HasOrder(b, k) {
      assert HasOrder(a, k);
      var i :| 0 <= i < |a| && a[i].live && a[i].zOrder == k;
      assert b[i].live && b[i].zOrder == k;
    }
  }
}

/**
  The window manager and its compositor.  Every operation marks what it changed on screen; composing
  repaints only that, and the screen is then exactly the scene.
*/
module WindowManager {
  import opened Bytes
  import opened Status
  import opened Primitives
  import opened Scene

  const CAPACITY := 16

  datatype Handle = Handle(slot: nat, generation: u16)

  predicate Intersect(a: Rect, b: Rect) {
    && a.x < b.x + b.width && b.x < a.x + a.width
    && a.y < b.y + b.height && b.y < a.y + a.height
  }

  lemma CommonPixelIntersects(a: Rect, b: Rect, x: int, y: int)
    requires InRect(a, x, y) && InRect(b, x, y)
    ensures Intersect(a, b)
  {}

  /** The smallest rectangle around both. */
  function Union(a: Rect, b: Rect): (r: Rect)
    ensures forall x, y :: InRect(a, x, y) || InRect(b, x, y) ==> InRect(r, x, y)
  {
    var left, top := Min(a.x, b.x), Min(a.y, b.y);
    Rect(left, top, Max(a.x + a.width, b.x + b.width) - left, Max(a.y + a.height, b.y + b.height) - top)
  }

  predicate Contains(outer: Rect, inner: Rect) {
    && outer.x <= inner.x && inner.x + inner.width <= outer.x + outer.width
    && outer.y <= inner.y && inner.y + inner.height <= outer.y + outer.height
  }

  /** No smaller rectangle will do. */
  lemma UnionIsLeast(a: Rect, b: Rect, box: Rect)
    ensures Contains(Union(a, b), a) && Contains(Union(a, b), b)
    ensures Contains(box, a) && Contains(box, b) ==> Contains(box, Union(a, b))
  {}

  /** Not empty, and wholly within a surface of this size. */
  predicate Inside(r: Rect, width: nat, height: nat) {
    0 <= r.x && 0 < r.width && r.x + r.width <= width && 0 <= r.y && 0 < r.height && r.y + r.height <= height
  }

  function NextGeneration(g: u16): u16 {
    if g == 0xffff then 1 else g + 1
  }

  /** The generation of a slot after `k` more windows. */
  ghost function GenerationAfter(g: u16, k: nat): u16 {
    if k == 0 then g else NextGeneration(GenerationAfter(g, k - 1))
  }

  /**
    A destroyed window's handle names its slot again exactly after every 65535 further windows in that slot,
    and the generation of a window is never zero, which no handle may have.
  */
  lemma HandleComesRound(g: u16, k: nat)
    requires g != 0
    ensures GenerationAfter(g, k) == g <==> k % 0xffff == 0
    ensures GenerationAfter(g, k) != 0
  {
    GenerationIs(g, k);
    var rest := (g - 1 + k) % 0xffff;
    if k % 0xffff == 0 {
      assert k == k / 0xffff * 0xffff;
      assert rest == g - 1;
    }
    if rest == g - 1 {
      var turns := (g - 1 + k) / 0xffff;
      assert g - 1 + k == turns * 0xffff + (g - 1);
      assert k == turns * 0xffff;
    }
  }

  lemma {:induction false} GenerationIs(g: u16, k: nat)
    requires g != 0
    ensures GenerationAfter(g, k) == (g - 1 + k) % 0xffff + 1
  {
    if k > 0 {
      GenerationIs(g, k - 1);
    }
  }

  class Manager {
    const framebuffer: array2<Color>
    const shadow: array2<Color>
    const desktop: Color
    const pointerColor: Color
    var windows: seq<Window>
    var windowCount: nat
    var dirty: Rect
    var dirtyValid: bool
    var pointerX: int
    var pointerY: int
    var pointerVisible: bool

    predicate OnScreen(x: int, y: int) {
      0 <= y < framebuffer.Length0 && 0 <= x < framebuffer.Length1
    }

    ghost predicate Wired()
      reads this
    {
      && framebuffer != shadow && framebuffer.Length0 == shadow.Length0 && framebuffer.Length1 == shadow.Length1
      && 0 < framebuffer.Length0 <= MAX_EXTENT && 0 < framebuffer.Length1 <= MAX_EXTENT
      && |windows| == CAPACITY && AllValid(windows) && Ordered(windows, windowCount)
      && (dirtyValid ==> Inside(dirty, framebuffer.Length1, framebuffer.Length0))
    }

    /** What the screen ought to show at a pixel. */
    ghost function SceneAt(x: int, y: int): Color
      reads this
      requires AllValid(windows)
    {
      if pointerVisible && PointerCovers(pointerX, pointerY, x, y) then pointerColor
      else Stack(windows, windowCount, desktop, x, y)
    }

    predicate IsDirty(x: int, y: int)
      reads this
    {
      dirtyValid && InRect(dirty, x, y)
    }

    /** Every pixel that is not marked shows the scene. */
    ghost predicate Painted()
      reads this, framebuffer
      requires AllValid(windows)
    {
      forall y, x :: 0 <= y < framebuffer.Length0 && 0 <= x < framebuffer.Length1 && !IsDirty(x, y) ==>
        framebuffer[y, x] == SceneAt(x, y)
    }

    ghost predicate Valid()
      reads this, framebuffer
    {
      Wired() && TopFocused(windows) && Painted()
    }

    constructor (height: nat, width: nat, desktop: Color, pointerColor: Color)
      requires 0 < height <= MAX_EXTENT && 0 < width <= MAX_EXTENT
      ensures Valid() && framebuffer.Length0 == height && framebuffer.Length1 == width
      ensures windowCount == 0 && !pointerVisible && fresh(framebuffer) && fresh(shadow)
    {
      framebuffer := new Color[height, width]((_, _) => 0);
      shadow := new Color[height, width]((_, _) => 0);
      this.desktop, this.pointerColor := desktop, pointerColor;
      var empty := Window(Surface(0, 0, []), Rect(0, 0, 0, 0), 0, 0, 0, false, false, false);
      windows := seq(CAPACITY, _ => empty);
      windowCount, pointerX, pointerY, pointerVisible := 0, 0, 0, false;
      dirty, dirtyValid := Rect(0, 0, width, height), true;
    }

    // ----- the dirty rectangle --------------------------------------------------------------------

    /** Marks the part of the rectangle that is on screen; what was marked stays marked. */
    method AddDirty(r: Rect)
      requires Wired()
      modifies this`dirty, this`dirtyValid
      ensures Wired()
      ensures forall x, y :: OnScreen(x, y) && (InRect(r, x, y) || old(IsDirty(x, y))) ==> IsDirty(x, y)
      ensures var part := Clipped(r, framebuffer.Length1, framebuffer.Length0);
        if part.width == 0 then dirty == old(dirty) && dirtyValid == old(dirtyValid)
        else dirtyValid && dirty == if old(dirtyValid) then Union(old(dirty), part) else part
    {
      var part := Clipped(r, framebuffer.Length1, framebuffer.Length0);
      ClippedCovers(r, framebuffer.Length1, framebuffer.Length0);
      if part.width == 0 {
        return;
      }
      if !dirtyValid {
        dirty, dirtyValid := part, true;
        return;
      }
      dirty := Union(dirty, part);
    }

    // ----- focus and handles ----------------------------------------------------------------------

    method SelectTopFocus()
      requires |windows| == CAPACITY
      requires forall i, j :: 0 <= i < j < CAPACITY && windows[i].live && windows[j].live ==>
               windows[i].zOrder != windows[j].zOrder
      modifies this`windows
      ensures SameButFocus(old(windows), windows) && TopFocused(windows)
    {
      var top := -1;
      ghost var before := windows;
      for index := 0 to CAPACITY
        invariant SameButFocus(before, windows) && -1 <= top < index
        invariant forall i :: 0 <= i < index ==> !windows[i].focused
        invariant top >= 0 ==> windows[top].live && windows[top].visible
        invariant forall i :: 0 <= i < index && windows[i].live && windows[i].visible ==>
                    top >= 0 && windows[i].zOrder <= windows[top].zOrder
      {
        windows := windows[index := windows[index].(focused := false)];
        var w := windows[index];
        if w.live && w.visible && (top < 0 || w.zOrder > windows[top].zOrder) {
          top := index;
        }
      }
      if top >= 0 {
        windows := windows[top := windows[top].(focused := true)];
      }
    }

    predicate Finds(h: Handle)
      reads this
    {
      h.slot < |windows| && h.generation != 0 && windows[h.slot].live && windows[h.slot].generation == h.generation
    }

    /** A handle from `k` windows ago reaches the window now in its slot exactly every 65535 windows. */
    lemma StaleHandle(h: Handle, k: nat)
      requires h.slot < |windows| && h.generation != 0 && windows[h.slot].live
      requires windows[h.slot].generation == GenerationAfter(h.generation, k)
      ensures Finds(h) <==> k % 0xffff == 0
    {
      HandleComesRound(h.generation, k);
    }

    /** Moves the focus where it belongs; nothing on screen depends on it. */
    method Refocus()
      requires Wired() && Painted()
      modifies this`windows
      ensures Valid() && SameButFocus(old(windows), windows)
    {
      SelectTopFocus();
      FocusKeepsOrder(old(windows), windows, windowCount);
      forall y, x | 0 <= y < framebuffer.Length0 && 0 <= x < framebuffer.Length1 && !IsDirty(x, y)
        ensures framebuffer[y, x] == SceneAt(x, y)
      {
        FocusLooksSame(old(windows), windows, windowCount, desktop, x, y);
      }
    }

    // ----- operations -----------------------------------------------------------------------------

    method Create(surface: Surface, x: int, y: int, owner: u32) returns (status: Status, h: Handle)
      requires Valid()
      modifies this`windows, this`windowCount, this`dirty, this`dirtyValid
      ensures Valid()
      ensures status == (if !surface.Valid() then InvalidArgument
                         else if forall i :: 0 <= i < CAPACITY ==> old(windows)[i].live then NoSpace else Ok)
      ensures status == Ok ==> Finds(h) && !old(windows)[h.slot].live && windowCount == old(windowCount) + 1
      ensures status == Ok ==>
              var w := windows[h.slot];
              w.surface == surface && w.bounds == Rect(x, y, surface.width, surface.height) && w.visible && w.focused
              && w.zOrder == windowCount && w.owner == owner
      ensures status == Ok ==>
              && SameButFocus(old(windows)[h.slot := windows[h.slot]], windows)
              && (forall i :: 0 <= i < h.slot ==> old(windows)[i].live)
              && h.generation == GenerationAfter(old(windows)[h.slot].generation, 1)
      ensures status != Ok ==> windows == old(windows)
    {
      hide Stack, PointerCovers, TopFocused;
      h := Handle(0, 0);
      if !surface.Valid() {
        return InvalidArgument, h;
      }
      var free: nat, highest: nat := CAPACITY, 0;
      for index := 0 to CAPACITY
        invariant free == CAPACITY ==> forall i :: 0 <= i < index ==> windows[i].live
        invariant free < CAPACITY ==> free < index && !windows[free].live
        invariant forall i :: 0 <= i < index && i < free ==> windows[i].live
        invariant 0 <= free <= CAPACITY && 0 <= highest <= windowCount
        invariant forall i :: 0 <= i < index && windows[i].live ==> windows[i].zOrder <= highest
      {
        if !windows[index].live && free == CAPACITY {
          free := index;
        }
        if windows[index].live && windows[index].zOrder > highest {
          highest := windows[index].zOrder;
        }
      }
      if free == CAPACITY {
        return NoSpace, h;
      }
      assert highest == windowCount by {
        assert windowCount > 0 ==> HasOrder(windows, windowCount);
      }
      var w := Window(surface, Rect(x, y, surface.width, surface.height), owner,
                      NextGeneration(windows[free].generation), highest + 1, true, true, false);
      PlaceWindow(free, w);
      return Ok, Handle(free, w.generation);
    }

    method PlaceWindow(slot: nat, w: Window)
      requires Valid() && slot < CAPACITY && !windows[slot].live
      requires w.Valid() && w.live && w.visible && w.zOrder == windowCount + 1
      modifies this`windows, this`windowCount, this`dirty, this`dirtyValid
      ensures Valid() && windowCount == old(windowCount) + 1
      ensures windows[slot] == w.(focused := true) && SameButFocus(old(windows)[slot := w], windows)
    {
      hide Stack, TopFocused, Ordered;
      ghost var before := windows;
      InsertKeepsOrder(windows, slot, windowCount, w);
      windows := windows[slot := w];
      windowCount := windowCount + 1;
      AddDirty(w.bounds);
      forall v, u | 0 <= v < framebuffer.Length0 && 0 <= u < framebuffer.Length1 && !IsDirty(u, v)
        ensures framebuffer[v, u] == SceneAt(u, v)
      {
        assert OnScreen(u, v) && !InRect(w.bounds, u, v) && !old(IsDirty(u, v));
        InsertLooksSame(before, slot, windowCount - 1, w, desktop, u, v);
      }
      Refocus();
      NewestFocused(windows, slot, windowCount);
    }

    /** A stale handle never reaches a window again until its generation comes round. */
    method Destroy(h: Handle) returns (status: Status)
      requires Valid()
      modifies this`windows, this`windowCount, this`dirty, this`dirtyValid
      ensures Valid() && status == (if old(Finds(h)) then Ok else BadHandle)
      ensures status == Ok ==> !Finds(h) && windowCount == old(windowCount) - 1
      ensures status == Ok ==> SameButFocus(Without(old(windows), h.slot), windows)
      ensures status != Ok ==> windows == old(windows)
    {
      hide Stack, TopFocused, Ordered;
      if !Finds(h) {
        return BadHandle;
      }
      ghost var before, count := windows, windowCount;
      var w := windows[h.slot];
      if w.visible {
        AddDirty(w.bounds);
      }
      SomeOrder(before, count, h.slot);
      RemovalKeepsOrder(before, h.slot, count);
      windows := windows[h.slot := w.(live := false, visible := false, focused := false)];
      windowCount := windowCount - 1;
      LowerAbove(w.zOrder);
      forall v, u | 0 <= v < framebuffer.Length0 && 0 <= u < framebuffer.Length1
        ensures AllValid(windows)
        ensures !IsDirty(u, v) ==> framebuffer[v, u] == SceneAt(u, v)
      {
        RemovalValid(before, h.slot);
        if !IsDirty(u, v) {
          assert OnScreen(u, v);
          RemovalLooksSame(before, h.slot, count, desktop, u, v);
        }
      }
      RemovalValid(before, h.slot);
      Refocus();
      status := Ok;
    }

    method LowerAbove(z: nat)
      requires |windows| == CAPACITY
      modifies this`windows
      ensures windows == Lowered(old(windows), z)
    {
      ghost var goal := Lowered(windows, z);
      for index := 0 to CAPACITY
        invariant |windows| == CAPACITY
        invariant forall i :: 0 <= i < CAPACITY ==> windows[i] == if i < index then goal[i] else old(windows)[i]
      {
        if windows[index].live && windows[index].zOrder > z {
          windows := windows[index := windows[index].(zOrder := windows[index].zOrder - 1)];
        }
      }
    }

    method Move(h: Handle, x: int, y: int) returns (status: Status)
      requires Valid()
      modifies this`windows, this`dirty, this`dirtyValid
      ensures Valid() && status == (if old(Finds(h)) then Ok else BadHandle)
      ensures status == Ok ==>
              var w := old(windows)[h.slot];
              windows == old(windows)[h.slot := w.(bounds := Rect(x, y, w.bounds.width, w.bounds.height))]
      ensures status != Ok ==> windows == old(windows)
    {
      hide Stack, Ordered;
      if !Finds(h) {
        return BadHandle;
      }
      var w := windows[h.slot];
      var moved := w.(bounds := Rect(x, y, w.bounds.width, w.bounds.height));
      if w.visible {
        AddDirty(w.bounds);
        AddDirty(moved.bounds);
      }
      Exchange(h.slot, moved);
      SameFocusFields(old(windows), h.slot, moved);
      status := Ok;
    }

    /** Replaces a window by one that differs from it only where the screen is marked. */
    method Exchange(slot: nat, w: Window)
      requires Wired() && Painted() && slot < CAPACITY && w.Valid()
      requires w.live == windows[slot].live && w.zOrder == windows[slot].zOrder
      requires forall x, y, z :: OnScreen(x, y) && !IsDirty(x, y) ==> Alike(w, z, windows[slot], z, x, y)
      modifies this`windows
      ensures Wired() && Painted() && windows == old(windows)[slot := w]
    {
      hide Stack, Ordered;
      ghost var before := windows;
      ReplaceKeepsOrder(before, slot, windowCount, w);
      windows := windows[slot := w];
      forall v, u | 0 <= v < framebuffer.Length0 && 0 <= u < framebuffer.Length1 && !IsDirty(u, v)
        ensures framebuffer[v, u] == SceneAt(u, v)
      {
        assert OnScreen(u, v) && !old(IsDirty(u, v));
        ReplaceLooksSame(before, slot, windowCount, w, desktop, u, v);
      }
    }

    method SetVisible(h: Handle, visible: bool) returns (status: Status)
      requires Valid()
      modifies this`windows, this`dirty, this`dirtyValid
      ensures Valid() && status == (if old(Finds(h)) then Ok else BadHandle)
      ensures status == Ok ==>
              SameButFocus(old(windows)[h.slot := old(windows)[h.slot].(visible := visible)], windows)
      ensures status != Ok ==> windows == old(windows)
    {
      hide Stack, Ordered, TopFocused;
      if !Finds(h) {
        return BadHandle;
      }
      var w := windows[h.slot];
      if w.visible != visible {
        AddDirty(w.bounds);
        Exchange(h.slot, w.(visible := visible));
        Refocus();
      }
      status := Ok;
    }

    /** Brings a window to the top; the others keep their order. */
    method Raise(h: Handle) returns (status: Status)
      requires Valid()
      modifies this`windows, this`dirty, this`dirtyValid
      ensures Valid() && status == (if old(Finds(h)) then Ok else BadHandle)
      ensures status == Ok ==> SameButFocus(OnTop(old(windows), h.slot, windowCount), windows)
      ensures status != Ok ==> windows == old(windows)
    {
      hide Stack, TopFocused;
      if !Finds(h) {
        return BadHandle;
      }
      var top: nat := 0;
      for index := 0 to CAPACITY
        invariant 0 <= top <= windowCount
        invariant forall i :: 0 <= i < index && windows[i].live ==> windows[i].zOrder <= top
      {
        if windows[index].live && windows[index].zOrder > top {
          top := windows[index].zOrder;
        }
      }
      assert top == windowCount by {
        assert windowCount > 0 ==> HasOrder(windows, windowCount);
      }
      AlreadyOnTop(windows, h.slot, windowCount);
      if windows[h.slot].zOrder != top {
        Lift(h.slot);
      }
      Refocus();
      status := Ok;
    }

    method Lift(slot: nat)
      requires Valid() && slot < CAPACITY && windows[slot].live
      modifies this`windows, this`dirty, this`dirtyValid
      ensures Wired() && Painted() && windows == OnTop(old(windows), slot, windowCount)
    {
      hide Stack, Ordered, TopFocused;
      ghost var before := windows;
      var w := windows[slot];
      LowerAbove(w.zOrder);
      windows := windows[slot := windows[slot].(zOrder := windowCount)];
      assert windows == OnTop(before, slot, windowCount);
      RaiseKeepsOrder(before, slot, windowCount);
      RaisedValid(before, slot, windowCount);
      AddDirty(w.bounds);
      forall v, u | 0 <= v < framebuffer.Length0 && 0 <= u < framebuffer.Length1 && !IsDirty(u, v)
        ensures framebuffer[v, u] == SceneAt(u, v)
      {
        assert OnScreen(u, v) && !InRect(w.bounds, u, v) && !old(IsDirty(u, v));
        RaiseLooksSame(before, slot, windowCount, desktop, u, v);
      }
    }

    /** The client has drawn into `part` of its surface, and says so. */
    method Repaint(h: Handle, surface: Surface, part: Rect) returns (status: Status)
      requires Valid() && surface.Valid()
      requires Finds(h) ==> DrawnWithin(windows[h.slot].surface, surface, part)
      modifies this`windows, this`dirty, this`dirtyValid
      ensures status == BadHandle <==> !old(Finds(h))
      ensures Valid()
      ensures status == Ok ==> windows == old(windows)[h.slot := old(windows)[h.slot].(surface := surface)]
      ensures status == InvalidArgument <==> old(Finds(h)) && (part.width <= 0 || part.height <= 0)
      ensures status != Ok ==> windows == old(windows)
    {
      hide Stack, Ordered;
      status := Invalidate(h, part);
      if status.Failed() {
        return;
      }
      ghost var before := windows;
      var w := windows[h.slot].(surface := surface);
      forall x, y, z | OnScreen(x, y) && !IsDirty(x, y)
        ensures Alike(w, z, windows[h.slot], z, x, y)
      {
        DrawnElsewhere(windows[h.slot], surface, part, x, y);
      }
      Exchange(h.slot, w);
      SameFocusFields(before, h.slot, w);
    }

    /** Marks a part of a window, given in the window's own coordinates. */
    method Invalidate(h: Handle, part: Rect) returns (status: Status)
      requires Valid()
      modifies this`dirty, this`dirtyValid
      ensures Valid()
      ensures status == (if !Finds(h) then BadHandle
                         else if part.width <= 0 || part.height <= 0 then InvalidArgument else Ok)
      ensures forall x, y :: old(IsDirty(x, y)) ==> IsDirty(x, y)
      ensures status == Ok ==>
              forall x, y :: OnScreen(x, y) && InPart(windows[h.slot], part, x, y) ==> IsDirty(x, y)
    {
      hide Stack, Ordered, InPart, OwnPart, Clamp32, PointerCovers, TopFocused;
      if !Finds(h) {
        return BadHandle;
      }
      if part.width <= 0 || part.height <= 0 {
        return InvalidArgument;
      }
      var w := windows[h.slot];
      var own := OwnPart(w, part);
      var marked := Rect(Clamp32(own.x + w.bounds.x), Clamp32(own.y + w.bounds.y), own.width, own.height);
      AllCovered(w, part);
      if own.width <= 0 || own.height <= 0 {
        return Ok;
      }
      if w.visible {
        AddDirty(marked);
      }
      InvisibleHasNoPart(w, part);
      status := Ok;
    }

    /** Marks a part of the desktop. */
    method InvalidateDesktop(r: Rect)
      requires Valid()
      modifies this`dirty, this`dirtyValid
      ensures Valid()
      ensures forall x, y :: OnScreen(x, y) && (InRect(r, x, y) || old(IsDirty(x, y))) ==> IsDirty(x, y)
    {
      hide Stack, Ordered;
      AddDirty(r);
    }

    method SetPointer(x: int, y: int, visible: bool)
      requires Valid()
      modifies this`pointerX, this`pointerY, this`pointerVisible, this`dirty, this`dirtyValid
      ensures Valid() && pointerX == x && pointerY == y && pointerVisible == visible
    {
      hide Stack, Ordered;
      if pointerVisible {
        AddDirty(Rect(pointerX, pointerY, POINTER_WIDTH, POINTER_HEIGHT));
      }
      pointerX, pointerY, pointerVisible := x, y, visible;
      if pointerVisible {
        AddDirty(Rect(x, y, POINTER_WIDTH, POINTER_HEIGHT));
      }
      forall v, u | 0 <= v < framebuffer.Length0 && 0 <= u < framebuffer.Length1 && !IsDirty(u, v)
        ensures framebuffer[v, u] == SceneAt(u, v)
      {
        assert OnScreen(u, v);
      }
    }

    // ----- composition ----------------------------------------------------------------------------

    /** The whole screen shows the scene. */
    ghost predicate Shown()
      reads this, framebuffer
      requires AllValid(windows)
    {
      forall y, x :: 0 <= y < framebuffer.Length0 && 0 <= x < framebuffer.Length1 ==> framebuffer[y, x] == SceneAt(x, y)
    }

    /** Layer `z` is drawn over the marked part of the shadow: exactly the one window of that order. */
    method CompositeLayer(z: nat)
      requires Wired() && dirtyValid && 1 <= z <= windowCount
      requires forall y, x :: 0 <= y < shadow.Length0 && 0 <= x < shadow.Length1 && InRect(dirty, x, y) ==>
               shadow[y, x] == Stack(windows, z - 1, desktop, x, y)
      modifies shadow
      ensures forall y, x :: 0 <= y < shadow.Length0 && 0 <= x < shadow.Length1 && InRect(dirty, x, y) ==>
              shadow[y, x] == Stack(windows, z, desktop, x, y)
    {
      hide Stack, Layer, Ordered;
      forall y, x | 0 <= y < shadow.Length0 && 0 <= x < shadow.Length1 && InRect(dirty, x, y)
        ensures shadow[y, x] == Over(windows[..0], z, Stack(windows, z - 1, desktop, x, y), x, y)
      {
        OverNothing(windows[..0], z, Stack(windows, z - 1, desktop, x, y), x, y);
      }
      for index := 0 to CAPACITY
        invariant forall y, x :: 0 <= y < shadow.Length0 && 0 <= x < shadow.Length1 && InRect(dirty, x, y) ==>
                  shadow[y, x] == Over(windows[..index], z, Stack(windows, z - 1, desktop, x, y), x, y)
      {
        var w := windows[index];
        ghost var before := windows[..index];
        assert windows[..index + 1] == before + [w];
        if w.live && w.visible && w.zOrder == z && Intersect(w.bounds, dirty) {
          CompositeWindow(w);
        }
        forall y, x | 0 <= y < shadow.Length0 && 0 <= x < shadow.Length1 && InRect(dirty, x, y)
          ensures shadow[y, x] == Over(windows[..index + 1], z, Stack(windows, z - 1, desktop, x, y), x, y)
        {
          OverStep(before, w, z, Stack(windows, z - 1, desktop, x, y), dirty, x, y);
        }
      }
      assert windows[..CAPACITY] == windows;
      forall y, x | 0 <= y < shadow.Length0 && 0 <= x < shadow.Length1 && InRect(dirty, x, y)
        ensures shadow[y, x] == Stack(windows, z, desktop, x, y)
      {
        OverIsStack(windows, z, desktop, x, y);
      }
    }

    /** Copies what the window and the marked rectangle have in common into the shadow. */
    method CompositeWindow(w: Window)
      requires Wired() && w.Valid() && w.live
      modifies shadow
      ensures forall y, x :: 0 <= y < shadow.Length0 && 0 <= x < shadow.Length1 ==>
              shadow[y, x] == if InRect(dirty, x, y) && InRect(w.bounds, x, y) then w.Pixel(x, y) else old(shadow[y, x])
    {
      hide Ordered, AllValid;
      var left, top := Max(Max(w.bounds.x, dirty.x), 0), Max(Max(w.bounds.y, dirty.y), 0);
      var right := Min(Min(w.bounds.x + w.bounds.width, dirty.x + dirty.width), shadow.Length1);
      var bottom := Min(Min(w.bounds.y + w.bounds.height, dirty.y + dirty.height), shadow.Length0);
      if left >= right || top >= bottom {
        return;
      }
      for y := top to bottom
        invariant forall v, u :: 0 <= v < shadow.Length0 && 0 <= u < shadow.Length1 ==>
                  shadow[v, u] == if InRect(dirty, u, v) && InRect(w.bounds, u, v) && v < y then w.Pixel(u, v)
                    else old(shadow[v, u])
      {
        for x := left to right
          invariant forall v, u :: 0 <= v < shadow.Length0 && 0 <= u < shadow.Length1 ==>
                    shadow[v, u] == if InRect(dirty, u, v) && InRect(w.bounds, u, v) && (v < y || (v == y && u < x))
                                    then w.Pixel(u, v) else old(shadow[v, u])
        {
          shadow[y, x] := w.surface.pixels[y - w.bounds.y][x - w.bounds.x];
        }
      }
    }

    method CopyRegion()
      requires Wired() && dirtyValid
      modifies framebuffer
      ensures forall y, x :: 0 <= y < framebuffer.Length0 && 0 <= x < framebuffer.Length1 ==>
              framebuffer[y, x] == if InRect(dirty, x, y) then shadow[y, x] else old(framebuffer[y, x])
    {
      hide Ordered, AllValid;
      for y := dirty.y to dirty.y + dirty.height
        invariant forall v, u :: 0 <= v < framebuffer.Length0 && 0 <= u < framebuffer.Length1 ==>
                  framebuffer[v, u] == if InRect(dirty, u, v) && v < y then shadow[v, u] else old(framebuffer[v, u])
      {
        for x := dirty.x to dirty.x + dirty.width
          invariant forall v, u :: 0 <= v < framebuffer.Length0 && 0 <= u < framebuffer.Length1 ==>
                    framebuffer[v, u] == if InRect(dirty, u, v) && (v < y || (v == y && u < x)) then shadow[v, u]
                                         else old(framebuffer[v, u])
        {
          framebuffer[y, x] := shadow[y, x];
        }
      }
    }

    /** The scene without the pointer, layer by layer, into the marked part of the shadow. */
    method PaintShadow()
      requires Wired() && dirtyValid
      modifies shadow
      ensures forall y, x :: 0 <= y < shadow.Length0 && 0 <= x < shadow.Length1 && InRect(dirty, x, y) ==>
              shadow[y, x] == Stack(windows, windowCount, desktop, x, y)
    {
      hide Stack, Ordered;
      FillRect(shadow, dirty, desktop);
      forall y, x | 0 <= y < shadow.Length0 && 0 <= x < shadow.Length1 && InRect(dirty, x, y)
        ensures shadow[y, x] == Stack(windows, 0, desktop, x, y)
      {
        EmptyStack(windows, desktop, x, y);
      }
      for z := 1 to windowCount + 1
        invariant forall y, x :: 0 <= y < shadow.Length0 && 0 <= x < shadow.Length1 && InRect(dirty, x, y) ==>
                  shadow[y, x] == Stack(windows, z - 1, desktop, x, y)
      {
        CompositeLayer(z);
      }
    }

    /** Repaints the marked part only; afterwards the whole screen is the scene. */
    method Compose() returns (status: Status)
      requires Valid()
      modifies this`dirty, this`dirtyValid, framebuffer, shadow
      ensures Valid() && status == Ok && !dirtyValid && Shown()
    {
      hide Stack, Ordered, TopFocused, PointerCovers;
      if !dirtyValid {
        return Ok;
      }
      PaintShadow();
      CopyRegion();
      if pointerVisible && Intersect(Rect(pointerX, pointerY, POINTER_WIDTH, POINTER_HEIGHT), dirty) {
        DrawPointer(framebuffer, pointerX, pointerY, pointerColor);
      }
      forall y, x | 0 <= y < framebuffer.Length0 && 0 <= x < framebuffer.Length1
        ensures framebuffer[y, x] == SceneAt(x, y)
      {
        if InRect(dirty, x, y) && PointerCovers(pointerX, pointerY, x, y) {
          PointerInBounds(pointerX, pointerY, x, y);
          CommonPixelIntersects(Rect(pointerX, pointerY, POINTER_WIDTH, POINTER_HEIGHT), dirty, x, y);
        }
      }
      dirtyValid, dirty := false, Rect(0, 0, 0, 0);
      status := Ok;
    }

    /** Marks the whole window and composes, for its owner only. */
    method RenderOwned(h: Handle, owner: u32) returns (status: Status)
      requires Valid()
      modifies this`dirty, this`dirtyValid, framebuffer, shadow
      ensures Valid()
      ensures status == (if !Finds(h) then BadHandle
                         else if owner == 0 || windows[h.slot].owner != owner then AccessDenied else Ok)
      ensures status == Ok ==> !dirtyValid && Shown()
    {
      hide Stack, Ordered, TopFocused;
      if !Finds(h) {
        return BadHandle;
      }
      if owner == 0 || windows[h.slot].owner != owner {
        return AccessDenied;
      }
      var w := windows[h.slot];
      status := Invalidate(h, Rect(0, 0, w.surface.width, w.surface.height));
      if !status.Failed() {
        status := Compose();
      }
    }
  }

  lemma NewestFocused(ws: seq<Window>, slot: nat, count: nat)
    requires TopFocused(ws) && Ordered(ws, count) && slot < |ws|
    requires ws[slot].live && ws[slot].visible && ws[slot].zOrder == count
    ensures ws[slot].focused
  {}

  lemma SomeOrder(ws: seq<Window>, count: nat, slot: nat)
    requires Ordered(ws, count) && slot < |ws| && ws[slot].live
    ensures 1 <= ws[slot].zOrder <= count
  {}

  lemma RemovalValid(ws: seq<Window>, slot: nat)
    requires AllValid(ws) && slot < |ws|
    ensures AllValid(Without(ws, slot))
  {}

  lemma RaisedValid(ws: seq<Window>, slot: nat, count: nat)
    requires AllValid(ws) && slot < |ws|
    ensures AllValid(OnTop(ws, slot, count))
  {}

  /** Raising the topmost window changes nothing. */
  lemma AlreadyOnTop(ws: seq<Window>, slot: nat, count: nat)
    requires Ordered(ws, count) && slot < |ws| && ws[slot].live
    ensures ws[slot].zOrder == count ==> OnTop(ws, slot, count) == ws
  {}

  lemma SameFocusFields(ws: seq<Window>, slot: nat, w: Window)
    requires TopFocused(ws) && slot < |ws|
    requires w.live == ws[slot].live && w.visible == ws[slot].visible && w.zOrder == ws[slot].zOrder
    requires w.focused == ws[slot].focused
    ensures TopFocused(ws[slot := w])
  {
    var after := ws[slot := w];
    assert forall j :: 0 <= j < |ws| ==>
      after[j].live == ws[j].live && after[j].visible == ws[j].visible && after[j].zOrder == ws[j].zOrder
      && after[j].focused == ws[j].focused;
  }

  function Clamp32(v: int): int {
    if v > MAX_EXTENT then MAX_EXTENT else if v < -MAX_EXTENT - 1 then -MAX_EXTENT - 1 else v
  }

  /** The pixel shows a visible window's own coordinates inside `part`. */
  predicate InPart(w: Window, part: Rect, x: int, y: int) {
    w.visible && InRect(w.bounds, x, y) && InRect(part, x - w.bounds.x, y - w.bounds.y)
  }

  lemma InvisibleHasNoPart(w: Window, part: Rect)
    ensures !w.visible ==> forall x, y :: !InPart(w, part, x, y)
  {}

  /** The part of the window's surface that a request names. */
  function OwnPart(w: Window, part: Rect): Rect {
    var left, top := Max(part.x, 0), Max(part.y, 0);
    var right, bottom := Min(part.x + part.width, w.surface.width), Min(part.y + part.height, w.surface.height);
    Rect(left, top, right - left, bottom - top)
  }

  /** The marked rectangle covers what shows of the part, also where the translation saturates. */
  lemma PartIsCovered(w: Window, part: Rect, x: int, y: int)
    requires w.Valid() && w.live && 0 <= x < MAX_EXTENT && 0 <= y < MAX_EXTENT && InPart(w, part, x, y)
    ensures var own := OwnPart(w, part);
      && own.width > 0 && own.height > 0
      && InRect(Rect(Clamp32(own.x + w.bounds.x), Clamp32(own.y + w.bounds.y), own.width, own.height), x, y)
  {}

  lemma AllCovered(w: Window, part: Rect)
    requires w.Valid() && w.live
    ensures var own := OwnPart(w, part);
      forall x, y :: 0 <= x < MAX_EXTENT && 0 <= y < MAX_EXTENT && InPart(w, part, x, y) ==>
        && own.width > 0 && own.height > 0
        && InRect(Rect(Clamp32(own.x + w.bounds.x), Clamp32(own.y + w.bounds.y), own.width, own.height), x, y)
  {
    var own := OwnPart(w, part);
    forall x, y | 0 <= x < MAX_EXTENT && 0 <= y < MAX_EXTENT && InPart(w, part, x, y)
      ensures own.width > 0 && own.height > 0
      ensures InRect(Rect(Clamp32(own.x + w.bounds.x), Clamp32(own.y + w.bounds.y), own.width, own.height), x, y)
    {
      PartIsCovered(w, part, x, y);
    }
  }

  /** Two contents of a surface that differ only inside `part`. */
  predicate DrawnWithin(before: Surface, after: Surface, part: Rect) {
    && before.Valid() && after.Valid() && before.width == after.width && before.height == after.height
    && forall y, x :: 0 <= y < before.height && 0 <= x < before.width && !InRect(part, x, y) ==>
         after.pixels[y][x] == before.pixels[y][x]
  }

  lemma DrawnElsewhere(w: Window, surface: Surface, part: Rect, x: int, y: int)
    requires w.Valid() && w.live && DrawnWithin(w.surface, surface, part)
    requires !InPart(w, part, x, y)
    ensures forall z :: Alike(w.(surface := surface), z, w, z, x, y)
  {}

  // ----- layer by layer -----------------------------------------------------------------------------

  /** What a pixel shows after layer `z` of these windows was drawn over `under`. */
  function Over(ws: seq<Window>, z: nat, under: Color, x: int, y: int): Color
    requires AllValid(ws)
  {
    match Layer(ws, z, x, y)
    case Some(c) => c
    case None => under
  }

  lemma OverNothing(ws: seq<Window>, z: nat, under: Color, x: int, y: int)
    requires ws == []
    ensures Over(ws, z, under, x, y) == under
  {}

  lemma OverStep(ws: seq<Window>, w: Window, z: nat, under: Color, dirty: Rect, x: int, y: int)
    requires AllValid(ws) && w.Valid() && InRect(dirty, x, y)
    ensures AllValid(ws + [w])
    ensures Over(ws + [w], z, under, x, y) ==
            if w.live && w.visible && w.zOrder == z && Intersect(w.bounds, dirty) && InRect(w.bounds, x, y)
            then w.Pixel(x, y) else Over(ws, z, under, x, y)
  {
    var all := ws + [w];
    assert all[..|all| - 1] == ws && all[|all| - 1] == w;
  }

  lemma OverIsStack(ws: seq<Window>, z: nat, desktop: Color, x: int, y: int)
    requires AllValid(ws) && z >= 1
    ensures Over(ws, z, Stack(ws, z - 1, desktop, x, y), x, y) == Stack(ws, z, desktop, x, y)
  {}

  lemma EmptyStack(ws: seq<Window>, desktop: Color, x: int, y: int)
    requires AllValid(ws)
    ensures Stack(ws, 0, desktop, x, y) == desktop
  {}
}

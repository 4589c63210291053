/**
 * The shadow layer of a key element: on keydown a copy of the key's `rect`,
 * tagged with the shadow class, is appended to the key's group; on keyup the
 * first child with the shadow class is removed.
 */
module Shadow {

  /**
   * The children of one key group: how many there are (`childElementCount`)
   * and how many of them carry the shadow class.
   */
  datatype Shape = Shape(children: nat, shadows: nat)

  /** The key's own `rect` is never a shadow, and there is at most one shadow. */
  predicate WellShaped(s: Shape) {
    s.shadows < s.children && s.shadows <= 1
  }

  datatype Option<T> = None | Some(value: T)

  /**
   * `copyRect`: a clone of the rect, with the shadow class, becomes one more
   * child. On a well-shaped group without a shadow the result is well-shaped
   * and has exactly one shadow.
   */
  function Copied(s: Shape): (r: Shape)
    ensures WellShaped(s) && s.shadows == 0 ==> WellShaped(r) && r.shadows == 1
  {
    Shape(s.children + 1, s.shadows + 1)
  }

  /**
   * `deleteRect`: removes the first shadow child; with none, `querySelector`
   * yields null and `removeChild(null)` throws, which is `None`. A
   * successful removal undoes a `copyRect`.
   */
  function Deleted(s: Shape): (r: Option<Shape>)
    requires s.shadows <= s.children  // shadow rects are children of the group
    ensures r.None? <==> s.shadows == 0
    ensures r.Some? ==> r.value.shadows <= r.value.children && Copied(r.value) == s
  {
    if s.shadows == 0 then None else Some(Shape(s.children - 1, s.shadows - 1))
  }

  /** Keydown on an active key: copy the rect only while the group has fewer than two children. */
  function Pressed(s: Shape): (r: Shape)
    ensures WellShaped(s) ==> WellShaped(r)
    ensures WellShaped(s) && s.children == 1 ==> r.shadows == 1
    ensures s.children >= 2 ==> r == s
  {
    if s.children < 2 then Copied(s) else s
  }

  /** `deleteRect` after `copyRect` gives the group back as it was. */
  lemma CopyThenDelete(s: Shape)
    requires s.shadows <= s.children
    ensures Deleted(Copied(s)) == Some(s)
  {
  }

  /** Repeated keydowns leave at most one shadow: a second press changes nothing. */
  lemma PressIdempotent(s: Shape)
    requires WellShaped(s)
    ensures Pressed(Pressed(s)) == Pressed(s)
  {
  }

  /** Keyup after keydown restores a plain key (one child, no shadow). */
  lemma PressThenRelease(s: Shape)
    requires WellShaped(s) && s.children == 1
    ensures Deleted(Pressed(s)) == Some(s)
  {
    assert Pressed(s) == Copied(s);
    CopyThenDelete(s);
  }

  /**
   * A key group that already has two children of its own never gets a
   * shadow, so keyup on it always fails.
   */
  lemma WideKeyReleaseFails(s: Shape)
    requires s.children >= 2 && s.shadows == 0
    ensures Deleted(Pressed(s)).None?
  {
  }

  /** Keyup preserves well-shapedness and leaves no shadow. */
  lemma ReleaseClears(s: Shape)
    requires WellShaped(s) && Deleted(s).Some?
    ensures WellShaped(Deleted(s).value) && Deleted(s).value.shadows == 0
  {
  }
}

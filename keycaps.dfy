/**
 * The keycap editor: the global state of `public/main.js` with the SVG
 * document abstracted to maps keyed by key id. The class holds
 *   - the active-key list `codeList` and the colour table `keyColorData`;
 *   - per key element: the fill of its first rect (`fill`), its children
 *     (`shape`), whether it carries the selected class (`highlighted`) and
 *     whether it has an `onclick` handler (`onclick`);
 *   - the selection array `selectedKeys`;
 *   - the visibility of the edit dialog (`editVisible`) and the class of the
 *     svg element (`svgClass`).
 */
module Keycaps {
  import opened Selection
  import opened Colors
  import opened Shadow

  /** The two classes the svg element takes. */
  datatype SvgClass = NormalKeys | EditingModeKeys

  class Editor {
    const codeList: map<KeyId, bool>
    var keyColorData: map<KeyId, Colour>
    var fill: map<KeyId, Colour>
    var shape: map<KeyId, Shape>
    var highlighted: set<KeyId>
    var onclick: set<KeyId>
    var selectedKeys: seq<KeyId>
    var editVisible: bool
    var svgClass: SvgClass

    /**
     * The data invariant: the loaded assets are consistent and the selection
     * is mirrored by the selected class.
     */
    ghost predicate Valid()
      reads this`fill, this`keyColorData, this`shape, this`selectedKeys, this`highlighted
    {
      AssetsAgree() && SelectionMirrored()
    }

    /**
     * Every active key has an element in the diagram and a colour record, and
     * every element has its rect and at most one shadow.
     */
    ghost predicate AssetsAgree()
      reads this`fill, this`keyColorData, this`shape
    {
      && Active(codeList) <= fill.Keys
      && Active(codeList) <= keyColorData.Keys
      && shape.Keys == fill.Keys
      && (forall k :: k in shape ==> WellShaped(shape[k]))
    }

    /**
     * The selection holds diagram elements without duplicates, and the
     * selected class is carried by exactly the selected keys.
     */
    ghost predicate SelectionMirrored()
      reads this`fill, this`selectedKeys, this`highlighted
    {
      && Elems(selectedKeys) <= fill.Keys
      && NoDups(selectedKeys)
      && highlighted == Elems(selectedKeys)
    }

    /**
     * The mode invariant: in edit mode the svg has the editing class and
     * every active key a click handler; otherwise the normal class and no
     * handler at all. Keys are selected by clicking, so only keys with a
     * handler are selected, and nothing is selected outside edit mode.
     */
    ghost predicate ModeAgrees()
      reads this`svgClass, this`editVisible, this`onclick, this`selectedKeys
    {
      && svgClass == (if editVisible then EditingModeKeys else NormalKeys)
      && onclick == (if editVisible then Active(codeList) else {})
      && Elems(selectedKeys) <= onclick
    }

    /** Outside edit mode the selection array is empty. */
    lemma IdleHasNoSelection()
      requires ModeAgrees() && !editVisible
      ensures selectedKeys == []
    {
      ElemsEmpty(selectedKeys);
    }

    /**
     * `init` once the svg, the key list and the colour table are loaded:
     * normal class, edit dialog hidden, nothing selected, no shadows, and
     * every active key shows its stored colour.
     */
    constructor Init(codes: map<KeyId, bool>, colors: map<KeyId, Colour>, fills: map<KeyId, Colour>, children: map<KeyId, nat>)
      requires Active(codes) <= fills.Keys && Active(codes) <= colors.Keys
      requires children.Keys == fills.Keys
      requires forall k :: k in children ==> children[k] >= 1
      ensures Valid() && ModeAgrees()
      ensures codeList == codes && keyColorData == colors
      ensures fill == Overlay(fills, Active(codes), colors)
      ensures shape == map k | k in children :: Shape(children[k], 0)
      ensures selectedKeys == [] && highlighted == {} && onclick == {}
      ensures !editVisible && svgClass == NormalKeys
    {
      codeList := codes;
      keyColorData := colors;
      fill := fills;
      shape := map k | k in children :: Shape(children[k], 0);
      highlighted := {};
      onclick := {};
      selectedKeys := [];
      editVisible := false;
      svgClass := NormalKeys;
      new;
      ResetColor();
    }

    /** `changeColor`: the key's rect takes the new fill; no other key changes. */
    method ChangeColor(key: KeyId, hex: Colour)
      requires key in fill
      modifies this`fill
      ensures fill == old(fill)[key := hex]
    {
      fill := fill[key := hex];
    }

    /** `resetColor`: every active key shows its stored colour; other fills are kept. */
    method ResetColor()
      requires Valid()
      modifies this`fill
      ensures Valid()
      ensures fill == Overlay(old(fill), Active(codeList), keyColorData)
    {
      var todo := codeList.Keys;
      ghost var done: set<KeyId> := {};
      while todo != {}
        invariant todo <= codeList.Keys
        invariant done == Active(codeList) - todo
        invariant fill == Overlay(old(fill), done, keyColorData)
        decreases todo
      {
        var key :| key in todo;
        todo := todo - {key};
        if codeList[key] {
          OverlayStep(old(fill), done, key, keyColorData);
          ChangeColor(key, keyColorData[key]);
          done := done + {key};
        }
      }
      assert done == Active(codeList);
    }

    /** `saveColor`: every active key's colour record takes its current fill; other records are kept. */
    method SaveColor()
      requires Valid()
      modifies this`keyColorData
      ensures Valid()
      ensures keyColorData == Overlay(old(keyColorData), Active(codeList), fill)
    {
      var todo := codeList.Keys;
      ghost var done: set<KeyId> := {};
      while todo != {}
        invariant todo <= codeList.Keys
        invariant done == Active(codeList) - todo
        invariant keyColorData == Overlay(old(keyColorData), done, fill)
        decreases todo
      {
        var key :| key in todo;
        todo := todo - {key};
        if codeList[key] {
          OverlayStep(old(keyColorData), done, key, fill);
          keyColorData := keyColorData[key := fill[key]];
          done := done + {key};
        }
      }
      assert done == Active(codeList);
    }

    /** The `color:change` handler: every selected key shows `hex`; no other key changes. */
    method OnColorChange(hex: Colour)
      requires Valid()
      modifies this`fill
      ensures Valid()
      ensures fill == Painted(old(fill), Elems(selectedKeys), hex)
    {
      for i := 0 to |selectedKeys|
        invariant fill == Painted(old(fill), Elems(selectedKeys[..i]), hex)
      {
        assert Elems(selectedKeys[..i + 1]) == Elems(selectedKeys[..i]) + {selectedKeys[i]} by {
          assert selectedKeys[..i + 1] == selectedKeys[..i] + [selectedKeys[i]];
        }
        PaintStep(old(fill), Elems(selectedKeys[..i]), selectedKeys[i], hex);
        ChangeColor(selectedKeys[i], hex);
      }
      assert selectedKeys[..|selectedKeys|] == selectedKeys;
    }

    /**
     * `selectItem`: selecting appends an unselected key and gives it the
     * selected class; deselecting splices a selected key out and drops the
     * class; otherwise nothing changes.
     */
    method SelectItem(elem: KeyId, want: bool)
      requires SelectionMirrored() && elem in fill
      modifies this`selectedKeys, this`highlighted
      ensures SelectionMirrored()
      ensures selectedKeys == Selected(old(selectedKeys), elem, want)
      ensures elem in selectedKeys <==> want
      ensures forall k :: k != elem ==> (k in selectedKeys <==> k in old(selectedKeys))
    {
      if !want && elem in selectedKeys {
        selectedKeys := RemoveFirst(selectedKeys, elem);
        highlighted := highlighted - {elem};
      } else if want && elem !in selectedKeys {
        selectedKeys := selectedKeys + [elem];
        highlighted := highlighted + {elem};
      }
    }

    /**
     * `runonclick`, reached through the `onclick` attribute of a key: the
     * clicked key's membership flips; no other key's membership changes.
     */
    method RunOnClick(elem: KeyId)
      requires Valid() && ModeAgrees() && elem in onclick
      modifies this`selectedKeys, this`highlighted
      ensures Valid() && ModeAgrees()
      ensures selectedKeys == Selected(old(selectedKeys), elem, elem !in old(selectedKeys))
      ensures elem in selectedKeys <==> elem !in old(selectedKeys)
      ensures forall k :: k != elem ==> (k in selectedKeys <==> k in old(selectedKeys))
    {
      if elem in selectedKeys {
        SelectItem(elem, false);
      } else {
        SelectItem(elem, true);
      }
    }

    /**
     * `selectAll`: selecting appends every unselected active key after the
     * keys already selected; deselecting removes every active key and keeps
     * the others in their order. Inactive keys are never touched.
     */
    method SelectAll(want: bool)
      requires Valid()
      modifies this`selectedKeys, this`highlighted
      ensures Valid()
      ensures want ==> |old(selectedKeys)| <= |selectedKeys| && selectedKeys[..|old(selectedKeys)|] == old(selectedKeys)
      ensures want ==> Elems(selectedKeys) == Elems(old(selectedKeys)) + Active(codeList)
      ensures !want ==> selectedKeys == Without(old(selectedKeys), Active(codeList))
      ensures old(ModeAgrees()) && (editVisible || !want) ==> ModeAgrees()
    {
      var s0 := selectedKeys;
      var todo := codeList.Keys;
      ghost var done: set<KeyId> := {};
      WithoutDisjoint(s0, {});
      while todo != {}
        invariant todo <= codeList.Keys
        invariant done == Active(codeList) - todo
        invariant SelectionMirrored()
        invariant want ==> |s0| <= |selectedKeys| && selectedKeys[..|s0|] == s0
        invariant want ==> Elems(selectedKeys) == Elems(s0) + done
        invariant !want ==> selectedKeys == Without(s0, done)
        decreases todo
      {
        var key :| key in todo;
        todo := todo - {key};
        if codeList[key] {
          if want {
            AppendStep(s0, selectedKeys, key);
          } else {
            WithoutStep(s0, done, key);
          }
          SelectItem(key, want);
          done := done + {key};
        }
      }
      assert done == Active(codeList);
    }

    /** `addKeyListeners`: every active key gets a click handler. */
    method AddKeyListeners()
      requires Valid()
      modifies this`onclick
      ensures onclick == old(onclick) + Active(codeList)
    {
      var todo := codeList.Keys;
      ghost var done: set<KeyId> := {};
      while todo != {}
        invariant todo <= codeList.Keys
        invariant done == Active(codeList) - todo
        invariant onclick == old(onclick) + done
        decreases todo
      {
        var key :| key in todo;
        todo := todo - {key};
        if codeList[key] {
          onclick := onclick + {key};
          done := done + {key};
        }
      }
      assert done == Active(codeList);
    }

    /** `removeKeyListeners`: no active key keeps a click handler. */
    method RemoveKeyListeners()
      requires Valid()
      modifies this`onclick
      ensures onclick == old(onclick) - Active(codeList)
    {
      var todo := codeList.Keys;
      ghost var done: set<KeyId> := {};
      while todo != {}
        invariant todo <= codeList.Keys
        invariant done == Active(codeList) - todo
        invariant onclick == old(onclick) - done
        decreases todo
      {
        var key :| key in todo;
        todo := todo - {key};
        if codeList[key] {
          onclick := onclick - {key};
          done := done + {key};
        }
      }
      assert done == Active(codeList);
    }

    /** `copyRect`: the key group gains a shadow copy of its rect. */
    method CopyRect(key: KeyId)
      requires key in shape
      modifies this`shape
      ensures shape == old(shape)[key := Copied(old(shape)[key])]
    {
      shape := shape[key := Copied(shape[key])];
    }

    /**
     * `deleteRect`: the key group loses its shadow; with no shadow the
     * removal throws (`ok` is false) and nothing changes.
     */
    method DeleteRect(key: KeyId) returns (ok: bool)
      requires key in shape && shape[key].shadows <= shape[key].children
      modifies this`shape
      ensures ok <==> old(shape)[key].shadows > 0
      ensures shape == if ok then old(shape)[key := Deleted(old(shape)[key]).value] else old(shape)
    {
      var r := Deleted(shape[key]);
      ok := r.Some?;
      if ok {
        shape := shape[key := r.value];
      }
    }

    /**
     * `toggleShadow` for a keydown (`down`) or keyup on key `code`: unknown
     * and inactive codes change nothing; keydown adds a shadow only to a
     * group with fewer than two children; keyup removes the shadow and fails
     * when there is none. The edit mode is not consulted.
     */
    method ToggleShadow(code: KeyId, down: bool) returns (ok: bool)
      requires Valid()
      modifies this`shape
      ensures Valid()
      ensures ok <==> !(code in Active(codeList) && !down && old(shape)[code].shadows == 0)
      ensures code !in Active(codeList) ==> shape == old(shape)
      ensures code in Active(codeList) && down ==> shape == old(shape)[code := Pressed(old(shape)[code])]
      ensures code in Active(codeList) && !down && ok ==> shape == old(shape)[code := Deleted(old(shape)[code]).value]
      ensures !ok ==> shape == old(shape)
    {
      ok := true;
      if code !in codeList || !codeList[code] {
        return;
      }
      var before := shape[code];
      if down && before.children < 2 {
        assert Pressed(before) == Copied(before) && WellShaped(Copied(before));
        CopyRect(code);
        assert forall k :: k in shape ==> WellShaped(shape[k]);
      } else if down {
        assert shape == shape[code := Pressed(before)];
      } else {
        ok := DeleteRect(code);
        if ok {
          ReleaseClears(before);
          assert forall k :: k in shape ==> WellShaped(shape[k]);
        }
      }
    }

    /**
     * `displayEdit`: flips the edit dialog. Entering edit mode switches the
     * svg to the editing class and gives every active key a click handler.
     * Leaving it switches back to the normal class, removes the handlers,
     * deselects every active key and restores every active key's stored
     * colour, discarding unsaved colour changes.
     */
    method DisplayEdit()
      requires Valid() && ModeAgrees()
      modifies this`editVisible, this`svgClass, this`onclick, this`selectedKeys, this`highlighted, this`fill
      ensures Valid() && ModeAgrees()
      ensures editVisible == !old(editVisible)
      ensures svgClass == (if old(editVisible) then NormalKeys else EditingModeKeys)
      ensures onclick == (if old(editVisible) then {} else Active(codeList))
      ensures !old(editVisible) ==> selectedKeys == old(selectedKeys) && fill == old(fill)
      ensures old(editVisible) ==> selectedKeys == Without(old(selectedKeys), Active(codeList))
      ensures old(editVisible) ==> fill == Overlay(old(fill), Active(codeList), keyColorData)
      ensures old(editVisible) ==> selectedKeys == [] && highlighted == {}
    {
      var visible := editVisible;
      if visible {
        svgClass := NormalKeys;
        RemoveKeyListeners();
        assert onclick == {};
        SelectAll(false);
        ResetColor();
        WithoutAll(old(selectedKeys), Active(codeList));
      } else {
        svgClass := EditingModeKeys;
        AddKeyListeners();
        assert onclick == Active(codeList);
      }
      editVisible := !visible;
    }
  }

  /** At start-up every active key shows its stored colour; inactive keys keep theirs. */
  method StartupScenario() {
    var codes := map["KeyA" := true, "KeyC" := false];
    var colors := map["KeyA" := "#00ff00"];
    var fills := map["KeyA" := "#000000", "KeyC" := "#000000"];
    var children := map["KeyA" := 1, "KeyC" := 1];
    assert Active(codes) == {"KeyA"};
    var e := new Editor.Init(codes, colors, fills, children);
    assert e.fill["KeyA"] == "#00ff00" && e.fill["KeyC"] == "#000000";
  }

  /**
   * An edit session on two active keys: one colour-change event reaches
   * both selected keys at once.
   */
  method RecolourScenario(e: Editor, a: KeyId, b: KeyId, hex: Colour)
    requires e.Valid() && e.ModeAgrees() && !e.editVisible
    requires a != b && a in Active(e.codeList) && b in Active(e.codeList)
    modifies e
  {
    e.IdleHasNoSelection();
    e.DisplayEdit();
    assert e.selectedKeys == [] && e.editVisible;
    e.RunOnClick(a);
    e.RunOnClick(b);
    assert Elems(e.selectedKeys) == {a, b};
    e.OnColorChange(hex);
    assert e.fill[a] == hex && e.fill[b] == hex;
  }

  /**
   * Leaving edit mode without saving: whatever was painted, the selection
   * ends empty and every active key shows its stored colour again.
   */
  method UnsavedEditScenario(e: Editor, hex: Colour)
    requires e.Valid() && e.ModeAgrees() && e.editVisible
    modifies e
  {
    e.OnColorChange(hex);
    e.DisplayEdit();
    assert e.selectedKeys == [] && !e.editVisible && e.onclick == {};
    assert forall k :: k in Active(e.codeList) ==> e.fill[k] == e.keyColorData[k];
  }
}

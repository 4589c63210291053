# Keycap editor: a Dafny model

This project models the editor logic of a browser keycap colour customizer (`public/main.js`). The page shows an SVG keyboard. Each key is a group element whose id is the key code and whose first `rect` carries the key's colour. The script keeps the following global state:

- `codeList`: which key codes are active.
- `keyColorData`: the stored colour of each key.
- `selectedKeys`: an array with set semantics.
- The visibility of the `#edit` dialog, which serves as the edit-mode flag.

Physical keydown and keyup events add and remove a "shadow" copy of a key's rect. In edit mode, clicking a key toggles its selection. A colour-picker change recolours every selected key. `saveColor` commits the rendered colours to the colour table. `resetColor` brings the stored colours back. Leaving edit mode deselects every key and restores the stored colours.

The model uses four modules:

- `Selection` (`selection.dfy`): the selection array as a `seq` of key ids. It covers `indexOf`, `splice(i, 1)`, the effect of `selectItem`, and the filter that `selectAll(false)` amounts to.
- `Colors` (`colors.dfy`): colours as opaque strings. `Overlay` gives both the fills after `resetColor` and the colour table after `saveColor`. `Painted` gives the fills after a colour-change event. The round-trip lemmas are stated over these functions.
- `Shadow` (`shadow.dfy`): a key group's children as a `Shape`, holding the child count and the number of shadow rects. It covers `copyRect`, `deleteRect` (which can fail) and the keydown guard.
- `Keycaps` (`keycaps.dfy`): the class `Editor`, holding the global state as fields. The DOM is reduced to maps and sets keyed by key id: `fill`, `shape`, `highlighted` (keys carrying `selectedClass`), `onclick` (keys with a click handler), `editVisible` and `svgClass`. Each function of the script becomes a method with a field-level `modifies` frame. The `for (key in codeList)` loops become `while` loops over `codeList.Keys`. Two predicates hold the invariants:
  - `Valid()`: the data invariant. It combines `AssetsAgree()` and `SelectionMirrored()`:
    - `AssetsAgree()`: the loaded data are consistent, and every key has at most one shadow.
    - `SelectionMirrored()`: the selection has no duplicates, and the selected class marks exactly the selected keys.
  - `ModeAgrees()`: the svg class and the click handlers match the edit flag, and only keys with a click handler are selected. Clicks select keys, and so does `selectAll(true)` when called in edit mode. So nothing is selected outside edit mode (`IdleHasNoSelection`).

  Three client methods check usage scenarios against the methods' contracts: `StartupScenario`, `RecolourScenario` (one colour change reaches two selected keys) and `UnsavedEditScenario`.

Three behaviours of the script that the model keeps:

- `toggleShadow` never consults the edit mode. Shadows are added and removed in edit mode too.
- A keyup on a key without a shadow is not a no-op. `deleteRect` calls `removeChild(null)`, which throws. `DeleteRect` and `ToggleShadow` return `ok == false` in that case and leave the state unchanged.
- Leaving edit mode deselects only active keys, because it is `selectAll(false)`. The selection still always ends up empty. `runonclick` is reached only through the `onclick` attribute, and `addKeyListeners` sets that attribute on active keys alone. `RunOnClick` therefore requires a key with a handler, and `ModeAgrees()` carries the fact that every selected key has one.

## Model

| member | source | states |
|---|---|---|
| `Selection.IndexOf` | public/main.js:142 | `indexOf`: the result is -1 exactly when the element is absent; otherwise it is a position holding the element with no earlier occurrence |
| `Selection.RemoveFirst` | public/main.js:141-143 | `splice(indexOf(x), 1)`: the list loses exactly one occurrence of `x` (its multiset drops one `x`); on a duplicate-free list, `x` is gone, no duplicates appear and the other elements stay |
| `Selection.Selected` | public/main.js:140-150 | the list after `selectItem(elem, want)`: no duplicates are created; afterwards `elem` is a member exactly when `want`, and every other element keeps its membership; selecting keeps the old list as a prefix |
| `Selection.Without` | public/main.js:130-137 | filtering out a key set keeps exactly the elements not in it, creates no duplicates and never lengthens the list |
| `Selection.SelectedIdempotent` | public/main.js:140-150 | `selectItem` twice with the same arguments equals once |
| `Selection.DeselectIsFilter` | public/main.js:140-144 | on a duplicate-free list, deselecting equals filtering out that one element, so the others keep their order |
| `Selection.WithoutDisjoint` | public/main.js:130-137 | filtering out keys that do not occur leaves the list unchanged |
| `Selection.WithoutWithout` | public/main.js:130-137 | filtering by one key set and then another equals filtering by their union |
| `Selection.WithoutStep` | public/main.js:130-137 | one more `selectItem(key, false)` in the `selectAll(false)` loop equals filtering by one more key |
| `Selection.AppendStep` | public/main.js:130-137 | one more `selectItem(key, true)` in the `selectAll(true)` loop keeps the earlier prefix and adds exactly `key` to the elements |
| `Selection.WithoutAll` | public/main.js:113 | deselecting every element of the selection leaves it empty |
| `Selection.RemoveAt` | public/main.js:142 | dropping a position of a duplicate-free list yields a duplicate-free list without that element and with all the others |
| `Selection.RemoveFirstCons` | public/main.js:142 | removing an element that is not at the head keeps the head |
| `Colors.Overlay` | public/main.js:60-75 | the effect of both `resetColor` (fills overlaid from the colour table) and `saveColor` (colour table overlaid from the fills) keeps the key set of the map it updates |
| `Colors.Painted` | public/main.js:185-189 | the fills after a colour-change event are defined on exactly the diagram's keys |
| `Colors.OverlayRoundTrip` | public/main.js:55-75 | `saveColor` followed by `resetColor` leaves every fill unchanged; with the roles swapped, `resetColor` followed by `saveColor` leaves every stored colour unchanged |
| `Colors.RestoreIdempotent` | public/main.js:60-66 | `resetColor` twice equals once |
| `Colors.RestoreDiscardsPaint` | public/main.js:113 | after colour changes on restored keys, `resetColor` yields the same fills as if the changes never happened |
| `Colors.OverlayStep` | public/main.js:61-64 | handling one more active key in the `resetColor` or `saveColor` loop is a single-key update |
| `Colors.PaintStep` | public/main.js:186-188 | painting one more selected key is a single-key fill update |
| `Shadow.Copied` | public/main.js:95-99 | `copyRect` on a group with its rect and no shadow gives a group with its rect and exactly one shadow |
| `Shadow.Deleted` | public/main.js:102-106 | `deleteRect` fails exactly when there is no shadow; a successful removal is the inverse of `copyRect`: copying the rect back yields the original group |
| `Shadow.CopyThenDelete` | public/main.js:95-106 | `deleteRect` after `copyRect` succeeds and gives the group back as it was |
| `Shadow.Pressed` | public/main.js:85-87 | a keydown keeps "rect plus at most one shadow"; a plain one-rect key gains exactly one shadow; a group with two or more children is left as it is |
| `Shadow.PressIdempotent` | public/main.js:85-87 | repeated keydowns leave the same single shadow as one keydown |
| `Shadow.PressThenRelease` | public/main.js:85-91 | keyup after keydown gives a plain key back its original shape |
| `Shadow.WideKeyReleaseFails` | public/main.js:85-91 | a key group with two children of its own gets no shadow on keydown, so its keyup fails |
| `Shadow.ReleaseClears` | public/main.js:89-91 | a successful keyup leaves a well-shaped key with no shadow |
| `Keycaps.Editor.Init` | public/main.js:31-37 | after `init` with loaded data: normal svg class, edit dialog hidden, nothing selected, no handlers or shadows, and every active key shows its stored colour |
| `Keycaps.Editor.ChangeColor` | public/main.js:55-57 | only the given key's fill changes, to the new colour |
| `Keycaps.Editor.ResetColor` | public/main.js:60-66 | every active key's fill equals its stored colour; inactive and unlisted keys keep their fills |
| `Keycaps.Editor.SaveColor` | public/main.js:69-75 | every active key's stored colour equals its current fill; other records are kept |
| `Keycaps.Editor.OnColorChange` | public/main.js:185-189 | every selected key's fill becomes the new hex string; no other key changes |
| `Keycaps.Editor.SelectItem` | public/main.js:140-150 | the selection becomes `Selected(old, elem, want)`: `elem` is a member exactly when `want`, and no other key's membership changes; `SelectionMirrored` (no duplicates, selected class equals membership) is kept |
| `Keycaps.Editor.RunOnClick` | public/main.js:118-127 | a click on a key with a handler flips that key's membership and no other key's; the data and mode invariants are kept, so only keys with a handler are ever selected |
| `Keycaps.Editor.SelectAll` | public/main.js:130-137 | `selectAll(true)`: earlier selections keep their order and the selected set becomes old ∪ active keys, each key once; `selectAll(false)`: the selection is the old one with every active key filtered out, in order; inactive keys are not touched; the mode invariant is kept by deselecting, and by selecting in edit mode |
| `Keycaps.Editor.IdleHasNoSelection` | public/main.js:109-127 | while the edit dialog is hidden, the selection array is empty: keys are selected only through click handlers, which exist only in edit mode |
| `Keycaps.Editor.AddKeyListeners` | public/main.js:153-160 | every active key gains a click handler; no other key changes |
| `Keycaps.Editor.RemoveKeyListeners` | public/main.js:163-170 | every active key loses its click handler; no other key changes |
| `Keycaps.Editor.CopyRect` | public/main.js:95-99 | the key group's shape becomes `Copied` of the old one; nothing else changes |
| `Keycaps.Editor.DeleteRect` | public/main.js:102-106 | fails, changing nothing, exactly when there is no shadow; otherwise the shadow is removed |
| `Keycaps.Editor.ToggleShadow` | public/main.js:78-92 | unknown or inactive codes change nothing; keydown applies the fewer-than-two-children guard; keyup removes the shadow or fails exactly when there is none; at most one shadow per key is kept; the edit flag is neither read nor changed |
| `Keycaps.Editor.DisplayEdit` | public/main.js:109-115 | flips the edit flag. Entering: editing class, handlers on every active key, selection and fills unchanged. Leaving: normal class, no handlers, active keys filtered out of the selection, which is always left empty with no key highlighted, active fills restored to their stored colours |

## Left out

- Asset loading (`init`'s fetches, `getSVG` and `getJSON`): network I/O. The key list, the colour table, the initial fills and the child counts are parameters of `Editor.Init`. `Init` requires these data to be consistent: every active key has a diagram element and a colour record, and every diagram element, active or not, has at least one child (its rect). The script would throw on inconsistent data, and the model does not capture that.
- The `iro.ColorPicker` widget: third-party code. Only its `color:change` event is modelled, as the hex string passed to `OnColorChange`.
- Listener registration and `event.preventDefault()`: event plumbing. Keydown and keyup are calls to `ToggleShadow(code, true/false)`.
- The DOM: `getElementById`, `querySelector`, `cloneNode`, attribute strings and CSS class names are abstracted into maps and sets keyed by key id. The attributes of the cloned shadow rect (its fill is the fill at the moment of cloning) are not modelled, because no operation reads them. An element is identified by its id, so two elements with one id cannot be told apart.
- Loose equality (`codeList[key] == true` on values that are not booleans): `codeList` is a `map<KeyId, bool>`.
- The order of `for (key in codeList)`: the loops pick keys in an unspecified order. Every result is independent of that order except the order in which `selectAll(true)` appends new keys.
- `Keycaps.Editor.SelectAll`: it states the appended keys as a set after the old prefix, not in their exact order, because that order is the object's property order, which the model does not represent.
- Calls to `selectItem` and `changeColor` with an element that is not in the diagram: `selectItem` would push `null` before it throws. The model requires a diagram element. `runonclick` is called only by a key's `onclick` attribute, so `RunOnClick` requires a key that has a handler.
- `selectAll(true)` has no caller in the script. `SelectAll(true)` is assumed to run only while the edit dialog is visible. Called with the dialog hidden, it selects keys without handlers, and the mode invariant `ModeAgrees()` no longer holds.
- The implicit globals `key`, `elem`, `element` and `rect`: no two loops that share them are nested, so they do not interact, and the model uses locals.

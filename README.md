# Tile3D scene editor: multi-selection and face-plane basis

This project models two pieces of logic from the Unity scene editor of
Tile3D (`Tile3DEditor`). It proves properties of both.

1. **The multi-selection click policy of the building mode.** A
   `MultiSelection` holds a list of selected cells (`Tiles`) and one shared
   face direction (`Face`). On each building-mode tick the editor computes
   a hover, an optional (cell, face) pair under the pointer. A left click
   on the hover does one of three things:
   - it removes the cell, if the cell is already selected under the same face;
   - it appends the cell, if the selection is empty or its face is the hovered face;
   - otherwise it clears the list and starts over with the hovered cell and face.
2. **`GetPerpendiculars`.** For a face normal it picks a reference "up":
   world up, or world right when the normal has a vertical component. It
   then returns two cross products that span the face plane.

Layout:
- `geometry.dfy` (module `Geometry`) has integer vectors, `Cross` (Unity's
  `Vector3.Cross`), `Dot`, the six unit face normals (`FaceDir`),
  `ReferenceUp` and `Perpendiculars`, with their proofs.
- `selection.dfy` (module `Selection`) has the click policy on values:
  - `Click` describes one tick;
  - `FindIndex` and `RemoveAt` model the two list operations it uses, and
    `RemoveFirst` is an independent recursive definition of the removal;
  - `Run` folds a sequence of ticks;
  - the lemmas cover the invariant, where each selected cell came from,
    and the two round trips.
- `editor.dfy` (module `Editor`) has the classes whose fields the source
  updates in place:
  - `MultiSelection` has a `seq` field for `Tiles` and a `Face` field, with
    methods that `modify` them;
  - `Tile3DEditor` owns the selection. Its `BuildingMode` method runs the
    source's click handler statement by statement, and its postcondition
    ties the new selection to `Click`.

Cells are integer triples (`Vector3Int`). A hovered face is one of the six
axis-aligned unit normals. A fresh selection's `Face` is zero, the default
of `Vector3`, so the selection's face is a general integer triple. The
invariant `Valid` says that a selection lists no cell twice, and that a
non-empty selection has a unit normal as its face.

There is no multi-select modifier. Every left click over a hover toggles,
appends or restarts. With no hover a click changes nothing, so clicking
empty space does not clear the selection.

The two round trips have a limit. After a click whose face differs from the
selection's face has restarted the selection, a second click on the same
hover toggles that cell off. That leaves an empty selection, not the one
before the first click (`MismatchThenSameClickEmpties`).

## Model

| member | source | states |
|---|---|---|
| `Geometry.CrossOrthogonal` | Tile3D/Editor/Tile3DEditor.cs:199-200 | `Cross`, the model of Vector3.Cross, gives a vector orthogonal to both of its arguments |
| `Geometry.ReferenceUp` | Tile3D/Editor/Tile3DEditor.cs:198 | the reference up is world up or world right; crossed with a non-zero face it is never zero; world right is chosen whenever world up would make the cross product zero |
| `Geometry.ReferenceUpOnUnitNormals` | Tile3D/Editor/Tile3DEditor.cs:198 | on the six unit normals world right is chosen exactly when world up is parallel to the face: for ±Y, and never for ±X or ±Z |
| `Geometry.HorizontalCrossUp` | Tile3D/Editor/Tile3DEditor.cs:198-199 | for a face (x, 0, z), updown = Cross(face, world up) = (-z, 0, x) |
| `Geometry.HorizontalBasis` | Tile3D/Editor/Tile3DEditor.cs:198-200 | for a face (x, 0, z): leftright = Cross((-z, 0, x), face) = (0, x²+z², 0), and face, updown and leftright are pairwise orthogonal |
| `Geometry.HorizontalLength` | Tile3D/Editor/Tile3DEditor.cs:199-200 | for a face (x, 0, z): leftright is non-zero when the face is; for a unit normal both vectors are unit normals |
| `Geometry.VerticalBasis` | Tile3D/Editor/Tile3DEditor.cs:198-200 | for a face with y ≠ 0: updown = (0, z, -y) and leftright = (z²+y², -xy, -xz), pairwise orthogonal with the face |
| `Geometry.VerticalLength` | Tile3D/Editor/Tile3DEditor.cs:199-200 | for a face with y ≠ 0: leftright is non-zero; for a vertical unit normal both vectors are unit normals |
| `Geometry.BasisFacts` | Tile3D/Editor/Tile3DEditor.cs:196-201 | for every integer face: both products are orthogonal to the face and to each other; they are non-zero for a non-zero face; they are unit normals for a unit normal |
| `Geometry.Perpendiculars` | Tile3D/Editor/Tile3DEditor.cs:196-209 | GetPerpendiculars (both overloads) returns updown ⊥ face, leftright ⊥ face, updown ⊥ leftright; both are non-zero for a non-zero face, so they span the face plane; both are unit axis vectors for the six unit normals |
| `Selection.FindIndex` | Tile3D/Editor/Tile3DEditor.cs:64 | gives -1 unless the selection's face equals the hovered face and the hovered cell is listed; otherwise gives the index of the cell's first occurrence |
| `Selection.RemoveAtFacts` | Tile3D/Editor/Tile3DEditor.cs:67 | `RemoveAt`, the model of List.RemoveAt, drops exactly the element at the index: one element fewer, the cells before keep their positions, the cells after move down by one, and the multiset loses one copy of that element |
| `Selection.RemoveAtFirstOccurrence` | Tile3D/Editor/Tile3DEditor.cs:64-67 | removing at the index FindIndex finds (List.RemoveAt) removes exactly the first occurrence of the hovered cell, as the recursive reference `RemoveFirst` defines it |
| `Selection.RemoveFirstFacts` | Tile3D/Editor/Tile3DEditor.cs:67 | removal adds no cell; the multiset loses exactly one copy of the removed cell; a list without duplicates stays without duplicates and no longer holds the removed cell |
| `Selection.RemoveFirstOfAppended` | Tile3D/Editor/Tile3DEditor.cs:67 | removing a cell that was appended to a list not holding it gives back that list |
| `Selection.Click` | Tile3D/Editor/Tile3DEditor.cs:58-80 | no hover or no left click: unchanged. Toggle-off (cell listed, same face): Tiles' = RemoveFirst(Tiles, cell), so only the first occurrence goes and the rest keep their order; the face is unchanged. Compatible add (otherwise, with an empty selection or the same face): Tiles' = Tiles + [cell], Face' = hovered face. Mismatch (non-empty, other face): Tiles' = [cell], Face' = hovered face |
| `Selection.ClickPreservesValid` | Tile3D/Editor/Tile3DEditor.cs:64-77 | every click keeps the selection free of duplicates, with a unit face when non-empty |
| `Selection.RunPreservesValid` | Tile3D/Editor/Tile3DEditor.cs:58-80 | over any sequence of ticks a valid selection stays valid |
| `Selection.NoDuplicatesFromInitial` | Tile3D/Editor/Tile3DEditor.cs:64-77 | from a fresh selection, no sequence of clicks ever lists a cell twice, and a non-empty selection's face is a unit normal |
| `Selection.ClickKeepsOrAdds` | Tile3D/Editor/Tile3DEditor.cs:64-77 | a cell selected after a tick was either selected before under the same face, or is the cell that tick clicked, under the new face |
| `Selection.SelectedUnderSharedFace` | Tile3D/Editor/Tile3DEditor.cs:64-77 | every selected cell was clicked in some earlier tick while hovered under the selection's current face: orientations are never mixed |
| `Selection.AddThenRemoveRestores` | Tile3D/Editor/Tile3DEditor.cs:64-76 | after a compatible add the cell is selected under the hovered face. A second click on the same hover restores the original Tiles, and the whole state when the selection was non-empty |
| `Selection.RemoveThenAddRestoresContents` | Tile3D/Editor/Tile3DEditor.cs:64-72 | on a valid selection, toggle-off removes the cell entirely. Clicking again appends it at the end, which restores the multiset of cells and the face |
| `Selection.MismatchThenSameClickEmpties` | Tile3D/Editor/Tile3DEditor.cs:64-77 | a direction-mismatch click restarts the selection as the hovered cell alone; a second click on the same hover toggles it off and leaves an empty selection under the hovered face |
| `Editor.MultiSelection.constructor` | Tile3D/Editor/Tile3DEditor.cs:109-110 | a new selection is empty, with a zero face |
| `Editor.MultiSelection.IsEmpty` | Tile3D/Editor/Tile3DEditor.cs:111 | true exactly when no cell is selected |
| `Editor.MultiSelection.Add` | Tile3D/Editor/Tile3DEditor.cs:113-119 | Face becomes the added face only when Tiles was empty, otherwise it is unchanged; the cell is appended at the end of Tiles |
| `Editor.Tile3DEditor.constructor` | Tile3D/Editor/Tile3DEditor.cs:20-21 | no hover; a freshly allocated, empty selection |
| `Editor.Tile3DEditor.BuildingMode` | Tile3D/Editor/Tile3DEditor.cs:55-80 | the hover becomes the pick; the selection object changes in place exactly as `Click` says and keeps `Valid` |

## Left out

- `OnSceneGUI` is left out: the toolbar, the switch between tool modes, `Tools.current` and the scene repaint (lines 23-46) are editor UI.
- `GetSelectionAt` (lines 122-143) is left out: it calls the physics raycast and the camera ray and floors float hit points. The hover it returns is an input to `BuildingMode` (`pick`).
- The `CenterOfSelection` overloads (lines 146-165) are left out: they are float centroid arithmetic.
- The `DrawSelection` overloads, the `Handles` calls (lines 54, 60, 84-86, 170-194) and `Selection.activeGameObject` (line 89) are left out: they are rendering.
- The slider at line 86 is left out: its result is never used. `PaintingMode` (lines 92-95) is empty. There is therefore no extrusion, carving or flood fill to model. The `Tile3D` component and its block grid are not part of this model.
- Unity's `Vector3 ==` compares within a tolerance. Here faces are compared exactly, which agrees with it on the six integer unit normals.
- Both overloads of `GetPerpendiculars` are modelled by one function over unbounded integer vectors. The `Vector3Int` overload (lines 203-209) converts with `.Int()`. The model claims to match the float source only on the six unit normals, where every product is exact. For larger components, float rounding (above 2^24) and `int` overflow in `.Int()` are not modelled. The integer facts proved for "every integer face" hold for the model, not for that float arithmetic.
- `SingleSelection` is a class in the source, but its fields are only set when it is built. It is modelled as a datatype.
- `HandleUtility.AddDefaultControl(GUIUtility.GetControlID(...))` (line 53) is left out: it only keeps the scene view from handing the click to other objects. It is editor UI.
- `LeftButtonClick` (line 13) reads `Event.current` and is true for a mouse-down of button 0. The event is not modelled; its value is the `leftButtonClick` input of `BuildingMode` and of each `Tick`.
- The `selected` field is never reassigned in the source, so the model declares it `const`.

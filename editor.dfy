/** The editor's selection state as objects updated in place: the
    MultiSelection class, whose Tiles list and Face field the click
    handler of the building mode mutates, and the editor that owns it. */
module Editor {
  import opened Geometry
  import opened Selection

  /** MultiSelection: the selected cells (Tiles) and their shared Face. */
  class MultiSelection {
    var tiles: seq<Vec3>
    var face: Vec3

    /** new MultiSelection(): an empty list; Face keeps its default, zero. */
    constructor ()
      ensures Model() == Initial
    {
      tiles := [];
      face := Zero;
    }

    /** The value this object holds. */
    function Model(): SelectionState
      reads this
    {
      SelectionState(tiles, face)
    }

    /** IsEmpty: no cell is selected. */
    function IsEmpty(): (r: bool)
      reads this
      ensures r <==> tiles == []
    {
      |tiles| == 0
    }

    /** Add: an empty selection takes over the added face; a non-empty one
        keeps its face. Either way the cell goes to the end of the list. */
    method Add(selection: SingleSelection)
      modifies this
      ensures face == (if old(tiles) == [] then selection.face else old(face))
      ensures tiles == old(tiles) + [selection.tile]
    {
      if IsEmpty() {
        face := selection.face;
      }
      tiles := tiles + [selection.tile];
    }
  }

  /** The scene editor: the hover of the current tick and the selection.
      The selection object is created once and never replaced. */
  class Tile3DEditor {
    var hover: Option<SingleSelection>
    const selected: MultiSelection

    constructor ()
      ensures hover == None && fresh(selected) && selected.Model() == Initial
    {
      hover := None;
      selected := new MultiSelection();
    }

    /** The selection logic of one building-mode tick. The hover comes from
        the pointer's raycast and is passed in as pick; leftButtonClick says
        whether the left mouse button went down this tick. The selection
        changes exactly as Click describes, and keeps its invariant. */
    method BuildingMode(pick: Option<SingleSelection>, leftButtonClick: bool)
      modifies this, selected
      ensures hover == pick
      ensures selected.Model() == Click(old(selected.Model()), Tick(pick, leftButtonClick))
      ensures Valid(old(selected.Model())) ==> Valid(selected.Model())
    {
      ghost var before := selected.Model();
      ghost var tick := Tick(pick, leftButtonClick);
      hover := pick;
      if hover.Some? {
        if leftButtonClick {
          var h := hover.value;
          var index := FindIndex(selected.tiles, selected.face, h);
          if index >= 0 {
            selected.tiles := RemoveAt(selected.tiles, index);
            assert selected.Model() == Click(before, tick);
          } else {
            if selected.IsEmpty() || h.face == selected.face {
              selected.Add(h);
              assert selected.Model() == Click(before, tick);
            } else {
              selected.tiles := [];
              selected.Add(h);
              assert selected.Model() == Click(before, tick);
            }
          }
        }
      }
      if Valid(before) {
        ClickPreservesValid(before, tick);
      }
    }
  }
}

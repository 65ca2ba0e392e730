/** The multi-selection click policy of the building mode, on values.
    A selection is a list of cells and one shared face direction; a click
    on the hovered (cell, face) toggles the cell off, appends it, or starts
    a new selection under the hovered face. */
module Selection {
  import opened Geometry

  datatype Option<T> = None | Some(value: T)

  /** A hovered cell and the outward normal of the face under the pointer
      (SingleSelection: Tile and Face). */
  datatype SingleSelection = SingleSelection(tile: Vec3, face: FaceDir)

  /** The value of a MultiSelection: its Tiles in list order and its Face. */
  datatype SelectionState = SelectionState(tiles: seq<Vec3>, face: Vec3)

  /** A fresh MultiSelection: an empty list and Face left at Vector3.zero. */
  const Initial := SelectionState([], Zero)

  /** One building-mode tick: the hover computed from the pointer, and
      whether the left mouse button went down. */
  datatype Tick = Tick(hover: Option<SingleSelection>, leftButtonClick: bool)

  predicate Distinct(s: seq<Vec3>) {
    forall i, j :: 0 <= i < j < |s| ==> s[i] != s[j]
  }

  /** The selection invariant: no cell is listed twice, and a non-empty
      selection's face is one of the six unit normals. */
  predicate Valid(st: SelectionState) {
    Distinct(st.tiles) && (st.tiles != [] ==> IsUnitAxis(st.face))
  }

  /** List.FindIndex with the predicate "the cell is the hovered cell and
      the selection's face is the hovered face": the index of the first
      listed cell equal to the hovered one when the faces agree, and -1
      otherwise. */
  function FindIndex(tiles: seq<Vec3>, face: Vec3, hover: SingleSelection): (r: int)
    ensures -1 <= r < |tiles|
    ensures r >= 0 <==> face == hover.face && hover.tile in tiles
    ensures r >= 0 ==> tiles[r] == hover.tile && hover.tile !in tiles[..r]
  {
    if tiles == [] then -1
    else if tiles[0] == hover.tile && face == hover.face then 0
    else
      var k := FindIndex(tiles[1..], face, hover);
      if k < 0 then -1
      else
        assert tiles[..k + 1] == [tiles[0]] + tiles[1..][..k];
        k + 1
  }

  /** List.RemoveAt: the list without its element at index i. */
  function RemoveAt(s: seq<Vec3>, i: int): seq<Vec3>
    requires 0 <= i < |s|
  {
    s[..i] + s[i + 1..]
  }

  /** RemoveAt drops exactly the element at index i: the cells before it keep
      their positions, the cells after it move down by one, and the multiset
      loses one copy of s[i]. */
  lemma RemoveAtFacts(s: seq<Vec3>, i: int)
    requires 0 <= i < |s|
    ensures |RemoveAt(s, i)| == |s| - 1
    ensures forall j :: 0 <= j < i ==> RemoveAt(s, i)[j] == s[j]
    ensures forall j :: i <= j < |s| - 1 ==> RemoveAt(s, i)[j] == s[j + 1]
    ensures multiset(RemoveAt(s, i)) + multiset{s[i]} == multiset(s)
  {
    assert s == s[..i] + [s[i]] + s[i + 1..];
  }

  /** The list without the first occurrence of x, by its own recursive
      definition: cells before it stay, cells after it stay, in order. */
  function RemoveFirst(s: seq<Vec3>, x: Vec3): seq<Vec3> {
    if s == [] then []
    else if s[0] == x then s[1..]
    else [s[0]] + RemoveFirst(s[1..], x)
  }

  /** Removing at the index FindIndex finds removes the first occurrence of
      the hovered cell: the list operations of the toggle-off branch agree
      with RemoveFirst. */
  lemma {:induction false} RemoveAtFirstOccurrence(s: seq<Vec3>, face: Vec3, h: SingleSelection)
    requires face == h.face && h.tile in s
    ensures RemoveAt(s, FindIndex(s, face, h)) == RemoveFirst(s, h.tile)
  {
    if s[0] == h.tile {
      assert FindIndex(s, face, h) == 0;
      assert RemoveAt(s, 0) == s[1..];
    } else {
      var k := FindIndex(s[1..], face, h);
      RemoveAtFirstOccurrence(s[1..], face, h);
      assert FindIndex(s, face, h) == k + 1;
      calc {
        RemoveAt(s, k + 1);
        s[..k + 1] + s[k + 2..];
        { assert s[..k + 1] == [s[0]] + s[1..][..k];
          assert s[k + 2..] == s[1..][k + 1..]; }
        [s[0]] + (s[1..][..k] + s[1..][k + 1..]);
        [s[0]] + RemoveAt(s[1..], k);
        [s[0]] + RemoveFirst(s[1..], h.tile);
      }
    }
  }

  /** The effect of one building-mode tick on the selection. Without a hover
      or without a left click nothing changes. Otherwise: a cell already
      selected under the hovered face is removed (its first occurrence, the
      rest keeping their order, the face unchanged); else, if the selection
      is empty or its face is the hovered face, the cell is appended and the
      face becomes the hovered face; else the selection restarts as just the
      hovered cell under the hovered face. */
  function Click(st: SelectionState, tick: Tick): (r: SelectionState)
    ensures tick.hover.None? || !tick.leftButtonClick ==> r == st
    ensures tick.hover.Some? && tick.leftButtonClick ==>
      var h := tick.hover.value;
      if h.face == st.face && h.tile in st.tiles then
        r == SelectionState(RemoveFirst(st.tiles, h.tile), st.face)
      else if st.tiles == [] || h.face == st.face then
        r == SelectionState(st.tiles + [h.tile], h.face)
      else
        r == SelectionState([h.tile], h.face)
  {
    if tick.hover.None? || !tick.leftButtonClick then st
    else
      var h := tick.hover.value;
      var index := FindIndex(st.tiles, st.face, h);
      if index >= 0 then
        RemoveAtFirstOccurrence(st.tiles, st.face, h);
        SelectionState(RemoveAt(st.tiles, index), st.face)
      else if st.tiles == [] || h.face == st.face then
        // MultiSelection.Add: the face is taken over only by an empty selection
        SelectionState(st.tiles + [h.tile], if st.tiles == [] then h.face else st.face)
      else
        // Tiles.Clear() followed by Add
        SelectionState([h.tile], h.face)
  }

  /** The selection after a sequence of ticks, starting from st. */
  function Run(st: SelectionState, ticks: seq<Tick>): SelectionState
    decreases |ticks|
  {
    if ticks == [] then st else Click(Run(st, ticks[..|ticks| - 1]), ticks[|ticks| - 1])
  }

  lemma {:induction false} RemoveFirstFacts(s: seq<Vec3>, x: Vec3)
    ensures forall t :: t in RemoveFirst(s, x) ==> t in s
    ensures x in s ==> multiset(RemoveFirst(s, x)) + multiset{x} == multiset(s)
    ensures Distinct(s) ==> Distinct(RemoveFirst(s, x)) && x !in RemoveFirst(s, x)
  {
    if s != [] {
      assert s == [s[0]] + s[1..];
    }
    if s != [] && s[0] != x {
      RemoveFirstFacts(s[1..], x);
      assert s == [s[0]] + s[1..];
      if Distinct(s) {
        assert Distinct(s[1..]) by {
          forall a, b | 0 <= a < b < |s[1..]| ensures s[1..][a] != s[1..][b] {
            assert s[1..][a] == s[a + 1] && s[1..][b] == s[b + 1];
          }
        }
        assert s[0] !in s[1..] by {
          forall j | 0 <= j < |s[1..]| ensures s[1..][j] != s[0] {
            assert s[1..][j] == s[j + 1];
          }
        }
        ConsDistinct(s[0], RemoveFirst(s[1..], x));
      }
    } else if s != [] && Distinct(s) {
      forall j | 0 <= j < |s[1..]| ensures s[1..][j] != s[0] {
        assert s[1..][j] == s[j + 1];
      }
      forall a, b | 0 <= a < b < |s[1..]| ensures s[1..][a] != s[1..][b] {
        assert s[1..][a] == s[a + 1] && s[1..][b] == s[b + 1];
      }
    }
  }

  lemma ConsDistinct(y: Vec3, s: seq<Vec3>)
    requires Distinct(s) && y !in s
    ensures Distinct([y] + s)
  {
    var t := [y] + s;
    forall a, b | 0 <= a < b < |t| ensures t[a] != t[b] {
      assert t[b] == s[b - 1];
      if a > 0 { assert t[a] == s[a - 1]; }
    }
  }

  lemma AppendDistinct(s: seq<Vec3>, x: Vec3)
    requires Distinct(s) && x !in s
    ensures Distinct(s + [x])
  {
    var t := s + [x];
    forall a, b | 0 <= a < b < |t| ensures t[a] != t[b] {
      assert t[a] == s[a];
      if b < |s| { assert t[b] == s[b]; }
    }
  }

  /** Every click keeps the selection invariant. */
  lemma ClickPreservesValid(st: SelectionState, tick: Tick)
    requires Valid(st)
    ensures Valid(Click(st, tick))
  {
    if tick.hover.Some? && tick.leftButtonClick {
      var h := tick.hover.value;
      if h.face == st.face && h.tile in st.tiles {
        RemoveFirstFacts(st.tiles, h.tile);
      } else if st.tiles == [] || h.face == st.face {
        AppendDistinct(st.tiles, h.tile);
      }
    }
  }

  /** Over any sequence of ticks a valid selection stays valid. */
  lemma {:induction false} RunPreservesValid(st: SelectionState, ticks: seq<Tick>)
    requires Valid(st)
    ensures Valid(Run(st, ticks))
    decreases |ticks|
  {
    if ticks != [] {
      RunPreservesValid(st, ticks[..|ticks| - 1]);
      ClickPreservesValid(Run(st, ticks[..|ticks| - 1]), ticks[|ticks| - 1]);
    }
  }

  /** Starting from a fresh selection, no sequence of clicks ever lists a
      cell twice, and a non-empty selection always has a unit face. */
  lemma {:induction false} NoDuplicatesFromInitial(ticks: seq<Tick>)
    ensures Distinct(Run(Initial, ticks).tiles)
    ensures Run(Initial, ticks).tiles != [] ==> IsUnitAxis(Run(Initial, ticks).face)
  {
    RunPreservesValid(Initial, ticks);
  }

  /** Tick k clicked on cell t under face f. */
  predicate ClickedOn(ticks: seq<Tick>, k: int, t: Vec3, f: Vec3) {
    0 <= k < |ticks| && ticks[k].leftButtonClick && ticks[k].hover.Some?
    && ticks[k].hover.value.tile == t && ticks[k].hover.value.face == f
  }

  /** A cell selected after one tick was selected before it under the same
      face, or is the cell that tick clicked, under the new face. */
  lemma ClickKeepsOrAdds(before: SelectionState, tick: Tick, t: Vec3)
    requires t in Click(before, tick).tiles
    ensures var after := Click(before, tick);
            (t in before.tiles && before.face == after.face)
            || (tick.leftButtonClick && tick.hover.Some? && tick.hover.value.tile == t
                && tick.hover.value.face == after.face)
  {
    if tick.hover.Some? && tick.leftButtonClick {
      var h := tick.hover.value;
      if h.face == before.face && h.tile in before.tiles {
        RemoveFirstFacts(before.tiles, h.tile);
      }
    }
  }

  /** Every cell of the selection was clicked while hovered under the
      selection's current face: the selection never mixes orientations. */
  lemma {:induction false} SelectedUnderSharedFace(ticks: seq<Tick>, t: Vec3)
    requires t in Run(Initial, ticks).tiles
    ensures exists k :: ClickedOn(ticks, k, t, Run(Initial, ticks).face)
    decreases |ticks|
  {
    var n := |ticks| - 1;
    var prefix := ticks[..n];
    var before := Run(Initial, prefix);
    ClickKeepsOrAdds(before, ticks[n], t);
    if t in before.tiles && before.face == Run(Initial, ticks).face {
      SelectedUnderSharedFace(prefix, t);
      var k :| ClickedOn(prefix, k, t, before.face);
      assert ClickedOn(ticks, k, t, before.face);
    } else {
      assert ClickedOn(ticks, n, t, Run(Initial, ticks).face);
    }
  }

  /** Removing the last cell of a list that holds it only once. */
  lemma {:induction false} RemoveFirstOfAppended(s: seq<Vec3>, x: Vec3)
    requires x !in s
    ensures RemoveFirst(s + [x], x) == s
  {
    if s != [] {
      assert (s + [x])[1..] == s[1..] + [x];
      RemoveFirstOfAppended(s[1..], x);
    }
  }

  /** Round trip: when a click appends the hovered cell, clicking the same
      hover again removes it and restores the original list (and the face,
      unless the selection had been empty and carried a stale face). After
      the first click the cell is selected under the hovered face. */
  lemma AddThenRemoveRestores(st: SelectionState, h: SingleSelection)
    requires !(h.face == st.face && h.tile in st.tiles)
    requires st.tiles == [] || h.face == st.face
    ensures var once := Click(st, Tick(Some(h), true));
            h.tile in once.tiles && once.face == h.face
            && Click(once, Tick(Some(h), true)).tiles == st.tiles
            && (st.tiles != [] ==> Click(once, Tick(Some(h), true)) == st)
  {
    var once := Click(st, Tick(Some(h), true));
    assert once.tiles == st.tiles + [h.tile];
    RemoveFirstOfAppended(st.tiles, h.tile);
  }

  /** Toggle-off followed by a click on the same hover selects the cell
      again: the set of cells and the face come back, the cell now at the
      end of the list. The invariant is needed: with a duplicate the
      second click would remove the other copy. */
  lemma RemoveThenAddRestoresContents(st: SelectionState, h: SingleSelection)
    requires Valid(st)
    requires h.face == st.face && h.tile in st.tiles
    ensures var once := Click(st, Tick(Some(h), true));
            var twice := Click(once, Tick(Some(h), true));
            h.tile !in once.tiles && twice.face == st.face
            && multiset(twice.tiles) == multiset(st.tiles)
            && twice.tiles == once.tiles + [h.tile]
  {
    RemoveFirstFacts(st.tiles, h.tile);
  }

  /** Where the round trips stop: after a direction-mismatch click restarts
      the selection, a second click on the same hover toggles the cell off
      and leaves an empty selection, not the one before the first click. */
  lemma MismatchThenSameClickEmpties(st: SelectionState, h: SingleSelection)
    requires st.tiles != [] && h.face != st.face
    ensures var once := Click(st, Tick(Some(h), true));
            once == SelectionState([h.tile], h.face)
            && Click(once, Tick(Some(h), true)) == SelectionState([], h.face)
  {
  }
}

// The place graph of a board-game map: one Place per place name, wired from
// an adjacency matrix into successor and predecessor lists
// (src/game/graph_map.py).
module Graph {
  import opened Lists

  // ---------------------------------------------------------------------------
  // The adjacency matrix, read as a specification
  // ---------------------------------------------------------------------------

  /** The matrix has n rows of n entries each. */
  predicate IsSquare(m: seq<seq<int>>, n: nat)
  {
    |m| == n && forall r :: 0 <= r < |m| ==> |m[r]| == n
  }

  /** Every element is smaller than the next one. */
  predicate Increasing(s: seq<nat>)
  {
    forall a, b :: 0 <= a < b < |s| ==> s[a] < s[b]
  }

  /** The indices whose entry is exactly 1, in ascending order; any other
    * value is "no edge". This is `np.where(row == 1)[0]`. */
  function OnesIn(row: seq<int>): (r: seq<nat>)
    ensures forall k :: 0 <= k < |r| ==> r[k] < |row|
  {
    if row == [] then []
    else OnesIn(row[..|row| - 1]) + (if row[|row| - 1] == 1 then [|row| - 1] else [])
  }

  /** OnesIn holds every column with a 1, nothing else, each once, ascending. */
  lemma {:induction false} OnesInSpec(row: seq<int>)
    ensures forall k :: 0 <= k < |OnesIn(row)| ==> row[OnesIn(row)[k]] == 1
    ensures forall j :: 0 <= j < |row| ==> (j in OnesIn(row) <==> row[j] == 1)
    ensures Increasing(OnesIn(row))
  {
    if row != [] {
      var init := row[..|row| - 1];
      OnesInSpec(init);
      assert forall j :: 0 <= j < |init| ==> init[j] == row[j];
    }
  }

  /** The entries of column j, top to bottom. */
  function Column(m: seq<seq<int>>, j: nat): seq<int>
    requires forall r :: 0 <= r < |m| ==> j < |m[r]|
  {
    seq(|m|, r requires 0 <= r < |m| => m[r][j])
  }

  /** The places at the given indices, in the order of the indices. */
  function Picked(places: seq<Place>, idx: seq<nat>): (r: seq<Place>)
    requires forall k :: 0 <= k < |idx| ==> idx[k] < |places|
  {
    seq(|idx|, k requires 0 <= k < |idx| => places[idx[k]])
  }

  /** What `places[i].successors` must be: the places at the columns of row i
    * that hold a 1, left to right. */
  function SuccessorPlaces(places: seq<Place>, m: seq<seq<int>>, i: nat): seq<Place>
    requires IsSquare(m, |places|) && i < |places|
  {
    Picked(places, OnesIn(m[i]))
  }

  /** What `places[j].predecessors` must be: the places at the rows of column j
    * that hold a 1, top to bottom. */
  function PredecessorPlaces(places: seq<Place>, m: seq<seq<int>>, j: nat): seq<Place>
    requires IsSquare(m, |places|) && j < |places|
  {
    Picked(places, OnesIn(Column(m, j)))
  }

  /** The successor list the matrix prescribes for every place, in order. */
  function AllSuccessorPlaces(places: seq<Place>, m: seq<seq<int>>): (r: seq<seq<Place>>)
    requires IsSquare(m, |places|)
  {
    seq(|places|, i requires 0 <= i < |places| => SuccessorPlaces(places, m, i))
  }

  /** The predecessor list the matrix prescribes for every place, in order. */
  function AllPredecessorPlaces(places: seq<Place>, m: seq<seq<int>>): (r: seq<seq<Place>>)
    requires IsSquare(m, |places|)
  {
    seq(|places|, j requires 0 <= j < |places| => PredecessorPlaces(places, m, j))
  }

  /** Picking distinct places at increasing indices gives a duplicate-free
    * list that holds places[j] exactly when j is one of the indices. */
  lemma PickedDistinct(places: seq<Place>, idx: seq<nat>)
    requires NoDuplicates(places) && Increasing(idx)
    requires forall k :: 0 <= k < |idx| ==> idx[k] < |places|
    ensures NoDuplicates(Picked(places, idx))
    ensures forall p :: p in Picked(places, idx) ==> p in places
    ensures forall j :: 0 <= j < |places| ==> (places[j] in Picked(places, idx) <==> j in idx)
  {
    var r := Picked(places, idx);
    forall j | 0 <= j < |places| ensures places[j] in r <==> j in idx {
      if places[j] in r {
        var k :| 0 <= k < |r| && r[k] == places[j];
        assert places[idx[k]] == places[j];
        assert idx[k] == j;
      }
      if j in idx {
        var k :| 0 <= k < |idx| && idx[k] == j;
        assert r[k] == places[j];
      }
    }
  }

  /** The lists the builder produces hold no place twice. */
  lemma {:induction false} AdjacencyListsDistinct(places: seq<Place>, m: seq<seq<int>>, k: nat)
    requires NoDuplicates(places) && IsSquare(m, |places|) && k < |places|
    ensures NoDuplicates(SuccessorPlaces(places, m, k))
    ensures NoDuplicates(PredecessorPlaces(places, m, k))
  {
    OnesInSpec(m[k]);
    OnesInSpec(Column(m, k));
    PickedDistinct(places, OnesIn(m[k]));
    PickedDistinct(places, OnesIn(Column(m, k)));
  }

  /** A directed edge i -> j is in both lists exactly when m[i][j] == 1;
    * with i == j this is the self-loop case. So place j follows place i
    * exactly when place i precedes place j. */
  lemma {:induction false} EdgeIffMatrixEntry(places: seq<Place>, m: seq<seq<int>>, i: nat, j: nat)
    requires NoDuplicates(places) && IsSquare(m, |places|)
    requires i < |places| && j < |places|
    ensures places[j] in SuccessorPlaces(places, m, i) <==> m[i][j] == 1
    ensures places[i] in PredecessorPlaces(places, m, j) <==> m[i][j] == 1
  {
    var row, col := OnesIn(m[i]), OnesIn(Column(m, j));
    OnesInSpec(m[i]);
    OnesInSpec(Column(m, j));
    PickedDistinct(places, row);
    PickedDistinct(places, col);
    if j in row {
      var k :| 0 <= k < |row| && row[k] == j;
    }
    if i in col {
      var k :| 0 <= k < |col| && col[k] == i;
    }
  }

  /** The places of rows 0 .. i-1 whose entry in column j is 1, top to bottom. */
  function PredecessorsUpTo(places: seq<Place>, m: seq<seq<int>>, j: nat, i: nat): seq<Place>
    requires IsSquare(m, |places|) && j < |places| && i <= |places|
  {
    if i == 0 then []
    else PredecessorsUpTo(places, m, j, i - 1) + (if m[i - 1][j] == 1 then [places[i - 1]] else [])
  }

  /** Scanning the column row by row gives the places at the ones of the column. */
  lemma {:induction false} PredecessorsUpToIsPicked(places: seq<Place>, m: seq<seq<int>>, j: nat, i: nat)
    requires IsSquare(m, |places|) && j < |places| && i <= |places|
    ensures PredecessorsUpTo(places, m, j, i) == Picked(places, OnesIn(Column(m, j)[..i]))
  {
    var c := Column(m, j);
    if i == 0 {
      assert c[..0] == [];
    } else {
      PredecessorsUpToIsPicked(places, m, j, i - 1);
      assert c[..i][..i - 1] == c[..i - 1];
      var a := OnesIn(c[..i - 1]);
      if m[i - 1][j] == 1 {
        assert OnesIn(c[..i]) == a + [i - 1];
        assert Picked(places, a + [i - 1]) == Picked(places, a) + [places[i - 1]];
      } else {
        assert OnesIn(c[..i]) == a;
      }
    }
  }

  /** The predecessor lists after `add_predecessor(p)` has been called on the
    * place at each index of js, in order. */
  function AddToEach(preds: seq<seq<Place>>, js: seq<nat>, p: Place): (r: seq<seq<Place>>)
    requires forall k :: 0 <= k < |js| ==> js[k] < |preds|
    ensures |r| == |preds|
    decreases |js|
  {
    if js == [] then preds
    else AddToEach(preds[js[0] := AddUnique(preds[js[0]], p)], js[1..], p)
  }

  /** With distinct indices, each list named in js gets p once, the others stay. */
  lemma {:induction false} AddToEachAt(preds: seq<seq<Place>>, js: seq<nat>, p: Place, j: nat)
    requires forall k :: 0 <= k < |js| ==> js[k] < |preds|
    requires Increasing(js) && j < |preds|
    ensures AddToEach(preds, js, p)[j] == if j in js then AddUnique(preds[j], p) else preds[j]
    decreases |js|
  {
    if js != [] {
      var first, rest := js[0], js[1..];
      assert Increasing(rest);
      AddToEachAt(preds[first := AddUnique(preds[first], p)], rest, p, j);
      assert j in js <==> j == first || j in rest;
      assert first !in rest;
    }
  }

  /** The predecessor lists after the first i rows are scanned: list j has had
    * the places of rows 0 .. i-1 with a 1 in column j added to it, top to
    * bottom, each with the duplicate check of `add_predecessor`. */
  function PredecessorsAfter(preds: seq<seq<Place>>, places: seq<Place>, m: seq<seq<int>>, i: nat): (r: seq<seq<Place>>)
    requires IsSquare(m, |places|) && |preds| == |places| && i <= |places|
  {
    seq(|places|, j requires 0 <= j < |places| => AddAll(preds[j], PredecessorsUpTo(places, m, j, i)))
  }

  /** Before any row is scanned, every list is as it was. */
  lemma PredecessorsAfterNone(preds: seq<seq<Place>>, places: seq<Place>, m: seq<seq<int>>)
    requires IsSquare(m, |places|) && |preds| == |places|
    ensures PredecessorsAfter(preds, places, m, 0) == preds
  {
  }

  /** Scanning row i adds places[i] to list j exactly when m[i][j] == 1. */
  lemma PredecessorsAfterStep(preds: seq<seq<Place>>, places: seq<Place>, m: seq<seq<int>>, i: nat)
    requires IsSquare(m, |places|) && |preds| == |places| && i < |places|
    ensures AddToEach(PredecessorsAfter(preds, places, m, i), OnesIn(m[i]), places[i]) ==
      PredecessorsAfter(preds, places, m, i + 1)
  {
    var before, row := PredecessorsAfter(preds, places, m, i), OnesIn(m[i]);
    var after := AddToEach(before, row, places[i]);
    OnesInSpec(m[i]);
    forall j | 0 <= j < |places| ensures after[j] == PredecessorsAfter(preds, places, m, i + 1)[j] {
      AddToEachAt(before, row, places[i], j);
      var upTo := PredecessorsUpTo(places, m, j, i);
      if m[i][j] == 1 {
        assert PredecessorsUpTo(places, m, j, i + 1) == upTo + [places[i]];
        AddAllSnoc(preds[j], upTo, places[i]);
      } else {
        assert PredecessorsUpTo(places, m, j, i + 1) == upTo + [] == upTo;
      }
    }
  }

  /** Each place's old predecessor list with the places of its column added. */
  function AppendColumns(preds: seq<seq<Place>>, places: seq<Place>, m: seq<seq<int>>): (r: seq<seq<Place>>)
    requires IsSquare(m, |places|) && |preds| == |places|
  {
    seq(|places|, j requires 0 <= j < |places| => AddAll(preds[j], PredecessorPlaces(places, m, j)))
  }

  /** Scanning all the rows adds to each place the places of its column, top
    * to bottom. */
  lemma PredecessorsAfterAll(preds: seq<seq<Place>>, places: seq<Place>, m: seq<seq<int>>)
    requires IsSquare(m, |places|) && |preds| == |places|
    ensures PredecessorsAfter(preds, places, m, |places|) == AppendColumns(preds, places, m)
  {
    var n := |places|;
    forall j | 0 <= j < n
      ensures PredecessorsAfter(preds, places, m, n)[j] == AppendColumns(preds, places, m)[j]
    {
      PredecessorsUpToIsPicked(places, m, j, n);
      assert Column(m, j)[..n] == Column(m, j);
    }
  }

  /** Starting from empty lists, the scan yields exactly the prescribed lists. */
  lemma ScanFromEmpty(places: seq<Place>, m: seq<seq<int>>)
    requires NoDuplicates(places) && IsSquare(m, |places|)
    ensures AppendColumns(seq(|places|, _ => []), places, m) == AllPredecessorPlaces(places, m)
  {
    forall j | 0 <= j < |places|
      ensures AddAll([], PredecessorPlaces(places, m, j)) == PredecessorPlaces(places, m, j)
    {
      AdjacencyListsDistinct(places, m, j);
      AddAllIntoEmpty(PredecessorPlaces(places, m, j));
    }
  }

  /** Scanning again over the prescribed lists changes none of them. */
  lemma RescanChangesNothing(places: seq<Place>, m: seq<seq<int>>)
    requires IsSquare(m, |places|)
    ensures AppendColumns(AllPredecessorPlaces(places, m), places, m) == AllPredecessorPlaces(places, m)
  {
    forall j | 0 <= j < |places|
      ensures AddAll(PredecessorPlaces(places, m, j), PredecessorPlaces(places, m, j)) == PredecessorPlaces(places, m, j)
    {
      var preds := PredecessorPlaces(places, m, j);
      AddAllAbsorbed(preds, preds);
    }
  }

  /** The successor lists after the first i rows are scanned: rows before i
    * hold what the matrix prescribes, the others what they held before. */
  function SuccessorsAfter(succs: seq<seq<Place>>, places: seq<Place>, m: seq<seq<int>>, i: nat): (r: seq<seq<Place>>)
    requires IsSquare(m, |places|) && |succs| == |places| && i <= |places|
  {
    AllSuccessorPlaces(places, m)[..i] + succs[i..]
  }

  /** Scanning row i sets the successor list of place i and no other. */
  lemma SuccessorsAfterStep(succs: seq<seq<Place>>, places: seq<Place>, m: seq<seq<int>>, i: nat)
    requires IsSquare(m, |places|) && |succs| == |places| && i < |places|
    ensures SuccessorsAfter(succs, places, m, i + 1) == SuccessorsAfter(succs, places, m, i)[i := SuccessorPlaces(places, m, i)]
  {
  }

  // ---------------------------------------------------------------------------
  // np.where over one row
  // ---------------------------------------------------------------------------

  /** Scans the row left to right and collects the columns holding 1. */
  method WhereEqualsOne(row: seq<int>) returns (idx: seq<nat>)
    ensures idx == OnesIn(row)
    ensures forall j :: 0 <= j < |row| ==> (j in idx <==> row[j] == 1)
  {
    idx := [];
    var j := 0;
    while j < |row|
      invariant 0 <= j <= |row|
      invariant idx == OnesIn(row[..j])
    {
      assert row[..j + 1][..j] == row[..j];
      if row[j] == 1 {
        idx := idx + [j];
      }
      j := j + 1;
    }
    assert row[..j] == row;
    OnesInSpec(row);
  }

  // ---------------------------------------------------------------------------
  // Place
  // ---------------------------------------------------------------------------

  /** An optional value: Python's None or a value. */
  datatype Option<T> = None | Some(value: T)

  /** A node of the map. Membership in its lists is by object identity. */
  class Place {
    const name: string
    var successors: seq<Place>
    var predecessors: seq<Place>

    /** A list that is not given (None) starts empty. */
    constructor (name: string, successors: Option<seq<Place>>, predecessors: Option<seq<Place>>)
      ensures this.name == name
      ensures successors.Some? ==> this.successors == successors.value
      ensures successors.None? ==> this.successors == []
      ensures predecessors.Some? ==> this.predecessors == predecessors.value
      ensures predecessors.None? ==> this.predecessors == []
    {
      this.name := name;
      this.successors := if successors.Some? then successors.value else [];
      this.predecessors := if predecessors.Some? then predecessors.value else [];
    }

    /** Appends place unless it is already a successor; the peer is not touched. */
    method AddSuccessor(place: Place)
      modifies this`successors
      ensures successors == AddUnique(old(successors), place)
    {
      if place !in successors {
        successors := successors + [place];
      }
    }

    /** Appends place unless it is already a predecessor; the peer is not touched. */
    method AddPredecessor(place: Place)
      modifies this`predecessors
      ensures predecessors == AddUnique(old(predecessors), place)
    {
      if place !in predecessors {
        predecessors := predecessors + [place];
      }
    }

    /** Removes the first occurrence of place, if any; the peer is not touched. */
    method RemoveSuccessor(place: Place)
      modifies this`successors
      ensures successors == RemoveFirst(old(successors), place)
    {
      if place in successors {
        successors := RemoveFirst(successors, place);
      }
    }

    /** Removes the first occurrence of place, if any; the peer is not touched. */
    method RemovePredecessor(place: Place)
      modifies this`predecessors
      ensures predecessors == RemoveFirst(old(predecessors), place)
    {
      if place in predecessors {
        predecessors := RemoveFirst(predecessors, place);
      }
    }
  }

  // ---------------------------------------------------------------------------
  // Scanning one row
  // ---------------------------------------------------------------------------

  /** The successor list of each place, in order. */
  ghost function SuccessorLists(places: seq<Place>): seq<seq<Place>>
    reads places
  {
    seq(|places|, k requires 0 <= k < |places| reads places => places[k].successors)
  }

  /** The predecessor list of each place, in order. */
  ghost function PredecessorLists(places: seq<Place>): seq<seq<Place>>
    reads places
  {
    seq(|places|, k requires 0 <= k < |places| reads places => places[k].predecessors)
  }

  /** The body of the row loop for row i: places[i] gets the places at the 1s
    * of the row as its successors, and is added to the predecessors of each
    * of them, left to right. */
  method LinkRow(places: seq<Place>, m: seq<seq<int>>, i: nat)
    requires NoDuplicates(places) && IsSquare(m, |places|) && i < |places|
    modifies places
    ensures SuccessorLists(places) == old(SuccessorLists(places))[i := SuccessorPlaces(places, m, i)]
    ensures PredecessorLists(places) == AddToEach(old(PredecessorLists(places)), OnesIn(m[i]), places[i])
  {
    var current := places[i];
    var successorIndices := WhereEqualsOne(m[i]);
    var successorPlaces := Picked(places, successorIndices);
    ghost var preds0 := PredecessorLists(places);
    current.successors := successorPlaces;
    assert PredecessorLists(places) == preds0;
    AddPredecessorToEach(places, successorIndices, current);
  }

  /** `successor.add_predecessor(current)` for each successor in turn; the
    * successors are the places at the indices idx, in order. */
  method AddPredecessorToEach(places: seq<Place>, idx: seq<nat>, current: Place)
    requires NoDuplicates(places)
    requires forall k :: 0 <= k < |idx| ==> idx[k] < |places|
    modifies places
    ensures SuccessorLists(places) == old(SuccessorLists(places))
    ensures PredecessorLists(places) == AddToEach(old(PredecessorLists(places)), idx, current)
  {
    ghost var succs0, target := SuccessorLists(places), AddToEach(PredecessorLists(places), idx, current);
    var k := 0;
    while k < |idx|
      invariant 0 <= k <= |idx|
      invariant SuccessorLists(places) == succs0
      invariant AddToEach(PredecessorLists(places), idx[k..], current) == target
    {
      var j := idx[k];
      assert idx[k..][1..] == idx[k + 1..];
      AddPredecessorOf(places, j, current);
      k := k + 1;
    }
  }

  /** `places[j].add_predecessor(current)`, seen on the lists of all places:
    * list j gets current unless it is there already, no other list changes. */
  method AddPredecessorOf(places: seq<Place>, j: nat, current: Place)
    requires NoDuplicates(places) && j < |places|
    modifies places[j]
    ensures SuccessorLists(places) == old(SuccessorLists(places))
    ensures PredecessorLists(places) ==
      old(PredecessorLists(places))[j := AddUnique(old(PredecessorLists(places))[j], current)]
  {
    ghost var preds0 := PredecessorLists(places);
    places[j].AddPredecessor(current);
    ghost var after := preds0[j := AddUnique(preds0[j], current)];
    forall q | 0 <= q < |places| ensures places[q].predecessors == after[q] {
      if q != j {
        assert places[q] != places[j];
      }
    }
  }

  // ---------------------------------------------------------------------------
  // GraphMap
  // ---------------------------------------------------------------------------

  /** The places, in the order of their names, and the square matrix that
    * connects them: row i, column j holding 1 is an edge from place i to j. */
  class GraphMap {
    const adjacencyMatrix: seq<seq<int>>
    const placesName: seq<string>
    var places: seq<Place>

    /** One distinct place per name, in order, and a matrix that fits them. */
    ghost predicate Valid()
      reads this
    {
      |places| == |placesName| &&
      (forall k :: 0 <= k < |places| ==> places[k].name == placesName[k]) &&
      NoDuplicates(places) &&
      IsSquare(adjacencyMatrix, |places|)
    }

    /** Every place's lists are exactly the ones the matrix prescribes. */
    ghost predicate Wired()
      reads this, places
    {
      IsSquare(adjacencyMatrix, |places|) &&
      SuccessorLists(places) == AllSuccessorPlaces(places, adjacencyMatrix) &&
      PredecessorLists(places) == AllPredecessorPlaces(places, adjacencyMatrix)
    }

    constructor (placesName: seq<string>, adjacencyMatrix: seq<seq<int>>)
      requires IsSquare(adjacencyMatrix, |placesName|)
      ensures this.placesName == placesName && this.adjacencyMatrix == adjacencyMatrix
      ensures Valid() && Wired()
      ensures forall k :: 0 <= k < |places| ==> fresh(places[k])
      ensures forall i, j :: 0 <= i < |places| && 0 <= j < |places| ==>
        (places[j] in places[i].successors <==> adjacencyMatrix[i][j] == 1) &&
        (places[i] in places[j].predecessors <==> adjacencyMatrix[i][j] == 1)
    {
      this.adjacencyMatrix := adjacencyMatrix;
      this.placesName := placesName;
      places := [];
      new;
      var i := 0;
      while i < |placesName|
        invariant 0 <= i <= |placesName| && |places| == i
        invariant forall k :: 0 <= k < i ==> fresh(places[k])
        invariant forall k :: 0 <= k < i ==> places[k].name == placesName[k]
        invariant forall k :: 0 <= k < i ==> places[k].successors == [] && places[k].predecessors == []
        invariant NoDuplicates(places)
      {
        var place := new Place(placesName[i], None, None);
        places := places + [place];
        i := i + 1;
      }
      var ps, m := places, adjacencyMatrix;
      assert PredecessorLists(ps) == seq(|ps|, _ => []);
      GenerateAdjacency();
      ScanFromEmpty(ps, m);
      forall i, j | 0 <= i < |ps| && 0 <= j < |ps|
        ensures (ps[j] in ps[i].successors <==> m[i][j] == 1) &&
                (ps[i] in ps[j].predecessors <==> m[i][j] == 1)
      {
        assert ps[i].successors == AllSuccessorPlaces(ps, m)[i];
        assert ps[j].predecessors == AllPredecessorPlaces(ps, m)[j];
        EdgeIffMatrixEntry(ps, m, i, j);
      }
    }

    /** Sets each place's successors from its row, then adds the place to the
      * predecessors of each of those successors, skipping ones present.
      * On a graph that is already wired this changes nothing. */
    method GenerateAdjacency()
      requires Valid()
      modifies places
      ensures SuccessorLists(places) == AllSuccessorPlaces(places, adjacencyMatrix)
      ensures PredecessorLists(places) == AppendColumns(old(PredecessorLists(places)), places, adjacencyMatrix)
      ensures old(Wired()) ==>
        SuccessorLists(places) == old(SuccessorLists(places)) &&
        PredecessorLists(places) == old(PredecessorLists(places))
    {
      var ps, m := places, adjacencyMatrix;
      var n := |ps|;
      ghost var succs0, preds0 := SuccessorLists(ps), PredecessorLists(ps);
      PredecessorsAfterNone(preds0, ps, m);
      var i := 0;
      while i < n
        invariant 0 <= i <= n
        invariant SuccessorLists(ps) == SuccessorsAfter(succs0, ps, m, i)
        invariant PredecessorLists(ps) == PredecessorsAfter(preds0, ps, m, i)
      {
        LinkRow(ps, m, i);
        SuccessorsAfterStep(succs0, ps, m, i);
        PredecessorsAfterStep(preds0, ps, m, i);
        i := i + 1;
      }
      assert succs0[n..] == [];
      PredecessorsAfterAll(preds0, ps, m);
      if old(Wired()) {
        RescanChangesNothing(ps, m);
      }
    }
  }
}

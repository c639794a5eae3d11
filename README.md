# Place graph of a board-game map

This project models the map of a board game. The map is a directed graph of
places, built from a list of place names and a square 0/1 adjacency matrix
(`src/game/graph_map.py`).

- **`Place`** is a mutable node with three fields:
  - a name;
  - a list of successor places;
  - a list of predecessor places.

  Its four mutators edit the lists in place:
  - `add_successor` and `add_predecessor` append a place unless it is already
    present;
  - `remove_successor` and `remove_predecessor` remove the first occurrence of
    a place, if there is one.

  Membership is object identity, because `Place` defines no equality.
- **`GraphMap`** creates one `Place` per name, in order, then wires the places
  with `generate_place_adjacency`. For each row `i` of the matrix it does two
  things:
  - it sets the successors of place `i` to the places at the columns holding
    exactly 1, left to right;
  - it calls `add_predecessor(place i)` on each of those places, in the same
    order.

The model has two modules:

- `Lists` (`lists.dfy`) holds Python's list behaviour as pure functions:
  - `AddUnique` is add-if-absent;
  - `AddAll` is repeated add-if-absent;
  - `RemoveFirst` is `list.remove` behind an `in` guard.

  The lemmas about these functions cover:
  - the order of the elements;
  - occurrences, counted as multisets;
  - freedom from duplicates;
  - add and remove undoing each other.
- `Graph` (`graph_map.dfy`) holds:
  - the classes `Place` and `GraphMap`, whose fields the methods update in place;
  - the `np.where` row scan, as a loop;
  - the module-level methods that run one row of the wiring loop;
  - the specification functions on the matrix that those methods are proved
    against.

  `Picked` models the comprehension `[self.places[j] for j in successor_indices]`
  of line 40, and `LinkRow` runs it; the lemma `PickedDistinct` states what it
  means. `SuccessorPlaces` and `PredecessorPlaces` state what each list must hold
  after wiring. `AddToEach` and `PredecessorsAfter` give the state after part
  of the scan.

The main results after construction:

- Every successor list is exactly the places of the row's 1s in column order.
- Every predecessor list is exactly the places of the column's 1s in row
  order.
- No list holds a place twice.
- `b` is a successor of `a` exactly when `a` is a predecessor of `b`, exactly
  when the matrix holds 1 at `(a, b)`. Self-loops are included.
- Wiring a second time changes nothing.

Three modelling choices follow the code:

- Values other than 1 are "no edge", because the scan compares with 1.
- The successor list is assigned, not appended to (line 42). Whatever the list
  held before is dropped. From the constructor's empty lists, and on a re-run
  over lists that are already wired, this gives the same result as appending
  each new successor if absent, because a row yields each column once.
- No shape check or shape error exists. The code never checks the matrix
  shape, so a square matrix is a precondition.

## Model

| member | source | states |
|---|---|---|
| `Lists.AddUnique` | src/game/graph_map.py:80-81 | the result holds x and every old element and nothing else, keeps the old list as a prefix, is the old list when x was present, otherwise has x appended as its one new last element, and stays duplicate-free |
| `Lists.AddAll` | src/game/graph_map.py:91-92 | adding a sequence of places one by one with add-if-absent keeps the old list as a prefix, adds every given element and nothing else, and keeps the list duplicate-free |
| `Lists.AddAllSnoc` | src/game/graph_map.py:44-45 | one more element added at the end is one more add-if-absent on the result so far |
| `Lists.AddAllIntoEmpty` | src/game/graph_map.py:91-92 | adding a duplicate-free list to an empty one yields that list unchanged, in its order |
| `Lists.AddAllAbsorbed` | src/game/graph_map.py:91-92 | adding only elements that are present already leaves the list unchanged |
| `Lists.FirstIndex` | src/game/graph_map.py:102 | the index found holds x and no earlier index does |
| `Lists.RemoveFirst` | src/game/graph_map.py:101-102 | absent x leaves the list unchanged; present x shortens it by exactly one |
| `Lists.RemoveFirstMultiset` | src/game/graph_map.py:101-102 | exactly one occurrence of x goes, if there is one, and no other element is lost or gained |
| `Lists.RemoveFirstIsSplice` | src/game/graph_map.py:111-112 | the occurrence removed is the first one, and the elements before and after it keep their order |
| `Lists.RemoveFirstOfDistinct` | src/game/graph_map.py:111-112 | in a duplicate-free list, removal keeps it duplicate-free and removes x and only x |
| `Lists.RemoveUndoesAdd` | src/game/graph_map.py:74-102 | removing a place just added where it was absent gives back the original list |
| `Lists.AddAfterRemove` | src/game/graph_map.py:85-112 | in a duplicate-free list, removing a present place and adding it back moves it to the end and leaves the others in order |
| `Graph.OnesIn` | src/game/graph_map.py:38-39 | every index returned lies inside the row |
| `Graph.OnesInSpec` | src/game/graph_map.py:38-39 | the indices returned are exactly the columns whose entry equals 1, each once, in ascending order |
| `Graph.PickedDistinct` | src/game/graph_map.py:40 | distinct places picked at increasing indices form a duplicate-free list of places that holds place j exactly when j is one of the indices |
| `Graph.AdjacencyListsDistinct` | src/game/graph_map.py:40-45 | the successor and predecessor lists prescribed by the matrix hold no place twice |
| `Graph.EdgeIffMatrixEntry` | src/game/graph_map.py:37-45 | place j is in the successor list of place i exactly when m[i][j] is 1, and place i is in the predecessor list of place j exactly when m[i][j] is 1, including i = j |
| `Graph.PredecessorsUpToIsPicked` | src/game/graph_map.py:37-45 | collecting column j's places row by row up to row i gives the places at the 1s of the first i entries of the column |
| `Graph.AddToEach` | src/game/graph_map.py:44-45 | calling add_predecessor on the places at a list of indices leaves the number of lists unchanged |
| `Graph.AddToEachAt` | src/game/graph_map.py:44-45 | with strictly increasing indices, each list named once gets the place added with add-if-absent, and every other list is unchanged |
| `Graph.PredecessorsAfterNone` | src/game/graph_map.py:37 | before any row is scanned every predecessor list is what it was |
| `Graph.PredecessorsAfterStep` | src/game/graph_map.py:37-45 | scanning row i adds place i, with add-if-absent, to the predecessor list of each place whose column holds 1 in row i, and changes no other list |
| `Graph.PredecessorsAfterAll` | src/game/graph_map.py:37-45 | after all rows, each predecessor list is its old contents with its column's places added top to bottom, each with add-if-absent |
| `Graph.ScanFromEmpty` | src/game/graph_map.py:18-25 | starting from empty lists, the scan gives each place exactly the places of its column's 1s, in row order |
| `Graph.RescanChangesNothing` | src/game/graph_map.py:42-45 | scanning again over lists that already match the matrix leaves every predecessor list unchanged |
| `Graph.SuccessorsAfterStep` | src/game/graph_map.py:42 | scanning row i sets the successor list of place i to the places of the row's 1s and no other successor list |
| `Graph.WhereEqualsOne` | src/game/graph_map.py:38-39 | the left-to-right scan returns the columns holding 1, in ascending order; column j is in the result exactly when entry j is 1 |
| `Graph.Place.constructor` | src/game/graph_map.py:57-71 | the name is stored, and each list is the one given, or empty when none is given |
| `Graph.Place.AddSuccessor` | src/game/graph_map.py:74-81 | the successor list becomes the add-if-absent of place; predecessors, name and the peer place are untouched |
| `Graph.Place.AddPredecessor` | src/game/graph_map.py:85-92 | the predecessor list becomes the add-if-absent of place; successors, name and the peer place are untouched |
| `Graph.Place.RemoveSuccessor` | src/game/graph_map.py:95-102 | the successor list loses the first occurrence of place, if any; predecessors, name and the peer place are untouched |
| `Graph.Place.RemovePredecessor` | src/game/graph_map.py:105-112 | the predecessor list loses the first occurrence of place, if any; successors, name and the peer place are untouched |
| `Graph.LinkRow` | src/game/graph_map.py:37-45 | one pass of the row loop: place i's successors become the row's prescribed list and no other successor list changes, and place i is added to the predecessors of each successor in order |
| `Graph.AddPredecessorToEach` | src/game/graph_map.py:44-45 | the inner loop adds current to the predecessor lists at the given indices, in order, with add-if-absent, and changes no successor list |
| `Graph.AddPredecessorOf` | src/game/graph_map.py:45 | one add_predecessor call changes one predecessor list, as add-if-absent, and no other list of any place |
| `Graph.GraphMap.constructor` | src/game/graph_map.py:10-25 | one fresh, distinct place per name, in order and with that name; every list matches the matrix; successor and predecessor membership each agree with the matrix entry, including self-loops |
| `Graph.GraphMap.GenerateAdjacency` | src/game/graph_map.py:29-45 | every successor list becomes its row's prescribed list; every predecessor list gains its column's places; on an already wired graph nothing changes |

## Left out

- The matrix has to be square, with one row per name. This is a precondition of `Graph.GraphMap.constructor`, `Graph.GraphMap.GenerateAdjacency` and `Graph.LinkRow`. Three behaviours of a non-square matrix are therefore not modelled:
  - `zip` stops at the shorter of the places and the rows;
  - a 1 beyond the last place raises IndexError;
  - a row shorter than the number of places raises no error: that place simply gets edges only to the first places, as many as the row has entries.
- Line 37 of `graph_map.py` zips over the bare name `adjacency_matrix`, which the module does not define. The model reads the matrix stored by the constructor, evidently what was meant. The NameError that the code as written raises is not modelled.
- numpy is not modelled: `np.array` and `np.where`. The row is a sequence of integers, and the scan is a loop that compares each entry with 1.
- Python's list objects are not modelled, only their values. In `Graph.Place.constructor`, a list passed by the caller is shared with the caller in Python, but the model stores a copy of its value. Likewise `current_place.successors` in Python is the same list object as the comprehension result. Nothing in the wired code mutates one of those lists through the other name. `GraphMap.__init__` (line 16) also keeps a reference to the caller's matrix, so in Python a re-run after the caller edits the matrix uses the edited rows; the model's constant `adjacencyMatrix` cannot show that.
- The `__repr__` methods of both classes are left out. They format strings only.
- The rest of the repository is not part of this model. That covers the JSON data loader, the card and character classes, the top-level script and the package re-exports.

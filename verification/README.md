# Sparse N-dimensional matrix — a Dafny model

This project models the `sparse_matrix` container template: an N-axis grid
that stores only the cells differing from a fixed default value, addressed by
chained subscripts `m[i0][i1]...[iN-1]` and iterated in ascending coordinate
order. The model has these parts, all over one ordered map:

- **Storage engine** (`storage.dfy`, module `Storage`): the matrix is a value
  `Matrix(dims, dflt, entries)` whose `entries: map<seq<nat>, V>` stands for the
  backing `std::map`, `dims` for the `matrix_size` template argument and
  `dflt` for `default_value`. Reading a cell without an entry yields the
  default; writing the default erases the entry; writing anything else inserts
  or overwrites it. The invariant `Valid` says that no entry holds the default
  and every key has `dims` components. Size, clear, copy and move
  construction, copy and move assignment and `==` act on the entry map only.
  A run of writes (`ApplyWrites`) is also modelled, to state what a sequence of
  assignments leaves behind.
- **Coordinate order** (`lex_order.dfy`, module `LexOrder`): the order
  `std::tuple` keys are kept in — lexicographic, axis 0 most significant —
  with a reference definition (first differing axis), its order laws, and the
  ascending key sequence of a set (`Ordered`), which is unique.
- **Index-chain resolver** (`index_chain.dfy`, module `IndexChain`): each
  subscript appends one index to a coordinate prefix and lowers the number of
  axes left; the terminal node reads or assigns exactly that coordinate.
- **Iteration** (`iteration.dfy`, module `Iteration`): a cursor over the keys in
  map order with begin, end, prefix and postfix `++`, position equality and
  dereference to the entry view "coordinates, then value"; `Traverse` is the
  range-for loop from `begin()` to `end()`.
- **Earlier header** (`legacy.dfy`, module `Legacy`): `sparse_matrix.h`, the
  same storage instantiated with default value -1 and two axes. Its interface
  has only construction, copy, move and `==`, so every matrix it can produce is
  empty, which is proved over all combinations of those operations.
- **Scenarios** (`scenarios.dfy`, module `Scenarios`): two- and three-axis
  cases, and the diagonal fill of the demonstration program.

Coordinates are `seq<nat>`; the integer type `V` of the elements is a type
parameter with equality. The container is functional here: every write returns
a new matrix value, which is what the C++ reference-through-`const_cast` write
amounts to.

## Model

| member | source | states |
|---|---|---|
| `LexOrder.LexLessIsFirstDifference` | src/sparse_matrix.hpp:70-71 | the key order decided axis by axis, axis 0 first, holds exactly when the two coordinates agree up to some axis and the first is smaller there |
| `LexOrder.LexIrreflexive` | src/sparse_matrix.hpp:70-71 | no coordinate precedes itself in the key order |
| `LexOrder.LexTransitive` | src/sparse_matrix.hpp:70-71 | the key order is transitive |
| `LexOrder.LexAsymmetric` | src/sparse_matrix.hpp:70-71 | two coordinates never precede each other |
| `LexOrder.LexTotal` | src/sparse_matrix.hpp:70-71 | two distinct coordinates of the same dimensionality are always ordered one way or the other |
| `LexOrder.AscendingIsPairwise` | src/sparse_matrix.hpp:155-181 | a key sequence whose neighbours are ordered has every earlier key before every later one, and conversely |
| `LexOrder.Least` | src/sparse_matrix.hpp:155-157 | the first key the map yields is a member of the key set and precedes every other key |
| `LexOrder.Ordered` | src/sparse_matrix.hpp:155-181 | the map-order key sequence is strictly ascending, holds exactly the keys of the set, and has one element per key |
| `LexOrder.AscendingUnique` | src/sparse_matrix.hpp:155-181 | two strictly ascending key sequences with the same elements are identical, so the iteration order is determined by the key set alone |
| `Storage.Empty` | src/sparse_matrix.hpp:86 | a default-constructed matrix satisfies the invariant, has size 0 and every cell reads as the default |
| `Storage.Get` | src/sparse_matrix.hpp:292-295 | reading never fails; it yields the stored value when the cell has an entry and the default when it has none, whether or not the invariant holds; on a valid matrix it yields the default exactly when the cell has no entry |
| `Storage.Set` | src/sparse_matrix.hpp:278-287 | after a write the cell reads the written value; every other cell reads and stores as before; a non-default write leaves an entry and grows the size by one only if the cell was empty; a default write leaves no entry and shrinks the size by one only if the cell was occupied; the invariant is preserved |
| `Storage.SetIdempotent` | src/sparse_matrix.hpp:278-287 | repeating a write changes nothing |
| `Storage.EraseAbsentIsNoOp` | src/sparse_matrix.hpp:281-285 | writing the default at a cell with no entry leaves the matrix unchanged |
| `Storage.Clear` | src/sparse_matrix.hpp:194-196 | after `clear()` the size is 0, every cell reads as the default and the invariant holds |
| `Storage.EqualIffSameReads` | src/sparse_matrix.hpp:131-133 | for valid matrices of one type, `==` on the entry maps holds exactly when every cell reads the same in both, regardless of the order of the writes that built them |
| `Storage.Copy` | src/sparse_matrix.hpp:92-93 | the copy compares equal to its original, has its type, reads the same at every cell and keeps the invariant |
| `Storage.MoveConstruct` | src/sparse_matrix.hpp:99-100 | the moved-to matrix holds exactly the entries the source held before the move |
| `Storage.CopyAssign` | src/sparse_matrix.hpp:111-116 | whether or not the target already compared equal to the source, afterwards the target's entries are the source's and it keeps its own type |
| `Storage.MoveAssign` | src/sparse_matrix.hpp:122-125 | after move assignment the target holds exactly the source's former entries |
| `Storage.CopyIsIndependent` | src/sparse_matrix.hpp:92-93 | a write to a matrix after copying it, or to the copy, does not change the cells of the other |
| `Storage.ApplyWrites` | src/sparse_matrix.hpp:278-287 | any sequence of assignments keeps the matrix type and the invariant |
| `Storage.ReadAfterWrites` | src/sparse_matrix.hpp:278-295 | after a sequence of assignments each cell reads as the last value assigned to it, or as before when it was never assigned |
| `Storage.LastWrittenUnwritten` | src/sparse_matrix.hpp:278-287 | a cell no assignment targets keeps its earlier value in the last-write record |
| `Storage.UnwrittenReadsDefault` | src/sparse_matrix.hpp:292-295 | starting from an empty matrix, a cell never assigned reads as the default |
| `IndexChain.Subscript` | src/sparse_matrix.hpp:139-149 | the matrix's subscript yields a resolver whose prefix is the one given index and whose remaining axes make up the rest of the dimensionality |
| `IndexChain.Step` | src/sparse_matrix.hpp:235-245 | one subscript on a resolver keeps the indices given so far, appends the new index after them and lowers the remaining axes by one |
| `IndexChain.Chain` | src/sparse_matrix.hpp:214-245 | a run of subscripts appends exactly those indices, in order, and lowers the remaining axes by their number |
| `IndexChain.Resolve` | src/sparse_matrix.hpp:139-149 | N chained subscripts reach the terminal node with the coordinate `(i0, ..., iN-1)` in subscript order |
| `IndexChain.Read` | src/sparse_matrix.hpp:292-295 | the terminal node converts to the stored value of its coordinate, or to the default when there is no entry |
| `IndexChain.Assign` | src/sparse_matrix.hpp:278-287 | assigning to the terminal node stores a non-default value at its coordinate or erases that coordinate's entry when given the default, keeping the invariant |
| `IndexChain.ChainReadsCell` | src/sparse_matrix.hpp:292-295 | reading through a full subscript chain reads exactly the addressed cell, and on a valid matrix yields the default exactly when that cell has no entry |
| `IndexChain.ChainWriteThenRead` | src/sparse_matrix.hpp:278-287 | after assigning through a chain, the same chain reads the assigned value and every other chain reads as before |
| `IndexChain.ChainsDistinguishCells` | src/sparse_matrix.hpp:235-245 | two subscript chains address the same cell exactly when their indices agree on every axis |
| `Iteration.LeastKey` | src/sparse_matrix.hpp:155-157 | picks from a non-empty key set the key that precedes all others |
| `Iteration.SortedKeys` | src/sparse_matrix.hpp:155-181 | yields the stored keys strictly ascending, each once, as many as `size()`, and equal to the map order |
| `Iteration.Begin` | src/sparse_matrix.hpp:155-165 | `begin()` and `cbegin()` point at the first key in map order, and equal the end exactly when the matrix is empty |
| `Iteration.End` | src/sparse_matrix.hpp:171-181 | `end()` and `cend()` point one past the last key, at position `size()` |
| `Iteration.NextIsSuccessor` | src/sparse_matrix.hpp:403-416 | prefix `++` moves from a stored key to its successor in map order: the next key is greater and no stored key lies strictly between; from the last key, which no stored key exceeds, it reaches `end()` at position `size()`; postfix `++` yields the old position and ends where prefix `++` does |
| `Iteration.SamePositionIsSameSlot` | src/sparse_matrix.hpp:423-434 | two iterators of one matrix compare equal exactly when they are at the same position, and an iterator is at the end exactly when its position is `size()` |
| `Iteration.Deref` | src/sparse_matrix.hpp:440-443 | dereferencing yields the coordinate at the iterator's position in map order, with all N components, followed by its stored value, which on a valid matrix is not the default |
| `Iteration.WriteThrough` | src/sparse_matrix.hpp:388-389 | assigning through the value reference of a dereferenced iterator changes only that cell, reads back the written value and keeps the key set and `size()` |
| `Iteration.WriteThroughVersusProxy` | src/sparse_matrix.hpp:440-443 | a non-default value written through an iterator gives the same matrix as the subscript assignment; the default value leaves a default-valued entry behind, so the invariant fails, `size()` is one more than after the subscript assignment and the two results compare unequal |
| `Iteration.ViewsAtExtend` | src/sparse_matrix.hpp:367-370 | dereferencing the next position appends that key's entry view to the views collected so far |
| `Iteration.ViewsInMapOrder` | src/sparse_matrix.hpp:440-443 | entry views taken at the keys in map order are as many as `size()`, strictly ascending, carry the stored values, and cover every entry |
| `Iteration.Traverse` | src/main.cpp:48-54 | the loop from `begin()` until `end()` visits every stored entry exactly once, in strictly ascending coordinate order, with its stored value, for `size()` items in all |
| `Iteration.EqualMatricesIterateAlike` | src/sparse_matrix.hpp:131-133 | matrices that compare equal iterate over the same key sequence |
| `Legacy.Eval` | src/sparse_matrix.h:62-101 | every matrix the earlier header's constructors and assignments produce has two axes, default -1 and satisfies the invariant |
| `Legacy.OnlyEmptyMatrices` | src/sparse_matrix.h:68-101 | no combination of the earlier header's copy and move operations ever yields an entry, so every cell reads -1 |
| `Legacy.AllCompareEqual` | src/sparse_matrix.h:107-109 | any two matrices of the earlier header compare equal |
| `Scenarios.TwoCellsIterateInOrder` | src/sparse_matrix.hpp:155-181 | with default 0, after `[0][0] = 5` and `[1][1] = 7` the size is 2, `[0][1]` reads 0 and iteration yields `(0, 0, 5)` then `(1, 1, 7)` |
| `Scenarios.WriteThenEraseLeavesNothing` | src/sparse_matrix.hpp:281-285 | `[2][2] = 3` followed by `[2][2] = 0` leaves size 0 and nothing to iterate |
| `Scenarios.ThreeAxes` | src/sparse_matrix.hpp:278-295 | in three axes, `[1][0][0] = 9` reads back 9, `[0][0][0]` reads the default and the size is 1 |
| `Scenarios.MainStep` | src/main.cpp:26-28 | writing the next main-diagonal cell keeps the earlier ones and stores nothing off the diagonal |
| `Scenarios.AntiStep` | src/main.cpp:31-33 | writing the next secondary-diagonal cell keeps every earlier diagonal cell's value, including the main diagonal, and stores nothing off the two diagonals |
| `Scenarios.FillDiagonals` | src/main.cpp:26-33 | after the demonstration's fill both diagonals read back their index values and every stored cell lies on one of them |

`Size` (`size()`, src/sparse_matrix.hpp:187-189), `Equal` (`operator==`,
src/sparse_matrix.hpp:131-133 and src/sparse_matrix.h:107-109), `Next` and
`PostNext` (the two `++` forms) carry no contract of their own; what they mean
is stated by `Set`, `Clear`, `Traverse`, `EqualIffSameReads`, `CopyAssign` and
`NextIsSuccessor` above.

## Left out

- The compile-time coordinate-type generator `generate_index_type`
  (src/sparse_matrix.hpp:36-52): pure type computation; coordinates are
  `seq<nat>` with a length requirement instead.
- Width of `size_t`: indices are unbounded naturals, so no wrap-around of a
  coordinate component is modelled.
- A matrix with zero axes: the first subscript (`Subscript`, `Resolve`)
  requires at least one axis, because with `matrix_size` 0 the chain's axis
  count `matrix_size - 1` wraps and the subscript has no terminal node.
- The state a moved-from matrix is left in: `std::map`'s move leaves it valid
  but unspecified, so only the target of a move is modelled.
- The const and non-const paths (subscript, iterators) are one model each:
  they build the same resolvers and cursors; the const subscript path only
  lacks the terminal write.
- Iteration.Deref: it and every other iteration member require the storage
  invariant, which holds only while every write goes through the subscript
  proxy. The non-const iterator's dereference also hands out a writable
  reference to the stored value (src/sparse_matrix.hpp:388-389); writing the
  default through it keeps a default-valued entry (`WriteThrough`,
  `WriteThroughVersusProxy`), after which iteration is not modelled.
- The reference held by resolvers and iterators, and what happens when the
  matrix is changed during iteration, when a resolver outlives its matrix, or
  when a caller keeps the reference the terminal node's conversion returns
  (it may point at the temporary node's own default member): undefined
  behaviour in C++, not a contract.
- Defects without semantic content: the postfix `++` of the const iterator
  declares a local of the non-const iterator type (src/sparse_matrix.hpp:340),
  modelled as "yield the old position, then advance"; the copy assignment uses
  an `operator!=` the class does not declare (src/sparse_matrix.hpp:112),
  modelled as the negation of `==`.
- The demonstration program's console output (src/main.cpp:35-70) and its
  second, checkerboard fill (src/main.cpp:78-98); `FillDiagonals` does not
  state the printed size.

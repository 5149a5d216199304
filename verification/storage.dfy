/**
  The storage engine of the sparse matrix: an ordered map from coordinates to
  values plus the default value every absent cell reads as. Writing the default
  erases a cell instead of storing it, so the map never holds a default-valued
  entry. The whole-matrix operations (size, clear, copy, move, equality) act on
  the entry map alone.
 */
module Storage {
  import opened LexOrder

  /** A matrix value. `dims` and `dflt` stand for the template arguments
      `matrix_size` and `default_value`, fixed for the matrix type; `entries` is
      the backing `std::map`. */
  datatype Matrix<V> = Matrix(dims: nat, dflt: V, entries: map<Coord, V>)

  /** Two matrices of one C++ type: same dimensionality and default value. */
  predicate SameType<V(==)>(a: Matrix<V>, b: Matrix<V>)
  {
    a.dims == b.dims && a.dflt == b.dflt
  }

  /** The storage invariant: every key is a full coordinate and no stored
      value equals the default. */
  predicate Valid<V(==)>(m: Matrix<V>)
  {
    forall c :: c in m.entries ==> |c| == m.dims && m.entries[c] != m.dflt
  }

  /** The default-constructed matrix: no entries. */
  function Empty<V(==)>(dims: nat, dflt: V): (m: Matrix<V>)
    ensures Valid(m) && m.dims == dims && m.dflt == dflt
    ensures Size(m) == 0
    ensures forall c :: Get(m, c) == dflt
  {
    Matrix(dims, dflt, map[])
  }

  /** Number of occupied cells (`size()`). */
  function Size<V>(m: Matrix<V>): nat
  {
    |m.entries|
  }

  /** Reading one cell: the stored value, or the default when the cell has no
      entry. Total: reading never fails. */
  function Get<V(==)>(m: Matrix<V>, c: Coord): (r: V)
    ensures c in m.entries ==> r == m.entries[c]
    ensures c !in m.entries ==> r == m.dflt
    ensures Valid(m) ==> (r == m.dflt <==> c !in m.entries)
  {
    if c in m.entries then m.entries[c] else m.dflt
  }

  /** Writing one cell: a non-default value is inserted or overwrites the
      entry; the default value erases the entry if there is one. */
  function Set<V(==)>(m: Matrix<V>, c: Coord, v: V): (r: Matrix<V>)
    requires |c| == m.dims
    ensures SameType(r, m)
    ensures Valid(m) ==> Valid(r)
    ensures Get(r, c) == v
    ensures forall c' :: c' != c ==> Get(r, c') == Get(m, c')
    ensures forall c' :: c' != c ==> (c' in r.entries <==> c' in m.entries)
    ensures forall c' :: c' != c && c' in m.entries ==> r.entries[c'] == m.entries[c']
    ensures v != m.dflt ==> c in r.entries && Size(r) == (if c in m.entries then Size(m) else Size(m) + 1)
    ensures v == m.dflt ==> c !in r.entries && Size(r) == (if c in m.entries then Size(m) - 1 else Size(m))
  {
    if v != m.dflt then
      m.(entries := m.entries[c := v])
    else if c in m.entries then
      var e := m.entries - {c};
      assert m.entries.Keys == e.Keys + {c};
      m.(entries := e)
    else
      m
  }

  /** Writing the same value twice is the same as writing it once. */
  lemma SetIdempotent<V>(m: Matrix<V>, c: Coord, v: V)
    requires |c| == m.dims
    ensures Set(Set(m, c, v), c, v) == Set(m, c, v)
  {
  }

  /** Writing the default at a cell that holds nothing changes nothing. */
  lemma EraseAbsentIsNoOp<V>(m: Matrix<V>, c: Coord)
    requires |c| == m.dims && c !in m.entries
    ensures Set(m, c, m.dflt) == m
  {
  }

  /** `clear()`: drops every entry. */
  function Clear<V(==)>(m: Matrix<V>): (r: Matrix<V>)
    ensures SameType(r, m) && Valid(r)
    ensures Size(r) == 0
    ensures forall c :: Get(r, c) == m.dflt
  {
    m.(entries := map[])
  }

  /** `operator==`: compares the entry maps only, never the default member. */
  predicate Equal<V(==)>(a: Matrix<V>, b: Matrix<V>)
  {
    a.entries == b.entries
  }

  /** For valid matrices of one type, equality holds exactly when every cell
      reads the same in both, whatever order the cells were written in. */
  lemma EqualIffSameReads<V>(a: Matrix<V>, b: Matrix<V>)
    requires Valid(a) && Valid(b) && SameType(a, b)
    ensures Equal(a, b) <==> forall c :: Get(a, c) == Get(b, c)
  {
    if forall c :: Get(a, c) == Get(b, c) {
      forall c | c in a.entries
        ensures c in b.entries && b.entries[c] == a.entries[c]
      {
        assert Get(a, c) == Get(b, c);
      }
      forall c | c in b.entries
        ensures c in a.entries
      {
        assert Get(a, c) == Get(b, c);
      }
      assert a.entries == b.entries;
    }
  }

  /** The copy constructor: a matrix holding the same entries. */
  function Copy<V(==)>(m: Matrix<V>): (r: Matrix<V>)
    ensures SameType(r, m) && Equal(r, m)
    ensures Valid(m) ==> Valid(r)
    ensures forall c :: Get(r, c) == Get(m, c)
  {
    Matrix(m.dims, m.dflt, m.entries)
  }

  /** The move constructor: the new matrix takes over the entries the source
      held before the move. What is left in the source is not modelled. */
  function MoveConstruct<V(==)>(m: Matrix<V>): (r: Matrix<V>)
    ensures SameType(r, m) && r.entries == m.entries
    ensures Valid(m) ==> Valid(r)
  {
    Matrix(m.dims, m.dflt, m.entries)
  }

  /** Copy assignment. The source guards the copy with a value comparison
      (`*this != other`) rather than an identity check; either way the target
      ends up holding exactly the source's entries. */
  function CopyAssign<V(==)>(target: Matrix<V>, source: Matrix<V>): (r: Matrix<V>)
    requires SameType(target, source)
    ensures SameType(r, target)
    ensures r.entries == source.entries && Equal(r, source)
    ensures Valid(source) ==> Valid(r)
  {
    if !Equal(target, source) then target.(entries := source.entries) else target
  }

  /** Move assignment: the target takes over the source's entries. */
  function MoveAssign<V(==)>(target: Matrix<V>, source: Matrix<V>): (r: Matrix<V>)
    requires SameType(target, source)
    ensures SameType(r, target)
    ensures r.entries == source.entries
    ensures Valid(source) ==> Valid(r)
  {
    target.(entries := source.entries)
  }

  /** A copy is independent of its original: writing to either one leaves the
      other's cells as they were. */
  lemma CopyIsIndependent<V>(a: Matrix<V>, c: Coord, v: V)
    requires |c| == a.dims
    ensures forall k :: Get(Copy(Set(a, c, v)), k) == Get(Set(a, c, v), k)
    ensures forall k :: Get(Set(Copy(a), c, v), k) == Get(Set(a, c, v), k)
    ensures Equal(Copy(a), a)
  {
  }

  /** One assignment through the value proxy: `matrix[at...] = value`. */
  datatype Write<V> = Write(at: Coord, value: V)

  /** Every write in `ws` addresses a full coordinate of `m`. */
  predicate WritesFit<V>(m: Matrix<V>, ws: seq<Write<V>>)
  {
    forall i :: 0 <= i < |ws| ==> |ws[i].at| == m.dims
  }

  /** The matrix after performing the writes in order. */
  function ApplyWrites<V(==)>(m: Matrix<V>, ws: seq<Write<V>>): (r: Matrix<V>)
    requires WritesFit(m, ws)
    ensures SameType(r, m)
    ensures Valid(m) ==> Valid(r)
    decreases |ws|
  {
    if ws == [] then m
    else
      var before := ApplyWrites(m, ws[..|ws| - 1]);
      Set(before, ws[|ws| - 1].at, ws[|ws| - 1].value)
  }

  /** The value of the last write to `c` in `ws`, or `otherwise` when `ws`
      never writes `c`. */
  function LastWritten<V>(ws: seq<Write<V>>, c: Coord, otherwise: V): V
    decreases |ws|
  {
    if ws == [] then otherwise
    else if ws[|ws| - 1].at == c then ws[|ws| - 1].value
    else LastWritten(ws[..|ws| - 1], c, otherwise)
  }

  /** After a run of writes each cell reads as the last value written to it,
      and a cell never written reads as it did before. */
  lemma {:induction false} ReadAfterWrites<V>(m: Matrix<V>, ws: seq<Write<V>>, c: Coord)
    requires WritesFit(m, ws)
    ensures Get(ApplyWrites(m, ws), c) == LastWritten(ws, c, Get(m, c))
    decreases |ws|
  {
    if ws != [] {
      var init := ws[..|ws| - 1];
      assert WritesFit(m, init);
      ReadAfterWrites(m, init, c);
    }
  }

  /** A value is only ever the last write to `c` if some write targets `c`. */
  lemma {:induction false} LastWrittenUnwritten<V>(ws: seq<Write<V>>, c: Coord, otherwise: V)
    requires forall i :: 0 <= i < |ws| ==> ws[i].at != c
    ensures LastWritten(ws, c, otherwise) == otherwise
    decreases |ws|
  {
    if ws != [] {
      LastWrittenUnwritten(ws[..|ws| - 1], c, otherwise);
    }
  }

  /** Starting from an empty matrix, every cell no write touched reads as the
      default. */
  lemma UnwrittenReadsDefault<V>(dims: nat, dflt: V, ws: seq<Write<V>>, c: Coord)
    requires WritesFit(Empty(dims, dflt), ws)
    requires forall i :: 0 <= i < |ws| ==> ws[i].at != c
    ensures Get(ApplyWrites(Empty(dims, dflt), ws), c) == dflt
  {
    ReadAfterWrites(Empty(dims, dflt), ws, c);
    LastWrittenUnwritten(ws, c, dflt);
  }
}

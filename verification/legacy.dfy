/**
  The earlier header `sparse_matrix.h`: the same entry map and the same
  copy, move and equality semantics, with default value -1 and no element
  access or iteration. Because nothing in its interface can add an entry,
  every matrix it can produce is empty.
 */
module Legacy {
  import opened Storage

  /** The default template arguments of the earlier header. */
  const LegacyDefault: int := -1
  const LegacyDims: nat := 2

  /** How a matrix of the earlier header comes about: its interface offers
      default construction, copy and move construction, and copy and move
      assignment. */
  datatype Origin =
    | Fresh
    | CopyOf(original: Origin)
    | MovedFrom(original: Origin)
    | CopyAssigned(target: Origin, source: Origin)
    | MoveAssigned(target: Origin, source: Origin)

  /** The matrix an origin produces; every one has the header's type and
      satisfies the storage invariant. */
  function Eval(o: Origin): (m: Matrix<int>)
    ensures m.dims == LegacyDims && m.dflt == LegacyDefault
    ensures Valid(m)
  {
    match o
    case Fresh => Empty(LegacyDims, LegacyDefault)
    case CopyOf(a) => Copy(Eval(a))
    case MovedFrom(a) => MoveConstruct(Eval(a))
    case CopyAssigned(t, s) => CopyAssign(Eval(t), Eval(s))
    case MoveAssigned(t, s) => MoveAssign(Eval(t), Eval(s))
  }

  /** No sequence of the header's operations ever stores an entry. */
  lemma {:induction false} OnlyEmptyMatrices(o: Origin)
    ensures Eval(o).entries == map[]
    ensures forall c :: Get(Eval(o), c) == LegacyDefault
  {
    match o
    case Fresh =>
    case CopyOf(a) => OnlyEmptyMatrices(a);
    case MovedFrom(a) => OnlyEmptyMatrices(a);
    case CopyAssigned(t, s) => OnlyEmptyMatrices(s);
    case MoveAssigned(t, s) => OnlyEmptyMatrices(s);
  }

  /** Consequently any two matrices of the header compare equal. */
  lemma AllCompareEqual(a: Origin, b: Origin)
    ensures Equal(Eval(a), Eval(b))
  {
    OnlyEmptyMatrices(a);
    OnlyEmptyMatrices(b);
  }
}

/**
  The index-chain resolver behind `matrix[i0][i1]...[iN-1]`. Each subscript
  yields a resolver that carries the indices seen so far and the number of axes
  still to index; after the last axis the terminal node (`index_matrix<0>`)
  reads or writes exactly the accumulated coordinate. The const and non-const
  subscript paths build the same resolvers; only the terminal write is denied
  on the const path, which the model reflects by the read and write being
  separate operations.
 */
module IndexChain {
  import opened LexOrder
  import opened Storage

  /** `index_matrix<remaining, ...>` holding the indices given so far. */
  datatype Resolver = Resolver(prefix: Coord, remaining: nat)

  /** A resolver created from a matrix with `m.dims` axes: the indices given
      plus the axes left always make up the full dimensionality. */
  predicate BoundTo<V>(r: Resolver, m: Matrix<V>)
  {
    |r.prefix| + r.remaining == m.dims
  }

  /** The terminal node: every axis has been indexed. */
  predicate Complete(r: Resolver)
  {
    r.remaining == 0
  }

  /** `matrix[i]`: the first subscript, on axis 0. */
  function Subscript<V>(m: Matrix<V>, i: nat): (r: Resolver)
    requires m.dims >= 1
    ensures BoundTo(r, m)
    ensures |r.prefix| == 1 && r.prefix[0] == i
  {
    Resolver([i], m.dims - 1)
  }

  /** `resolver[i]`: one more subscript on the next axis. */
  function Step(r: Resolver, i: nat): (r': Resolver)
    requires r.remaining >= 1
    ensures |r'.prefix| == |r.prefix| + 1 && r'.remaining == r.remaining - 1
    ensures r.prefix < r'.prefix && r'.prefix[|r.prefix|] == i
  {
    Resolver(r.prefix + [i], r.remaining - 1)
  }

  /** Applying the subscripts `idx` one after another. */
  function Chain(r: Resolver, idx: seq<nat>): (r': Resolver)
    requires |idx| <= r.remaining
    ensures r'.prefix == r.prefix + idx
    ensures r'.remaining == r.remaining - |idx|
    decreases |idx|
  {
    if idx == [] then r
    else
      var next := Chain(Step(r, idx[0]), idx[1..]);
      assert r.prefix + [idx[0]] + idx[1..] == r.prefix + idx;
      next
  }

  /** `matrix[idx[0]]...[idx[N-1]]`: the full subscript chain. */
  function Resolve<V>(m: Matrix<V>, idx: Coord): (r: Resolver)
    requires m.dims >= 1 && |idx| == m.dims
    ensures BoundTo(r, m) && Complete(r)
    ensures r.prefix == idx
  {
    Chain(Subscript(m, idx[0]), idx[1..])
  }

  /** Conversion of the terminal node to a value: the stored value of its
      coordinate if there is an entry, the default otherwise. */
  function Read<V(==)>(m: Matrix<V>, r: Resolver): (v: V)
    requires BoundTo(r, m) && Complete(r)
    ensures r.prefix in m.entries ==> v == m.entries[r.prefix]
    ensures r.prefix !in m.entries ==> v == m.dflt
  {
    Get(m, r.prefix)
  }

  /** Assignment to the terminal node: stores a non-default value at its
      coordinate, erases the entry when given the default. */
  function Assign<V(==)>(m: Matrix<V>, r: Resolver, v: V): (m': Matrix<V>)
    requires BoundTo(r, m) && Complete(r)
    ensures SameType(m', m)
    ensures Valid(m) ==> Valid(m')
    ensures v != m.dflt ==> m'.entries == m.entries[r.prefix := v]
    ensures v == m.dflt ==> m'.entries == m.entries - {r.prefix}
  {
    Set(m, r.prefix, v)
  }

  /** A full subscript chain reads exactly the cell `(idx[0], ..., idx[N-1])`,
      in that axis order. */
  lemma ChainReadsCell<V>(m: Matrix<V>, idx: Coord)
    requires m.dims >= 1 && |idx| == m.dims
    ensures Read(m, Resolve(m, idx)) == Get(m, idx)
    ensures Valid(m) ==> (Read(m, Resolve(m, idx)) == m.dflt <==> idx !in m.entries)
  {
  }

  /** Assigning through a full subscript chain and reading back through
      another chain: the same coordinate yields the assigned value, every
      other coordinate reads as before. */
  lemma ChainWriteThenRead<V>(m: Matrix<V>, idx: Coord, v: V, other: Coord)
    requires m.dims >= 1 && |idx| == m.dims && |other| == m.dims
    ensures Read(Assign(m, Resolve(m, idx), v), Resolve(m, idx)) == v
    ensures other != idx ==>
      Read(Assign(m, Resolve(m, idx), v), Resolve(m, other)) == Read(m, Resolve(m, other))
  {
  }

  /** Two chains address the same cell only when their indices agree on
      every axis. */
  lemma ChainsDistinguishCells<V>(m: Matrix<V>, idx: Coord, idx': Coord)
    requires m.dims >= 1 && |idx| == m.dims && |idx'| == m.dims
    ensures Resolve(m, idx).prefix == Resolve(m, idx').prefix <==> idx == idx'
  {
  }
}

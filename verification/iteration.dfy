/**
  Iteration over a sparse matrix. The iterators wrap the backing map's cursor:
  they walk the stored entries in ascending coordinate order and dereference to
  an entry view, the coordinate components followed by the value. Only stored
  (non-default) cells are visited, never the whole coordinate space. The const
  iterator behaves identically and is modelled by the same cursor.
 */
module Iteration {
  import opened LexOrder
  import opened Storage

  /** The tuple an iterator dereferences to: the N coordinates, then the value. */
  datatype EntryView<V> = EntryView(coords: Coord, value: V)

  /** A position in the ordered entry map: the keys in map order and an index
      into them; `pos == |keys|` is the end position. */
  datatype Cursor = Cursor(keys: seq<Coord>, pos: nat)

  /** The keys of `m` in the order the backing map holds them. */
  ghost function MapOrder<V>(m: Matrix<V>): seq<Coord>
    requires Valid(m)
  {
    assert AllOfRank(m.entries.Keys, m.dims);
    Ordered(m.entries.Keys, m.dims)
  }

  /** `c` is a cursor into `m`'s entry map. */
  ghost predicate CursorOf<V>(m: Matrix<V>, c: Cursor)
  {
    Valid(m) && c.keys == MapOrder(m) && c.pos <= |c.keys|
  }

  /** The least key of a non-empty set of full coordinates of `m`. */
  method LeastKey(keys: set<Coord>, ghost n: nat) returns (least: Coord)
    requires keys != {} && AllOfRank(keys, n)
    ensures least in keys
    ensures forall k :: k in keys && k != least ==> LexLess(least, k)
  {
    least :| least in keys;
    var todo := keys - {least};
    while todo != {}
      invariant todo <= keys && least in keys && least !in todo
      invariant forall k :: k in keys - todo && k != least ==> LexLess(least, k)
      decreases |todo|
    {
      var k :| k in todo;
      if LexLess(k, least) {
        forall j | j in keys - todo && j != least
          ensures LexLess(k, j)
        {
          LexTransitive(k, least, j);
        }
        least := k;
      } else {
        LexTotal(k, least);
      }
      todo := todo - {k};
    }
  }

  /** The keys of `m` sorted by repeatedly taking the least remaining one:
      the order the backing ordered map keeps them in. */
  method SortedKeys<V(==)>(m: Matrix<V>) returns (ks: seq<Coord>)
    requires Valid(m)
    ensures Ascending(ks)
    ensures forall k :: k in ks <==> k in m.entries
    ensures |ks| == Size(m)
    ensures ks == MapOrder(m)
  {
    ks := [];
    var rest := m.entries.Keys;
    while rest != {}
      invariant rest <= m.entries.Keys
      invariant PairwiseAscending(ks)
      invariant forall k :: k in ks <==> k in m.entries.Keys - rest
      invariant forall i, k :: 0 <= i < |ks| && k in rest ==> LexLess(ks[i], k)
      invariant |ks| + |rest| == |m.entries.Keys|
      decreases |rest|
    {
      var least := LeastKey(rest, m.dims);
      ks := ks + [least];
      rest := rest - {least};
    }
    AscendingIsPairwise(ks);
    AscendingUnique(ks, MapOrder(m));
  }

  /** `begin()` / `cbegin()`: the first entry, or the end when there is none. */
  method Begin<V(==)>(m: Matrix<V>) returns (c: Cursor)
    requires Valid(m)
    ensures CursorOf(m, c) && c.pos == 0
    ensures c.pos == |c.keys| <==> Size(m) == 0
  {
    var ks := SortedKeys(m);
    c := Cursor(ks, 0);
  }

  /** `end()` / `cend()`: one past the last entry. */
  method End<V(==)>(m: Matrix<V>) returns (c: Cursor)
    requires Valid(m)
    ensures CursorOf(m, c) && c.pos == Size(m)
  {
    var ks := SortedKeys(m);
    c := Cursor(ks, |ks|);
  }

  /** Prefix `++`: advances to the next position of the same map order. */
  function Next(c: Cursor): Cursor
    requires c.pos < |c.keys|
  {
    c.(pos := c.pos + 1)
  }

  /** Postfix `++`: yields the position held before advancing, and the
      advanced position. */
  function PostNext(c: Cursor): (Cursor, Cursor)
    requires c.pos < |c.keys|
  {
    (c, Next(c))
  }

  /** Advancing moves from a stored key to its successor: the next key is
      greater, and no stored key lies strictly between the two. Advancing from
      the last key reaches `end()`, and no stored key is greater than the last.
      The postfix form yields the old position and leaves the cursor where
      prefix `++` does. */
  lemma NextIsSuccessor<V>(m: Matrix<V>, c: Cursor)
    requires CursorOf(m, c) && c.pos < |c.keys|
    ensures CursorOf(m, Next(c))
    ensures c.pos + 1 < |c.keys| ==> LexLess(c.keys[c.pos], Next(c).keys[Next(c).pos])
    ensures c.pos + 1 < |c.keys| ==> forall k :: k in m.entries ==>
      !(LexLess(c.keys[c.pos], k) && LexLess(k, Next(c).keys[Next(c).pos]))
    ensures c.pos + 1 == |c.keys| ==> Next(c).pos == Size(m)
    ensures c.pos + 1 == |c.keys| ==> forall k :: k in m.entries ==> !LexLess(c.keys[c.pos], k)
    ensures PostNext(c).0 == c && SamePosition(PostNext(c).1, Next(c))
  {
    var ks := c.keys;
    var here := ks[c.pos];
    AscendingIsPairwise(ks);
    forall k | k in m.entries
      ensures c.pos + 1 < |ks| ==> !(LexLess(here, k) && LexLess(k, ks[c.pos + 1]))
      ensures c.pos + 1 == |ks| ==> !LexLess(here, k)
    {
      assert k in ks;
      var p :| 0 <= p < |ks| && ks[p] == k;
      if p < c.pos {
        LexAsymmetric(k, here);
      } else if p == c.pos {
        LexIrreflexive(k);
      } else if p == c.pos + 1 {
        LexIrreflexive(k);
      } else {
        LexAsymmetric(ks[c.pos + 1], k);
      }
    }
  }

  /** Iterator `==` / `!=`: equal when both point at the same entry slot. */
  predicate SamePosition(a: Cursor, b: Cursor)
  {
    a.pos == b.pos
  }

  /** Two cursors into one matrix compare equal exactly when they are the same
      position, and a cursor equals `end()` exactly when it is past the last
      entry. */
  lemma SamePositionIsSameSlot<V>(m: Matrix<V>, a: Cursor, b: Cursor)
    requires CursorOf(m, a) && CursorOf(m, b)
    ensures SamePosition(a, b) <==> a == b
    ensures a.pos == Size(m) <==> a.pos == |a.keys|
  {
  }

  /** Dereference: the coordinates of the entry under the cursor followed by
      its stored value. */
  function Deref<V(==)>(m: Matrix<V>, c: Cursor): (e: EntryView<V>)
    requires Valid(m) && c.keys == MapOrder(m) && c.pos < |c.keys|
    ensures e.coords == c.keys[c.pos]
    ensures e.coords in m.entries && e.value == m.entries[e.coords]
    ensures |e.coords| == m.dims && e.value != m.dflt
  {
    var k := c.keys[c.pos];
    assert k in MapOrder(m);
    EntryView(k, m.entries[k])
  }

  /** Assigning through the value reference a dereferenced iterator holds:
      the entry under the cursor is overwritten in place, bypassing the
      proxy's erase-on-default rule. */
  function WriteThrough<V(==)>(m: Matrix<V>, c: Cursor, v: V): (r: Matrix<V>)
    requires CursorOf(m, c) && c.pos < |c.keys|
    ensures SameType(r, m) && r.entries.Keys == m.entries.Keys && Size(r) == Size(m)
    ensures Get(r, c.keys[c.pos]) == v
    ensures forall k :: k != c.keys[c.pos] ==> Get(r, k) == Get(m, k)
  {
    var k := c.keys[c.pos];
    assert k in MapOrder(m);
    m.(entries := m.entries[k := v])
  }

  /** A non-default value written through an iterator agrees with the same
      assignment through the subscript proxy. The default value does not: the
      entry stays, so the storage invariant breaks, `size()` still counts the
      cell, and the result compares unequal to the proxy write, which erased
      it. */
  lemma WriteThroughVersusProxy<V>(m: Matrix<V>, c: Cursor, v: V)
    requires CursorOf(m, c) && c.pos < |c.keys|
    ensures c.keys[c.pos] in m.entries && |c.keys[c.pos]| == m.dims
    ensures v != m.dflt ==> WriteThrough(m, c, v) == Set(m, c.keys[c.pos], v)
    ensures v == m.dflt ==> !Valid(WriteThrough(m, c, v))
    ensures v == m.dflt ==> Size(WriteThrough(m, c, v)) == Size(Set(m, c.keys[c.pos], v)) + 1
    ensures v == m.dflt ==> !Equal(WriteThrough(m, c, v), Set(m, c.keys[c.pos], v))
  {
  }

  /** `items` are the entry views of `m` at the keys `ks`, in the same order. */
  ghost predicate ViewsAt<V>(m: Matrix<V>, ks: seq<Coord>, items: seq<EntryView<V>>)
  {
    && |items| == |ks|
    && forall i :: 0 <= i < |ks| ==> ks[i] in m.entries && items[i] == EntryView(ks[i], m.entries[ks[i]])
  }

  /** Dereferencing one more cursor position extends the views by one. */
  lemma ViewsAtExtend<V>(m: Matrix<V>, c: Cursor, items: seq<EntryView<V>>)
    requires CursorOf(m, c) && c.pos < |c.keys| && ViewsAt(m, c.keys[..c.pos], items)
    ensures ViewsAt(m, c.keys[..c.pos + 1], items + [Deref(m, c)])
  {
    var ks := c.keys[..c.pos + 1];
    var e := Deref(m, c);
    forall i | 0 <= i < |ks|
      ensures ks[i] in m.entries && (items + [e])[i] == EntryView(ks[i], m.entries[ks[i]])
    {
      if i < c.pos {
        assert ks[i] == c.keys[..c.pos][i];
      }
    }
  }

  /** Views taken at the keys in map order list every entry once, ascending. */
  lemma ViewsInMapOrder<V>(m: Matrix<V>, items: seq<EntryView<V>>)
    requires Valid(m) && ViewsAt(m, MapOrder(m), items)
    ensures |items| == Size(m)
    ensures forall i, j :: 0 <= i < j < |items| ==> LexLess(items[i].coords, items[j].coords)
    ensures forall i :: 0 <= i < |items| ==>
      items[i].coords in m.entries && items[i].value == m.entries[items[i].coords]
    ensures forall k :: k in m.entries ==> exists i :: 0 <= i < |items| && items[i].coords == k
  {
    var ks := MapOrder(m);
    AscendingIsPairwise(ks);
    forall k | k in m.entries
      ensures exists i :: 0 <= i < |items| && items[i].coords == k
    {
      assert k in ks;
      var i :| 0 <= i < |ks| && ks[i] == k;
      assert items[i].coords == k;
    }
  }

  /** A range-for over the matrix: from `begin()` until the cursor equals
      `end()`, dereferencing and advancing. Each stored entry is visited once,
      in strictly ascending coordinate order, and the number of items is
      `size()`. */
  method Traverse<V(==)>(m: Matrix<V>) returns (items: seq<EntryView<V>>)
    requires Valid(m)
    ensures |items| == Size(m)
    ensures forall i, j :: 0 <= i < j < |items| ==> LexLess(items[i].coords, items[j].coords)
    ensures forall i :: 0 <= i < |items| ==>
      items[i].coords in m.entries && items[i].value == m.entries[items[i].coords]
    ensures forall k :: k in m.entries ==> exists i :: 0 <= i < |items| && items[i].coords == k
  {
    var it := Begin(m);
    var last := End(m);
    items := [];
    while !SamePosition(it, last)
      invariant CursorOf(m, it) && last.keys == it.keys && last.pos == |it.keys|
      invariant ViewsAt(m, it.keys[..it.pos], items)
      decreases |it.keys| - it.pos
    {
      ViewsAtExtend(m, it, items);
      items := items + [Deref(m, it)];
      it := Next(it);
    }
    assert it.keys[..it.pos] == it.keys;
    ViewsInMapOrder(m, items);
  }

  /** The sequence of visited entries is fully determined by the entry map:
      two matrices with the same entries iterate identically. */
  lemma EqualMatricesIterateAlike<V>(a: Matrix<V>, b: Matrix<V>)
    requires Valid(a) && Valid(b) && SameType(a, b) && Equal(a, b)
    ensures MapOrder(a) == MapOrder(b)
  {
  }
}

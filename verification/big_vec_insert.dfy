/** `BigVec::insert`: the bounds check, the splice into the target chunk and
    the cascade that pushes each full chunk's last element into the next. */
module BigVecInsert {
  import opened Outcomes
  import opened Chunks
  import opened BigVecs

  /** The bounds check of `insert`, on chunk position `q = index / cap` and
      offset `o = index % cap`: true when `insert` panics. */
  predicate InsertRejects<V>(b: BigVec<V>, q: nat, o: nat)
  {
    var n := |b.vecStructure|;
    || q > n
    || (q == n && o > 0)
    || (q + 1 == n && o >= b.vecStructure[n - 1])
  }

  /** `insert(index, element)` as written. */
  function Insert<V>(b: BigVec<V>, index: nat, x: V): Outcome<BigVec<V>>
  {
    if b.capacityPerVec == 0 then Panic(DivisionByZero)
    else
      var (q, o) := DivMod(index, b.capacityPerVec);
      if InsertRejects(b, q, o) then Panic(InsertOutOfBounds(index))
      else InsertAt(b, q, o, x)
  }

  /** `insert` with the bounds check the documentation describes (any
      index up to and including `len()` is accepted), working on directory
      position `index / cap`, whose chunk is stored under that position
      shifted by `start_index`. */
  function InsertIntended<V>(b: BigVec<V>, index: nat, x: V): Outcome<BigVec<V>>
  {
    if b.capacityPerVec == 0 then Panic(DivisionByZero)
    else if index > Len(b) then Panic(InsertOutOfBounds(index))
    else
      var (q, o) := DivMod(index, b.capacityPerVec);
      InsertInto(b, q, b.startIndex, o, x)
  }

  /** The body of `insert` after the bounds check, as written: the position
      `q + start_index` is used both as a directory position and as a store
      key. */
  function InsertAt<V>(b: BigVec<V>, q: nat, o: nat, x: V): Outcome<BigVec<V>>
  {
    InsertInto(b, q + b.startIndex, 0, o, x)
  }

  /** The body of `insert` on directory position `j`, whose chunk is stored
      under key `base + j`. Past the directory's end a one-element chunk is
      pushed; otherwise `x` goes in at offset `o` and, when the chunk
      overflows, its last element is carried into the next chunk. */
  function InsertInto<V>(b: BigVec<V>, j: nat, base: nat, o: nat, x: V): Outcome<BigVec<V>>
  {
    var key := base + j;
    if j >= |b.vecStructure| then
      Ok(b.(vecStructure := b.vecStructure + [1], vecData := b.vecData[key := [x]]))
    else if key !in b.vecData then Panic(BrokenBigVec)
    else
      var c := b.vecData[key];
      if o > |c| then Panic(IndexOutOfBounds)
      else
        var c' := c[..o] + [x] + c[o..];
        if |c'| <= b.capacityPerVec then
          Ok(b.(vecStructure := b.vecStructure[j := b.vecStructure[j] + 1],
                vecData := b.vecData[key := c']))
        else
          Cascade(Spill(b, key, c'), j + 1, base, c'[|c'| - 1])
  }

  /** `b` with the chunk at `key` replaced by `c` minus its last element,
      which the cascade carries on; the directory is left as it is. */
  function Spill<V>(b: BigVec<V>, key: nat, c: seq<V>): BigVec<V>
    requires |c| > 0
  {
    b.(vecData := b.vecData[key := c[..|c| - 1]])
  }

  /** The restructuring loop of `insert`, from directory position `idx`
      (store key `base + idx`): `t` goes to the front of that chunk; a chunk
      whose directory entry is below the capacity grows by one and the loop
      stops, a full one gives up its last element to the next chunk, and
      past the directory's end a new chunk `[t]` is pushed. */
  function Cascade<V>(b: BigVec<V>, idx: nat, base: nat, t: V): Outcome<BigVec<V>>
    decreases |b.vecStructure| - idx
  {
    var key := base + idx;
    if idx >= |b.vecStructure| then
      Ok(b.(vecStructure := b.vecStructure + [1], vecData := b.vecData[key := [t]]))
    else if key !in b.vecData then Panic(BrokenBigVec)
    else
      var c' := [t] + b.vecData[key];
      if b.vecStructure[idx] < b.capacityPerVec then
        Ok(b.(vecStructure := b.vecStructure[idx := b.vecStructure[idx] + 1],
              vecData := b.vecData[key := c']))
      else
        Cascade(Spill(b, key, c'), idx + 1, base, c'[|c'| - 1])
  }

  /** What the cascade from chunk `idx` achieves on a valid BigVec: `t`
      lands right after the first `idx` chunks, and the result is valid. */
  ghost predicate CarriedIn<V>(b: BigVec<V>, idx: nat, t: V, r: Outcome<BigVec<V>>)
    requires idx <= |b.vecStructure|
  {
    && r.Ok?
    && Valid(r.value)
    && r.value.startIndex == b.startIndex && r.value.capacityPerVec == b.capacityPerVec
    && Elems(r.value) == Flatten(ChunkList(b)[..idx]) + [t] + Flatten(ChunkList(b)[idx..])
  }

  /** Past the last chunk the cascade opens a new chunk `[t]`. */
  lemma CascadeAtEnd<V>(b: BigVec<V>, t: V)
    requires Valid(b) && |b.vecStructure| > 0
    requires b.vecStructure[|b.vecStructure| - 1] == b.capacityPerVec
    ensures CarriedIn(b, |b.vecStructure|, t, Cascade(b, |b.vecStructure|, b.startIndex, t))
  {
    var cs := ChunkList(b);
    AppendChunk(b, [t]);
    assert cs[..|cs|] == cs;
    assert cs[|cs|..] == [];
  }

  /** A chunk with room takes `t` at its front and the cascade stops. */
  lemma CascadeIntoRoom<V>(b: BigVec<V>, idx: nat, t: V)
    requires Valid(b) && idx < |b.vecStructure|
    requires b.vecStructure[idx] < b.capacityPerVec
    ensures CarriedIn(b, idx, t, Cascade(b, idx, b.startIndex, t))
  {
    var cs := ChunkList(b);
    ChunkFacts(b, idx);
    var c' := [t] + b.vecData[b.startIndex + idx];
    FlattenFrom(cs, idx);
    assert b.vecStructure[idx := b.vecStructure[idx] + 1] == b.vecStructure[idx := |c'|];
    assert Cascade(b, idx, b.startIndex, t) == Ok(WithChunk(b, idx, c'));
    ReplaceChunk(b, idx, c');
  }

  /** On a valid BigVec whose chunk `idx - 1` is full, the cascade with
      store keys shifted by `start_index` puts `t` right after the first
      `idx` chunks and leaves a valid BigVec. */
  lemma {:induction false} CascadeShifts<V>(b: BigVec<V>, idx: nat, t: V)
    requires Valid(b)
    requires 0 < idx <= |b.vecStructure| && b.vecStructure[idx - 1] == b.capacityPerVec
    ensures CarriedIn(b, idx, t, Cascade(b, idx, b.startIndex, t))
    decreases |b.vecStructure| - idx
  {
    var n := |b.vecStructure|;
    var cap := b.capacityPerVec;
    if idx >= n {
      CascadeAtEnd(b, t);
    } else if b.vecStructure[idx] < cap {
      CascadeIntoRoom(b, idx, t);
    } else {
      ChunkFacts(b, idx);
      var key := b.startIndex + idx;
      var c' := [t] + b.vecData[key];
      var b' := Spill(b, key, c');
      SpillKeepsShape(b, idx, c');
      var last := c'[|c'| - 1];
      CascadeShifts(b', idx + 1, last);
      CascadePassesOn(b, idx, t);
      CascadeOverflowJoins(b, idx, t, Cascade(b', idx + 1, b.startIndex, last));
    }
  }

  /** If `r` carries the last element of an overflowed full chunk `idx` on
      correctly, it carries `t` in correctly from `idx`. */
  lemma CascadeOverflowJoins<V>(b: BigVec<V>, idx: nat, t: V, r: Outcome<BigVec<V>>)
    requires Valid(b) && idx < |b.vecStructure| && b.vecStructure[idx] == b.capacityPerVec
    requires b.startIndex + idx in b.vecData
    requires var c' := [t] + b.vecData[b.startIndex + idx];
             var b' := Spill(b, b.startIndex + idx, c');
             && |c'| == b.capacityPerVec + 1 && b'.vecStructure == b.vecStructure
             && CarriedIn(b', idx + 1, c'[|c'| - 1], r)
    ensures CarriedIn(b, idx, t, r)
  {
    var cap := b.capacityPerVec;
    var c' := [t] + b.vecData[b.startIndex + idx];
    SpillKeepsShape(b, idx, c');
    OverflowRejoins(ChunkList(b), idx, t, c', cap, Elems(r.value));
  }

  /** At a full chunk the cascade keeps that chunk's first elements and
      carries its last one on to the next position. */
  lemma CascadePassesOn<V>(b: BigVec<V>, idx: nat, t: V)
    requires idx < |b.vecStructure| && b.startIndex + idx in b.vecData
    requires b.vecStructure[idx] >= b.capacityPerVec
    ensures var c' := [t] + b.vecData[b.startIndex + idx];
            var b' := Spill(b, b.startIndex + idx, c');
            && b'.startIndex == b.startIndex
            && Cascade(b, idx, b.startIndex, t) == Cascade(b', idx + 1, b.startIndex, c'[|c'| - 1])
  {
    var c' := [t] + b.vecData[b.startIndex + idx];
    assert Spill(b, b.startIndex + idx, c').startIndex == b.startIndex;
  }

  /** The flat sequence after the overflow of chunk `idx` moved on is the
      one with `t` in front of that chunk. */
  lemma OverflowRejoins<V>(cs: seq<seq<V>>, idx: nat, t: V, c': seq<V>, cap: nat, e: seq<V>)
    requires idx < |cs| && |c'| == cap + 1 && c' == [t] + cs[idx]
    requires e == Flatten(cs[idx := c'[..cap]][..idx + 1]) + [c'[cap]]
                  + Flatten(cs[idx := c'[..cap]][idx + 1..])
    ensures e == Flatten(cs[..idx]) + [t] + Flatten(cs[idx..])
  {
    FlattenFrom(cs, idx);
    SplitOverflow(cs, idx, c', cap);
  }

  /** The chunks before chunk `q` of a valid BigVec hold `q * cap` elements. */
  lemma PrefixOfValid<V>(b: BigVec<V>, q: nat)
    requires Valid(b) && q < |b.vecStructure|
    ensures |Flatten(ChunkList(b)[..q])| == q * b.capacityPerVec
  {
    var cs := ChunkList(b)[..q];
    forall m | 0 <= m < q
      ensures |cs[m]| == b.capacityPerVec
    {
      ChunkFacts(b, m);
    }
    FlattenOfFull(cs, b.capacityPerVec);
  }

  /** `r` is a valid BigVec (with the `start_index` and the capacity of
      `b`) holding the elements of `b` with `x` spliced in at position `i`. */
  ghost predicate SplicedIn<V>(b: BigVec<V>, i: nat, x: V, r: Outcome<BigVec<V>>)
  {
    && i <= |Elems(b)|
    && r.Ok?
    && Valid(r.value)
    && r.value.startIndex == b.startIndex && r.value.capacityPerVec == b.capacityPerVec
    && Elems(r.value) == Elems(b)[..i] + [x] + Elems(b)[i..]
  }

  /** Inserting at the directory's end opens a new chunk `[x]` after the
      others, under the key `start_index + vec_nb()`. */
  lemma InsertAtNewChunk<V>(b: BigVec<V>, o: nat, x: V)
    requires Wf(b)
    ensures var r := InsertInto(b, |b.vecStructure|, b.startIndex, o, x);
            && r.Ok?
            && Wf(r.value)
            && r.value.startIndex == b.startIndex && r.value.capacityPerVec == b.capacityPerVec
            && r.value.vecStructure == b.vecStructure + [1]
            && Elems(r.value) == Elems(b) + [x]
            && (Valid(b) && (|b.vecStructure| == 0 || b.vecStructure[|b.vecStructure| - 1] == b.capacityPerVec)
                ==> Valid(r.value))
  {
    AppendChunk(b, [x]);
  }

  /** Inserting into an existing chunk `q` of a valid BigVec at an offset
      `o` up to that chunk's size splices `x` in at flat position
      `q * cap + o` and keeps the BigVec valid. */
  lemma InsertAtSplices<V>(b: BigVec<V>, q: nat, o: nat, x: V)
    requires Valid(b) && q < |b.vecStructure| && o <= b.vecStructure[q]
    requires q + 1 < |b.vecStructure| ==> o < b.capacityPerVec
    ensures SplicedIn(b, q * b.capacityPerVec + o, x, InsertInto(b, q, b.startIndex, o, x))
  {
    var cs := ChunkList(b);
    ChunkFacts(b, q);
    var c := b.vecData[b.startIndex + q];
    PrefixOfValid(b, q);
    FlattenSplit(cs, q);
    SpliceInChunk(Flatten(cs[..q]), c, Flatten(cs[q + 1..]), o, x);
    InsertAtChunk(b, q, o, x);
  }

  /** Inserting into chunk `q` replaces that chunk, in the flat sequence,
      by the chunk with `x` spliced in at offset `o`. */
  lemma InsertAtChunk<V>(b: BigVec<V>, q: nat, o: nat, x: V)
    requires Valid(b) && q < |b.vecStructure| && o <= b.vecStructure[q]
    requires q + 1 < |b.vecStructure| ==> o < b.capacityPerVec
    ensures b.startIndex + q in b.vecData && o <= |b.vecData[b.startIndex + q]|
    ensures var c := b.vecData[b.startIndex + q];
            var r := InsertInto(b, q, b.startIndex, o, x);
            && r.Ok?
            && Valid(r.value)
            && r.value.startIndex == b.startIndex && r.value.capacityPerVec == b.capacityPerVec
            && Elems(r.value) == Flatten(ChunkList(b)[..q]) + (c[..o] + [x] + c[o..])
                                 + Flatten(ChunkList(b)[q + 1..])
  {
    var cap := b.capacityPerVec;
    ChunkFacts(b, q);
    var c := b.vecData[b.startIndex + q];
    var c' := c[..o] + [x] + c[o..];
    if |c'| <= cap {
      assert b.vecStructure[q := b.vecStructure[q] + 1] == b.vecStructure[q := |c'|];
      assert InsertInto(b, q, b.startIndex, o, x) == Ok(WithChunk(b, q, c'));
      ReplaceChunk(b, q, c');
    } else {
      InsertOverflows(b, q, c');
    }
  }

  /** A full chunk `q` that has grown to `cap + 1` keeps its first `cap`
      elements and the cascade carries the last one on: the flat sequence
      is the one with the grown chunk in place. */
  lemma InsertOverflows<V>(b: BigVec<V>, q: nat, c': seq<V>)
    requires Valid(b) && q < |b.vecStructure|
    requires b.vecStructure[q] == b.capacityPerVec && |c'| == b.capacityPerVec + 1
    ensures var r := Cascade(Spill(b, b.startIndex + q, c'), q + 1, b.startIndex, c'[b.capacityPerVec]);
            && r.Ok?
            && Valid(r.value)
            && r.value.startIndex == b.startIndex && r.value.capacityPerVec == b.capacityPerVec
            && Elems(r.value) == Flatten(ChunkList(b)[..q]) + c' + Flatten(ChunkList(b)[q + 1..])
  {
    var cap := b.capacityPerVec;
    SpillKeepsShape(b, q, c');
    CascadeShifts(Spill(b, b.startIndex + q, c'), q + 1, c'[cap]);
    SplitOverflow(ChunkList(b), q, c', cap);
  }

  /** Spilling an overflowed full chunk `j` (grown to `cap + 1`) keeps a
      valid BigVec whose chunk `j` is the first `cap` elements. */
  lemma SpillKeepsShape<V>(b: BigVec<V>, j: nat, c: seq<V>)
    requires Valid(b) && j < |b.vecStructure|
    requires b.vecStructure[j] == b.capacityPerVec && |c| == b.capacityPerVec + 1
    ensures var b' := Spill(b, b.startIndex + j, c);
            && Valid(b')
            && b'.startIndex == b.startIndex && b'.capacityPerVec == b.capacityPerVec
            && b'.vecStructure == b.vecStructure
            && ChunkList(b') == ChunkList(b)[j := c[..b.capacityPerVec]]
  {
    OverwriteChunk(b, j, c[..b.capacityPerVec]);
  }

  /** Chunk position `q` and offset `o` locate `index` for `insert` in a
      valid BigVec: `index == q * cap + o`, and either `q` is a chunk with
      the offset at most its size (below the capacity unless it is the last
      chunk), or `q` is one past the last, full chunk and `index == len()`. */
  ghost predicate Slot<V>(b: BigVec<V>, index: nat, q: nat, o: nat)
  {
    var n := |b.vecStructure|;
    && q * b.capacityPerVec + o == index
    && (q < n ==> o <= b.vecStructure[q] && (q + 1 < n ==> o < b.capacityPerVec))
    && (q >= n ==> q == n && o == 0 && index == Len(b)
                   && (n == 0 || b.vecStructure[n - 1] == b.capacityPerVec))
  }

  /** On a valid BigVec, chunk position `index / cap` and offset
      `index % cap` of an index up to `len()` locate it as `Slot` says. */
  lemma InsertPosition<V>(b: BigVec<V>, index: nat) returns (q: nat, o: nat)
    requires Valid(b) && index <= Len(b)
    ensures DivMod(index, b.capacityPerVec) == (q, o)
    ensures Slot(b, index, q, o)
  {
    var n := |b.vecStructure|;
    var last := if n == 0 then 0 else b.vecStructure[n - 1];
    if n > 0 {
      LenOfValid(b);
    }
    q, o := DivMod(index, b.capacityPerVec).0, DivMod(index, b.capacityPerVec).1;
    InsertArith(n, b.capacityPerVec, last, Len(b), index, q, o);
    SlotOfArith(b, index, q, o, last);
  }



  /** The arithmetic facts `InsertArith` gives, read on the BigVec. */
  lemma SlotOfArith<V>(b: BigVec<V>, index: nat, q: nat, o: nat, last: nat)
    requires Valid(b) && index <= Len(b)
    requires q * b.capacityPerVec + o == index && o < b.capacityPerVec
    requires |b.vecStructure| > 0 ==> last == b.vecStructure[|b.vecStructure| - 1]
    requires var n := |b.vecStructure|;
             || (q < n && (q + 1 == n ==> o <= last))
             || (q == n && o == 0 && index == Len(b) && (n == 0 || last == b.capacityPerVec))
    ensures Slot(b, index, q, o)
  {
    if q + 1 < |b.vecStructure| {
      assert b.vecStructure[q] == b.capacityPerVec;
    }
  }

  /** On a valid BigVec `insert` panics for being out of bounds exactly when
      the index is at least `len()` and differs from `vec_nb() * cap`: every
      index below `len()` is accepted, and so is `vec_nb() * cap`, even when
      that is beyond `len()`, while `len()` itself is refused whenever the
      last chunk is not full. */
  lemma InsertRejectsExactly<V>(b: BigVec<V>, index: nat, x: V)
    requires Valid(b)
    ensures Insert(b, index, x).Panic? && Insert(b, index, x).reason.InsertOutOfBounds?
            <==> !(index < Len(b) || index == |b.vecStructure| * b.capacityPerVec)
  {
    var n := |b.vecStructure|;
    var (q, o) := DivMod(index, b.capacityPerVec);
    InsertAtNeverOutOfBounds(b, q + b.startIndex, 0, o, x);
    var last := if n == 0 then 0 else b.vecStructure[n - 1];
    if n > 0 {
      LenOfValid(b);
    }
    InsertArith(n, b.capacityPerVec, last, Len(b), index, q, o);
  }

  /** `insert` as written, on a valid BigVec with `start_index == 0` and an
      index up to `len()`: it succeeds exactly for indexes below `len()` and
      for `len()` when every chunk is full, and then splices `x` in at
      `index` and keeps the BigVec valid. */
  lemma InsertSplices<V>(b: BigVec<V>, index: nat, x: V)
    requires Valid(b) && b.startIndex == 0 && index <= Len(b)
    ensures |Elems(b)| == Len(b)
    ensures Insert(b, index, x).Ok? <==> index < Len(b) || index == |b.vecStructure| * b.capacityPerVec
    ensures var r := Insert(b, index, x);
            r.Ok? ==> && Valid(r.value)
                      && Elems(r.value) == Elems(b)[..index] + [x] + Elems(b)[index..]
  {
    ElemsLength(b);
    InsertRejectsExactly(b, index, x);
    InsertAtIndex(b, index, x);
  }

  /** `insert(vec_nb() * cap, x)` on a valid BigVec whose last chunk is not
      full gets past the bounds check although the index exceeds `len()`:
      `x` lands at the end in a new chunk after the partial one, and the
      BigVec is no longer valid. */
  lemma InsertPastEndAppends<V>(b: BigVec<V>, index: nat, x: V)
    requires Valid(b) && b.startIndex == 0
    requires Len(b) < index == |b.vecStructure| * b.capacityPerVec
    ensures var r := Insert(b, index, x);
            && r.Ok?
            && Wf(r.value) && !Valid(r.value)
            && Elems(r.value) == Elems(b) + [x]
  {
    var n := |b.vecStructure|;
    var cap := b.capacityPerVec;
    DivModUnique(index, cap, n, 0);
    InsertRejectsExactly(b, index, x);
    InsertAtNewChunk(b, 0, x);
    LenOfValid(b);
    var r := Insert(b, index, x).value;
    assert r.vecStructure[n - 1] < cap;
  }

  /** The body of `insert`, with store keys shifted by `start_index`, at an
      index up to `len()` of a valid BigVec splices `x` in and keeps the
      BigVec valid. */
  lemma InsertAtIndex<V>(b: BigVec<V>, index: nat, x: V)
    requires Valid(b) && index <= Len(b)
    ensures var (q, o) := DivMod(index, b.capacityPerVec);
            SplicedIn(b, index, x, InsertInto(b, q, b.startIndex, o, x))
  {
    var q, o := InsertPosition(b, index);
    InsertAtSlot(b, index, q, o, x);
  }


  /** Inserting at a slot of a valid BigVec splices `x` in at `index` and
      keeps the BigVec valid. */
  lemma InsertAtSlot<V>(b: BigVec<V>, index: nat, q: nat, o: nat, x: V)
    requires Valid(b) && Slot(b, index, q, o)
    ensures SplicedIn(b, index, x, InsertInto(b, q, b.startIndex, o, x))
  {
    ElemsLength(b);
    if q >= |b.vecStructure| {
      InsertAtNewChunk(b, o, x);
      assert Elems(b)[..index] == Elems(b);
    } else {
      InsertAtSplices(b, q, o, x);
    }
  }


  /** The corrected `insert`, on every valid BigVec whatever its
      `start_index`, panics exactly for indexes beyond `len()`; otherwise it
      splices `x` in at `index`, adds one to `len()` and keeps the BigVec
      valid. */
  lemma InsertIntendedSplices<V>(b: BigVec<V>, index: nat, x: V)
    requires Valid(b)
    ensures |Elems(b)| == Len(b)
    ensures InsertIntended(b, index, x).Panic? <==> index > Len(b)
    ensures index > Len(b) ==> InsertIntended(b, index, x) == Panic(InsertOutOfBounds(index))
    ensures var r := InsertIntended(b, index, x);
            index <= Len(b) ==> && r.Ok?
                                && Valid(r.value)
                                && Len(r.value) == Len(b) + 1
                                && Elems(r.value) == Elems(b)[..index] + [x] + Elems(b)[index..]
  {
    ElemsLength(b);
    if index <= Len(b) {
      InsertAtIndex(b, index, x);
      ElemsLength(InsertIntended(b, index, x).value);
    }
  }

  /** With capacity 3 and chunks `[1, 2, 3]`, `[4]`, `len()` is 4, yet
      `insert(4, 5)` panics as out of bounds; the corrected `insert` appends
      5, and `insert(6, 5)` is let through and opens a chunk after the
      partial one. */
  lemma InsertAtLenPanics()
    ensures var b := BigVec(0, 3, [3, 1], map[0 := [1, 2, 3], 1 := [4]]);
            && Valid(b) && Len(b) == 4 && Elems(b) == [1, 2, 3, 4]
            && Insert(b, 4, 5) == Panic(InsertOutOfBounds(4))
            && InsertIntended(b, 4, 5).Ok?
            && Elems(InsertIntended(b, 4, 5).value) == [1, 2, 3, 4, 5]
            && Insert(b, 6, 5) == Ok(BigVec(0, 3, [3, 1, 1], map[0 := [1, 2, 3], 1 := [4], 2 := [5]]))
  {
    var b := BigVec(0, 3, [3, 1], map[0 := [1, 2, 3], 1 := [4]]);
    PartialSample(b);
    SampleIntended(b);
    SampleRejects(b);
    SamplePastEnd(b);
  }

  /** On that BigVec the corrected `insert(4, 5)` appends 5. */
  lemma SampleIntended(b: BigVec<int>)
    requires b == BigVec(0, 3, [3, 1], map[0 := [1, 2, 3], 1 := [4]])
    requires Valid(b) && Len(b) == 4 && Elems(b) == [1, 2, 3, 4]
    ensures InsertIntended(b, 4, 5).Ok? && Elems(InsertIntended(b, 4, 5).value) == [1, 2, 3, 4, 5]
  {
    InsertIntendedSplices(b, 4, 5);
    assert Elems(b)[..4] == [1, 2, 3, 4];
    assert Elems(b)[4..] == [];
  }

  /** `4 / 3 == 1` and `4 % 3 == 1` reach the last chunk's size: the
      bounds check fires. */
  lemma SampleRejects(b: BigVec<int>)
    requires b == BigVec(0, 3, [3, 1], map[0 := [1, 2, 3], 1 := [4]])
    ensures Insert(b, 4, 5) == Panic(InsertOutOfBounds(4))
  {
    DivModUnique(4, 3, 1, 1);
    assert InsertRejects(b, 1, 1);
  }

  /** `6 / 3 == 2`, `6 % 3 == 0` passes the check and a new chunk `[5]`
      is pushed after the partial one. */
  lemma SamplePastEnd(b: BigVec<int>)
    requires b == BigVec(0, 3, [3, 1], map[0 := [1, 2, 3], 1 := [4]])
    ensures Insert(b, 6, 5) == Ok(BigVec(0, 3, [3, 1, 1], map[0 := [1, 2, 3], 1 := [4], 2 := [5]]))
  {
    DivModUnique(6, 3, 2, 0);
    assert !InsertRejects(b, 2, 0);
    assert [3, 1] + [1] == [3, 1, 1];
    assert b.vecData[2 := [5]] == map[0 := [1, 2, 3], 1 := [4], 2 := [5]];
  }

  /** After `pop_first_vec()` on chunks `[0, 1, 2]`, `[3, 4, 5]`, `[6]`
      (capacity 3), `start_index` is 1 and `insert(3, 8)` aims at directory
      position 2, past the end, so it pushes `[8]` under key 2, over `[6]`:
      the directory then names a chunk at key 3 that the store lacks, and 6
      is gone. The corrected `insert` puts 8 in front of 6. */
  lemma InsertAfterPopFirstVecOverwrites()
    ensures var b := BigVec(1, 3, [3, 1], map[1 := [3, 4, 5], 2 := [6]]);
            && Valid(b) && Elems(b) == [3, 4, 5, 6]
            && Insert(b, 3, 8) == Ok(BigVec(1, 3, [3, 1, 1], map[1 := [3, 4, 5], 2 := [8]]))
            && !Wf(Insert(b, 3, 8).value)
            && InsertIntended(b, 3, 8).Ok?
            && Valid(InsertIntended(b, 3, 8).value)
            && Elems(InsertIntended(b, 3, 8).value) == [3, 4, 5, 8, 6]
  {
    var b := BigVec(1, 3, [3, 1], map[1 := [3, 4, 5], 2 := [6]]);
    PoppedSampleElems(b);
    PoppedSampleInsert(b);
    PoppedSampleIntended(b);
  }

  /** `3 / 3 == 1` and `3 % 3 == 0` pass the check; position `1 + 1` is
      past the directory's end and `[8]` is stored under key 2. */
  lemma PoppedSampleInsert(b: BigVec<int>)
    requires b == BigVec(1, 3, [3, 1], map[1 := [3, 4, 5], 2 := [6]])
    ensures Insert(b, 3, 8) == Ok(BigVec(1, 3, [3, 1, 1], map[1 := [3, 4, 5], 2 := [8]]))
    ensures !Wf(Insert(b, 3, 8).value)
  {
    DivModUnique(3, 3, 1, 0);
    assert !InsertRejects(b, 1, 0);
    assert [3, 1] + [1] == [3, 1, 1];
    assert b.vecData[2 := [8]] == map[1 := [3, 4, 5], 2 := [8]];
    var r := Insert(b, 3, 8).value;
    assert !ChunkSized(r, 2);
  }

  /** The corrected `insert(3, 8)` puts 8 between 5 and 6. */
  lemma PoppedSampleIntended(b: BigVec<int>)
    requires b == BigVec(1, 3, [3, 1], map[1 := [3, 4, 5], 2 := [6]])
    requires Valid(b) && Elems(b) == [3, 4, 5, 6]
    ensures InsertIntended(b, 3, 8).Ok?
    ensures Valid(InsertIntended(b, 3, 8).value)
    ensures Elems(InsertIntended(b, 3, 8).value) == [3, 4, 5, 8, 6]
  {
    InsertIntendedSplices(b, 3, 8);
    assert Elems(b)[..3] == [3, 4, 5] && Elems(b)[3..] == [6];
  }

  /** The BigVec of capacity 3 with chunks `[1, 2, 3]`, `[4]`. */
  lemma PartialSample(b: BigVec<int>)
    requires b == BigVec(0, 3, [3, 1], map[0 := [1, 2, 3], 1 := [4]])
    ensures Valid(b) && Len(b) == 4 && Elems(b) == [1, 2, 3, 4]
  {
    assert ChunkSized(b, 0) && ChunkSized(b, 1);
    assert Valid(b);
    LenOfValid(b);
    assert ChunkList(b) == [[1, 2, 3], [4]];
    FlattenAppend([[1, 2, 3]], [[4]]);
    assert Flatten([[1, 2, 3]]) == Flatten([[1, 2, 3]][..0]) + [1, 2, 3];
    assert Flatten([[4]]) == Flatten([[4]][..0]) + [4];
  }

  /** Whatever the directory position and the keys, the body of `insert`
      never reports an out-of-bounds index: that panic comes from the bounds
      check alone. */
  lemma InsertAtNeverOutOfBounds<V>(b: BigVec<V>, j: nat, base: nat, o: nat, x: V)
    ensures !(InsertInto(b, j, base, o, x).Panic? && InsertInto(b, j, base, o, x).reason.InsertOutOfBounds?)
  {
    var key := base + j;
    if j < |b.vecStructure| && key in b.vecData {
      var c := b.vecData[key];
      if o <= |c| {
        var c' := c[..o] + [x] + c[o..];
        if |c'| > b.capacityPerVec {
          CascadeNeverOutOfBounds(Spill(b, key, c'), j + 1, base, c'[|c'| - 1]);
        }
      }
    }
  }

  /** The cascade only ever panics for a missing chunk. */
  lemma {:induction false} CascadeNeverOutOfBounds<V>(b: BigVec<V>, idx: nat, base: nat, t: V)
    ensures Cascade(b, idx, base, t).Panic? ==> Cascade(b, idx, base, t).reason == BrokenBigVec
    decreases |b.vecStructure| - idx
  {
    var key := base + idx;
    if idx < |b.vecStructure| && key in b.vecData {
      var c' := [t] + b.vecData[key];
      if b.vecStructure[idx] >= b.capacityPerVec {
        CascadeNeverOutOfBounds(Spill(b, key, c'), idx + 1, base, c'[|c'| - 1]);
      }
    }
  }
}

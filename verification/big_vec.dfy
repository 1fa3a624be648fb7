/** The chunked vector `BigVec<V>`: its state, its invariants, the
    abstraction to a flat sequence, and the operations that touch one end or
    one position (new, with_capacity_per_vec, push, pop, get, get_mut,
    get_correct_indexes, pop_first_vec, len, is_empty, vec_nb).

    The key-value store is a `map<nat, seq<V>>`; `usize` is `nat`. */
module BigVecs {
  import opened Outcomes
  import opened Chunks

  /** `start_index`, `capacity_per_vec`, `vec_structure` (the directory of
      chunk sizes) and `vec_data` (the store, chunk key to chunk). */
  datatype BigVec<V> = BigVec(
    startIndex: nat,
    capacityPerVec: nat,
    vecStructure: seq<nat>,
    vecData: map<nat, seq<V>>)

  /** Well-formed: a positive capacity, every directory entry in `1..cap`,
      the store holds exactly the keys `start_index + i` for the directory's
      positions `i` (no other key), and the chunk there has the size the
      directory records. */
  ghost predicate Wf<V>(b: BigVec<V>)
  {
    && b.capacityPerVec > 0
    && (forall i | 0 <= i < |b.vecStructure| :: 1 <= b.vecStructure[i] <= b.capacityPerVec)
    && (forall k | k in b.vecData :: b.startIndex <= k < b.startIndex + |b.vecStructure|)
    && (forall i | 0 <= i < |b.vecStructure| :: ChunkSized(b, i))
  }

  /** The store holds, under key `start_index + i`, a chunk of the size the
      directory records at position `i`. */
  ghost predicate ChunkSized<V>(b: BigVec<V>, i: nat)
  {
    && i < |b.vecStructure|
    && b.startIndex + i in b.vecData
    && |b.vecData[b.startIndex + i]| == b.vecStructure[i]
  }

  /** Well-formed, and every chunk but the last is exactly full: the
      condition under which `index / cap` and `index % cap` find an element. */
  ghost predicate Valid<V>(b: BigVec<V>)
  {
    && Wf(b)
    && FullButLast(b.vecStructure, b.capacityPerVec)
  }

  /** The chunk at directory position `i` (empty if the store lacks it). */
  function ChunkAt<V>(b: BigVec<V>, i: nat): seq<V>
  {
    if b.startIndex + i in b.vecData then b.vecData[b.startIndex + i] else []
  }

  /** The chunks in directory order. */
  function ChunkList<V>(b: BigVec<V>): seq<seq<V>>
  {
    seq(|b.vecStructure|, i requires 0 <= i < |b.vecStructure| => ChunkAt(b, i))
  }

  /** The flat sequence a BigVec stands for. */
  function Elems<V>(b: BigVec<V>): seq<V>
  {
    Flatten(ChunkList(b))
  }

  // ---------------------------------------------------------------------
  // Construction and size queries

  /** `new()`: the capacity is `1_000_000 / size_of::<V>()`; the element
      size is a parameter here. */
  function New<V>(elemSize: nat): (r: Outcome<BigVec<V>>)
    ensures r.Ok? <==> elemSize > 0
    ensures r.Ok? ==> IsEmpty(r.value) && r.value.startIndex == 0 && r.value.vecData == map[]
    ensures r.Ok? ==> r.value.capacityPerVec * elemSize <= 1_000_000 < (r.value.capacityPerVec + 1) * elemSize
    ensures r.Ok? ==> (Valid(r.value) <==> elemSize <= 1_000_000)
  {
    if elemSize == 0 then Panic(DivisionByZero)
    else Ok(BigVec(0, 1_000_000 / elemSize, [], map[]))
  }

  /** A four-byte element (`u32`) gets chunks of 250000. */
  lemma NewForU32()
    ensures New<int>(4) == Ok(BigVec(0, 250000, [], map[]))
  {
  }

  /** `with_capacity_per_vec(cap)`: no check that `cap > 0`. */
  function WithCapacityPerVec<V>(cap: nat): (r: BigVec<V>)
    ensures IsEmpty(r) && Len(r) == 0 && r.capacityPerVec == cap
    ensures cap > 0 ==> Valid(r) && Elems(r) == []
  {
    BigVec(0, cap, [], map[])
  }

  /** `len()`: the sum of the directory. */
  function Len<V>(b: BigVec<V>): nat
  {
    Sum(b.vecStructure)
  }

  /** `is_empty()`: the directory is empty. */
  predicate IsEmpty<V>(b: BigVec<V>)
  {
    |b.vecStructure| == 0
  }

  /** `vec_nb()`: the number of chunks. */
  function VecNb<V>(b: BigVec<V>): nat
  {
    |b.vecStructure|
  }

  // ---------------------------------------------------------------------
  // Facts about the abstraction

  /** What `Wf` says about directory position `i`. */
  lemma ChunkFacts<V>(b: BigVec<V>, i: nat)
    requires Wf(b) && i < |b.vecStructure|
    ensures b.startIndex + i in b.vecData
    ensures |b.vecData[b.startIndex + i]| == b.vecStructure[i]
    ensures 1 <= b.vecStructure[i] <= b.capacityPerVec
    ensures ChunkList(b)[i] == ChunkAt(b, i) == b.vecData[b.startIndex + i]
  {
    assert ChunkSized(b, i);
  }

  lemma ElemsLength<V>(b: BigVec<V>)
    requires Wf(b)
    ensures |Elems(b)| == Len(b)
  {
    var cs := ChunkList(b);
    forall i | 0 <= i < |cs|
      ensures |cs[i]| == b.vecStructure[i]
    {
      ChunkFacts(b, i);
    }
    FlattenLength(cs, b.vecStructure);
  }

  /** `is_empty()` holds exactly when there are no elements. */
  lemma EmptyIffNoElems<V>(b: BigVec<V>)
    requires Wf(b)
    ensures IsEmpty(b) <==> Len(b) == 0
    ensures IsEmpty(b) <==> Elems(b) == []
  {
    ElemsLength(b);
    var n := |b.vecStructure|;
    if n > 0 {
      SumAppend(b.vecStructure[..n - 1], [b.vecStructure[n - 1]]);
      assert b.vecStructure == b.vecStructure[..n - 1] + [b.vecStructure[n - 1]];
      assert Sum([b.vecStructure[n - 1]]) == Sum([b.vecStructure[n - 1]][..0]) + b.vecStructure[n - 1];
    }
  }

  /** A valid BigVec of `n` chunks holds `(n - 1) * cap + last` elements. */
  lemma LenOfValid<V>(b: BigVec<V>)
    requires Valid(b) && |b.vecStructure| > 0
    ensures Len(b) == (|b.vecStructure| - 1) * b.capacityPerVec + b.vecStructure[|b.vecStructure| - 1]
  {
    var s := b.vecStructure;
    var n := |s|;
    assert s == s[..n - 1] + [s[n - 1]];
    SumAppend(s[..n - 1], [s[n - 1]]);
    assert Sum([s[n - 1]]) == Sum([s[n - 1]][..0]) + s[n - 1];
    SumOfFull(s[..n - 1], b.capacityPerVec);
  }

  /** The number of chunks of a valid BigVec is `ceil(len / cap)`: pushing
      `i + 1` elements one by one at capacity 3 leaves `i / 3 + 1` chunks. */
  lemma ChunkCountOfValid<V>(b: BigVec<V>)
    requires Valid(b)
    ensures VecNb(b) == (Len(b) + b.capacityPerVec - 1) / b.capacityPerVec
  {
    var n := |b.vecStructure|;
    var cap := b.capacityPerVec;
    if n == 0 {
      DivOfMulAdd(0, cap, cap - 1);
    } else {
      LenOfValid(b);
      var last := b.vecStructure[n - 1];
      assert n * cap == (n - 1) * cap + cap;
      assert Len(b) + cap - 1 == n * cap + (last - 1);
      DivOfMulAdd(n, cap, last - 1);
    }
  }

  /** Elements before chunk `j` number exactly `j * cap` in a valid BigVec,
      and element `o` of chunk `j` is element `j * cap + o`. */
  lemma ElemsIndex<V>(b: BigVec<V>, j: nat, o: nat)
    requires Valid(b) && j < |b.vecStructure| && o < b.vecStructure[j]
    ensures ChunkSized(b, j)
    ensures |Flatten(ChunkList(b)[..j])| == j * b.capacityPerVec
    ensures j * b.capacityPerVec + o < |Elems(b)|
    ensures Elems(b)[j * b.capacityPerVec + o] == b.vecData[b.startIndex + j][o]
  {
    var cs := ChunkList(b);
    forall m | 0 <= m < j
      ensures |cs[m]| == b.capacityPerVec
    {
      ChunkFacts(b, m);
    }
    ChunkFacts(b, j);
    FlattenIndex(cs, b.capacityPerVec, j, o);
  }

  // ---------------------------------------------------------------------
  // Index translation and positional access

  /** `get_correct_indexes(index)`: the store key and the offset inside the
      chunk, or `None` when the index is past the end. */
  function GetCorrectIndexes<V>(b: BigVec<V>, index: nat): Outcome<Option<(nat, nat)>>
  {
    if b.capacityPerVec == 0 then Panic(DivisionByZero)
    else
      var n := |b.vecStructure|;
      var (dataIndex, vecIndex) := DivMod(index, b.capacityPerVec);
      if dataIndex >= n || (dataIndex + 1 == n && vecIndex >= b.vecStructure[n - 1]) then Ok(None)
      else Ok(Some((dataIndex + b.startIndex, vecIndex)))
  }

  /** On a valid BigVec the translation succeeds, and finds something
      exactly for indexes below `len()`: the key of the chunk at position
      `j = index / cap` (shifted by `start_index`) and the offset
      `o = index % cap`, which lies inside that chunk. */
  lemma TranslateIndex<V>(b: BigVec<V>, index: nat) returns (j: nat, o: nat)
    requires Valid(b)
    ensures index == j * b.capacityPerVec + o && o < b.capacityPerVec
    ensures GetCorrectIndexes(b, index)
         == Ok(if index < Len(b) then Some((b.startIndex + j, o)) else None)
    ensures index < Len(b) ==> j < |b.vecStructure| && o < b.vecStructure[j]
  {
    var n := |b.vecStructure|;
    var cap := b.capacityPerVec;
    j, o := DivMod(index, cap).0, DivMod(index, cap).1;
    if n > 0 {
      LenOfValid(b);
      QuotLess(index, cap, j, o, n - 1);
      QuotLess(index, cap, j, o, n);
      MulSucc(n - 1, cap);
      if j + 1 == n {
        MulEq(j, n - 1, cap);
      } else if j + 1 < n {
        assert b.vecStructure[j] == cap;
      }
    }
  }

  /** `get(index)` followed by a deref. */
  function Get<V>(b: BigVec<V>, index: nat): Outcome<Option<V>>
  {
    match GetCorrectIndexes(b, index)
    case Panic(e) => Panic(e)
    case Ok(None) => Ok(None)
    case Ok(Some((key, offset))) =>
      if key !in b.vecData then Panic(UnwrapNone)
      else if offset >= |b.vecData[key]| then Panic(UnwrapNone)
      else Ok(Some(b.vecData[key][offset]))
  }

  /** On a valid BigVec, `get(i)` is element `i` of the flat sequence, and
      `None` past the end. */
  lemma GetIsElems<V>(b: BigVec<V>, index: nat)
    requires Valid(b)
    ensures |Elems(b)| == Len(b)
    ensures Get(b, index) == Ok(if index < Len(b) then Some(Elems(b)[index]) else None)
  {
    var j, o := TranslateIndex(b, index);
    ElemsLength(b);
    if index < Len(b) {
      ElemsIndex(b, j, o);
      ChunkFacts(b, j);
    }
  }

  /** `*get_mut(index).unwrap() = v`, with the write-back made explicit:
      `None` when the index is past the end, else the updated BigVec. */
  function SetAt<V>(b: BigVec<V>, index: nat, v: V): Outcome<Option<BigVec<V>>>
  {
    match GetCorrectIndexes(b, index)
    case Panic(e) => Panic(e)
    case Ok(None) => Ok(None)
    case Ok(Some((key, offset))) =>
      if key !in b.vecData then Panic(UnwrapNone)
      else if offset >= |b.vecData[key]| then Panic(UnwrapNone)
      else Ok(Some(b.(vecData := b.vecData[key := b.vecData[key][offset := v]])))
  }

  lemma ChunkListUpdate<V>(b: BigVec<V>, j: nat, c: seq<V>, size: nat)
    requires j < |b.vecStructure|
    ensures ChunkList(b.(vecStructure := b.vecStructure[j := size],
                         vecData := b.vecData[b.startIndex + j := c]))
         == ChunkList(b)[j := c]
  {
  }

  /** Writing through `get_mut(i)` changes element `i` and nothing else, and
      leaves the directory alone; past the end nothing is written. */
  lemma SetAtUpdatesOne<V>(b: BigVec<V>, index: nat, v: V)
    requires Valid(b)
    ensures |Elems(b)| == Len(b)
    ensures index >= Len(b) ==> SetAt(b, index, v) == Ok(None)
    ensures index < Len(b) ==>
              && SetAt(b, index, v).Ok? && SetAt(b, index, v).value.Some?
              && var b' := SetAt(b, index, v).value.value;
              && Valid(b')
              && b'.vecStructure == b.vecStructure && b'.startIndex == b.startIndex
              && Elems(b') == Elems(b)[index := v]
  {
    var j, o := TranslateIndex(b, index);
    ElemsLength(b);
    if index < Len(b) {
      SetAtInRange(b, index, v);
    }
  }

  lemma SetAtInRange<V>(b: BigVec<V>, index: nat, v: V)
    requires Valid(b) && index < Len(b) && |Elems(b)| == Len(b)
    ensures SetAt(b, index, v).Ok? && SetAt(b, index, v).value.Some?
    ensures var b' := SetAt(b, index, v).value.value;
            && Valid(b')
            && b'.vecStructure == b.vecStructure && b'.startIndex == b.startIndex
            && Elems(b') == Elems(b)[index := v]
  {
    var j, o := TranslateIndex(b, index);
    ElemsIndex(b, j, o);
    var key := b.startIndex + j;
    var c := b.vecData[key];
    assert b.vecStructure[j := |c[o := v]|] == b.vecStructure;
    assert SetAt(b, index, v) == Ok(Some(WithChunk(b, j, c[o := v])));
    ReplaceChunk(b, j, c[o := v]);
    var cs := ChunkList(b);
    UpdateInMiddle(Flatten(cs[..j]), c, Flatten(cs[j + 1..]), o, v);
  }

  // ---------------------------------------------------------------------
  // Push and pop at the end

  /** `push(element)`: a new one-element chunk when the directory is empty
      or its last chunk is full, else the element joins the last chunk. */
  function Push<V>(b: BigVec<V>, element: V): Outcome<BigVec<V>>
  {
    var n := |b.vecStructure|;
    if n == 0 then
      Ok(b.(vecStructure := [1], vecData := b.vecData[b.startIndex := [element]]))
    else if b.vecStructure[n - 1] == b.capacityPerVec then
      Ok(b.(vecStructure := b.vecStructure + [1],
            vecData := b.vecData[n + b.startIndex := [element]]))
    else
      var key := n + b.startIndex - 1;
      if key !in b.vecData then Panic(UnwrapNone)
      else Ok(b.(vecStructure := b.vecStructure[n - 1 := b.vecStructure[n - 1] + 1],
                 vecData := b.vecData[key := b.vecData[key] + [element]]))
  }

  lemma ChunkListGrow<V>(b: BigVec<V>, c: seq<V>, size: nat)
    ensures ChunkList(b.(vecStructure := b.vecStructure + [size],
                         vecData := b.vecData[b.startIndex + |b.vecStructure| := c]))
         == ChunkList(b) + [c]
  {
  }

  /** Opening a chunk `c` after the last one keeps a BigVec well-formed;
      it keeps it valid when the old last chunk was full. */
  lemma AppendChunkWf<V>(b: BigVec<V>, c: seq<V>)
    requires Wf(b) && 1 <= |c| <= b.capacityPerVec
    ensures var n := |b.vecStructure|;
            var b' := b.(vecStructure := b.vecStructure + [|c|],
                         vecData := b.vecData[b.startIndex + n := c]);
            && Wf(b')
            && (Valid(b) && (n == 0 || b.vecStructure[n - 1] == b.capacityPerVec) ==> Valid(b'))
  {
    var n := |b.vecStructure|;
    var b' := b.(vecStructure := b.vecStructure + [|c|],
                 vecData := b.vecData[b.startIndex + n := c]);
    forall i | 0 <= i < n + 1
      ensures ChunkSized(b', i)
      ensures 1 <= b'.vecStructure[i] <= b.capacityPerVec
      ensures Valid(b) && (n == 0 || b.vecStructure[n - 1] == b.capacityPerVec) && i < n ==>
                b'.vecStructure[i] == b.capacityPerVec
    {
      if i < n {
        ChunkFacts(b, i);
      }
    }
    forall k | k in b'.vecData
      ensures b.startIndex <= k < b.startIndex + n + 1
    {
      if k != b.startIndex + n {
        assert k in b.vecData;
      }
    }
  }

  /** Opening a chunk `c` after the last one appends `c` to the elements. */
  lemma AppendChunkElems<V>(b: BigVec<V>, c: seq<V>, size: nat)
    ensures var n := |b.vecStructure|;
            var b' := b.(vecStructure := b.vecStructure + [size],
                         vecData := b.vecData[b.startIndex + n := c]);
            Elems(b') == Elems(b) + c
  {
    ChunkListGrow(b, c, size);
    FlattenAppend(ChunkList(b), [c]);
    assert Flatten([c]) == Flatten([c][..0]) + c;
  }

  /** Both halves of opening a chunk after the last one. */
  lemma AppendChunk<V>(b: BigVec<V>, c: seq<V>)
    requires Wf(b) && 1 <= |c| <= b.capacityPerVec
    ensures var n := |b.vecStructure|;
            var b' := b.(vecStructure := b.vecStructure + [|c|],
                         vecData := b.vecData[b.startIndex + n := c]);
            && Wf(b')
            && Elems(b') == Elems(b) + c
            && (Valid(b) && (n == 0 || b.vecStructure[n - 1] == b.capacityPerVec) ==> Valid(b'))
  {
    AppendChunkWf(b, c);
    AppendChunkElems(b, c, |c|);
  }

  /** Replacing chunk `j` by a chunk `c` of size `1..cap` keeps a BigVec
      well-formed; it keeps it valid when `c` is full or is the last chunk. */
  lemma ReplaceChunkWf<V>(b: BigVec<V>, j: nat, c: seq<V>)
    requires Wf(b) && j < |b.vecStructure| && 1 <= |c| <= b.capacityPerVec
    ensures var b' := b.(vecStructure := b.vecStructure[j := |c|],
                         vecData := b.vecData[b.startIndex + j := c]);
            && Wf(b')
            && (Valid(b) && (j + 1 == |b.vecStructure| || |c| == b.capacityPerVec) ==> Valid(b'))
  {
    var b' := b.(vecStructure := b.vecStructure[j := |c|],
                 vecData := b.vecData[b.startIndex + j := c]);
    forall i | 0 <= i < |b.vecStructure|
      ensures ChunkSized(b', i)
      ensures 1 <= b'.vecStructure[i] <= b.capacityPerVec
      ensures Valid(b) && (j + 1 == |b.vecStructure| || |c| == b.capacityPerVec) && i + 1 < |b.vecStructure| ==>
                b'.vecStructure[i] == b.capacityPerVec
    {
      if i != j {
        ChunkFacts(b, i);
      }
    }
    forall k | k in b'.vecData
      ensures b.startIndex <= k < b.startIndex + |b.vecStructure|
    {
      if k != b.startIndex + j {
        assert k in b.vecData;
      }
    }
  }

  /** Replacing chunk `j` by `c` replaces that stretch of the elements. */
  lemma ReplaceChunkElems<V>(b: BigVec<V>, j: nat, c: seq<V>, size: nat)
    requires j < |b.vecStructure|
    ensures var b' := b.(vecStructure := b.vecStructure[j := size],
                         vecData := b.vecData[b.startIndex + j := c]);
            && Elems(b') == Flatten(ChunkList(b)[..j]) + c + Flatten(ChunkList(b)[j + 1..])
            && Elems(b) == Flatten(ChunkList(b)[..j]) + ChunkList(b)[j] + Flatten(ChunkList(b)[j + 1..])
            && ChunkList(b)[j] == ChunkAt(b, j)
  {
    ChunkListUpdate(b, j, c, size);
    FlattenUpdate(ChunkList(b), j, c);
    FlattenSplit(ChunkList(b), j);
  }

  /** Overwriting chunk `j` with a chunk of the same size keeps a BigVec
      valid and replaces that chunk alone. */
  lemma OverwriteChunk<V>(b: BigVec<V>, j: nat, c: seq<V>)
    requires Valid(b) && j < |b.vecStructure| && |c| == b.vecStructure[j]
    ensures var b' := b.(vecData := b.vecData[b.startIndex + j := c]);
            && Valid(b')
            && ChunkList(b') == ChunkList(b)[j := c]
  {
    ReplaceChunkWf(b, j, c);
    ChunkListUpdate(b, j, c, |c|);
    assert b.vecStructure[j := |c|] == b.vecStructure;
  }

  /** `b` with chunk `j` replaced by `c`, directory entry included. */
  function WithChunk<V>(b: BigVec<V>, j: nat, c: seq<V>): BigVec<V>
    requires j < |b.vecStructure|
  {
    b.(vecStructure := b.vecStructure[j := |c|], vecData := b.vecData[b.startIndex + j := c])
  }

  /** Both halves of replacing chunk `j`. */
  lemma ReplaceChunk<V>(b: BigVec<V>, j: nat, c: seq<V>)
    requires Wf(b) && j < |b.vecStructure| && 1 <= |c| <= b.capacityPerVec
    ensures var b' := WithChunk(b, j, c);
            && Wf(b')
            && Elems(b') == Flatten(ChunkList(b)[..j]) + c + Flatten(ChunkList(b)[j + 1..])
            && Elems(b) == Flatten(ChunkList(b)[..j]) + ChunkList(b)[j] + Flatten(ChunkList(b)[j + 1..])
            && ChunkSized(b, j) && ChunkList(b)[j] == ChunkAt(b, j)
            && (Valid(b) && (j + 1 == |b.vecStructure| || |c| == b.capacityPerVec) ==> Valid(b'))
  {
    ReplaceChunkWf(b, j, c);
    ReplaceChunkElems(b, j, c, |c|);
    ChunkFacts(b, j);
  }

  /** Appending `d` to the last chunk, within the capacity, appends `d` to
      the elements and keeps the BigVec valid. */
  lemma GrowLastChunk<V>(b: BigVec<V>, d: seq<V>)
    requires Valid(b) && |b.vecStructure| > 0
    requires b.vecStructure[|b.vecStructure| - 1] + |d| <= b.capacityPerVec
    ensures b.startIndex + |b.vecStructure| - 1 in b.vecData
    ensures var n := |b.vecStructure|;
            var b' := WithChunk(b, n - 1, b.vecData[b.startIndex + n - 1] + d);
            && b'.vecStructure == b.vecStructure[n - 1 := b.vecStructure[n - 1] + |d|]
            && Valid(b')
            && Elems(b') == Elems(b) + d
  {
    var n := |b.vecStructure|;
    ChunkFacts(b, n - 1);
    var c := b.vecData[b.startIndex + n - 1];
    ReplaceChunk(b, n - 1, c + d);
    assert ChunkList(b)[n..] == [];
  }

  /** `b'` is a valid BigVec with the same `start_index` and capacity as
      `b`, holding the elements of `b` followed by `x`. */
  ghost predicate PushedOnto<V>(b: BigVec<V>, x: V, b': BigVec<V>)
  {
    && Valid(b')
    && Elems(b') == Elems(b) + [x]
    && Len(b') == Len(b) + 1
    && b'.startIndex == b.startIndex && b'.capacityPerVec == b.capacityPerVec
  }

  /** `push(x)` appends `x`, keeps the BigVec valid and adds one to `len()`;
      a new chunk of size 1 is opened exactly when the directory is empty or
      its last entry equals the capacity, otherwise the last entry grows. */
  lemma PushAppends<V>(b: BigVec<V>, x: V)
    requires Valid(b)
    ensures Push(b, x).Ok?
    ensures PushedOnto(b, x, Push(b, x).value)
    ensures var b' := Push(b, x).value;
            var n := |b.vecStructure|;
            if n == 0 || b.vecStructure[n - 1] == b.capacityPerVec
            then b'.vecStructure == b.vecStructure + [1]
            else b'.vecStructure == b.vecStructure[n - 1 := b.vecStructure[n - 1] + 1]
  {
    var n := |b.vecStructure|;
    if n == 0 || b.vecStructure[n - 1] == b.capacityPerVec {
      PushNewChunk(b, x);
    } else {
      PushIntoLast(b, x);
    }
  }

  /** With no chunk, or a full last one, `push` opens the chunk `[x]`. */
  lemma PushNewChunk<V>(b: BigVec<V>, x: V)
    requires Valid(b)
    requires |b.vecStructure| == 0 || b.vecStructure[|b.vecStructure| - 1] == b.capacityPerVec
    ensures Push(b, x) == Ok(b.(vecStructure := b.vecStructure + [1],
                                vecData := b.vecData[b.startIndex + |b.vecStructure| := [x]]))
    ensures PushedOnto(b, x, Push(b, x).value)
  {
    var n := |b.vecStructure|;
    var b' := b.(vecStructure := b.vecStructure + [1],
                 vecData := b.vecData[b.startIndex + n := [x]]);
    assert n == 0 ==> b.vecStructure + [1] == [1];
    assert Push(b, x) == Ok(b');
    AppendChunk(b, [x]);
    ElemsLength(b);
    ElemsLength(b');
  }

  /** With room in the last chunk, `push` appends `x` to it. */
  lemma PushIntoLast<V>(b: BigVec<V>, x: V)
    requires Valid(b) && |b.vecStructure| > 0
    requires b.vecStructure[|b.vecStructure| - 1] != b.capacityPerVec
    ensures var n := |b.vecStructure|;
            var key := b.startIndex + n - 1;
            && key in b.vecData
            && Push(b, x) == Ok(b.(vecStructure := b.vecStructure[n - 1 := b.vecStructure[n - 1] + 1],
                                   vecData := b.vecData[key := b.vecData[key] + [x]]))
    ensures PushedOnto(b, x, Push(b, x).value)
  {
    var n := |b.vecStructure|;
    ChunkFacts(b, n - 1);
    GrowLastChunk(b, [x]);
    var key := b.startIndex + n - 1;
    var b' := WithChunk(b, n - 1, b.vecData[key] + [x]);
    assert Push(b, x) == Ok(b');
    ElemsLength(b);
    ElemsLength(b');
  }

  /** The last element of a chunk, as `Vec::pop` returns it. */
  function LastOf<V>(c: seq<V>): Option<V>
  {
    if |c| == 0 then None else Some(c[|c| - 1])
  }

  /** The chunk without its last element, as `Vec::pop` leaves it. */
  function DropLast<V>(c: seq<V>): seq<V>
  {
    if |c| == 0 then c else c[..|c| - 1]
  }

  /** `pop()` as written: the chunk is looked up under the bare directory
      position `n - 1`, without `start_index`. */
  function Pop<V>(b: BigVec<V>): Outcome<(BigVec<V>, Option<V>)>
  {
    PopAtKey(b, |b.vecStructure| - 1)
  }

  /** `pop()` with the store key `start_index + n - 1` that `push` uses. */
  function PopKeyed<V>(b: BigVec<V>): Outcome<(BigVec<V>, Option<V>)>
  {
    PopAtKey(b, b.startIndex + |b.vecStructure| - 1)
  }

  /** The body of `pop()`, given the store key of the last chunk. */
  function PopAtKey<V>(b: BigVec<V>, key: int): Outcome<(BigVec<V>, Option<V>)>
  {
    var n := |b.vecStructure|;
    if n == 0 then Ok((b, None))
    else if b.vecStructure[n - 1] == 0 then Panic(SubtractOverflow)
    else if key < 0 || key !in b.vecData then Panic(UnwrapNone)
    else
      var c := b.vecData[key];
      if b.vecStructure[n - 1] - 1 == 0 then
        Ok((b.(vecStructure := b.vecStructure[..n - 1], vecData := b.vecData - {key}), LastOf(c)))
      else
        Ok((b.(vecStructure := b.vecStructure[n - 1 := b.vecStructure[n - 1] - 1],
               vecData := b.vecData[key := DropLast(c)]), LastOf(c)))
  }

  /** What a correct `pop()` does on a valid BigVec: nothing on an empty one;
      otherwise it returns the last element, the rest stays valid, and the
      last directory entry goes away exactly when it drops to zero. */
  ghost predicate PopsLast<V>(b: BigVec<V>, r: Outcome<(BigVec<V>, Option<V>)>)
    requires Valid(b)
  {
    var n := |b.vecStructure|;
    if n == 0 then r == Ok((b, None))
    else
      && r.Ok? && r.value.1.Some?
      && var b' := r.value.0;
      && Valid(b')
      && Elems(b) == Elems(b') + [r.value.1.value]
      && Len(b') + 1 == Len(b)
      && b'.startIndex == b.startIndex && b'.capacityPerVec == b.capacityPerVec
      && (if b.vecStructure[n - 1] == 1
          then b'.vecStructure == b.vecStructure[..n - 1]
          else b'.vecStructure == b.vecStructure[n - 1 := b.vecStructure[n - 1] - 1])
  }

  /** Removing the last chunk of a valid BigVec leaves it valid, with the
      other chunks in place. */
  lemma DropLastChunk<V>(b: BigVec<V>)
    requires Valid(b) && |b.vecStructure| > 0
    ensures var n := |b.vecStructure|;
            var b' := b.(vecStructure := b.vecStructure[..n - 1],
                         vecData := b.vecData - {b.startIndex + n - 1});
            && Valid(b')
            && ChunkList(b') == ChunkList(b)[..n - 1]
  {
    var n := |b.vecStructure|;
    var b' := b.(vecStructure := b.vecStructure[..n - 1],
                 vecData := b.vecData - {b.startIndex + n - 1});
    forall i | 0 <= i < n - 1
      ensures ChunkSized(b', i)
      ensures ChunkList(b')[i] == ChunkList(b)[i]
    {
      ChunkFacts(b, i);
    }
  }

  /** Popping through the store key `start_index + n - 1` of the last
      chunk removes the last element of a valid BigVec. */
  lemma PopAtLastKey<V>(b: BigVec<V>)
    requires Valid(b)
    ensures PopsLast(b, PopAtKey(b, b.startIndex + |b.vecStructure| - 1))
  {
    var n := |b.vecStructure|;
    if n > 0 {
      if b.vecStructure[n - 1] == 1 {
        PopWholeChunk(b);
      } else {
        PopFromChunk(b);
      }
    }
  }

  /** The last chunk holds one element: popping it removes the chunk. */
  lemma PopWholeChunk<V>(b: BigVec<V>)
    requires Valid(b) && |b.vecStructure| > 0 && b.vecStructure[|b.vecStructure| - 1] == 1
    ensures PopsLast(b, PopAtKey(b, b.startIndex + |b.vecStructure| - 1))
  {
    var n := |b.vecStructure|;
    var key := b.startIndex + n - 1;
    ChunkFacts(b, n - 1);
    var c := b.vecData[key];
    var b' := b.(vecStructure := b.vecStructure[..n - 1], vecData := b.vecData - {key});
    assert PopAtKey(b, key) == Ok((b', Some(c[0])));
    DropLastChunk(b);
    assert c == [c[0]];
    ElemsLength(b);
    ElemsLength(b');
  }

  /** The last chunk holds more than one element: popping shortens it. */
  lemma PopFromChunk<V>(b: BigVec<V>)
    requires Valid(b) && |b.vecStructure| > 0 && b.vecStructure[|b.vecStructure| - 1] > 1
    ensures PopsLast(b, PopAtKey(b, b.startIndex + |b.vecStructure| - 1))
  {
    var n := |b.vecStructure|;
    var key := b.startIndex + n - 1;
    ChunkFacts(b, n - 1);
    var c := b.vecData[key];
    var b' := WithChunk(b, n - 1, DropLast(c));
    assert b.vecStructure[n - 1 := b.vecStructure[n - 1] - 1] == b'.vecStructure;
    assert PopAtKey(b, key) == Ok((b', Some(c[|c| - 1])));
    ReplaceChunk(b, n - 1, DropLast(c));
    assert ChunkList(b)[n..] == [];
    var front := Flatten(ChunkList(b)[..n - 1]);
    assert Elems(b') == front + DropLast(c);
    assert Elems(b) == front + c;
    LastSplit(front, c);
    ElemsLength(b);
    ElemsLength(b');
  }

  /** Taking the last element off the end of `front + c`. */
  lemma LastSplit<V>(front: seq<V>, c: seq<V>)
    requires |c| > 0
    ensures front + c == (front + DropLast(c)) + [c[|c| - 1]]
  {
    assert c == DropLast(c) + [c[|c| - 1]];
  }

  /** `pop()` on an empty BigVec returns `None` and changes nothing; with
      `start_index == 0` it otherwise removes and returns the last element. */
  lemma PopRemovesLast<V>(b: BigVec<V>)
    requires Valid(b) && b.startIndex == 0
    ensures PopsLast(b, Pop(b))
  {
    PopAtLastKey(b);
  }

  /** The corrected `pop()` removes the last element whatever `start_index`. */
  lemma PopKeyedRemovesLast<V>(b: BigVec<V>)
    requires Valid(b)
    ensures PopsLast(b, PopKeyed(b))
  {
    PopAtLastKey(b);
  }

  /** After `pop_first_vec`, `pop()` looks at the wrong chunk: with capacity 1
      and elements 10, 20 at keys 1 and 2, it returns 10 (the first element)
      and leaves 20 behind, where the last element, 20, was due. */
  lemma PopAfterPopFirstVecReturnsWrongElement()
    ensures var full := BigVec(0, 1, [1, 1, 1], map[0 := [0], 1 := [10], 2 := [20]]);
            var b := BigVec(1, 1, [1, 1], map[1 := [10], 2 := [20]]);
            && Valid(full)
            && PopFirstVec(full) == (b, Some([0]))
            && Valid(b) && Elems(b) == [10, 20]
            && Pop(b) == Ok((BigVec(1, 1, [1], map[2 := [20]]), Some(10)))
            && PopKeyed(b) == Ok((BigVec(1, 1, [1], map[1 := [10]]), Some(20)))
  {
    var full := BigVec(0, 1, [1, 1, 1], map[0 := [0], 1 := [10], 2 := [20]]);
    var b := BigVec(1, 1, [1, 1], map[1 := [10], 2 := [20]]);
    ShiftedSampleFrom(full, b);
    ShiftedSample(b);
    ShiftedSamplePops(b);
  }

  /** Chunks `[0]`, `[10]`, `[20]` of capacity 1 form a valid BigVec;
      `pop_first_vec` leaves `[10]`, `[20]` at keys 1 and 2. */
  lemma ShiftedSampleFrom(full: BigVec<int>, b: BigVec<int>)
    requires full == BigVec(0, 1, [1, 1, 1], map[0 := [0], 1 := [10], 2 := [20]])
    requires b == BigVec(1, 1, [1, 1], map[1 := [10], 2 := [20]])
    ensures Valid(full) && PopFirstVec(full) == (b, Some([0]))
  {
    assert ChunkSized(full, 0) && ChunkSized(full, 1) && ChunkSized(full, 2);
    assert full.vecData - {0} == map[1 := [10], 2 := [20]];
    assert [1, 1, 1][1..] == [1, 1];
  }

  /** The BigVec with `[10]`, `[20]` at keys 1 and 2 is valid and holds
      10, 20. */
  lemma ShiftedSample(b: BigVec<int>)
    requires b == BigVec(1, 1, [1, 1], map[1 := [10], 2 := [20]])
    ensures Valid(b) && Elems(b) == [10, 20]
  {
    assert ChunkSized(b, 0) && ChunkSized(b, 1);
    assert ChunkList(b) == [[10], [20]];
    assert Flatten([[10], [20]]) == Flatten([[10]]) + [20];
    assert Flatten([[10]]) == Flatten([[10]][..0]) + [10];
  }

  /** `pop()` on it takes key 1, `PopKeyed` key 2. */
  lemma ShiftedSamplePops(b: BigVec<int>)
    requires b == BigVec(1, 1, [1, 1], map[1 := [10], 2 := [20]])
    ensures Pop(b) == Ok((BigVec(1, 1, [1], map[2 := [20]]), Some(10)))
    ensures PopKeyed(b) == Ok((BigVec(1, 1, [1], map[1 := [10]]), Some(20)))
  {
    assert b.vecData - {1} == map[2 := [20]];
    assert [1, 1][..1] == [1];
    assert b.vecData - {2} == map[1 := [10]];
  }

  /** Chunks `[0, 1, 2]`, `[3, 4, 5]`, `[6]` of capacity 3 form a valid
      BigVec; `pop_first_vec` leaves `[3, 4, 5]`, `[6]` at keys 1 and 2, a
      valid BigVec holding 3, 4, 5, 6. */
  lemma FrontPoppedSample(full: BigVec<int>, b: BigVec<int>)
    requires full == BigVec(0, 3, [3, 3, 1], map[0 := [0, 1, 2], 1 := [3, 4, 5], 2 := [6]])
    requires b == BigVec(1, 3, [3, 1], map[1 := [3, 4, 5], 2 := [6]])
    ensures Valid(full) && PopFirstVec(full) == (b, Some([0, 1, 2]))
    ensures Valid(b) && Elems(b) == [3, 4, 5, 6]
  {
    assert ChunkSized(full, 0) && ChunkSized(full, 1) && ChunkSized(full, 2);
    assert full.vecData - {0} == map[1 := [3, 4, 5], 2 := [6]];
    assert [3, 3, 1][1..] == [3, 1];
    PoppedSampleElems(b);
  }

  /** The BigVec with `[3, 4, 5]`, `[6]` at keys 1 and 2 is valid and holds
      3, 4, 5, 6. */
  lemma PoppedSampleElems(b: BigVec<int>)
    requires b == BigVec(1, 3, [3, 1], map[1 := [3, 4, 5], 2 := [6]])
    ensures Valid(b) && Elems(b) == [3, 4, 5, 6]
  {
    assert ChunkSized(b, 0) && ChunkSized(b, 1);
    assert ChunkList(b) == [[3, 4, 5], [6]];
    FlattenAppend([[3, 4, 5]], [[6]]);
    assert Flatten([[3, 4, 5]]) == Flatten([[3, 4, 5]][..0]) + [3, 4, 5];
    assert Flatten([[6]]) == Flatten([[6]][..0]) + [6];
  }

  // ---------------------------------------------------------------------
  // Draining the front

  /** `pop_first_vec()`: removes the first chunk, advancing `start_index`
      instead of re-keying the remaining chunks. */
  function PopFirstVec<V>(b: BigVec<V>): (BigVec<V>, Option<seq<V>>)
  {
    if |b.vecStructure| == 0 then (b, None)
    else
      (b.(startIndex := b.startIndex + 1,
          vecStructure := b.vecStructure[1..],
          vecData := b.vecData - {b.startIndex}),
       if b.startIndex in b.vecData then Some(b.vecData[b.startIndex]) else None)
  }

  /** Removing the first chunk of a valid BigVec and advancing `start_index`
      leaves it valid, with the later chunks in place. */
  lemma DropFirstChunk<V>(b: BigVec<V>)
    requires Valid(b) && |b.vecStructure| > 0
    ensures var b' := PopFirstVec(b).0;
            && Valid(b')
            && ChunkList(b') == ChunkList(b)[1..]
  {
    var n := |b.vecStructure|;
    var b' := PopFirstVec(b).0;
    forall i | 0 <= i < n - 1
      ensures ChunkSized(b', i)
      ensures ChunkList(b')[i] == ChunkList(b)[i + 1]
    {
      ChunkFacts(b, i + 1);
    }
  }

  /** Once the front chunk `c` is gone, `get(i)` finds what `get(i + |c|)`
      found before. */
  lemma GetShifted<V>(b: BigVec<V>, b': BigVec<V>, c: seq<V>, i: nat)
    requires Valid(b) && Valid(b') && Elems(b) == c + Elems(b')
    ensures Get(b', i) == Get(b, i + |c|)
  {
    GetIsElems(b', i);
    GetIsElems(b, i + |c|);
  }

  /** `pop_first_vec()` returns `None` and changes nothing on an empty
      BigVec; otherwise it returns the first chunk, which is the front of the
      flat sequence, bumps `start_index` by exactly one, keeps the BigVec
      valid, and shifts every later `get` down by the chunk's size. */
  lemma PopFirstVecDrainsFront<V>(b: BigVec<V>)
    requires Valid(b)
    ensures IsEmpty(b) ==> PopFirstVec(b) == (b, None)
    ensures !IsEmpty(b) ==>
              && var (b', c) := PopFirstVec(b);
              && c.Some?
              && |c.value| == b.vecStructure[0]
              && Valid(b')
              && Elems(b) == c.value + Elems(b')
              && b'.startIndex == b.startIndex + 1
              && b'.vecStructure == b.vecStructure[1..]
              && (forall i: nat :: Get(b', i) == Get(b, i + |c.value|))
  {
    if !IsEmpty(b) {
      FrontChunkSplits(b);
      var b' := PopFirstVec(b).0;
      var c := PopFirstVec(b).1.value;
      forall i: nat
        ensures Get(b', i) == Get(b, i + |c|)
      {
        GetShifted(b, b', c, i);
      }
    }
  }

  /** On a non-empty valid BigVec, `pop_first_vec()` returns the first
      chunk, which is the front of the flat sequence, and leaves the rest
      valid. */
  lemma FrontChunkSplits<V>(b: BigVec<V>)
    requires Valid(b) && |b.vecStructure| > 0
    ensures PopFirstVec(b).1.Some?
    ensures |PopFirstVec(b).1.value| == b.vecStructure[0]
    ensures Valid(PopFirstVec(b).0)
    ensures Elems(b) == PopFirstVec(b).1.value + Elems(PopFirstVec(b).0)
  {
    ChunkFacts(b, 0);
    DropFirstChunk(b);
    var cs := ChunkList(b);
    FlattenSplit(cs, 0);
    assert cs[..0] == [];
  }

  /** Calls `pop_first_vec()` until it returns `None`, concatenating the
      chunks it returns. */
  function DrainFront<V>(b: BigVec<V>): seq<V>
    decreases |b.vecStructure|
  {
    var (b', c) := PopFirstVec(b);
    match c
    case None => []
    case Some(chunk) => chunk + DrainFront(b')
  }

  /** Draining a valid BigVec chunk by chunk from the front gives back its
      elements in order. */
  lemma {:induction false} DrainFrontIsElems<V>(b: BigVec<V>)
    requires Valid(b)
    ensures DrainFront(b) == Elems(b)
    decreases |b.vecStructure|
  {
    PopFirstVecDrainsFront(b);
    if IsEmpty(b) {
      EmptyIffNoElems(b);
    } else {
      var (b', c) := PopFirstVec(b);
      DrainFrontIsElems(b');
    }
  }
}

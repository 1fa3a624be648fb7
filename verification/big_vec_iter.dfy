/** Iteration over a `BigVec` by value: the iterator walks the store keys
    `0, 1, ..., vec_nb() - 1` (bare positions, without `start_index`) and
    yields each chunk's elements in order. */
module BigVecIter {
  import opened Outcomes
  import opened Chunks
  import opened BigVecs
  import opened BigVecBulk

  /** The iterator's state: the number of chunks, the position of the chunk
      being drained, what is left of that chunk, and the store it reads. */
  datatype Iter<V> = Iter(numberOfVec: nat, currentVec: nat, pending: seq<V>, vecData: map<nat, seq<V>>)

  /** `into_iter()`: starts on the chunk at key 0, or on nothing when the
      store has no key 0. */
  function IntoIter<V>(b: BigVec<V>): (it: Iter<V>)
    ensures it.numberOfVec == |b.vecStructure| && it.currentVec == 0
    ensures it.vecData == b.vecData
    ensures it.pending == (if 0 in b.vecData then b.vecData[0] else [])
  {
    Iter(|b.vecStructure|, 0, if 0 in b.vecData then b.vecData[0] else [], b.vecData)
  }

  /** How many chunk switches the iterator can still make. */
  function SwitchesLeft<V>(it: Iter<V>): nat
  {
    if it.currentVec < it.numberOfVec then it.numberOfVec - it.currentVec else 0
  }

  /** `it'` is a later state of the same iteration: fewer chunk switches
      left, or as many and less pending. */
  ghost predicate Advanced<V>(it: Iter<V>, it': Iter<V>)
  {
    && it'.numberOfVec == it.numberOfVec
    && it'.vecData == it.vecData
    && (SwitchesLeft(it') < SwitchesLeft(it)
        || (SwitchesLeft(it') == SwitchesLeft(it) && |it'.pending| < |it.pending|))
  }

  /** `next()`: yields from the current chunk while it lasts; then, unless
      the current chunk was the last one, moves to the next key and yields
      that chunk's first element (nothing, if it is empty). A missing key
      panics as a malformed iterator. */
  function Next<V>(it: Iter<V>): (r: Outcome<(Option<V>, Iter<V>)>)
    ensures r.Panic? <==> |it.pending| == 0 && it.currentVec + 1 < it.numberOfVec
                          && it.currentVec + 1 !in it.vecData
    ensures r.Panic? ==> r.reason == MalformedIterator(it.currentVec + 1)
    ensures r.Ok? && |it.pending| > 0 ==> r.value.0 == Some(it.pending[0])
    ensures r.Ok? && |it.pending| == 0 && it.currentVec + 1 >= it.numberOfVec ==> r.value.0.None?
    ensures r.Ok? && r.value.0.Some? ==> Advanced(it, r.value.1)
  {
    if |it.pending| > 0 then
      Ok((Some(it.pending[0]), it.(pending := it.pending[1..])))
    else if it.currentVec + 1 >= it.numberOfVec then
      Ok((None, it))
    else if it.currentVec + 1 !in it.vecData then
      Panic(MalformedIterator(it.currentVec + 1))
    else
      var c := it.vecData[it.currentVec + 1];
      var it' := it.(currentVec := it.currentVec + 1);
      if |c| == 0 then Ok((None, it'.(pending := [])))
      else Ok((Some(c[0]), it'.(pending := c[1..])))
  }

  /** Everything the iterator yields until `next()` first returns `None`. */
  function Collect<V>(it: Iter<V>): Outcome<seq<V>>
    decreases SwitchesLeft(it), |it.pending|
  {
    match Next(it)
    case Panic(e) => Panic(e)
    case Ok((None, _)) => Ok([])
    case Ok((Some(x), it')) =>
      match Collect(it')
      case Panic(e) => Panic(e)
      case Ok(rest) => Ok([x] + rest)
  }

  /** Iterating a BigVec from the start. */
  function ToSeq<V>(b: BigVec<V>): Outcome<seq<V>>
  {
    Collect(IntoIter(b))
  }

  /** The store an iterator reads holds the non-empty chunks `cs` under
      keys `0..|cs|`. */
  ghost predicate Holds<V>(it: Iter<V>, cs: seq<seq<V>>)
  {
    && it.numberOfVec == |cs|
    && forall k | 0 <= k < |cs| :: k in it.vecData && it.vecData[k] == cs[k] && |cs[k]| > 0
  }

  /** Halfway through, on chunk `currentVec`, the iterator yields what is
      pending followed by the chunks after the current one. */
  lemma {:induction false} CollectRest<V>(it: Iter<V>, cs: seq<seq<V>>)
    requires Holds(it, cs) && it.currentVec < |cs|
    ensures Collect(it) == Ok(it.pending + Flatten(cs[it.currentVec + 1..]))
    decreases SwitchesLeft(it), |it.pending|
  {
    if |it.pending| > 0 {
      CollectRest(Drained(it), cs);
      CollectDrains(it, cs);
    } else if it.currentVec + 1 >= it.numberOfVec {
      CollectStops(it, cs);
    } else {
      CollectRest(Switched(it, cs), cs);
      CollectSwitches(it, cs);
    }
  }

  /** The iterator after yielding the first pending element. */
  function Drained<V>(it: Iter<V>): Iter<V>
    requires |it.pending| > 0
  {
    it.(pending := it.pending[1..])
  }

  /** The iterator after moving to chunk `currentVec + 1` of `cs` and
      yielding its first element. */
  function Switched<V>(it: Iter<V>, cs: seq<seq<V>>): Iter<V>
    requires it.currentVec + 1 < |cs| && |cs[it.currentVec + 1]| > 0
  {
    it.(currentVec := it.currentVec + 1, pending := cs[it.currentVec + 1][1..])
  }

  /** One pending element is yielded ahead of the rest. */
  lemma CollectDrains<V>(it: Iter<V>, cs: seq<seq<V>>)
    requires Holds(it, cs) && it.currentVec < |cs| && |it.pending| > 0
    requires Collect(Drained(it)) == Ok(it.pending[1..] + Flatten(cs[it.currentVec + 1..]))
    ensures Collect(it) == Ok(it.pending + Flatten(cs[it.currentVec + 1..]))
  {
    var rest := Flatten(cs[it.currentVec + 1..]);
    assert Next(it) == Ok((Some(it.pending[0]), Drained(it)));
    CollectCons(it, it.pending[0], Drained(it), it.pending[1..] + rest);
    ConsOnto(it.pending, rest);
  }

  /** On the last chunk with nothing pending the iteration ends. */
  lemma CollectStops<V>(it: Iter<V>, cs: seq<seq<V>>)
    requires Holds(it, cs) && it.currentVec < |cs| && |it.pending| == 0
    requires it.currentVec + 1 >= it.numberOfVec
    ensures Collect(it) == Ok(it.pending + Flatten(cs[it.currentVec + 1..]))
  {
    assert Next(it) == Ok((None, it));
    CollectEnd(it, it);
    assert cs[it.currentVec + 1..] == [];
    assert it.pending + Flatten(cs[it.currentVec + 1..]) == [];
  }

  /** With nothing pending, the next chunk's elements follow. */
  lemma CollectSwitches<V>(it: Iter<V>, cs: seq<seq<V>>)
    requires Holds(it, cs) && |it.pending| == 0 && it.currentVec + 1 < |cs|
    requires Collect(Switched(it, cs)) == Ok(cs[it.currentVec + 1][1..] + Flatten(cs[it.currentVec + 2..]))
    ensures Collect(it) == Ok(it.pending + Flatten(cs[it.currentVec + 1..]))
  {
    var k := it.currentVec;
    var c := cs[k + 1];
    var it' := Switched(it, cs);
    var tail := c[1..] + Flatten(cs[k + 2..]);
    NextSwitches(it, cs);
    CollectCons(it, c[0], it', tail);
    FlattenFrom(cs, k + 1);
    ConsOnto(c, Flatten(cs[k + 2..]));
    assert it.pending + Flatten(cs[k + 1..]) == [c[0]] + tail;
  }

  /** With nothing pending, `next()` moves to the next chunk and yields its
      first element. */
  lemma NextSwitches<V>(it: Iter<V>, cs: seq<seq<V>>)
    requires Holds(it, cs) && |it.pending| == 0 && it.currentVec + 1 < |cs|
    ensures Next(it) == Ok((Some(cs[it.currentVec + 1][0]), Switched(it, cs)))
  {
  }

  /** A yielded element goes in front of what the iteration yields next. */
  lemma CollectCons<V>(it: Iter<V>, x: V, it': Iter<V>, rest: seq<V>)
    requires Next(it) == Ok((Some(x), it')) && Collect(it') == Ok(rest)
    ensures Collect(it) == Ok([x] + rest)
  {
  }

  /** Once `next()` returns `None`, the iteration has yielded everything. */
  lemma CollectEnd<V>(it: Iter<V>, it': Iter<V>)
    requires Next(it) == Ok((None, it'))
    ensures Collect(it) == Ok([])
  {
  }

  /** Yielding the head of `p` and then the rest of `p` before `rest`. */
  lemma ConsOnto<V>(p: seq<V>, rest: seq<V>)
    requires |p| > 0
    ensures [p[0]] + (p[1..] + rest) == p + rest
  {
  }

  /** Iterating a well-formed BigVec with `start_index == 0` yields exactly
      its elements, without panicking. */
  lemma ToSeqIsElems<V>(b: BigVec<V>)
    requires Wf(b) && b.startIndex == 0
    ensures ToSeq(b) == Ok(Elems(b))
  {
    if |b.vecStructure| == 0 {
      ToSeqOfEmpty(b);
    } else {
      ToSeqOfChunks(b);
    }
  }

  /** With no chunks the store has no key 0 and nothing is yielded. */
  lemma ToSeqOfEmpty<V>(b: BigVec<V>)
    requires Wf(b) && b.startIndex == 0 && |b.vecStructure| == 0
    ensures ToSeq(b) == Ok(Elems(b))
  {
    var it := IntoIter(b);
    assert 0 !in b.vecData;
    assert Next(it) == Ok((None, it));
    assert ChunkList(b) == [];
  }

  /** With chunks, the first is pending and the rest follow. */
  lemma ToSeqOfChunks<V>(b: BigVec<V>)
    requires Wf(b) && b.startIndex == 0 && |b.vecStructure| > 0
    ensures ToSeq(b) == Ok(Elems(b))
  {
    var cs := ChunkList(b);
    var it := IntoIter(b);
    IterHoldsChunks(b);
    assert it.pending == cs[0];
    CollectRest(it, cs);
    FlattenHead(cs);
    assert Elems(b) == cs[0] + Flatten(cs[1..]);
  }

  /** A fresh iterator over a well-formed BigVec with `start_index == 0`
      reads its chunks in directory order. */
  lemma IterHoldsChunks<V>(b: BigVec<V>)
    requires Wf(b) && b.startIndex == 0
    ensures Holds(IntoIter(b), ChunkList(b))
  {
    var cs := ChunkList(b);
    var it := IntoIter(b);
    forall k | 0 <= k < |cs|
      ensures k in it.vecData && it.vecData[k] == cs[k] && |cs[k]| > 0
    {
      ChunkFacts(b, k);
    }
  }

  /** Iterating the BigVec built from `v` yields `v`. */
  lemma FromIterates<V>(elemSize: nat, v: seq<V>)
    requires 0 < elemSize <= 1_000_000
    ensures From(elemSize, v).Ok? && ToSeq(From(elemSize, v).value) == Ok(v)
  {
    FromHoldsVec(elemSize, v);
    ToSeqIsElems(From(elemSize, v).value);
  }

  /** The iterator reads bare keys: after `pop_first_vec` on chunks
      `[1, 2]`, `[3, 4]` (capacity 2) the only chunk sits at key 1, the
      iterator starts on the absent key 0 and yields nothing, although the
      BigVec still holds `[3, 4]`. */
  lemma IterAfterPopFirstVecYieldsNothing()
    ensures var b: BigVec<int> := BigVec(0, 2, [2, 2], map[0 := [1, 2], 1 := [3, 4]]);
            var b' := PopFirstVec(b).0;
            && Elems(b') == [3, 4]
            && ToSeq(b') == Ok([])
  {
    var b: BigVec<int> := BigVec(0, 2, [2, 2], map[0 := [1, 2], 1 := [3, 4]]);
    var b' := PopFirstVec(b).0;
    assert b' == BigVec(1, 2, [2], map[1 := [3, 4]]);
    assert ChunkList(b') == [[3, 4]];
    assert Flatten([[3, 4]]) == Flatten([[3, 4]][..0]) + [3, 4];
    assert Next(IntoIter(b')) == Ok((None, IntoIter(b')));
  }
}

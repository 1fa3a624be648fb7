/** Bulk operations on `BigVec`: `push_vec_raw`, `push_vec`, `From<Vec<V>>`
    and `append`. All of them address the store by bare directory
    position, without `start_index`; `push_vec_raw` and `push_vec` also
    come in a keyed version that adds `start_index`. */
module BigVecBulk {
  import opened Outcomes
  import opened Chunks
  import opened BigVecs

  // ---------------------------------------------------------------------
  // push_vec_raw

  /** The sizes of the chunks `push_vec_raw` cuts `m` elements into:
      `min(remaining, cap)` each time. */
  function ChunkSizes(m: nat, cap: nat): (r: seq<nat>)
    requires cap > 0
    ensures Sum(r) == m
    decreases m
  {
    if m == 0 then []
    else
      var k := if m < cap then m else cap;
      var rest := ChunkSizes(m - k, cap);
      SumAppend([k], rest);
      assert Sum([k]) == Sum([k][..0]) + k;
      [k] + rest
  }

  /** Each chunk `push_vec_raw` cuts holds between one element and the
      capacity, and all but the last are full. */
  lemma {:induction false} ChunkSizesShape(m: nat, cap: nat)
    requires cap > 0
    ensures forall i | 0 <= i < |ChunkSizes(m, cap)| :: 1 <= ChunkSizes(m, cap)[i] <= cap
    ensures FullButLast(ChunkSizes(m, cap), cap)
    decreases m
  {
    if m > 0 {
      var k := if m < cap then m else cap;
      ChunkSizesShape(m - k, cap);
      assert ChunkSizes(m, cap) == [k] + ChunkSizes(m - k, cap);
      if k < cap {
        assert ChunkSizes(m - k, cap) == [];
      }
    }
  }

  /** `push_vec_raw(elements)`: cuts the elements into chunks of
      `min(remaining, cap)` and stores each one as a new chunk, under keys
      counted from `vec_nb()`. With `cap == 0` the loop drains nothing and
      never ends. */
  function PushVecRaw<V>(b: BigVec<V>, es: seq<V>): Outcome<BigVec<V>>
  {
    PushVecRawAt(b, es, |b.vecStructure|)
  }

  /** `push_vec_raw` storing its first new chunk under `start_index +
      vec_nb()`, the key `push` would use. */
  function PushVecRawKeyed<V>(b: BigVec<V>, es: seq<V>): Outcome<BigVec<V>>
  {
    PushVecRawAt(b, es, b.startIndex + |b.vecStructure|)
  }

  /** The body of `push_vec_raw`, given the store key of the first new
      chunk. */
  function PushVecRawAt<V>(b: BigVec<V>, es: seq<V>, key: nat): Outcome<BigVec<V>>
  {
    if |es| == 0 then Ok(b)
    else if b.capacityPerVec == 0 then Panic(LoopsForever)
    else Ok(PushRawFrom(b, key, es))
  }

  /** The loop of `push_vec_raw` from store key `key` on. */
  function PushRawFrom<V>(b: BigVec<V>, key: nat, es: seq<V>): BigVec<V>
    requires b.capacityPerVec > 0
    decreases |es|
  {
    if |es| == 0 then b
    else
      var k := if |es| < b.capacityPerVec then |es| else b.capacityPerVec;
      PushRawFrom(b.(vecStructure := b.vecStructure + [k],
                     vecData := b.vecData[key := es[..k]]),
                  key + 1, es[k..])
  }

  /** Valid, with a full last chunk (or none): new chunks may follow. */
  ghost predicate ValidToExtend<V>(b: BigVec<V>)
  {
    Valid(b) && (|b.vecStructure| == 0 || b.vecStructure[|b.vecStructure| - 1] == b.capacityPerVec)
  }

  /** `r` is `b` with the elements `es` stored in new chunks of sizes
      `ChunkSizes(|es|, cap)` after the existing ones. */
  ghost predicate ExtendedBy<V>(b: BigVec<V>, es: seq<V>, r: BigVec<V>)
    requires b.capacityPerVec > 0
  {
    && Wf(r)
    && r.startIndex == b.startIndex && r.capacityPerVec == b.capacityPerVec
    && r.vecStructure == b.vecStructure + ChunkSizes(|es|, b.capacityPerVec)
    && Elems(r) == Elems(b) + es
    && (ValidToExtend(b) ==> Valid(r))
  }

  /** One round of the loop followed by the rest is the whole extension. */
  lemma ExtendStep<V>(b: BigVec<V>, es: seq<V>, k: nat, b1: BigVec<V>, r: BigVec<V>)
    requires b.capacityPerVec > 0 && 0 < k <= |es| && k <= b.capacityPerVec
    requires k < b.capacityPerVec ==> k == |es|
    requires b1.startIndex == b.startIndex && b1.capacityPerVec == b.capacityPerVec
    requires b1.vecStructure == b.vecStructure + [k] && Elems(b1) == Elems(b) + es[..k]
    requires ValidToExtend(b) ==> Valid(b1)
    requires ExtendedBy(b1, es[k..], r)
    ensures ExtendedBy(b, es, r)
  {
    SizesStep(b.vecStructure, |es|, b.capacityPerVec, k);
    assert |es[k..]| == |es| - k;
    RejoinAt(Elems(b), es, k);
    if ValidToExtend(b) {
      ExtendStepValid(b, es, k, b1, r);
    }
  }

  /** Appending the first `k` elements of `es` and then the rest appends
      `es`. */
  lemma RejoinAt<V>(x: seq<V>, es: seq<V>, k: nat)
    requires k <= |es|
    ensures x + es[..k] + es[k..] == x + es
  {
    assert es == es[..k] + es[k..];
  }

  /** The first chunk the loop cuts is `k` elements long, followed by the
      chunks of the rest. */
  lemma SizesStep(s: seq<nat>, m: nat, cap: nat, k: nat)
    requires cap > 0 && 0 < k <= m && k <= cap && (k < cap ==> k == m)
    ensures s + [k] + ChunkSizes(m - k, cap) == s + ChunkSizes(m, cap)
  {
    var k' := if m < cap then m else cap;
    assert k' == k;
    var rest := ChunkSizes(m - k, cap);
    assert ChunkSizes(m, cap) == [k] + rest;
    assert s + [k] + rest == s + ([k] + rest);
  }

  /** The extension of a BigVec that may be extended is valid: a full first
      new chunk lets the rest follow, a partial one is the last. */
  lemma ExtendStepValid<V>(b: BigVec<V>, es: seq<V>, k: nat, b1: BigVec<V>, r: BigVec<V>)
    requires b.capacityPerVec > 0 && 0 < k <= |es| && k <= b.capacityPerVec
    requires k < b.capacityPerVec ==> k == |es|
    requires b1.capacityPerVec == b.capacityPerVec && b1.vecStructure == b.vecStructure + [k]
    requires Valid(b1)
    requires ExtendedBy(b1, es[k..], r)
    ensures Valid(r)
  {
    var cap := b.capacityPerVec;
    if k == cap {
      assert b1.vecStructure[|b1.vecStructure| - 1] == cap;
      assert ValidToExtend(b1);
    } else {
      assert ChunkSizes(|es[k..]|, cap) == [];
      assert r.vecStructure == b1.vecStructure;
    }
  }

  /** On a well-formed BigVec, the loop of `push_vec_raw` started at the
      key `start_index + vec_nb()` appends `es` and extends the directory by
      `ChunkSizes(|es|, cap)`, leaving the existing chunks alone; it keeps
      the BigVec well-formed, and valid when the old last chunk was full. */
  lemma {:induction false} PushRawFromAppends<V>(b: BigVec<V>, es: seq<V>)
    requires Wf(b)
    ensures ExtendedBy(b, es, PushRawFrom(b, b.startIndex + |b.vecStructure|, es))
    decreases |es|
  {
    var cap := b.capacityPerVec;
    if |es| == 0 {
      assert b.vecStructure + [] == b.vecStructure;
      assert Elems(b) + es == Elems(b);
    } else {
      var k := if |es| < cap then |es| else cap;
      var b1 := b.(vecStructure := b.vecStructure + [k],
                   vecData := b.vecData[b.startIndex + |b.vecStructure| := es[..k]]);
      var r := PushRawFrom(b1, b1.startIndex + |b1.vecStructure|, es[k..]);
      assert PushRawFrom(b, b.startIndex + |b.vecStructure|, es) == r;
      AppendChunk(b, es[..k]);
      PushRawFromAppends(b1, es[k..]);
      ExtendStep(b, es, k, b1, r);
    }
  }

  /** The corrected `push_vec_raw(es)`: a no-op for no elements, a
      panic-free append on every well-formed BigVec, whatever its
      `start_index`. */
  lemma PushVecRawKeyedAppends<V>(b: BigVec<V>, es: seq<V>)
    requires Wf(b)
    ensures PushVecRawKeyed(b, es).Ok?
    ensures b.capacityPerVec > 0 && ExtendedBy(b, es, PushVecRawKeyed(b, es).value)
  {
    if |es| == 0 {
      assert b.vecStructure + [] == b.vecStructure;
      assert Elems(b) + es == Elems(b);
    } else {
      PushRawFromAppends(b, es);
      assert ExtendedBy(b, es, PushVecRawKeyed(b, es).value);
    }
  }

  /** `push_vec_raw(es)` as written does the same when `start_index == 0`,
      where the bare key `vec_nb()` is the right one. */
  lemma PushVecRawAppends<V>(b: BigVec<V>, es: seq<V>)
    requires Wf(b) && b.startIndex == 0
    ensures PushVecRaw(b, es).Ok?
    ensures b.capacityPerVec > 0 && ExtendedBy(b, es, PushVecRaw(b, es).value)
  {
    PushVecRawKeyedAppends(b, es);
  }

  /** With capacity 3 and chunks of 3, 3 and 1, `push_vec_raw([7, 8])` opens
      a fourth chunk of 2 after the partial third one: the directory becomes
      3, 3, 1, 2 and the BigVec is no longer valid, although it still holds
      the elements in order. */
  lemma PushVecRawLeavesGap()
    ensures var b := BigVec(0, 3, [3, 3, 1], map[0 := [0, 1, 2], 1 := [3, 4, 5], 2 := [6]]);
            var r := PushVecRaw(b, [7, 8]);
            && Valid(b)
            && r.Ok?
            && r.value.vecStructure == [3, 3, 1, 2]
            && Elems(r.value) == Elems(b) + [7, 8]
            && Wf(r.value) && !Valid(r.value)
  {
    var b := BigVec(0, 3, [3, 3, 1], map[0 := [0, 1, 2], 1 := [3, 4, 5], 2 := [6]]);
    GapSampleValid(b);
    PushVecRawAppends(b, [7, 8]);
    assert ChunkSizes(0, 3) == [];
    assert ChunkSizes(2, 3) == [2];
    var r := PushVecRaw(b, [7, 8]).value;
    assert r.vecStructure[2] != r.capacityPerVec;
  }

  /** After `pop_first_vec()` on chunks `[0, 1, 2]`, `[3, 4, 5]`, `[6]`
      (capacity 3), `start_index` is 1 and `push_vec_raw([7])` stores the new
      chunk under the bare key 2, over `[6]`: the directory then names a
      chunk at key 3 that the store lacks, and 6 is gone. The corrected
      `push_vec_raw` stores `[7]` under key 3, after 3, 4, 5, 6. */
  lemma PushVecRawAfterPopFirstVecLosesChunk()
    ensures var full := BigVec(0, 3, [3, 3, 1], map[0 := [0, 1, 2], 1 := [3, 4, 5], 2 := [6]]);
            var b := BigVec(1, 3, [3, 1], map[1 := [3, 4, 5], 2 := [6]]);
            && Valid(full) && PopFirstVec(full) == (b, Some([0, 1, 2]))
            && Valid(b) && Elems(b) == [3, 4, 5, 6]
            && PushVecRaw(b, [7]) == Ok(BigVec(1, 3, [3, 1, 1], map[1 := [3, 4, 5], 2 := [7]]))
            && !Wf(PushVecRaw(b, [7]).value)
            && PushVecRawKeyed(b, [7]).Ok? && Wf(PushVecRawKeyed(b, [7]).value)
            && Elems(PushVecRawKeyed(b, [7]).value) == [3, 4, 5, 6, 7]
  {
    var full := BigVec(0, 3, [3, 3, 1], map[0 := [0, 1, 2], 1 := [3, 4, 5], 2 := [6]]);
    var b := BigVec(1, 3, [3, 1], map[1 := [3, 4, 5], 2 := [6]]);
    FrontPoppedSample(full, b);
    PoppedSampleRaw(b);
    PushVecRawKeyedAppends(b, [7]);
  }

  /** `push_vec_raw([7])` on that BigVec writes `[7]` under key 2. */
  lemma PoppedSampleRaw(b: BigVec<int>)
    requires b == BigVec(1, 3, [3, 1], map[1 := [3, 4, 5], 2 := [6]])
    ensures PushVecRaw(b, [7]) == Ok(BigVec(1, 3, [3, 1, 1], map[1 := [3, 4, 5], 2 := [7]]))
    ensures !Wf(PushVecRaw(b, [7]).value)
  {
    assert [7][..1] == [7] && [7][1..] == [];
    assert [3, 1] + [1] == [3, 1, 1];
    assert b.vecData[2 := [7]] == map[1 := [3, 4, 5], 2 := [7]];
    var r := PushVecRaw(b, [7]).value;
    assert !ChunkSized(r, 2);
  }

  /** After the same `pop_first_vec()`, `push_vec([7])` tops up the chunk
      under the bare key 1, the full `[3, 4, 5]`, instead of `[6]` under
      key 2: that chunk then holds four elements where the directory
      records two, and 7 comes before 6. The corrected `push_vec` grows
      `[6]` into `[6, 7]`. */
  lemma PushVecAfterPopFirstVecMisplaces()
    ensures var b := BigVec(1, 3, [3, 1], map[1 := [3, 4, 5], 2 := [6]]);
            && Valid(b) && Elems(b) == [3, 4, 5, 6]
            && PushVec(b, [7]) == Ok(BigVec(1, 3, [3, 2], map[1 := [3, 4, 5, 7], 2 := [6]]))
            && !Wf(PushVec(b, [7]).value)
            && PushVecKeyed(b, [7]) == Ok(BigVec(1, 3, [3, 2], map[1 := [3, 4, 5], 2 := [6, 7]]))
            && Valid(PushVecKeyed(b, [7]).value)
            && Elems(PushVecKeyed(b, [7]).value) == [3, 4, 5, 6, 7]
  {
    var b := BigVec(1, 3, [3, 1], map[1 := [3, 4, 5], 2 := [6]]);
    PoppedSampleElems(b);
    PoppedSampleTopUp(b);
    PushVecKeyedAppends(b, [7]);
  }

  /** `push_vec([7])` on that BigVec has room 2 in the last chunk and tops
      up the chunk under key `0 + 2 - 1`; the corrected one uses key
      `1 + 2 - 1`. */
  lemma PoppedSampleTopUp(b: BigVec<int>)
    requires b == BigVec(1, 3, [3, 1], map[1 := [3, 4, 5], 2 := [6]])
    ensures PushVec(b, [7]) == Ok(BigVec(1, 3, [3, 2], map[1 := [3, 4, 5, 7], 2 := [6]]))
    ensures !Wf(PushVec(b, [7]).value)
    ensures PushVecKeyed(b, [7]) == Ok(BigVec(1, 3, [3, 2], map[1 := [3, 4, 5], 2 := [6, 7]]))
  {
    assert [3, 4, 5] + [7] == [3, 4, 5, 7] && [6] + [7] == [6, 7];
    assert [3, 1][1 := 1 + |[7]|] == [3, 2];
    assert b.vecData[1 := [3, 4, 5] + [7]] == map[1 := [3, 4, 5, 7], 2 := [6]];
    assert b.vecData[2 := [6] + [7]] == map[1 := [3, 4, 5], 2 := [6, 7]];
    var r := PushVec(b, [7]).value;
    assert !ChunkSized(r, 0);
  }

  /** The sample BigVec above is valid. */
  lemma GapSampleValid(b: BigVec<int>)
    requires b == BigVec(0, 3, [3, 3, 1], map[0 := [0, 1, 2], 1 := [3, 4, 5], 2 := [6]])
    ensures Valid(b)
  {
    assert ChunkSized(b, 0) && ChunkSized(b, 1) && ChunkSized(b, 2);
  }

  // ---------------------------------------------------------------------
  // push_vec and From

  /** `push_vec(elements)` as written: tops the last chunk up towards the
      capacity, then hands the rest to `push_vec_raw`. The last chunk is
      looked up under the bare key `vec_nb() - 1`. */
  function PushVec<V>(b: BigVec<V>, es: seq<V>): Outcome<BigVec<V>>
  {
    PushVecAt(b, es, 0)
  }

  /** `push_vec` with every store key shifted by `start_index`. */
  function PushVecKeyed<V>(b: BigVec<V>, es: seq<V>): Outcome<BigVec<V>>
  {
    PushVecAt(b, es, b.startIndex)
  }

  /** The body of `push_vec`, given the store key `base` of directory
      position 0. The room left is `cap - last`, which underflows when
      `last > cap`. */
  function PushVecAt<V>(b: BigVec<V>, es: seq<V>, base: nat): Outcome<BigVec<V>>
  {
    var n := |b.vecStructure|;
    if n == 0 then PushVecRawAt(b, es, base)
    else if b.vecStructure[n - 1] > b.capacityPerVec then Panic(SubtractOverflow)
    else
      var room := b.capacityPerVec - b.vecStructure[n - 1];
      var key := base + n - 1;
      if key !in b.vecData then Panic(UnwrapNone)
      else if room > |es| then
        Ok(b.(vecStructure := b.vecStructure[n - 1 := b.vecStructure[n - 1] + |es|],
              vecData := b.vecData[key := b.vecData[key] + es]))
      else PushVecRawAt(Filled(b, es, room, key), es[room..], base + n)
  }

  /** The BigVec after `push_vec` has topped its last chunk up with the
      first `room` elements of `es`, writing the chunk back under `key`. */
  function Filled<V>(b: BigVec<V>, es: seq<V>, room: nat, key: nat): BigVec<V>
    requires |b.vecStructure| > 0 && key in b.vecData && room <= |es|
  {
    var n := |b.vecStructure|;
    b.(vecStructure := b.vecStructure[n - 1 := b.capacityPerVec],
       vecData := b.vecData[key := b.vecData[key] + es[..room]])
  }

  /** `r` is a successful append of `es` to `b` that keeps it valid, with
      the same `start_index` and capacity. */
  ghost predicate AppendsValid<V>(b: BigVec<V>, es: seq<V>, r: Outcome<BigVec<V>>)
  {
    && r.Ok?
    && Valid(r.value)
    && r.value.startIndex == b.startIndex && r.value.capacityPerVec == b.capacityPerVec
    && Elems(r.value) == Elems(b) + es
  }

  /** On every valid BigVec, whatever its `start_index`, the corrected
      `push_vec(es)` appends `es` and keeps the BigVec valid. When the last
      chunk has more room than `es` needs, only that chunk grows; otherwise
      it is filled to the capacity and the rest goes into new chunks of
      `min(remaining, cap)`. */
  lemma PushVecKeyedAppends<V>(b: BigVec<V>, es: seq<V>)
    requires Valid(b)
    ensures AppendsValid(b, es, PushVecKeyed(b, es))
    ensures var r := PushVecKeyed(b, es);
            var n := |b.vecStructure|;
            var cap := b.capacityPerVec;
            && (n == 0 ==> r.value.vecStructure == ChunkSizes(|es|, cap))
            && (n > 0 && cap - b.vecStructure[n - 1] > |es| ==>
                  r.value.vecStructure == b.vecStructure[n - 1 := b.vecStructure[n - 1] + |es|])
            && (n > 0 && cap - b.vecStructure[n - 1] <= |es| ==>
                  r.value.vecStructure
                    == b.vecStructure[n - 1 := cap] + ChunkSizes(|es| - (cap - b.vecStructure[n - 1]), cap))
  {
    var n := |b.vecStructure|;
    if n == 0 {
      PushVecRawKeyedAppends(b, es);
    } else if b.capacityPerVec - b.vecStructure[n - 1] > |es| {
      GrowIntoRoom(b, es);
    } else {
      FillThenRaw(b, es);
    }
  }

  /** `push_vec(es)` as written does the same on a valid BigVec with
      `start_index == 0`, where the bare keys are the right ones. */
  lemma PushVecAppends<V>(b: BigVec<V>, es: seq<V>)
    requires Valid(b) && b.startIndex == 0
    ensures AppendsValid(b, es, PushVec(b, es))
    ensures var r := PushVec(b, es);
            var n := |b.vecStructure|;
            var cap := b.capacityPerVec;
            && (n == 0 ==> r.value.vecStructure == ChunkSizes(|es|, cap))
            && (n > 0 && cap - b.vecStructure[n - 1] > |es| ==>
                  r.value.vecStructure == b.vecStructure[n - 1 := b.vecStructure[n - 1] + |es|])
            && (n > 0 && cap - b.vecStructure[n - 1] <= |es| ==>
                  r.value.vecStructure
                    == b.vecStructure[n - 1 := cap] + ChunkSizes(|es| - (cap - b.vecStructure[n - 1]), cap))
  {
    PushVecKeyedAppends(b, es);
  }

  /** When the last chunk has room for all of `es`, `push_vec` only grows
      that chunk. */
  lemma GrowIntoRoom<V>(b: BigVec<V>, es: seq<V>)
    requires Valid(b) && |b.vecStructure| > 0
    requires b.capacityPerVec - b.vecStructure[|b.vecStructure| - 1] > |es|
    ensures AppendsValid(b, es, PushVecKeyed(b, es))
    ensures PushVecKeyed(b, es).value.vecStructure
              == b.vecStructure[|b.vecStructure| - 1 := b.vecStructure[|b.vecStructure| - 1] + |es|]
  {
    var n := |b.vecStructure|;
    GrowLastChunk(b, es);
    assert PushVecKeyed(b, es) == Ok(WithChunk(b, n - 1, b.vecData[b.startIndex + n - 1] + es));
  }

  /** When `es` fills the last chunk, `push_vec` first tops it up to the
      capacity, which keeps the BigVec valid and ready for new chunks;
      `b1` is the BigVec after that step. */
  lemma FillLast<V>(b: BigVec<V>, es: seq<V>, room: nat)
    requires Valid(b) && |b.vecStructure| > 0
    requires room == b.capacityPerVec - b.vecStructure[|b.vecStructure| - 1] <= |es|
    ensures b.startIndex + |b.vecStructure| - 1 in b.vecData
    ensures var key := b.startIndex + |b.vecStructure| - 1;
            PushVecKeyed(b, es) == PushVecRawKeyed(Filled(b, es, room, key), es[room..])
    ensures var b1 := Filled(b, es, room, b.startIndex + |b.vecStructure| - 1);
            && b1.startIndex == b.startIndex && b1.capacityPerVec == b.capacityPerVec
            && b1.vecStructure == b.vecStructure[|b.vecStructure| - 1 := b.capacityPerVec]
            && ValidToExtend(b1)
            && Elems(b1) == Elems(b) + es[..room]
  {
    var n := |b.vecStructure|;
    var key := b.startIndex + n - 1;
    GrowLastChunk(b, es[..room]);
    assert Filled(b, es, room, key) == WithChunk(b, n - 1, b.vecData[key] + es[..room]);
  }

  /** ... then pushes the rest raw, after the now full last chunk. */
  lemma FillThenRaw<V>(b: BigVec<V>, es: seq<V>)
    requires Valid(b) && |b.vecStructure| > 0
    requires b.capacityPerVec - b.vecStructure[|b.vecStructure| - 1] <= |es|
    ensures AppendsValid(b, es, PushVecKeyed(b, es))
    ensures var n := |b.vecStructure|;
            var cap := b.capacityPerVec;
            PushVecKeyed(b, es).value.vecStructure
              == b.vecStructure[n - 1 := cap] + ChunkSizes(|es| - (cap - b.vecStructure[n - 1]), cap)
  {
    var room := b.capacityPerVec - b.vecStructure[|b.vecStructure| - 1];
    var key := b.startIndex + |b.vecStructure| - 1;
    FillLast(b, es, room);
    RawAfterFill(b, es, room, Filled(b, es, room, key));
  }

  /** The raw push of the rest after topping up. */
  lemma RawAfterFill<V>(b: BigVec<V>, es: seq<V>, room: nat, b1: BigVec<V>)
    requires |b.vecStructure| > 0
    requires room == b.capacityPerVec - b.vecStructure[|b.vecStructure| - 1] <= |es|
    requires b1.startIndex == b.startIndex && b1.capacityPerVec == b.capacityPerVec > 0
    requires b1.vecStructure == b.vecStructure[|b.vecStructure| - 1 := b.capacityPerVec]
    requires ValidToExtend(b1) && Elems(b1) == Elems(b) + es[..room]
    ensures AppendsValid(b, es, PushVecRawKeyed(b1, es[room..]))
    ensures var n := |b.vecStructure|;
            var cap := b.capacityPerVec;
            PushVecRawKeyed(b1, es[room..]).value.vecStructure
              == b.vecStructure[n - 1 := cap] + ChunkSizes(|es| - (cap - b.vecStructure[n - 1]), cap)
  {
    PushVecRawKeyedAppends(b1, es[room..]);
    CombineFill(b, es, room, b1, PushVecRawKeyed(b1, es[room..]).value);
  }

  /** Topping up with `es[..room]` and extending by `es[room..]` appends
      `es`. */
  lemma CombineFill<V>(b: BigVec<V>, es: seq<V>, room: nat, b1: BigVec<V>, r: BigVec<V>)
    requires room <= |es| && b1.capacityPerVec > 0
    requires ValidToExtend(b1) && Elems(b1) == Elems(b) + es[..room]
    requires ExtendedBy(b1, es[room..], r)
    ensures Valid(r)
    ensures Elems(r) == Elems(b) + es
    ensures r.vecStructure == b1.vecStructure + ChunkSizes(|es| - room, b1.capacityPerVec)
  {
    assert es == es[..room] + es[room..];
  }

  /** `From<Vec<V>>`: `new()` followed by `push_vec`. */
  function From<V>(elemSize: nat, v: seq<V>): Outcome<BigVec<V>>
  {
    match New(elemSize)
    case Panic(e) => Panic(e)
    case Ok(b) => PushVec(b, v)
  }

  /** A BigVec built from `v` holds exactly `v` and is valid, whenever the
      element size allows at least one element per chunk; with a
      zero-sized element `new()` divides by zero. */
  lemma FromHoldsVec<V>(elemSize: nat, v: seq<V>)
    ensures elemSize == 0 ==> From(elemSize, v) == Panic(DivisionByZero)
    ensures 0 < elemSize <= 1_000_000 ==>
              && From(elemSize, v).Ok?
              && Valid(From(elemSize, v).value)
              && From(elemSize, v).value.startIndex == 0
              && Elems(From(elemSize, v).value) == v
  {
    if 0 < elemSize <= 1_000_000 {
      var b := New<V>(elemSize).value;
      PushVecAppends(b, v);
      assert Elems(b) == [];
    }
  }

  /** `from(vec![1, ..., 9])` of `u32`s: one chunk of capacity 250000. */
  lemma FromNineU32()
    ensures var r := From(4, [1, 2, 3, 4, 5, 6, 7, 8, 9]);
            && r.Ok?
            && r.value.capacityPerVec == 250000
            && !IsEmpty(r.value)
            && Elems(r.value) == [1, 2, 3, 4, 5, 6, 7, 8, 9]
  {
    FromHoldsVec(4, [1, 2, 3, 4, 5, 6, 7, 8, 9]);
  }

  // ---------------------------------------------------------------------
  // append

  /** The copy loop of `append`: for `i` in `i..count`, the chunk at key `i`
      of `src` is removed (unwrapping) and stored in `dst` at key
      `to + (i - first)`. */
  function MoveChunks<V>(dst: map<nat, seq<V>>, src: map<nat, seq<V>>, i: nat, count: nat, to: nat)
    : Outcome<map<nat, seq<V>>>
    decreases count - i
  {
    if i >= count then Ok(dst)
    else if i !in src then Panic(UnwrapNone)
    else MoveChunks(dst[to := src[i]], src - {i}, i + 1, count, to + 1)
  }

  /** `append(other)` as written: the directories are concatenated first,
      which empties `other`'s directory, and only then is the copy loop's
      bound `other.vec_structure.len()` read, so the loop runs zero times. */
  function Append<V>(b: BigVec<V>, other: BigVec<V>): (r: Outcome<BigVec<V>>)
    ensures r.Panic? <==> other.capacityPerVec != b.capacityPerVec
    ensures r.Panic? ==> r.reason == StructureMismatch
    ensures r.Ok? ==> && r.value.vecStructure == b.vecStructure + other.vecStructure
                      && r.value.vecData == b.vecData
                      && r.value.startIndex == b.startIndex
  {
    if other.capacityPerVec != b.capacityPerVec then Panic(StructureMismatch)
    else
      var otherStructureAfterAppend: seq<nat> := [];
      match MoveChunks(b.vecData, other.vecData, 0, |otherStructureAfterAppend|, |b.vecStructure|)
      case Panic(e) => Panic(e)
      case Ok(data) => Ok(b.(vecStructure := b.vecStructure + other.vecStructure, vecData := data))
  }

  /** `append` with the loop bound read before the directories are joined:
      chunk `i` of `other` (at bare key `i`) moves to key `vec_nb() + i`. */
  function AppendIntended<V>(b: BigVec<V>, other: BigVec<V>): Outcome<BigVec<V>>
  {
    if other.capacityPerVec != b.capacityPerVec then Panic(StructureMismatch)
    else
      match MoveChunks(b.vecData, other.vecData, 0, |other.vecStructure|, |b.vecStructure|)
      case Panic(e) => Panic(e)
      case Ok(data) => Ok(b.(vecStructure := b.vecStructure + other.vecStructure, vecData := data))
  }

  /** Appending a non-empty well-formed BigVec of the same capacity
      succeeds, but the directory then names chunks the store does not
      hold: the result is not well-formed. */
  lemma AppendLosesChunks<V>(b: BigVec<V>, other: BigVec<V>)
    requires Wf(b) && Wf(other) && other.capacityPerVec == b.capacityPerVec
    requires |other.vecStructure| > 0
    ensures Append(b, other).Ok?
    ensures !Wf(Append(b, other).value)
  {
    var r := Append(b, other).value;
    var n := |b.vecStructure|;
    assert b.startIndex + n !in r.vecData;
    assert !ChunkSized(r, n);
  }

  /** With capacity 2, appending a BigVec holding 7 to an empty one gives a
      length of 1, but `get(0)` then unwraps a missing chunk; the corrected
      `append` finds 7 there. */
  lemma AppendThenGetPanics()
    ensures var b: BigVec<int> := BigVec(0, 2, [], map[]);
            var other: BigVec<int> := BigVec(0, 2, [1], map[0 := [7]]);
            && Append(b, other) == Ok(BigVec(0, 2, [1], map[]))
            && Len(Append(b, other).value) == 1
            && Get(Append(b, other).value, 0) == Panic(UnwrapNone)
            && AppendIntended(b, other) == Ok(BigVec(0, 2, [1], map[0 := [7]]))
            && Get(AppendIntended(b, other).value, 0) == Ok(Some(7))
  {
    var b: BigVec<int> := BigVec(0, 2, [], map[]);
    var other: BigVec<int> := BigVec(0, 2, [1], map[0 := [7]]);
    var lost: BigVec<int> := BigVec(0, 2, [1], map[]);
    assert [] + [1] == [1];
    assert Len(lost) == Sum([1][..0]) + 1;
  }

  /** The corrected copy loop on keys `i..count` of `src`, all present,
      stores chunk `j` at key `to + (j - i)`, keeps every other key of `dst`
      as it was and adds no other key. */
  lemma {:induction false} MoveChunksMoves<V>(dst: map<nat, seq<V>>, src: map<nat, seq<V>>, i: nat, count: nat, to: nat)
    requires i <= count
    requires forall j | i <= j < count :: j in src
    ensures var r := MoveChunks(dst, src, i, count, to);
            && r.Ok?
            && (forall k | k in r.value :: k in dst || to <= k < to + (count - i))
            && (forall k | k in dst && !(to <= k < to + (count - i)) :: k in r.value && r.value[k] == dst[k])
            && (forall k | to <= k < to + (count - i) :: k in r.value && r.value[k] == src[k - to + i])
    decreases count - i
  {
    if i < count {
      var dst' := dst[to := src[i]];
      var src' := src - {i};
      MoveChunksMoves(dst', src', i + 1, count, to + 1);
      var r := MoveChunks(dst', src', i + 1, count, to + 1).value;
      assert MoveChunks(dst, src, i, count, to) == Ok(r);
      forall k | to <= k < to + (count - i)
        ensures k in r && r[k] == src[k - to + i]
      {
        if k > to {
          assert k - (to + 1) + (i + 1) == k - to + i;
          assert k - to + i in src' && src'[k - to + i] == src[k - to + i];
        } else {
          assert to in dst' && !(to + 1 <= to < to + 1 + (count - (i + 1)));
        }
      }
    }
  }

  /** On well-formed BigVecs of the same capacity, both with
      `start_index == 0`, the corrected `append` yields the concatenation of
      the two flat sequences, well-formed; it is valid when both were and
      the first one's last chunk was full. */
  lemma AppendIntendedConcats<V>(b: BigVec<V>, other: BigVec<V>)
    requires Wf(b) && Wf(other) && b.startIndex == 0 && other.startIndex == 0
    requires other.capacityPerVec == b.capacityPerVec
    ensures var r := AppendIntended(b, other);
            && r.Ok?
            && Wf(r.value)
            && r.value.vecStructure == b.vecStructure + other.vecStructure
            && Elems(r.value) == Elems(b) + Elems(other)
            && (Valid(b) && Valid(other)
                && (|b.vecStructure| == 0 || b.vecStructure[|b.vecStructure| - 1] == b.capacityPerVec)
                ==> Valid(r.value))
  {
    var r := AppendIntendedStore(b, other);
    AppendIntendedChunks(b, other, r);
    FlattenAppend(ChunkList(b), ChunkList(other));
    if Valid(b) && Valid(other)
       && (|b.vecStructure| == 0 || b.vecStructure[|b.vecStructure| - 1] == b.capacityPerVec)
    {
      FullButLastConcat(b.vecStructure, other.vecStructure, b.capacityPerVec);
    }
  }

  /** The store the corrected `append` builds: the first BigVec's chunks
      stay at their keys and chunk `p` of `other` lands at key `n + p`. */
  lemma AppendIntendedStore<V>(b: BigVec<V>, other: BigVec<V>) returns (r: BigVec<V>)
    requires Wf(b) && Wf(other) && b.startIndex == 0 && other.startIndex == 0
    requires other.capacityPerVec == b.capacityPerVec
    ensures AppendIntended(b, other) == Ok(r)
    ensures r.startIndex == 0 && r.capacityPerVec == b.capacityPerVec
    ensures r.vecStructure == b.vecStructure + other.vecStructure
    ensures JoinedStore(b, other, r.vecData)
  {
    KeysPresent(b);
    KeysPresent(other);
    MoveChunksMoves(b.vecData, other.vecData, 0, |other.vecStructure|, |b.vecStructure|);
    r := AppendIntended(b, other).value;
  }

  /** `data` holds `b`'s store keys `0..n` unchanged, chunk `j` of
      `other` at key `n + j`, and no other key. */
  ghost predicate JoinedStore<V>(b: BigVec<V>, other: BigVec<V>, data: map<nat, seq<V>>)
  {
    && (forall k | k in data :: k < |b.vecStructure| + |other.vecStructure|)
    && (forall p | 0 <= p < |b.vecStructure| :: p in b.vecData && p in data && data[p] == b.vecData[p])
    && (forall j | 0 <= j < |other.vecStructure|
          :: j in other.vecData && |b.vecStructure| + j in data
             && data[|b.vecStructure| + j] == other.vecData[j])
  }

  /** With `start_index == 0`, a well-formed BigVec's store has keys
      `0..vec_nb()`. */
  lemma KeysPresent<V>(b: BigVec<V>)
    requires Wf(b) && b.startIndex == 0
    ensures forall j | 0 <= j < |b.vecStructure| :: j in b.vecData
  {
    forall j | 0 <= j < |b.vecStructure|
      ensures j in b.vecData
    {
      ChunkFacts(b, j);
    }
  }

  /** ... so its chunks are those of `b` followed by those of `other`. */
  lemma AppendIntendedChunks<V>(b: BigVec<V>, other: BigVec<V>, r: BigVec<V>)
    requires Wf(b) && Wf(other) && b.startIndex == 0 && other.startIndex == 0
    requires other.capacityPerVec == b.capacityPerVec
    requires r.startIndex == 0 && r.capacityPerVec == b.capacityPerVec
    requires r.vecStructure == b.vecStructure + other.vecStructure
    requires JoinedStore(b, other, r.vecData)
    ensures Wf(r)
    ensures ChunkList(r) == ChunkList(b) + ChunkList(other)
  {
    JoinedFront(b, other, r);
    JoinedBack(b, other, r);
    assert Wf(r);
  }

  /** The first `n` chunks of the joined BigVec are those of `b`. */
  lemma JoinedFront<V>(b: BigVec<V>, other: BigVec<V>, r: BigVec<V>)
    requires Wf(b) && b.startIndex == 0
    requires r.startIndex == 0 && r.capacityPerVec == b.capacityPerVec
    requires r.vecStructure == b.vecStructure + other.vecStructure
    requires JoinedStore(b, other, r.vecData)
    ensures forall p | 0 <= p < |b.vecStructure| ::
              && 1 <= r.vecStructure[p] <= r.capacityPerVec
              && ChunkSized(r, p)
              && ChunkList(r)[p] == ChunkList(b)[p]
  {
    forall p | 0 <= p < |b.vecStructure|
      ensures 1 <= r.vecStructure[p] <= r.capacityPerVec
      ensures ChunkSized(r, p)
      ensures ChunkList(r)[p] == ChunkList(b)[p]
    {
      ChunkFacts(b, p);
    }
  }

  /** The chunks from position `n` on are those of `other`. */
  lemma JoinedBack<V>(b: BigVec<V>, other: BigVec<V>, r: BigVec<V>)
    requires Wf(other) && other.startIndex == 0 && other.capacityPerVec == b.capacityPerVec
    requires r.startIndex == 0 && r.capacityPerVec == b.capacityPerVec
    requires r.vecStructure == b.vecStructure + other.vecStructure
    requires JoinedStore(b, other, r.vecData)
    ensures forall p | |b.vecStructure| <= p < |b.vecStructure| + |other.vecStructure| ::
              && 1 <= r.vecStructure[p] <= r.capacityPerVec
              && ChunkSized(r, p)
              && ChunkList(r)[p] == ChunkList(other)[p - |b.vecStructure|]
  {
    var n := |b.vecStructure|;
    forall p | n <= p < n + |other.vecStructure|
      ensures 1 <= r.vecStructure[p] <= r.capacityPerVec
      ensures ChunkSized(r, p)
      ensures ChunkList(r)[p] == ChunkList(other)[p - n]
    {
      ChunkFacts(other, p - n);
      assert r.vecData[n + (p - n)] == other.vecData[p - n];
    }
  }
}

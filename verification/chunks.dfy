/** Sequences of chunks: concatenation and sums of sizes, with the facts
    about them that index translation relies on. */
module Chunks {

  /** The sum of a sequence of sizes (`Iterator::sum` over the directory). */
  function Sum(s: seq<nat>): nat
  {
    if |s| == 0 then 0 else Sum(s[..|s| - 1]) + s[|s| - 1]
  }

  /** All chunks, concatenated in order. */
  function Flatten<V>(ss: seq<seq<V>>): seq<V>
  {
    if |ss| == 0 then [] else Flatten(ss[..|ss| - 1]) + ss[|ss| - 1]
  }

  /** Every size but the last equals `cap`. */
  predicate FullButLast(s: seq<nat>, cap: nat)
  {
    forall i | 0 <= i < |s| - 1 :: s[i] == cap
  }

  /** Sizes that are all full, followed by sizes full but for the last, are
      full but for the last. */
  lemma FullButLastConcat(a: seq<nat>, b: seq<nat>, cap: nat)
    requires forall i | 0 <= i < |a| :: a[i] == cap
    requires FullButLast(b, cap)
    ensures FullButLast(a + b, cap)
  {
    forall i | 0 <= i < |a + b| - 1
      ensures (a + b)[i] == cap
    {
      if i >= |a| {
        assert (a + b)[i] == b[i - |a|];
      }
    }
  }

  lemma {:induction false} SumAppend(a: seq<nat>, b: seq<nat>)
    ensures Sum(a + b) == Sum(a) + Sum(b)
    decreases |b|
  {
    if |b| == 0 {
      assert a + b == a;
    } else {
      assert (a + b)[..|a + b| - 1] == a + b[..|b| - 1];
      SumAppend(a, b[..|b| - 1]);
    }
  }

  lemma {:induction false} FlattenAppend<V>(a: seq<seq<V>>, b: seq<seq<V>>)
    ensures Flatten(a + b) == Flatten(a) + Flatten(b)
    decreases |b|
  {
    if |b| == 0 {
      assert a + b == a;
    } else {
      assert (a + b)[..|a + b| - 1] == a + b[..|b| - 1];
      assert (a + b)[|a + b| - 1] == b[|b| - 1];
      FlattenAppend(a, b[..|b| - 1]);
    }
  }

  /** Chunk `j` sits between the chunks before it and the chunks after it. */
  lemma FlattenSplit<V>(ss: seq<seq<V>>, j: nat)
    requires j < |ss|
    ensures Flatten(ss) == Flatten(ss[..j]) + ss[j] + Flatten(ss[j + 1..])
  {
    var pre := ss[..j + 1];
    assert ss == pre + ss[j + 1..];
    FlattenAppend(pre, ss[j + 1..]);
    assert pre[..|pre| - 1] == ss[..j];
    assert Flatten(pre) == Flatten(ss[..j]) + ss[j];
  }

  /** The chunks from `j` on are chunk `j` followed by the ones after it. */
  lemma FlattenFrom<V>(ss: seq<seq<V>>, j: nat)
    requires j < |ss|
    ensures Flatten(ss[j..]) == ss[j] + Flatten(ss[j + 1..])
  {
    FlattenSplit(ss[j..], 0);
    assert ss[j..][..0] == [];
    assert ss[j..][1..] == ss[j + 1..];
  }

  /** The chunks are the first chunk followed by the others. */
  lemma FlattenHead<V>(cs: seq<seq<V>>)
    requires |cs| > 0
    ensures Flatten(cs) == cs[0] + Flatten(cs[1..])
  {
    FlattenFrom(cs, 0);
    assert cs[0..] == cs;
  }

  /** Inserting `x` at offset `o` of the middle chunk `c` is inserting it at
      position `|pre| + o` of the whole. */
  lemma SpliceInChunk<V>(pre: seq<V>, c: seq<V>, post: seq<V>, o: nat, x: V)
    requires o <= |c|
    ensures var e := pre + c + post;
            e[..|pre| + o] + [x] + e[|pre| + o..] == pre + (c[..o] + [x] + c[o..]) + post
  {
    var e := pre + c + post;
    assert e[..|pre| + o] == pre + c[..o];
    assert e[|pre| + o..] == c[o..] + post;
  }

  /** Cutting an overfull chunk `c` (one past the capacity) at `cap` and
      carrying its last element over leaves the flat sequence unchanged. */
  lemma SplitOverflow<V>(ss: seq<seq<V>>, j: nat, c: seq<V>, cap: nat)
    requires j < |ss| && |c| == cap + 1
    ensures var ss' := ss[j := c[..cap]];
            Flatten(ss'[..j + 1]) + [c[cap]] + Flatten(ss'[j + 1..])
              == Flatten(ss[..j]) + c + Flatten(ss[j + 1..])
  {
    var ss' := ss[j := c[..cap]];
    assert ss'[..j + 1] == ss[..j] + [c[..cap]];
    FlattenAppend(ss[..j], [c[..cap]]);
    assert Flatten([c[..cap]]) == Flatten([c[..cap]][..0]) + c[..cap];
    assert ss'[j + 1..] == ss[j + 1..];
    assert c == c[..cap] + [c[cap]];
  }

  /** Chunks whose lengths are the sizes have, together, the sum of the sizes. */
  lemma {:induction false} FlattenLength<V>(ss: seq<seq<V>>, sizes: seq<nat>)
    requires |ss| == |sizes|
    requires forall i | 0 <= i < |ss| :: |ss[i]| == sizes[i]
    ensures |Flatten(ss)| == Sum(sizes)
    decreases |ss|
  {
    if |ss| > 0 {
      FlattenLength(ss[..|ss| - 1], sizes[..|sizes| - 1]);
    }
  }

  /** `k` sizes that are all `cap` sum to `k * cap`. */
  lemma {:induction false} SumOfFull(sizes: seq<nat>, cap: nat)
    requires forall i | 0 <= i < |sizes| :: sizes[i] == cap
    ensures Sum(sizes) == |sizes| * cap
    decreases |sizes|
  {
    if |sizes| > 0 {
      SumOfFull(sizes[..|sizes| - 1], cap);
    }
  }

  /** `k` chunks of length `cap` concatenate to `k * cap` elements. */
  lemma {:induction false} FlattenOfFull<V>(ss: seq<seq<V>>, cap: nat)
    requires forall i | 0 <= i < |ss| :: |ss[i]| == cap
    ensures |Flatten(ss)| == |ss| * cap
    decreases |ss|
  {
    if |ss| > 0 {
      FlattenOfFull(ss[..|ss| - 1], cap);
    }
  }

  /** Index translation: when every chunk before chunk `j` holds exactly `cap`
      elements, element `o` of chunk `j` is element `j * cap + o` overall. */
  lemma FlattenIndex<V>(ss: seq<seq<V>>, cap: nat, j: nat, o: nat)
    requires j < |ss| && o < |ss[j]|
    requires forall m | 0 <= m < j :: |ss[m]| == cap
    ensures |Flatten(ss[..j])| == j * cap
    ensures j * cap + o < |Flatten(ss)|
    ensures Flatten(ss)[j * cap + o] == ss[j][o]
  {
    FlattenOfFull(ss[..j], cap);
    FlattenSplit(ss, j);
  }

  /** Replacing one chunk by a chunk of the same length replaces the same
      stretch of the concatenation. */
  lemma FlattenUpdate<V>(ss: seq<seq<V>>, j: nat, c: seq<V>)
    requires j < |ss|
    ensures Flatten(ss[j := c]) == Flatten(ss[..j]) + c + Flatten(ss[j + 1..])
  {
    FlattenSplit(ss[j := c], j);
    assert ss[j := c][..j] == ss[..j];
    assert ss[j := c][j + 1..] == ss[j + 1..];
  }

  /** Updating position `o` of the middle part of `pre + c + post`. */
  lemma UpdateInMiddle<V>(pre: seq<V>, c: seq<V>, post: seq<V>, o: nat, v: V)
    requires o < |c|
    ensures (pre + c + post)[|pre| + o := v] == pre + c[o := v] + post
  {
  }

  lemma SumUpdate(s: seq<nat>, j: nat, v: nat)
    requires j < |s|
    ensures Sum(s[j := v]) + s[j] == Sum(s) + v
  {
    assert s == s[..j] + [s[j]] + s[j + 1..];
    assert s[j := v] == s[..j] + [v] + s[j + 1..];
    SumAppend(s[..j] + [s[j]], s[j + 1..]);
    SumAppend(s[..j], [s[j]]);
    SumAppend(s[..j] + [v], s[j + 1..]);
    SumAppend(s[..j], [v]);
    assert Sum([v]) == Sum([v][..0]) + v;
    assert Sum([s[j]]) == Sum([s[j]][..0]) + s[j];
  }

  // ---------------------------------------------------------------------
  // Arithmetic used by index translation

  lemma MulLess(a: int, b: int, c: int)
    requires c > 0 && a < b
    ensures a * c < b * c
  {
  }

  lemma MulMono(a: int, b: int, c: int)
    requires c >= 0 && a <= b
    ensures a * c <= b * c
  {
    if a < b && c > 0 { MulLess(a, b, c); }
  }

  lemma MulEq(a: int, b: int, c: int)
    requires a == b
    ensures a * c == b * c
  {
  }

  lemma MulSucc(a: int, c: int)
    ensures (a + 1) * c == a * c + c
  {
  }

  /** `(x / c, x % c)` on unsigned integers, for `c > 0`, by repeated
      subtraction: the quotient and remainder of `x == q * c + r` with
      `r < c`. */
  function DivMod(x: nat, c: nat): (r: (nat, nat))
    requires c > 0
    ensures x == r.0 * c + r.1 && r.1 < c
    decreases x
  {
    if x < c then (0, x)
    else
      var r' := DivMod(x - c, c);
      MulSucc(r'.0, c);
      (r'.0 + 1, r'.1)
  }

  /** Any `q`, `r` with `x == q * c + r` and `r < c` are the quotient and
      remainder. */
  lemma DivModUnique(x: nat, c: nat, q: nat, r: nat)
    requires c > 0 && x == q * c + r && r < c
    ensures DivMod(x, c) == (q, r)
  {
    var d := DivMod(x, c);
    QuotLess(x, c, q, r, d.0);
    QuotLess(x, c, d.0, d.1, q);
    MulEq(q, d.0, c);
  }

  /** `DivMod` is Euclidean division and remainder. */
  lemma DivModIsDivision(x: nat, c: nat)
    requires c > 0
    ensures DivMod(x, c) == (x / c, x % c)
  {
    DivModUnique(x, c, x / c, x % c);
  }

  /** Euclidean division undoes `q * c + r` when `r < c`. */
  lemma DivOfMulAdd(q: nat, c: nat, r: nat)
    requires r < c
    ensures (q * c + r) / c == q && (q * c + r) % c == r
  {
    DivModUnique(q * c + r, c, q, r);
    DivModIsDivision(q * c + r, c);
  }

  /** With `x == q * c + r` and `r < c`, `q` is below `k` exactly when
      `x` is below `k * c`. */
  lemma QuotLess(x: nat, c: nat, q: nat, r: nat, k: nat)
    requires c > 0 && x == q * c + r && r < c
    ensures q < k <==> x < k * c
  {
    if q < k {
      MulMono(q + 1, k, c);
      MulSucc(q, c);
    } else {
      MulMono(k, q, c);
    }
  }

  /** The bounds check of `insert` in arithmetic terms: with `n` chunks of
      capacity `cap`, the last holding `last`, and `index == q * cap + o`
      (`q` and `o` being `index / cap` and `index % cap`), the check fails
      exactly when `index` is neither below `len` nor equal to `n * cap`;
      an index up to `len` falls inside a chunk, at most at the end of the
      last one, or right after the last, full one. */
  lemma InsertArith(n: nat, cap: nat, last: nat, len: nat, index: nat, q: nat, o: nat)
    requires cap > 0 && index == q * cap + o && o < cap
    requires (n == 0 && len == 0) || (n > 0 && 1 <= last <= cap && len == (n - 1) * cap + last)
    ensures (q > n || (q == n && o > 0) || (n > 0 && q + 1 == n && o >= last))
            <==> !(index < len || index == n * cap)
    ensures index <= len ==>
              || (q < n && (q + 1 == n ==> o <= last))
              || (q == n && o == 0 && index == len && (n == 0 || last == cap))
  {
    if n > 0 {
      QuotLess(index, cap, q, o, n - 1);
    }
    QuotLess(index, cap, q, o, n);
    QuotLess(index, cap, q, o, n + 1);
    MulSucc(n - 1, cap);
    MulSucc(n, cap);
    if n == 0 {
      MulEq(n, 0, cap);
    }
    if q == n {
      MulEq(q, n, cap);
    } else if q + 1 == n {
      MulEq(q, n - 1, cap);
    }
    InsertCases(n, cap, last, len, index, q, o, q * cap, (n - 1) * cap, n * cap, (n + 1) * cap);
  }

  /** `InsertArith` with the products named: linear reasoning only. */
  lemma InsertCases(n: nat, cap: nat, last: nat, len: nat, index: nat, q: nat, o: nat,
                    pq: int, pPrev: int, pN: int, pNext: int)
    requires cap > 0 && o < cap && index == pq + o
    requires (n == 0 && len == 0) || (n > 0 && 1 <= last <= cap && len == pPrev + last)
    requires n > 0 ==> (q < n - 1 <==> index < pPrev)
    requires (q < n <==> index < pN) && (q < n + 1 <==> index < pNext)
    requires pN == pPrev + cap && pNext == pN + cap && (n == 0 ==> pN == 0)
    requires q == n ==> pq == pN
    requires q + 1 == n ==> pq == pPrev
    ensures (q > n || (q == n && o > 0) || (n > 0 && q + 1 == n && o >= last))
            <==> !(index < len || index == pN)
    ensures index <= len ==>
              || (q < n && (q + 1 == n ==> o <= last))
              || (q == n && o == 0 && index == len && (n == 0 || last == cap))
  {
  }


}

/** Bytes and little-endian unsigned integers, as `struct` packs them with `<I` and `<Q`
    (analysis/read_application_output_trace.py:19-29), and sorting by a key. */
module LittleEndian {
  type Byte = x: int | 0 <= x < 256

  /** 256 to the power `width`. */
  function Limit(width: nat): (limit: nat)
    ensures limit >= 1
  {
    if width == 0 then 1 else 256 * Limit(width - 1)
  }

  /** The `width` bytes of `n`, least significant first. */
  function Pack(n: nat, width: nat): (bytes: seq<Byte>)
    ensures |bytes| == width
  {
    if width == 0 then [] else [n % 256] + Pack(n / 256, width - 1)
  }

  /** The number that the bytes stand for. */
  function Unpack(bytes: seq<Byte>): nat {
    if bytes == [] then 0 else bytes[0] + 256 * Unpack(bytes[1..])
  }

  lemma {:induction false} UnpackPack(n: nat, width: nat)
    requires n < Limit(width)
    ensures Unpack(Pack(n, width)) == n
  {
    if width > 0 {
      UnpackPack(n / 256, width - 1);
      assert Pack(n, width)[1..] == Pack(n / 256, width - 1);
    }
  }

  lemma LowByte(low: Byte, high: nat)
    ensures (low + 256 * high) % 256 == low && (low + 256 * high) / 256 == high
  {
  }

  lemma {:induction false} PackUnpack(bytes: seq<Byte>)
    ensures Unpack(bytes) < Limit(|bytes|) && Pack(Unpack(bytes), |bytes|) == bytes
    decreases |bytes|
  {
    if bytes != [] {
      PackUnpack(bytes[1..]);
      var low, high := bytes[0], Unpack(bytes[1..]);
      LowByte(low, high);
      assert Pack(low + 256 * high, |bytes|) == [(low + 256 * high) % 256] + Pack((low + 256 * high) / 256,
        |bytes| - 1);
    }
  }

  /** The number in `width` bytes at `offset`. */
  function NumberAt(raw: seq<Byte>, offset: nat, width: nat): nat
    requires offset + width <= |raw|
  {
    Unpack(raw[offset..offset + width])
  }

  /** `bytes` stand in `raw` at `offset`. */
  predicate Stands(raw: seq<Byte>, offset: nat, bytes: seq<Byte>) {
    offset + |bytes| <= |raw| && raw[offset..offset + |bytes|] == bytes
  }

  lemma StandsConcat(raw: seq<Byte>, offset: nat, xs: seq<Byte>, ys: seq<Byte>)
    ensures Stands(raw, offset, xs + ys) <==> Stands(raw, offset, xs) && Stands(raw, offset + |xs|, ys)
  {
    if Stands(raw, offset, xs + ys) {
      assert raw[offset..offset + |xs|] == (xs + ys)[..|xs|];
      assert raw[offset + |xs|..offset + |xs| + |ys|] == (xs + ys)[|xs|..];
    }
  }

  /** A number stands at an offset exactly when it is what is read there. */
  lemma NumberStands(raw: seq<Byte>, offset: nat, n: nat, width: nat)
    requires n < Limit(width) && offset + width <= |raw|
    ensures Stands(raw, offset, Pack(n, width)) <==> NumberAt(raw, offset, width) == n
  {
    UnpackPack(n, width);
    PackUnpack(raw[offset..offset + width]);
  }

  lemma NumberBelow(raw: seq<Byte>, offset: nat, width: nat)
    requires offset + width <= |raw|
    ensures NumberAt(raw, offset, width) < Limit(width)
  {
    PackUnpack(raw[offset..offset + width]);
  }

  lemma WholeStands(raw: seq<Byte>)
    ensures Stands(raw, 0, raw)
  {
  }

  lemma PrefixStands(raw: seq<Byte>, bytes: seq<Byte>)
    requires bytes <= raw
    ensures Stands(raw, 0, bytes)
  {
  }

  lemma NothingStands(raw: seq<Byte>, offset: nat)
    requires offset <= |raw|
    ensures Stands(raw, offset, [])
  {
  }

  lemma StandsInside(raw: seq<Byte>, offset: nat, bytes: seq<Byte>)
    requires Stands(raw, offset, bytes)
    ensures offset + |bytes| <= |raw|
  {
  }

  lemma StandsAtEnd(raw: seq<Byte>, bytes: seq<Byte>)
    requires Stands(raw, 0, bytes) && |bytes| == |raw|
    ensures raw == bytes
  {
  }

  // ------------------------------------------------------------------
  // Sorting by a key
  // ------------------------------------------------------------------

  function InsertBy<R>(r: R, sorted: seq<R>, key: R -> nat): seq<R> {
    if sorted == [] || key(r) <= key(sorted[0]) then [r] + sorted else [sorted[0]] + InsertBy(r, sorted[1..], key)
  }

  /** `records.sort(key=...)`. */
  function SortBy<R>(rs: seq<R>, key: R -> nat): seq<R> {
    if rs == [] then [] else InsertBy(rs[0], SortBy(rs[1..], key), key)
  }

  ghost predicate SortedBy<R>(rs: seq<R>, key: R -> nat) {
    forall i, j :: 0 <= i < j < |rs| ==> key(rs[i]) <= key(rs[j])
  }

  lemma {:induction false} InsertKeeps<R>(r: R, sorted: seq<R>, key: R -> nat)
    ensures multiset(InsertBy(r, sorted, key)) == multiset(sorted) + multiset{r}
    decreases |sorted|
  {
    if sorted != [] && key(r) > key(sorted[0]) {
      InsertKeeps(r, sorted[1..], key);
      assert sorted == [sorted[0]] + sorted[1..];
    }
  }

  lemma {:induction false} InsertSorts<R>(r: R, sorted: seq<R>, key: R -> nat)
    requires SortedBy(sorted, key)
    ensures SortedBy(InsertBy(r, sorted, key), key) && InsertBy(r, sorted, key) != []
    ensures key(InsertBy(r, sorted, key)[0]) ==
      if sorted != [] && key(r) > key(sorted[0]) then key(sorted[0]) else key(r)
    decreases |sorted|
  {
    if sorted != [] && key(r) > key(sorted[0]) {
      InsertSorts(r, sorted[1..], key);
      var rest := InsertBy(r, sorted[1..], key);
      assert key(sorted[0]) <= key(rest[0]);
      forall j | 0 <= j < |rest|
        ensures key(sorted[0]) <= key(rest[j])
      {
        assert j > 0 ==> key(rest[0]) <= key(rest[j]);
      }
    }
  }

  /** The sorted list is ascending by key and holds the same records. */
  lemma {:induction false} SortBySorts<R>(rs: seq<R>, key: R -> nat)
    ensures SortedBy(SortBy(rs, key), key) && multiset(SortBy(rs, key)) == multiset(rs)
    decreases |rs|
  {
    if rs != [] {
      hide InsertBy, SortedBy;
      SortBySorts(rs[1..], key);
      InsertSorts(rs[0], SortBy(rs[1..], key), key);
      InsertKeeps(rs[0], SortBy(rs[1..], key), key);
      assert rs == [rs[0]] + rs[1..];
    }
  }

  // ------------------------------------------------------------------
  // Distinct keys
  // ------------------------------------------------------------------

  ghost predicate DistinctBy<R>(rs: seq<R>, key: R -> nat) {
    forall i, j :: 0 <= i < j < |rs| ==> key(rs[i]) != key(rs[j])
  }

  predicate FreshBy<R>(r: R, rs: seq<R>, key: R -> nat) { forall i :: 0 <= i < |rs| ==> key(rs[i]) != key(r) }

  function KeysBy<R(==)>(rs: seq<R>, key: R -> nat): set<nat> { set r | r in rs :: key(r) }

  lemma KeysGrow<R>(rs: seq<R>, r: R, key: R -> nat)
    ensures KeysBy(rs + [r], key) == KeysBy(rs, key) + {key(r)}
    ensures FreshBy(r, rs, key) <==> key(r) !in KeysBy(rs, key)
  {
  }

  /** Keys are distinct exactly when there are as many as records. */
  lemma {:induction false} DistinctCount<R>(rs: seq<R>, key: R -> nat)
    ensures |KeysBy(rs, key)| <= |rs|
    ensures DistinctBy(rs, key) <==> |KeysBy(rs, key)| == |rs|
    decreases |rs|
  {
    if rs != [] {
      var front, last := rs[..|rs| - 1], rs[|rs| - 1];
      assert rs == front + [last];
      DistinctCount(front, key);
      KeysGrow(front, last, key);
      DistinctGrows(front, last, key);
    }
  }

  lemma DistinctGrows<R>(rs: seq<R>, r: R, key: R -> nat)
    ensures DistinctBy(rs + [r], key) <==> DistinctBy(rs, key) && FreshBy(r, rs, key)
  {
    var more := rs + [r];
    assert more[|rs|] == r && forall i :: 0 <= i < |rs| ==> more[i] == rs[i];
  }

  /** Sorting keeps keys distinct. */
  lemma SortKeepsDistinct<R>(rs: seq<R>, key: R -> nat)
    ensures DistinctBy(SortBy(rs, key), key) <==> DistinctBy(rs, key)
  {
    var sorted := SortBy(rs, key);
    SortBySorts(rs, key);
    hide DistinctBy, SortBy;
    DistinctCount(rs, key);
    DistinctCount(sorted, key);
    assert |sorted| == |multiset(sorted)| == |rs|;
    assert forall r :: r in sorted <==> r in multiset(sorted);
    assert forall r :: r in rs <==> r in multiset(rs);
    assert KeysBy(sorted, key) == KeysBy(rs, key);
  }
}

/** The browser's ranking filters, which delete keys while they scan. */
module WaiBase {
  import opened Bytes
  import opened WindowCounts
  import opened WordRanking
  import opened WordBuckets

  /** iConstWordFilterOutStageOne */
  const FILTER_OUT_STAGE_ONE: int := 5

  /** The words that no longer word of the same count contains. */
  function Undominated(m: Counts): Counts {
    map w | w in m && !Dominated(m, w) :: m[w]
  }

  function Frequent(m: Counts, threshold: int): Counts {
    map w | w in m && m[w] >= threshold :: m[w]
  }

  /** `FilterOutLowFreq_`, for any order of the keys. */
  method FilterOutLowFreq(collect: Counts, keys: seq<Word>) returns (outCollect: Counts)
    requires IsEnumeration(keys, collect)
    ensures outCollect == Frequent(collect, FILTER_OUT_STAGE_ONE)
    ensures forall w :: w in outCollect <==> w in collect && collect[w] >= 5
    ensures forall w :: w in outCollect ==> outCollect[w] == collect[w]
  {
    outCollect := collect;
    var i := 0;
    while i < |keys|
      invariant 0 <= i <= |keys|
      invariant forall w :: w in outCollect ==> w in collect && outCollect[w] == collect[w]
      invariant forall k :: i <= k < |keys| ==> keys[k] in outCollect
      invariant forall k :: 0 <= k < i ==> (keys[k] in outCollect <==> collect[keys[k]] >= FILTER_OUT_STAGE_ONE)
    {
      var key := keys[i];
      if outCollect[key] < FILTER_OUT_STAGE_ONE {
        outCollect := map w | w in outCollect && w != key :: outCollect[w];
      }
      i := i + 1;
    }
    forall w | w in collect ensures w in outCollect <==> collect[w] >= FILTER_OUT_STAGE_ONE {
      assert w in keys;
    }
  }

  /** Nothing but dominated words is gone, and nothing after the first `i` keys. */
  ghost predicate Scanning(out: Counts, collect: Counts, keys: seq<Word>, i: nat) {
    && (forall w :: w in out ==> w in collect && out[w] == collect[w])
    && (forall w :: w in collect && w !in out ==> Dominated(collect, w))
    && (forall k :: 0 <= k < i && k < |keys| ==> (keys[k] in out <==> !Dominated(collect, keys[k])))
  }

  /** `outCollect[a] === outCollect[b]`, where a deleted key reads `undefined`. */
  predicate SameCount(m: Counts, a: Word, b: Word) {
    if a in m && b in m then m[a] == m[b] else a !in m && b !in m
  }

  function Without(m: Counts, key: Word): Counts {
    map w | w in m && w != key :: m[w]
  }

  /** The inner loop: deletes `key` if a key that is still there dominates it. */
  method ScanKey(out0: Counts, ghost collect: Counts, keys: seq<Word>, i: nat) returns (out: Counts)
    requires IsEnumeration(keys, collect) && i < |keys| && Scanning(out0, collect, keys, i)
    ensures Scanning(out, collect, keys, i + 1)
  {
    hide Dominates, Dominated, Inside, Scanning, SameCount, IsEnumeration;
    out := out0;
    var key := keys[i];
    var j := 0;
    while j < |keys|
      invariant 0 <= j <= |keys|
      invariant out == out0 || out == Without(out0, key)
      invariant key !in out ==> key !in out0 || Dominated(collect, key)
      invariant key in out ==>
        forall k :: 0 <= k < j && !Dominated(collect, keys[k]) ==> !Dominates(collect, keys[k], key)
    {
      var keyFound := keys[j];
      Comparing(out0, out, collect, keys, i, j);
      if keyFound != key && Inside(key, keyFound) {
        if SameCount(out, keyFound, key) {
          assert Without(out, key) == Without(out0, key);
          out := Without(out, key);
        }
      }
      j := j + 1;
    }
    ScanningNext(out0, out, collect, keys, i);
  }

  /** A key that is still there and contains `key` with the same count dominates it; a top dominator is always there. */
  lemma Comparing(out0: Counts, out: Counts, collect: Counts, keys: seq<Word>, i: nat, j: nat)
    requires IsEnumeration(keys, collect) && i < |keys| && j < |keys| && Scanning(out0, collect, keys, i)
    requires out == out0 || out == Without(out0, keys[i])
    ensures keys[i] in out && keys[j] != keys[i] && Inside(keys[i], keys[j]) && SameCount(out, keys[j], keys[i]) ==>
      Dominates(collect, keys[j], keys[i]) && Dominated(collect, keys[i])
    ensures keys[i] in out && !Dominated(collect, keys[j]) && Dominates(collect, keys[j], keys[i]) ==>
      keys[j] != keys[i] && Inside(keys[i], keys[j]) && SameCount(out, keys[j], keys[i])
  {
    hide Dominates, Dominated, Inside;
    DominatesMeans(collect, keys[j], keys[i]);
    assert keys[i] in keys && keys[j] in keys;
  }

  lemma ScanningNext(out0: Counts, out: Counts, collect: Counts, keys: seq<Word>, i: nat)
    requires IsEnumeration(keys, collect) && i < |keys| && Scanning(out0, collect, keys, i)
    requires out == out0 || out == Without(out0, keys[i])
    requires keys[i] !in out ==> keys[i] !in out0 || Dominated(collect, keys[i])
    requires keys[i] in out ==>
      forall k :: 0 <= k < |keys| && !Dominated(collect, keys[k]) ==> !Dominates(collect, keys[k], keys[i])
    ensures Scanning(out, collect, keys, i + 1)
  {
    hide Dominates, Dominated, Inside;
    assert keys[i] in keys;
    if Dominated(collect, keys[i]) {
      var top := TopDominator(collect, keys[i]);
      DominatesMeans(collect, top, keys[i]);
      var k :| 0 <= k < |keys| && keys[k] == top;
    }
  }

  lemma DominatesMeans(m: Counts, big: Word, w: Word)
    ensures Dominates(m, big, w) <==> big in m && w in m && big != w && m[big] == m[w] && Inside(w, big)
    ensures Dominates(m, big, w) ==> Dominated(m, w)
  {
  }

  /**
   * `FilterOutInside_`: although it deletes from the map it compares against, it
   * removes exactly the dominated words, in whatever order the keys come.
   */
  method FilterOutInside(collect: Counts, keys: seq<Word>) returns (outCollect: Counts)
    requires IsEnumeration(keys, collect)
    ensures outCollect == Undominated(collect)
    ensures forall w :: w in outCollect ==> w in collect && outCollect[w] == collect[w]
    ensures forall w: Word :: w in outCollect <==>
      && w in collect
      && !exists a: Word, c: Word :: a + c != [] && a + w + c in collect && collect[a + w + c] == collect[w]
  {
    hide Dominated;
    outCollect := collect;
    var i := 0;
    while i < |keys|
      invariant 0 <= i <= |keys|
      invariant Scanning(outCollect, collect, keys, i)
    {
      outCollect := ScanKey(outCollect, collect, keys, i);
      i := i + 1;
    }
    forall w | w in collect ensures w in outCollect <==> !Dominated(collect, w) {
      assert w in keys;
    }
    forall w: Word | w in collect
      ensures w in outCollect <==>
        !exists a: Word, c: Word :: a + c != [] && a + w + c in collect && collect[a + w + c] == collect[w]
    {
      DominatedIff(collect, w);
    }
  }

  /** Both filters together keep exactly the words that the ranking with that threshold reports. */
  lemma SameRanking(m: Counts, threshold: int, w: Word)
    ensures w in Undominated(Frequent(m, threshold)) <==> Ranked(m, w, threshold)
  {
    RareFirst(m, threshold, w);
  }
}

/**
 * The meaning of a flat argument list of alternating keys and values
 * (key, value, key, value, ...) as a string-to-string map: the pairs are
 * written into an initially empty map from left to right, so a key that
 * occurs more than once keeps the value of its last occurrence.
 *
 * Keys sit at the even positions 0, 2, 4, ... and the value for the key at
 * position i is the element at position i + 1.
 */
module KeyValuePairs {

  /** Every element at an even position has a partner at the next position. */
  predicate Paired(kv: seq<string>) {
    |kv| % 2 == 0
  }

  /**
   * The specification: the pairs of `kv` folded left to right into an empty
   * map, each pair written over whatever the earlier pairs left there.
   */
  function PairsMap(kv: seq<string>): map<string, string>
    requires Paired(kv)
    decreases |kv|
  {
    if |kv| == 0 then map[]
    else PairsMap(kv[..|kv| - 2])[kv[|kv| - 2] := kv[|kv| - 1]]
  }

  /** The elements at even positions, i.e. the keys of the argument list. */
  function EvenKeys(kv: seq<string>): set<string> {
    set i | 0 <= i < |kv| && i % 2 == 0 :: kv[i]
  }

  /** No key occurs at two different even positions. */
  predicate DistinctKeys(kv: seq<string>) {
    forall i, j :: 0 <= i < j < |kv| && i % 2 == 0 && j % 2 == 0 ==> kv[i] != kv[j]
  }

  /**
   * The largest even position holding `k`, or -1 when `k` is not a key of
   * the argument list.
   */
  function LastKeyIndex(kv: seq<string>, k: string): (j: int)
    requires Paired(kv)
    ensures j == -1 <==> k !in EvenKeys(kv)
    ensures j != -1 ==> 0 <= j && j + 1 < |kv| && j % 2 == 0 && kv[j] == k
    ensures j != -1 ==> forall l :: j < l < |kv| && l % 2 == 0 ==> kv[l] != k
    decreases |kv|
  {
    if |kv| == 0 then -1
    else if kv[|kv| - 2] == k then |kv| - 2
    else
      var p := kv[..|kv| - 2];
      EvenKeysSnoc(kv);
      LastKeyIndex(p, k)
  }

  /**
   * An independent description of the result: one entry for every key,
   * holding the value paired with that key's last occurrence.
   */
  function ReferenceMap(kv: seq<string>): map<string, string>
    requires Paired(kv)
  {
    map k | k in EvenKeys(kv) :: kv[LastKeyIndex(kv, k) + 1]
  }

  // ---------------------------------------------------------------------
  // Step lemmas: how each notion changes when one pair is appended.

  lemma EvenKeysSnoc(kv: seq<string>)
    requires Paired(kv) && |kv| >= 2
    ensures EvenKeys(kv) == EvenKeys(kv[..|kv| - 2]) + {kv[|kv| - 2]}
  {
  }

  lemma DistinctKeysSnoc(kv: seq<string>)
    requires Paired(kv) && |kv| >= 2
    ensures DistinctKeys(kv) <==>
              DistinctKeys(kv[..|kv| - 2]) && kv[|kv| - 2] !in EvenKeys(kv[..|kv| - 2])
  {
  }

  // ---------------------------------------------------------------------
  // Properties of the specification.

  /**
   * The keys of the result are exactly the elements at even positions, so
   * an element at an odd position (a value) is a key only when it also
   * occurs at an even position; and the result is empty exactly when the
   * argument list is.
   */
  lemma {:induction false} KeysAreEvenElements(kv: seq<string>)
    requires Paired(kv)
    ensures PairsMap(kv).Keys == EvenKeys(kv)
    ensures PairsMap(kv) == map[] <==> kv == []
  {
    if |kv| > 0 {
      KeysAreEvenElements(kv[..|kv| - 2]);
      EvenKeysSnoc(kv);
      assert kv[|kv| - 2] in PairsMap(kv);
    }
  }

  /**
   * There are at most |kv| / 2 distinct keys, and exactly |kv| / 2 when no
   * key repeats.
   */
  lemma {:induction false} EvenKeysCount(kv: seq<string>)
    requires Paired(kv)
    ensures |EvenKeys(kv)| <= |kv| / 2
    ensures |EvenKeys(kv)| == |kv| / 2 <==> DistinctKeys(kv)
  {
    if |kv| > 0 {
      var p := kv[..|kv| - 2];
      EvenKeysCount(p);
      EvenKeysSnoc(kv);
      DistinctKeysSnoc(kv);
    }
  }

  /**
   * The result has at most |kv| / 2 entries, and exactly |kv| / 2 entries
   * if and only if the keys at even positions are pairwise distinct.
   */
  lemma EntryCount(kv: seq<string>)
    requires Paired(kv)
    ensures |PairsMap(kv)| <= |kv| / 2
    ensures |PairsMap(kv)| == |kv| / 2 <==> DistinctKeys(kv)
  {
    KeysAreEvenElements(kv);
    EvenKeysCount(kv);
    assert |PairsMap(kv)| == |PairsMap(kv).Keys|;
  }

  /**
   * Last write wins: every key of the result maps to the value paired with
   * that key's last occurrence.
   */
  lemma {:induction false} LookupIsLastOccurrence(kv: seq<string>, k: string)
    requires Paired(kv)
    ensures k in PairsMap(kv) <==> LastKeyIndex(kv, k) != -1
    ensures k in PairsMap(kv) ==> PairsMap(kv)[k] == kv[LastKeyIndex(kv, k) + 1]
    decreases |kv|
  {
    if |kv| > 0 {
      var p := kv[..|kv| - 2];
      LookupIsLastOccurrence(p, k);
      if kv[|kv| - 2] != k {
        EvenKeysSnoc(kv);
        assert LastKeyIndex(kv, k) == LastKeyIndex(p, k);
        if LastKeyIndex(p, k) != -1 {
          assert kv[LastKeyIndex(p, k) + 1] == p[LastKeyIndex(p, k) + 1];
        }
      }
    }
  }

  /** The fold and the independent description agree on every input. */
  lemma {:induction false} MatchesReference(kv: seq<string>)
    requires Paired(kv)
    ensures PairsMap(kv) == ReferenceMap(kv)
  {
    KeysAreEvenElements(kv);
    forall k | k in PairsMap(kv) ensures PairsMap(kv)[k] == ReferenceMap(kv)[k] {
      LookupIsLastOccurrence(kv, k);
    }
  }

  /**
   * Last write wins, stated per position: the key at even position j maps
   * to the value at j + 1 when no later even position holds the same key.
   */
  lemma LastWriteWins(kv: seq<string>, j: nat)
    requires Paired(kv) && j < |kv| && j % 2 == 0
    requires forall l :: j < l < |kv| && l % 2 == 0 ==> kv[l] != kv[j]
    ensures kv[j] in PairsMap(kv) && PairsMap(kv)[kv[j]] == kv[j + 1]
  {
    var k := kv[j];
    assert k in EvenKeys(kv);
    var last := LastKeyIndex(kv, k);
    assert kv[last] == k;
    assert last == j;
    LookupIsLastOccurrence(kv, k);
  }

  /**
   * The partner read at every even position is inside the list exactly when
   * the list has even length; for an odd length the partner of the last
   * position, |kv| - 1, would be read at position |kv|.
   */
  lemma PartnerInBounds(kv: seq<string>)
    ensures (forall i :: 0 <= i < |kv| && i % 2 == 0 ==> i + 1 < |kv|) <==> Paired(kv)
    ensures !Paired(kv) ==>
              0 <= |kv| - 1 && (|kv| - 1) % 2 == 0 && !((|kv| - 1) + 1 < |kv|)
  {
    if !Paired(kv) {
      var last := |kv| - 1;
      assert 0 <= last < |kv| && last % 2 == 0 && !(last + 1 < |kv|);
    }
  }
}

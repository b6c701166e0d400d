/** First-seen-wins deduplication of a sequence of records by a key, the
    pattern both tree builders use: a record whose key was already seen is
    skipped, otherwise it is kept and its key remembered. */
module Dedup {

  /** The keys of all records in `xs`. */
  function KeySet<T, K>(xs: seq<T>, key: T -> K): set<K> {
    set i | 0 <= i < |xs| :: key(xs[i])
  }

  /** No two records of `xs` share a key. */
  predicate DistinctKeys<T, K(==)>(xs: seq<T>, key: T -> K) {
    forall i, j :: 0 <= i < j < |xs| ==> key(xs[i]) != key(xs[j])
  }

  /** The records of `xs`, in order, whose key is neither in `seen` nor the
      key of an earlier record: the loop `if k not in seen: seen[k] = ...;
      keep(record)`. */
  function FirstSeen<T, K(==)>(xs: seq<T>, key: T -> K, seen: set<K>): seq<T>
    decreases |xs|
  {
    if xs == [] then []
    else if key(xs[0]) in seen then FirstSeen(xs[1..], key, seen)
    else [xs[0]] + FirstSeen(xs[1..], key, seen + {key(xs[0])})
  }

  lemma KeySetCons<T, K>(x: T, xs: seq<T>, key: T -> K)
    ensures KeySet([x] + xs, key) == {key(x)} + KeySet(xs, key)
  {
    var s := [x] + xs;
    forall k | k in KeySet(s, key) ensures k in {key(x)} + KeySet(xs, key) {
      var i :| 0 <= i < |s| && key(s[i]) == k;
      if i > 0 { assert s[i] == xs[i - 1]; }
    }
    forall k | k in KeySet(xs, key) ensures k in KeySet(s, key) {
      var i :| 0 <= i < |xs| && key(xs[i]) == k;
      assert s[i + 1] == xs[i];
    }
    assert key(s[0]) == key(x);
  }

  lemma KeySetAppend<T, K>(xs: seq<T>, ys: seq<T>, key: T -> K)
    ensures KeySet(xs + ys, key) == KeySet(xs, key) + KeySet(ys, key)
  {
    var s := xs + ys;
    forall k | k in KeySet(s, key) ensures k in KeySet(xs, key) + KeySet(ys, key) {
      var i :| 0 <= i < |s| && key(s[i]) == k;
      if i >= |xs| { assert s[i] == ys[i - |xs|]; }
    }
    forall k | k in KeySet(ys, key) ensures k in KeySet(s, key) {
      var i :| 0 <= i < |ys| && key(ys[i]) == k;
      assert s[|xs| + i] == ys[i];
    }
    forall k | k in KeySet(xs, key) ensures k in KeySet(s, key) {
      var i :| 0 <= i < |xs| && key(xs[i]) == k;
      assert s[i] == xs[i];
    }
  }

  /** Deduplicating a concatenation: the second half sees the keys of the
      first as already seen. */
  lemma {:induction false} FirstSeenAppend<T, K>(xs: seq<T>, ys: seq<T>, key: T -> K, seen: set<K>)
    ensures FirstSeen(xs + ys, key, seen)
         == FirstSeen(xs, key, seen) + FirstSeen(ys, key, seen + KeySet(xs, key))
    decreases |xs|
  {
    if xs == [] {
      assert xs + ys == ys;
      assert KeySet(xs, key) == {};
      assert seen + KeySet(xs, key) == seen;
    } else {
      assert (xs + ys)[1..] == xs[1..] + ys;
      assert xs == [xs[0]] + xs[1..];
      KeySetCons(xs[0], xs[1..], key);
      var k := key(xs[0]);
      if k in seen {
        FirstSeenAppend(xs[1..], ys, key, seen);
        assert seen + KeySet(xs[1..], key) == seen + KeySet(xs, key);
      } else {
        FirstSeenAppend(xs[1..], ys, key, seen + {k});
        assert seen + {k} + KeySet(xs[1..], key) == seen + KeySet(xs, key);
      }
    }
  }

  /** One more record at the end is kept exactly when its key is new. */
  lemma FirstSeenSnoc<T, K>(xs: seq<T>, x: T, key: T -> K, seen: set<K>)
    ensures FirstSeen(xs + [x], key, seen)
         == FirstSeen(xs, key, seen) + (if key(x) in seen + KeySet(xs, key) then [] else [x])
  {
    FirstSeenAppend(xs, [x], key, seen);
    var s := seen + KeySet(xs, key);
    assert [x][1..] == [];
    if key(x) !in s {
      assert FirstSeen([x], key, s) == [x] + FirstSeen([], key, s + {key(x)});
    }
  }

  /** The kept records have pairwise distinct keys, none of them in `seen`. */
  lemma {:induction false} FirstSeenDistinct<T, K>(xs: seq<T>, key: T -> K, seen: set<K>)
    ensures DistinctKeys(FirstSeen(xs, key, seen), key)
    ensures forall i :: 0 <= i < |FirstSeen(xs, key, seen)| ==> key(FirstSeen(xs, key, seen)[i]) !in seen
    decreases |xs|
  {
    if xs != [] {
      var k := key(xs[0]);
      if k in seen {
        FirstSeenDistinct(xs[1..], key, seen);
      } else {
        var rest := FirstSeen(xs[1..], key, seen + {k});
        FirstSeenDistinct(xs[1..], key, seen + {k});
        var r := [xs[0]] + rest;
        assert forall i :: 1 <= i < |r| ==> r[i] == rest[i - 1];
      }
    }
  }

  /** The kept records carry every key of `xs` that was not already seen. */
  lemma {:induction false} FirstSeenKeys<T, K>(xs: seq<T>, key: T -> K, seen: set<K>)
    ensures KeySet(FirstSeen(xs, key, seen), key) == KeySet(xs, key) - seen
    decreases |xs|
  {
    if xs == [] {
      assert KeySet(xs, key) == {};
    } else {
      var k := key(xs[0]);
      assert xs == [xs[0]] + xs[1..];
      KeySetCons(xs[0], xs[1..], key);
      if k in seen {
        FirstSeenKeys(xs[1..], key, seen);
      } else {
        FirstSeenKeys(xs[1..], key, seen + {k});
        KeySetCons(xs[0], FirstSeen(xs[1..], key, seen + {k}), key);
      }
    }
  }

  /** Each kept record is the first record of `xs` with its key, and the
      kept records appear in the order of those first occurrences: `idx`
      gives their strictly increasing positions in `xs`. */
  lemma {:induction false} FirstSeenPositions<T, K>(xs: seq<T>, key: T -> K, seen: set<K>)
    returns (idx: seq<nat>)
    ensures |idx| == |FirstSeen(xs, key, seen)|
    ensures forall j :: 0 <= j < |idx| ==> idx[j] < |xs| && FirstSeen(xs, key, seen)[j] == xs[idx[j]]
    ensures forall j :: 0 <= j < |idx| ==>
      key(xs[idx[j]]) !in seen && forall i :: 0 <= i < idx[j] ==> key(xs[i]) != key(xs[idx[j]])
    ensures forall j1, j2 :: 0 <= j1 < j2 < |idx| ==> idx[j1] < idx[j2]
    decreases |xs|
  {
    if xs == [] {
      idx := [];
    } else {
      var k := key(xs[0]);
      var tail := xs[1..];
      if k in seen {
        var t := FirstSeenPositions(tail, key, seen);
        idx := seq(|t|, j requires 0 <= j < |t| => t[j] + 1);
        forall j | 0 <= j < |idx|
          ensures forall i :: 0 <= i < idx[j] ==> key(xs[i]) != key(xs[idx[j]])
        {
          forall i | 0 <= i < idx[j] ensures key(xs[i]) != key(xs[idx[j]]) {
            if i > 0 { assert xs[i] == tail[i - 1]; }
          }
        }
      } else {
        var t := FirstSeenPositions(tail, key, seen + {k});
        idx := [0] + seq(|t|, j requires 0 <= j < |t| => t[j] + 1);
        var r := FirstSeen(xs, key, seen);
        assert r == [xs[0]] + FirstSeen(tail, key, seen + {k});
        forall j | 1 <= j < |idx|
          ensures idx[j] < |xs| && r[j] == xs[idx[j]]
          ensures key(xs[idx[j]]) !in seen
          ensures forall i :: 0 <= i < idx[j] ==> key(xs[i]) != key(xs[idx[j]])
        {
          assert idx[j] == t[j - 1] + 1;
          assert xs[idx[j]] == tail[t[j - 1]];
          forall i | 0 <= i < idx[j] ensures key(xs[i]) != key(xs[idx[j]]) {
            if i > 0 { assert xs[i] == tail[i - 1]; }
          }
        }
      }
    }
  }

  /** Records with pairwise distinct keys have as many keys as records. */
  lemma {:induction false} DistinctKeyCount<T, K>(xs: seq<T>, key: T -> K)
    requires DistinctKeys(xs, key)
    ensures |KeySet(xs, key)| == |xs|
    decreases |xs|
  {
    if xs != [] {
      assert xs == [xs[0]] + xs[1..];
      KeySetCons(xs[0], xs[1..], key);
      DistinctKeyCount(xs[1..], key);
      assert key(xs[0]) !in KeySet(xs[1..], key);
    }
  }

  /** The number of kept records is the number of distinct new keys. */
  lemma FirstSeenCount<T, K>(xs: seq<T>, key: T -> K)
    ensures |FirstSeen(xs, key, {})| == |KeySet(xs, key)|
  {
    FirstSeenDistinct(xs, key, {});
    FirstSeenKeys(xs, key, {});
    DistinctKeyCount(FirstSeen(xs, key, {}), key);
  }

  /** Every kept record is a record of `xs`: whatever holds of all records
      holds of the kept ones. */
  lemma {:induction false} FirstSeenKeeps<T, K>(xs: seq<T>, key: T -> K, seen: set<K>, p: T -> bool)
    requires forall k :: 0 <= k < |xs| ==> p(xs[k])
    ensures forall k :: 0 <= k < |FirstSeen(xs, key, seen)| ==> p(FirstSeen(xs, key, seen)[k])
    decreases |xs|
  {
    if xs != [] {
      assert forall k :: 0 <= k < |xs[1..]| ==> xs[1..][k] == xs[k + 1];
      if key(xs[0]) in seen {
        FirstSeenKeeps(xs[1..], key, seen, p);
      } else {
        FirstSeenKeeps(xs[1..], key, seen + {key(xs[0])}, p);
        var rest := FirstSeen(xs[1..], key, seen + {key(xs[0])});
        assert forall k :: 1 <= k < |[xs[0]] + rest| ==> ([xs[0]] + rest)[k] == rest[k - 1];
      }
    }
  }
}

/** Byte order on text, and stable sorting by a text key. */
module Ordering {
  import opened Basics

  /** Lexicographic order of byte strings: `<` on `str` and `[u8]`. */
  predicate Less(a: string, b: string)
    decreases |a|
  {
    b != "" && (a == "" || a[0] < b[0] || (a[0] == b[0] && Less(a[1..], b[1..])))
  }

  lemma {:induction false} LessIrreflexive(a: string)
    ensures !Less(a, a)
  {
    if a != "" {
      LessIrreflexive(a[1..]);
    }
  }

  lemma {:induction false} LessTransitive(a: string, b: string, c: string)
    requires Less(a, b) && Less(b, c)
    ensures Less(a, c)
  {
    if a != "" && a[0] == b[0] == c[0] {
      LessTransitive(a[1..], b[1..], c[1..]);
    }
  }

  lemma {:induction false} LessTotal(a: string, b: string)
    ensures Less(a, b) || a == b || Less(b, a)
    decreases |a|
  {
    if a != "" && b != "" && a[0] == b[0] {
      LessTotal(a[1..], b[1..]);
      assert a == [a[0]] + a[1..] && b == [b[0]] + b[1..];
    }
  }

  /** The first place where two texts differ. */
  ghost predicate DiffersAt(a: string, b: string, k: nat) {
    k <= |a| && k <= |b| && a[..k] == b[..k] && (if k < |a| && k < |b| then a[k] < b[k] else k == |a| < |b|)
  }

  lemma FirstAgrees(a: string, b: string, k: nat)
    requires DiffersAt(a, b, k)
    ensures k > 0 ==> a != "" && b != "" && a[0] == b[0]
  {
    if k > 0 {
      assert a[..k][0] == b[..k][0];
    }
  }

  /** A text comes before another exactly when, at the first place they differ, it has the smaller
      byte or has ended. */
  lemma {:induction false} LessIff(a: string, b: string)
    ensures Less(a, b) <==> exists k :: DiffersAt(a, b, k)
    decreases |a|
  {
    if a != "" && b != "" && a[0] == b[0] {
      LessIff(a[1..], b[1..]);
      if k: nat :| DiffersAt(a[1..], b[1..], k) {
        assert a[..k + 1] == [a[0]] + a[1..][..k] && b[..k + 1] == [b[0]] + b[1..][..k];
        assert DiffersAt(a, b, k + 1);
      }
      if k: nat :| DiffersAt(a, b, k) {
        assert k > 0;
        assert a[1..][..k - 1] == a[..k][1..] && b[1..][..k - 1] == b[..k][1..];
        assert DiffersAt(a[1..], b[1..], k - 1);
      }
    } else {
      if Less(a, b) {
        assert DiffersAt(a, b, 0);
      }
      forall k: nat | DiffersAt(a, b, k)
        ensures k == 0
      {
        FirstAgrees(a, b, k);
      }
    }
  }

  /** Neighbours strictly increase: what the request validation checks with `previous`. */
  predicate StrictlySorted<T>(s: seq<T>, key: T -> string) {
    forall i :: 0 <= i < |s| - 1 ==> Less(key(s[i]), key(s[i + 1]))
  }

  predicate WeaklySorted<T>(s: seq<T>, key: T -> string) {
    forall i :: 0 <= i < |s| - 1 ==> !Less(key(s[i + 1]), key(s[i]))
  }

  function Insert<T>(x: T, s: seq<T>, key: T -> string): seq<T> {
    if s == [] || !Less(key(s[0]), key(x)) then [x] + s
    else [s[0]] + Insert(x, s[1..], key)
  }

  /** The stable sort by key, as `sort_by` computes it. */
  function Sort<T>(s: seq<T>, key: T -> string): seq<T> {
    if s == [] then [] else Insert(s[0], Sort(s[1..], key), key)
  }

  lemma {:induction false} InsertFacts<T>(x: T, s: seq<T>, key: T -> string)
    requires WeaklySorted(s, key)
    ensures multiset(Insert(x, s, key)) == multiset([x]) + multiset(s)
    ensures WeaklySorted(Insert(x, s, key), key)
    ensures Insert(x, s, key) != []
    ensures Insert(x, s, key)[0] == x || (s != [] && Insert(x, s, key)[0] == s[0])
  {
    var r := Insert(x, s, key);
    if s == [] || !Less(key(s[0]), key(x)) {
      assert r == [x] + s;
    } else {
      var tail := s[1..];
      assert s == [s[0]] + tail;
      assert WeaklySorted(tail, key) by {
        assert forall i :: 0 <= i < |tail| ==> tail[i] == s[i + 1];
      }
      InsertFacts(x, tail, key);
      var inner := Insert(x, tail, key);
      assert r == [s[0]] + inner;
      assert !Less(key(inner[0]), key(s[0])) by {
        if inner[0] == x {
          if Less(key(x), key(s[0])) {
            LessTransitive(key(s[0]), key(x), key(s[0]));
            LessIrreflexive(key(s[0]));
          }
        } else {
          assert tail[0] == s[1];
        }
      }
      forall i | 0 <= i < |r| - 1
        ensures !Less(key(r[i + 1]), key(r[i]))
      {
        if i > 0 {
          assert r[i] == inner[i - 1] && r[i + 1] == inner[i];
        }
      }
    }
  }

  lemma {:induction false} SortFacts<T>(s: seq<T>, key: T -> string)
    ensures multiset(Sort(s, key)) == multiset(s)
    ensures WeaklySorted(Sort(s, key), key)
  {
    if s != [] {
      SortFacts(s[1..], key);
      InsertFacts(s[0], Sort(s[1..], key), key);
      assert s == [s[0]] + s[1..];
    }
  }

  /** Any two different positions hold different keys. */
  predicate DistinctKeys<T>(s: seq<T>, key: T -> string) {
    forall i, j :: 0 <= i < j < |s| ==> key(s[i]) != key(s[j])
  }

  lemma {:induction false} StrictFirst<T>(s: seq<T>, key: T -> string, j: nat)
    requires StrictlySorted(s, key) && 0 < j < |s|
    ensures Less(key(s[0]), key(s[j]))
  {
    if j > 1 {
      StrictFirst(s, key, j - 1);
      LessTransitive(key(s[0]), key(s[j - 1]), key(s[j]));
    }
  }

  lemma StrictTail<T>(s: seq<T>, key: T -> string)
    requires StrictlySorted(s, key) && s != []
    ensures StrictlySorted(s[1..], key)
  {
    assert forall i :: 0 <= i < |s[1..]| ==> s[1..][i] == s[i + 1];
  }

  lemma SameHead<T>(a: seq<T>, b: seq<T>, key: T -> string)
    requires StrictlySorted(a, key) && StrictlySorted(b, key)
    requires multiset(a) == multiset(b) && a != [] && b != []
    ensures a[0] == b[0]
  {
    assert a[0] in multiset(b) && b[0] in multiset(a);
    var i :| 0 <= i < |b| && b[i] == a[0];
    var j :| 0 <= j < |a| && a[j] == b[0];
    if i > 0 && j > 0 {
      StrictFirst(b, key, i);
      StrictFirst(a, key, j);
      LessTransitive(key(a[0]), key(b[0]), key(a[0]));
      LessIrreflexive(key(a[0]));
    }
  }

  lemma TailElements<T>(s: seq<T>)
    requires s != []
    ensures multiset(s[1..]) == multiset(s) - multiset{s[0]}
  {
    assert s == [s[0]] + s[1..];
  }

  lemma SameSize<T>(a: seq<T>, b: seq<T>)
    requires multiset(a) == multiset(b)
    ensures |a| == |b|
  {
    assert |a| == |multiset(a)| == |multiset(b)| == |b|;
  }

  /** A strictly sorted sequence is determined by its elements. */
  lemma {:induction false} SortedUnique<T>(a: seq<T>, b: seq<T>, key: T -> string)
    requires StrictlySorted(a, key) && StrictlySorted(b, key)
    requires multiset(a) == multiset(b)
    ensures a == b
    decreases |a|
  {
    SameSize(a, b);
    if a != [] {
      SameHead(a, b, key);
      StrictTail(a, key);
      StrictTail(b, key);
      TailElements(a);
      TailElements(b);
      SortedUnique(a[1..], b[1..], key);
      SameParts(a, b);
    }
  }

  lemma SameParts<T>(a: seq<T>, b: seq<T>)
    requires a != [] && b != [] && a[0] == b[0] && a[1..] == b[1..]
    ensures a == b
  {
    assert a == [a[0]] + a[1..] && b == [b[0]] + b[1..];
  }

  /** For two arrangements of the same elements, either both sort strictly, to the same
      sequence, or neither does. */
  lemma SortCanonical<T>(a: seq<T>, b: seq<T>, key: T -> string)
    requires multiset(a) == multiset(b)
    ensures StrictlySorted(Sort(a, key), key) <==> StrictlySorted(Sort(b, key), key)
    ensures StrictlySorted(Sort(a, key), key) ==> Sort(a, key) == Sort(b, key)
  {
    SortFacts(a, key);
    SortFacts(b, key);
    var x, y := Sort(a, key), Sort(b, key);
    if StrictlySorted(x, key) {
      StrictOfSame(x, y, key);
      SortedUnique(x, y, key);
    }
    if StrictlySorted(y, key) {
      StrictOfSame(y, x, key);
    }
  }

  /** Weak order and the elements of a strictly sorted sequence make a strict order. */
  lemma StrictOfSame<T>(x: seq<T>, y: seq<T>, key: T -> string)
    requires StrictlySorted(x, key) && WeaklySorted(y, key) && multiset(x) == multiset(y)
    ensures StrictlySorted(y, key)
  {
    StrictDistinct(x, key);
    DistinctOfSame(x, y, key);
    forall i | 0 <= i < |y| - 1
      ensures Less(key(y[i]), key(y[i + 1]))
    {
      LessTotal(key(y[i]), key(y[i + 1]));
    }
  }

  lemma {:induction false} StrictDistinct<T>(s: seq<T>, key: T -> string)
    requires StrictlySorted(s, key)
    ensures DistinctKeys(s, key)
  {
    if s != [] {
      StrictTail(s, key);
      StrictDistinct(s[1..], key);
      forall i, j | 0 <= i < j < |s|
        ensures key(s[i]) != key(s[j])
      {
        if i == 0 {
          StrictFirst(s, key, j);
          LessIrreflexive(key(s[0]));
        } else {
          assert s[i] == s[1..][i - 1] && s[j] == s[1..][j - 1];
        }
      }
    }
  }

  lemma DistinctOfSame<T>(x: seq<T>, y: seq<T>, key: T -> string)
    requires DistinctKeys(x, key) && multiset(x) == multiset(y)
    ensures DistinctKeys(y, key)
  {
    forall i, j | 0 <= i < j < |y|
      ensures key(y[i]) != key(y[j])
    {
      assert y[i] in multiset(x) && y[j] in multiset(x);
      var a :| 0 <= a < |x| && x[a] == y[i];
      if y[i] == y[j] {
        TwiceIn(y, i, j);
        OnceIn(x, key, a);
      } else {
        var b :| 0 <= b < |x| && x[b] == y[j];
      }
    }
  }

  lemma TwiceIn<T>(s: seq<T>, i: nat, j: nat)
    requires i < j < |s| && s[i] == s[j]
    ensures multiset(s)[s[i]] >= 2
  {
    assert s == s[..i] + [s[i]] + s[i + 1..j] + [s[j]] + s[j + 1..];
  }

  lemma OnceIn<T>(s: seq<T>, key: T -> string, a: nat)
    requires DistinctKeys(s, key) && a < |s|
    ensures multiset(s)[s[a]] == 1
  {
    assert s == s[..a] + [s[a]] + s[a + 1..];
    assert s[a] !in s[..a] && s[a] !in s[a + 1..];
  }

  /** The sorted form passes the strict-order check exactly when the keys are unique. */
  lemma SortStrictIff<T>(s: seq<T>, key: T -> string)
    ensures StrictlySorted(Sort(s, key), key) <==> DistinctKeys(s, key)
  {
    SortFacts(s, key);
    var x := Sort(s, key);
    if StrictlySorted(x, key) {
      StrictDistinct(x, key);
      DistinctOfSame(x, s, key);
    }
    if DistinctKeys(s, key) {
      DistinctOfSame(s, x, key);
      forall i | 0 <= i < |x| - 1
        ensures Less(key(x[i]), key(x[i + 1]))
      {
        LessTotal(key(x[i]), key(x[i + 1]));
      }
    }
  }

  // ---- Permutations ------------------------------------------------------------------------

  /** The same element taken out of two permutations. */
  lemma WithoutFirst<T>(a: seq<T>, b: seq<T>, k: nat)
    requires multiset(a) == multiset(b) && a != [] && k < |b| && b[k] == a[0]
    ensures multiset(a[1..]) == multiset(b[..k] + b[k + 1..])
  {
    assert a == [a[0]] + a[1..] && b == b[..k] + [b[k]] + b[k + 1..];
    assert multiset(a[1..]) == multiset(a) - multiset{a[0]};
    assert multiset(b[..k] + b[k + 1..]) == multiset(b) - multiset{a[0]};
  }
}

/**
 This module holds the entries of the cache (the MemoryItem records kept in the
 recency list) and the sequence operations the cache performs on that list:
 search by key, removal of one element, filtering by a removal criterion and the
 size total. Front of a sequence = least recently used, back = most recently used.
 */
module Entries {

  /** One cached record. `lastAccess` is a Unix time in seconds; `expired` is the
      raw int64 value of a time.Duration, i.e. a number of nanoseconds. */
  datatype Item<V> = Item(key: string, val: V, lastAccess: int, expired: int)

  /** MemoryItem.Size(): the size heuristic, a deterministic function of key and
      value whose definition is not part of this model. */
  type SizeOf<!V> = (string, V) -> nat

  function ItemSize<V>(sizeOf: SizeOf<V>, e: Item<V>): nat
  {
    sizeOf(e.key, e.val)
  }

  /** The expiry test every operation of the cache uses: seconds elapsed since the
      last access compared with the raw Duration value. */
  predicate Expired<V>(e: Item<V>, now: int)
  {
    now - e.lastAccess > e.expired
  }

  /** strings.HasPrefix */
  predicate HasPrefix(key: string, prefix: string)
  {
    prefix <= key
  }

  /** The three reasons an entry is taken out of the list by a scan. */
  datatype Criterion = KeyIs(key: string) | KeyHasPrefix(prefix: string) | ExpiredAt(now: int)

  predicate Matches<V>(crit: Criterion, e: Item<V>)
  {
    match crit
    case KeyIs(k) => e.key == k
    case KeyHasPrefix(p) => HasPrefix(e.key, p)
    case ExpiredAt(now) => Expired(e, now)
  }

  /** The entries that do not match, in their original order. */
  function RemoveMatching<V>(es: seq<Item<V>>, crit: Criterion): (r: seq<Item<V>>)
    ensures |r| <= |es|
  {
    if es == [] then []
    else if Matches(crit, es[0]) then RemoveMatching(es[1..], crit)
    else [es[0]] + RemoveMatching(es[1..], crit)
  }

  /** The entries that match, in their original order. */
  function Matching<V>(es: seq<Item<V>>, crit: Criterion): (r: seq<Item<V>>)
    ensures |r| <= |es|
  {
    if es == [] then []
    else if Matches(crit, es[0]) then [es[0]] + Matching(es[1..], crit)
    else Matching(es[1..], crit)
  }

  /** The sum of the item sizes: what curCacheSize must always equal. */
  function Sum<V>(sizeOf: SizeOf<V>, es: seq<Item<V>>): nat
  {
    if es == [] then 0 else ItemSize(sizeOf, es[0]) + Sum(sizeOf, es[1..])
  }

  predicate NoDupKeys<V>(es: seq<Item<V>>)
  {
    forall i, j :: 0 <= i < j < |es| ==> es[i].key != es[j].key
  }

  /** The position of the first entry with key `k`, or |es| when there is none. */
  function Find<V>(es: seq<Item<V>>, k: string): (i: nat)
    ensures i <= |es|
    ensures i < |es| ==> es[i].key == k
    ensures forall j :: 0 <= j < i ==> es[j].key != k
  {
    if es == [] then 0
    else if es[0].key == k then 0
    else 1 + Find(es[1..], k)
  }

  /** list.Remove of the element at position `i`. */
  function RemoveAt<V>(es: seq<Item<V>>, i: nat): (r: seq<Item<V>>)
    requires i < |es|
    ensures |r| == |es| - 1
  {
    es[..i] + es[i + 1..]
  }

  /** list.MoveToBack of the element at position `i`. */
  function MoveToBack<V>(es: seq<Item<V>>, i: nat): (r: seq<Item<V>>)
    requires i < |es|
    ensures |r| == |es|
  {
    RemoveAt(es, i) + [es[i]]
  }

  /** `a` is `b` with some elements left out, the rest kept in order. */
  ghost predicate IsSubseq<T>(a: seq<T>, b: seq<T>)
    decreases |b|
  {
    a == [] || (b != [] && ((a[0] == b[0] && IsSubseq(a[1..], b[1..])) || IsSubseq(a, b[1..])))
  }

  // ---------------------------------------------------------------------------
  // Filters

  lemma {:induction false} RemoveMatchingMembers<V>(es: seq<Item<V>>, crit: Criterion)
    ensures forall x :: x in RemoveMatching(es, crit) ==> x in es && !Matches(crit, x)
    ensures forall x :: x in es && !Matches(crit, x) ==> x in RemoveMatching(es, crit)
  {
    if es != [] {
      RemoveMatchingMembers(es[1..], crit);
      assert es == [es[0]] + es[1..];
    }
  }

  lemma {:induction false} MatchingMembers<V>(es: seq<Item<V>>, crit: Criterion)
    ensures forall x :: x in Matching(es, crit) ==> x in es && Matches(crit, x)
    ensures forall x :: x in es && Matches(crit, x) ==> x in Matching(es, crit)
  {
    if es != [] {
      MatchingMembers(es[1..], crit);
      assert es == [es[0]] + es[1..];
    }
  }

  /** Filtering splits the size total between the kept and the removed entries. */
  lemma {:induction false} SumSplits<V>(sizeOf: SizeOf<V>, es: seq<Item<V>>, crit: Criterion)
    ensures Sum(sizeOf, RemoveMatching(es, crit)) + Sum(sizeOf, Matching(es, crit)) == Sum(sizeOf, es)
  {
    if es != [] {
      SumSplits(sizeOf, es[1..], crit);
      if Matches(crit, es[0]) {
        assert Matching(es, crit)[1..] == Matching(es[1..], crit);
      } else {
        assert RemoveMatching(es, crit)[1..] == RemoveMatching(es[1..], crit);
      }
    }
  }

  lemma {:induction false} RemoveMatchingNoDup<V>(es: seq<Item<V>>, crit: Criterion)
    requires NoDupKeys(es)
    ensures NoDupKeys(RemoveMatching(es, crit))
  {
    if es != [] {
      var rest := RemoveMatching(es[1..], crit);
      RemoveMatchingNoDup(es[1..], crit);
      if !Matches(crit, es[0]) {
        RemoveMatchingMembers(es[1..], crit);
        forall j | 0 <= j < |rest|
          ensures rest[j].key != es[0].key
        {
          var y := rest[j];
          assert y in rest;
          var m :| 0 <= m < |es[1..]| && es[1..][m] == y;
          assert es[m + 1] == rest[j];
        }
        var r := RemoveMatching(es, crit);
        assert r == [es[0]] + rest;
        forall i, j | 0 <= i < j < |r|
          ensures r[i].key != r[j].key
        {
          if i == 0 {
            assert r[j] == rest[j - 1];
          } else {
            assert r[i] == rest[i - 1] && r[j] == rest[j - 1];
          }
        }
      }
    }
  }

  /** When nothing matches, filtering changes nothing. */
  lemma {:induction false} RemoveNothing<V>(es: seq<Item<V>>, crit: Criterion)
    requires forall j :: 0 <= j < |es| ==> !Matches(crit, es[j])
    ensures RemoveMatching(es, crit) == es
  {
    if es != [] {
      RemoveNothing(es[1..], crit);
      assert es == [es[0]] + es[1..];
    }
  }

  /** In a list without duplicate keys, removing the element at one position is the
      same as removing every element with that element's key. */
  lemma {:induction false} RemoveAtIsRemoveKey<V>(es: seq<Item<V>>, i: nat)
    requires NoDupKeys(es)
    requires i < |es|
    ensures RemoveAt(es, i) == RemoveMatching(es, KeyIs(es[i].key))
  {
    var k := es[i].key;
    if i == 0 {
      assert RemoveAt(es, 0) == es[1..];
      forall j | 0 <= j < |es[1..]|
        ensures !Matches(KeyIs(k), es[1..][j])
      {
        assert es[1..][j] == es[j + 1];
      }
      RemoveNothing(es[1..], KeyIs(k));
    } else {
      var tail := es[1..];
      assert tail[i - 1] == es[i];
      assert NoDupKeys(tail) by {
        forall a, b | 0 <= a < b < |tail|
          ensures tail[a].key != tail[b].key
        {
          assert tail[a] == es[a + 1] && tail[b] == es[b + 1];
        }
      }
      RemoveAtIsRemoveKey(tail, i - 1);
      assert es[0].key != k;
      assert RemoveAt(es, i) == [es[0]] + RemoveAt(tail, i - 1);
    }
  }

  /** In a list without duplicate keys, exactly one entry has the key of position `i`. */
  lemma {:induction false} MatchingAt<V>(es: seq<Item<V>>, i: nat)
    requires NoDupKeys(es)
    requires i < |es|
    ensures Matching(es, KeyIs(es[i].key)) == [es[i]]
  {
    var k := es[i].key;
    var tail := es[1..];
    assert NoDupKeys(tail) by {
      forall a, b | 0 <= a < b < |tail|
        ensures tail[a].key != tail[b].key
      {
        assert tail[a] == es[a + 1] && tail[b] == es[b + 1];
      }
    }
    if i == 0 {
      forall j | 0 <= j < |tail|
        ensures !Matches(KeyIs(k), tail[j])
      {
        assert tail[j] == es[j + 1];
      }
      MatchingNothing(tail, KeyIs(k));
    } else {
      assert tail[i - 1] == es[i];
      MatchingAt(tail, i - 1);
    }
  }

  lemma {:induction false} MatchingNothing<V>(es: seq<Item<V>>, crit: Criterion)
    requires forall j :: 0 <= j < |es| ==> !Matches(crit, es[j])
    ensures Matching(es, crit) == []
  {
    if es != [] {
      MatchingNothing(es[1..], crit);
    }
  }

  lemma {:induction false} RemoveMatchingPlusMatchingLength<V>(es: seq<Item<V>>, crit: Criterion)
    ensures |RemoveMatching(es, crit)| + |Matching(es, crit)| == |es|
  {
    if es != [] {
      RemoveMatchingPlusMatchingLength(es[1..], crit);
    }
  }

  // ---------------------------------------------------------------------------
  // Size totals

  lemma {:induction false} SumAppend<V>(sizeOf: SizeOf<V>, a: seq<Item<V>>, b: seq<Item<V>>)
    ensures Sum(sizeOf, a + b) == Sum(sizeOf, a) + Sum(sizeOf, b)
  {
    if a != [] {
      SumAppend(sizeOf, a[1..], b);
      assert (a + b)[1..] == a[1..] + b;
    } else {
      assert a + b == b;
    }
  }

  lemma {:induction false} SumRemoveAt<V>(sizeOf: SizeOf<V>, es: seq<Item<V>>, i: nat)
    requires i < |es|
    ensures Sum(sizeOf, RemoveAt(es, i)) + ItemSize(sizeOf, es[i]) == Sum(sizeOf, es)
  {
    var front, back := es[..i], es[i + 1..];
    var mid := [es[i]] + back;
    assert es == front + mid;
    SumAppend(sizeOf, front, mid);
    assert Sum(sizeOf, mid) == ItemSize(sizeOf, es[i]) + Sum(sizeOf, back) by {
      assert mid[1..] == back;
    }
    SumAppend(sizeOf, front, back);
  }

  /** Replacing one item by another of the same size leaves the total alone. */
  lemma {:induction false} SumReplace<V>(sizeOf: SizeOf<V>, es: seq<Item<V>>, i: nat, x: Item<V>)
    requires i < |es|
    requires ItemSize(sizeOf, x) == ItemSize(sizeOf, es[i])
    ensures Sum(sizeOf, es[i := x]) == Sum(sizeOf, es)
  {
    assert es == es[..i] + ([es[i]] + es[i + 1..]);
    assert es[i := x] == es[..i] + ([x] + es[i + 1..]);
    SumAppend(sizeOf, es[..i], [es[i]] + es[i + 1..]);
    SumAppend(sizeOf, [es[i]], es[i + 1..]);
    SumAppend(sizeOf, es[..i], [x] + es[i + 1..]);
    SumAppend(sizeOf, [x], es[i + 1..]);
  }

  // ---------------------------------------------------------------------------
  // Subsequences

  lemma {:induction false} SubseqMembers<T>(a: seq<T>, b: seq<T>)
    requires IsSubseq(a, b)
    ensures forall x :: x in a ==> x in b
    decreases |b|
  {
    if a != [] {
      if a[0] == b[0] && IsSubseq(a[1..], b[1..]) {
        SubseqMembers(a[1..], b[1..]);
        assert a == [a[0]] + a[1..];
      } else {
        SubseqMembers(a, b[1..]);
      }
    }
  }

  lemma {:induction false} SubseqTrans<T>(a: seq<T>, b: seq<T>, c: seq<T>)
    requires IsSubseq(a, b) && IsSubseq(b, c)
    ensures IsSubseq(a, c)
    decreases |c|
  {
    if a != [] {
      if IsSubseq(b, c[1..]) {
        SubseqTrans(a, b, c[1..]);
      } else {
        assert b[0] == c[0] && IsSubseq(b[1..], c[1..]);
        if a[0] == b[0] && IsSubseq(a[1..], b[1..]) {
          SubseqTrans(a[1..], b[1..], c[1..]);
        } else {
          SubseqTrans(a, b[1..], c[1..]);
        }
      }
    }
  }

  lemma {:induction false} SubseqRefl<T>(a: seq<T>)
    ensures IsSubseq(a, a)
  {
    if a != [] {
      SubseqRefl(a[1..]);
    }
  }

  lemma {:induction false} RemoveMatchingIsSubseq<V>(es: seq<Item<V>>, crit: Criterion)
    ensures IsSubseq(RemoveMatching(es, crit), es)
  {
    if es != [] {
      RemoveMatchingIsSubseq(es[1..], crit);
      var r := RemoveMatching(es, crit);
      if !Matches(crit, es[0]) {
        assert r[0] == es[0] && r[1..] == RemoveMatching(es[1..], crit);
      }
    }
  }

  /** The filter is the ONLY order-preserving selection of exactly the entries that
      do not match: any subsequence with those members is the filter itself. */
  lemma {:induction false} SubseqWithSameMembersIsFilter<V>(a: seq<Item<V>>, es: seq<Item<V>>, crit: Criterion)
    requires NoDupKeys(es)
    requires IsSubseq(a, es)
    requires forall x :: x in a <==> x in es && !Matches(crit, x)
    ensures a == RemoveMatching(es, crit)
  {
    if es == [] {
      assert a == [];
    } else {
      var x, rest := es[0], es[1..];
      assert NoDupKeys(rest) by {
        forall i, j | 0 <= i < j < |rest|
          ensures rest[i].key != rest[j].key
        {
          assert rest[i] == es[i + 1] && rest[j] == es[j + 1];
        }
      }
      assert x !in rest by {
        forall j | 0 <= j < |rest|
          ensures rest[j] != x
        {
          assert rest[j] == es[j + 1];
        }
      }
      assert es == [x] + rest;
      if Matches(crit, x) {
        assert x !in a;
        assert a == [] || IsSubseq(a, rest);
        SubseqWithSameMembersIsFilter(a, rest, crit);
      } else {
        assert x in a;
        if !(a[0] == x && IsSubseq(a[1..], rest)) {
          assert IsSubseq(a, rest);
          SubseqMembers(a, rest);
          assert false;
        }
        SubseqMembers(a[1..], rest);
        assert a == [a[0]] + a[1..];
        forall y
          ensures y in a[1..] <==> y in rest && !Matches(crit, y)
        {
          if y in rest && !Matches(crit, y) {
            assert y in a && y != a[0];
          }
        }
        SubseqWithSameMembersIsFilter(a[1..], rest, crit);
      }
    }
  }
}

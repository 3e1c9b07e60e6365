/**
 * JavaScript objects used as string-keyed dictionaries, modelled as
 * association lists so that insertion order (which `Object.entries` and
 * `Object.values` expose) is kept. Assigning to an existing key updates it
 * in place; assigning to a new key appends it.
 */
module AssocList {
  import opened Common

  type AList<V> = seq<(string, V)>

  function Keys<V>(a: AList<V>): (ks: seq<string>)
    ensures |ks| == |a|
    ensures forall i :: 0 <= i < |a| ==> ks[i] == a[i].0
  {
    if a == [] then [] else [a[0].0] + Keys(a[1..])
  }

  function Values<V>(a: AList<V>): (vs: seq<V>)
    ensures |vs| == |a|
    ensures forall i :: 0 <= i < |a| ==> vs[i] == a[i].1
  {
    if a == [] then [] else [a[0].1] + Values(a[1..])
  }

  predicate Distinct<T(==)>(s: seq<T>) {
    forall i, j :: 0 <= i < j < |s| ==> s[i] != s[j]
  }

  /** What every JS object satisfies: no key occurs twice. */
  predicate UniqueKeys<V>(a: AList<V>) {
    Distinct(Keys(a))
  }

  /** `object[key]`, `undefined` being `None`. */
  function Get<V>(a: AList<V>, k: string): (r: Option<V>)
    ensures r.None? <==> k !in Keys(a)
    ensures r.Some? ==> exists i :: 0 <= i < |a| && a[i] == (k, r.value)
  {
    if a == [] then None
    else if a[0].0 == k then Some(a[0].1)
    else Get(a[1..], k)
  }

  /** `object[key] || default`, for values that are never falsy. */
  function GetOr<V>(a: AList<V>, k: string, default: V): V {
    Get(a, k).GetOr(default)
  }

  /** `object[key] = v`. */
  function Put<V>(a: AList<V>, k: string, v: V): (r: AList<V>)
    ensures Keys(r) == if k in Keys(a) then Keys(a) else Keys(a) + [k]
  {
    if a == [] then [(k, v)]
    else if a[0].0 == k then [(k, v)] + a[1..]
    else [a[0]] + Put(a[1..], k, v)
  }

  lemma {:induction false} GetPut<V>(a: AList<V>, k: string, v: V, k': string)
    ensures Get(Put(a, k, v), k') == if k' == k then Some(v) else Get(a, k')
    decreases |a|
  {
    if a != [] && a[0].0 != k {
      var r := Put(a, k, v);
      assert r == [a[0]] + Put(a[1..], k, v);
      assert r[0] == a[0] && r[1..] == Put(a[1..], k, v);
      GetPut(a[1..], k, v, k');
    } else if a != [] {
      var r := Put(a, k, v);
      assert r[0] == (k, v) && r[1..] == a[1..];
    }
  }

  /**
   * The loop `for (const [k, v] of Object.entries(b)) a[k] = f(a[k], v)`
   * on a copy of `a`: `b`'s entries are folded into `a` in order.
   */
  function UpdateAll<V>(a: AList<V>, b: AList<V>, f: (Option<V>, V) -> V): AList<V>
    decreases |b|
  {
    if b == [] then a else UpdateAll(Put(a, b[0].0, f(Get(a, b[0].0), b[0].1)), b[1..], f)
  }

  /** `xss.reduce((a, b) => [...a, ...b], [])` */
  function Flatten<T>(xss: seq<seq<T>>): (r: seq<T>)
    ensures |r| == 0 <==> forall k :: 0 <= k < |xss| ==> xss[k] == []
  {
    if xss == [] then [] else xss[0] + Flatten(xss[1..])
  }

  lemma {:induction false} FlattenMember<T>(xss: seq<seq<T>>, x: T)
    ensures x in Flatten(xss) <==> exists k :: 0 <= k < |xss| && x in xss[k]
    decreases |xss|
  {
    if xss != [] {
      FlattenMember(xss[1..], x);
      if x in Flatten(xss[1..]) {
        var k :| 0 <= k < |xss[1..]| && x in xss[1..][k];
        assert x in xss[k + 1];
      }
      if exists k :: 0 <= k < |xss| && x in xss[k] {
        var k :| 0 <= k < |xss| && x in xss[k];
        if k > 0 {
          assert x in xss[1..][k - 1];
        }
      }
    }
  }

  lemma {:induction false} FlattenConcat<T>(xss: seq<seq<T>>, yss: seq<seq<T>>)
    ensures Flatten(xss + yss) == Flatten(xss) + Flatten(yss)
    decreases |xss|
  {
    if xss == [] {
      assert xss + yss == yss;
    } else {
      assert (xss + yss)[1..] == xss[1..] + yss;
      FlattenConcat(xss[1..], yss);
    }
  }

  /** `[...new Set([...acc, ...xs])]` for an `acc` without repeats. */
  function AppendNew<T(==,!new)>(acc: seq<T>, xs: seq<T>): (r: seq<T>)
    ensures |acc| <= |r| && r[..|acc|] == acc
    ensures forall x :: x in r <==> x in acc || x in xs
    decreases |xs|
  {
    if xs == [] then acc
    else if xs[0] in acc then AppendNew(acc, xs[1..])
    else AppendNew(acc + [xs[0]], xs[1..])
  }

  /** `[...new Set(xs)]`: the first occurrence of every element, in order. */
  function Dedup<T(==,!new)>(xs: seq<T>): seq<T> {
    AppendNew([], xs)
  }

  lemma AppendNewDistinct<T(!new)>(acc: seq<T>, xs: seq<T>)
    requires Distinct(acc)
    ensures Distinct(AppendNew(acc, xs))
    decreases |xs|
  {
    if xs != [] && xs[0] !in acc {
      AppendNewDistinct(acc + [xs[0]], xs[1..]);
    } else if xs != [] {
      AppendNewDistinct(acc, xs[1..]);
    }
  }

  /** A list that already has no repeats is left as it is by `AppendNew`. */
  lemma {:induction false} AppendNewOfDistinct<T(!new)>(acc: seq<T>, xs: seq<T>)
    requires Distinct(acc + xs)
    ensures AppendNew(acc, xs) == acc + xs
    decreases |xs|
  {
    if xs != [] {
      assert xs[0] == (acc + xs)[|acc|];
      assert xs[0] !in acc by {
        forall i | 0 <= i < |acc| ensures acc[i] != xs[0] {
          assert acc[i] == (acc + xs)[i];
        }
      }
      assert acc + [xs[0]] + xs[1..] == acc + xs;
      AppendNewOfDistinct(acc + [xs[0]], xs[1..]);
    }
  }

  lemma {:induction false} AppendNewConcat<T(!new)>(acc: seq<T>, xs: seq<T>, ys: seq<T>)
    ensures AppendNew(acc, xs + ys) == AppendNew(AppendNew(acc, xs), ys)
    decreases |xs|
  {
    if xs == [] {
      assert xs + ys == ys;
    } else {
      assert (xs + ys)[0] == xs[0];
      assert (xs + ys)[1..] == xs[1..] + ys;
      if xs[0] in acc {
        AppendNewConcat(acc, xs[1..], ys);
      } else {
        AppendNewConcat(acc + [xs[0]], xs[1..], ys);
      }
    }
  }

  /** The keys after `UpdateAll` are `a`'s keys followed by `b`'s new keys. */
  lemma {:induction false} KeysUpdateAll<V>(a: AList<V>, b: AList<V>, f: (Option<V>, V) -> V)
    ensures Keys(UpdateAll(a, b, f)) == AppendNew(Keys(a), Keys(b))
    decreases |b|
  {
    if b != [] {
      var a' := Put(a, b[0].0, f(Get(a, b[0].0), b[0].1));
      KeysUpdateAll(a', b[1..], f);
      assert Keys(b)[1..] == Keys(b[1..]);
    }
  }

  lemma UpdateAllUniqueKeys<V>(a: AList<V>, b: AList<V>, f: (Option<V>, V) -> V)
    requires UniqueKeys(a)
    ensures UniqueKeys(UpdateAll(a, b, f))
  {
    KeysUpdateAll(a, b, f);
    AppendNewDistinct(Keys(a), Keys(b));
  }

  /**
   * Looking a key up after `UpdateAll`: a key of `b` holds `f` of its old
   * value and `b`'s value, any other key is untouched.
   */
  lemma {:induction false} GetUpdateAll<V>(a: AList<V>, b: AList<V>, f: (Option<V>, V) -> V, k: string)
    requires UniqueKeys(b)
    ensures Get(UpdateAll(a, b, f), k) ==
      if k in Keys(b) then Some(f(Get(a, k), Get(b, k).value)) else Get(a, k)
    decreases |b|
  {
    if b != [] {
      var a' := Put(a, b[0].0, f(Get(a, b[0].0), b[0].1));
      assert Keys(b)[1..] == Keys(b[1..]);
      assert UniqueKeys(b[1..]);
      GetUpdateAll(a', b[1..], f, k);
      GetPut(a, b[0].0, f(Get(a, b[0].0), b[0].1), k);
      assert b[0].0 !in Keys(b[1..]) by {
        forall i | 0 <= i < |b[1..]| ensures Keys(b[1..])[i] != b[0].0 {
          assert Keys(b)[0] != Keys(b)[i + 1];
        }
      }
    }
  }

  /** Every value of a dictionary is found by looking its key up. */
  lemma GetOfEntry<V>(a: AList<V>, i: nat)
    requires UniqueKeys(a) && i < |a|
    ensures Get(a, a[i].0) == Some(a[i].1)
  {
    if i > 0 {
      assert Keys(a)[0] != Keys(a)[i];
      assert UniqueKeys(a[1..]) by {
        forall p, q | 0 <= p < q < |a[1..]| ensures Keys(a[1..])[p] != Keys(a[1..])[q] {
          assert Keys(a)[p + 1] != Keys(a)[q + 1];
        }
      }
      GetOfEntry(a[1..], i - 1);
    }
  }

  /** Assigning to a new key appends the entry. */
  lemma PutNew<V>(a: AList<V>, k: string, v: V)
    requires k !in Keys(a)
    ensures Put(a, k, v) == a + [(k, v)]
  {
    if a != [] {
      assert Keys(a)[0] == a[0].0;
      assert Keys(a[1..]) == Keys(a)[1..];
      PutNew(a[1..], k, v);
      assert a == [a[0]] + a[1..];
    }
  }

  /**
   * Folding entries with fresh keys into `a`, where `f` keeps an incoming
   * value that meets no old one, appends them unchanged.
   */
  lemma {:induction false} UpdateAllFresh<V>(a: AList<V>, b: AList<V>, f: (Option<V>, V) -> V)
    requires UniqueKeys(a + b)
    requires forall i :: 0 <= i < |b| ==> f(None, b[i].1) == b[i].1
    ensures UpdateAll(a, b, f) == a + b
    decreases |b|
  {
    if b != [] {
      var a1, rest := a + [b[0]], b[1..];
      UpdateAllFreshStep(a, b, f);
      assert a1 + rest == a + b;
      UpdateAllFresh(a1, rest, f);
    }
  }

  /** One step of `UpdateAllFresh`: the first fresh entry is appended, the rest still qualify. */
  lemma UpdateAllFreshStep<V>(a: AList<V>, b: AList<V>, f: (Option<V>, V) -> V)
    requires UniqueKeys(a + b) && b != []
    requires forall i :: 0 <= i < |b| ==> f(None, b[i].1) == b[i].1
    ensures UpdateAll(a, b, f) == UpdateAll(a + [b[0]], b[1..], f)
    ensures a + [b[0]] + b[1..] == a + b
    ensures forall i :: 0 <= i < |b[1..]| ==> f(None, b[1..][i].1) == b[1..][i].1
  {
    var k, v := b[0].0, b[0].1;
    FreshHead(a, b);
    assert f(Get(a, k), v) == v;
    PutNew(a, k, v);
    FreshTail(a, b, f);
  }

  /** Moving the head of `b` over to `a` changes neither the whole nor what the tail satisfies. */
  lemma FreshTail<V>(a: AList<V>, b: AList<V>, f: (Option<V>, V) -> V)
    requires b != []
    requires forall i :: 0 <= i < |b| ==> f(None, b[i].1) == b[i].1
    ensures a + [b[0]] + b[1..] == a + b
    ensures forall i :: 0 <= i < |b[1..]| ==> f(None, b[1..][i].1) == b[1..][i].1
  {
    assert [b[0]] + b[1..] == b;
    forall i | 0 <= i < |b[1..]| ensures f(None, b[1..][i].1) == b[1..][i].1 {
      assert b[1..][i] == b[i + 1];
    }
  }

  /** Folding one entry into a one-entry object with the same key combines the two values. */
  lemma UpdateAllSingle<V>(k: string, v0: V, v1: V, f: (Option<V>, V) -> V)
    ensures UpdateAll([(k, v0)], [(k, v1)], f) == [(k, f(Some(v0), v1))]
  {
    assert [(k, v1)][1..] == [];
    assert Put([(k, v0)], k, f(Some(v0), v1)) == [(k, f(Some(v0), v1))];
  }

  /** With keys unique across `a + b`, the first key of `b` is not one of `a`'s. */
  lemma FreshHead<V>(a: AList<V>, b: AList<V>)
    requires UniqueKeys(a + b) && b != []
    ensures b[0].0 !in Keys(a) && Get(a, b[0].0).None?
  {
    var ab := a + b;
    assert Keys(ab)[|a|] == b[0].0;
    forall i | 0 <= i < |a| ensures Keys(a)[i] != b[0].0 {
      assert Keys(ab)[i] == Keys(a)[i];
    }
  }

  /** Two dictionaries with the same key order that agree on every lookup are equal. */
  lemma Extensionality<V>(a: AList<V>, b: AList<V>)
    requires UniqueKeys(a) && Keys(a) == Keys(b)
    requires forall k :: Get(a, k) == Get(b, k)
    ensures a == b
  {
    forall i | 0 <= i < |a| ensures a[i] == b[i] {
      GetOfEntry(a, i);
      GetOfEntry(b, i);
      assert Keys(a)[i] == Keys(b)[i];
    }
  }

  /** Some entry holds every key that occurs. */
  lemma KeyIndex<V>(a: AList<V>, k: string) returns (i: nat)
    requires k in Keys(a)
    ensures i < |a| && a[i].0 == k
  {
    i :| 0 <= i < |Keys(a)| && Keys(a)[i] == k;
  }

  /**
   * Two dictionaries of lists with the same keys in the same order, the same
   * list lengths, and `R` between the elements at equal positions.
   */
  ghost predicate Aligned<V, W>(a: AList<seq<V>>, b: AList<seq<W>>, R: (V, W) -> bool) {
    && Keys(a) == Keys(b)
    && (forall k :: 0 <= k < |a| ==> |a[k].1| == |b[k].1|)
    && (forall k, i :: 0 <= k < |a| && 0 <= i < |a[k].1| ==> R(a[k].1[i], b[k].1[i]))
  }

  /** Aligned dictionaries agree on every lookup, position by position. */
  lemma AlignedLookup<V, W>(a: AList<seq<V>>, b: AList<seq<W>>, R: (V, W) -> bool, s: string)
    requires UniqueKeys(a) && Aligned(a, b, R)
    ensures |GetOr(b, s, [])| == |GetOr(a, s, [])|
    ensures forall i :: 0 <= i < |GetOr(a, s, [])| ==> R(GetOr(a, s, [])[i], GetOr(b, s, [])[i])
  {
    if s in Keys(a) {
      var k := KeyIndex(a, s);
      GetOfEntry(a, k);
      GetOfEntry(b, k);
    }
  }
}

/**
 * The two iterator adapters the poll aggregate is built from, as functions on
 * sequences: `filter_map` (keep, in order, the images of the elements that map
 * to `Some`) and `min_by` (the least element under a key; on a tie the one
 * that comes first wins).
 */
module Iter {
  import opened Wrappers

  /** `s.into_iter().filter_map(f).collect()` */
  function FilterMap<T, U>(s: seq<T>, f: T -> Option<U>): (r: seq<U>)
    ensures |r| <= |s|
  {
    if s == [] then []
    else
      match f(s[0])
      case Some(u) => [u] + FilterMap(s[1..], f)
      case None => FilterMap(s[1..], f)
  }

  lemma {:induction false} FilterMapAppend<T, U>(a: seq<T>, b: seq<T>, f: T -> Option<U>)
    ensures FilterMap(a + b, f) == FilterMap(a, f) + FilterMap(b, f)
  {
    if a == [] {
      assert a + b == b;
    } else {
      assert (a + b)[0] == a[0];
      assert (a + b)[1..] == a[1..] + b;
      FilterMapAppend(a[1..], b, f);
    }
  }

  /** The output is empty exactly when no element maps to `Some`. */
  lemma {:induction false} FilterMapEmptyIff<T, U>(s: seq<T>, f: T -> Option<U>)
    ensures FilterMap(s, f) == [] <==> forall i :: 0 <= i < |s| ==> f(s[i]).None?
  {
    if s != [] {
      FilterMapEmptyIff(s[1..], f);
      assert forall i :: 1 <= i < |s| ==> s[i] == s[1..][i - 1];
    }
  }

  /**
   * Every element that maps to `Some(u)` contributes `u` to the output, at the
   * position given by the number of contributing elements before it: the output
   * keeps the input order.
   */
  lemma FilterMapAt<T, U>(s: seq<T>, f: T -> Option<U>, i: nat)
    requires i < |s| && f(s[i]).Some?
    ensures |FilterMap(s[..i], f)| < |FilterMap(s, f)|
    ensures FilterMap(s, f)[|FilterMap(s[..i], f)|] == f(s[i]).value
  {
    assert s == s[..i] + ([s[i]] + s[i + 1..]);
    FilterMapAppend(s[..i], [s[i]] + s[i + 1..], f);
    assert ([s[i]] + s[i + 1..])[1..] == s[i + 1..];
  }

  /** Conversely, every output element comes from one input element, in order. */
  lemma FilterMapSource<T, U>(s: seq<T>, f: T -> Option<U>, k: nat)
    requires k < |FilterMap(s, f)|
    ensures exists i :: 0 <= i < |s| && |FilterMap(s[..i], f)| == k && f(s[i]) == Some(FilterMap(s, f)[k])
  {
    var i := FilterMapSourceIndex(s, f, k);
  }

  /** The input position behind output position `k`. */
  lemma {:induction false} FilterMapSourceIndex<T, U>(s: seq<T>, f: T -> Option<U>, k: nat) returns (i: nat)
    requires k < |FilterMap(s, f)|
    ensures i < |s| && |FilterMap(s[..i], f)| == k && f(s[i]) == Some(FilterMap(s, f)[k])
  {
    var t := s[1..];
    assert s == [s[0]] + t;
    assert [s[0]][1..] == [];
    FilterMapAppend([s[0]], t, f);
    var n := |FilterMap([s[0]], f)|;
    if f(s[0]).Some? && k == 0 {
      i := 0;
      assert s[..0] == [];
    } else {
      var j := FilterMapSourceIndex(t, f, k - n);
      i := j + 1;
      assert s[..i] == [s[0]] + t[..j];
      FilterMapAppend([s[0]], t[..j], f);
    }
  }

  /** Counting prefixes: a contributing element strictly raises the count. */
  lemma FilterMapPrefixCount<T, U>(s: seq<T>, f: T -> Option<U>, j: nat, i: nat)
    requires j <= i <= |s|
    ensures |FilterMap(s[..j], f)| <= |FilterMap(s[..i], f)|
    ensures j < i && f(s[j]).Some? ==> |FilterMap(s[..j], f)| < |FilterMap(s[..i], f)|
  {
    assert s[..i] == s[..j] + s[j..i];
    FilterMapAppend(s[..j], s[j..i], f);
    if j < i && f(s[j]).Some? {
      assert s[j..i] == [s[j]] + s[j + 1..i];
      FilterMapAppend([s[j]], s[j + 1..i], f);
    }
  }

  /** Two maps with the same support keep the same number of elements of any prefix. */
  lemma {:induction false} FilterMapSameSupport<T, U, V>(s: seq<T>, f: T -> Option<U>, g: T -> Option<V>)
    requires forall i :: 0 <= i < |s| ==> (f(s[i]).Some? <==> g(s[i]).Some?)
    ensures |FilterMap(s, f)| == |FilterMap(s, g)|
  {
    if s != [] {
      assert forall i :: 0 <= i < |s[1..]| ==> s[1..][i] == s[i + 1];
      FilterMapSameSupport(s[1..], f, g);
    }
  }

  /**
   * `s.into_iter().min_by(|a, b| key(a).cmp(&key(b)))`: a left fold whose
   * accumulator is replaced only by a strictly smaller element, so among equal
   * minima the first one is kept.
   */
  function MinBy<T>(s: seq<T>, key: T -> int): Option<T>
  {
    if s == [] then None else Some(MinByFold(s[0], s[1..], key))
  }

  function MinByFold<T>(acc: T, rest: seq<T>, key: T -> int): T
  {
    if rest == [] then acc
    else MinByFold(if key(rest[0]) < key(acc) then rest[0] else acc, rest[1..], key)
  }

  /** `i` is the position of the first element of least key in `s`. */
  ghost predicate IsFirstMin<T>(s: seq<T>, key: T -> int, i: int)
  {
    && 0 <= i < |s|
    && (forall j :: 0 <= j < |s| ==> key(s[i]) <= key(s[j]))
    && (forall j :: 0 <= j < i ==> key(s[i]) < key(s[j]))
  }

  /** At most one position is the first minimum. */
  lemma FirstMinUnique<T>(s: seq<T>, key: T -> int, i: int, j: int)
    requires IsFirstMin(s, key, i) && IsFirstMin(s, key, j)
    ensures i == j
  {
    assert key(s[i]) <= key(s[j]) && key(s[j]) <= key(s[i]);
  }

  /** `MinBy` is `None` exactly on the empty sequence, and otherwise the first minimum. */
  lemma MinByIsFirstMin<T>(s: seq<T>, key: T -> int)
    ensures MinBy(s, key).None? <==> s == []
    ensures s != [] ==> exists i :: IsFirstMin(s, key, i) && MinBy(s, key) == Some(s[i])
  {
    if s != [] {
      assert s[..1] == [s[0]];
      var m := MinByFoldFirstMin(s, key, 0, 1);
    }
  }

  /**
   * Folding the rest `s[n..]` onto the first minimum of the prefix `s[..n]`
   * lands on the first minimum of the whole of `s`.
   */
  lemma {:induction false} MinByFoldFirstMin<T>(s: seq<T>, key: T -> int, i: nat, n: nat) returns (m: nat)
    requires 0 < n <= |s| && IsFirstMin(s[..n], key, i)
    ensures IsFirstMin(s, key, m) && MinByFold(s[i], s[n..], key) == s[m]
    decreases |s| - n
  {
    assert forall j :: 0 <= j < n ==> s[..n][j] == s[j];
    if n == |s| {
      assert s[..n] == s;
      m := i;
    } else {
      assert s[n..][0] == s[n] && s[n..][1..] == s[n + 1..];
      assert forall j :: 0 <= j < n + 1 ==> s[..n + 1][j] == s[j];
      var i' := if key(s[n]) < key(s[i]) then n else i;
      assert IsFirstMin(s[..n + 1], key, i');
      m := MinByFoldFirstMin(s, key, i', n + 1);
    }
  }
}

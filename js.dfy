/** JavaScript values and the few built-in operations the widget relies on:
    strings as sequences of UTF-16 code units, `Array.prototype.filter`,
    `String.prototype.substr` and `String.prototype.split` with a one-unit
    separator. */
module Js {

  /** One UTF-16 code unit: JavaScript string indices and lengths count these. */
  newtype CodeUnit = x: int | 0 <= x < 0x1_0000

  type JsString = seq<CodeUnit>

  /** The code unit of '\n'. */
  const LineFeed: CodeUnit := 10

  datatype Option<T> = None | Some(value: T)

  /** Writes a Dafny string literal whose characters all lie in the Basic
      Multilingual Plane as JavaScript code units (used by the scenarios). */
  function Units(s: string): (r: JsString)
    requires forall i :: 0 <= i < |s| ==> s[i] as int < 0x1_0000
    ensures |r| == |s|
  {
    if s == [] then [] else [s[0] as int as CodeUnit] + Units(s[1..])
  }

  function Min(a: int, b: int): int { if a <= b then a else b }

  function Max(a: int, b: int): int { if a <= b then b else a }

  // ---------------------------------------------------------------------
  // Array.prototype.filter
  // ---------------------------------------------------------------------

  /** `xs.filter(p)`. */
  function Filter<T(!new)>(xs: seq<T>, p: T -> bool): (r: seq<T>)
    ensures |r| <= |xs|
    ensures forall i :: 0 <= i < |r| ==> p(r[i])
  {
    if xs == [] then []
    else
      var rest := Filter(xs[1..], p);
      if p(xs[0]) then [xs[0]] + rest else rest
  }

  /** Filtering keeps each element that satisfies `p` as often as it occurs,
      and drops every other one. */
  lemma {:induction false} FilterMultiset<T(!new)>(xs: seq<T>, p: T -> bool)
    ensures forall x :: multiset(Filter(xs, p))[x] == if p(x) then multiset(xs)[x] else 0
    decreases |xs|
  {
    if xs != [] {
      FilterMultiset(xs[1..], p);
      assert xs == [xs[0]] + xs[1..];
    }
  }

  /** An element is kept exactly when it occurs and satisfies `p`. */
  lemma FilterMembers<T(!new)>(xs: seq<T>, p: T -> bool)
    ensures forall x :: x in Filter(xs, p) <==> x in xs && p(x)
  {
    FilterMultiset(xs, p);
    forall x ensures x in Filter(xs, p) <==> x in xs && p(x) {
      assert x in Filter(xs, p) <==> multiset(Filter(xs, p))[x] > 0;
      assert x in xs <==> multiset(xs)[x] > 0;
    }
  }

  /** `a` can be obtained from `b` by deleting elements. */
  predicate IsSubsequence<T(==)>(a: seq<T>, b: seq<T>)
    decreases |b|
  {
    if b == [] then a == []
    else (a != [] && a[0] == b[0] && IsSubsequence(a[1..], b[1..])) || IsSubsequence(a, b[1..])
  }

  /** Filtering keeps the relative order of what it keeps. */
  lemma {:induction false} FilterIsSubsequence<T(!new)>(xs: seq<T>, p: T -> bool)
    ensures IsSubsequence(Filter(xs, p), xs)
    decreases |xs|
  {
    if xs != [] {
      FilterIsSubsequence(xs[1..], p);
    }
  }

  /** Filtering a concatenation filters each part. */
  lemma {:induction false} FilterAppend<T(!new)>(a: seq<T>, b: seq<T>, p: T -> bool)
    ensures Filter(a + b, p) == Filter(a, p) + Filter(b, p)
    decreases |a|
  {
    if a == [] {
      assert a + b == b;
    } else {
      assert (a + b)[0] == a[0];
      assert (a + b)[1..] == a[1..] + b;
      FilterAppend(a[1..], b, p);
    }
  }

  /** Keeping everything keeps the sequence. */
  lemma {:induction false} FilterTrue<T(!new)>(xs: seq<T>, p: T -> bool)
    requires forall x :: p(x)
    ensures Filter(xs, p) == xs
    decreases |xs|
  {
    if xs != [] {
      FilterTrue(xs[1..], p);
    }
  }

  /** `() => true`. */
  function Always<T>(): T -> bool
  {
    _ => true
  }

  function Negate<T>(p: T -> bool): T -> bool
  {
    x => !p(x)
  }

  /** A predicate and its negation split a sequence into two parts that
      together hold every element exactly once. */
  lemma {:induction false} FilterPartition<T(!new)>(xs: seq<T>, p: T -> bool)
    ensures multiset(Filter(xs, p)) + multiset(Filter(xs, Negate(p))) == multiset(xs)
    ensures |Filter(xs, p)| + |Filter(xs, Negate(p))| == |xs|
    decreases |xs|
  {
    if xs != [] {
      FilterPartition(xs[1..], p);
      assert xs == [xs[0]] + xs[1..];
    }
  }

  /** `y => y !== x`, the test the filter-chip buttons remove an entry with. */
  function Differs<T(==)>(x: T): T -> bool
  {
    y => y != x
  }

  /** `xs.filter(y => y !== x)`: every occurrence of `x` removed. */
  function RemoveAll<T(==,!new)>(xs: seq<T>, x: T): (r: seq<T>)
    ensures x !in r
    ensures multiset(r) == multiset(xs)[x := 0]
    ensures IsSubsequence(r, xs)
  {
    var r := Filter(xs, Differs(x));
    FilterIsSubsequence(xs, Differs(x));
    FilterMultiset(xs, Differs(x));
    assert x in r ==> multiset(r)[x] > 0;
    r
  }

  /** Removing something that is not there changes nothing. */
  lemma {:induction false} RemoveAbsent<T(!new)>(xs: seq<T>, x: T)
    requires x !in xs
    ensures RemoveAll(xs, x) == xs
    decreases |xs|
  {
    if xs != [] {
      RemoveAbsent(xs[1..], x);
    }
  }

  /** Removing after appending the removed value is removing alone. */
  lemma RemoveAppended<T(!new)>(xs: seq<T>, x: T)
    ensures RemoveAll(xs + [x], x) == RemoveAll(xs, x)
  {
    FilterAppend(xs, [x], Differs(x));
  }

  // ---------------------------------------------------------------------
  // String.prototype.substr (ECMAScript, Annex B)
  // ---------------------------------------------------------------------

  /** `s.substr(start, length)`; `None` stands for an omitted length. A
      negative start counts from the end (and stops at 0), a start past the
      end is the end, and the length is clamped to what is left. */
  function Substr(s: JsString, start: int, length: Option<int>): (r: JsString)
    ensures |r| <= |s|
    ensures 0 <= start && length.Some? && 0 <= length.value ==>
              r == s[Min(start, |s|)..Min(start + length.value, |s|)]
    ensures 0 <= start && length.None? ==> r == s[Min(start, |s|)..]
    ensures start < 0 && length.None? ==> r == s[Max(|s| + start, 0)..]
    ensures length.Some? && length.value <= 0 ==> r == []
    ensures start < 0 && length.Some? && 0 <= length.value ==>
              r == s[Max(|s| + start, 0)..Min(Max(|s| + start, 0) + length.value, |s|)]
  {
    var from := if start < 0 then Max(|s| + start, 0) else Min(start, |s|);
    var count := match length
      case None => |s|
      case Some(n) => Min(Max(n, 0), |s|);
    s[from..Min(from + count, |s|)]
  }

  // ---------------------------------------------------------------------
  // String.prototype.split with a one-unit separator, and its inverse
  // ---------------------------------------------------------------------

  /** `s.split(sep)`: the pieces between occurrences of `sep`. There is
      always at least one piece, and no piece contains `sep`. */
  function Split(s: JsString, sep: CodeUnit): (pieces: seq<JsString>)
    ensures |pieces| == multiset(s)[sep] + 1
    ensures forall i :: 0 <= i < |pieces| ==> sep !in pieces[i]
    decreases |s|
  {
    if s == [] then [[]]
    else
      var rest := Split(s[1..], sep);
      assert s == [s[0]] + s[1..];
      if s[0] == sep then [[]] + rest
      else [[s[0]] + rest[0]] + rest[1..]
  }

  /** `pieces.join(sep)` for a non-empty array of pieces. */
  function Join(pieces: seq<JsString>, sep: CodeUnit): JsString
    requires |pieces| >= 1
  {
    if |pieces| == 1 then pieces[0] else pieces[0] + [sep] + Join(pieces[1..], sep)
  }

  /** Prefixing the first piece prefixes the join. */
  lemma JoinConsFirst(x: CodeUnit, pieces: seq<JsString>, sep: CodeUnit)
    requires |pieces| >= 1
    ensures Join([[x] + pieces[0]] + pieces[1..], sep) == [x] + Join(pieces, sep)
  {
    var p := [[x] + pieces[0]] + pieces[1..];
    if |pieces| > 1 {
      assert p[1..] == pieces[1..];
    }
  }

  /** An empty first piece puts a separator at the front of the join. */
  lemma JoinConsEmpty(pieces: seq<JsString>, sep: CodeUnit)
    requires |pieces| >= 1
    ensures Join([[]] + pieces, sep) == [sep] + Join(pieces, sep)
  {
    assert ([[]] + pieces)[1..] == pieces;
  }

  /** The pieces of a string that starts with a non-separator. */
  lemma SplitCons(s: JsString, sep: CodeUnit)
    requires s != []
    ensures s[0] == sep ==> Split(s, sep) == [[]] + Split(s[1..], sep)
    ensures s[0] != sep ==>
      Split(s, sep) == [[s[0]] + Split(s[1..], sep)[0]] + Split(s[1..], sep)[1..]
  {
  }

  /** Joining the pieces of a split gives back the string. */
  lemma {:induction false} JoinSplit(s: JsString, sep: CodeUnit)
    ensures Join(Split(s, sep), sep) == s
    decreases |s|
  {
    if s != [] {
      var rest := Split(s[1..], sep);
      JoinSplit(s[1..], sep);
      SplitCons(s, sep);
      if s[0] == sep {
        JoinConsEmpty(rest, sep);
      } else {
        JoinConsFirst(s[0], rest, sep);
      }
      assert s == [s[0]] + s[1..];
    }
  }

  /** Splitting a join of separator-free pieces gives back the pieces. */
  lemma {:induction false} SplitJoin(pieces: seq<JsString>, sep: CodeUnit)
    requires |pieces| >= 1
    requires forall i :: 0 <= i < |pieces| ==> sep !in pieces[i]
    ensures Split(Join(pieces, sep), sep) == pieces
    decreases |pieces|, |pieces[0]|
  {
    var head := pieces[0];
    if head == [] {
      if |pieces| > 1 {
        var tail := pieces[1..];
        SplitJoin(tail, sep);
        assert pieces == [[]] + tail;
        SplitJoinEmptyStep(tail, sep);
      }
    } else {
      var shorter := [head[1..]] + pieces[1..];
      assert sep !in head[1..] by { assert forall u :: u in head[1..] ==> u in head; }
      assert forall i :: 0 < i < |shorter| ==> shorter[i] == pieces[i];
      SplitJoin(shorter, sep);
      assert sep != head[0] by { assert head[0] in head; }
      SplitJoinConsStep(head, pieces[1..], sep);
      assert pieces == [head] + pieces[1..];
    }
  }

  /** The step of `SplitJoin` for an empty first piece. */
  lemma SplitJoinEmptyStep(tail: seq<JsString>, sep: CodeUnit)
    requires |tail| >= 1 && Split(Join(tail, sep), sep) == tail
    ensures Split(Join([[]] + tail, sep), sep) == [[]] + tail
  {
    JoinConsEmpty(tail, sep);
    var joined := [sep] + Join(tail, sep);
    assert joined[1..] == Join(tail, sep);
    SplitCons(joined, sep);
  }

  /** The step of `SplitJoin` for a first piece that starts with a
      non-separator. */
  lemma SplitJoinConsStep(head: JsString, rest: seq<JsString>, sep: CodeUnit)
    requires head != [] && head[0] != sep
    requires Split(Join([head[1..]] + rest, sep), sep) == [head[1..]] + rest
    ensures Split(Join([head] + rest, sep), sep) == [head] + rest
  {
    var shorter := [head[1..]] + rest;
    assert shorter[1..] == rest;
    assert [head[0]] + shorter[0] == head;
    JoinConsFirst(head[0], shorter, sep);
    var joined := [head[0]] + Join(shorter, sep);
    assert joined[1..] == Join(shorter, sep);
    SplitCons(joined, sep);
  }

  // ---------------------------------------------------------------------
  // Plain objects used as dictionaries
  // ---------------------------------------------------------------------

  /** A JavaScript object used as a dictionary with string keys: the keys in
      insertion order (the order `Object.entries` and `Object.values` visit
      them) and the value stored under each. */
  datatype Dict<V> = Dict(keys: seq<JsString>, entries: map<JsString, V>)

  /** `{}`. */
  function EmptyDict<V>(): (d: Dict<V>)
    ensures WellFormed(d) && d.keys == []
  {
    Dict([], map[])
  }

  /** Every key is listed once, and exactly the listed keys have a value. */
  predicate WellFormed<V>(d: Dict<V>)
  {
    && (forall i, j :: 0 <= i < j < |d.keys| ==> d.keys[i] != d.keys[j])
    && (forall k :: k in d.keys ==> k in d.entries)
    && (forall k :: k in d.entries ==> k in d.keys)
  }

  /** `d[k] = v`: a new key goes to the end of the key order, an existing key
      keeps its place and gets the new value. */
  function Put<V>(d: Dict<V>, k: JsString, v: V): (r: Dict<V>)
    ensures r.entries == d.entries[k := v]
    ensures k in d.entries ==> r.keys == d.keys
    ensures k !in d.entries ==> r.keys == d.keys + [k]
    ensures WellFormed(d) ==> WellFormed(r)
  {
    if k in d.entries then Dict(d.keys, d.entries[k := v])
    else Dict(d.keys + [k], d.entries[k := v])
  }

  /** `Object.values(d)`. */
  function Values<V>(d: Dict<V>): (vs: seq<V>)
    requires WellFormed(d)
    ensures |vs| == |d.keys|
    ensures forall i :: 0 <= i < |vs| ==> vs[i] == d.entries[d.keys[i]]
  {
    seq(|d.keys|, i requires 0 <= i < |d.keys| => d.entries[d.keys[i]])
  }

  /** The sum of `w` over the values stored under `keys`, added up from the
      first key to the last, as a `reduce` starting at 0 does. */
  function SumOver<V>(keys: seq<JsString>, entries: map<JsString, V>, w: V -> int): int
    requires forall k :: k in keys ==> k in entries
  {
    if keys == [] then 0
    else SumOver(keys[..|keys| - 1], entries, w) + w(entries[keys[|keys| - 1]])
  }

  /** Storing under a key outside `keys` leaves the sum over `keys` alone. */
  lemma {:induction false} SumOverOther<V>(keys: seq<JsString>, entries: map<JsString, V>,
                                          k: JsString, v: V, w: V -> int)
    requires forall j :: j in keys ==> j in entries
    requires k !in keys
    ensures SumOver(keys, entries[k := v], w) == SumOver(keys, entries, w)
    ensures SumOver(keys + [k], entries[k := v], w) == SumOver(keys, entries, w) + w(v)
    decreases |keys|
  {
    if keys != [] {
      SumOverOther(keys[..|keys| - 1], entries, k, v, w);
    }
    assert (keys + [k])[..|keys|] == keys;
  }

  /** Replacing the value under a key listed once in `keys` changes the sum by
      the difference of the two weights. */
  lemma {:induction false} SumOverUpdate<V>(keys: seq<JsString>, entries: map<JsString, V>,
                                           k: JsString, v: V, w: V -> int)
    requires forall j :: j in keys ==> j in entries
    requires forall i, j :: 0 <= i < j < |keys| ==> keys[i] != keys[j]
    requires k in keys
    ensures SumOver(keys, entries[k := v], w) == SumOver(keys, entries, w) - w(entries[k]) + w(v)
    decreases |keys|
  {
    var init := keys[..|keys| - 1];
    if keys[|keys| - 1] == k {
      assert k !in init;
      SumOverOther(init, entries, k, v, w);
    } else {
      assert k in init by {
        var i :| 0 <= i < |keys| && keys[i] == k;
        assert init[i] == k;
      }
      SumOverUpdate(init, entries, k, v, w);
    }
  }

  /** Two weights that agree on every listed entry give the same sum. */
  lemma {:induction false} SumOverSameWeights<V>(keys: seq<JsString>, entries: map<JsString, V>,
                                                w: V -> int, w': V -> int)
    requires forall j :: j in keys ==> j in entries
    requires forall k :: k in keys ==> w(entries[k]) == w'(entries[k])
    ensures SumOver(keys, entries, w) == SumOver(keys, entries, w')
    decreases |keys|
  {
    if keys != [] {
      var init := keys[..|keys| - 1];
      assert forall k :: k in init ==> k in keys;
      SumOverSameWeights(init, entries, w, w');
    }
  }

  /** A sum of non-negative weights is zero exactly when every weight is. */
  lemma {:induction false} SumOverZero<V>(keys: seq<JsString>, entries: map<JsString, V>, w: V -> int)
    requires forall j :: j in keys ==> j in entries
    requires forall k :: k in keys ==> w(entries[k]) >= 0
    ensures SumOver(keys, entries, w) >= 0
    ensures SumOver(keys, entries, w) == 0 <==> forall k :: k in keys ==> w(entries[k]) == 0
    decreases |keys|
  {
    if keys != [] {
      var init := keys[..|keys| - 1];
      assert forall k :: k in init ==> k in keys;
      assert keys == init + [keys[|keys| - 1]];
      SumOverZero(init, entries, w);
    }
  }
}

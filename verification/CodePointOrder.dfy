/**
 The key order and string checks of `src/base/serialization/canonical-json.ts`:
 object keys are ordered by code points, not by code units.
 */
module CodePointOrder {
  import opened Utf8

  // ---------------------------------------------------------------- the order

  /** Difference at the first differing code point, otherwise the difference in length. */
  function Difference(a: seq<CodePoint>, b: seq<CodePoint>): int
  {
    if a == [] || b == [] then |a| - |b|
    else if a[0] != b[0] then a[0] - b[0]
    else Difference(a[1..], b[1..])
  }

  predicate Before(a: JsString, b: JsString) { Difference(CodePoints(a), CodePoints(b)) < 0 }

  /** `compareUnicodeCodePoints` */
  method CompareUnicodeCodePoints(left: JsString, right: JsString) returns (order: int)
    ensures order == Difference(CodePoints(left), CodePoints(right))
    ensures (order < 0 <==> Before(left, right)) && (order > 0 <==> Before(right, left)) &&
            (order == 0 <==> left == right)
  {
    BeforeIsTotal(left, right);
    Antisymmetric(CodePoints(left), CodePoints(right));
    var a, b := CodePoints(left), CodePoints(right);
    var i := 0;
    while i < |a| && i < |b|
      invariant 0 <= i <= |a| && i <= |b|
      invariant Difference(a, b) == Difference(a[i..], b[i..])
    {
      assert a[i..][1..] == a[i + 1..] && b[i..][1..] == b[i + 1..];
      if a[i] != b[i] {
        var x: int, y: int := a[i], b[i];
        return x - y;
      }
      i := i + 1;
    }
    return |a| - |b|;
  }

  lemma {:induction false} Antisymmetric(a: seq<CodePoint>, b: seq<CodePoint>)
    ensures Difference(a, b) == -Difference(b, a)
    ensures Difference(a, b) == 0 ==> a == b
  {
    if a != [] && b != [] && a[0] == b[0] {
      Antisymmetric(a[1..], b[1..]);
      assert a == [a[0]] + a[1..] && b == [b[0]] + b[1..];
    }
  }

  lemma {:induction false} Transitive(a: seq<CodePoint>, b: seq<CodePoint>, c: seq<CodePoint>)
    requires Difference(a, b) < 0 && Difference(b, c) < 0
    ensures Difference(a, c) < 0
  {
    if a != [] && b != [] && c != [] && a[0] == b[0] == c[0] {
      Transitive(a[1..], b[1..], c[1..]);
    }
  }

  /** Code-point order is a strict total order, on ill-formed strings as well. */
  lemma BeforeIsTotal(a: JsString, b: JsString)
    ensures Before(a, b) || Before(b, a) || a == b
    ensures !(Before(a, b) && Before(b, a)) && !Before(a, a)
  {
    Antisymmetric(CodePoints(a), CodePoints(b));
    Antisymmetric(CodePoints(a), CodePoints(a));
    if CodePoints(a) == CodePoints(b) {
      FromCodePointsInverse(a);
      FromCodePointsInverse(b);
    }
  }

  lemma BeforeIsTransitive(a: JsString, b: JsString, c: JsString)
    requires Before(a, b) && Before(b, c)
    ensures Before(a, c)
  {
    Transitive(CodePoints(a), CodePoints(b), CodePoints(c));
  }

  /** `isWellFormedUnicodeString`, which scans code units in place. */
  method IsWellFormedUnicodeString(value: JsString) returns (ok: bool)
    ensures ok == WellFormed(value)
  {
    var index := 0;
    assert value[0..] == value;
    while index < |value|
      invariant 0 <= index <= |value|
      invariant WellFormed(value) == WellFormed(value[index..])
    {
      ghost var rest := value[index..];
      WellFormedStep(rest);
      if IsHigh(value[index]) {
        if index + 1 >= |value| || !IsLow(value[index + 1]) {
          return false;
        }
        assert rest[2..] == value[index + 2..];
        index := index + 2;
      } else if IsLow(value[index]) {
        return false;
      } else {
        assert rest[1..] == value[index + 1..];
        index := index + 1;
      }
    }
    return true;
  }

  lemma WellFormedStep(s: JsString)
    requires s != []
    ensures StartsWithPair(s) ==> (WellFormed(s) <==> WellFormed(s[2..]))
    ensures !StartsWithPair(s) ==> (WellFormed(s) <==> IsScalar(s[0]) && WellFormed(s[1..]))
  {
    var n := if StartsWithPair(s) then 2 else 1;
    var c, d := CodePoints(s), CodePoints(s[n..]);
    assert c == [c[0]] + d;
    assert forall i {:trigger d[i]} :: 0 <= i < |d| ==> c[i + 1] == d[i];
    if WellFormed(s) {
      assert forall i {:trigger d[i]} :: 0 <= i < |d| ==> IsScalar(c[i + 1]);
    }
  }

  lemma {:induction false} AsciiWellFormed(s: JsString)
    requires forall i :: 0 <= i < |s| ==> s[i] < 0x80
    ensures WellFormed(s)
  {
    if s == [] {
    } else {
      AsciiWellFormed(s[1..]);
      WellFormedStep(s);
    }
  }

  // ---------------------------------------------------------------- sorted entries

  datatype Entry<+T> = Entry(key: JsString, value: T)

  predicate DistinctKeys<T>(es: seq<Entry<T>>)
  {
    forall i, j :: 0 <= i < j < |es| ==> es[i].key != es[j].key
  }

  ghost predicate Ascending<T>(es: seq<Entry<T>>)
  {
    forall i, j :: 0 <= i < j < |es| ==> Before(es[i].key, es[j].key)
  }

  function Insert<T(!new)>(e: Entry<T>, es: seq<Entry<T>>): (r: seq<Entry<T>>)
    ensures multiset(r) == multiset([e] + es)
  {
    if es == [] || Before(e.key, es[0].key) then [e] + es
    else
      assert es == [es[0]] + es[1..];
      [es[0]] + Insert(e, es[1..])
  }

  /** `stringKeys.sort(compareUnicodeCodePoints)`, carrying each key's value along. */
  function Sort<T(!new)>(es: seq<Entry<T>>): (r: seq<Entry<T>>)
    ensures multiset(r) == multiset(es)
    ensures |r| == |es| && forall e :: e in r <==> e in es
  {
    if es == [] then []
    else
      assert es == [es[0]] + es[1..];
      var r := Insert(es[0], Sort(es[1..]));
      assert multiset(r) == multiset(es);
      assert forall e :: e in r <==> e in multiset(r);
      assert forall e :: e in es <==> e in multiset(es);
      assert |multiset(r)| == |r| && |multiset(es)| == |es|;
      r
  }

  lemma {:induction false} InsertAscending<T(!new)>(e: Entry<T>, es: seq<Entry<T>>)
    requires Ascending(es) && forall x :: x in es ==> x.key != e.key
    ensures Ascending(Insert(e, es))
    ensures forall x :: x in Insert(e, es) <==> x == e || x in es
  {
    if es == [] {
    } else if Before(e.key, es[0].key) {
      forall j | 0 < j < |es| ensures Before(e.key, es[j].key) {
        BeforeIsTransitive(e.key, es[0].key, es[j].key);
      }
    } else {
      var rest := Insert(e, es[1..]);
      InsertAscending(e, es[1..]);
      assert es == [es[0]] + es[1..];
      BeforeIsTotal(e.key, es[0].key);
      forall j | 0 <= j < |rest| ensures Before(es[0].key, rest[j].key) {
        assert rest[j] in rest;
        if rest[j] != e {
          var k :| 0 <= k < |es[1..]| && es[1..][k] == rest[j];
          assert es[k + 1] == rest[j];
        }
      }
    }
  }

  lemma {:induction false} SortAscending<T(!new)>(es: seq<Entry<T>>)
    requires DistinctKeys(es)
    ensures Ascending(Sort(es))
  {
    if es != [] {
      SortAscending(es[1..]);
      var tail := Sort(es[1..]);
      forall x | x in tail ensures x.key != es[0].key {
        assert x in es[1..];
        var k :| 0 <= k < |es[1..]| && es[1..][k] == x;
        assert es[k + 1] == x;
      }
      InsertAscending(es[0], tail);
    }
  }

  lemma AscendingDistinct<T>(es: seq<Entry<T>>)
    requires Ascending(es)
    ensures DistinctKeys(es)
  {
    forall i, j | 0 <= i < j < |es| ensures es[i].key != es[j].key {
      BeforeIsTotal(es[i].key, es[j].key);
    }
  }

  ghost function Keys<T>(es: seq<Entry<T>>): set<JsString> { set e | e in es :: e.key }

  lemma SomeKey<T>(a: seq<Entry<T>>)
    ensures a != [] ==> a[0].key in Keys(a)
    ensures a == [] <==> Keys(a) == {}
  {
    if a != [] { assert a[0].key in Keys(a); }
  }

  /** Ascending sequences over the same keys list them identically, whatever the values. */
  lemma {:induction false} AscendingUnique<T, U>(a: seq<Entry<T>>, b: seq<Entry<U>>)
    requires Ascending(a) && Ascending(b) && Keys(a) == Keys(b)
    ensures |a| == |b| && forall i :: 0 <= i < |a| ==> a[i].key == b[i].key
    decreases |a|
  {
    SomeKey(a);
    SomeKey(b);
    if a != [] {
      LeastFirst(a, b);
      LeastFirst(b, a);
      TailKeys(a);
      TailKeys(b);
      AscendingUnique(a[1..], b[1..]);
    }
  }

  lemma LeastFirst<T, U>(a: seq<Entry<T>>, b: seq<Entry<U>>)
    requires Ascending(a) && Ascending(b) && Keys(a) == Keys(b) && (a != [] || b != [])
    ensures a != [] && b != [] && a[0].key == b[0].key
  {
    SomeKey(a);
    SomeKey(b);
    var i :| 0 <= i < |a| && a[i].key == b[0].key;
    var j :| 0 <= j < |b| && b[j].key == a[0].key;
    BeforeIsTotal(a[0].key, b[0].key);
  }

  lemma TailKeys<T>(a: seq<Entry<T>>)
    requires Ascending(a) && a != []
    ensures Ascending(a[1..]) && Keys(a[1..]) == Keys(a) - {a[0].key}
  {
    AscendingDistinct(a);
    forall k ensures k in Keys(a[1..]) <==> k in Keys(a) - {a[0].key} {
      if k in Keys(a[1..]) {
        var i :| 0 <= i < |a[1..]| && a[1..][i].key == k;
        assert a[i + 1].key == k && a[i + 1] in a;
      }
      if k in Keys(a) - {a[0].key} {
        var i :| 0 <= i < |a| && a[i].key == k;
        assert a[1..][i - 1] == a[i];
      }
    }
  }

  /** The same entries with their keys in strictly ascending order. */
  ghost predicate SortedForm<T(!new)>(a: seq<Entry<T>>, f: seq<Entry<T>>)
  {
    multiset(a) == multiset(f) && Ascending(a)
  }

  lemma SortIsSortedForm<T(!new)>(f: seq<Entry<T>>)
    requires DistinctKeys(f)
    ensures SortedForm(Sort(f), f)
  {
    SortAscending(f);
  }

  lemma SortedFormKeeps<T(!new)>(a: seq<Entry<T>>, f: seq<Entry<T>>)
    requires SortedForm(a, f)
    ensures DistinctKeys(a) && Keys(a) == Keys(f) && (a == [] <==> f == [])
    ensures forall i :: 0 <= i < |a| ==> a[i] in f
    ensures forall i :: 0 <= i < |f| ==> f[i] in a
  {
    AscendingDistinct(a);
    forall i | 0 <= i < |a| ensures a[i] in f { assert a[i] in multiset(f); }
    forall i | 0 <= i < |f| ensures f[i] in a { assert f[i] in multiset(a); }
    assert forall k :: k in Keys(a) <==> k in Keys(f);
  }

  lemma SortedFormsAgree<T(!new)>(a: seq<Entry<T>>, f: seq<Entry<T>>, b: seq<Entry<T>>, g: seq<Entry<T>>)
    requires SortedForm(a, f) && SortedForm(b, g) && Keys(f) == Keys(g)
    ensures |a| == |b| && forall i :: 0 <= i < |a| ==> a[i].key == b[i].key
  {
    SortedFormKeeps(a, f);
    SortedFormKeeps(b, g);
    AscendingUnique(a, b);
  }

  lemma {:induction false} SortOfAscending<T(!new)>(es: seq<Entry<T>>)
    requires Ascending(es)
    ensures Sort(es) == es
  {
    if es != [] {
      SortOfAscending(es[1..]);
      assert es == [es[0]] + es[1..];
    }
  }
}

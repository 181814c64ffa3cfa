/** Small vocabulary shared by the models: options, results, duplicate-free lists and string order. */
module Basics {

  datatype Option<+T> = None | Some(value: T)

  datatype Result<+T, +E> = Ok(value: T) | Err(error: E)

  // ---------------------------------------------------------------- duplicate-free lists

  predicate NoDup<T(==)>(s: seq<T>) {
    forall i, j :: 0 <= i < j < |s| ==> s[i] != s[j]
  }

  lemma {:induction false} NoDupFits<T>(s: seq<T>, all: set<T>)
    requires NoDup(s) && forall x :: x in s ==> x in all
    ensures |s| <= |all|
    decreases |s|
  {
    if s != [] {
      var n := |s| - 1;
      NoDupFits(s[..n], all - {s[n]});
    }
  }

  lemma NoDupConcat<T>(a: seq<T>, b: seq<T>)
    requires NoDup(a) && NoDup(b) && forall x :: x in a ==> x !in b
    ensures NoDup(a + b)
  {
    forall i, j | 0 <= i < j < |a + b|
      ensures (a + b)[i] != (a + b)[j]
    {
      if i < |a| <= j {
        assert a[i] in a && b[j - |a|] in b;
      }
    }
  }

  /** Some member of a nonempty set, as a witness that there is one. */
  ghost function Member<T>(s: set<T>): (x: T)
    requires s != {}
    ensures x in s
  {
    var x :| x in s;
    x
  }

  // ---------------------------------------------------------------- string order

  /** Go's `<` on strings: the first differing byte decides, a proper prefix comes first. */
  predicate LexLess(a: string, b: string) {
    if b == "" then false
    else if a == "" then true
    else if a[0] != b[0] then a[0] < b[0]
    else LexLess(a[1..], b[1..])
  }

  /** At the first byte where they differ `a` has the smaller one, or `a` ends there and `b` goes on. */
  ghost predicate BytewiseLess(a: string, b: string) {
    || (exists i :: 0 <= i < |a| && i < |b| && a[..i] == b[..i] && a[i] < b[i])
    || (|a| < |b| && a == b[..|a|])
  }

  lemma {:induction false} LexReads(a: string, b: string)
    ensures LexLess(a, b) <==> BytewiseLess(a, b)
    decreases |a|
  {
    if a != "" && b != "" && a[0] == b[0] {
      LexReads(a[1..], b[1..]);
      assert a == [a[0]] + a[1..] && b == [b[0]] + b[1..];
      if i :| 0 <= i < |a| && i < |b| && a[..i] == b[..i] && a[i] < b[i] {
        assert a[1..][..i - 1] == a[..i][1..] && b[1..][..i - 1] == b[..i][1..];
      }
      if i :| 0 <= i < |a[1..]| && i < |b[1..]| && a[1..][..i] == b[1..][..i] && a[1..][i] < b[1..][i] {
        assert a[..i + 1] == [a[0]] + a[1..][..i] && b[..i + 1] == [b[0]] + b[1..][..i];
      }
      if |a| < |b| {
        assert b[..|a|] == [b[0]] + b[1..][..|a| - 1];
      }
    } else if a != "" && b != "" && a[0] < b[0] {
      assert a[..0] == b[..0];
    } else if a == "" {
      assert b[..0] == a;
    }
  }

  lemma {:induction false} LexIrreflexive(a: string)
    ensures !LexLess(a, a)
    decreases |a|
  {
    if a != "" {
      LexIrreflexive(a[1..]);
    }
  }

  lemma {:induction false} LexTransitive(a: string, b: string, c: string)
    requires LexLess(a, b) && LexLess(b, c)
    ensures LexLess(a, c)
    decreases |a|
  {
    if a != "" && a[0] == b[0] == c[0] {
      LexTransitive(a[1..], b[1..], c[1..]);
    }
  }

  lemma {:induction false} LexTotal(a: string, b: string)
    ensures LexLess(a, b) || a == b || LexLess(b, a)
    decreases |a|
  {
    if a != "" && b != "" && a[0] == b[0] {
      LexTotal(a[1..], b[1..]);
      assert a == [a[0]] + a[1..] && b == [b[0]] + b[1..];
    }
  }
}

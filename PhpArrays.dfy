/**
 PHP's `array_unique` on a list of strings: it walks the list from the front and keeps
 each value the first time it is met, dropping later repeats, so the survivors stay in
 the order of their first occurrence.
 */
module PhpArrays {

  /** No value occurs twice. */
  predicate NoDuplicates(s: seq<string>)
  {
    forall i, j :: 0 <= i < j < |s| ==> s[i] != s[j]
  }

  /** Index of the first occurrence of `x` in `s`. */
  function FirstIndex(s: seq<string>, x: string): (n: nat)
    requires x in s
    ensures n < |s| && s[n] == x
    ensures forall m :: 0 <= m < n ==> s[m] != x
  {
    if s[0] == x then 0 else 1 + FirstIndex(s[1..], x)
  }

  /**
   The value of `array_unique(s)`, built up one element at a time: an element is kept
   exactly when no copy of it was kept before.
   */
  function Unique(s: seq<string>): (r: seq<string>)
    ensures forall x :: x in r <==> x in s
    ensures NoDuplicates(r)
  {
    if s == [] then []
    else
      var kept := Unique(s[..|s| - 1]);
      if s[|s| - 1] in kept then kept else kept + [s[|s| - 1]]
  }

  /** A first occurrence in a prefix is a first occurrence in the whole sequence. */
  lemma FirstIndexOfPrefix(s: seq<string>, n: nat, x: string)
    requires n <= |s| && x in s[..n]
    ensures x in s && FirstIndex(s, x) == FirstIndex(s[..n], x)
  {
    var f := FirstIndex(s[..n], x);
    assert s[f] == x;
    FirstIndexIs(s, x, f);
  }

  /** The first occurrence is the one with no copy before it. */
  lemma FirstIndexIs(s: seq<string>, x: string, n: nat)
    requires n < |s| && s[n] == x
    requires forall m :: 0 <= m < n ==> s[m] != x
    ensures FirstIndex(s, x) == n
  {
  }

  /** The values of `r`, all found in `s`, appear in `r` in the order of their first occurrence in `s`. */
  predicate InFirstOccurrenceOrder(r: seq<string>, s: seq<string>)
  {
    && (forall x :: x in r ==> x in s)
    && forall i, j :: 0 <= i < j < |r| ==> FirstIndex(s, r[i]) < FirstIndex(s, r[j])
  }

  /** Ordering by first occurrence in a prefix is ordering by first occurrence in the whole. */
  lemma OrderInPrefix(s: seq<string>, r: seq<string>)
    requires s != [] && InFirstOccurrenceOrder(r, s[..|s| - 1])
    ensures InFirstOccurrenceOrder(r, s)
  {
    forall x | x in r ensures x in s && FirstIndex(s, x) == FirstIndex(s[..|s| - 1], x) {
      FirstIndexOfPrefix(s, |s| - 1, x);
    }
    forall i, j | 0 <= i < j < |r| ensures FirstIndex(s, r[i]) < FirstIndex(s, r[j]) {
      assert r[i] in r && r[j] in r;
    }
  }

  /** Appending the last element of `s`, met there for the first time, keeps the order. */
  lemma OrderWithLast(s: seq<string>, r: seq<string>)
    requires s != [] && s[|s| - 1] !in s[..|s| - 1]
    requires InFirstOccurrenceOrder(r, s[..|s| - 1]) && InFirstOccurrenceOrder(r, s)
    ensures InFirstOccurrenceOrder(r + [s[|s| - 1]], s)
  {
    var init, last := s[..|s| - 1], s[|s| - 1];
    forall m | 0 <= m < |s| - 1 ensures s[m] != last {
      assert s[m] == init[m];
    }
    FirstIndexIs(s, last, |s| - 1);
    var r' := r + [last];
    forall i, j | 0 <= i < j < |r'| ensures FirstIndex(s, r'[i]) < FirstIndex(s, r'[j]) {
      assert r'[i] == r[i] && r[i] in r;
      if j < |r| {
        assert r'[j] == r[j];
      } else {
        FirstIndexOfPrefix(s, |s| - 1, r[i]);
      }
    }
  }

  /**
   The survivors of `array_unique` keep the order of their first occurrences:
   of two kept values, the one met first in the input comes first.
   */
  lemma {:induction false} UniqueKeepsFirstOccurrenceOrder(s: seq<string>)
    ensures InFirstOccurrenceOrder(Unique(s), s)
  {
    if s != [] {
      var init := s[..|s| - 1];
      var kept := Unique(init);
      UniqueKeepsFirstOccurrenceOrder(init);
      OrderInPrefix(s, kept);
      if s[|s| - 1] !in kept {
        OrderWithLast(s, kept);
      }
    }
  }

  /** On a list that already has no duplicates, `array_unique` changes nothing. */
  lemma {:induction false} UniqueOfDistinct(s: seq<string>)
    requires NoDuplicates(s)
    ensures Unique(s) == s
  {
    if s != [] {
      var init := s[..|s| - 1];
      UniqueOfDistinct(init);
      assert s[|s| - 1] !in init;
      assert init + [s[|s| - 1]] == s;
    }
  }

  /** `array_unique` is idempotent. */
  lemma UniqueIdempotent(s: seq<string>)
    ensures Unique(Unique(s)) == Unique(s)
  {
    UniqueOfDistinct(Unique(s));
  }

  /** `array_unique` as PHP runs it: one pass, keeping each value the first time it is seen. */
  method ArrayUnique(s: seq<string>) returns (r: seq<string>)
    ensures r == Unique(s)
  {
    r := [];
    var i := 0;
    while i < |s|
      invariant 0 <= i <= |s|
      invariant r == Unique(s[..i])
    {
      assert s[..i + 1][..i] == s[..i];
      if s[i] !in r {
        r := r + [s[i]];
      }
      i := i + 1;
    }
    assert s[..|s|] == s;
  }
}

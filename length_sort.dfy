/** `sorted(long_names, key=lambda x: x["length"], reverse=True)`: a stable
    sort by decreasing length, written as an insertion sort on values. */
module LengthSort {
  import opened Packages

  /** No entry is longer than one before it. */
  predicate NonIncreasing(s: seq<Entry>) {
    forall i, j :: 0 <= i < j < |s| ==> s[i].length >= s[j].length
  }

  /** No entry of `s` is longer than `bound`. */
  predicate AtMost(s: seq<Entry>, bound: nat) {
    forall i :: 0 <= i < |s| ==> s[i].length <= bound
  }

  /** The entries of length `len`, in the order they occur in `s`. */
  function OfLength(s: seq<Entry>, len: nat): (r: seq<Entry>)
    ensures |r| <= |s|
  {
    if s == [] then []
    else (if s[0].length == len then [s[0]] else []) + OfLength(s[1..], len)
  }

  /** Places `x` after every entry at least as long as `x`, so that it
      follows the equally long entries already there. */
  function Insert(s: seq<Entry>, x: Entry): (r: seq<Entry>)
    ensures |r| == |s| + 1
  {
    if s == [] then [x]
    else if s[0].length >= x.length then [s[0]] + Insert(s[1..], x)
    else [x] + s
  }

  /** The entries ordered longest first; equally long entries keep their
      input order. */
  function SortByLengthDesc(s: seq<Entry>): (r: seq<Entry>)
    ensures multiset(r) == multiset(s)
    ensures NonIncreasing(r)
  {
    if s == [] then []
    else
      var sorted := SortByLengthDesc(s[..|s| - 1]);
      InsertPermutation(sorted, s[|s| - 1]);
      InsertOrdered(sorted, s[|s| - 1]);
      MultisetLast(s);
      Insert(sorted, s[|s| - 1])
  }

  // Small facts about splitting sequences, kept apart so that each proof
  // below sees only the step it needs.

  lemma MultisetHead(s: seq<Entry>)
    requires s != []
    ensures multiset(s) == multiset{s[0]} + multiset(s[1..])
  {
    assert s == [s[0]] + s[1..];
  }

  lemma MultisetLast(s: seq<Entry>)
    requires s != []
    ensures multiset(s) == multiset(s[..|s| - 1]) + multiset{s[|s| - 1]}
  {
    assert s == s[..|s| - 1] + [s[|s| - 1]];
  }

  lemma HeadTailEqual(a: seq<Entry>, b: seq<Entry>)
    requires a != [] && b != [] && a[0] == b[0] && a[1..] == b[1..]
    ensures a == b
  {
    assert a == [a[0]] + a[1..];
    assert b == [b[0]] + b[1..];
  }

  lemma ConcatTail(a: seq<Entry>, b: seq<Entry>)
    requires a != []
    ensures a + b != [] && (a + b)[0] == a[0] && (a + b)[1..] == a[1..] + b
  {
  }

  lemma AtMostTail(s: seq<Entry>)
    requires s != [] && NonIncreasing(s)
    ensures AtMost(s[1..], s[0].length) && NonIncreasing(s[1..])
  {
    assert forall i :: 0 <= i < |s[1..]| ==> s[1..][i] == s[i + 1];
  }

  lemma AtMostHead(s: seq<Entry>)
    requires s != [] && NonIncreasing(s)
    ensures AtMost(s, s[0].length)
  {
  }

  lemma InsertAfter(s: seq<Entry>, x: Entry)
    requires s != [] && s[0].length >= x.length
    ensures Insert(s, x) == [s[0]] + Insert(s[1..], x)
  {
  }

  lemma InsertBefore(s: seq<Entry>, x: Entry)
    requires s == [] || s[0].length < x.length
    ensures Insert(s, x) == [x] + s
  {
  }

  lemma SortLast(s: seq<Entry>)
    requires s != []
    ensures SortByLengthDesc(s) == Insert(SortByLengthDesc(s[..|s| - 1]), s[|s| - 1])
  {
  }

  /** Inserting adds exactly the inserted entry. */
  lemma {:induction false} InsertPermutation(s: seq<Entry>, x: Entry)
    ensures multiset(Insert(s, x)) == multiset(s) + multiset{x}
  {
    if s != [] && s[0].length >= x.length {
      InsertPermutation(s[1..], x);
      InsertAfter(s, x);
      MultisetHead(s);
    } else {
      InsertBefore(s, x);
    }
  }

  lemma {:induction false} InsertAtMost(s: seq<Entry>, x: Entry, bound: nat)
    requires AtMost(s, bound) && x.length <= bound
    ensures AtMost(Insert(s, x), bound)
  {
    if s != [] && s[0].length >= x.length {
      InsertAtMost(s[1..], x, bound);
      InsertAfter(s, x);
    } else {
      InsertBefore(s, x);
    }
  }

  lemma ConsOrdered(h: Entry, t: seq<Entry>)
    requires NonIncreasing(t) && AtMost(t, h.length)
    ensures NonIncreasing([h] + t)
  {
    var r := [h] + t;
    forall i, j | 0 <= i < j < |r| ensures r[i].length >= r[j].length {
      assert r[j] == t[j - 1];
      if i > 0 {
        assert r[i] == t[i - 1];
      }
    }
  }

  /** Inserting into a longest-first list keeps it longest first. */
  lemma {:induction false} InsertOrdered(s: seq<Entry>, x: Entry)
    requires NonIncreasing(s)
    ensures NonIncreasing(Insert(s, x))
  {
    if s != [] && s[0].length >= x.length {
      AtMostTail(s);
      InsertOrdered(s[1..], x);
      InsertAtMost(s[1..], x, s[0].length);
      ConsOrdered(s[0], Insert(s[1..], x));
      InsertAfter(s, x);
    } else {
      InsertBefore(s, x);
      if s != [] {
        AtMostHead(s);
      }
      ConsOrdered(x, s);
    }
  }

  lemma OfLengthCons(e: Entry, t: seq<Entry>, len: nat)
    ensures OfLength([e] + t, len) == (if e.length == len then [e] else []) + OfLength(t, len)
  {
    assert ([e] + t)[1..] == t;
  }

  lemma {:induction false} OfLengthAppend(a: seq<Entry>, b: seq<Entry>, len: nat)
    ensures OfLength(a + b, len) == OfLength(a, len) + OfLength(b, len)
  {
    if a == [] {
      assert a + b == b;
    } else {
      ConcatTail(a, b);
      OfLengthAppend(a[1..], b, len);
    }
  }

  lemma OfLengthLast(s: seq<Entry>, len: nat)
    requires s != []
    ensures OfLength(s, len) ==
      OfLength(s[..|s| - 1], len) + (if s[|s| - 1].length == len then [s[|s| - 1]] else [])
  {
    assert s == s[..|s| - 1] + [s[|s| - 1]];
    OfLengthAppend(s[..|s| - 1], [s[|s| - 1]], len);
  }

  lemma {:induction false} OfLengthNone(s: seq<Entry>, len: nat)
    requires forall i :: 0 <= i < |s| ==> s[i].length < len
    ensures OfLength(s, len) == []
  {
    if s != [] {
      OfLengthNone(s[1..], len);
    }
  }

  /** Inserting `x` adds it at the end of the entries of its own length and
      leaves the order of all other lengths alone. */
  lemma {:induction false} InsertOfLength(s: seq<Entry>, x: Entry, len: nat)
    requires NonIncreasing(s)
    ensures OfLength(Insert(s, x), len) ==
      OfLength(s, len) + (if x.length == len then [x] else [])
  {
    if s != [] && s[0].length >= x.length {
      AtMostTail(s);
      InsertOfLength(s[1..], x, len);
      InsertAfter(s, x);
      OfLengthCons(s[0], Insert(s[1..], x), len);
    } else {
      InsertBefore(s, x);
      OfLengthCons(x, s, len);
      if x.length == len && s != [] {
        AtMostHead(s);
        OfLengthNone(s, len);
      }
    }
  }

  /** Stability: for each length, the entries of that length appear in the
      sorted list in the same order as in the input. */
  lemma {:induction false} SortStable(s: seq<Entry>, len: nat)
    ensures OfLength(SortByLengthDesc(s), len) == OfLength(s, len)
  {
    if s != [] {
      SortStable(s[..|s| - 1], len);
      SortLast(s);
      InsertOfLength(SortByLengthDesc(s[..|s| - 1]), s[|s| - 1], len);
      OfLengthLast(s, len);
    }
  }

  lemma OfLengthHead(s: seq<Entry>)
    requires s != []
    ensures OfLength(s, s[0].length) != [] && OfLength(s, s[0].length)[0] == s[0]
  {
  }

  lemma OfLengthTail(a: seq<Entry>, b: seq<Entry>, len: nat)
    requires a != [] && b != [] && a[0] == b[0]
    requires OfLength(a, len) == OfLength(b, len)
    ensures OfLength(a[1..], len) == OfLength(b[1..], len)
  {
    var h := if a[0].length == len then [a[0]] else [];
    assert OfLength(a[1..], len) == OfLength(a, len)[|h|..];
    assert OfLength(b[1..], len) == OfLength(b, len)[|h|..];
  }

  /** Two longest-first lists with the same entries of every length, in the
      same order, are equal. */
  lemma {:induction false} OrderedUnique(a: seq<Entry>, b: seq<Entry>)
    requires NonIncreasing(a) && NonIncreasing(b)
    requires forall len :: OfLength(a, len) == OfLength(b, len)
    ensures a == b
  {
    if a == [] && b == [] {
    } else if a == [] {
      OfLengthHead(b);
    } else if b == [] {
      OfLengthHead(a);
    } else {
      OfLengthHead(a);
      OfLengthHead(b);
      AtMostHead(a);
      AtMostHead(b);
      if a[0].length > b[0].length {
        OfLengthNone(b, a[0].length);
        assert false;
      } else if a[0].length < b[0].length {
        OfLengthNone(a, b[0].length);
        assert false;
      }
      assert OfLength(a, a[0].length) == OfLength(b, a[0].length);
      forall len ensures OfLength(a[1..], len) == OfLength(b[1..], len) {
        OfLengthTail(a, b, len);
      }
      AtMostTail(a);
      AtMostTail(b);
      OrderedUnique(a[1..], b[1..]);
      HeadTailEqual(a, b);
    }
  }

  /** The sort is the only longest-first arrangement of the input that keeps
      equally long entries in input order. */
  lemma SortCharacterized(s: seq<Entry>, r: seq<Entry>)
    requires NonIncreasing(r)
    requires forall len :: OfLength(r, len) == OfLength(s, len)
    ensures r == SortByLengthDesc(s)
  {
    forall len ensures OfLength(r, len) == OfLength(SortByLengthDesc(s), len) {
      SortStable(s, len);
    }
    OrderedUnique(r, SortByLengthDesc(s));
  }
}

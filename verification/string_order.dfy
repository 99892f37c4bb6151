/** The natural order of Java strings (`String.compareTo`) and the sorted,
    duplicate-free sequences a `TreeSet<String>` iterates in. */
module StringOrder {

  /** Lexicographic order, character by character; a proper prefix comes
      before every extension of it. */
  predicate Less(a: string, b: string)
    decreases |a|
  {
    if |a| == 0 then |b| > 0
    else if |b| == 0 then false
    else if a[0] != b[0] then a[0] < b[0]
    else Less(a[1..], b[1..])
  }

  lemma {:induction false} LessIrreflexive(a: string)
    ensures !Less(a, a)
  {
    if |a| > 0 {
      LessIrreflexive(a[1..]);
    }
  }

  lemma {:induction false} LessTransitive(a: string, b: string, c: string)
    requires Less(a, b) && Less(b, c)
    ensures Less(a, c)
  {
    if |a| > 0 && |b| > 0 && |c| > 0 && a[0] == b[0] && b[0] == c[0] {
      LessTransitive(a[1..], b[1..], c[1..]);
    }
  }

  lemma LessAsymmetric(a: string, b: string)
    ensures !(Less(a, b) && Less(b, a))
  {
  }

  lemma {:induction false} LessTotal(a: string, b: string)
    requires a != b
    ensures Less(a, b) || Less(b, a)
  {
    if |a| > 0 && |b| > 0 && a[0] == b[0] {
      assert a == [a[0]] + a[1..] && b == [b[0]] + b[1..];
      LessTotal(a[1..], b[1..]);
    }
  }

  function Elements(s: seq<string>): set<string>
  {
    set x | x in s
  }

  lemma ElementsEmpty(s: seq<string>)
    ensures Elements(s) == {} <==> s == []
  {
    if s != [] {
      assert s[0] in Elements(s);
    }
  }

  /** Every element is below every later one: sorted and free of duplicates. */
  predicate StrictlySorted(s: seq<string>)
  {
    forall i, j :: 0 <= i < j < |s| ==> Less(s[i], s[j])
  }

  /** The iteration order of a `TreeSet<String>`. */
  type SortedStrings = s: seq<string> | StrictlySorted(s) witness []

  lemma SortedDistinct(s: SortedStrings)
    ensures forall i, j :: 0 <= i < j < |s| ==> s[i] != s[j]
  {
    forall i, j | 0 <= i < j < |s|
      ensures s[i] != s[j]
    {
      LessIrreflexive(s[i]);
    }
  }

  /** The head of a non-empty sorted sequence is below everything after it. */
  lemma SortedHeadLeast(s: SortedStrings)
    requires |s| > 0
    ensures forall y :: y in s[1..] ==> Less(s[0], y)
    ensures s[0] !in s[1..]
    ensures Elements(s[1..]) == Elements(s) - {s[0]}
  {
    LessIrreflexive(s[0]);
    assert s == [s[0]] + s[1..];
  }

  /** Anything below the head of a sorted sequence is below all of it. */
  lemma BelowHead(x: string, s: SortedStrings)
    requires |s| > 0 && Less(x, s[0])
    ensures forall y :: y in s ==> Less(x, y)
  {
    forall y | y in s
      ensures Less(x, y)
    {
      if y != s[0] {
        LessTransitive(x, s[0], y);
      }
    }
  }

  lemma PrependSorted(x: string, s: SortedStrings)
    requires forall y :: y in s ==> Less(x, y)
    ensures StrictlySorted([x] + s)
  {
  }

  /** `TreeSet.add`: places `x` at its position in the order, unless it is
      already present. */
  function Insert(s: SortedStrings, x: string): (r: SortedStrings)
    ensures Elements(r) == Elements(s) + {x}
    ensures x in s ==> r == s
    ensures x !in s ==> |r| == |s| + 1
    decreases |s|
  {
    if |s| == 0 then
      [x]
    else if x == s[0] then
      s
    else if Less(x, s[0]) then
      BelowHead(x, s);
      LessIrreflexive(x);
      PrependSorted(x, s);
      [x] + s
    else
      LessTotal(x, s[0]);
      SortedHeadLeast(s);
      var t := Insert(s[1..], x);
      assert forall y :: y in t ==> y in Elements(t);
      PrependSorted(s[0], t);
      assert s == [s[0]] + s[1..];
      [s[0]] + t
  }

  /** A set has exactly one strictly sorted enumeration. */
  lemma {:induction false} SortedUnique(a: SortedStrings, b: SortedStrings)
    requires Elements(a) == Elements(b)
    ensures a == b
    decreases |a|
  {
    if |a| == 0 {
      ElementsEmpty(b);
    } else {
      assert a[0] in Elements(b);
      assert |b| > 0;
      SortedHeadLeast(a);
      SortedHeadLeast(b);
      assert b[0] in Elements(a);
      assert a[0] != b[0] ==> a[0] in b[1..] && b[0] in a[1..];
      LessAsymmetric(a[0], b[0]);
      assert a[0] == b[0];
      SortedUnique(a[1..], b[1..]);
      assert a == [a[0]] + a[1..] && b == [b[0]] + b[1..];
    }
  }
}

/** Ordering candidate element types by their display label: the comparator
    `sortElementTypesByLabel` and the in-place `sort` applied to a fetched type list. */
module LabelSort {
  import opened DataModel

  /** Ordinal string order, as JavaScript's `<` on two strings: the first differing character
      decides, and a proper prefix comes first. No locale folding, so case matters. */
  predicate Less(a: string, b: string)
    decreases |a|
  {
    if a == [] then b != []
    else if b == [] then false
    else if a[0] != b[0] then a[0] < b[0]
    else Less(a[1..], b[1..])
  }

  /** `Less` is the order of the first difference. */
  lemma {:induction false} LessIsFirstDifference(a: string, b: string)
    ensures Less(a, b) <==> FirstDifferenceBefore(a, b)
    decreases |a|
  {
    if a == [] {
      assert b != [] ==> DiffersFirstAt(a, b, 0);
    } else if b == [] {
    } else if a[0] != b[0] {
      FirstDifferenceAtHead(a, b);
    } else {
      LessIsFirstDifference(a[1..], b[1..]);
      FirstDifferenceTail(a, b);
    }
  }

  /** `a` and `b` agree up to some position `k`, where either `a` has ended and `b` has not, or
      both go on and a's character is smaller. */
  ghost predicate FirstDifferenceBefore(a: string, b: string)
  {
    exists k :: DiffersFirstAt(a, b, k)
  }

  /** `a` and `b` agree before `k`, and `k` is where `a` comes first. */
  ghost predicate DiffersFirstAt(a: string, b: string, k: int)
  {
    0 <= k <= |a| && k <= |b| && a[..k] == b[..k] &&
      ((k == |a| && k < |b|) || (k < |a| && k < |b| && a[k] < b[k]))
  }

  lemma FirstDifferenceAtHead(a: string, b: string)
    requires a != [] && b != [] && a[0] != b[0]
    ensures FirstDifferenceBefore(a, b) <==> a[0] < b[0]
  {
    if FirstDifferenceBefore(a, b) {
      var k :| DiffersFirstAt(a, b, k);
    }
    if a[0] < b[0] {
      assert DiffersFirstAt(a, b, 0);
    }
  }

  lemma FirstDifferenceTail(a: string, b: string)
    requires a != [] && b != [] && a[0] == b[0]
    ensures FirstDifferenceBefore(a, b) <==> FirstDifferenceBefore(a[1..], b[1..])
  {
    if FirstDifferenceBefore(a, b) {
      var k :| DiffersFirstAt(a, b, k);
      assert k > 0;
      assert a[1..][..k - 1] == a[..k][1..] && b[1..][..k - 1] == b[..k][1..];
      assert DiffersFirstAt(a[1..], b[1..], k - 1);
    }
    if FirstDifferenceBefore(a[1..], b[1..]) {
      var k :| DiffersFirstAt(a[1..], b[1..], k);
      assert a[..k + 1] == [a[0]] + a[1..][..k] && b[..k + 1] == [b[0]] + b[1..][..k];
      assert DiffersFirstAt(a, b, k + 1);
    }
  }

  lemma {:induction false} LessIrreflexive(a: string)
    ensures !Less(a, a)
    decreases |a|
  {
    if a != [] {
      LessIrreflexive(a[1..]);
    }
  }

  lemma {:induction false} LessTransitive(a: string, b: string, c: string)
    requires Less(a, b) && Less(b, c)
    ensures Less(a, c)
    decreases |a|
  {
    if a != [] && b != [] && c != [] && a[0] == b[0] && b[0] == c[0] {
      LessTransitive(a[1..], b[1..], c[1..]);
    }
  }

  /** Any two labels are ordered one way or the other, or are equal. */
  lemma {:induction false} LessTrichotomous(a: string, b: string)
    ensures Less(a, b) || Less(b, a) || a == b
    decreases |a|
  {
    if a != [] && b != [] && a[0] == b[0] {
      LessTrichotomous(a[1..], b[1..]);
      assert a == [a[0]] + a[1..] && b == [b[0]] + b[1..];
    }
  }

  lemma {:induction false} LessAsymmetric(a: string, b: string)
    requires Less(a, b)
    ensures !Less(b, a)
  {
    if Less(b, a) {
      LessTransitive(a, b, a);
      LessIrreflexive(a);
    }
  }

  /** "Not after" is transitive: the order the sorted list is stated in. */
  lemma NotLessTransitive(a: string, b: string, c: string)
    requires !Less(b, a) && !Less(c, b)
    ensures !Less(c, a)
  {
  }

  /** The comparator of elementTypeSelector.tsx: -1, 1 or 0 by ordinal comparison of the two
      display labels. `labelOf` stands for `view.getElementTypeLabel(view.model.createClass(t)).text`. */
  function CompareByLabel(labelOf: ElementTypeIri -> string, a: ElementTypeIri, b: ElementTypeIri): (r: int)
    ensures r == -1 || r == 0 || r == 1
    ensures r == -1 <==> Less(labelOf(a), labelOf(b))
    ensures r == 1 <==> Less(labelOf(b), labelOf(a))
    ensures r == 0 <==> labelOf(a) == labelOf(b)
  {
    var labelA := labelOf(a);
    var labelB := labelOf(b);
    LessTrichotomous(labelA, labelB);
    LessIrreflexive(labelA);
    if Less(labelA, labelB) then
      LessAsymmetric(labelA, labelB);
      -1
    else if Less(labelB, labelA) then 1
    else 0
  }

  /** Ascending by label: no entry's label is ordinally before an earlier entry's. */
  ghost predicate SortedBy(labelOf: ElementTypeIri -> string, s: seq<ElementTypeIri>)
  {
    forall i, j :: 0 <= i < j < |s| ==> !Less(labelOf(s[j]), labelOf(s[i]))
  }

  /** Places `x` after the last entry of `s` whose label is not after x's label. */
  function Insert(labelOf: ElementTypeIri -> string, s: seq<ElementTypeIri>, x: ElementTypeIri): seq<ElementTypeIri>
  {
    if s == [] || !Less(labelOf(x), labelOf(s[|s| - 1])) then s + [x]
    else Insert(labelOf, s[..|s| - 1], x) + [s[|s| - 1]]
  }

  /** The reference stable sort: each entry in turn is inserted after the entries before it
      whose labels are not after its own, so entries with equal labels keep their order. */
  function SortedByLabel(labelOf: ElementTypeIri -> string, s: seq<ElementTypeIri>): seq<ElementTypeIri>
  {
    if s == [] then [] else Insert(labelOf, SortedByLabel(labelOf, s[..|s| - 1]), s[|s| - 1])
  }

  lemma {:induction false} InsertPermutes(labelOf: ElementTypeIri -> string, s: seq<ElementTypeIri>, x: ElementTypeIri)
    ensures multiset(Insert(labelOf, s, x)) == multiset(s) + multiset{x}
    decreases |s|
  {
    if s != [] && Less(labelOf(x), labelOf(s[|s| - 1])) {
      InsertPermutes(labelOf, s[..|s| - 1], x);
      assert s == s[..|s| - 1] + [s[|s| - 1]];
    }
  }

  lemma SortedAppend(labelOf: ElementTypeIri -> string, t: seq<ElementTypeIri>, y: ElementTypeIri)
    requires SortedBy(labelOf, t)
    requires forall e :: e in multiset(t) ==> !Less(labelOf(y), labelOf(e))
    ensures SortedBy(labelOf, t + [y])
  {
  }

  lemma {:induction false} InsertKeepsSorted(labelOf: ElementTypeIri -> string, s: seq<ElementTypeIri>, x: ElementTypeIri)
    requires SortedBy(labelOf, s)
    ensures SortedBy(labelOf, Insert(labelOf, s, x))
    decreases |s|
  {
    if s == [] {
    } else {
      var last := s[|s| - 1];
      var init := s[..|s| - 1];
      if !Less(labelOf(x), labelOf(last)) {
        forall e | e in multiset(s) ensures !Less(labelOf(x), labelOf(e)) {
          var i :| 0 <= i < |s| && s[i] == e;
          if i < |s| - 1 {
            NotLessTransitive(labelOf(e), labelOf(last), labelOf(x));
          }
        }
        SortedAppend(labelOf, s, x);
      } else {
        assert SortedBy(labelOf, init);
        InsertKeepsSorted(labelOf, init, x);
        InsertPermutes(labelOf, init, x);
        forall e | e in multiset(Insert(labelOf, init, x)) ensures !Less(labelOf(last), labelOf(e)) {
          if e == x {
            LessAsymmetric(labelOf(x), labelOf(last));
          } else {
            assert e in multiset(init);
            var i :| 0 <= i < |init| && init[i] == e;
            assert s[i] == e;
          }
        }
        SortedAppend(labelOf, Insert(labelOf, init, x), last);
      }
    }
  }

  /** The reference sort yields the labels in ascending order. */
  lemma {:induction false} SortedByLabelIsSorted(labelOf: ElementTypeIri -> string, s: seq<ElementTypeIri>)
    ensures SortedBy(labelOf, SortedByLabel(labelOf, s))
    decreases |s|
  {
    if s != [] {
      SortedByLabelIsSorted(labelOf, s[..|s| - 1]);
      InsertKeepsSorted(labelOf, SortedByLabel(labelOf, s[..|s| - 1]), s[|s| - 1]);
    }
  }

  /** The reference sort yields a permutation of its input. */
  lemma {:induction false} SortedByLabelPermutes(labelOf: ElementTypeIri -> string, s: seq<ElementTypeIri>)
    ensures multiset(SortedByLabel(labelOf, s)) == multiset(s)
    ensures |SortedByLabel(labelOf, s)| == |s|
    decreases |s|
  {
    if s != [] {
      SortedByLabelPermutes(labelOf, s[..|s| - 1]);
      InsertPermutes(labelOf, SortedByLabel(labelOf, s[..|s| - 1]), s[|s| - 1]);
      assert s == s[..|s| - 1] + [s[|s| - 1]];
    }
    assert |multiset(SortedByLabel(labelOf, s))| == |multiset(s)|;
  }

  /** Where `x` lands: right after the prefix `s[..j]` when every later entry's label is after
      x's and the entry just before (if any) is not. */
  lemma {:induction false} InsertSplits(labelOf: ElementTypeIri -> string, s: seq<ElementTypeIri>, x: ElementTypeIri, j: nat)
    requires j <= |s|
    requires j > 0 ==> !Less(labelOf(x), labelOf(s[j - 1]))
    requires forall k :: j <= k < |s| ==> Less(labelOf(x), labelOf(s[k]))
    ensures Insert(labelOf, s, x) == s[..j] + [x] + s[j..]
    decreases |s|
  {
    if j == |s| {
      assert s[..j] == s;
    } else {
      var init := s[..|s| - 1];
      assert init[..j] == s[..j];
      assert j > 0 ==> init[j - 1] == s[j - 1];
      InsertSplits(labelOf, init, x, j);
      assert s[j..] == init[j..] + [s[|s| - 1]];
    }
  }

  /** Moves `a[i]` left past the entries of the sorted prefix `a[..i]` whose labels the
      comparator puts after it; the rest of the array is left alone. */
  method InsertAt(a: array<ElementTypeIri>, i: nat, labelOf: ElementTypeIri -> string)
    requires i < a.Length
    modifies a
    ensures a[..] == Insert(labelOf, old(a[..i]), old(a[i])) + old(a[i + 1..])
  {
    ghost var done := a[..i];
    ghost var rest := a[i + 1..];
    ghost var x := a[i];
    assert a[..] == done + [x] + rest;
    var j := ShiftAndPlace(a, i, labelOf, done, x, rest);
    InsertSplits(labelOf, done, x, j);
    Assemble(a, done, rest, j, x);
  }

  /** The body of `InsertAt`, stated entry by entry: every entry of `done` (the prefix before
      `x`) whose label the comparator puts after x's moves right by one, from the right, and
      `x` fills the hole `j` they leave. */
  method ShiftAndPlace(a: array<ElementTypeIri>, i: nat, labelOf: ElementTypeIri -> string,
                       ghost done: seq<ElementTypeIri>, ghost x: ElementTypeIri, ghost rest: seq<ElementTypeIri>)
    returns (j: nat)
    requires i < a.Length && a[..] == done + [x] + rest && |done| == i
    modifies a
    ensures j <= i && a[j] == x
    ensures forall k :: 0 <= k < j ==> a[k] == done[k]
    ensures forall k :: j < k <= i ==> a[k] == done[k - 1]
    ensures forall k :: i < k < a.Length ==> a[k] == rest[k - i - 1]
    ensures forall k :: j <= k < i ==> Less(labelOf(x), labelOf(done[k]))
    ensures j > 0 ==> !Less(labelOf(x), labelOf(done[j - 1]))
  {
    var v := a[i];
    j := i;
    while j > 0 && CompareByLabel(labelOf, a[j - 1], v) > 0
      invariant 0 <= j <= i
      invariant forall k :: 0 <= k < j ==> a[k] == done[k]
      invariant forall k :: j < k <= i ==> a[k] == done[k - 1]
      invariant forall k :: i < k < a.Length ==> a[k] == rest[k - i - 1]
      invariant forall k :: j <= k < i ==> Less(labelOf(x), labelOf(done[k]))
    {
      a[j] := a[j - 1];
      j := j - 1;
    }
    a[j] := v;
  }

  /** The array after `InsertAt`, entry by entry: the prefix up to the hole, `x`, the shifted
      rest of the prefix, and the untouched tail. */
  lemma Assemble(a: array<ElementTypeIri>, done: seq<ElementTypeIri>, rest: seq<ElementTypeIri>, j: nat, x: ElementTypeIri)
    requires j <= |done| && a.Length == |done| + 1 + |rest|
    requires forall k :: 0 <= k < j ==> a[k] == done[k]
    requires a[j] == x
    requires forall k :: j < k <= |done| ==> a[k] == done[k - 1]
    requires forall k :: |done| < k < a.Length ==> a[k] == rest[k - |done| - 1]
    ensures a[..] == done[..j] + [x] + done[j..] + rest
  {
  }

  /** One pass of `SortByLabel`: inserting entry `i` into the sorted prefix extends it to a
      sorted prefix one longer, and the unsorted rest is untouched. */
  lemma SortStep(labelOf: ElementTypeIri -> string, input: seq<ElementTypeIri>, before: seq<ElementTypeIri>, after: seq<ElementTypeIri>, i: nat)
    requires i < |input| == |before|
    requires before[..i] == SortedByLabel(labelOf, input[..i]) && before[i..] == input[i..]
    requires after == Insert(labelOf, before[..i], before[i]) + before[i + 1..]
    ensures |after| == |input|
    ensures after[..i + 1] == SortedByLabel(labelOf, input[..i + 1])
    ensures after[i + 1..] == input[i + 1..]
  {
    assert before[i] == input[i] && before[i + 1..] == input[i + 1..] by {
      assert before[i..][0] == before[i] && input[i..][0] == input[i];
      assert before[i..][1..] == before[i + 1..] && input[i..][1..] == input[i + 1..];
    }
    var inserted := Insert(labelOf, before[..i], before[i]);
    InsertLength(labelOf, before[..i], before[i]);
    var prefix := input[..i + 1];
    assert prefix[..i] == input[..i] && prefix[i] == input[i];
    assert SortedByLabel(labelOf, prefix) == Insert(labelOf, SortedByLabel(labelOf, prefix[..i]), prefix[i]);
  }

  lemma {:induction false} InsertLength(labelOf: ElementTypeIri -> string, s: seq<ElementTypeIri>, x: ElementTypeIri)
    ensures |Insert(labelOf, s, x)| == |s| + 1
    decreases |s|
  {
    if s != [] && Less(labelOf(x), labelOf(s[|s| - 1])) {
      InsertLength(labelOf, s[..|s| - 1], x);
    }
  }

  /** `elementTypes.sort(sortElementTypesByLabel)`: sorts the fetched array in place, one
      entry at a time. */
  method SortByLabel(a: array<ElementTypeIri>, labelOf: ElementTypeIri -> string)
    modifies a
    ensures a[..] == SortedByLabel(labelOf, old(a[..]))
  {
    ghost var input := a[..];
    var i := 0;
    while i < a.Length
      invariant 0 <= i <= a.Length
      invariant a[..i] == SortedByLabel(labelOf, input[..i])
      invariant a[i..] == input[i..]
    {
      ghost var before := a[..];
      InsertAt(a, i, labelOf);
      SortStep(labelOf, input, before, a[..], i);
      i := i + 1;
    }
    assert input[..a.Length] == input;
  }
}

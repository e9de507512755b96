/**
  Resource identity and ordering (pkg/resource/resource.go): abstract resources, the
  list of refactored resource types, identity by (type, id), and the stable sort by
  (type, id) that makes scan output deterministic.
*/
module Resource {
  import opened Attrs

  /** A resource as the scanner builds it.  The getters `TerraformId` and
      `TerraformType` of the source return the fields `id` and `resourceType`. */
  datatype AbstractResource = AbstractResource(id: string, resourceType: string, attrs: Doc)
  {
    function TerraformId(): string { id }
    function TerraformType(): string { resourceType }
  }

  predicate IsSameResource(r: AbstractResource, l: AbstractResource) {
    r.TerraformType() == l.TerraformType() && r.TerraformId() == l.TerraformId()
  }

  // ---------------------------------------------------------------------------
  // The order

  /** Go's `<` on strings: lexicographic, so a proper prefix comes first.  (Go compares
      UTF-8 bytes; on valid UTF-8 that is the order of code points used here.) */
  predicate StrLess(a: string, b: string)
    decreases |a|
  {
    if |a| == 0 then |b| > 0
    else if |b| == 0 then false
    else if a[0] != b[0] then a[0] < b[0]
    else StrLess(a[1..], b[1..])
  }

  lemma {:induction false} StrLessIrreflexive(a: string)
    ensures !StrLess(a, a)
    decreases |a|
  {
    if |a| > 0 {
      StrLessIrreflexive(a[1..]);
    }
  }

  lemma {:induction false} StrLessTransitive(a: string, b: string, c: string)
    requires StrLess(a, b) && StrLess(b, c)
    ensures StrLess(a, c)
    decreases |a|
  {
    if |a| > 0 && a[0] == b[0] && b[0] == c[0] {
      StrLessTransitive(a[1..], b[1..], c[1..]);
    }
  }

  lemma {:induction false} StrLessTotal(a: string, b: string)
    ensures a == b || StrLess(a, b) || StrLess(b, a)
    decreases |a|
  {
    if |a| > 0 && |b| > 0 && a[0] == b[0] {
      StrLessTotal(a[1..], b[1..]);
      if a[1..] == b[1..] {
        assert a == [a[0]] + a[1..] && b == [b[0]] + b[1..];
      }
    }
  }

  lemma {:induction false} StrLessAsymmetric(a: string, b: string)
    requires StrLess(a, b)
    ensures !StrLess(b, a)
  {
    if StrLess(b, a) {
      StrLessTransitive(a, b, a);
      StrLessIrreflexive(a);
    }
  }

  /** The `less` function handed to `sort.SliceStable`: by type, then by id. */
  predicate Less(x: AbstractResource, y: AbstractResource) {
    if x.TerraformType() != y.TerraformType() then StrLess(x.TerraformType(), y.TerraformType())
    else StrLess(x.TerraformId(), y.TerraformId())
  }

  lemma LessTransitive(x: AbstractResource, y: AbstractResource, z: AbstractResource)
    requires Less(x, y) && Less(y, z)
    ensures Less(x, z)
  {
    if x.resourceType != y.resourceType && y.resourceType != z.resourceType {
      StrLessTransitive(x.resourceType, y.resourceType, z.resourceType);
      if x.resourceType == z.resourceType {
        StrLessAsymmetric(x.resourceType, y.resourceType);
      }
    } else if x.resourceType == y.resourceType && y.resourceType == z.resourceType {
      StrLessTransitive(x.id, y.id, z.id);
    }
  }

  lemma LessAsymmetric(x: AbstractResource, y: AbstractResource)
    requires Less(x, y)
    ensures !Less(y, x)
  {
    if x.resourceType != y.resourceType {
      StrLessAsymmetric(x.resourceType, y.resourceType);
    } else {
      StrLessAsymmetric(x.id, y.id);
    }
  }

  /** Two resources are the same exactly when the sort order cannot tell them apart:
      identity by (type, id) is the equivalence of ties of `Less`. */
  lemma SameResourceIffTied(x: AbstractResource, y: AbstractResource)
    ensures IsSameResource(x, y) <==> !Less(x, y) && !Less(y, x)
  {
    if IsSameResource(x, y) {
      StrLessIrreflexive(x.id);
    } else if x.resourceType != y.resourceType {
      StrLessTotal(x.resourceType, y.resourceType);
    } else {
      StrLessTotal(x.id, y.id);
    }
  }

  /** Not-less is transitive: the order is a strict weak order. */
  lemma NotLessTransitive(x: AbstractResource, y: AbstractResource, z: AbstractResource)
    requires !Less(y, x) && !Less(z, y)
    ensures !Less(z, x)
  {
    if Less(z, x) {
      SameResourceIffTied(x, y);
      if Less(x, y) {
        LessTransitive(z, x, y);
      }
    }
  }

  // ---------------------------------------------------------------------------
  // The stable sort

  /** Ordered by (type, id): no element is less than one before it. */
  ghost predicate Sorted(s: seq<AbstractResource>) {
    forall i, j :: 0 <= i < j < |s| ==> !Less(s[j], s[i])
  }

  /** `[e]` when `e` is the same resource as `k`, otherwise nothing. */
  function Pick(e: AbstractResource, k: AbstractResource): seq<AbstractResource> {
    if IsSameResource(e, k) then [e] else []
  }

  /** The elements of `s` that are the same resource as `k`, in their order in `s`. */
  function SameAs(s: seq<AbstractResource>, k: AbstractResource): seq<AbstractResource>
    decreases |s|
  {
    if s == [] then [] else SameAs(s[..|s| - 1], k) + Pick(s[|s| - 1], k)
  }

  /** Inserting `x` after every element it is not less than. */
  function Insert(t: seq<AbstractResource>, x: AbstractResource): seq<AbstractResource>
    decreases |t|
  {
    if t == [] then [x]
    else if Less(x, t[|t| - 1]) then Insert(t[..|t| - 1], x) + [t[|t| - 1]]
    else t + [x]
  }

  /** Stable insertion sort: the result `sort.SliceStable` produces with `Less`. */
  function InsertionSort(s: seq<AbstractResource>): seq<AbstractResource>
    decreases |s|
  {
    if s == [] then [] else Insert(InsertionSort(s[..|s| - 1]), s[|s| - 1])
  }

  /** Insert places `x` right before the elements greater than it, as the inner loop of Sort does. */
  lemma {:induction false} InsertAt(t: seq<AbstractResource>, x: AbstractResource, j: nat)
    requires j <= |t|
    requires forall m :: j <= m < |t| ==> Less(x, t[m])
    requires j == 0 || !Less(x, t[j - 1])
    ensures Insert(t, x) == t[..j] + [x] + t[j..]
    decreases |t|
  {
    if j < |t| {
      var t' := t[..|t| - 1];
      InsertAt(t', x, j);
      assert t'[..j] == t[..j];
      assert t'[j..] + [t[|t| - 1]] == t[j..];
    } else if t != [] {
      assert t[..j] == t;
    }
  }

  lemma {:induction false} InsertPermutes(t: seq<AbstractResource>, x: AbstractResource)
    ensures multiset(Insert(t, x)) == multiset(t) + multiset{x}
    decreases |t|
  {
    if t != [] && Less(x, t[|t| - 1]) {
      InsertPermutes(t[..|t| - 1], x);
      assert t == t[..|t| - 1] + [t[|t| - 1]];
    }
  }

  lemma {:induction false} InsertSorted(t: seq<AbstractResource>, x: AbstractResource)
    requires Sorted(t)
    ensures Sorted(Insert(t, x))
    decreases |t|
  {
    if t != [] {
      var last := t[|t| - 1];
      var t' := t[..|t| - 1];
      if Less(x, last) {
        InsertSorted(t', x);
        InsertPermutes(t', x);
        var u := Insert(t', x);
        forall i | 0 <= i < |u|
          ensures !Less(last, u[i])
        {
          assert u[i] in multiset(u);
          if u[i] == x {
            LessAsymmetric(x, last);
          } else {
            assert u[i] in multiset(t');
            var m :| 0 <= m < |t'| && t'[m] == u[i];
            assert t[m] == u[i];
          }
        }
      } else {
        forall i | 0 <= i < |t|
          ensures !Less(x, t[i])
        {
          if i < |t| - 1 {
            NotLessTransitive(t[i], last, x);
          }
        }
      }
    }
  }

  lemma {:induction false} SameAsAppend(s: seq<AbstractResource>, u: seq<AbstractResource>, k: AbstractResource)
    ensures SameAs(s + u, k) == SameAs(s, k) + SameAs(u, k)
    decreases |u|
  {
    if u == [] {
      assert s + u == s;
    } else {
      var u' := u[..|u| - 1];
      SameAsAppend(s, u', k);
      assert (s + u)[..|s + u| - 1] == s + u';
    }
  }

  /** A resource less than another is not the same resource as any `k` the other is. */
  lemma PickCommutes(x: AbstractResource, y: AbstractResource, k: AbstractResource)
    requires Less(x, y)
    ensures Pick(x, k) + Pick(y, k) == Pick(y, k) + Pick(x, k)
  {
    SameResourceIffTied(x, y);
  }

  lemma SameAsSnoc(u: seq<AbstractResource>, e: AbstractResource, k: AbstractResource)
    ensures SameAs(u + [e], k) == SameAs(u, k) + Pick(e, k)
  {
    assert (u + [e])[..|u + [e]| - 1] == u;
  }

  lemma SwapLast(a: seq<AbstractResource>, b: seq<AbstractResource>, c: seq<AbstractResource>)
    requires b + c == c + b
    ensures a + b + c == a + c + b
  {
    calc {
      a + b + c;
      a + (b + c);
      a + (c + b);
      a + c + b;
    }
  }

  /** Insertion passes over only resources strictly greater than `x`, none the same as `x`,
      so the resources the same as any `k` keep their order. */
  lemma {:induction false} InsertStable(t: seq<AbstractResource>, x: AbstractResource, k: AbstractResource)
    ensures SameAs(Insert(t, x), k) == SameAs(t, k) + Pick(x, k)
    decreases |t|
  {
    if t == [] {
      assert [x][..0] == [];
    } else if Less(x, t[|t| - 1]) {
      var last := t[|t| - 1];
      var t' := t[..|t| - 1];
      assert t == t' + [last];
      InsertStable(t', x, k);
      SameAsSnoc(Insert(t', x), last, k);
      PickCommutes(x, last, k);
      SwapLast(SameAs(t', k), Pick(x, k), Pick(last, k));
    } else {
      assert (t + [x])[..|t + [x]| - 1] == t;
    }
  }

  /** The sort's result is ordered by (type, id). */
  lemma {:induction false} SortedBySort(s: seq<AbstractResource>)
    ensures Sorted(InsertionSort(s))
    decreases |s|
  {
    if s != [] {
      SortedBySort(s[..|s| - 1]);
      InsertSorted(InsertionSort(s[..|s| - 1]), s[|s| - 1]);
    }
  }

  /** The sort's result is a permutation of its input. */
  lemma {:induction false} SortPermutes(s: seq<AbstractResource>)
    ensures multiset(InsertionSort(s)) == multiset(s)
    decreases |s|
  {
    if s != [] {
      SortPermutes(s[..|s| - 1]);
      InsertPermutes(InsertionSort(s[..|s| - 1]), s[|s| - 1]);
      assert s == s[..|s| - 1] + [s[|s| - 1]];
    }
  }

  /** The sort is stable: the resources with any given (type, id) appear in the same order
      before and after. */
  lemma {:induction false} SortIsStable(s: seq<AbstractResource>, k: AbstractResource)
    ensures SameAs(InsertionSort(s), k) == SameAs(s, k)
    decreases |s|
  {
    if s != [] {
      var s' := s[..|s| - 1];
      SortIsStable(s', k);
      InsertStable(InsertionSort(s'), s[|s| - 1], k);
    }
  }

  /** One pass of the stable insertion: `res[i]` moves left past the greater elements of the
      already sorted prefix `res[..i]`; the rest of the array is untouched. */
  method InsertInto(res: array<AbstractResource>, i: nat)
    requires i < res.Length
    modifies res
    ensures res[..i + 1] == Insert(old(res[..i]), old(res[i]))
    ensures res[i + 1..] == old(res[i + 1..])
  {
    var x := res[i];
    ghost var t := res[..i];
    ghost var rest := res[i + 1..];
    var j := i;
    while j > 0 && Less(x, res[j - 1])
      invariant 0 <= j <= i
      invariant res[..j] == t[..j]
      invariant res[j + 1..i + 1] == t[j..i]
      invariant res[i + 1..] == rest
      invariant forall m :: j <= m < i ==> Less(x, t[m])
    {
      res[j] := res[j - 1];
      j := j - 1;
    }
    res[j] := x;
    InsertAt(t, x, j);
    assert res[..i + 1] == res[..j] + [x] + res[j + 1..i + 1];
  }

  lemma SortSnoc(s: seq<AbstractResource>, i: nat)
    requires i < |s|
    ensures InsertionSort(s[..i + 1]) == Insert(InsertionSort(s[..i]), s[i])
  {
    assert s[..i + 1][..i] == s[..i];
  }

  /** `Sort`: `sort.SliceStable` with `Less`, in place; the same slice is returned. */
  method Sort(res: array<AbstractResource>) returns (sorted: array<AbstractResource>)
    modifies res
    ensures sorted == res
    ensures res[..] == InsertionSort(old(res[..]))
  {
    ghost var s := res[..];
    var i := 0;
    while i < res.Length
      invariant 0 <= i <= res.Length
      invariant res[..i] == InsertionSort(s[..i])
      invariant res[i..] == s[i..]
    {
      InsertInto(res, i);
      SortSnoc(s, i);
      i := i + 1;
    }
    assert res[..] == res[..res.Length];
    assert s[..res.Length] == s;
    return res;
  }
}

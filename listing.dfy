// What the listing operations of the storage layer share: SQL LIMIT/OFFSET
// over the scanned rows, filtering a row loop, and Go's
// `sort.Slice(rows, func(i, j) bool { return rows[i].Name < rows[j].Name })`.
module Listing {

  /**
   * Go's `<` on strings: lexicographic comparison, a proper prefix being
   * smaller. (Go compares UTF-8 bytes; UTF-8 preserves code point order, so
   * comparing code points gives the same answer.)
   */
  predicate Less(a: string, b: string)
    decreases |a|
  {
    if a == [] then b != []
    else if b == [] then false
    else if a[0] != b[0] then a[0] < b[0]
    else Less(a[1..], b[1..])
  }

  /**
   * Position `k` decides `a < b`: the strings agree before `k`, and there
   * `a` ends while `b` goes on, or `a` has the smaller character.
   */
  predicate DecidesAt(a: string, b: string, k: int)
  {
    && 0 <= k <= |a| && k <= |b| && a[..k] == b[..k]
    && ((k == |a| && k < |b|) || (k < |a| && k < |b| && a[k] < b[k]))
  }

  /** `Less` is the lexicographic order: a proper prefix, or a smaller character at the first difference. */
  lemma {:induction false} LessIsLexicographic(a: string, b: string)
    ensures Less(a, b) <==> exists k :: DecidesAt(a, b, k)
    decreases |a|
  {
    if a != [] && b != [] && a[0] == b[0] {
      LessIsLexicographic(a[1..], b[1..]);
      if Less(a, b) {
        var k :| DecidesAt(a[1..], b[1..], k);
        assert a[..k + 1] == [a[0]] + a[1..][..k];
        assert b[..k + 1] == [b[0]] + b[1..][..k];
        assert DecidesAt(a, b, k + 1);
      }
      if exists k :: DecidesAt(a, b, k) {
        var k :| DecidesAt(a, b, k);
        assert k != 0;
        assert a[1..][..k - 1] == a[..k][1..];
        assert b[1..][..k - 1] == b[..k][1..];
        assert DecidesAt(a[1..], b[1..], k - 1);
      }
    } else {
      if Less(a, b) {
        assert DecidesAt(a, b, 0);
      }
      if a != [] && b != [] && exists k :: DecidesAt(a, b, k) {
        var k :| DecidesAt(a, b, k);
        assert k == 0 || a[..k][0] == b[..k][0];
      }
    }
  }

  /** "a sorts no later than b": the negation of `b < a`. */
  predicate Leq(a: string, b: string)
  {
    !Less(b, a)
  }

  lemma {:induction false} LessIrreflexive(a: string)
    ensures !Less(a, a)
    decreases |a|
  {
    if a != [] {
      LessIrreflexive(a[1..]);
    }
  }

  lemma {:induction false} LessAsymmetric(a: string, b: string)
    requires Less(a, b)
    ensures !Less(b, a)
    decreases |a|
  {
    if a != [] && b != [] && a[0] == b[0] {
      LessAsymmetric(a[1..], b[1..]);
    }
  }

  lemma {:induction false} LessTotal(a: string, b: string)
    requires a != b
    ensures Less(a, b) || Less(b, a)
    decreases |a|
  {
    if a != [] && b != [] && a[0] == b[0] {
      assert a == [a[0]] + a[1..] && b == [b[0]] + b[1..];
      LessTotal(a[1..], b[1..]);
    }
  }

  lemma {:induction false} LessTransitive(a: string, b: string, c: string)
    requires Less(a, b) && Less(b, c)
    ensures Less(a, c)
    decreases |a|
  {
    if a != [] && b != [] && c != [] && a[0] == b[0] && b[0] == c[0] {
      LessTransitive(a[1..], b[1..], c[1..]);
    }
  }

  /** The comparator of sort.Slice induces a total preorder: `Leq` chains. */
  lemma LeqTransitive(a: string, b: string, c: string)
    requires Leq(a, b) && Leq(b, c)
    ensures Leq(a, c)
  {
    if Less(c, a) && a != b {
      if Less(a, b) {
        LessTransitive(c, a, b);
      } else {
        LessTotal(a, b);
      }
    }
  }

  /** Rows in name-ascending order, as sort.Slice with `Name <` leaves them. */
  ghost predicate SortedByName<T>(s: seq<T>, name: T -> string)
  {
    forall i, j :: 0 <= i < j < |s| ==> Leq(name(s[i]), name(s[j]))
  }

  /** The rows of `s` that `keep` accepts, in order. */
  function Filter<T(!new)>(s: seq<T>, keep: T -> bool): (r: seq<T>)
    ensures |r| <= |s|
    ensures forall x :: x in r <==> x in s && keep(x)
    ensures forall x :: x in r ==> keep(x)
    ensures forall x :: multiset(r)[x] == if keep(x) then multiset(s)[x] else 0
  {
    if s == [] then []
    else
      var init := Filter(s[..|s| - 1], keep);
      var last := s[|s| - 1];
      assert s == s[..|s| - 1] + [last];
      if keep(last) then init + [last] else init
  }

  /** Filtering reads the rows in order: a row appended to the input is kept at the end or dropped. */
  lemma FilterAppend<T(!new)>(s: seq<T>, x: T, keep: T -> bool)
    ensures Filter(s + [x], keep) == Filter(s, keep) + (if keep(x) then [x] else [])
  {
    assert (s + [x])[..|s|] == s;
  }

  /** The filter keeps one row per index of `s` whose row is accepted. */
  lemma {:induction false} FilterCount<T(!new)>(s: seq<T>, keep: T -> bool)
    ensures |Filter(s, keep)| == |AcceptedIndices(s, keep)|
  {
    if s != [] {
      var init := s[..|s| - 1];
      var last := s[|s| - 1];
      assert s == init + [last];
      FilterCount(init, keep);
      FilterAppend(init, last, keep);
      AcceptedIndicesAppend(init, last, keep);
      assert |init| !in AcceptedIndices(init, keep);
    }
  }

  /** The indices of the rows of `s` that `keep` accepts. */
  ghost function AcceptedIndices<T>(s: seq<T>, keep: T -> bool): set<int>
  {
    set i | 0 <= i < |s| && keep(s[i])
  }

  lemma AcceptedIndicesAppend<T>(s: seq<T>, x: T, keep: T -> bool)
    ensures AcceptedIndices(s + [x], keep) == AcceptedIndices(s, keep) + (if keep(x) then {|s|} else {})
  {
    forall i | 0 <= i < |s|
      ensures (s + [x])[i] == s[i]
    {
    }
  }

  /**
   * SQL `LIMIT limit OFFSET offset` over the rows in scan order: at most
   * `limit` consecutive rows, starting at row `offset`.
   */
  function Window<T>(rows: seq<T>, limit: nat, offset: nat): (w: seq<T>)
    ensures |w| == if offset >= |rows| then 0 else Min(limit, |rows| - offset)
    ensures forall i :: 0 <= i < |w| ==> w[i] == rows[offset + i]
    ensures forall x :: x in w ==> x in rows
  {
    if offset >= |rows| then [] else rows[offset..offset + Min(limit, |rows| - offset)]
  }

  function Min(a: int, b: int): int { if a <= b then a else b }

  /** `n` copies of `x`: one joined row per matching membership. */
  function Repeat<T>(x: T, n: nat): (r: seq<T>)
    ensures |r| == n
    ensures forall i :: 0 <= i < n ==> r[i] == x
  {
    if n == 0 then [] else Repeat(x, n - 1) + [x]
  }

  /**
   * sort.Slice over a Go slice, by name: the array ends name-ascending and
   * holds the same rows (sort.Slice is not stable; neither result order of
   * equal names is promised, and this contract promises none).
   */
  method SortByName<T>(a: array<T>, name: T -> string)
    modifies a
    ensures SortedByName(a[..], name)
    ensures multiset(a[..]) == old(multiset(a[..]))
  {
    if a.Length == 0 {
      return;
    }
    var i := 1;
    while i < a.Length
      invariant 1 <= i <= a.Length
      invariant forall p, q :: 0 <= p < q < i && q < a.Length ==> Leq(name(a[p]), name(a[q]))
      invariant multiset(a[..]) == old(multiset(a[..]))
    {
      InsertAt(a, i, name);
      i := i + 1;
    }
  }

  /** One step of insertion sort: sinks a[i] into the sorted prefix a[..i]. */
  method InsertAt<T>(a: array<T>, i: nat, name: T -> string)
    requires 1 <= i < a.Length
    requires forall p, q :: 0 <= p < q < i ==> Leq(name(a[p]), name(a[q]))
    modifies a
    ensures forall p, q :: 0 <= p < q <= i ==> Leq(name(a[p]), name(a[q]))
    ensures forall k :: i < k < a.Length ==> a[k] == old(a[k])
    ensures multiset(a[..]) == old(multiset(a[..]))
  {
    var j := i;
    while j > 0 && Less(name(a[j]), name(a[j - 1]))
      invariant 0 <= j <= i
      invariant forall p, q :: 0 <= p < q <= i && p != j && q != j ==> Leq(name(a[p]), name(a[q]))
      invariant forall q :: j < q <= i ==> Less(name(a[j]), name(a[q]))
      invariant forall k :: i < k < a.Length ==> a[k] == old(a[k])
      invariant multiset(a[..]) == old(multiset(a[..]))
    {
      a[j - 1], a[j] := a[j], a[j - 1];
      j := j - 1;
    }
    forall p, q | 0 <= p < q <= i
      ensures Leq(name(a[p]), name(a[q]))
    {
      if q == j {
        if p < j - 1 {
          LeqTransitive(name(a[p]), name(a[j - 1]), name(a[j]));
        }
      } else if p == j {
        LessAsymmetric(name(a[j]), name(a[q]));
      }
    }
  }
}

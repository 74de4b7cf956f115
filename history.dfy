// The append-only history tables (`tender_history`, `bid_history`): every
// mutating storage call copies the live row, at its current version, into the
// history table before bumping the version. These functions read a history
// table through `key`, which gives the (entity id, version) a row was stored
// under, so the same facts serve tenders and bids.
module History {
  import opened Models

  /** The (tender_id, version) a `tender_history` row is stored under. */
  function TenderKey(t: Tender): (string, int) { (t.id, t.version) }

  /** The (bid_id, version) a `bid_history` row is stored under. */
  function BidKey(b: Bid): (string, int) { (b.id, b.version) }

  /** The versions stored for entity `id`, in the order their rows were appended. */
  function VersionsOf<T>(h: seq<T>, key: T -> (string, int), id: string): (vs: seq<int>)
    ensures |vs| <= |h|
  {
    if h == [] then []
    else
      var last := key(h[|h| - 1]);
      VersionsOf(h[..|h| - 1], key, id) + (if last.0 == id then [last.1] else [])
  }

  /** The versions an entity now at version `n` has left behind: [1, 2, ..., n - 1]. */
  function Upto(n: int): (vs: seq<int>)
    ensures |vs| == if n <= 1 then 0 else n - 1
    ensures forall i :: 0 <= i < |vs| ==> vs[i] == i + 1
    decreases n
  {
    if n <= 1 then [] else Upto(n - 1) + [n - 1]
  }

  /** Number of history rows stored for entity `id` at version `v`. */
  function CountRows<T>(h: seq<T>, key: T -> (string, int), id: string, v: int): nat
  {
    if h == [] then 0
    else CountRows(h[..|h| - 1], key, id, v) + (if key(h[|h| - 1]) == (id, v) then 1 else 0)
  }

  /** The existence test of GetVersion: some row is stored under (id, v). */
  predicate HasVersion<T>(h: seq<T>, key: T -> (string, int), id: string, v: int)
  {
    exists i :: 0 <= i < |h| && key(h[i]) == (id, v)
  }

  /** The row the rollback query reads: the first one stored under (id, v). */
  function FindVersion<T>(h: seq<T>, key: T -> (string, int), id: string, v: int): (r: Option<T>)
    ensures r.Some? ==> r.value in h && key(r.value) == (id, v)
    ensures r.None? <==> !HasVersion(h, key, id, v)
  {
    if h == [] then None
    else if key(h[0]) == (id, v) then Some(h[0])
    else
      var r := FindVersion(h[1..], key, id, v);
      assert HasVersion(h[1..], key, id, v) ==> HasVersion(h, key, id, v) by {
        if HasVersion(h[1..], key, id, v) {
          var i :| 0 <= i < |h[1..]| && key(h[1..][i]) == (id, v);
          assert key(h[i + 1]) == (id, v);
        }
      }
      r
  }

  /** Appending one row extends the version list of its own entity only. */
  lemma VersionsOfAppend<T>(h: seq<T>, key: T -> (string, int), id: string, x: T)
    ensures VersionsOf(h + [x], key, id)
         == VersionsOf(h, key, id) + (if key(x).0 == id then [key(x).1] else [])
  {
    assert (h + [x])[..|h|] == h;
  }

  /** An entity with no rows in the table has no recorded versions. */
  lemma {:induction false} VersionsOfAbsent<T>(h: seq<T>, key: T -> (string, int), id: string)
    requires forall i :: 0 <= i < |h| ==> key(h[i]).0 != id
    ensures VersionsOf(h, key, id) == []
  {
    if h != [] {
      VersionsOfAbsent(h[..|h| - 1], key, id);
    }
  }

  /** Counting rows stored under (id, v) is counting v among the versions of id. */
  lemma {:induction false} CountRowsIsMultiplicity<T>(h: seq<T>, key: T -> (string, int), id: string, v: int)
    ensures CountRows(h, key, id, v) == multiset(VersionsOf(h, key, id))[v]
  {
    if h != [] {
      CountRowsIsMultiplicity(h[..|h| - 1], key, id, v);
    }
  }

  /** Each of 1..n-1 occurs once in Upto(n), and nothing else occurs. */
  lemma {:induction false} UptoMultiplicity(n: int, v: int)
    ensures multiset(Upto(n))[v] == if 1 <= v < n then 1 else 0
    decreases n
  {
    if n > 1 {
      UptoMultiplicity(n - 1, v);
    }
  }

  /** A row is stored under (id, v) exactly when at least one is counted. */
  lemma {:induction false} HasVersionIffCounted<T>(h: seq<T>, key: T -> (string, int), id: string, v: int)
    ensures HasVersion(h, key, id, v) <==> CountRows(h, key, id, v) > 0
  {
    if h != [] {
      var init := h[..|h| - 1];
      HasVersionIffCounted(init, key, id, v);
      if HasVersion(init, key, id, v) {
        var i :| 0 <= i < |init| && key(init[i]) == (id, v);
        assert key(h[i]) == (id, v);
      }
      if HasVersion(h, key, id, v) && key(h[|h| - 1]) != (id, v) {
        var i :| 0 <= i < |h| && key(h[i]) == (id, v);
        assert key(init[i]) == (id, v);
      }
    }
  }

  /**
   * The history invariant "the versions stored for id are exactly 1..n-1, in
   * order" means each of the versions 1..n-1 is stored exactly once and no
   * other version is stored at all.
   */
  lemma HistoryHoldsEachVersionOnce<T>(h: seq<T>, key: T -> (string, int), id: string, n: int, v: int)
    requires VersionsOf(h, key, id) == Upto(n)
    ensures CountRows(h, key, id, v) == if 1 <= v < n then 1 else 0
  {
    CountRowsIsMultiplicity(h, key, id, v);
    UptoMultiplicity(n, v);
  }

  /** Under the history invariant, GetVersion succeeds exactly for 1 <= v < n. */
  lemma VersionExistsIff<T>(h: seq<T>, key: T -> (string, int), id: string, n: int, v: int)
    requires VersionsOf(h, key, id) == Upto(n)
    ensures HasVersion(h, key, id, v) <==> 1 <= v < n
  {
    HistoryHoldsEachVersionOnce(h, key, id, n, v);
    HasVersionIffCounted(h, key, id, v);
  }
}

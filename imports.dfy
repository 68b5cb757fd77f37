/**
 * What the import readers share: the values they keep from a sequence of
 * entries (the data lines of a CSV file, the items of a JSON array), in
 * order, each entry yielding at most one value.
 */
module Imports {
  import opened Wrappers

  /** What a reader keeps of `entries`, in order: the value `read` yields for each entry that yields one. */
  function Collect<S, T>(entries: seq<S>, read: S -> Option<T>): (r: seq<T>)
    ensures |r| <= |entries|
    decreases |entries|
  {
    if entries == [] then []
    else
      var prev := Collect(entries[..|entries| - 1], read);
      match read(entries[|entries| - 1])
      case None => prev
      case Some(x) => prev + [x]
  }

  /** Reading one more entry adds what it yields, if anything. */
  lemma CollectStep<S, T>(entries: seq<S>, i: nat, read: S -> Option<T>)
    requires i < |entries|
    ensures Collect(entries[..i + 1], read)
         == Collect(entries[..i], read) + (if read(entries[i]).Some? then [read(entries[i]).value] else [])
  {
    assert entries[..i + 1][..i] == entries[..i];
  }

  /** Every value kept is one some entry yields. */
  lemma {:induction false} CollectFrom<S, T>(entries: seq<S>, read: S -> Option<T>, k: nat)
    requires k < |Collect(entries, read)|
    ensures exists j :: 0 <= j < |entries| && read(entries[j]) == Some(Collect(entries, read)[k])
    decreases |entries|
  {
    var prev := Collect(entries[..|entries| - 1], read);
    if k < |prev| {
      CollectFrom(entries[..|entries| - 1], read, k);
      var j :| 0 <= j < |entries| - 1 && read(entries[..|entries| - 1][j]) == Some(prev[k]);
      assert entries[..|entries| - 1][j] == entries[j];
    } else {
      assert read(entries[|entries| - 1]) == Some(Collect(entries, read)[k]);
    }
  }

  // ---------------------------------------------------------------------------
  // A run of saves

  /**
   * The rows a run of `save` calls appends, one call per candidate in
   * order. `taken(table, c)` is the repository's existence test, which
   * refuses `c` (-1) when the table (rows saved earlier in the run
   * included) already holds it; `withId(c, id)` is `c` stored under `id`.
   * The others are appended under consecutive ids from `nextId`.
   */
  function SaveMany<T>(rows: seq<T>, nextId: int, cands: seq<T>, taken: (seq<T>, T) -> bool, withId: (T, int) -> T)
    : (saved: seq<T>)
    ensures |saved| <= |cands|
    decreases |cands|
  {
    if cands == [] then []
    else SaveNext(rows, nextId, SaveMany(rows, nextId, cands[..|cands| - 1], taken, withId), cands[|cands| - 1], taken, withId)
  }

  /** One `save` after the rows `before` of a run were saved. */
  function SaveNext<T>(rows: seq<T>, nextId: int, before: seq<T>, c: T, taken: (seq<T>, T) -> bool, withId: (T, int) -> T)
    : seq<T>
  {
    if taken(rows + before, c) then before else before + [withId(c, nextId + |before|)]
  }

  /** The positions of the candidates a run saves, in order. */
  function SavedIndices<T>(rows: seq<T>, nextId: int, cands: seq<T>, taken: (seq<T>, T) -> bool, withId: (T, int) -> T)
    : seq<nat>
    decreases |cands|
  {
    if cands == [] then []
    else
      var n := |cands| - 1;
      var idx := SavedIndices(rows, nextId, cands[..n], taken, withId);
      if taken(rows + SaveMany(rows, nextId, cands[..n], taken, withId), cands[n]) then idx else idx + [n]
  }

  /** One more `save` at the end of a run. */
  lemma SaveManyStep<T>(rows: seq<T>, nextId: int, cands: seq<T>, c: T, taken: (seq<T>, T) -> bool, withId: (T, int) -> T)
    ensures SaveMany(rows, nextId, cands + [c], taken, withId)
         == SaveNext(rows, nextId, SaveMany(rows, nextId, cands, taken, withId), c, taken, withId)
  {
    assert (cands + [c])[..|cands|] == cands;
  }

  /**
   * `saved` is what a run of saves over `cands` appends, and `idx` says
   * which candidates were saved: strictly increasing positions, the k-th
   * saved row being candidate `idx[k]` under id `nextId + k`, not taken in
   * the table as it then stood; every other candidate was taken in the
   * table as it stood when its turn came.
   */
  ghost predicate SavedInOrder<T>(rows: seq<T>, nextId: int, cands: seq<T>, saved: seq<T>,
                            taken: (seq<T>, T) -> bool, withId: (T, int) -> T, idx: seq<nat>)
  {
    && |idx| == |saved|
    && (forall k :: 0 <= k < |idx| ==> idx[k] < |cands|)
    && (forall k, l :: 0 <= k < l < |idx| ==> idx[k] < idx[l])
    && (forall k :: 0 <= k < |idx| ==>
          saved[k] == withId(cands[idx[k]], nextId + k) && !taken(rows + saved[..k], cands[idx[k]]))
    && (forall j :: 0 <= j < |cands| && j !in idx ==> exists m :: 0 <= m <= |idx| && RefusedAt(rows, cands, saved, taken, idx, j, m))
  }

  /**
   * Candidate `j` came after the first `m` saved rows and before the rest,
   * and the table holding those `m` rows already had it.
   */
  predicate RefusedAt<T>(rows: seq<T>, cands: seq<T>, saved: seq<T>, taken: (seq<T>, T) -> bool, idx: seq<nat>, j: nat, m: nat)
    requires j < |cands| && |idx| == |saved|
  {
    && m <= |idx|
    && (forall k :: 0 <= k < m ==> idx[k] < j)
    && (forall k :: m <= k < |idx| ==> j < idx[k])
    && taken(rows + saved[..m], cands[j])
  }

  /**
   * A run of saves keeps the candidates' order, saves every candidate that
   * is not taken when its turn comes, under consecutive ids, and refuses
   * exactly the others.
   */
  lemma {:induction false} SaveManyFacts<T>(rows: seq<T>, nextId: int, cands: seq<T>,
                                            taken: (seq<T>, T) -> bool, withId: (T, int) -> T)
    ensures SavedInOrder(rows, nextId, cands, SaveMany(rows, nextId, cands, taken, withId), taken, withId,
                         SavedIndices(rows, nextId, cands, taken, withId))
    decreases |cands|
  {
    if cands != [] {
      var n := |cands| - 1;
      var before := SaveMany(rows, nextId, cands[..n], taken, withId);
      var idx := SavedIndices(rows, nextId, cands[..n], taken, withId);
      SaveManyFacts(rows, nextId, cands[..n], taken, withId);
      SaveNextInOrder(rows, nextId, cands, before, taken, withId, idx);
      assert SaveMany(rows, nextId, cands, taken, withId) == SaveNext(rows, nextId, before, cands[n], taken, withId);
      assert SavedIndices(rows, nextId, cands, taken, withId)
          == if taken(rows + before, cands[n]) then idx else idx + [n];
    }
  }

  /** The last save of a run extends what the earlier ones established. */
  lemma SaveNextInOrder<T>(rows: seq<T>, nextId: int, cands: seq<T>, before: seq<T>,
                           taken: (seq<T>, T) -> bool, withId: (T, int) -> T, idx: seq<nat>)
    requires cands != []
    requires SavedInOrder(rows, nextId, cands[..|cands| - 1], before, taken, withId, idx)
    ensures var c := cands[|cands| - 1];
      SavedInOrder(rows, nextId, cands, SaveNext(rows, nextId, before, c, taken, withId), taken, withId,
                   if taken(rows + before, c) then idx else idx + [|cands| - 1])
  {
    if taken(rows + before, cands[|cands| - 1]) {
      RefusedLast(rows, nextId, cands, before, taken, withId, idx);
    } else {
      SavedLast(rows, nextId, cands, before, taken, withId, idx);
    }
  }

  /** A last candidate that is taken adds nothing and is refused after every saved row. */
  lemma RefusedLast<T>(rows: seq<T>, nextId: int, cands: seq<T>, before: seq<T>,
                       taken: (seq<T>, T) -> bool, withId: (T, int) -> T, idx: seq<nat>)
    requires cands != [] && taken(rows + before, cands[|cands| - 1])
    requires SavedInOrder(rows, nextId, cands[..|cands| - 1], before, taken, withId, idx)
    ensures SavedInOrder(rows, nextId, cands, before, taken, withId, idx)
  {
    var n := |cands| - 1;
    assert forall i :: 0 <= i < n ==> cands[..n][i] == cands[i];
    assert n !in idx;
    assert RefusedAt(rows, cands, before, taken, idx, n, |idx|) by {
      assert before[..|idx|] == before;
    }
    forall j | 0 <= j < n && j !in idx
      ensures exists m :: 0 <= m <= |idx| && RefusedAt(rows, cands, before, taken, idx, j, m)
    {
      var m :| 0 <= m <= |idx| && RefusedAt(rows, cands[..n], before, taken, idx, j, m);
      assert RefusedAt(rows, cands, before, taken, idx, j, m);
    }
  }

  /** A last candidate that is not taken is appended under the next id. */
  lemma SavedLast<T>(rows: seq<T>, nextId: int, cands: seq<T>, before: seq<T>,
                     taken: (seq<T>, T) -> bool, withId: (T, int) -> T, idx: seq<nat>)
    requires cands != [] && !taken(rows + before, cands[|cands| - 1])
    requires SavedInOrder(rows, nextId, cands[..|cands| - 1], before, taken, withId, idx)
    ensures SavedInOrder(rows, nextId, cands, before + [withId(cands[|cands| - 1], nextId + |before|)],
                         taken, withId, idx + [|cands| - 1])
  {
    var n := |cands| - 1;
    var saved := before + [withId(cands[n], nextId + |before|)];
    var idx' := idx + [n];
    assert forall i :: 0 <= i < n ==> cands[..n][i] == cands[i];
    forall k | 0 <= k < |idx'|
      ensures saved[k] == withId(cands[idx'[k]], nextId + k) && !taken(rows + saved[..k], cands[idx'[k]])
    {
      if k < |idx| {
        assert saved[k] == before[k] && saved[..k] == before[..k];
      } else {
        assert saved[..k] == before;
      }
    }
    forall j | 0 <= j < |cands| && j !in idx'
      ensures exists m :: 0 <= m <= |idx'| && RefusedAt(rows, cands, saved, taken, idx', j, m)
    {
      var m :| 0 <= m <= |idx| && RefusedAt(rows, cands[..n], before, taken, idx, j, m);
      assert saved[..m] == before[..m];
      assert RefusedAt(rows, cands, saved, taken, idx', j, m);
    }
  }
}

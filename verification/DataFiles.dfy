/** Which of the data files on disk is the most recent one. */
module DataFiles {
  import opened TxIds

  // ids is no further behind `now` than the comparison can resolve.
  ghost predicate InWindow(now: TxId, ids: set<TxId>) {
    forall id :: id in ids ==> Age(now, id) < HALF
  }

  ghost predicate OldestFirst(now: TxId, infos: seq<TxId>) {
    forall i, j :: 0 <= i < j < |infos| ==> Age(now, infos[i]) >= Age(now, infos[j])
  }

  ghost predicate Distinct(infos: seq<TxId>) {
    forall i, j :: 0 <= i < j < |infos| ==> infos[i] != infos[j]
  }

  ghost predicate IsNewest(ids: set<TxId>, id: TxId) {
    id in ids && forall other :: other in ids ==> IsTxIDLessEqual(other, id)
  }

  ghost function Newest(ids: set<TxId>): (id: TxId)
    requires ids != {}
    ensures id in ids
  {
    if exists a: TxId :: IsNewest(ids, a) then
      var a: TxId :| IsNewest(ids, a); a
    else
      var a :| a in ids; a
  }

  // sort.Slice with isTxIDLessEqual as its `less`: the insertion sort that
  // the library runs on short slices.
  function InsertDataFileInfo(infos: seq<TxId>, id: TxId): seq<TxId> {
    if |infos| == 0 then [id]
    else
      var n := |infos| - 1;
      if IsTxIDLessEqual(id, infos[n])
      then InsertDataFileInfo(infos[..n], id) + [infos[n]]
      else infos + [id]
  }

  function SortDataFileInfos(infos: seq<TxId>): seq<TxId> {
    if |infos| == 0 then []
    else InsertDataFileInfo(SortDataFileInfos(infos[..|infos| - 1]), infos[|infos| - 1])
  }

  lemma {:induction false} InsertKeepsFiles(infos: seq<TxId>, id: TxId)
    ensures var r := InsertDataFileInfo(infos, id);
      && |r| == |infos| + 1
      && (forall x :: x in r <==> x in infos || x == id)
      && (Distinct(infos) && id !in infos ==> Distinct(r))
  {
    if |infos| == 0 {
    } else {
      var n := |infos| - 1;
      assert infos == infos[..n] + [infos[n]];
      assert Distinct(infos) ==> infos[n] !in infos[..n];
      if IsTxIDLessEqual(id, infos[n]) {
        InsertKeepsFiles(infos[..n], id);
      }
    }
  }

  lemma {:induction false} InsertKeepsOrder(now: TxId, infos: seq<TxId>, id: TxId)
    requires OldestFirst(now, infos)
    requires forall x :: x in infos ==> Age(now, x) < HALF
    requires Age(now, id) < HALF
    ensures OldestFirst(now, InsertDataFileInfo(infos, id))
  {
    if |infos| == 0 {
    } else {
      var n := |infos| - 1;
      OrderByAge(now, id, infos[n]);
      if IsTxIDLessEqual(id, infos[n]) {
        InsertKeepsOrder(now, infos[..n], id);
        InsertKeepsFiles(infos[..n], id);
        var r := InsertDataFileInfo(infos[..n], id);
        forall x | x in r ensures Age(now, x) >= Age(now, infos[n]) {
        }
      } else {
        forall i | 0 <= i < |infos| ensures Age(now, infos[i]) >= Age(now, id) {
        }
      }
    }
  }

  // Within a window the sorted list is the same files, oldest checkpoint
  // first, even across a rollover.
  lemma {:induction false} SortIsOldestFirst(now: TxId, infos: seq<TxId>)
    requires forall x :: x in infos ==> Age(now, x) < HALF
    ensures var r := SortDataFileInfos(infos);
      && OldestFirst(now, r)
      && |r| == |infos|
      && (forall x :: x in r <==> x in infos)
      && (Distinct(infos) ==> Distinct(r))
  {
    if |infos| == 0 {
    } else {
      var n := |infos| - 1;
      assert infos == infos[..n] + [infos[n]];
      SortIsOldestFirst(now, infos[..n]);
      InsertKeepsFiles(SortDataFileInfos(infos[..n]), infos[n]);
      InsertKeepsOrder(now, SortDataFileInfos(infos[..n]), infos[n]);
    }
  }

  lemma LastOfBoth(now: TxId, a: seq<TxId>, b: seq<TxId>)
    requires |a| == |b| > 0 && forall x :: x in a <==> x in b
    requires OldestFirst(now, a) && OldestFirst(now, b)
    ensures a[|a| - 1] == b[|b| - 1]
  {
    hide Age;
    var n := |a| - 1;
    assert a[n] in b && b[n] in a;
    assert Age(now, a[n]) == Age(now, b[n]);
    AgeInjective(now, a[n], b[n]);
  }

  lemma AllButLast(a: seq<TxId>)
    requires |a| > 0 && Distinct(a)
    ensures var n := |a| - 1;
      a == a[..n] + [a[n]] && Distinct(a[..n]) && forall x :: x in a[..n] <==> x in a && x != a[n]
  {
  }

  // Two lists of the same files, both oldest first, are the same list.
  lemma {:induction false} OldestFirstIsUnique(now: TxId, a: seq<TxId>, b: seq<TxId>)
    requires |a| == |b| && Distinct(a) && Distinct(b) && forall x :: x in a <==> x in b
    requires OldestFirst(now, a) && OldestFirst(now, b)
    ensures a == b
  {
    hide Age, Distinct;
    if |a| == 0 {
    } else {
      LastOfBoth(now, a, b);
      AllButLast(a);
      AllButLast(b);
      OldestFirstIsUnique(now, a[..|a| - 1], b[..|b| - 1]);
    }
  }

  // Any algorithm that orders the files by the comparison gives this list, so
  // it does not matter which one the library picks.
  lemma EverySortAgrees(now: TxId, infos: seq<TxId>, sorted: seq<TxId>)
    requires forall x :: x in infos ==> Age(now, x) < HALF
    requires Distinct(infos) && Distinct(sorted) && |sorted| == |infos| && forall x :: x in sorted <==> x in infos
    requires forall i, j :: 0 <= i < j < |sorted| ==> IsTxIDLessEqual(sorted[i], sorted[j])
    ensures sorted == SortDataFileInfos(infos)
  {
    hide Age, IsTxIDLessEqual, SortDataFileInfos;
    SortIsOldestFirst(now, infos);
    forall i, j | 0 <= i < j < |sorted| ensures Age(now, sorted[i]) >= Age(now, sorted[j]) {
      OrderByAge(now, sorted[i], sorted[j]);
    }
    OldestFirstIsUnique(now, sorted, SortDataFileInfos(infos));
  }

  lemma NewestByAge(now: TxId, ids: set<TxId>, id: TxId)
    requires InWindow(now, ids) && id in ids
    requires forall other :: other in ids ==> Age(now, other) >= Age(now, id)
    ensures Newest(ids) == id
  {
    hide Age, IsTxIDLessEqual;
    forall other | other in ids ensures IsTxIDLessEqual(other, id) {
      OrderByAge(now, other, id);
    }
    assert IsNewest(ids, id);
    var n := Newest(ids);
    OrderByAge(now, id, n);
    AgeInjective(now, id, n);
  }

  // The last element after sorting is the most recent checkpoint and all
  // others are strictly older.
  lemma LastOfSortedIsNewest(now: TxId, infos: seq<TxId>, ids: set<TxId>)
    requires InWindow(now, ids) && ids != {} && Distinct(infos)
    requires forall id :: id in ids <==> id in infos
    ensures var r := SortDataFileInfos(infos);
      && |r| > 0
      && r[|r| - 1] == Newest(ids)
      && (forall id :: id in ids <==> id == Newest(ids) || id in r[..|r| - 1])
      && (forall id :: id in r[..|r| - 1] ==> Age(now, id) > Age(now, Newest(ids)))
  {
    hide Age, IsTxIDLessEqual, SortDataFileInfos;
    SortIsOldestFirst(now, infos);
    var r := SortDataFileInfos(infos);
    var first :| first in ids;
    assert first in r;
    var n := |r| - 1;
    assert r == r[..n] + [r[n]];
    assert r[n] in r;
    NewestByAge(now, ids, r[n]);
    forall id | id in r[..n] ensures Age(now, id) > Age(now, r[n]) {
      var i :| 0 <= i < n && r[i] == id;
      if Age(now, id) == Age(now, r[n]) {
        AgeInjective(now, id, r[n]);
      }
    }
  }
}

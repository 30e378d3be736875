/**
 * Properties that relate several `SampleUserManager` operations: the
 * uniqueness invariant they keep, what a lookup sees after each mutation,
 * and the paging behaviour of `getUsers`.
 */
module UserStoreProps {
  import opened Wrappers
  import Password
  import opened UserStore

  /** No two live rows share a `user_id`. */
  predicate UniqueLive(t: Table) {
    forall i, j :: 0 <= i < j < |t| && !t[i].deleted && !t[j].deleted ==> t[i].userId != t[j].userId
  }

  lemma {:induction false} SelectEmptyWithoutMatch(t: Table, id: string, includeDeleted: bool)
    requires forall i :: 0 <= i < |t| ==> !Matches(t[i], id, includeDeleted)
    ensures Select(t, id, includeDeleted) == []
  {
    if t != [] {
      assert !Matches(t[0], id, includeDeleted);
      assert forall i :: 0 <= i < |t[1..]| ==> t[1..][i] == t[i + 1];
      SelectEmptyWithoutMatch(t[1..], id, includeDeleted);
    }
  }

  /** `createUser` keeps live ids unique: it only appends when the id has no live row. */
  lemma CreatePreservesUnique(t: Table, id: string, name: string, password: string, salt: nat)
    requires UniqueLive(t)
    ensures UniqueLive(CreateUser(t, id, name, password, salt).table)
  {
    var t' := CreateUser(t, id, name, password, salt).table;
    if !HasLive(t, id) {
      forall i, j | 0 <= i < j < |t'| && !t'[i].deleted && !t'[j].deleted
        ensures t'[i].userId != t'[j].userId
      {
        if j == |t| {
          assert t'[i] == t[i];
          assert !Matches(t[i], id, false);
        } else {
          assert t'[i] == t[i] && t'[j] == t[j];
        }
      }
    }
  }

  /** `updateUser` never touches ids or deletion flags, so it keeps live ids unique. */
  lemma UpdatePreservesUnique(t: Table, id: string, name: string, profile: string)
    requires UniqueLive(t)
    ensures UniqueLive(UpdateUser(t, id, name, profile).table)
  {
    var t' := UpdateUser(t, id, name, profile).table;
    forall i, j | 0 <= i < j < |t'| && !t'[i].deleted && !t'[j].deleted
      ensures t'[i].userId != t'[j].userId
    {
      assert t'[i].userId == t[i].userId && t'[i].deleted == t[i].deleted;
      assert t'[j].userId == t[j].userId && t'[j].deleted == t[j].deleted;
    }
  }

  /** `deleteUser` only sets deletion flags, so it keeps live ids unique. */
  lemma DeletePreservesUnique(t: Table, id: string)
    requires UniqueLive(t)
    ensures UniqueLive(DeleteUser(t, id).table)
  {
    var t' := DeleteUser(t, id).table;
    forall i, j | 0 <= i < j < |t'| && !t'[i].deleted && !t'[j].deleted
      ensures t'[i].userId != t'[j].userId
    {
      assert t'[i].userId == t[i].userId && !t[i].deleted;
      assert t'[j].userId == t[j].userId && !t[j].deleted;
    }
  }

  /** After a successful `createUser`, `getUser` finds exactly the new row. */
  lemma CreateThenGet(t: Table, id: string, name: string, password: string, salt: nat)
    requires !HasLive(t, id)
    ensures var t' := CreateUser(t, id, name, password, salt).table;
      GetUser(t', id) == Succeeded("", [t'[|t|]])
      && t'[|t|].userName == name && Password.Verify(password, t'[|t|].pwHash)
  {
    var t' := CreateUser(t, id, name, password, salt).table;
    assert t' == t + [t'[|t|]];
    SelectEmptyWithoutMatch(t, id, false);
    SelectAppend(t, [t'[|t|]], id, false);
    assert Select([t'[|t|]], id, false) == [t'[|t|]];
  }

  /** Creating the same id twice: the second attempt is the duplicate alert and one live row remains. */
  lemma CreateTwice(t: Table, id: string, n1: string, p1: string, s1: nat, n2: string, p2: string, s2: nat)
    requires !HasLive(t, id)
    ensures var first := CreateUser(t, id, n1, p1, s1);
      var second := CreateUser(first.table, id, n2, p2, s2);
      second.result == Alerted(DuplicateMessage)
      && second.table == first.table
      && |Select(second.table, id, false)| == 1
  {
    var first := CreateUser(t, id, n1, p1, s1);
    CreateThenGet(t, id, n1, p1, s1);
    assert first.table[|t|] in first.table;
    assert Matches(first.table[|t|], id, false);
  }

  lemma {:induction false} SelectAfterDelete(t: Table, id: string)
    ensures var before := Select(t, id, true);
      var after := Select(DeleteRows(t, id), id, true);
      |after| == |before| && forall k :: 0 <= k < |after| ==> after[k] == before[k].(deleted := true)
  {
    if t != [] {
      SelectAfterDelete(t[1..], id);
      assert DeleteRows(t, id)[1..] == DeleteRows(t[1..], id);
    }
  }

  /**
   * After `deleteUser`, the default lookup fails while the lookup that
   * includes deleted rows returns the same rows, now marked deleted.
   */
  lemma DeleteThenGet(t: Table, id: string)
    ensures var t' := DeleteUser(t, id).table;
      GetUser(t', id) == Alerted(NotFoundMessage)
      && GetUser(t', id, true).IsSucceed() == GetUser(t, id, true).IsSucceed()
      && (GetUser(t, id, true).IsSucceed() ==>
            |GetUser(t', id, true).data| == |GetUser(t, id, true).data|
            && forall k :: 0 <= k < |GetUser(t', id, true).data| ==>
                 GetUser(t', id, true).data[k] == GetUser(t, id, true).data[k].(deleted := true))
  {
    var t' := DeleteUser(t, id).table;
    SelectAfterDelete(t, id);
    forall i | 0 <= i < |t'| ensures !Matches(t'[i], id, false) {
      assert t'[i] == MarkDeleted(t[i], id);
    }
    assert Select(t', id, true) == Select(DeleteRows(t, id), id, true);
  }

  /** `deleteUser` is idempotent. */
  lemma DeleteIdempotent(t: Table, id: string)
    ensures var once := DeleteUser(t, id);
      DeleteUser(once.table, id) == once
  {
    var once := DeleteUser(t, id);
    var twice := DeleteUser(once.table, id);
    assert twice.table == once.table;
  }

  /**
   * A soft-deleted id can be registered again: `createUser` succeeds and the
   * table then holds one more row with that id.
   */
  lemma RecreateAfterDelete(t: Table, id: string, name: string, password: string, salt: nat)
    ensures var t1 := DeleteUser(t, id).table;
      var r := CreateUser(t1, id, name, password, salt);
      r.result.IsSucceed()
      && |Select(r.table, id, true)| == |Select(t, id, true)| + 1
  {
    var t1 := DeleteUser(t, id).table;
    DeleteThenGet(t, id);
    SelectAfterDelete(t, id);
    var r := CreateUser(t1, id, name, password, salt);
    assert r.table == t1 + [r.table[|t1|]];
    SelectAppend(t1, [r.table[|t1|]], id, true);
    assert Select([r.table[|t1|]], id, true) == [r.table[|t1|]];
    assert t1 == DeleteRows(t, id);
  }

  lemma {:induction false} SelectAfterUpdateOther(t: Table, id: string, other: string, name: string, profile: string, includeDeleted: bool)
    requires other != id
    ensures Select(UpdateRows(t, id, name, profile), other, includeDeleted) == Select(t, other, includeDeleted)
  {
    if t != [] {
      SelectAfterUpdateOther(t[1..], id, other, name, profile, includeDeleted);
      assert UpdateRows(t, id, name, profile)[1..] == UpdateRows(t[1..], id, name, profile);
    }
  }

  /** `updateUser` changes no lookup of any other id. */
  lemma UpdateFramesOtherIds(t: Table, id: string, name: string, profile: string, other: string, includeDeleted: bool)
    requires other != id
    ensures GetUser(UpdateUser(t, id, name, profile).table, other, includeDeleted) == GetUser(t, other, includeDeleted)
  {
    var t' := UpdateUser(t, id, name, profile).table;
    assert t' == UpdateRows(t, id, name, profile);
    SelectAfterUpdateOther(t, id, other, name, profile, includeDeleted);
  }

  /**
   * After `updateUser`, the same rows of the id are found as before (deleted
   * ones included), each carrying the new name and profile.
   */
  lemma UpdateThenGet(t: Table, id: string, name: string, profile: string, includeDeleted: bool)
    ensures var t' := UpdateUser(t, id, name, profile).table;
      GetUser(t', id, includeDeleted).IsSucceed() == GetUser(t, id, includeDeleted).IsSucceed()
      && (GetUser(t', id, includeDeleted).IsSucceed() ==>
            forall x :: x in GetUser(t', id, includeDeleted).data ==> x.userName == name && x.profile == profile)
  {
    var t' := UpdateUser(t, id, name, profile).table;
    forall i | 0 <= i < |t| ensures Matches(t'[i], id, includeDeleted) == Matches(t[i], id, includeDeleted) {
      assert t'[i].userId == t[i].userId && t'[i].deleted == t[i].deleted;
    }
    forall x | x in t' && Matches(x, id, includeDeleted) ensures x.userName == name && x.profile == profile {
      var k :| 0 <= k < |t'| && t'[k] == x;
      assert t'[k] == Rename(t[k], id, name, profile);
    }
  }

  /**
   * `getUsers` as written uses `page` as the row offset, so whenever the
   * listing reaches past the next page's first row, the second row of page
   * `page` is the first row of page `page + 1`.
   */
  lemma GetUsersPagesOverlap(t: Table, page: nat, count: nat)
    requires count >= 2 && page + 2 <= |Live(t)|
    ensures var p0 := GetUsers(t, page, count);
      var p1 := GetUsers(t, page + 1, count);
      p0.Success? && p1.Success? && |p0.value.data| >= 2 && |p1.value.data| >= 1
      && p0.value.data[1] == p1.value.data[0]
  {
    var s := SortById(Live(t));
    assert |s| == |multiset(s)| == |multiset(Live(t))| == |Live(t)|;
  }

  /** `getUsers` as written refuses to list deleted rows at all. */
  lemma GetUsersWithDeletedFails(t: Table, page: nat, count: nat)
    ensures GetUsers(t, page, count, true) == Failure(EmptyWhereError)
  {
  }

  /** `PageStart` is the product the intended query computes. */
  lemma {:induction false} PageStartIsProduct(page: nat, count: nat)
    ensures PageStart(page, count) == page * count
  {
    if page > 0 {
      PageStartIsProduct(page - 1, count);
      assert page * count == (page - 1) * count + count;
    }
  }

  lemma WindowSplit<T>(s: seq<T>, offset: nat, count: nat)
    ensures Window(s, offset, count) + Window(s, offset + count, count) == Window(s, offset, 2 * count)
  {
    var a := Window(s, offset, count);
    var b := Window(s, offset + count, count);
    var w := Window(s, offset, 2 * count);
    assert |a + b| == |w|;
    forall k | 0 <= k < |w| ensures (a + b)[k] == w[k] {
      if k < |a| {
        assert (a + b)[k] == a[k];
      } else {
        assert |a| == count;
        assert (a + b)[k] == b[k - count];
      }
    }
  }

  /** With the intended paging, consecutive pages tile the sorted listing without overlap. */
  lemma IntendedPagesTile(t: Table, page: nat, count: nat, includeDeleted: bool)
    ensures var rows := Listed(t, includeDeleted);
      GetUsersIntended(t, page, count, includeDeleted).data
        + GetUsersIntended(t, page + 1, count, includeDeleted).data
      == Window(SortById(rows), PageStart(page, count), 2 * count)
  {
    var s := SortById(Listed(t, includeDeleted));
    var off := PageStart(page, count);
    var d0 := GetUsersIntended(t, page, count, includeDeleted).data;
    var d1 := GetUsersIntended(t, page + 1, count, includeDeleted).data;
    assert PageStart(page + 1, count) == off + count;
    assert d0 == Window(s, off, count);
    assert d1 == Window(s, off + count, count);
    WindowSplit(s, off, count);
  }

  /** With the intended query, including deleted rows lists the whole table. */
  lemma IntendedListsDeleted(t: Table)
    ensures multiset(GetUsersIntended(t, 0, |t|, true).data) == multiset(t)
  {
    var s := SortById(t);
    assert |s| == |multiset(s)| == |t|;
    assert Window(s, 0, |t|) == s;
  }
}

/**
 * The sample user data manager (`SampleUserManager`) over an in-memory
 * model of the `user` table.
 *
 * The table is a sequence of rows in insertion order rather than a map from
 * id to row: the duplicate check only looks at rows that are not soft-deleted,
 * so one `user_id` can own several rows. Timestamps (`last_login`,
 * `on_create`, `on_update`) are not modelled.
 */
module UserStore {
  import opened Wrappers
  import Password

  /** One row of the `user` table. */
  datatype Row = Row(
    userId: string,
    userName: string,
    profile: string,
    pwHash: Password.PwHash,
    deleted: bool)

  type Table = seq<Row>

  /**
   * The framework's `QueryResult`: a success carrying a message and the
   * fetched rows, or an alert carrying the message shown to the user.
   * `QueryResult::success()` without arguments is modelled with the empty
   * message and no rows.
   */
  datatype QueryResult = Succeeded(message: string, data: seq<Row>) | Alerted(message: string) {
    predicate IsSucceed() {
      Succeeded?
    }
  }

  /** A store operation's new table together with its result. */
  datatype Step = Step(table: Table, result: QueryResult)

  const DuplicateMessage: string := "同じIDのユーザーが存在します。"
  const NotFoundMessage: string := "ユーザーは存在しませんでした。"
  const ListedMessage: string := "取得に成功しました。"
  /** What the database reports for `WHERE` followed by nothing. */
  const EmptyWhereError: string := "SQL syntax error: empty WHERE clause"

  /** The `WHERE` clause of `getUser`: the id matches and, unless deleted rows are included, the row is live. */
  predicate Matches(row: Row, id: string, includeDeleted: bool) {
    row.userId == id && (includeDeleted || !row.deleted)
  }

  /** Some non-deleted row carries `id`. */
  predicate HasLive(t: Table, id: string) {
    exists i :: 0 <= i < |t| && Matches(t[i], id, false)
  }

  /** The rows that satisfy `getUser`'s `WHERE` clause, in table order. */
  function Select(t: Table, id: string, includeDeleted: bool): (r: seq<Row>)
    ensures |r| <= |t|
    ensures forall x :: x in r <==> x in t && Matches(x, id, includeDeleted)
  {
    if t == [] then []
    else (if Matches(t[0], id, includeDeleted) then [t[0]] else []) + Select(t[1..], id, includeDeleted)
  }

  lemma {:induction false} SelectAppend(a: Table, b: Table, id: string, includeDeleted: bool)
    ensures Select(a + b, id, includeDeleted) == Select(a, id, includeDeleted) + Select(b, id, includeDeleted)
  {
    if a == [] {
      assert a + b == b;
    } else {
      assert (a + b)[1..] == a[1..] + b;
      SelectAppend(a[1..], b, id, includeDeleted);
    }
  }

  /** `getUser`: every row with the id (live rows only unless `includeDeleted`), or the not-found alert. */
  function GetUser(t: Table, id: string, includeDeleted: bool := false): (r: QueryResult)
    ensures r.IsSucceed() <==> exists i :: 0 <= i < |t| && Matches(t[i], id, includeDeleted)
    ensures r.IsSucceed() ==> r.data != [] && r.data == Select(t, id, includeDeleted)
    ensures r.IsSucceed() ==> forall x :: x in r.data <==> x in t && Matches(x, id, includeDeleted)
    ensures !r.IsSucceed() ==> r == Alerted(NotFoundMessage)
  {
    var rows := Select(t, id, includeDeleted);
    if |rows| != 0 then
      assert rows[0] in t;
      var k :| 0 <= k < |t| && t[k] == rows[0];
      assert Matches(t[k], id, includeDeleted);
      Succeeded("", rows)
    else
      assert forall i :: 0 <= i < |t| ==> !Matches(t[i], id, includeDeleted) by {
        forall i | 0 <= i < |t| ensures !Matches(t[i], id, includeDeleted) {
          assert t[i] in t;
        }
      }
      Alerted(NotFoundMessage)
  }

  /**
   * `createUser`: refuses an id that already has a live row; otherwise appends
   * one live row with an empty profile and the password's hash.
   */
  function CreateUser(t: Table, id: string, name: string, password: string, salt: nat): (r: Step)
    ensures HasLive(t, id) ==> r == Step(t, Alerted(DuplicateMessage))
    ensures !HasLive(t, id) ==> r.result.IsSucceed() && |r.table| == |t| + 1 && r.table[..|t|] == t
    ensures !HasLive(t, id) ==>
      var row := r.table[|t|];
      row.userId == id && row.userName == name && row.profile == "" && !row.deleted
      && Password.Verify(password, row.pwHash)
  {
    if GetUser(t, id).IsSucceed() then
      Step(t, Alerted(DuplicateMessage))
    else
      Password.VerifyHash(password, salt);
      var t' := t + [Row(id, name, "", Password.Hash(password, salt), false)];
      assert t'[..|t|] == t;
      Step(t', Succeeded("", []))
  }

  /** The live rows, in table order. */
  function Live(t: Table): (r: seq<Row>)
    ensures |r| <= |t|
    ensures forall x :: x in r <==> x in t && !x.deleted
  {
    if t == [] then []
    else (if !t[0].deleted then [t[0]] else []) + Live(t[1..])
  }

  /** `ORDER BY user_id`: lexicographic order on code points. */
  predicate IdLe(a: string, b: string) {
    a == [] || (b != [] && (a[0] < b[0] || (a[0] == b[0] && IdLe(a[1..], b[1..]))))
  }

  lemma {:induction false} IdLeTotal(a: string, b: string)
    ensures IdLe(a, b) || IdLe(b, a)
  {
    if a != [] && b != [] && a[0] == b[0] {
      IdLeTotal(a[1..], b[1..]);
    }
  }

  lemma {:induction false} IdLeTrans(a: string, b: string, c: string)
    requires IdLe(a, b) && IdLe(b, c)
    ensures IdLe(a, c)
  {
    if a != [] && b != [] && c != [] && a[0] == b[0] && b[0] == c[0] {
      IdLeTrans(a[1..], b[1..], c[1..]);
    }
  }

  predicate SortedById(rows: seq<Row>) {
    forall i, j :: 0 <= i < j < |rows| ==> IdLe(rows[i].userId, rows[j].userId)
  }

  /** A row that precedes every row of a sorted sequence can be put in front of it. */
  lemma SortedCons(x: Row, r: seq<Row>)
    requires SortedById(r)
    requires forall k :: 0 <= k < |r| ==> IdLe(x.userId, r[k].userId)
    ensures SortedById([x] + r)
  {
    var s := [x] + r;
    forall i, j | 0 <= i < j < |s| ensures IdLe(s[i].userId, s[j].userId) {
      assert s[j] == r[j - 1];
      if i > 0 {
        assert s[i] == r[i - 1];
      }
    }
  }

  /** The head of a sorted sequence precedes everything in it, and `x` when it does not precede the head. */
  lemma HeadPrecedes(x: Row, s: seq<Row>, rest: seq<Row>)
    requires SortedById(s) && s != [] && IdLe(s[0].userId, x.userId)
    requires multiset(rest) == multiset(s[1..]) + multiset{x}
    ensures forall k :: 0 <= k < |rest| ==> IdLe(s[0].userId, rest[k].userId)
  {
    forall k | 0 <= k < |rest| ensures IdLe(s[0].userId, rest[k].userId) {
      var y := rest[k];
      assert y in multiset(rest);
      if y != x {
        assert y in multiset(s[1..]);
        var m :| 0 <= m < |s[1..]| && s[1..][m] == y;
        assert s[m + 1] == y;
      }
    }
  }

  /** Inserts `x` into a sorted sequence, before the first row it does not follow. */
  function Insert(x: Row, s: seq<Row>): (r: seq<Row>)
    requires SortedById(s)
    ensures SortedById(r)
    ensures multiset(r) == multiset(s) + multiset{x}
  {
    if s == [] then [x]
    else if IdLe(x.userId, s[0].userId) then
      assert forall j :: 0 <= j < |s| ==> IdLe(x.userId, s[j].userId) by {
        forall j | 0 <= j < |s| ensures IdLe(x.userId, s[j].userId) {
          if j > 0 { IdLeTrans(x.userId, s[0].userId, s[j].userId); }
        }
      }
      SortedCons(x, s);
      [x] + s
    else
      IdLeTotal(x.userId, s[0].userId);
      var rest := Insert(x, s[1..]);
      assert s == [s[0]] + s[1..];
      HeadPrecedes(x, s, rest);
      SortedCons(s[0], rest);
      [s[0]] + rest
  }

  /** Sorts rows by `user_id`. */
  function SortById(s: seq<Row>): (r: seq<Row>)
    ensures SortedById(r)
    ensures multiset(r) == multiset(s)
  {
    if s == [] then []
    else
      assert s == [s[0]] + s[1..];
      Insert(s[0], SortById(s[1..]))
  }

  function Min(a: int, b: int): int {
    if a <= b then a else b
  }

  /** `LIMIT offset, count`: at most `count` elements, starting at position `offset`. */
  function Window<T>(s: seq<T>, offset: nat, count: nat): (r: seq<T>)
    ensures |r| == (if offset >= |s| then 0 else Min(count, |s| - offset))
    ensures forall k :: 0 <= k < |r| ==> r[k] == s[offset + k]
  {
    if offset >= |s| then [] else s[offset..offset + Min(count, |s| - offset)]
  }

  /** A window of a sorted listing holds only rows of that listing, still sorted. */
  lemma SortedWindow(s: seq<Row>, offset: nat, count: nat)
    requires SortedById(s)
    ensures SortedById(Window(s, offset, count))
    ensures forall x :: x in Window(s, offset, count) ==> x in multiset(s)
  {
    var w := Window(s, offset, count);
    forall x | x in w ensures x in multiset(s) {
      var k :| 0 <= k < |w| && w[k] == x;
      assert s[offset + k] == x;
    }
  }

  /**
   * `getUsers` as written: the live rows ordered by `user_id`, with `page`
   * used directly as the `LIMIT` offset. With `includeDeleted` the query's
   * `WHERE` clause is empty, which the database rejects.
   */
  function GetUsers(t: Table, page: nat, count: nat, includeDeleted: bool := false): (r: Result<QueryResult, string>)
    ensures includeDeleted <==> r.Failure?
    ensures r.Failure? ==> r.error == EmptyWhereError
    ensures r.Success? ==> r.value.Succeeded? && r.value.message == ListedMessage
    ensures r.Success? ==> r.value.data == Window(SortById(Live(t)), page, count)
    ensures r.Success? ==> |r.value.data| <= count && SortedById(r.value.data)
    ensures r.Success? ==> forall x :: x in r.value.data ==> x in t && !x.deleted
    ensures r.Success? && t == [] ==> r.value.data == []
  {
    if includeDeleted then
      Failure(EmptyWhereError)
    else
      var sorted := SortById(Live(t));
      SortedWindow(sorted, page, count);
      Success(Succeeded(ListedMessage, Window(sorted, page, count)))
  }

  /** The first row of page `page` when every page holds `count` rows: `page * count`. */
  function PageStart(page: nat, count: nat): nat {
    if page == 0 then 0 else PageStart(page - 1, count) + count
  }

  /** The rows a listing considers: all of them, or only the live ones. */
  function Listed(t: Table, includeDeleted: bool): seq<Row> {
    if includeDeleted then t else Live(t)
  }

  /**
   * `getUsers` as evidently intended: page `page` of size `count` starts at
   * row `page * count`, and including deleted rows drops the filter.
   */
  function GetUsersIntended(t: Table, page: nat, count: nat, includeDeleted: bool := false): (r: QueryResult)
    ensures r.Succeeded? && r.message == ListedMessage
    ensures r.data == Window(SortById(Listed(t, includeDeleted)), PageStart(page, count), count)
    ensures |r.data| <= count && SortedById(r.data)
    ensures forall x :: x in r.data ==> x in t && (includeDeleted || !x.deleted)
  {
    var sorted := SortById(Listed(t, includeDeleted));
    SortedWindow(sorted, PageStart(page, count), count);
    Succeeded(ListedMessage, Window(sorted, PageStart(page, count), count))
  }

  /** The row after `updateUser`'s `SET`, if its id matches. */
  function Rename(row: Row, id: string, name: string, profile: string): Row {
    if row.userId == id then row.(userName := name, profile := profile) else row
  }

  /** `updateUser`'s statement applied to every row. */
  function UpdateRows(t: Table, id: string, name: string, profile: string): (r: Table)
    ensures |r| == |t|
    ensures forall i :: 0 <= i < |t| ==> r[i] == Rename(t[i], id, name, profile)
  {
    if t == [] then [] else [Rename(t[0], id, name, profile)] + UpdateRows(t[1..], id, name, profile)
  }

  /**
   * `updateUser`: sets name and profile on every row with the id, deleted or
   * not, and reports success even when no row matched.
   */
  function UpdateUser(t: Table, id: string, name: string, profile: string): (r: Step)
    ensures r.result == Succeeded("", [])
    ensures |r.table| == |t|
    ensures forall i :: 0 <= i < |t| && t[i].userId == id ==>
      r.table[i] == t[i].(userName := name, profile := profile)
    ensures forall i :: 0 <= i < |t| && t[i].userId != id ==> r.table[i] == t[i]
  {
    Step(UpdateRows(t, id, name, profile), Succeeded("", []))
  }

  /** The row after `deleteUser`'s `SET`, if its id matches. */
  function MarkDeleted(row: Row, id: string): Row {
    if row.userId == id then row.(deleted := true) else row
  }

  function DeleteRows(t: Table, id: string): (r: Table)
    ensures |r| == |t|
    ensures forall i :: 0 <= i < |t| ==> r[i] == MarkDeleted(t[i], id)
  {
    if t == [] then [] else [MarkDeleted(t[0], id)] + DeleteRows(t[1..], id)
  }

  /** `deleteUser`: soft-deletes every row with the id and always succeeds. */
  function DeleteUser(t: Table, id: string): (r: Step)
    ensures r.result == Succeeded("", [])
    ensures |r.table| == |t|
    ensures forall i :: 0 <= i < |t| && t[i].userId == id ==> r.table[i] == t[i].(deleted := true)
    ensures forall i :: 0 <= i < |t| && t[i].userId != id ==> r.table[i] == t[i]
  {
    Step(DeleteRows(t, id), Succeeded("", []))
  }
}

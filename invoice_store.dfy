/** The per-user invoice store of `app/database.py`, with the two SQLite
    tables held in memory: `users` and `invoices`, each as its rows in rowid
    order. A new row gets the rowid SQLite gives an `INTEGER PRIMARY KEY`
    without AUTOINCREMENT: one more than the largest rowid in the table, or 1
    when the table is empty. The clock, the JSON encoding and the
    connection handling are not modelled: the upload time is a parameter,
    and the `fields` column holds the JSON value itself. */
module InvoiceStore {
  import opened Common

  /** A JSON value, as `json.dumps` writes it and `json.loads` reads it back. */
  datatype Json =
    | JNull
    | JBool(b: bool)
    | JInt(n: int)
    | JStr(s: string)
    | JList(items: seq<Json>)
    | JObject(members: map<string, Json>)

  datatype UserRow = UserRow(id: int, username: string)

  /** A row of `invoices`; `uploadTime` stands for the ISO timestamp, whose
      text order is its time order. */
  datatype InvoiceRow = InvoiceRow(
    id: int,
    userId: int,
    filename: string,
    uploadTime: nat,
    rawText: string,
    fields: map<string, Json>,
    fileData: seq<byte>)

  /** The analysis `save_invoice` is handed: the extracted fields and the
      optional keys it reads with `result.get`. */
  datatype AnalysisResult = AnalysisResult(
    fields: map<string, Json>,
    pageCount: Option<Json>,
    rawText: Option<string>,
    validation: Option<Json>,
    duplicates: Option<seq<Json>>)

  /** One entry of the list `get_user_invoices` returns. */
  datatype InvoiceSummary = InvoiceSummary(
    id: int,
    filename: string,
    uploadTime: nat,
    vendor: Json,
    totalAmount: Json,
    date: Json)

  /** What `get_invoice_by_id` returns for a row. */
  datatype InvoiceDetail = InvoiceDetail(
    id: int,
    filename: string,
    uploadTime: nat,
    rawText: string,
    fields: map<string, Json>,
    fileData: seq<byte>)

  const Missing: Json := JStr("—")

  // ------------------------------------------------------------ users

  /** Rowids are positive and strictly increasing along the table. */
  ghost predicate UserIdsAscending(users: seq<UserRow>) {
    && (forall i :: 0 <= i < |users| ==> users[i].id >= 1)
    && (forall i, j :: 0 <= i < j < |users| ==> users[i].id < users[j].id)
  }

  /** `username TEXT UNIQUE`. */
  ghost predicate UsernamesUnique(users: seq<UserRow>) {
    forall i, j :: 0 <= i < j < |users| ==> users[i].username != users[j].username
  }

  ghost predicate UsersValid(users: seq<UserRow>) {
    UserIdsAscending(users) && UsernamesUnique(users)
  }

  /** The rowid the next `INSERT INTO users` receives. */
  function NextUserId(users: seq<UserRow>): (id: int)
    requires UserIdsAscending(users)
    ensures id >= 1
    ensures forall i :: 0 <= i < |users| ==> users[i].id < id
  {
    if users == [] then 1 else users[|users| - 1].id + 1
  }

  /** `SELECT id FROM users WHERE username = ?`. */
  function LookupUser(users: seq<UserRow>, username: string): (r: Option<int>)
    ensures r.None? <==> forall i :: 0 <= i < |users| ==> users[i].username != username
    ensures r.Some? ==> exists i :: 0 <= i < |users| && users[i] == UserRow(r.value, username)
  {
    if users == [] then None
    else if users[0].username == username then Some(users[0].id)
    else LookupUser(users[1..], username)
  }

  /** The users table after `get_or_create_user` and the id it returned. */
  datatype Registration = Registration(users: seq<UserRow>, id: int)

  /** The table after `get_or_create_user(username)` and the id returned. */
  function GetOrCreate(users: seq<UserRow>, username: string): (reg: Registration)
    requires UserIdsAscending(users)
    ensures reg.users == users || reg.users == users + [UserRow(reg.id, username)]
    ensures UserRow(reg.id, username) in reg.users
    ensures reg.users != users ==> forall i :: 0 <= i < |users| ==> users[i].id < reg.id && users[i].username != username
  {
    match LookupUser(users, username)
    case Some(id) => Registration(users, id)
    case None => Registration(users + [UserRow(NextUserId(users), username)], NextUserId(users))
  }

  /** The table stays valid, the name now has the id returned, and a name
      seen for the first time gets an id no existing user has. */
  lemma GetOrCreateValid(users: seq<UserRow>, username: string)
    requires UsersValid(users)
    ensures var Registration(after, id) := GetOrCreate(users, username);
            && UsersValid(after)
            && LookupUser(after, username) == Some(id)
            && (LookupUser(users, username).None? ==>
                  && after == users + [UserRow(id, username)]
                  && forall i :: 0 <= i < |users| ==> users[i].id != id)
            && (LookupUser(users, username).Some? ==> after == users)
  {
    var Registration(after, id) := GetOrCreate(users, username);
    if LookupUser(users, username).None? {
      assert after[|users|] == UserRow(id, username);
      assert forall i :: 0 <= i < |users| ==> after[i] == users[i];
    }
    LookupUnique(after, username, id);
  }

  /** In a table of unique names, a name's row determines the lookup. */
  lemma {:induction false} LookupUnique(users: seq<UserRow>, username: string, id: int)
    requires UsernamesUnique(users)
    requires exists i :: 0 <= i < |users| && users[i] == UserRow(id, username)
    ensures LookupUser(users, username) == Some(id)
    decreases |users|
  {
    if users[0].username != username {
      var i :| 0 <= i < |users| && users[i] == UserRow(id, username);
      assert users[1..][i - 1] == users[i];
      LookupUnique(users[1..], username, id);
    }
  }

  /** Asking again for the same name returns the same id and adds nobody. */
  lemma GetOrCreateIdempotent(users: seq<UserRow>, username: string)
    requires UsersValid(users)
    ensures var Registration(after, id) := GetOrCreate(users, username);
            UserIdsAscending(after) && GetOrCreate(after, username) == Registration(after, id)
  {
    GetOrCreateValid(users, username);
  }

  // --------------------------------------------------------- invoices

  ghost predicate InvoiceIdsAscending(rows: seq<InvoiceRow>) {
    && (forall i :: 0 <= i < |rows| ==> rows[i].id >= 1)
    && (forall i, j :: 0 <= i < j < |rows| ==> rows[i].id < rows[j].id)
  }

  /** The rowid the next `INSERT INTO invoices` receives. */
  function NextInvoiceId(rows: seq<InvoiceRow>): (id: int)
    requires InvoiceIdsAscending(rows)
    ensures id >= 1
    ensures forall i :: 0 <= i < |rows| ==> rows[i].id < id
  {
    if rows == [] then 1 else rows[|rows| - 1].id + 1
  }

  /** Python's `s[:n]`. */
  function Truncate(s: string, n: nat): (r: string)
    ensures |r| == if |s| < n then |s| else n
    ensures r == s[..|r|]
  {
    if |s| <= n then s else s[..n]
  }

  /** `[dup["id"] for dup in duplicates]`: fails (`KeyError` or
      `TypeError`) on an entry that is not an object with an `id`. */
  function DuplicateIds(duplicates: seq<Json>): (r: Option<seq<Json>>)
    ensures r.Some? <==> forall i :: 0 <= i < |duplicates| ==>
                           duplicates[i].JObject? && "id" in duplicates[i].members
    ensures r.Some? ==> |r.value| == |duplicates|
    ensures r.Some? ==> forall i :: 0 <= i < |duplicates| ==>
                          r.value[i] == duplicates[i].members["id"]
  {
    if duplicates == [] then Some([])
    else
      var dup := duplicates[0];
      if !(dup.JObject? && "id" in dup.members) then None
      else match DuplicateIds(duplicates[1..])
        case None => None
        case Some(ids) => Some([dup.members["id"]] + ids)
  }

  const OverlayKeys: set<string> := {"page_count", "raw_text", "validation", "duplicates"}

  /** Lines 69-75: the fields blob, or None when the duplicates list cannot
      be read. */
  function StoredFields(result: AnalysisResult): (stored: Option<map<string, Json>>)
    ensures var dups := if result.duplicates.Some? then result.duplicates.value else [];
            var raw := if result.rawText.Some? then result.rawText.value else "";
            && (stored.Some? <==> DuplicateIds(dups).Some?)
            && (stored.Some? ==>
                  && stored.value.Keys == result.fields.Keys + OverlayKeys
                  && (forall k :: k in result.fields && k !in OverlayKeys ==>
                                    stored.value[k] == result.fields[k])
                  && stored.value["page_count"] == (if result.pageCount.Some? then result.pageCount.value else JInt(1))
                  && stored.value["raw_text"] == JStr(Truncate(raw, 500))
                  && stored.value["validation"] == (if result.validation.Some? then result.validation.value else JObject(map[]))
                  && stored.value["duplicates"].JList?
                  && |stored.value["duplicates"].items| == |dups|
                  && forall i :: 0 <= i < |dups| ==>
                       stored.value["duplicates"].items[i] == dups[i].members["id"])
  {
    var ids := DuplicateIds(if result.duplicates.Some? then result.duplicates.value else []);
    if ids.None? then None
    else
      Some(result.fields
        ["page_count" := if result.pageCount.Some? then result.pageCount.value else JInt(1)]
        ["raw_text" := JStr(Truncate(if result.rawText.Some? then result.rawText.value else "", 500))]
        ["validation" := if result.validation.Some? then result.validation.value else JObject(map[])]
        ["duplicates" := JList(ids.value)])
  }

  /** The row a successful `save_invoice` inserts. */
  function SavedRow(rows: seq<InvoiceRow>, userId: int, filename: string, content: seq<byte>,
                    result: AnalysisResult, stored: map<string, Json>, now: nat): (row: InvoiceRow)
    requires InvoiceIdsAscending(rows)
    ensures row.id == NextInvoiceId(rows)
  {
    InvoiceRow(NextInvoiceId(rows), userId, filename, now,
               Truncate(if result.rawText.Some? then result.rawText.value else "", 1000),
               stored, content)
  }

  /** `SELECT * FROM invoices WHERE id = ?`. */
  function FindInvoice(rows: seq<InvoiceRow>, id: int): (r: Option<InvoiceRow>)
    ensures r.None? <==> forall i :: 0 <= i < |rows| ==> rows[i].id != id
    ensures r.Some? ==> r.value.id == id && r.value in rows
  {
    if rows == [] then None
    else if rows[0].id == id then Some(rows[0])
    else FindInvoice(rows[1..], id)
  }

  /** Appending a row with a new largest id keeps the ids ascending, makes
      the row findable by its id, and leaves every other lookup as it was. */
  lemma AppendRow(rows: seq<InvoiceRow>, row: InvoiceRow)
    requires InvoiceIdsAscending(rows) && row.id >= 1
    requires forall i :: 0 <= i < |rows| ==> rows[i].id < row.id
    ensures InvoiceIdsAscending(rows + [row])
    ensures FindInvoice(rows + [row], row.id) == Some(row)
    ensures forall id :: id != row.id ==> FindInvoice(rows + [row], id) == FindInvoice(rows, id)
  {
    var r := rows + [row];
    forall i, j | 0 <= i < j < |r| ensures r[i].id < r[j].id {
      if j < |rows| {
        assert r[i] == rows[i] && r[j] == rows[j];
      }
    }
    FindAfterAppend(rows, row);
  }

  /** A lookup in a table with one more row at the end: the new row answers
      its own id when no earlier row has it, and other ids are unaffected. */
  lemma {:induction false} FindAfterAppend(rows: seq<InvoiceRow>, row: InvoiceRow)
    requires forall i :: 0 <= i < |rows| ==> rows[i].id != row.id
    ensures FindInvoice(rows + [row], row.id) == Some(row)
    ensures forall id :: id != row.id ==> FindInvoice(rows + [row], id) == FindInvoice(rows, id)
    decreases |rows|
  {
    if rows != [] {
      assert (rows + [row])[1..] == rows[1..] + [row];
      assert forall i :: 0 <= i < |rows| - 1 ==> rows[1..][i] == rows[i + 1];
      FindAfterAppend(rows[1..], row);
    }
  }

  lemma TailAscending(rows: seq<InvoiceRow>)
    requires InvoiceIdsAscending(rows) && rows != []
    ensures InvoiceIdsAscending(rows[1..])
    ensures forall x :: x in rows[1..] ==> rows[0].id < x.id
  {
    assert forall i :: 0 <= i < |rows| - 1 ==> rows[1..][i] == rows[i + 1];
  }

  lemma ConsAscending(x: InvoiceRow, rest: seq<InvoiceRow>)
    requires InvoiceIdsAscending(rest) && x.id >= 1
    requires forall y :: y in rest ==> x.id < y.id
    ensures InvoiceIdsAscending([x] + rest)
  {
    var r := [x] + rest;
    forall i, j | 0 <= i < j < |r| ensures r[i].id < r[j].id {
      assert r[j] == rest[j - 1];
      if i > 0 {
        assert r[i] == rest[i - 1];
      }
    }
  }

  function Detail(row: InvoiceRow): (d: InvoiceDetail)
    ensures d.id == row.id && d.fields == row.fields && d.rawText == row.rawText
    ensures d.filename == row.filename && d.fileData == row.fileData && d.uploadTime == row.uploadTime
  {
    InvoiceDetail(row.id, row.filename, row.uploadTime, row.rawText, row.fields, row.fileData)
  }

  /** Lines 111-119: `fields.get(key, '—')` for the three listed fields. */
  function Summary(row: InvoiceRow): (s: InvoiceSummary)
    ensures s.id == row.id && s.filename == row.filename && s.uploadTime == row.uploadTime
    ensures s.vendor == if "vendor" in row.fields then row.fields["vendor"] else Missing
    ensures s.totalAmount == if "total_amount" in row.fields then row.fields["total_amount"] else Missing
    ensures s.date == if "date" in row.fields then row.fields["date"] else Missing
  {
    InvoiceSummary(row.id, row.filename, row.uploadTime,
                   if "vendor" in row.fields then row.fields["vendor"] else Missing,
                   if "total_amount" in row.fields then row.fields["total_amount"] else Missing,
                   if "date" in row.fields then row.fields["date"] else Missing)
  }

  /** A saved invoice read back by its id has the filename, bytes and blob
      that were saved, and the raw text cut to 1000 characters. */
  lemma SavedThenFound(rows: seq<InvoiceRow>, userId: int, filename: string, content: seq<byte>,
                       result: AnalysisResult, now: nat)
    requires InvoiceIdsAscending(rows) && StoredFields(result).Some?
    ensures var row := SavedRow(rows, userId, filename, content, result, StoredFields(result).value, now);
            var found := FindInvoice(rows + [row], row.id);
            && found.Some?
            && Detail(found.value).fields == StoredFields(result).value
            && Detail(found.value).filename == filename
            && Detail(found.value).fileData == content
            && Detail(found.value).rawText
               == Truncate(if result.rawText.Some? then result.rawText.value else "", 1000)
  {
    var row := SavedRow(rows, userId, filename, content, result, StoredFields(result).value, now);
    AppendRow(rows, row);
  }

  // ---------------------------------------------------------- listing

  /** `WHERE user_id = ?`, in table order. */
  function Owned(rows: seq<InvoiceRow>, userId: int): (r: seq<InvoiceRow>)
    ensures forall x :: x in r <==> x in rows && x.userId == userId
    ensures |r| <= |rows|
  {
    if rows == [] then []
    else if rows[0].userId == userId then [rows[0]] + Owned(rows[1..], userId)
    else Owned(rows[1..], userId)
  }

  ghost predicate NewestFirst(rows: seq<InvoiceRow>) {
    forall i, j :: 0 <= i < j < |rows| ==> rows[i].uploadTime >= rows[j].uploadTime
  }

  /** Put `row` into a newest-first list after every row at least as new. */
  function InsertByTime(row: InvoiceRow, sorted: seq<InvoiceRow>): (r: seq<InvoiceRow>)
    ensures multiset(r) == multiset(sorted) + multiset{row}
  {
    if sorted == [] then [row]
    else if sorted[0].uploadTime >= row.uploadTime then
      assert sorted == [sorted[0]] + sorted[1..];
      [sorted[0]] + InsertByTime(row, sorted[1..])
    else
      [row] + sorted
  }

  lemma TailNewest(rows: seq<InvoiceRow>)
    requires NewestFirst(rows) && rows != []
    ensures NewestFirst(rows[1..])
    ensures forall x :: x in rows[1..] ==> rows[0].uploadTime >= x.uploadTime
  {
    assert forall i :: 0 <= i < |rows| - 1 ==> rows[1..][i] == rows[i + 1];
  }

  lemma ConsNewest(x: InvoiceRow, rest: seq<InvoiceRow>)
    requires NewestFirst(rest)
    requires forall y :: y in rest ==> x.uploadTime >= y.uploadTime
    ensures NewestFirst([x] + rest)
  {
    var r := [x] + rest;
    forall i, j | 0 <= i < j < |r| ensures r[i].uploadTime >= r[j].uploadTime {
      assert r[j] == rest[j - 1];
      if i > 0 {
        assert r[i] == rest[i - 1];
      }
    }
  }

  /** Inserting keeps a newest-first list newest first. */
  lemma {:induction false} InsertByTimeSorted(row: InvoiceRow, sorted: seq<InvoiceRow>)
    requires NewestFirst(sorted)
    ensures NewestFirst(InsertByTime(row, sorted))
    decreases |sorted|
  {
    if sorted == [] {
      assert InsertByTime(row, sorted) == [row];
    } else {
      TailNewest(sorted);
      var tail := sorted[1..];
      if sorted[0].uploadTime >= row.uploadTime {
        InsertByTimeSorted(row, tail);
        var rest := InsertByTime(row, tail);
        forall y | y in rest ensures sorted[0].uploadTime >= y.uploadTime {
          assert y in multiset(rest);
        }
        ConsNewest(sorted[0], rest);
      } else {
        assert sorted == [sorted[0]] + tail;
        ConsNewest(row, sorted);
      }
    }
  }

  /** `ORDER BY upload_time DESC`; rows with the same time keep table order. */
  function ByTimeDesc(rows: seq<InvoiceRow>): (r: seq<InvoiceRow>)
    ensures NewestFirst(r)
    ensures multiset(r) == multiset(rows)
  {
    if rows == [] then []
    else
      var front := rows[..|rows| - 1];
      assert rows == front + [rows[|rows| - 1]];
      InsertByTimeSorted(rows[|rows| - 1], ByTimeDesc(front));
      InsertByTime(rows[|rows| - 1], ByTimeDesc(front))
  }

  /** The rows `get_user_invoices` reads: exactly the user's rows, each
      once, newest first. */
  function UserRows(rows: seq<InvoiceRow>, userId: int): (r: seq<InvoiceRow>)
    ensures NewestFirst(r)
    ensures multiset(r) == multiset(Owned(rows, userId))
    ensures forall x :: x in r <==> x in rows && x.userId == userId
  {
    var r := ByTimeDesc(Owned(rows, userId));
    assert forall x :: x in r <==> x in multiset(r);
    r
  }

  // --------------------------------------------------------- deletion

  /** `DELETE FROM invoices WHERE id IN (ids) AND user_id = ?`: what is
      left, in table order. */
  function Kept(rows: seq<InvoiceRow>, userId: int, ids: seq<int>): (r: seq<InvoiceRow>)
    ensures forall x :: x in r <==> x in rows && !(x.id in ids && x.userId == userId)
  {
    if rows == [] then []
    else
      var rest := Kept(rows[1..], userId, ids);
      if rows[0].id in ids && rows[0].userId == userId then rest else [rows[0]] + rest
  }

  /** The rows left keep the ids ascending. */
  lemma {:induction false} KeptAscending(rows: seq<InvoiceRow>, userId: int, ids: seq<int>)
    requires InvoiceIdsAscending(rows)
    ensures InvoiceIdsAscending(Kept(rows, userId, ids))
    decreases |rows|
  {
    if rows != [] {
      TailAscending(rows);
      KeptAscending(rows[1..], userId, ids);
      if !(rows[0].id in ids && rows[0].userId == userId) {
        ConsAscending(rows[0], Kept(rows[1..], userId, ids));
      }
    }
  }

  /** Deleting the same ids again removes nothing more. */
  lemma {:induction false} KeptIdempotent(rows: seq<InvoiceRow>, userId: int, ids: seq<int>)
    ensures Kept(Kept(rows, userId, ids), userId, ids) == Kept(rows, userId, ids)
    decreases |rows|
  {
    if rows != [] {
      KeptIdempotent(rows[1..], userId, ids);
      var rest := Kept(rows[1..], userId, ids);
      if !(rows[0].id in ids && rows[0].userId == userId) {
        assert ([rows[0]] + rest)[1..] == rest;
      }
    }
  }

  /** An empty id list (`IN ()`) deletes nothing. */
  lemma {:induction false} KeptNone(rows: seq<InvoiceRow>, userId: int)
    ensures Kept(rows, userId, []) == rows
    decreases |rows|
  {
    if rows != [] {
      KeptNone(rows[1..], userId);
      assert rows == [rows[0]] + rows[1..];
    }
  }

  // ------------------------------------------------------------ store

  /** The two tables. */
  class Database {
    var users: seq<UserRow>
    var invoices: seq<InvoiceRow>

    ghost predicate Valid()
      reads this
    {
      UsersValid(users) && InvoiceIdsAscending(invoices)
    }

    /** The tables `init_db` creates: both empty. */
    constructor()
      ensures Valid() && users == [] && invoices == []
    {
      users := [];
      invoices := [];
    }

    /** Lines 48-64: look the name up; insert it when absent. */
    method GetOrCreateUser(username: string) returns (userId: int)
      requires Valid()
      modifies this
      ensures Valid()
      ensures GetOrCreate(old(users), username) == Registration(users, userId)
      ensures invoices == old(invoices)
    {
      var i := 0;
      while i < |users|
        invariant 0 <= i <= |users|
        invariant LookupUser(users, username) == LookupUser(users[i..], username)
      {
        assert users[i..][1..] == users[i + 1..];
        if users[i].username == username {
          return users[i].id;
        }
        i := i + 1;
      }
      GetOrCreateValid(users, username);
      userId := NextUserId(users);
      users := users + [UserRow(userId, username)];
    }

    /** Lines 67-92: build the fields blob, then insert one row. When the
        duplicates list cannot be read the call fails before touching the
        table (`ok` is false). */
    method SaveInvoice(userId: int, filename: string, content: seq<byte>,
                       result: AnalysisResult, now: nat) returns (ok: bool)
      requires Valid()
      modifies this
      ensures Valid()
      ensures ok <==> StoredFields(result).Some?
      ensures ok ==> invoices == old(invoices) + [SavedRow(old(invoices), userId, filename, content,
                                                             result, StoredFields(result).value, now)]
      ensures !ok ==> invoices == old(invoices)
      ensures users == old(users)
    {
      var storedFields := result.fields;
      var duplicates := DuplicateIds(if result.duplicates.Some? then result.duplicates.value else []);
      if duplicates.None? {
        return false;
      }
      storedFields := storedFields["page_count" := if result.pageCount.Some? then result.pageCount.value else JInt(1)];
      storedFields := storedFields["raw_text" := JStr(Truncate(if result.rawText.Some? then result.rawText.value else "", 500))];
      storedFields := storedFields["validation" := if result.validation.Some? then result.validation.value else JObject(map[])];
      storedFields := storedFields["duplicates" := JList(duplicates.value)];
      var rawTextToSave := Truncate(if result.rawText.Some? then result.rawText.value else "", 1000);
      var row := InvoiceRow(NextInvoiceId(invoices), userId, filename, now, rawTextToSave, storedFields, content);
      AppendRow(invoices, row);
      invoices := invoices + [row];
      ok := true;
    }

    /** Lines 95-122: the user's rows newest first, each reduced to its
        summary. */
    method GetUserInvoices(userId: int) returns (list: seq<InvoiceSummary>)
      ensures var rows := UserRows(invoices, userId);
              |list| == |rows| && forall i :: 0 <= i < |rows| ==> list[i] == Summary(rows[i])
    {
      var rows := UserRows(invoices, userId);
      list := [];
      for i := 0 to |rows|
        invariant |list| == i
        invariant forall j :: 0 <= j < i ==> list[j] == Summary(rows[j])
      {
        var fields := rows[i].fields;
        list := list + [InvoiceSummary(
          rows[i].id, rows[i].filename, rows[i].uploadTime,
          if "vendor" in fields then fields["vendor"] else Missing,
          if "total_amount" in fields then fields["total_amount"] else Missing,
          if "date" in fields then fields["date"] else Missing)];
      }
    }

    /** Lines 125-146: the row with that id, or None. */
    method GetInvoiceById(invoiceId: int) returns (r: Option<InvoiceDetail>)
      ensures r.None? <==> FindInvoice(invoices, invoiceId).None?
      ensures r.Some? ==> r.value == Detail(FindInvoice(invoices, invoiceId).value)
    {
      var i := 0;
      while i < |invoices|
        invariant 0 <= i <= |invoices|
        invariant FindInvoice(invoices, invoiceId) == FindInvoice(invoices[i..], invoiceId)
      {
        assert invoices[i..][1..] == invoices[i + 1..];
        if invoices[i].id == invoiceId {
          return Some(Detail(invoices[i]));
        }
        i := i + 1;
      }
      r := None;
    }

    /** Lines 148-158: delete the listed ids the user owns; a listed id
        owned by another user stays. */
    method DeleteInvoicesByIds(userId: int, invoiceIds: seq<int>)
      requires Valid()
      modifies this
      ensures Valid()
      ensures invoices == Kept(old(invoices), userId, invoiceIds)
      ensures users == old(users)
    {
      var left: seq<InvoiceRow> := [];
      var i := |invoices|;
      while i > 0
        invariant 0 <= i <= |invoices|
        invariant left == Kept(invoices[i..], userId, invoiceIds)
      {
        i := i - 1;
        assert invoices[i..][1..] == invoices[i + 1..];
        var row := invoices[i];
        if !(row.id in invoiceIds && row.userId == userId) {
          left := [row] + left;
        }
      }
      assert invoices[0..] == invoices;
      KeptAscending(invoices, userId, invoiceIds);
      invoices := left;
    }
  }
}

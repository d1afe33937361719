/**
 Proposal submissions (`/api/proposal`): the submission schema, the
 paginated and filtered listing, the one-proposal-per-e-mail rule on
 submission, and marking a proposal as read. The `proposals` table is a
 sequence of rows; URL and e-mail recognition, the new row's id and every
 database failure are parameters.
 */
module Proposal {
  import opened Optional
  import opened JsValues
  import opened Http
  import opened Zod
  import opened Paging

  const DefaultLimit := 10

  /** The error code the database client reports when `.single()` does not
      find exactly one row. */
  const SingleRowCode := "PGRST116"

  const InvalidDataMessage := "Data tidak valid"
  const DuplicateMessage := "Proposal dengan email ini sudah ada"
  const MissingIdMessage := "ID is required"
  const BadBodyMessage := "Invalid request body"
  const UpdatedMessage := "Status updated"

  // ---------------------------------------------------------------------
  // Schema

  datatype ProposalBody = ProposalBody(name: JsValue, email: JsValue, phoneNumber: JsValue, fileUrl: JsValue)

  /** `/^\+?[1-9]\d{1,14}$/`: an optional `+`, then 2 to 15 ASCII digits of
      which the first is not zero (at most 15 digits, as ITU-T E.164 allows). */
  predicate PhonePattern(s: string): (b: bool)
    ensures b ==> 2 <= |s| <= 16 && s[0] != '0' && IsAsciiDigit(s[|s| - 1])
  {
    var digits := if s != [] && s[0] == '+' then s[1..] else s;
    && 2 <= |digits| <= 15
    && '1' <= digits[0] <= '9'
    && forall i :: 0 <= i < |digits| ==> IsAsciiDigit(digits[i])
  }

  function Issues(body: ProposalBody, isUrl: string -> bool, isEmail: string -> bool): (issues: seq<Issue>)
    ensures forall i :: 0 <= i < |issues| ==> issues[i].path in {"name", "email", "phoneNumber", "fileUrl"}
  {
    StringField("name", body.name, false, [Min(2)], isUrl, isEmail)
    + StringField("email", body.email, false, [Email], isUrl, isEmail)
    + StringField("phoneNumber", body.phoneNumber, false, [Pattern(PhonePattern)], isUrl, isEmail)
    + StringField("fileUrl", body.fileUrl, false, [Url], isUrl, isEmail)
  }

  /** A submission is valid exactly when the name has at least two UTF-16 code
      units, the e-mail and file URL are recognised, and the phone number
      matches the pattern. */
  lemma ValidIff(body: ProposalBody, isUrl: string -> bool, isEmail: string -> bool)
    ensures Issues(body, isUrl, isEmail) == [] <==>
              && body.name.Str? && Utf16Length(body.name.s) >= 2
              && body.email.Str? && isEmail(body.email.s)
              && body.phoneNumber.Str? && PhonePattern(body.phoneNumber.s)
              && body.fileUrl.Str? && isUrl(body.fileUrl.s)
  {
    var nameChecks := [Min(2)];
    var emailChecks := [Email];
    var phoneChecks := [Pattern(PhonePattern)];
    var urlChecks := [Url];
    if body.name.Str? && StringField("name", body.name, false, nameChecks, isUrl, isEmail) == [] {
      assert Passes(nameChecks[0], body.name.s, isUrl, isEmail);
    }
    if body.email.Str? && StringField("email", body.email, false, emailChecks, isUrl, isEmail) == [] {
      assert Passes(emailChecks[0], body.email.s, isUrl, isEmail);
    }
    if body.phoneNumber.Str? && StringField("phoneNumber", body.phoneNumber, false, phoneChecks, isUrl, isEmail) == [] {
      assert Passes(phoneChecks[0], body.phoneNumber.s, isUrl, isEmail);
    }
    if body.fileUrl.Str? && StringField("fileUrl", body.fileUrl, false, urlChecks, isUrl, isEmail) == [] {
      assert Passes(urlChecks[0], body.fileUrl.s, isUrl, isEmail);
    }
  }

  /** The digits of `s` from position `i` on, checked one at a time. */
  predicate DigitsFrom(s: string, i: nat)
    decreases |s| - i
  {
    i >= |s| || (IsAsciiDigit(s[i]) && DigitsFrom(s, i + 1))
  }

  lemma {:induction false} DigitsFromAll(s: string, i: nat)
    requires DigitsFrom(s, i)
    ensures forall k :: i <= k < |s| ==> IsAsciiDigit(s[k])
    decreases |s| - i
  {
    if i < |s| {
      DigitsFromAll(s, i + 1);
    }
  }

  /** An Indonesian mobile number in international form and the shortest and
      longest digit runs match; a leading zero, a single digit, 16 digits, a
      doubled `+` or a dash do not. */
  lemma PhoneExamples()
    ensures PhonePattern("+6281234567890")
    ensures PhonePattern("12")
    ensures PhonePattern("123456789012345")
    ensures !PhonePattern("081234567890")
    ensures !PhonePattern("+1")
    ensures !PhonePattern("1234567890123456")
    ensures !PhonePattern("++62812")
    ensures !PhonePattern("0812-345")
  {
    assert "+6281234567890"[1..] == "6281234567890";
    assert DigitsFrom("6281234567890", 10);
    assert DigitsFrom("6281234567890", 7);
    assert DigitsFrom("6281234567890", 4);
    assert DigitsFrom("6281234567890", 1);
    assert DigitsFrom("6281234567890", 0);
    DigitsFromAll("6281234567890", 0);
    assert DigitsFrom("12", 0);
    DigitsFromAll("12", 0);
    assert DigitsFrom("123456789012345", 12);
    assert DigitsFrom("123456789012345", 9);
    assert DigitsFrom("123456789012345", 6);
    assert DigitsFrom("123456789012345", 3);
    assert DigitsFrom("123456789012345", 0);
    DigitsFromAll("123456789012345", 0);
    assert !IsAsciiDigit("++62812"[1..][0]);
    assert !IsAsciiDigit("0812-345"[4]);
  }

  /** Length is counted in UTF-16 code units: a name of one character outside
      the Basic Multilingual Plane is long enough. */
  lemma AstralNameLongEnough()
    ensures Utf16Length("\U{1F600}") == 2
  {
  }

  // ---------------------------------------------------------------------
  // Listing

  /** `is_read` filter: only the exact texts `true` and `false` filter. */
  function ReadFilter(isRead: Option<string>): (f: Option<bool>)
    ensures f == Some(true) <==> isRead == Some("true")
    ensures f == Some(false) <==> isRead == Some("false")
    ensures f.None? <==> isRead != Some("true") && isRead != Some("false")
  {
    if isRead == Some("true") || isRead == Some("false") then Some(isRead == Some("true")) else None
  }

  /** What the listing asks of the database: the read filter, the search text
      (only a non-empty one is applied), and the page window. */
  datatype ListQuery = ListQuery(readFilter: Option<bool>, search: Option<string>, window: Option<Window>)

  function ListRequest(pageParam: Option<string>, limitParam: Option<string>,
                       isReadParam: Option<string>, searchParam: Option<string>): (q: ListQuery)
    ensures q.readFilter == ReadFilter(isReadParam)
    ensures q.search.Some? <==> searchParam.Some? && searchParam.value != ""
    ensures q.window == PageWindow(pageParam, limitParam, DefaultLimit, Decimal)
  {
    ListQuery(ReadFilter(isReadParam),
              if searchParam.Some? && searchParam.value != "" then searchParam else None,
              PageWindow(pageParam, limitParam, DefaultLimit, Decimal))
  }

  /** The listing parses with radix 10, so a `0x` prefix stops at the `x`
      and reads as 0. */
  lemma HexWithRadix10()
    ensures ParseInt("0x2", Decimal) == Some(0)
  {
    assert SpaceEnd("0x2", 0) == 0;
    assert ParseUnsigned("0x2", 0, Decimal) == Some(0) by {
      assert DigitsEnd("0x2", 10, 0) == 1;
      assert ValueOf("0x2", 10, 0, 1) == 0;
    }
  }

  datatype ProposalRow = ProposalRow(id: string, name: string, email: string,
                                     phoneNumber: string, fileUrl: string, isRead: bool)

  // ---------------------------------------------------------------------
  // Selecting rows

  /** An equality filter on one column: `.eq('email', …)`, `.eq('id', …)` or
      `.eq('is_read', …)`. */
  datatype RowTest = EmailIs(email: string) | IdIs(id: string) | ReadIs(read: bool)

  predicate RowPasses(row: ProposalRow, t: RowTest) {
    match t
    case EmailIs(email) => row.email == email
    case IdIs(id) => row.id == id
    case ReadIs(read) => row.isRead == read
  }

  /** Number of rows that pass the filter. */
  function CountWhere(table: seq<ProposalRow>, t: RowTest): (n: nat)
    ensures n <= |table|
    ensures n == 0 <==> forall i :: 0 <= i < |table| ==> !RowPasses(table[i], t)
  {
    if table == [] then 0
    else CountWhere(table[..|table| - 1], t) + (if RowPasses(table[|table| - 1], t) then 1 else 0)
  }

  /** The rows that pass the filter, as the database returns them: each
      passing row once, in table order (see WhereAppend and WhereSingle). */
  function Where(table: seq<ProposalRow>, t: RowTest): (r: seq<ProposalRow>)
    ensures forall i :: 0 <= i < |r| ==> r[i] in table && RowPasses(r[i], t)
    ensures forall i :: 0 <= i < |table| && RowPasses(table[i], t) ==> table[i] in r
    ensures |r| == CountWhere(table, t)
  {
    if table == [] then []
    else
      var rest := Where(table[..|table| - 1], t);
      WhereStep(table, t, rest);
      rest + (if RowPasses(table[|table| - 1], t) then [table[|table| - 1]] else [])
  }

  /** The passing rows of a table, from those of all but its last row. */
  lemma WhereStep(table: seq<ProposalRow>, t: RowTest, rest: seq<ProposalRow>)
    requires table != []
    requires forall i :: 0 <= i < |rest| ==> rest[i] in table[..|table| - 1] && RowPasses(rest[i], t)
    requires forall i :: 0 <= i < |table| - 1 && RowPasses(table[i], t) ==> table[i] in rest
    requires |rest| == CountWhere(table[..|table| - 1], t)
    ensures var r := rest + (if RowPasses(table[|table| - 1], t) then [table[|table| - 1]] else []);
            && (forall i :: 0 <= i < |r| ==> r[i] in table && RowPasses(r[i], t))
            && (forall i :: 0 <= i < |table| && RowPasses(table[i], t) ==> table[i] in r)
            && |r| == CountWhere(table, t)
  {
    var init := table[..|table| - 1];
    var r := rest + (if RowPasses(table[|table| - 1], t) then [table[|table| - 1]] else []);
    forall i | 0 <= i < |r| ensures r[i] in table && RowPasses(r[i], t) {
      if i < |rest| {
        assert rest[i] in init;
        assert r[i] == rest[i];
      }
    }
    forall i | 0 <= i < |table| && RowPasses(table[i], t) ensures table[i] in r {
      if i < |table| - 1 {
        assert table[i] == init[i];
      }
    }
  }

  /** Filtering a concatenation filters each part and keeps their order. */
  lemma {:induction false} WhereAppend(a: seq<ProposalRow>, b: seq<ProposalRow>, t: RowTest)
    ensures Where(a + b, t) == Where(a, t) + Where(b, t)
    decreases |b|
  {
    if b == [] {
      assert a + b == a;
    } else {
      var init := b[..|b| - 1];
      var row := b[|b| - 1];
      var tail := if RowPasses(row, t) then [row] else [];
      assert (a + b)[..|a + b| - 1] == a + init;
      calc {
        Where(a + b, t);
        { assert (a + b)[|a + b| - 1] == row; }
        Where(a + init, t) + tail;
        { WhereAppend(a, init, t); }
        (Where(a, t) + Where(init, t)) + tail;
        Where(a, t) + (Where(init, t) + tail);
        Where(a, t) + Where(b, t);
      }
    }
  }

  /** A single row is kept exactly when it passes. */
  lemma WhereSingle(row: ProposalRow, t: RowTest)
    ensures Where([row], t) == if RowPasses(row, t) then [row] else []
  {
    assert [row][..0] == [];
  }

  /** The rows a read filter keeps: every row without a filter, and otherwise
      the rows with that read state, each once and in table order. */
  function FilterRead(table: seq<ProposalRow>, f: Option<bool>): (r: seq<ProposalRow>)
    ensures f.None? ==> r == table
    ensures forall i :: 0 <= i < |r| ==> r[i] in table && (f.Some? ==> r[i].isRead == f.value)
    ensures f.Some? ==> forall i :: 0 <= i < |table| && table[i].isRead == f.value ==> table[i] in r
    ensures f.Some? ==> |r| == CountWhere(table, ReadIs(f.value))
  {
    if f.None? then table else Where(table, ReadIs(f.value))
  }

  /** The read filter keeps the order of the table: filtering two parts of a
      table is filtering the whole. */
  lemma FilterReadAppend(a: seq<ProposalRow>, b: seq<ProposalRow>, f: Option<bool>)
    ensures FilterRead(a + b, f) == FilterRead(a, f) + FilterRead(b, f)
  {
    if f.Some? {
      WhereAppend(a, b, ReadIs(f.value));
    }
  }

  /** The read filter keeps a single row exactly when there is no filter or the
      row has the filtered read state. */
  lemma FilterReadSingle(row: ProposalRow, f: Option<bool>)
    ensures FilterRead([row], f) == if f.None? || row.isRead == f.value then [row] else []
  {
    if f.Some? {
      WhereSingle(row, ReadIs(f.value));
    }
  }

  /** The listing's payload: one page of rows and the total over all pages. */
  datatype ListPage = ListPage(data: seq<ProposalRow>, total: Option<nat>)

  /** The database's reply to the listing query. */
  datatype ListReply = Listed(data: seq<ProposalRow>, count: Option<nat>) | ListFailed(message: string)

  function ListResponse(reply: ListReply): (r: Response<ListPage>)
    ensures reply.ListFailed? ==> r == Failure(ServerError, reply.message)
    ensures reply.Listed? ==> r == Success(ListPage(reply.data, reply.count))
  {
    match reply
    case ListFailed(message) => Failure(ServerError, message)
    case Listed(data, count) => Success(ListPage(data, count))
  }

  /** Whether the database serves a window over `total` filtered rows.
      `.range(from, to)` asks for `to - from + 1` rows from `from`: a negative
      number of rows is refused, and, as the query asks for the exact count,
      so is an offset beyond that count (the range is not satisfiable). */
  predicate Satisfiable(w: Window, total: nat) {
    w.to - w.from + 1 >= 0 && w.from <= total
  }

  /** The reply of a database that answers the query over the table (rows
      already in `created_at` order, no search text applied): its message
      `refusal` for a window it does not serve, and otherwise the window of
      the rows the read filter keeps, and their number. */
  function Answer(table: seq<ProposalRow>, q: ListQuery, refusal: string): (reply: ListReply)
    requires q.search.None?
    requires q.window.Some? && q.window.value.from >= 0
  {
    var kept := FilterRead(table, q.readFilter);
    if !Satisfiable(q.window.value, |kept|) then ListFailed(refusal)
    else Listed(RangeRows(kept, q.window.value.from, q.window.value.to), Some(|kept|))
  }

  /** Against such a database, a listing succeeds exactly when its window is
      served, and then returns at most one page of rows, every one of which
      passes the read filter, with the exact filtered total; a refused window
      is answered with 500 and the database's message. */
  lemma ListOverTable(table: seq<ProposalRow>, q: ListQuery, refusal: string)
    requires q.search.None?
    requires q.window.Some? && q.window.value.from >= 0
    requires q.window.value.to - q.window.value.from + 1 == q.window.value.limit
    ensures var r := ListResponse(Answer(table, q, refusal));
            var total := |FilterRead(table, q.readFilter)|;
            && (r.Success? <==> q.window.value.limit >= 0 && q.window.value.from <= total)
            && (r.Failure? ==> r == Failure(ServerError, refusal))
            && (r.Success? ==> r.payload.total == Some(total) && |r.payload.data| <= q.window.value.limit)
            && (r.Success? && q.readFilter.Some? ==>
                  forall i :: 0 <= i < |r.payload.data| ==> r.payload.data[i].isRead == q.readFilter.value)
  {
    var kept := FilterRead(table, q.readFilter);
    if Satisfiable(q.window.value, |kept|) {
      var data := RangeRows(kept, q.window.value.from, q.window.value.to);
      assert ListResponse(Answer(table, q, refusal)).payload.data == data;
      forall i | 0 <= i < |data| ensures q.readFilter.Some? ==> data[i].isRead == q.readFilter.value {
        assert data[i] == kept[q.window.value.from + i];
      }
    }
  }

  // ---------------------------------------------------------------------
  // Submitting

  /** The reply of `select('id').eq('email', email).single()`: the row's id when
      exactly one row matches, and otherwise the client's single-row error. */
  datatype LookupReply = Found | LookupError(code: string)

  function LookupByEmail(table: seq<ProposalRow>, email: string): (r: LookupReply)
    ensures r == Found <==> CountWhere(table, EmailIs(email)) == 1
    ensures r.LookupError? ==> r.code == SingleRowCode
  {
    if CountWhere(table, EmailIs(email)) == 1 then Found else LookupError(SingleRowCode)
  }

  /** No two rows share an e-mail address. */
  predicate UniqueEmails(table: seq<ProposalRow>) {
    forall i, j :: 0 <= i < j < |table| ==> table[i].email != table[j].email
  }

  lemma {:induction false} UniqueCountAtMostOne(table: seq<ProposalRow>, email: string)
    requires UniqueEmails(table)
    ensures CountWhere(table, EmailIs(email)) <= 1
  {
    if table != [] {
      var init := table[..|table| - 1];
      assert UniqueEmails(init);
      UniqueCountAtMostOne(init, email);
      if table[|table| - 1].email == email {
        assert forall i :: 0 <= i < |init| ==> init[i].email != email by {
          forall i | 0 <= i < |init| ensures init[i].email != email {
            assert table[i].email != table[|table| - 1].email;
          }
        }
      }
    }
  }

  /** The submit handler. `lookupFailure` is a lookup failure other than the
      single-row error; `freshId` is the id the database gives a new row. */
  function Submit(table: seq<ProposalRow>, body: ProposalBody, isUrl: string -> bool, isEmail: string -> bool,
                  lookupFailure: Option<string>, freshId: string,
                  insertError: Option<string>): (r: (Response<bool>, seq<ProposalRow>))
    ensures Issues(body, isUrl, isEmail) != [] ==> r == (Failure(BadRequest, InvalidDataMessage), table)
    ensures r.0.Failure? ==> r.1 == table
    ensures Issues(body, isUrl, isEmail) == [] && lookupFailure.Some? ==>
              r == (Failure(ServerError, lookupFailure.value), table)
    ensures Issues(body, isUrl, isEmail) == [] && lookupFailure.None? ==>
              (r.0 == Failure(Conflict, DuplicateMessage) <==> CountWhere(table, EmailIs(body.email.s)) == 1)
    ensures Issues(body, isUrl, isEmail) == [] && lookupFailure.None? && CountWhere(table, EmailIs(body.email.s)) != 1 ==>
              && (insertError.Some? ==> r == (Failure(ServerError, insertError.value), table))
              && (insertError.None? ==> r.0 == Success(true))
    ensures r.0.Success? ==>
              && Issues(body, isUrl, isEmail) == [] && lookupFailure.None? && insertError.None?
              && CountWhere(table, EmailIs(body.email.s)) != 1
              && r.1 == table + [ProposalRow(freshId, body.name.s, body.email.s,
                                             body.phoneNumber.s, body.fileUrl.s, false)]
  {
    if Issues(body, isUrl, isEmail) != [] then (Failure(BadRequest, InvalidDataMessage), table)
    else
      ValidIff(body, isUrl, isEmail);
      if lookupFailure.Some? then (Failure(ServerError, lookupFailure.value), table)
      else
        match LookupByEmail(table, body.email.s)
        case Found => (Failure(Conflict, DuplicateMessage), table)
        case LookupError(_) =>
          if insertError.Some? then (Failure(ServerError, insertError.value), table)
          else (Success(true), table + [ProposalRow(freshId, body.name.s, body.email.s,
                                                    body.phoneNumber.s, body.fileUrl.s, false)])
  }

  /** Submissions keep e-mail addresses unique: a second submission with an
      address already present is refused with 409, and a new one is inserted. */
  lemma SubmitKeepsEmailsUnique(table: seq<ProposalRow>, body: ProposalBody,
                                isUrl: string -> bool, isEmail: string -> bool,
                                lookupFailure: Option<string>, freshId: string, insertError: Option<string>)
    requires UniqueEmails(table)
    ensures UniqueEmails(Submit(table, body, isUrl, isEmail, lookupFailure, freshId, insertError).1)
  {
    var r := Submit(table, body, isUrl, isEmail, lookupFailure, freshId, insertError);
    if r.0.Success? {
      UniqueCountAtMostOne(table, body.email.s);
      assert CountWhere(table, EmailIs(body.email.s)) == 0;
      var t := r.1;
      forall i, j | 0 <= i < j < |t| ensures t[i].email != t[j].email {
        if j == |table| {
          assert t[i] == table[i];
        } else {
          assert t[i] == table[i] && t[j] == table[j];
        }
      }
    }
  }

  /** Once two rows share an address, the lookup's single-row error reads as
      "no proposal yet", so a third submission with that address is accepted. */
  lemma DuplicatesHideConflict(a: ProposalRow, b: ProposalRow, body: ProposalBody,
                               isUrl: string -> bool, isEmail: string -> bool, freshId: string)
    requires Issues(body, isUrl, isEmail) == []
    requires a.email == body.email.s && b.email == body.email.s
    ensures Submit([a, b], body, isUrl, isEmail, None, freshId, None).0 == Success(true)
  {
    assert [a, b][..1] == [a];
    assert CountWhere([a, b], EmailIs(body.email.s)) == 2;
  }

  // ---------------------------------------------------------------------
  // Marking as read

  /** The PATCH body: unparseable JSON, or the `id` it carries. */
  datatype PatchBody = Unparseable | PatchBody(id: JsValue)

  /** `update({ is_read: true }).eq('id', id)`: every row with that id is read,
      all other rows are unchanged. */
  function MarkRead(table: seq<ProposalRow>, id: string): (t: seq<ProposalRow>)
    ensures |t| == |table|
    ensures forall i :: 0 <= i < |t| ==>
              t[i] == if table[i].id == id then table[i].(isRead := true) else table[i]
  {
    seq(|table|, i requires 0 <= i < |table| =>
      if table[i].id == id then table[i].(isRead := true) else table[i])
  }

  /** The rows with that id, as `.select()` returns them after the update. */
  function RowsWithId(table: seq<ProposalRow>, id: string): (r: seq<ProposalRow>)
    ensures forall i :: 0 <= i < |r| ==> r[i] in table && r[i].id == id
    ensures forall i :: 0 <= i < |table| && table[i].id == id ==> table[i] in r
    ensures |r| == CountWhere(table, IdIs(id))
  {
    Where(table, IdIs(id))
  }

  /** The mark-as-read handler. The id reaches the database as text, so it is
      compared with row ids through `String(id)`. */
  function Patch(table: seq<ProposalRow>, body: PatchBody,
                 updateError: Option<string>): (r: (Response<seq<ProposalRow>>, seq<ProposalRow>))
    ensures body.Unparseable? ==> r == (Failure(BadRequest, BadBodyMessage), table)
    ensures body.PatchBody? && !Truthy(body.id) ==> r == (Failure(BadRequest, MissingIdMessage), table)
    ensures r.0.Failure? ==> r.1 == table
    ensures r.0.Success? <==> body.PatchBody? && Truthy(body.id) && updateError.None?
    ensures body.PatchBody? && Truthy(body.id) && updateError.Some? ==>
              r == (Failure(ServerError, updateError.value), table)
    ensures r.0.Success? ==>
              r.1 == MarkRead(table, ToText(body.id)) && r.0.payload == RowsWithId(r.1, ToText(body.id))
  {
    match body
    case Unparseable => (Failure(BadRequest, BadBodyMessage), table)
    case PatchBody(id) =>
      if !Truthy(id) then (Failure(BadRequest, MissingIdMessage), table)
      else if updateError.Some? then (Failure(ServerError, updateError.value), table)
      else
        var t := MarkRead(table, ToText(id));
        (Success(RowsWithId(t, ToText(id))), t)
  }

  /** Marking as read twice is the same as marking once. */
  lemma PatchIdempotent(table: seq<ProposalRow>, id: string)
    requires id != ""
    ensures var once := Patch(table, PatchBody(Str(id)), None);
            Patch(once.1, PatchBody(Str(id)), None) == once
  {
    var t := MarkRead(table, id);
    assert MarkRead(t, id) == t;
  }
}

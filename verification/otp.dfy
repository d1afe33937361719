/**
 One-time passwords for e-mail confirmation (`POST /api/send-otp` and
 `POST /api/verify-otp`). The `email_otps` table is a sequence of records;
 a record's id is its position, as the table's serial ids are assigned in
 insertion order. Times are milliseconds since the epoch; the random draw,
 the clock and every database or mail failure are parameters.
 */
module Otp {
  import opened Optional
  import opened JsValues
  import opened Http

  /** An OTP stays valid for two minutes after it is issued. */
  const LifetimeMs := 2 * 60 * 1000

  const MissingSendFieldsMessage := "Email dan nama wajib diisi"
  const MailFailedMessage := "Gagal mengirim email"
  const SentMessage := "OTP dikirim ke email"
  const MissingVerifyFieldsMessage := "Email dan OTP diperlukan"
  const InvalidMessage := "OTP tidak valid atau salah"
  const ExpiredMessage := "OTP sudah kedaluwarsa"
  const ValidMessage := "OTP valid"

  /** A row of `email_otps`; `createdAt` and `verified` are filled by the
      database's defaults (the insert time, and false). */
  datatype OtpRecord = OtpRecord(email: string, otp: string, expiresAt: int, createdAt: int, verified: bool)

  /** A body field that JavaScript treats as given: present and non-empty. */
  predicate Given(field: Option<string>) {
    field.Some? && field.value != ""
  }

  // ---------------------------------------------------------------------
  // Issuing

  /** `Math.floor(100000 + draw * 900000)` for a draw of `Math.random()`. */
  function OtpNumber(draw: real): (n: nat)
    requires 0.0 <= draw < 1.0
    ensures 100000 <= n <= 999999
  {
    var x := 100000.0 + draw * 900000.0;
    assert 100000.0 <= x < 1000000.0;
    x.Floor
  }

  /** The OTP text: exactly six decimal digits, never starting with zero. */
  function GenerateOtp(draw: real): (otp: string)
    requires 0.0 <= draw < 1.0
    ensures |otp| == 6
    ensures forall i :: 0 <= i < |otp| ==> IsAsciiDigit(otp[i])
    ensures otp[0] != '0'
    ensures ParseInt(otp, Decimal) == Some(OtpNumber(draw))
  {
    var n := OtpNumber(draw);
    assert Pow10(5) == 100000 && Pow10(6) == 1000000;
    DecimalStringLength(n, 6);
    ParseIntOfDecimal(n, Decimal);
    DecimalString(n)
  }

  datatype SendBody = SendBody(email: Option<string>, name: Option<string>)

  /** The mail the handler asks to send: recipient, name and OTP. */
  datatype Mail = Mail(to: string, name: string, otp: string)

  /** What issuing leaves behind: the response, the table, and the mail that was
      attempted (if any). */
  datatype SendOutcome = SendOutcome(response: Response<string>, table: seq<OtpRecord>, mail: Option<Mail>)

  /** The send handler. The record is inserted before the mail is sent, and a
      failed mail does not remove it. */
  function Send(table: seq<OtpRecord>, body: SendBody, draw: real, now: int,
                insertError: Option<string>, mailFails: bool): (r: SendOutcome)
    requires 0.0 <= draw < 1.0
    ensures !Given(body.email) || !Given(body.name) ==>
              r == SendOutcome(Failure(BadRequest, MissingSendFieldsMessage), table, None)
    ensures Given(body.email) && Given(body.name) && insertError.Some? ==>
              r == SendOutcome(Failure(ServerError, insertError.value), table, None)
    ensures Given(body.email) && Given(body.name) && insertError.None? ==>
              && r.table == table + [OtpRecord(body.email.value, GenerateOtp(draw), now + LifetimeMs, now, false)]
              && r.mail == Some(Mail(body.email.value, body.name.value, GenerateOtp(draw)))
              && r.response == (if mailFails then Failure(ServerError, MailFailedMessage) else Success(SentMessage))
  {
    if !Given(body.email) || !Given(body.name) then
      SendOutcome(Failure(BadRequest, MissingSendFieldsMessage), table, None)
    else
      var otp := GenerateOtp(draw);
      var expiresAt := now + LifetimeMs;
      match insertError
      case Some(message) => SendOutcome(Failure(ServerError, message), table, None)
      case None =>
        var table' := table + [OtpRecord(body.email.value, otp, expiresAt, now, false)];
        var mail := Mail(body.email.value, body.name.value, otp);
        if mailFails then SendOutcome(Failure(ServerError, MailFailedMessage), table', Some(mail))
        else SendOutcome(Success(SentMessage), table', Some(mail))
  }

  // ---------------------------------------------------------------------
  // Verifying

  datatype VerifyBody = VerifyBody(email: Option<string>, otp: Option<string>)

  /** The query's filter: same e-mail, same OTP, not yet verified. */
  predicate IsCandidate(rec: OtpRecord, email: string, otp: string) {
    rec.email == email && rec.otp == otp && !rec.verified
  }

  /** The record the query picks: a candidate with the latest `createdAt`; among
      records created at the same instant, the one inserted last. */
  function LatestCandidate(table: seq<OtpRecord>, email: string, otp: string): (r: Option<nat>)
    ensures r.None? <==> forall i :: 0 <= i < |table| ==> !IsCandidate(table[i], email, otp)
    ensures r.Some? ==> r.value < |table| && IsCandidate(table[r.value], email, otp)
    ensures r.Some? ==> forall i :: 0 <= i < |table| && IsCandidate(table[i], email, otp) ==>
              table[i].createdAt < table[r.value].createdAt
              || (table[i].createdAt == table[r.value].createdAt && i <= r.value)
  {
    if table == [] then None
    else
      var last := |table| - 1;
      var rest := LatestCandidate(table[..last], email, otp);
      if !IsCandidate(table[last], email, otp) then rest
      else if rest.Some? && table[rest.value].createdAt > table[last].createdAt then rest
      else Some(last)
  }

  /** The verify handler at time `now`. `queryFails` is a failure of the lookup
      other than "no row"; `updateFails` a failure of the update, which the
      handler does not check. */
  function Verify(table: seq<OtpRecord>, body: VerifyBody, now: int,
                  queryFails: bool, updateFails: bool): (r: (Response<string>, seq<OtpRecord>))
    ensures |r.1| == |table|
    ensures r.0.Failure? ==> r.0.status == BadRequest && r.1 == table
    ensures !Given(body.email) || !Given(body.otp) ==> r.0 == Failure(BadRequest, MissingVerifyFieldsMessage)
    ensures Given(body.email) && Given(body.otp) ==>
              var c := LatestCandidate(table, body.email.value, body.otp.value);
              && (queryFails || c.None? ==> r.0 == Failure(BadRequest, InvalidMessage))
              && (!queryFails && c.Some? ==>
                    && (table[c.value].expiresAt < now ==> r.0 == Failure(BadRequest, ExpiredMessage))
                    && (table[c.value].expiresAt >= now ==>
                          && r.0 == Success(ValidMessage)
                          && r.1 == (if updateFails then table else table[c.value := table[c.value].(verified := true)])))
  {
    if !Given(body.email) || !Given(body.otp) then
      (Failure(BadRequest, MissingVerifyFieldsMessage), table)
    else
      var c := LatestCandidate(table, body.email.value, body.otp.value);
      if queryFails || c.None? then (Failure(BadRequest, InvalidMessage), table)
      else if table[c.value].expiresAt < now then (Failure(BadRequest, ExpiredMessage), table)
      else if updateFails then (Success(ValidMessage), table)
      else (Success(ValidMessage), table[c.value := table[c.value].(verified := true)])
  }

  /** Indices of the records a verify request with these fields could pick. */
  function Candidates(table: seq<OtpRecord>, email: string, otp: string): set<nat> {
    set i: nat | i < |table| && IsCandidate(table[i], email, otp)
  }

  /** A successful verification consumes exactly the record it picked: the
      candidates afterwards are those before, minus that one, and no other
      record changes. */
  lemma VerifyConsumesCandidate(table: seq<OtpRecord>, email: string, otp: string, now: int)
    requires email != "" && otp != ""
    requires Verify(table, VerifyBody(Some(email), Some(otp)), now, false, false).0.Success?
    ensures var c := LatestCandidate(table, email, otp);
            var table' := Verify(table, VerifyBody(Some(email), Some(otp)), now, false, false).1;
            && c.Some?
            && Candidates(table', email, otp) == Candidates(table, email, otp) - {c.value}
            && |table'| == |table|
            && (forall i :: 0 <= i < |table| && i != c.value ==> table'[i] == table[i])
  {
  }

  /** Replaying a code fails once its only matching record has been verified. */
  lemma ReplayRejected(table: seq<OtpRecord>, email: string, otp: string, now: int, later: int)
    requires email != "" && otp != ""
    requires |Candidates(table, email, otp)| == 1
    requires Verify(table, VerifyBody(Some(email), Some(otp)), now, false, false).0.Success?
    ensures var table' := Verify(table, VerifyBody(Some(email), Some(otp)), now, false, false).1;
            Verify(table', VerifyBody(Some(email), Some(otp)), later, false, false)
              == (Failure(BadRequest, InvalidMessage), table')
  {
    var c := LatestCandidate(table, email, otp);
    var table' := Verify(table, VerifyBody(Some(email), Some(otp)), now, false, false).1;
    VerifyConsumesCandidate(table, email, otp, now);
    assert c.value in Candidates(table, email, otp);
    assert |Candidates(table, email, otp) - {c.value}| == 0;
    assert Candidates(table', email, otp) == {};
    assert forall i :: 0 <= i < |table'| ==> !IsCandidate(table'[i], email, otp) by {
      forall i | 0 <= i < |table'| ensures !IsCandidate(table'[i], email, otp) {
        assert (i as nat) !in Candidates(table', email, otp);
      }
    }
  }

  /** Every record was created strictly before `now`: the clock has moved on
      since the last insert, so no earlier record ties a record created at
      `now` (the query's order leaves the order of tied rows open). */
  predicate CreatedBefore(table: seq<OtpRecord>, now: int) {
    forall i :: 0 <= i < |table| ==> table[i].createdAt < now
  }

  /** A matching record appended later than every earlier record is the one
      the query picks. */
  lemma NewestCandidateIsPicked(table: seq<OtpRecord>, rec: OtpRecord, email: string, otp: string)
    requires CreatedBefore(table, rec.createdAt)
    requires IsCandidate(rec, email, otp)
    ensures LatestCandidate(table + [rec], email, otp) == Some(|table|)
  {
    assert (table + [rec])[..|table|] == table;
  }

  /** Issuing then verifying with the code just mailed succeeds exactly while
      the two minutes have not run out (the expiry instant itself included). */
  lemma IssueThenVerify(table: seq<OtpRecord>, email: string, name: string, draw: real,
                        now: int, later: int, mailFails: bool)
    requires 0.0 <= draw < 1.0
    requires email != "" && name != ""
    requires CreatedBefore(table, now)
    ensures var sent := Send(table, SendBody(Some(email), Some(name)), draw, now, None, mailFails);
            var otp := sent.mail.value.otp;
            var r := Verify(sent.table, VerifyBody(Some(email), Some(otp)), later, false, false);
            && (later <= now + LifetimeMs ==>
                  r.0 == Success(ValidMessage) && r.1[|table|].verified)
            && (later > now + LifetimeMs ==> r.0 == Failure(BadRequest, ExpiredMessage))
  {
    var otp := GenerateOtp(draw);
    var rec := OtpRecord(email, otp, now + LifetimeMs, now, false);
    var body := SendBody(Some(email), Some(name));
    assert Given(body.email) && Given(body.name);
    var sent := Send(table, body, draw, now, None, mailFails);
    assert sent.table == table + [rec] && sent.mail.value.otp == otp;
    assert otp != "";
    NewestCandidateIsPicked(table, rec, email, otp);
    VerifyPicked(sent.table, email, otp, later, |table|);
    assert sent.table[|table|] == rec;
  }

  /** The picked record is accepted up to and including its expiry instant. */
  lemma VerifyPicked(table: seq<OtpRecord>, email: string, otp: string, later: int, c: nat)
    requires email != "" && otp != ""
    requires LatestCandidate(table, email, otp) == Some(c)
    ensures c < |table|
    ensures var r := Verify(table, VerifyBody(Some(email), Some(otp)), later, false, false);
            && (later <= table[c].expiresAt ==> r.0 == Success(ValidMessage) && r.1[c].verified)
            && (later > table[c].expiresAt ==> r.0 == Failure(BadRequest, ExpiredMessage))
  {
    assert Given(Some(email)) && Given(Some(otp));
  }
}

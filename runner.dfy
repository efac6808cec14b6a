/**
 * One firing of a scheduled task: `email_task`. It reads the recipient rows
 * and the message template, validates each address, sends a rendered message
 * to every valid one and audits the outcome, collects the invalid ones for the
 * invalid-address log and a single warning, and turns any exception into one
 * error audit entry.
 *
 * The outside world is given as values: the rows pandas would read (or none,
 * when reading fails), the template text (or none), and `reply(k)`, the result
 * `send_email` returns for the k-th message of this firing. What the firing
 * appends to the mail transport, the audit collection and the invalid-address
 * file is returned as `Effects`.
 */
module Runner {
  import opened Wrappers
  import Address
  import Template

  /** A spreadsheet cell as pandas hands it over: a string, or anything else (NaN, a number, None). */
  datatype Cell = Text(value: string) | NonText

  /** One recipient row: `row.get("email")` and `row.get("name", "")`. */
  datatype Row = Row(email: Cell, name: Cell)

  /** The `args` a job is registered with: `[task_name, email_list, message_file, subject, attachments]`. */
  datatype JobArgs = JobArgs(
    task: string,
    emailList: string,
    messageFile: string,
    subject: string,
    attachments: seq<string>)

  datatype Level = INFO | WARNING | ERROR

  /** The exception that ended a firing. */
  datatype Failure =
    | UnsupportedFormat   // the ValueError raised for a list that is neither .csv nor .xlsx
    | ListUnreadable      // pandas could not read the list
    | TemplateUnreadable  // the message file could not be opened
    | BadCell             // a non-string address, or a non-string name of a valid address

  datatype Status = EmailSent | EmailFailed | InvalidEmails | Failed(cause: Failure)

  datatype Details =
    | SentTo(recipient: string, subject: string)
    | InvalidList(invalidEmails: seq<string>)
    | Attempt(emailList: string, messageFile: string, subject: string, attachments: seq<string>)

  /** One `log_to_mongodb` record (its wall-clock timestamp is not modelled). */
  datatype AuditEntry = AuditEntry(task: string, details: Details, status: Status, level: Level)

  /** One `send_email` call. */
  datatype Mail = Mail(to: string, subject: string, body: string, attachments: seq<string>)

  /** What one firing appends: messages handed to the sender, audit records, invalid-log lines. */
  datatype Effects = Effects(sends: seq<Mail>, audit: seq<AuditEntry>, invalidLog: seq<string>)

  /** The state of the row loop: what was sent and audited so far, `invalid_emails`, and the exception, if any. */
  datatype Progress = Progress(sends: seq<Mail>, audit: seq<AuditEntry>, invalid: seq<string>, failure: Option<Failure>)

  predicate EndsWith(s: string, suffix: string)
  {
    |suffix| <= |s| && s[|s| - |suffix|..] == suffix
  }

  /** The list formats `email_task` reads. */
  predicate HasListExtension(path: string)
  {
    EndsWith(path, ".csv") || EndsWith(path, ".xlsx")
  }

  function SendEntry(a: JobArgs, email: string, ok: bool): AuditEntry
  {
    if ok then AuditEntry(a.task, SentTo(email, a.subject), EmailSent, INFO)
    else AuditEntry(a.task, SentTo(email, a.subject), EmailFailed, ERROR)
  }

  function WarningEntry(a: JobArgs, invalid: seq<string>): AuditEntry
  {
    AuditEntry(a.task, InvalidList(invalid), InvalidEmails, WARNING)
  }

  function ErrorEntry(a: JobArgs, cause: Failure): AuditEntry
  {
    AuditEntry(a.task, Attempt(a.emailList, a.messageFile, a.subject, a.attachments), Failed(cause), ERROR)
  }

  /** One iteration of the row loop; nothing happens once an exception has been raised. */
  function Step(a: JobArgs, template: string, reply: nat -> bool, p: Progress, row: Row): Progress
  {
    if p.failure.Some? then p
    else if row.email.NonText? then p.(failure := Some(BadCell))
    else if !Address.IsValidEmail(row.email.value) then p.(invalid := p.invalid + [row.email.value])
    else if row.name.NonText? then p.(failure := Some(BadCell))
    else
      var ok := reply(|p.sends|);
      p.(sends := p.sends + [Mail(row.email.value, a.subject, Template.Render(template, row.name.value), a.attachments)],
         audit := p.audit + [SendEntry(a, row.email.value, ok)])
  }

  /** The row loop over `rows`, in order. */
  function Scan(a: JobArgs, template: string, reply: nat -> bool, rows: seq<Row>): Progress
  {
    if rows == [] then Progress([], [], [], None)
    else Step(a, template, reply, Scan(a, template, reply, rows[..|rows| - 1]), rows[|rows| - 1])
  }

  /** The whole firing, `email_task`, as a function of its inputs. */
  function Fire(a: JobArgs, source: Option<seq<Row>>, template: Option<string>, reply: nat -> bool): Effects
  {
    if !HasListExtension(a.emailList) then Effects([], [ErrorEntry(a, UnsupportedFormat)], [])
    else if source.None? then Effects([], [ErrorEntry(a, ListUnreadable)], [])
    else if template.None? then Effects([], [ErrorEntry(a, TemplateUnreadable)], [])
    else Report(a, Scan(a, template.value, reply, source.value))
  }

  /**
   * What follows the row loop: the exception handler's error entry, or the
   * warning entry and the log file when some addresses were invalid.
   */
  function Report(a: JobArgs, p: Progress): Effects
  {
    if p.failure.Some? then Effects(p.sends, p.audit + [ErrorEntry(a, p.failure.value)], [])
    else if p.invalid == [] then Effects(p.sends, p.audit, [])
    else Effects(p.sends, p.audit + [WarningEntry(a, p.invalid)], p.invalid)
  }

  /** Once an exception has been raised, the remaining rows are not looked at. */
  lemma {:induction false} ScanAbsorbs(a: JobArgs, template: string, reply: nat -> bool, rows: seq<Row>, m: nat, n: nat)
    requires m <= n <= |rows|
    requires Scan(a, template, reply, rows[..m]).failure.Some?
    ensures Scan(a, template, reply, rows[..n]) == Scan(a, template, reply, rows[..m])
    decreases n
  {
    if n > m {
      ScanAbsorbs(a, template, reply, rows, m, n - 1);
      assert rows[..n][..n - 1] == rows[..n - 1];
    }
  }

  /** The loop over `rows[..i + 1]` is the loop over `rows[..i]` followed by row `i`. */
  lemma ScanPrefix(a: JobArgs, template: string, reply: nat -> bool, rows: seq<Row>, i: nat)
    requires i < |rows|
    ensures Scan(a, template, reply, rows[..i + 1]) ==
      Step(a, template, reply, Scan(a, template, reply, rows[..i]), rows[i])
  {
    assert rows[..i + 1][..i] == rows[..i];
  }

  /** A row that raises ends the loop: the whole loop stops where that row's step stops. */
  lemma ScanStopsAt(a: JobArgs, template: string, reply: nat -> bool, rows: seq<Row>, i: nat)
    requires i < |rows|
    requires Step(a, template, reply, Scan(a, template, reply, rows[..i]), rows[i]).failure.Some?
    ensures Scan(a, template, reply, rows) == Step(a, template, reply, Scan(a, template, reply, rows[..i]), rows[i])
  {
    ScanPrefix(a, template, reply, rows, i);
    ScanAbsorbs(a, template, reply, rows, i + 1, |rows|);
    assert rows[..|rows|] == rows;
  }

  /** A row with an invalid address only extends the list of invalid addresses. */
  lemma ScanInvalidRow(a: JobArgs, template: string, reply: nat -> bool, rows: seq<Row>, i: nat,
                       sends: seq<Mail>, audit: seq<AuditEntry>, invalid: seq<string>)
    requires i < |rows| && rows[i].email.Text? && !Address.IsValidEmail(rows[i].email.value)
    requires Scan(a, template, reply, rows[..i]) == Progress(sends, audit, invalid, None)
    ensures Scan(a, template, reply, rows[..i + 1]) == Progress(sends, audit, invalid + [rows[i].email.value], None)
  {
    ScanPrefix(a, template, reply, rows, i);
  }

  /** A row with a valid address and a name sends one message and audits it. */
  lemma ScanSendRow(a: JobArgs, template: string, reply: nat -> bool, rows: seq<Row>, i: nat,
                    sends: seq<Mail>, audit: seq<AuditEntry>, invalid: seq<string>)
    requires i < |rows| && rows[i].email.Text? && Address.IsValidEmail(rows[i].email.value) && rows[i].name.Text?
    requires Scan(a, template, reply, rows[..i]) == Progress(sends, audit, invalid, None)
    ensures Scan(a, template, reply, rows[..i + 1]) ==
      Progress(sends + [Mail(rows[i].email.value, a.subject, Template.Render(template, rows[i].name.value), a.attachments)],
               audit + [SendEntry(a, rows[i].email.value, reply(|sends|))], invalid, None)
  {
    ScanPrefix(a, template, reply, rows, i);
  }

  /**
   * The row loop of `email_task`: validate, render and send row by row,
   * stopping at the first row whose cell raises.
   */
  method SendRows(a: JobArgs, body: string, reply: nat -> bool, rows: seq<Row>) returns (p: Progress)
    ensures p == Scan(a, body, reply, rows)
  {
    var sends: seq<Mail> := [];
    var audit: seq<AuditEntry> := [];
    var invalid: seq<string> := [];
    var i := 0;
    while i < |rows|
      invariant 0 <= i <= |rows|
      invariant Scan(a, body, reply, rows[..i]) == Progress(sends, audit, invalid, None)
    {
      var row := rows[i];
      if row.email.NonText? {
        ScanStopsAt(a, body, reply, rows, i);
        return Progress(sends, audit, invalid, Some(BadCell));
      }
      var email := row.email.value;
      if !Address.IsValidEmail(email) {
        ScanInvalidRow(a, body, reply, rows, i, sends, audit, invalid);
        invalid := invalid + [email];
      } else {
        if row.name.NonText? {
          ScanStopsAt(a, body, reply, rows, i);
          return Progress(sends, audit, invalid, Some(BadCell));
        }
        ScanSendRow(a, body, reply, rows, i, sends, audit, invalid);
        var message := Template.Render(body, row.name.value);
        var ok := reply(|sends|);
        sends := sends + [Mail(email, a.subject, message, a.attachments)];
        audit := audit + [SendEntry(a, email, ok)];
      }
      i := i + 1;
    }
    assert rows[..i] == rows;
    p := Progress(sends, audit, invalid, None);
  }

  /** The end of `email_task`: the invalid addresses written out one by one, then the final audit entry. */
  method WriteReport(a: JobArgs, p: Progress) returns (fx: Effects)
    ensures fx == Report(a, p)
  {
    if p.failure.Some? {
      return Effects(p.sends, p.audit + [ErrorEntry(a, p.failure.value)], []);
    }
    var audit := p.audit;
    var log: seq<string> := [];
    if p.invalid != [] {
      var j := 0;
      while j < |p.invalid|
        invariant 0 <= j <= |p.invalid|
        invariant log == p.invalid[..j]
      {
        log := log + [p.invalid[j]];
        j := j + 1;
      }
      assert p.invalid[..j] == p.invalid;
      audit := audit + [WarningEntry(a, p.invalid)];
    }
    fx := Effects(p.sends, audit, log);
  }

  /** `email_task`: the firing as the source runs it. */
  method EmailTask(a: JobArgs, source: Option<seq<Row>>, template: Option<string>, reply: nat -> bool)
    returns (fx: Effects)
    ensures fx == Fire(a, source, template, reply)
  {
    if !HasListExtension(a.emailList) {
      return Effects([], [ErrorEntry(a, UnsupportedFormat)], []);
    }
    if source.None? {
      return Effects([], [ErrorEntry(a, ListUnreadable)], []);
    }
    if template.None? {
      return Effects([], [ErrorEntry(a, TemplateUnreadable)], []);
    }
    var p := SendRows(a, template.value, reply, source.value);
    fx := WriteReport(a, p);
  }

  // ---------------------------------------------------------------------------
  // What a firing does, stated row by row.
  // ---------------------------------------------------------------------------

  /** A recipient that passed validation: its address and its name. */
  datatype Recipient = Recipient(email: string, name: string)

  /** Every address is a string, and so is the name of every valid address: no row raises. */
  predicate WellFormed(rows: seq<Row>)
  {
    forall i :: 0 <= i < |rows| ==>
      rows[i].email.Text? && (Address.IsValidEmail(rows[i].email.value) ==> rows[i].name.Text?)
  }

  /** The rows whose address passes validation, in row order. */
  function Accepted(rows: seq<Row>): seq<Recipient>
    requires WellFormed(rows)
  {
    if rows == [] then []
    else
      var last := rows[|rows| - 1];
      var init := Accepted(rows[..|rows| - 1]);
      if Address.IsValidEmail(last.email.value) then init + [Recipient(last.email.value, last.name.value)]
      else init
  }

  /** The addresses that fail validation, in row order. */
  function Rejected(rows: seq<Row>): seq<string>
    requires WellFormed(rows)
  {
    if rows == [] then []
    else
      var last := rows[|rows| - 1];
      var init := Rejected(rows[..|rows| - 1]);
      if Address.IsValidEmail(last.email.value) then init else init + [last.email.value]
  }

  /** The message each accepted recipient is sent: the template rendered with its name. */
  function MailsTo(a: JobArgs, template: string, rs: seq<Recipient>): seq<Mail>
  {
    seq(|rs|, j requires 0 <= j < |rs| => Mail(rs[j].email, a.subject, Template.Render(template, rs[j].name), a.attachments))
  }

  /** One audit record per accepted recipient; the j-th send's outcome decides sent or failed. */
  function SendAudit(a: JobArgs, reply: nat -> bool, rs: seq<Recipient>): seq<AuditEntry>
  {
    seq(|rs|, j requires 0 <= j < |rs| => SendEntry(a, rs[j].email, reply(j)))
  }

  /** Accepted recipients all pass validation, rejected addresses all fail it, and each row is one or the other. */
  lemma {:induction false} AcceptedRejectedPartition(rows: seq<Row>)
    requires WellFormed(rows)
    ensures forall j :: 0 <= j < |Accepted(rows)| ==> Address.IsValidEmail(Accepted(rows)[j].email)
    ensures forall j :: 0 <= j < |Rejected(rows)| ==> !Address.IsValidEmail(Rejected(rows)[j])
    ensures |Accepted(rows)| + |Rejected(rows)| == |rows|
  {
    if rows != [] {
      AcceptedRejectedPartition(rows[..|rows| - 1]);
    }
  }

  lemma MailsToAppend(a: JobArgs, template: string, rs: seq<Recipient>, r: Recipient)
    ensures MailsTo(a, template, rs + [r]) ==
      MailsTo(a, template, rs) + [Mail(r.email, a.subject, Template.Render(template, r.name), a.attachments)]
  {
  }

  lemma SendAuditAppend(a: JobArgs, reply: nat -> bool, rs: seq<Recipient>, r: Recipient)
    ensures SendAudit(a, reply, rs + [r]) == SendAudit(a, reply, rs) + [SendEntry(a, r.email, reply(|rs|))]
  {
  }

  /** On rows that raise nothing, the loop sends to and audits exactly the accepted recipients and collects the rejected addresses. */
  lemma {:induction false} ScanWellFormed(a: JobArgs, template: string, reply: nat -> bool, rows: seq<Row>)
    requires WellFormed(rows)
    ensures Scan(a, template, reply, rows) ==
      Progress(MailsTo(a, template, Accepted(rows)), SendAudit(a, reply, Accepted(rows)), Rejected(rows), None)
  {
    if rows != [] {
      var init := rows[..|rows| - 1];
      var last := rows[|rows| - 1];
      assert WellFormed(init);
      ScanWellFormed(a, template, reply, init);
      var acc := Accepted(init);
      var p := Scan(a, template, reply, init);
      assert Scan(a, template, reply, rows) == Step(a, template, reply, p, last);
      assert last.email.Text?;
      if Address.IsValidEmail(last.email.value) {
        var r := Recipient(last.email.value, last.name.value);
        assert Accepted(rows) == acc + [r];
        MailsToAppend(a, template, acc, r);
        SendAuditAppend(a, reply, acc, r);
      } else {
        assert Accepted(rows) == acc;
      }
    }
  }

  /**
   * A firing that raises nothing: the sender is called once per valid row, in
   * row order; each call is audited once; the invalid addresses go to the log,
   * and a single warning follows exactly when there are any.
   */
  lemma FireWellFormed(a: JobArgs, rows: seq<Row>, template: string, reply: nat -> bool)
    requires HasListExtension(a.emailList)
    requires WellFormed(rows)
    ensures var fx := Fire(a, Some(rows), Some(template), reply);
      && fx.sends == MailsTo(a, template, Accepted(rows))
      && fx.invalidLog == Rejected(rows)
      && fx.audit == SendAudit(a, reply, Accepted(rows)) +
           (if Rejected(rows) == [] then [] else [WarningEntry(a, Rejected(rows))])
  {
    ScanWellFormed(a, template, reply, rows);
  }

  /** Nothing is sent to an address that fails validation, and nothing is logged as invalid that passes it. */
  lemma FireSendsOnlyValid(a: JobArgs, rows: seq<Row>, template: string, reply: nat -> bool)
    requires HasListExtension(a.emailList)
    requires WellFormed(rows)
    ensures var fx := Fire(a, Some(rows), Some(template), reply);
      && |fx.sends| + |fx.invalidLog| == |rows|
      && (forall j :: 0 <= j < |fx.sends| ==> Address.IsValidEmail(fx.sends[j].to))
      && (forall j :: 0 <= j < |fx.invalidLog| ==> !Address.IsValidEmail(fx.invalidLog[j]))
  {
    FireWellFormed(a, rows, template, reply);
    AcceptedRejectedPartition(rows);
  }

  /**
   * A list path without a supported extension, an unreadable list or an
   * unreadable template: no send, no invalid-log line, and exactly one error
   * record carrying the list path, message file, subject and attachments.
   */
  lemma FireFailsEarly(a: JobArgs, source: Option<seq<Row>>, template: Option<string>, reply: nat -> bool)
    requires !HasListExtension(a.emailList) || source.None? || template.None?
    ensures var fx := Fire(a, source, template, reply);
      && fx.sends == [] && fx.invalidLog == []
      && |fx.audit| == 1
      && fx.audit[0].details == Attempt(a.emailList, a.messageFile, a.subject, a.attachments)
      && fx.audit[0].status.Failed? && fx.audit[0].level == ERROR
  {
  }

  /** The first row that breaks well-formedness is a row that raises. */
  lemma FirstBadRow(rows: seq<Row>, i: nat)
    requires i < |rows|
    requires WellFormed(rows[..i])
    requires !WellFormed(rows[..i + 1])
    ensures rows[i].email.NonText? || (Address.IsValidEmail(rows[i].email.value) && rows[i].name.NonText?)
  {
    var row := rows[i];
    if row.email.Text? && !(Address.IsValidEmail(row.email.value) && row.name.NonText?) {
      var pre := rows[..i + 1];
      forall m | 0 <= m < |pre|
        ensures pre[m].email.Text?
        ensures Address.IsValidEmail(pre[m].email.value) ==> pre[m].name.Text?
      {
        if m < i {
          assert pre[m] == rows[..i][m];
        }
      }
    }
  }

  /**
   * A row that raises (a non-string address, or a non-string name for a valid
   * address) ends the firing: what was sent and audited before it stays, one
   * error record follows, and the invalid addresses collected so far are never
   * written to the log.
   */
  lemma FireFailsOnBadRow(a: JobArgs, rows: seq<Row>, template: string, reply: nat -> bool, i: nat)
    requires HasListExtension(a.emailList)
    requires i < |rows|
    requires WellFormed(rows[..i])
    requires !WellFormed(rows[..i + 1])
    ensures Fire(a, Some(rows), Some(template), reply) ==
      Effects(MailsTo(a, template, Accepted(rows[..i])),
              SendAudit(a, reply, Accepted(rows[..i])) + [ErrorEntry(a, BadCell)],
              [])
  {
    ScanWellFormed(a, template, reply, rows[..i]);
    FirstBadRow(rows, i);
    ScanPrefix(a, template, reply, rows, i);
    var p := Scan(a, template, reply, rows[..i + 1]);
    assert p.failure == Some(BadCell);
    ScanAbsorbs(a, template, reply, rows, i + 1, |rows|);
    assert rows[..|rows|] == rows;
    assert Scan(a, template, reply, rows) == p;
  }
}

/** Campaign creation (the POST branch of `new_campaign`) and the status
    query (`campaign_status`). The CSV file is read by an external library;
    its result enters the model as the list of values of the email column. */
module Campaigns {
  import opened Optional
  import opened PyStr
  import opened Models

  /** What the CSV step produced: no file, the email column's values (empty
      when the file has no email-like column), or a parse error. */
  datatype CsvInput = NoCsv | CsvEmails(emails: seq<string>) | CsvUnreadable

  /** Why a creation request is sent back to the form. */
  datatype CreateError = CsvError | NoRecipients

  /** A creation either inserts a campaign (with its key) or is refused. */
  datatype Creation = Created(store: Store, campaignId: nat) | Refused(error: CreateError)

  /** The addresses the CSV step contributes. */
  function CsvRows(csv: CsvInput): (r: seq<string>) {
    match csv
    case CsvEmails(e) => e
    case _ => []
  }

  /** The manual field cut into pieces: newlines count as commas. */
  function ManualPieces(raw: string): (r: seq<string>)
    ensures |r| >= 1
    ensures forall p :: p in r ==> ',' !in p && '\n' !in p
    ensures Join(r, ',') == ReplaceChar(raw, '\n', ",")
  {
    var t := ReplaceChar(raw, '\n', ",");
    JoinSplit(t, ',');
    Split(t, ',')
  }

  /** `e` is the image under `f` of some element of `xs`. */
  predicate ImageOf(e: string, xs: seq<string>, f: string -> string) {
    exists x :: x in xs && f(x) == e
  }

  /** `e` is what `strip()` makes of one of the pieces. */
  predicate StripOfPiece(e: string, pieces: seq<string>) {
    exists p :: p in pieces && Strip(p) == e
  }

  /** An image of a non-empty list is the image of its head or of its tail. */
  lemma ImageOfCons(xs: seq<string>, f: string -> string, e: string)
    requires xs != []
    ensures ImageOf(e, xs, f) <==> e == f(xs[0]) || ImageOf(e, xs[1..], f)
  {
    if ImageOf(e, xs, f) {
      var x :| x in xs && f(x) == e;
      var k :| 0 <= k < |xs| && xs[k] == x;
      if k > 0 {
        assert xs[1..][k - 1] == x;
      }
    }
    if ImageOf(e, xs[1..], f) {
      var x :| x in xs[1..] && f(x) == e;
      assert x in xs;
    }
    assert xs[0] in xs;
  }

  /** Being the strip of some piece, split on the first piece. */
  lemma StripOfPieceCons(pieces: seq<string>)
    requires pieces != []
    ensures forall x :: StripOfPiece(x, pieces) <==> x == Strip(pieces[0]) || StripOfPiece(x, pieces[1..])
  {
    forall x
      ensures StripOfPiece(x, pieces) <==> x == Strip(pieces[0]) || StripOfPiece(x, pieces[1..])
    {
      ImageOfCons(pieces, Strip, x);
      assert StripOfPiece(x, pieces) <==> ImageOf(x, pieces, Strip);
      assert StripOfPiece(x, pieces[1..]) <==> ImageOf(x, pieces[1..], Strip);
    }
  }

  /** `r` lists exactly the non-empty stripped forms of `pieces`. */
  ghost predicate KeptFrom(r: seq<string>, pieces: seq<string>) {
    && (forall e :: e in r ==> e != "" && IsStripped(e))
    && (forall e :: e in r <==> e != "" && StripOfPiece(e, pieces))
  }

  /** One step of KeepStripped: prepending the first piece's stripped form
      (when non-empty) to what the rest keeps keeps exactly what all keep. */
  lemma KeptFromCons(pieces: seq<string>, rest: seq<string>, r: seq<string>)
    requires pieces != [] && KeptFrom(rest, pieces[1..])
    requires r == if Strip(pieces[0]) != "" then [Strip(pieces[0])] + rest else rest
    ensures KeptFrom(r, pieces)
  {
    var e := Strip(pieces[0]);
    assert IsStripped(e);
    StripOfPieceCons(pieces);
    assert forall x :: x in [e] + rest <==> x == e || x in rest;
  }

  /** Strip each piece and drop those that strip to nothing. */
  function KeepStripped(pieces: seq<string>): (r: seq<string>)
    ensures forall e :: e in r ==> e != "" && IsStripped(e)
    ensures forall e :: e in r <==> e != "" && StripOfPiece(e, pieces)
    decreases |pieces|
  {
    if pieces == [] then []
    else
      var e := Strip(pieces[0]);
      var rest := KeepStripped(pieces[1..]);
      var r := if e != "" then [e] + rest else rest;
      KeptFromCons(pieces, rest, r);
      r
  }

  /** The manual recipients: split on commas and newlines, stripped, empty
      entries dropped. Each entry is non-empty, carries no separator and no
      surrounding whitespace, and is the stripped form of some piece. */
  function ManualList(raw: string): (r: seq<string>)
    ensures forall e :: e in r ==> e != "" && IsStripped(e) && ',' !in e && '\n' !in e
    ensures forall e :: e in r <==> e != "" && StripOfPiece(e, ManualPieces(raw))
  {
    var pieces := ManualPieces(raw);
    var r := KeepStripped(pieces);
    assert forall e :: e in r ==> ',' !in e && '\n' !in e by {
      forall e | e in r
        ensures ',' !in e && '\n' !in e
      {
        var p :| p in pieces && Strip(p) == e;
        assert ',' !in p && '\n' !in p;
        StripChars(p);
      }
    }
    r
  }

  /** An empty manual field contributes nothing, so the source's guard
      `if manual_emails_raw:` does not change the result. */
  lemma ManualListOfEmpty(raw: string)
    requires raw == ""
    ensures ManualList(raw) == []
  {
    var none: string := [];
    assert ReplaceChar(raw, '\n', ",") == none;
    assert ManualPieces(raw) == Split(none, ',') == [none];
    assert AllSpace(none);
    assert KeepStripped([none]) == [] by {
      assert [none][1..] == [];
    }
  }

  /** The combined list before deduplication: CSV values as read, then the
      manual entries. The guard on the manual field is redundant, since an
      empty field yields no entries. */
  function RecipientList(csv: CsvInput, raw: string): (r: seq<string>)
    ensures r == CsvRows(csv) + ManualList(raw)
  {
    var manual := if raw != "" then ManualList(raw) else [];
    assert manual == ManualList(raw) by {
      if raw == "" { ManualListOfEmpty(raw); }
    }
    CsvRows(csv) + manual
  }

  /** `set(emails)`: the deduplicated recipients. */
  function Recipients(csv: CsvInput, raw: string): (s: set<string>)
    ensures forall x :: x in s <==> x in RecipientList(csv, raw)
  {
    set x | x in RecipientList(csv, raw)
  }

  /** `order` is one iteration order of the set `s`: every element once. */
  predicate Enumerates(order: seq<string>, s: set<string>) {
    && (forall i, j :: 0 <= i < j < |order| ==> order[i] != order[j])
    && (forall x :: x in order ==> x in s)
    && (forall x :: x in s ==> x in order)
  }

  /** An iteration order has exactly as many entries as the set. */
  lemma {:induction false} EnumerationSize(order: seq<string>, s: set<string>)
    requires Enumerates(order, s)
    ensures |order| == |s|
    decreases |order|
  {
    if order != [] {
      var x := order[|order| - 1];
      var front := order[..|order| - 1];
      assert forall y :: y in front ==> y != x;
      assert forall y :: y in front <==> y in s - {x} by {
        forall y
          ensures y in front <==> y in s - {x}
        {
          if y in s - {x} {
            assert y in order;
            var i :| 0 <= i < |order| && order[i] == y;
            assert i < |order| - 1;
            assert front[i] == y;
          }
        }
      }
      EnumerationSize(front, s - {x});
    }
  }

  /** The names of the uploads that carry a file, in upload order: an
      upload with an empty name is skipped. */
  function NamedUploads(uploads: seq<string>): (r: seq<string>)
    ensures |r| <= |uploads|
    ensures forall x :: x in r <==> x in uploads && x != ""
    decreases |uploads|
  {
    if uploads == [] then []
    else (if uploads[0] != "" then [uploads[0]] else []) + NamedUploads(uploads[1..])
  }

  /** Filtering works piece by piece, and a single upload is kept iff it has
      a name; together these fix `NamedUploads` on every list. */
  lemma {:induction false} NamedUploadsAppend(a: seq<string>, b: seq<string>)
    ensures NamedUploads(a + b) == NamedUploads(a) + NamedUploads(b)
    ensures forall x :: NamedUploads([x]) == (if x != "" then [x] else [])
    decreases |a|
  {
    forall x
      ensures NamedUploads([x]) == (if x != "" then [x] else [])
    {
      assert [x][1..] == [];
    }
    if a == [] {
      assert a + b == b;
    } else {
      var head := if a[0] != "" then [a[0]] else [];
      assert (a + b)[0] == a[0] && (a + b)[1..] == a[1..] + b;
      NamedUploadsAppend(a[1..], b);
      assert head + (NamedUploads(a[1..]) + NamedUploads(b)) == (head + NamedUploads(a[1..])) + NamedUploads(b);
    }
  }

  /** The attachment row stored for one uploaded file name. */
  function AttachmentRow(cid: nat, folder: string, name: string): (r: CampaignAttachment) {
    CampaignAttachment(cid, name, PathJoin(folder, name))
  }

  /** The attachment rows for the uploaded files: files with an empty name
      are skipped; each other file gives one row, in upload order, saved
      under its sanitised name in the upload folder. `sanitize` stands for
      the web framework's filename sanitiser. */
  function AttachmentRows(cid: nat, folder: string, uploads: seq<string>, sanitize: string -> string): (r: seq<CampaignAttachment>)
    ensures |r| == |NamedUploads(uploads)|
    ensures forall i :: 0 <= i < |r| ==> r[i] == AttachmentRow(cid, folder, sanitize(NamedUploads(uploads)[i]))
    ensures forall a :: a in r ==> a.campaignId == cid && a.filepath == PathJoin(folder, a.filename)
    decreases |uploads|
  {
    if uploads == [] then []
    else
      var rest := AttachmentRows(cid, folder, uploads[1..], sanitize);
      if uploads[0] != "" then
        var name := sanitize(uploads[0]);
        [AttachmentRow(cid, folder, name)] + rest
      else rest
  }

  /** One pending log per recipient, in iteration order, with the address
      stripped at insertion. */
  function NewLogs(cid: nat, order: seq<string>): (r: seq<EmailLog>)
    ensures |r| == |order|
    ensures forall i :: 0 <= i < |r| ==> r[i].campaignId == cid && r[i].status == Pending && r[i].errorMessage == None
  {
    seq(|order|, i requires 0 <= i < |order| => EmailLog(cid, Strip(order[i]), Pending, None))
  }

  /** The rows one accepted request inserts: the campaign under the next
      key, its attachments and one log per recipient in `order`. */
  function Insert(store: Store, subject: string, content: string, uploads: seq<string>,
                  sanitize: string -> string, folder: string, order: seq<string>): (r: Store)
    ensures r.settings == store.settings && r.nextId == store.nextId + 1
    ensures |r.logs| == |store.logs| + |order| && r.logs[..|store.logs|] == store.logs
    ensures |r.attachments| >= |store.attachments| && r.attachments[..|store.attachments|] == store.attachments
    ensures store.nextId in r.campaigns
    ensures forall id :: id != store.nextId ==> (id in r.campaigns <==> id in store.campaigns)
    ensures forall id :: id in store.campaigns && id != store.nextId ==> r.campaigns[id] == store.campaigns[id]
  {
    var cid := store.nextId;
    var c := NewCampaign(subject, ReplaceChar(content, '\n', "<br>"), |order|);
    var atts := store.attachments + AttachmentRows(cid, folder, uploads, sanitize);
    var logs := store.logs + NewLogs(cid, order);
    assert atts[..|store.attachments|] == store.attachments;
    assert logs[..|store.logs|] == store.logs;
    Store(store.settings, store.campaigns[cid := c], atts, logs, cid + 1)
  }

  /** The POST branch of `new_campaign`. `order` is the iteration order of
      `set(emails)`, which Python leaves unspecified. An unreadable CSV and
      an empty recipient set are refused; otherwise the campaign receives
      the next key. */
  function CreateCampaign(store: Store, subject: string, content: string, csv: CsvInput, raw: string,
                          uploads: seq<string>, sanitize: string -> string, folder: string, order: seq<string>): (r: Creation)
    requires Enumerates(order, Recipients(csv, raw))
    ensures csv.CsvUnreadable? ==> r == Refused(CsvError)
    ensures !csv.CsvUnreadable? ==> (r.Refused? <==> Recipients(csv, raw) == {})
    ensures r.Refused? && !csv.CsvUnreadable? ==> r.error == NoRecipients
    ensures r.Created? ==> r.campaignId == store.nextId
    ensures r.Created? ==> r.store == Insert(store, subject, content, uploads, sanitize, folder, order)
  {
    EnumerationSize(order, Recipients(csv, raw));
    if csv.CsvUnreadable? then
      Refused(CsvError)
    else if order == [] then
      Refused(NoRecipients)
    else
      Created(Insert(store, subject, content, uploads, sanitize, folder, order), store.nextId)
  }

  /** The inserted campaign: the subject as given, the body with every
      newline turned into `<br>`, `total_emails` the number of distinct
      recipients, both counters 0. */
  lemma InsertedCampaign(store: Store, subject: string, content: string, uploads: seq<string>,
                         sanitize: string -> string, folder: string, order: seq<string>, s: set<string>)
    requires Enumerates(order, s)
    ensures var c := Insert(store, subject, content, uploads, sanitize, folder, order).campaigns[store.nextId];
      && c.subject == subject
      && c.contentHtml == ReplaceChar(content, '\n', "<br>") && '\n' !in c.contentHtml
      && c.totalEmails == |s|
      && c.sentCount == 0 && c.failedCount == 0
  {
    EnumerationSize(order, s);
  }

  /** `e` is the stripped form of one of the addresses in `s`. */
  predicate StrippedFrom(e: string, s: set<string>) {
    exists x :: x in s && e == Strip(x)
  }

  /** The logs built from an iteration order of `s`: each address is an
      element of `s` stripped, and each element of `s` gives one of them. */
  lemma NewLogsCoverRecipients(cid: nat, order: seq<string>, s: set<string>)
    requires Enumerates(order, s)
    ensures forall i :: 0 <= i < |order| ==> StrippedFrom(NewLogs(cid, order)[i].email, s)
    ensures forall x :: x in s ==> exists i :: 0 <= i < |order| && NewLogs(cid, order)[i].email == Strip(x)
  {
    var added := NewLogs(cid, order);
    forall i | 0 <= i < |order|
      ensures StrippedFrom(added[i].email, s)
    {
      assert order[i] in order;
    }
    forall x | x in s
      ensures exists i :: 0 <= i < |order| && added[i].email == Strip(x)
    {
      var i :| 0 <= i < |order| && order[i] == x;
      assert added[i].email == Strip(x);
    }
  }

  /** The created campaign as stored: the subject, the body with its newlines
      turned into `<br>`, one recipient per distinct address, no progress
      yet; and one pending log per distinct address, each address stripped
      and nothing else added. */
  lemma CreatedCampaign(store: Store, subject: string, content: string, csv: CsvInput, raw: string,
                        uploads: seq<string>, sanitize: string -> string, folder: string, order: seq<string>)
    requires Enumerates(order, Recipients(csv, raw))
    requires CreateCampaign(store, subject, content, csv, raw, uploads, sanitize, folder, order).Created?
    ensures var r := CreateCampaign(store, subject, content, csv, raw, uploads, sanitize, folder, order);
      var c := r.store.campaigns[r.campaignId];
      && c.subject == subject
      && '\n' !in c.contentHtml
      && c.totalEmails == |Recipients(csv, raw)| > 0
      && c.sentCount == 0 && c.failedCount == 0
      && |r.store.logs| == |store.logs| + |Recipients(csv, raw)|
      && (forall i :: |store.logs| <= i < |r.store.logs| ==>
            IsPendingFor(r.store.logs[i], r.campaignId) && r.store.logs[i].errorMessage == None
            && StrippedFrom(r.store.logs[i].email, Recipients(csv, raw)))
      && (forall x :: x in Recipients(csv, raw) ==>
            exists i :: |store.logs| <= i < |r.store.logs| && r.store.logs[i].email == Strip(x))
  {
    var rs := Recipients(csv, raw);
    var r := CreateCampaign(store, subject, content, csv, raw, uploads, sanitize, folder, order);
    InsertedCampaign(store, subject, content, uploads, sanitize, folder, order, rs);
    var added := NewLogs(store.nextId, order);
    assert r.store.logs == store.logs + added;
    NewLogsCoverRecipients(store.nextId, order, rs);
    forall i | |store.logs| <= i < |r.store.logs|
      ensures IsPendingFor(r.store.logs[i], r.campaignId) && r.store.logs[i].errorMessage == None
      ensures StrippedFrom(r.store.logs[i].email, rs)
    {
      assert r.store.logs[i] == added[i - |store.logs|];
    }
    forall x | x in rs
      ensures exists i :: |store.logs| <= i < |r.store.logs| && r.store.logs[i].email == Strip(x)
    {
      var i :| 0 <= i < |order| && added[i].email == Strip(x);
      assert r.store.logs[|store.logs| + i] == added[i];
    }
  }

  /** Inserting a campaign keeps referential integrity: the new rows all
      point at the new campaign, whose key lies below the next one. */
  lemma InsertKeepsValid(store: Store, subject: string, content: string, uploads: seq<string>,
                         sanitize: string -> string, folder: string, order: seq<string>)
    requires Valid(store)
    ensures Valid(Insert(store, subject, content, uploads, sanitize, folder, order))
  {
    var cid := store.nextId;
    var r := Insert(store, subject, content, uploads, sanitize, folder, order);
    var added := NewLogs(cid, order);
    var rows := AttachmentRows(cid, folder, uploads, sanitize);
    assert r.logs == store.logs + added;
    assert r.attachments == store.attachments + rows;
    forall i | 0 <= i < |r.attachments|
      ensures r.attachments[i].campaignId in r.campaigns
    {
      if i >= |store.attachments| {
        assert r.attachments[i] in rows;
      }
    }
    forall i | 0 <= i < |r.logs|
      ensures r.logs[i].campaignId in r.campaigns
    {
      if i >= |store.logs| {
        assert r.logs[i] == added[i - |store.logs|];
      }
    }
  }

  /** Appending the logs of a campaign no existing log points at: that
      campaign gets one pending log per entry, every other count stays. */
  lemma AppendNewLogsCounts(logs: seq<EmailLog>, cid: nat, order: seq<string>)
    requires forall i :: 0 <= i < |logs| ==> logs[i].campaignId != cid
    ensures var all := logs + NewLogs(cid, order);
      && CountFor(all, cid) == |order| && CountStatus(all, cid, Pending) == |order|
      && CountStatus(all, cid, Sent) == 0 && CountStatus(all, cid, Failed) == 0
  {
    var added := NewLogs(cid, order);
    CountForZero(logs, cid);
    CountAllPending(added, cid);
    CountAppend(logs, added, cid, Pending);
    CountAppend(logs, added, cid, Sent);
    CountAppend(logs, added, cid, Failed);
    CountStatusZero(logs, cid, Pending);
    CountStatusZero(logs, cid, Sent);
    CountStatusZero(logs, cid, Failed);
  }

  /** Appending one campaign's logs leaves every other campaign's counts. */
  lemma AppendNewLogsElsewhere(logs: seq<EmailLog>, cid: nat, order: seq<string>, id: nat)
    requires id != cid
    ensures var all := logs + NewLogs(cid, order);
      && CountFor(all, id) == CountFor(logs, id)
      && CountStatus(all, id, Sent) == CountStatus(logs, id, Sent)
      && CountStatus(all, id, Failed) == CountStatus(logs, id, Failed)
  {
    var added := NewLogs(cid, order);
    CountForZero(added, id);
    CountStatusZero(added, id, Sent);
    CountStatusZero(added, id, Failed);
    CountAppend(logs, added, id, Sent);
    CountAppend(logs, added, id, Failed);
  }

  /** Inserting a campaign keeps the bookkeeping: the new campaign's total
      is its number of logs, all of them pending, and no other campaign's
      counts change. */
  lemma InsertKeepsConsistent(store: Store, subject: string, content: string, uploads: seq<string>,
                              sanitize: string -> string, folder: string, order: seq<string>)
    requires Valid(store) && Consistent(store)
    ensures var r := Insert(store, subject, content, uploads, sanitize, folder, order);
      Consistent(r) && CountStatus(r.logs, store.nextId, Pending) == |order|
  {
    var cid := store.nextId;
    var r := Insert(store, subject, content, uploads, sanitize, folder, order);
    assert r.logs == store.logs + NewLogs(cid, order);
    assert forall i :: 0 <= i < |store.logs| ==> store.logs[i].campaignId != cid;
    AppendNewLogsCounts(store.logs, cid, order);
    assert r.campaigns[cid] == NewCampaign(subject, ReplaceChar(content, '\n', "<br>"), |order|);
    forall id | id in r.campaigns
      ensures && r.campaigns[id].totalEmails == CountFor(r.logs, id)
              && r.campaigns[id].sentCount == CountStatus(r.logs, id, Sent)
              && r.campaigns[id].failedCount == CountStatus(r.logs, id, Failed)
    {
      if id != cid {
        assert id in store.campaigns && r.campaigns[id] == store.campaigns[id];
        AppendNewLogsElsewhere(store.logs, cid, order, id);
      }
    }
  }

  /** An accepted request leaves the database valid and consistent, with
      one pending log of the new campaign per distinct address. */
  lemma CreateKeepsInvariants(store: Store, subject: string, content: string, csv: CsvInput, raw: string,
                              uploads: seq<string>, sanitize: string -> string, folder: string, order: seq<string>)
    requires Valid(store) && Consistent(store)
    requires Enumerates(order, Recipients(csv, raw))
    ensures var r := CreateCampaign(store, subject, content, csv, raw, uploads, sanitize, folder, order);
      r.Created? ==>
        && Valid(r.store) && Consistent(r.store)
        && CountStatus(r.store.logs, r.campaignId, Pending) == |Recipients(csv, raw)|
  {
    EnumerationSize(order, Recipients(csv, raw));
    InsertKeepsValid(store, subject, content, uploads, sanitize, folder, order);
    InsertKeepsConsistent(store, subject, content, uploads, sanitize, folder, order);
  }

  /** New logs carry no failure reason and are pending, so an insert keeps
      every failure reason in step with its log's status. */
  lemma InsertKeepsErrors(store: Store, subject: string, content: string, uploads: seq<string>,
                          sanitize: string -> string, folder: string, order: seq<string>)
    requires ErrorsMatchStatus(store)
    ensures ErrorsMatchStatus(Insert(store, subject, content, uploads, sanitize, folder, order))
  {
    var added := NewLogs(store.nextId, order);
    var logs := Insert(store, subject, content, uploads, sanitize, folder, order).logs;
    assert logs == store.logs + added;
    forall i | 0 <= i < |logs|
      ensures ErrorIffFailed(logs[i])
    {
      if i >= |store.logs| {
        assert logs[i] == added[i - |store.logs|];
      }
    }
  }

  /** Logs built from distinct, already stripped entries carry exactly
      those entries as addresses, so they are distinct too. */
  lemma NewLogsOfStripped(cid: nat, order: seq<string>)
    requires forall i :: 0 <= i < |order| ==> IsStripped(order[i])
    ensures forall i :: 0 <= i < |order| ==> NewLogs(cid, order)[i].email == order[i]
  {
    forall i | 0 <= i < |order|
      ensures NewLogs(cid, order)[i].email == order[i]
    {
      StrippedIsFixed(order[i]);
    }
  }

  /** No two logs of the list share an address. */
  predicate DistinctAddresses(logs: seq<EmailLog>) {
    forall i, j :: 0 <= i < j < |logs| ==> logs[i].email != logs[j].email
  }

  /** With manual input only, every entry of the iteration order is a
      manual entry, so it is already stripped. */
  lemma ManualOrderEntries(order: seq<string>, raw: string)
    requires Enumerates(order, Recipients(NoCsv, raw))
    ensures forall i :: 0 <= i < |order| ==> order[i] in ManualList(raw) && IsStripped(order[i])
  {
    assert RecipientList(NoCsv, raw) == ManualList(raw) by {
      assert CsvRows(NoCsv) == [];
    }
    forall i | 0 <= i < |order|
      ensures order[i] in ManualList(raw) && IsStripped(order[i])
    {
      assert order[i] in order;
    }
  }

  /** With manual input only, the stored addresses are pairwise distinct and
      each is one of the manual entries. */
  lemma ManualAddressesDistinct(store: Store, subject: string, content: string, uploads: seq<string>,
                                sanitize: string -> string, folder: string, order: seq<string>, raw: string)
    requires Enumerates(order, Recipients(NoCsv, raw))
    ensures var added := Insert(store, subject, content, uploads, sanitize, folder, order).logs[|store.logs|..];
      && DistinctAddresses(added)
      && (forall i :: 0 <= i < |added| ==> added[i].email in ManualList(raw))
  {
    var logs := NewLogs(store.nextId, order);
    assert Insert(store, subject, content, uploads, sanitize, folder, order).logs[|store.logs|..] == logs by {
      assert Insert(store, subject, content, uploads, sanitize, folder, order).logs == store.logs + logs;
    }
    ManualOrderEntries(order, raw);
    NewLogsOfStripped(store.nextId, order);
    assert DistinctAddresses(logs);
  }

  /** Two different CSV values make a set of two, listed in either order. */
  lemma CsvPairRecipients(a: string, b: string, raw: string)
    requires a != b && raw == ""
    ensures Recipients(CsvEmails([a, b]), raw) == {a, b}
    ensures Enumerates([a, b], Recipients(CsvEmails([a, b]), raw))
  {
    assert RecipientList(CsvEmails([a, b]), raw) == [a, b];
  }

  /** Two different CSV values make a request that is accepted and inserted
      under the next key. */
  lemma CsvPairCreates(store: Store, subject: string, content: string, uploads: seq<string>,
                       sanitize: string -> string, folder: string, a: string, b: string, raw: string)
    requires a != b && raw == ""
    ensures Enumerates([a, b], Recipients(CsvEmails([a, b]), raw))
    ensures CreateCampaign(store, subject, content, CsvEmails([a, b]), raw, uploads, sanitize, folder, [a, b])
         == Created(Insert(store, subject, content, uploads, sanitize, folder, [a, b]), store.nextId)
  {
    CsvPairRecipients(a, b, raw);
    assert a in Recipients(CsvEmails([a, b]), raw);
  }

  /** The rows an insert appends for an iteration order: the new campaign
      counts the entries, and the log at offset `i` is the pending log of
      the `i`-th entry, stripped. */
  lemma InsertedLogs(store: Store, subject: string, content: string, uploads: seq<string>,
                     sanitize: string -> string, folder: string, order: seq<string>)
    ensures var r := Insert(store, subject, content, uploads, sanitize, folder, order);
      && r.campaigns[store.nextId].totalEmails == |order|
      && forall i :: 0 <= i < |order| ==> r.logs[|store.logs| + i] == EmailLog(store.nextId, Strip(order[i]), Pending, None)
  {
    var r := Insert(store, subject, content, uploads, sanitize, folder, order);
    assert r.logs == store.logs + NewLogs(store.nextId, order);
  }

  /** Deduplication happens before stripping, so two CSV values that differ
      but strip to the same address are two recipients and become two logs
      with that one address, on any database and for any subject, body and
      uploads. */
  lemma CsvWhitespaceDuplicates(store: Store, subject: string, content: string, uploads: seq<string>,
                                sanitize: string -> string, folder: string, a: string, b: string, raw: string)
    requires a != b && Strip(a) == Strip(b) && raw == ""
    ensures Enumerates([a, b], Recipients(CsvEmails([a, b]), raw))
    ensures var r := CreateCampaign(store, subject, content, CsvEmails([a, b]), raw, uploads, sanitize, folder, [a, b]);
      var n := |store.logs|;
      && r.Created?
      && r.store.campaigns[r.campaignId].totalEmails == 2
      && |r.store.logs| == n + 2
      && r.store.logs[n].email == r.store.logs[n + 1].email == Strip(a)
  {
    var ins := Insert(store, subject, content, uploads, sanitize, folder, [a, b]);
    var n := |store.logs|;
    CsvPairCreates(store, subject, content, uploads, sanitize, folder, a, b, raw);
    assert ins.campaigns[store.nextId].totalEmails == 2 && |ins.logs| == n + 2
        && ins.logs[n].email == Strip(a) && ins.logs[n + 1].email == Strip(b) by {
      InsertedLogs(store, subject, content, uploads, sanitize, folder, [a, b]);
    }
  }

  /** `" a@b"` and `"a@b"` are such a pair: different strings with the same
      stripped form. */
  lemma StripExample(padded: string, bare: string)
    requires padded == " a@b" && bare == "a@b"
    ensures padded != bare && Strip(padded) == Strip(bare) == bare
  {
    assert padded[0] != bare[0];
    assert AllSpace(" ");
    StripPadded(" ", bare, "");
    assert " " + bare + "" == padded;
    StripPadded("", bare, "");
    assert "" + bare + "" == bare;
  }

  /** What `campaign_status` reports on a campaign. */
  datatype RunState = Processing | Completed

  datatype StatusReport = StatusReport(total: nat, sent: nat, failed: nat, state: RunState)

  /** `campaign_status`: the three counters verbatim and a state derived
      from them; `None` stands for the 404 of a missing campaign. */
  function CampaignStatus(store: Store, cid: nat): (r: Option<StatusReport>)
    ensures r.None? <==> cid !in store.campaigns
    ensures r.Some? ==>
      && r.value.total == store.campaigns[cid].totalEmails
      && r.value.sent == store.campaigns[cid].sentCount
      && r.value.failed == store.campaigns[cid].failedCount
    ensures r.Some? ==> (r.value.state == Completed <==> r.value.sent + r.value.failed >= r.value.total)
  {
    if cid !in store.campaigns then None
    else
      var c := store.campaigns[cid];
      Some(StatusReport(c.totalEmails, c.sentCount, c.failedCount,
        if c.sentCount + c.failedCount >= c.totalEmails then Completed else Processing))
  }

  /** When the counters are kept in step with the logs, the reported state
      is `completed` exactly when none of the campaign's logs is pending. */
  lemma CompletedIffNothingPending(store: Store, cid: nat)
    requires Consistent(store) && cid in store.campaigns
    ensures CampaignStatus(store, cid).value.state == Completed
        <==> forall i :: 0 <= i < |store.logs| ==> !IsPendingFor(store.logs[i], cid)
  {
    CountPartition(store.logs, cid);
    CountStatusZero(store.logs, cid, Pending);
  }
}

/** The four database tables of the application (settings, campaign,
    campaign attachment, email log) as immutable rows, and the whole database
    as one value, `Store`. Primary keys of campaigns are the keys of the
    `campaigns` map; the other tables are sequences in insertion order. */
module Models {
  import opened Optional

  /** The stored sender identity: an address and its password encrypted with
      the application's key. */
  datatype Settings = Settings(email: string, encryptedPassword: string)

  /** A campaign row. The three counters default to 0 when the row is
      inserted. */
  datatype Campaign = Campaign(
    subject: string,
    contentHtml: string,
    totalEmails: nat,
    sentCount: nat,
    failedCount: nat)

  /** A file attached to a campaign: its display name and where it was saved. */
  datatype CampaignAttachment = CampaignAttachment(campaignId: nat, filename: string, filepath: string)

  /** The values the application writes into an email log's status column. */
  datatype Status = Pending | Sent | Failed

  /** One recipient of one campaign. */
  datatype EmailLog = EmailLog(campaignId: nat, email: string, status: Status, errorMessage: Option<string>)

  /** The database. `settings` is what `Settings.query.first()` returns;
      `nextId` is the primary key the next inserted campaign receives. */
  datatype Store = Store(
    settings: Option<Settings>,
    campaigns: map<nat, Campaign>,
    attachments: seq<CampaignAttachment>,
    logs: seq<EmailLog>,
    nextId: nat)

  /** A freshly inserted campaign: all counters at their default 0. */
  function NewCampaign(subject: string, contentHtml: string, total: nat): (c: Campaign)
    ensures c.subject == subject && c.contentHtml == contentHtml && c.totalEmails == total
    ensures c.sentCount == 0 && c.failedCount == 0
  {
    Campaign(subject, contentHtml, total, 0, 0)
  }

  /** Referential integrity: every row points at an existing campaign, and
      every campaign key lies below the next key to be handed out. */
  predicate Valid(s: Store) {
    && (forall id :: id in s.campaigns ==> id < s.nextId)
    && (forall i :: 0 <= i < |s.logs| ==> s.logs[i].campaignId in s.campaigns)
    && (forall i :: 0 <= i < |s.attachments| ==> s.attachments[i].campaignId in s.campaigns)
  }

  /** The log is one of campaign `cid`'s recipients still waiting to be sent. */
  predicate IsPendingFor(log: EmailLog, cid: nat) {
    log.campaignId == cid && log.status == Pending
  }

  /** Number of campaign `cid`'s logs. */
  function CountFor(logs: seq<EmailLog>, cid: nat): (n: nat)
    ensures n <= |logs|
    decreases |logs|
  {
    if logs == [] then 0
    else (if logs[0].campaignId == cid then 1 else 0) + CountFor(logs[1..], cid)
  }

  /** Number of campaign `cid`'s logs that have status `st`. */
  function CountStatus(logs: seq<EmailLog>, cid: nat, st: Status): (n: nat)
    ensures n <= CountFor(logs, cid)
    decreases |logs|
  {
    if logs == [] then 0
    else (if logs[0].campaignId == cid && logs[0].status == st then 1 else 0) + CountStatus(logs[1..], cid, st)
  }

  /** A count is zero exactly when no log of the campaign has that status. */
  lemma {:induction false} CountStatusZero(logs: seq<EmailLog>, cid: nat, st: Status)
    ensures CountStatus(logs, cid, st) == 0 <==> forall i :: 0 <= i < |logs| ==> !(logs[i].campaignId == cid && logs[i].status == st)
    decreases |logs|
  {
    if logs != [] {
      CountStatusZero(logs[1..], cid, st);
      assert forall i :: 1 <= i < |logs| ==> logs[i] == logs[1..][i - 1];
    }
  }

  /** A campaign has no logs exactly when no log points at it. */
  lemma {:induction false} CountForZero(logs: seq<EmailLog>, cid: nat)
    ensures CountFor(logs, cid) == 0 <==> forall i :: 0 <= i < |logs| ==> logs[i].campaignId != cid
    decreases |logs|
  {
    if logs != [] {
      CountForZero(logs[1..], cid);
      assert forall i :: 1 <= i < |logs| ==> logs[i] == logs[1..][i - 1];
    }
  }

  /** When every log is a pending log of `cid`, all of them count for `cid`,
      all as pending and none as sent or failed. */
  lemma {:induction false} CountAllPending(logs: seq<EmailLog>, cid: nat)
    requires forall i :: 0 <= i < |logs| ==> IsPendingFor(logs[i], cid)
    ensures CountFor(logs, cid) == |logs| && CountStatus(logs, cid, Pending) == |logs|
    ensures CountStatus(logs, cid, Sent) == 0 && CountStatus(logs, cid, Failed) == 0
    decreases |logs|
  {
    if logs != [] {
      assert IsPendingFor(logs[0], cid);
      assert forall i :: 0 <= i < |logs| - 1 ==> logs[1..][i] == logs[i + 1];
      CountAllPending(logs[1..], cid);
    }
  }

  /** A campaign's logs are split exactly among the three statuses. */
  lemma {:induction false} CountPartition(logs: seq<EmailLog>, cid: nat)
    ensures CountFor(logs, cid) == CountStatus(logs, cid, Pending) + CountStatus(logs, cid, Sent) + CountStatus(logs, cid, Failed)
    decreases |logs|
  {
    if logs != [] {
      CountPartition(logs[1..], cid);
    }
  }

  /** Overwriting one log changes each count by what left and what arrived
      at that position. */
  lemma {:induction false} CountStatusUpdate(logs: seq<EmailLog>, i: nat, x: EmailLog, cid: nat, st: Status)
    requires i < |logs|
    ensures CountStatus(logs[i := x], cid, st) + (if logs[i].campaignId == cid && logs[i].status == st then 1 else 0)
         == CountStatus(logs, cid, st) + (if x.campaignId == cid && x.status == st then 1 else 0)
    decreases |logs|
  {
    if i > 0 {
      assert logs[i := x][1..] == logs[1..][i - 1 := x];
      CountStatusUpdate(logs[1..], i - 1, x, cid, st);
    } else {
      assert logs[i := x][1..] == logs[1..];
    }
  }

  /** Overwriting a log with one of the same campaign keeps every
      campaign's number of logs. */
  lemma {:induction false} CountForUpdate(logs: seq<EmailLog>, i: nat, x: EmailLog, cid: nat)
    requires i < |logs| && x.campaignId == logs[i].campaignId
    ensures CountFor(logs[i := x], cid) == CountFor(logs, cid)
    decreases |logs|
  {
    if i > 0 {
      assert logs[i := x][1..] == logs[1..][i - 1 := x];
      CountForUpdate(logs[1..], i - 1, x, cid);
    } else {
      assert logs[i := x][1..] == logs[1..];
    }
  }

  /** Counting over a concatenation adds up. */
  lemma {:induction false} CountAppend(a: seq<EmailLog>, b: seq<EmailLog>, cid: nat, st: Status)
    ensures CountFor(a + b, cid) == CountFor(a, cid) + CountFor(b, cid)
    ensures CountStatus(a + b, cid, st) == CountStatus(a, cid, st) + CountStatus(b, cid, st)
    decreases |a|
  {
    if a == [] {
      assert a + b == b;
    } else {
      assert (a + b)[1..] == a[1..] + b;
      CountAppend(a[1..], b, cid, st);
    }
  }

  /** A log carries a failure reason exactly when its status is `failed`. */
  predicate ErrorIffFailed(log: EmailLog) {
    log.errorMessage.Some? <==> log.status == Failed
  }

  /** Every log of the table carries a failure reason exactly when it failed. */
  predicate ErrorsMatch(logs: seq<EmailLog>) {
    forall i :: 0 <= i < |logs| ==> ErrorIffFailed(logs[i])
  }

  /** Every log of the database carries a failure reason exactly when it
      failed: logs are created without one and only a failed attempt writes
      one. */
  predicate ErrorsMatchStatus(s: Store) {
    ErrorsMatch(s.logs)
  }

  /** The bookkeeping the dispatch loop is meant to keep: each campaign's
      total is its number of logs, and its two counters are its numbers of
      `sent` and `failed` logs. */
  predicate Consistent(s: Store) {
    forall cid :: cid in s.campaigns ==>
      && s.campaigns[cid].totalEmails == CountFor(s.logs, cid)
      && s.campaigns[cid].sentCount == CountStatus(s.logs, cid, Sent)
      && s.campaigns[cid].failedCount == CountStatus(s.logs, cid, Failed)
  }
}

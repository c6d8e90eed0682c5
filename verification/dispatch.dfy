/** The background send of one campaign (`send_campaign_background`) and the
    guard the send route applies before starting it. The mail transport and
    password decryption are parameters: the transport is an oracle that, for
    the n-th attempt of the run and the message handed to it, says whether
    delivery succeeded or with what error text it failed. */
module Dispatch {
  import opened Optional
  import opened Models

  /** A resolved sender identity. */
  datatype Credentials = Credentials(email: string, password: string)

  /** How credential resolution ended: usable credentials, an exception from
      decryption, or an address or password still empty. */
  datatype Resolution = Resolved(creds: Credentials) | DecryptionFailed | Missing

  /** Decryption of the stored password; `None` models a raised exception. */
  type Decrypt = string -> Option<string>

  /** What the transport returns: `(True, None)` or `(False, reason)`. */
  datatype Outcome = Delivered | Rejected(reason: string)

  /** The arguments of one call of the transport. */
  datatype SendRequest = SendRequest(sender: Credentials, to: string, subject: string, html: string, attachments: seq<string>)

  /** The transport seen as an oracle: attempt number and request to outcome. */
  type Transport = (nat, SendRequest) -> Outcome

  /** One call of the transport during a run, for the log at position `index`. */
  datatype Attempt = Attempt(index: nat, request: SendRequest, outcome: Outcome)

  /** Everything fixed for the duration of one run. */
  datatype Job = Job(campaignId: nat, sender: Credentials, attachments: seq<string>, transport: Transport)

  /** The state threaded through the loop over the log table. */
  datatype Pass = Pass(logs: seq<EmailLog>, campaign: Campaign, attempts: seq<Attempt>)

  /** The result of a run: the database afterwards and the calls made. */
  datatype Run = Run(store: Store, attempts: seq<Attempt>)

  /** Credentials are usable only when neither part is empty. */
  function Usable(email: string, password: string): (r: Resolution) {
    if email == "" || password == "" then Missing else Resolved(Credentials(email, password))
  }

  /** Credential resolution at the start of the background task: explicit
      values win; a missing one is taken from the stored settings, the
      password by decrypting it (decryption is only attempted when the
      password is missing). */
  function ResolveCredentials(email: string, password: string, settings: Option<Settings>, decrypt: Decrypt): (r: Resolution)
    ensures email != "" && password != "" ==> r == Resolved(Credentials(email, password))
    ensures r.Resolved? ==> r.creds.email != "" && r.creds.password != ""
    ensures r.Resolved? && email != "" ==> r.creds.email == email
    ensures r.Resolved? && email == "" ==> settings.Some? && r.creds.email == settings.value.email
    ensures r.Resolved? && password != "" ==> r.creds.password == password
    ensures r.Resolved? && password == "" ==>
      settings.Some? && decrypt(settings.value.encryptedPassword) == Some(r.creds.password)
    ensures r.DecryptionFailed? <==>
      password == "" && settings.Some? && decrypt(settings.value.encryptedPassword).None?
    ensures r.Resolved? <==>
      && (email != "" || (settings.Some? && settings.value.email != ""))
      && (password != "" || (settings.Some? && decrypt(settings.value.encryptedPassword).GetOr("") != ""))
  {
    if email == "" || password == "" then
      match settings
      case None => Usable(email, password)
      case Some(st) =>
        var e := if email != "" then email else st.email;
        if password != "" then Usable(e, password)
        else
          match decrypt(st.encryptedPassword)
          case None => DecryptionFailed
          case Some(p) => Usable(e, p)
    else
      Usable(email, password)
  }

  /** The send route refuses to start the task only when an explicit value
      is missing and there are no stored settings. */
  predicate StartAllowed(email: string, password: string, settings: Option<Settings>) {
    !(email == "" || password == "") || settings.Some?
  }
  /** The route's guard against the task's own resolution: the route starts
      the task exactly when settings exist or the explicit values alone
      resolve; when it refuses, the task would find the credentials missing. */
  lemma StartAllowedIff(email: string, password: string, settings: Option<Settings>, decrypt: Decrypt)
    ensures StartAllowed(email, password, settings) <==>
      settings.Some? || ResolveCredentials(email, password, settings, decrypt).Resolved?
    ensures !StartAllowed(email, password, settings) ==>
      ResolveCredentials(email, password, settings, decrypt) == Missing
  {
  }


  /** The file paths of a campaign's attachments, in table order. */
  function AttachmentPaths(atts: seq<CampaignAttachment>, cid: nat): (r: seq<string>)
    ensures |r| <= |atts|
    ensures forall p :: p in r <==> exists i :: 0 <= i < |atts| && atts[i].campaignId == cid && atts[i].filepath == p
    decreases |atts|
  {
    if atts == [] then []
    else
      var rest := AttachmentPaths(atts[1..], cid);
      assert forall i :: 1 <= i < |atts| ==> atts[i] == atts[1..][i - 1];
      if atts[0].campaignId == cid then [atts[0].filepath] + rest else rest
  }

  /** The path list of a concatenation is the concatenation of the path
      lists: rows are taken one by one, duplicates included. */
  lemma {:induction false} AttachmentPathsAppend(a: seq<CampaignAttachment>, b: seq<CampaignAttachment>, cid: nat)
    ensures AttachmentPaths(a + b, cid) == AttachmentPaths(a, cid) + AttachmentPaths(b, cid)
    decreases |a|
  {
    if a == [] {
      assert a + b == b;
    } else {
      var head := if a[0].campaignId == cid then [a[0].filepath] else [];
      assert (a + b)[0] == a[0] && (a + b)[1..] == a[1..] + b;
      AttachmentPathsAppend(a[1..], b, cid);
      assert head + (AttachmentPaths(a[1..], cid) + AttachmentPaths(b, cid))
          == (head + AttachmentPaths(a[1..], cid)) + AttachmentPaths(b, cid);
    }
  }

  /** A campaign without rows has no paths. */
  lemma {:induction false} AttachmentPathsNone(atts: seq<CampaignAttachment>, cid: nat)
    requires forall i :: 0 <= i < |atts| ==> atts[i].campaignId != cid
    ensures AttachmentPaths(atts, cid) == []
    decreases |atts|
  {
    if atts != [] {
      AttachmentPathsNone(atts[1..], cid);
    }
  }

  /** When every row belongs to the campaign, there is one path per row, in
      row order; with `AttachmentPathsAppend` and `AttachmentPathsNone` this
      fixes the list. */
  lemma {:induction false} AttachmentPathsOwn(atts: seq<CampaignAttachment>, cid: nat)
    requires forall i :: 0 <= i < |atts| ==> atts[i].campaignId == cid
    ensures |AttachmentPaths(atts, cid)| == |atts|
    ensures forall i :: 0 <= i < |atts| ==> AttachmentPaths(atts, cid)[i] == atts[i].filepath
    decreases |atts|
  {
    if atts != [] {
      AttachmentPathsOwn(atts[1..], cid);
      var r := AttachmentPaths(atts, cid);
      assert r == [atts[0].filepath] + AttachmentPaths(atts[1..], cid);
      forall i | 1 <= i < |atts|
        ensures r[i] == atts[i].filepath
      {
        assert r[i] == AttachmentPaths(atts[1..], cid)[i - 1];
        assert atts[1..][i - 1] == atts[i];
      }
    }
  }

  /** The call the loop makes for one log: same sender, subject, body and
      attachment list for every recipient of the run. */
  function RequestFor(job: Job, c: Campaign, log: EmailLog): (r: SendRequest)
    ensures r.to == log.email
    ensures r.sender == job.sender && r.attachments == job.attachments
    ensures r.subject == c.subject && r.html == c.contentHtml
  {
    SendRequest(job.sender, log.email, c.subject, c.contentHtml, job.attachments)
  }
  /** Within one run, the requests for two logs differ at most in the
      recipient: every recipient gets the same message and attachments. */
  lemma RequestsDifferOnlyInRecipient(job: Job, c: Campaign, a: EmailLog, b: EmailLog)
    ensures RequestFor(job, c, b) == RequestFor(job, c, a).(to := b.email)
    ensures a.email == b.email ==> RequestFor(job, c, a) == RequestFor(job, c, b)
  {
  }


  /** The log after its attempt: `sent`, or `failed` with the error text. */
  function Record(log: EmailLog, o: Outcome): (r: EmailLog)
    ensures r.campaignId == log.campaignId && r.email == log.email
    ensures r.status == Sent <==> o.Delivered?
    ensures r.status == Failed <==> o.Rejected?
    ensures o.Rejected? ==> r.errorMessage == Some(o.reason)
    ensures o.Delivered? ==> r.errorMessage == log.errorMessage
  {
    match o
    case Delivered => log.(status := Sent)
    case Rejected(e) => log.(status := Failed, errorMessage := Some(e))
  }

  /** The campaign after one attempt: exactly one counter goes up by one. */
  function Tally(c: Campaign, o: Outcome): (r: Campaign)
    ensures r.subject == c.subject && r.contentHtml == c.contentHtml && r.totalEmails == c.totalEmails
    ensures r.sentCount + r.failedCount == c.sentCount + c.failedCount + 1
    ensures r.sentCount == c.sentCount + (if o.Delivered? then 1 else 0)
  {
    match o
    case Delivered => c.(sentCount := c.sentCount + 1)
    case Rejected(_) => c.(failedCount := c.failedCount + 1)
  }

  /** The number of attempts the transport accepted. */
  function CountDelivered(att: seq<Attempt>): (n: nat)
    ensures n <= |att|
    decreases |att|
  {
    if att == [] then 0 else (if att[0].outcome.Delivered? then 1 else 0) + CountDelivered(att[1..])
  }

  /** The number of attempts the transport rejected. */
  function CountRejected(att: seq<Attempt>): (n: nat)
    ensures n <= |att|
    decreases |att|
  {
    if att == [] then 0 else (if att[0].outcome.Rejected? then 1 else 0) + CountRejected(att[1..])
  }

  /** Every attempt is counted once, as a success or as a failure. */
  lemma {:induction false} CountOutcomes(att: seq<Attempt>)
    ensures CountDelivered(att) + CountRejected(att) == |att|
    decreases |att|
  {
    if att != [] {
      CountOutcomes(att[1..]);
    }
  }

  /** The `for email_log in pending_emails` loop, from log position `j` on,
      `k` being the number of attempts made so far. Pending logs of the job's
      campaign get one attempt each; every other row is stepped over. */
  function Walk(logs: seq<EmailLog>, c: Campaign, job: Job, j: nat, k: nat): (p: Pass)
    requires j <= |logs|
    ensures |p.logs| == |logs|
    decreases |logs| - j
  {
    if j == |logs| then
      Pass(logs, c, [])
    else if IsPendingFor(logs[j], job.campaignId) then
      var req := RequestFor(job, c, logs[j]);
      var o := job.transport(k, req);
      var rest := Walk(logs[j := Record(logs[j], o)], Tally(c, o), job, j + 1, k + 1);
      Pass(rest.logs, rest.campaign, [Attempt(j, req, o)] + rest.attempts)
    else
      Walk(logs, c, job, j + 1, k)
  }

  /** Rows before `j`, and rows that are not pending logs of the campaign,
      come out of the loop unchanged; no row changes campaign or address. */
  lemma {:induction false} WalkFrame(logs: seq<EmailLog>, c: Campaign, job: Job, j: nat, k: nat)
    requires j <= |logs|
    ensures var p := Walk(logs, c, job, j, k);
      && (forall i :: 0 <= i < |logs| && (i < j || !IsPendingFor(logs[i], job.campaignId)) ==> p.logs[i] == logs[i])
      && (forall i :: 0 <= i < |logs| ==> p.logs[i].campaignId == logs[i].campaignId && p.logs[i].email == logs[i].email)
    decreases |logs| - j
  {
    if j < |logs| {
      if IsPendingFor(logs[j], job.campaignId) {
        var o := job.transport(k, RequestFor(job, c, logs[j]));
        WalkFrame(logs[j := Record(logs[j], o)], Tally(c, o), job, j + 1, k + 1);
      } else {
        WalkFrame(logs, c, job, j + 1, k);
      }
    }
  }

  /** The loop keeps every log's failure reason in step with its status: a
      pending log has no reason, a delivery leaves it without one and a
      rejection writes one together with `failed`. */
  lemma {:induction false} WalkKeepsErrors(logs: seq<EmailLog>, c: Campaign, job: Job, j: nat, k: nat)
    requires j <= |logs|
    requires ErrorsMatch(logs)
    ensures ErrorsMatch(Walk(logs, c, job, j, k).logs)
    decreases |logs| - j
  {
    if j < |logs| {
      if IsPendingFor(logs[j], job.campaignId) {
        var o := job.transport(k, RequestFor(job, c, logs[j]));
        var logs' := logs[j := Record(logs[j], o)];
        assert ErrorIffFailed(logs'[j]);
        WalkKeepsErrors(logs', Tally(c, o), job, j + 1, k + 1);
      } else {
        WalkKeepsErrors(logs, c, job, j + 1, k);
      }
    }
  }

  /** Each attempt was for a pending log of the campaign at position `j` or
      after, and no log was attempted twice (positions strictly increase). */
  predicate AttemptsPending(att: seq<Attempt>, logs: seq<EmailLog>, cid: nat, j: nat) {
    && (forall n :: 0 <= n < |att| ==> j <= att[n].index < |logs| && IsPendingFor(logs[att[n].index], cid))
    && (forall n, m :: 0 <= n < m < |att| ==> att[n].index < att[m].index)
  }

  /** No pending log of the campaign at position `j` or after was skipped. */
  predicate NoneSkipped(att: seq<Attempt>, logs: seq<EmailLog>, cid: nat, j: nat) {
    forall i :: j <= i < |logs| && IsPendingFor(logs[i], cid) ==> exists n :: 0 <= n < |att| && att[n].index == i
  }

  /** The attempts are exactly the campaign's pending logs at position `j`
      and after, each once, in table order. */
  predicate CoversPending(att: seq<Attempt>, logs: seq<EmailLog>, cid: nat, j: nat) {
    AttemptsPending(att, logs, cid, j) && NoneSkipped(att, logs, cid, j)
  }

  /** Every attempt carried the run's sender and attachments and the
      campaign's subject and body to the attempted log's address; the n-th
      outcome is the transport's answer for attempt `k + n`; and the log was
      recorded with that outcome in `after`. */
  predicate CallsAgree(att: seq<Attempt>, logs: seq<EmailLog>, c: Campaign, job: Job, k: nat, after: seq<EmailLog>) {
    forall n :: 0 <= n < |att| ==>
      && att[n].index < |logs| && att[n].index < |after|
      && att[n].request == RequestFor(job, c, logs[att[n].index])
      && att[n].outcome == job.transport(k + n, att[n].request)
      && after[att[n].index] == Record(logs[att[n].index], att[n].outcome)
  }

  /** The loop attempts only pending logs of the campaign, never one twice. */
  lemma {:induction false} WalkAttemptsPending(logs: seq<EmailLog>, c: Campaign, job: Job, j: nat, k: nat)
    requires j <= |logs|
    ensures AttemptsPending(Walk(logs, c, job, j, k).attempts, logs, job.campaignId, j)
    decreases |logs| - j
  {
    if j < |logs| {
      var cid := job.campaignId;
      if IsPendingFor(logs[j], cid) {
        var req := RequestFor(job, c, logs[j]);
        var o := job.transport(k, req);
        var logs' := logs[j := Record(logs[j], o)];
        var rest := Walk(logs', Tally(c, o), job, j + 1, k + 1).attempts;
        WalkAttemptsPending(logs', Tally(c, o), job, j + 1, k + 1);
        var att := Walk(logs, c, job, j, k).attempts;
        assert att == [Attempt(j, req, o)] + rest;
        forall n | 0 <= n < |att|
          ensures j <= att[n].index < |logs| && IsPendingFor(logs[att[n].index], cid)
        {
          if n > 0 {
            assert att[n] == rest[n - 1];
          }
        }
        forall n, m | 0 <= n < m < |att|
          ensures att[n].index < att[m].index
        {
          assert att[m] == rest[m - 1];
          if n > 0 {
            assert att[n] == rest[n - 1];
          }
        }
      } else {
        WalkAttemptsPending(logs, c, job, j + 1, k);
      }
    }
  }

  /** The loop skips no pending log of the campaign. */
  lemma {:induction false} WalkNoneSkipped(logs: seq<EmailLog>, c: Campaign, job: Job, j: nat, k: nat)
    requires j <= |logs|
    ensures NoneSkipped(Walk(logs, c, job, j, k).attempts, logs, job.campaignId, j)
    decreases |logs| - j
  {
    if j < |logs| {
      var cid := job.campaignId;
      if IsPendingFor(logs[j], cid) {
        var req := RequestFor(job, c, logs[j]);
        var o := job.transport(k, req);
        var logs' := logs[j := Record(logs[j], o)];
        var rest := Walk(logs', Tally(c, o), job, j + 1, k + 1).attempts;
        WalkNoneSkipped(logs', Tally(c, o), job, j + 1, k + 1);
        var att := Walk(logs, c, job, j, k).attempts;
        assert att == [Attempt(j, req, o)] + rest;
        forall i | j <= i < |logs| && IsPendingFor(logs[i], cid)
          ensures exists n :: 0 <= n < |att| && att[n].index == i
        {
          if i == j {
            assert att[0].index == i;
          } else {
            assert logs'[i] == logs[i];
            var n' :| 0 <= n' < |rest| && rest[n'].index == i;
            assert att[n' + 1].index == i;
          }
        }
      } else {
        WalkNoneSkipped(logs, c, job, j + 1, k);
      }
    }
  }

  /** The loop attempts exactly the pending logs of the campaign, once each,
      in table order. */
  lemma WalkCovers(logs: seq<EmailLog>, c: Campaign, job: Job, j: nat, k: nat)
    requires j <= |logs|
    ensures CoversPending(Walk(logs, c, job, j, k).attempts, logs, job.campaignId, j)
  {
    WalkAttemptsPending(logs, c, job, j, k);
    WalkNoneSkipped(logs, c, job, j, k);
  }

  /** What the loop sends for each attempt and how it records the answer. */
  lemma {:induction false} WalkCalls(logs: seq<EmailLog>, c: Campaign, job: Job, j: nat, k: nat)
    requires j <= |logs|
    ensures var p := Walk(logs, c, job, j, k); CallsAgree(p.attempts, logs, c, job, k, p.logs)
    decreases |logs| - j
  {
    if j < |logs| {
      if IsPendingFor(logs[j], job.campaignId) {
        var req := RequestFor(job, c, logs[j]);
        var o := job.transport(k, req);
        var logs' := logs[j := Record(logs[j], o)];
        var c' := Tally(c, o);
        var rest := Walk(logs', c', job, j + 1, k + 1);
        WalkCalls(logs', c', job, j + 1, k + 1);
        WalkAttemptsPending(logs', c', job, j + 1, k + 1);
        WalkFrame(logs', c', job, j + 1, k + 1);
        var p := Walk(logs, c, job, j, k);
        var att := p.attempts;
        assert att == [Attempt(j, req, o)] + rest.attempts;
        forall n | 0 <= n < |att|
          ensures att[n].index < |logs| && att[n].index < |p.logs|
          ensures att[n].request == RequestFor(job, c, logs[att[n].index])
          ensures att[n].outcome == job.transport(k + n, att[n].request)
          ensures p.logs[att[n].index] == Record(logs[att[n].index], att[n].outcome)
        {
          if n > 0 {
            assert att[n] == rest.attempts[n - 1];
            assert logs'[att[n].index] == logs[att[n].index];
            assert RequestFor(job, c', logs[att[n].index]) == RequestFor(job, c, logs[att[n].index]);
          }
        }
      } else {
        WalkCalls(logs, c, job, j + 1, k);
      }
    }
  }

  /** The loop's effect on the campaign row: the subject, body and total are
      kept and each counter grows by the number of attempts with that outcome. */
  lemma {:induction false} WalkCounters(logs: seq<EmailLog>, c: Campaign, job: Job, j: nat, k: nat)
    requires j <= |logs|
    ensures var p := Walk(logs, c, job, j, k);
      && p.campaign.subject == c.subject && p.campaign.contentHtml == c.contentHtml
      && p.campaign.totalEmails == c.totalEmails
      && p.campaign.sentCount == c.sentCount + CountDelivered(p.attempts)
      && p.campaign.failedCount == c.failedCount + CountRejected(p.attempts)
    decreases |logs| - j
  {
    if j < |logs| {
      if IsPendingFor(logs[j], job.campaignId) {
        var req := RequestFor(job, c, logs[j]);
        var o := job.transport(k, req);
        WalkCounters(logs[j := Record(logs[j], o)], Tally(c, o), job, j + 1, k + 1);
        var rest := Walk(logs[j := Record(logs[j], o)], Tally(c, o), job, j + 1, k + 1);
        assert ([Attempt(j, req, o)] + rest.attempts)[1..] == rest.attempts;
      } else {
        WalkCounters(logs, c, job, j + 1, k);
      }
    }
  }

  /** Campaign `cid`'s logs may have changed status between `a` and `b`, but
      every campaign keeps its number of logs and every other campaign keeps
      its numbers per status. */
  ghost predicate SameCountsElsewhere(a: seq<EmailLog>, b: seq<EmailLog>, cid: nat) {
    && (forall x :: CountFor(b, x) == CountFor(a, x))
    && (forall x, st :: x != cid ==> CountStatus(b, x, st) == CountStatus(a, x, st))
  }

  /** Recording one pending log moves exactly one count of its campaign. */
  lemma RecordCounts(logs: seq<EmailLog>, j: nat, o: Outcome, cid: nat)
    requires j < |logs| && IsPendingFor(logs[j], cid)
    ensures var logs' := logs[j := Record(logs[j], o)];
      && SameCountsElsewhere(logs, logs', cid)
      && CountStatus(logs', cid, Sent) == CountStatus(logs, cid, Sent) + (if o.Delivered? then 1 else 0)
      && CountStatus(logs', cid, Failed) == CountStatus(logs, cid, Failed) + (if o.Rejected? then 1 else 0)
  {
    var x' := Record(logs[j], o);
    forall x
      ensures CountFor(logs[j := x'], x) == CountFor(logs, x)
    {
      CountForUpdate(logs, j, x', x);
    }
    forall x, st | x != cid
      ensures CountStatus(logs[j := x'], x, st) == CountStatus(logs, x, st)
    {
      CountStatusUpdate(logs, j, x', x, st);
    }
    CountStatusUpdate(logs, j, x', cid, Sent);
    CountStatusUpdate(logs, j, x', cid, Failed);
  }

  /** The loop moves the campaign's counters in step with its rows: the
      number of logs per campaign is unchanged, other campaigns' counts are
      unchanged, and each counter of this campaign grows exactly as much as
      the number of its logs with the matching status. */
  lemma {:induction false} WalkBookkeeping(logs: seq<EmailLog>, c: Campaign, job: Job, j: nat, k: nat)
    requires j <= |logs|
    ensures var p := Walk(logs, c, job, j, k);
      && SameCountsElsewhere(logs, p.logs, job.campaignId)
      && p.campaign.sentCount + CountStatus(logs, job.campaignId, Sent) == c.sentCount + CountStatus(p.logs, job.campaignId, Sent)
      && p.campaign.failedCount + CountStatus(logs, job.campaignId, Failed) == c.failedCount + CountStatus(p.logs, job.campaignId, Failed)
    decreases |logs| - j
  {
    if j < |logs| {
      var cid := job.campaignId;
      if IsPendingFor(logs[j], cid) {
        var o := job.transport(k, RequestFor(job, c, logs[j]));
        var logs' := logs[j := Record(logs[j], o)];
        RecordCounts(logs, j, o, cid);
        WalkBookkeeping(logs', Tally(c, o), job, j + 1, k + 1);
      } else {
        WalkBookkeeping(logs, c, job, j + 1, k);
      }
    }
  }

  /** The dispatch loop written the way the source writes it: one pass over
      the log table, committing each pending log's outcome and the matching
      counter before moving on. It computes exactly what `Walk` describes. */
  method DispatchLoop(logs: seq<EmailLog>, c: Campaign, job: Job) returns (p: Pass)
    ensures p == Walk(logs, c, job, 0, 0)
  {
    var cur := logs;
    var camp := c;
    var att: seq<Attempt> := [];
    var j := 0;
    while j < |cur|
      invariant |cur| == |logs| && j <= |cur|
      invariant var rest := Walk(cur, camp, job, j, |att|);
        Walk(logs, c, job, 0, 0) == Pass(rest.logs, rest.campaign, att + rest.attempts)
      decreases |cur| - j
    {
      if IsPendingFor(cur[j], job.campaignId) {
        var req := RequestFor(job, camp, cur[j]);
        var o := job.transport(|att|, req);
        var rest := Walk(cur[j := Record(cur[j], o)], Tally(camp, o), job, j + 1, |att| + 1);
        assert att + ([Attempt(j, req, o)] + rest.attempts) == (att + [Attempt(j, req, o)]) + rest.attempts;
        cur := cur[j := Record(cur[j], o)];
        camp := Tally(camp, o);
        att := att + [Attempt(j, req, o)];
      }
      j := j + 1;
    }
    assert att + [] == att;
    p := Pass(cur, camp, att);
  }

  /** `send_campaign_background`: resolve credentials; give up without
      touching anything when that fails or the campaign does not exist;
      otherwise attempt each pending log of the campaign once, recording the
      outcome on the log and in the campaign's counters. */
  function SendCampaign(store: Store, cid: nat, email: string, password: string, decrypt: Decrypt, transport: Transport): (r: Run)
    ensures !ResolveCredentials(email, password, store.settings, decrypt).Resolved? || cid !in store.campaigns ==>
      r == Run(store, [])
    ensures r.store.settings == store.settings && r.store.attachments == store.attachments
    ensures r.store.nextId == store.nextId && r.store.campaigns.Keys == store.campaigns.Keys
    ensures |r.store.logs| == |store.logs|
    ensures forall x :: x in store.campaigns && x != cid ==> r.store.campaigns[x] == store.campaigns[x]
  {
    var res := ResolveCredentials(email, password, store.settings, decrypt);
    if res.DecryptionFailed? then
      Run(store, [])
    else if cid !in store.campaigns || res.Missing? then
      Run(store, [])
    else
      var job := Job(cid, res.creds, AttachmentPaths(store.attachments, cid), transport);
      var p := Walk(store.logs, store.campaigns[cid], job, 0, 0);
      Run(store.(campaigns := store.campaigns[cid := p.campaign], logs := p.logs), p.attempts)
  }

  /** What a run with usable credentials does, stated on the database: the
      calls made are exactly the campaign's pending logs, once each, each
      carrying the resolved sender, the campaign's subject and body and its
      attachment paths, and each log is recorded with its call's outcome;
      the other logs are untouched, no log of the campaign is left pending,
      and each counter grows by the number of calls with its outcome. */
  lemma SendCampaignEffect(store: Store, cid: nat, email: string, password: string, decrypt: Decrypt, transport: Transport)
    requires ResolveCredentials(email, password, store.settings, decrypt).Resolved?
    requires cid in store.campaigns
    ensures var r := SendCampaign(store, cid, email, password, decrypt, transport);
      var job := Job(cid, ResolveCredentials(email, password, store.settings, decrypt).creds, AttachmentPaths(store.attachments, cid), transport);
      var c := store.campaigns[cid]; var c' := r.store.campaigns[cid];
      var att := r.attempts; var logs := store.logs;
      && CoversPending(att, logs, cid, 0)
      && CallsAgree(att, logs, c, job, 0, r.store.logs)
      && (forall i :: 0 <= i < |logs| && !IsPendingFor(logs[i], cid) ==> r.store.logs[i] == logs[i])
      && (forall i :: 0 <= i < |logs| ==> !IsPendingFor(r.store.logs[i], cid))
      && c'.subject == c.subject && c'.contentHtml == c.contentHtml && c'.totalEmails == c.totalEmails
      && c'.sentCount == c.sentCount + CountDelivered(att)
      && c'.failedCount == c.failedCount + CountRejected(att)
      && |att| == CountDelivered(att) + CountRejected(att)
  {
    var res := ResolveCredentials(email, password, store.settings, decrypt);
    var job := Job(cid, res.creds, AttachmentPaths(store.attachments, cid), transport);
    var c := store.campaigns[cid];
    var p := Walk(store.logs, c, job, 0, 0);
    WalkCovers(store.logs, c, job, 0, 0);
    WalkCalls(store.logs, c, job, 0, 0);
    WalkFrame(store.logs, c, job, 0, 0);
    WalkCounters(store.logs, c, job, 0, 0);
    CountOutcomes(p.attempts);
    forall i | 0 <= i < |store.logs|
      ensures !IsPendingFor(p.logs[i], cid)
    {
      if IsPendingFor(store.logs[i], cid) {
        var n :| 0 <= n < |p.attempts| && p.attempts[n].index == i;
      }
    }
  }

  /** A run keeps every failure reason in step with its log's status. */
  lemma SendCampaignKeepsErrors(store: Store, cid: nat, email: string, password: string, decrypt: Decrypt, transport: Transport)
    requires ErrorsMatchStatus(store)
    ensures ErrorsMatchStatus(SendCampaign(store, cid, email, password, decrypt, transport).store)
  {
    var res := ResolveCredentials(email, password, store.settings, decrypt);
    if res.Resolved? && cid in store.campaigns {
      var job := Job(cid, res.creds, AttachmentPaths(store.attachments, cid), transport);
      WalkKeepsErrors(store.logs, store.campaigns[cid], job, 0, 0);
      assert SendCampaign(store, cid, email, password, decrypt, transport).store.logs
          == Walk(store.logs, store.campaigns[cid], job, 0, 0).logs;
    }
  }

  /** The attempt count of a run is the campaign's number of pending logs,
      so `sent_count + failed_count` grows by exactly that number. */
  lemma SendCampaignCountsPending(store: Store, cid: nat, email: string, password: string, decrypt: Decrypt, transport: Transport)
    requires ResolveCredentials(email, password, store.settings, decrypt).Resolved?
    requires cid in store.campaigns
    ensures var r := SendCampaign(store, cid, email, password, decrypt, transport);
      && |r.attempts| == CountStatus(store.logs, cid, Pending)
      && r.store.campaigns[cid].sentCount + r.store.campaigns[cid].failedCount
         == store.campaigns[cid].sentCount + store.campaigns[cid].failedCount + CountStatus(store.logs, cid, Pending)
  {
    var r := SendCampaign(store, cid, email, password, decrypt, transport);
    var res := ResolveCredentials(email, password, store.settings, decrypt);
    var job := Job(cid, res.creds, AttachmentPaths(store.attachments, cid), transport);
    var c := store.campaigns[cid];
    var p := Walk(store.logs, c, job, 0, 0);
    assert r.store.logs == p.logs && r.store.campaigns[cid] == p.campaign && r.attempts == p.attempts;
    assert CountStatus(p.logs, cid, Pending) == 0 by {
      SendCampaignEffect(store, cid, email, password, decrypt, transport);
      CountStatusZero(p.logs, cid, Pending);
    }
    assert p.campaign.sentCount + p.campaign.failedCount == c.sentCount + c.failedCount + |p.attempts| by {
      WalkCounters(store.logs, c, job, 0, 0);
      CountOutcomes(p.attempts);
    }
    assert CountFor(p.logs, cid) == CountFor(store.logs, cid)
        && p.campaign.sentCount + CountStatus(store.logs, cid, Sent) == c.sentCount + CountStatus(p.logs, cid, Sent)
        && p.campaign.failedCount + CountStatus(store.logs, cid, Failed) == c.failedCount + CountStatus(p.logs, cid, Failed) by {
      WalkBookkeeping(store.logs, c, job, 0, 0);
    }
    CountPartition(store.logs, cid);
    CountPartition(p.logs, cid);
  }

  /** A run over a campaign with no pending log changes nothing and sends
      nothing; this is what makes re-running a finished campaign harmless. */
  lemma NothingPendingIsNoOp(store: Store, cid: nat, email: string, password: string, decrypt: Decrypt, transport: Transport)
    requires forall i :: 0 <= i < |store.logs| ==> !IsPendingFor(store.logs[i], cid)
    ensures SendCampaign(store, cid, email, password, decrypt, transport) == Run(store, [])
  {
    var res := ResolveCredentials(email, password, store.settings, decrypt);
    if res.Resolved? && cid in store.campaigns {
      var job := Job(cid, res.creds, AttachmentPaths(store.attachments, cid), transport);
      var c := store.campaigns[cid];
      var p := Walk(store.logs, c, job, 0, 0);
      WalkCovers(store.logs, c, job, 0, 0);
      WalkFrame(store.logs, c, job, 0, 0);
      WalkCounters(store.logs, c, job, 0, 0);
      assert p.logs == store.logs;
      assert store.campaigns[cid := p.campaign] == store.campaigns;
    }
  }

  /** After a run that got going, running the send again, with any
      credentials and any transport, leaves the database as the first run
      left it. */
  lemma SendCampaignIdempotent(store: Store, cid: nat, email: string, password: string, decrypt: Decrypt, transport: Transport,
                               email2: string, password2: string, decrypt2: Decrypt, transport2: Transport)
    requires ResolveCredentials(email, password, store.settings, decrypt).Resolved? && cid in store.campaigns
    ensures var s1 := SendCampaign(store, cid, email, password, decrypt, transport).store;
      SendCampaign(s1, cid, email2, password2, decrypt2, transport2) == Run(s1, [])
  {
    var s1 := SendCampaign(store, cid, email, password, decrypt, transport).store;
    SendCampaignEffect(store, cid, email, password, decrypt, transport);
    NothingPendingIsNoOp(s1, cid, email2, password2, decrypt2, transport2);
  }

  /** A run keeps the bookkeeping invariant and referential integrity:
      status and counter always change together. */
  lemma SendCampaignPreservesConsistency(store: Store, cid: nat, email: string, password: string, decrypt: Decrypt, transport: Transport)
    requires Valid(store) && Consistent(store)
    ensures var r := SendCampaign(store, cid, email, password, decrypt, transport);
      Valid(r.store) && Consistent(r.store)
  {
    var r := SendCampaign(store, cid, email, password, decrypt, transport);
    var res := ResolveCredentials(email, password, store.settings, decrypt);
    if res.Resolved? && cid in store.campaigns {
      var job := Job(cid, res.creds, AttachmentPaths(store.attachments, cid), transport);
      var c := store.campaigns[cid];
      var p := Walk(store.logs, c, job, 0, 0);
      WalkBookkeeping(store.logs, c, job, 0, 0);
      WalkCounters(store.logs, c, job, 0, 0);
      WalkFrame(store.logs, c, job, 0, 0);
      assert r.store.logs == p.logs;
      forall x | x in r.store.campaigns
        ensures r.store.campaigns[x].totalEmails == CountFor(r.store.logs, x)
        ensures r.store.campaigns[x].sentCount == CountStatus(r.store.logs, x, Sent)
        ensures r.store.campaigns[x].failedCount == CountStatus(r.store.logs, x, Failed)
      {
        if x != cid {
          assert CountStatus(p.logs, x, Sent) == CountStatus(store.logs, x, Sent);
          assert CountStatus(p.logs, x, Failed) == CountStatus(store.logs, x, Failed);
        }
      }
    }
  }

  /** The send route's guard never refuses a request that the background
      task would have carried out: whenever it refuses, the task would have
      changed nothing. */
  lemma RefusedStartIsNoOp(store: Store, cid: nat, email: string, password: string, decrypt: Decrypt, transport: Transport)
    requires !StartAllowed(email, password, store.settings)
    ensures SendCampaign(store, cid, email, password, decrypt, transport) == Run(store, [])
  {
  }
}

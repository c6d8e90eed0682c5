/** How the three operations fit together over a campaign's life: created
    with every recipient pending, dispatched once, reported as completed. */
module Lifecycle {
  import opened Optional
  import opened PyStr
  import opened Models
  import opened Dispatch
  import opened Campaigns

  /** A campaign created on a consistent database and then dispatched with
      usable credentials is reported as completed, with one sent or failed
      count per distinct recipient and one transport call per recipient,
      whatever each call's outcome. */
  lemma CreateThenSendCompletes(store: Store, subject: string, content: string, csv: CsvInput, raw: string,
                                uploads: seq<string>, sanitize: string -> string, folder: string, order: seq<string>,
                                email: string, password: string, decrypt: Decrypt, transport: Transport)
    requires Valid(store) && Consistent(store)
    requires Enumerates(order, Recipients(csv, raw))
    requires !csv.CsvUnreadable? && Recipients(csv, raw) != {}
    requires ResolveCredentials(email, password, store.settings, decrypt).Resolved?
    ensures var created := CreateCampaign(store, subject, content, csv, raw, uploads, sanitize, folder, order);
      var run := SendCampaign(created.store, created.campaignId, email, password, decrypt, transport);
      var report := CampaignStatus(run.store, created.campaignId);
      && report.Some?
      && report.value.state == Completed
      && report.value.total == |Recipients(csv, raw)|
      && report.value.sent + report.value.failed == |Recipients(csv, raw)|
      && |run.attempts| == |Recipients(csv, raw)|
  {
    var created := CreateCampaign(store, subject, content, csv, raw, uploads, sanitize, folder, order);
    var s1 := created.store;
    var cid := created.campaignId;
    var n := |Recipients(csv, raw)|;
    assert cid in s1.campaigns && s1.settings == store.settings;
    assert s1.campaigns[cid].totalEmails == n && s1.campaigns[cid].sentCount == 0 && s1.campaigns[cid].failedCount == 0 by {
      CreatedCampaign(store, subject, content, csv, raw, uploads, sanitize, folder, order);
    }
    assert CountStatus(s1.logs, cid, Pending) == n by {
      CreateKeepsInvariants(store, subject, content, csv, raw, uploads, sanitize, folder, order);
    }
    var run := SendCampaign(s1, cid, email, password, decrypt, transport);
    assert |run.attempts| == n && run.store.campaigns[cid].sentCount + run.store.campaigns[cid].failedCount == n by {
      SendCampaignCountsPending(s1, cid, email, password, decrypt, transport);
    }
    assert run.store.campaigns[cid].totalEmails == n by {
      SendNeverRegresses(s1, cid, cid, email, password, decrypt, transport);
    }
  }

  /** A freshly created campaign is reported as processing with nothing sent
      or failed yet. */
  lemma CreatedIsProcessing(store: Store, subject: string, content: string, csv: CsvInput, raw: string,
                            uploads: seq<string>, sanitize: string -> string, folder: string, order: seq<string>)
    requires Enumerates(order, Recipients(csv, raw))
    requires !csv.CsvUnreadable? && Recipients(csv, raw) != {}
    ensures var created := CreateCampaign(store, subject, content, csv, raw, uploads, sanitize, folder, order);
      CampaignStatus(created.store, created.campaignId) == Some(StatusReport(|Recipients(csv, raw)|, 0, 0, Processing))
  {
    CreatedCampaign(store, subject, content, csv, raw, uploads, sanitize, folder, order);
  }

  /** The files a dispatch of a new campaign attaches are exactly the
      uploads that carried a name, in upload order, each under its
      sanitised name in the upload folder. */
  lemma CreatedAttachmentPaths(store: Store, subject: string, content: string, uploads: seq<string>,
                               sanitize: string -> string, folder: string, order: seq<string>)
    requires Valid(store)
    ensures var names := NamedUploads(uploads);
      var paths := AttachmentPaths(Insert(store, subject, content, uploads, sanitize, folder, order).attachments, store.nextId);
      && |paths| == |names|
      && forall i :: 0 <= i < |names| ==> paths[i] == PathJoin(folder, sanitize(names[i]))
  {
    var cid := store.nextId;
    var rows := AttachmentRows(cid, folder, uploads, sanitize);
    assert Insert(store, subject, content, uploads, sanitize, folder, order).attachments == store.attachments + rows;
    AttachmentPathsAppend(store.attachments, rows, cid);
    AttachmentPathsNone(store.attachments, cid);
    AttachmentPathsOwn(rows, cid);
  }

  /** Progress only moves forward: a dispatch run never lowers the sent or
      failed count of any campaign, never changes a total, and a campaign
      reported as completed stays completed. */
  lemma SendNeverRegresses(store: Store, cid: nat, other: nat, email: string, password: string, decrypt: Decrypt, transport: Transport)
    requires other in store.campaigns
    ensures var before := CampaignStatus(store, other).value;
      var after := CampaignStatus(SendCampaign(store, cid, email, password, decrypt, transport).store, other);
      && after.Some?
      && after.value.total == before.total
      && after.value.sent >= before.sent
      && after.value.failed >= before.failed
      && (before.state == Completed ==> after.value.state == Completed)
  {
    if ResolveCredentials(email, password, store.settings, decrypt).Resolved? && cid in store.campaigns && other == cid {
      SendCampaignEffect(store, cid, email, password, decrypt, transport);
    }
  }
}

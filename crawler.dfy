/** `main`: fetch the page, stop if nothing came back, extract the items,
    and send them. The fetch itself is not modelled: `page` is what it
    returned, `None` on any failure. */
module Crawler {
  import opened Wrappers
  import opened Extractor
  import opened Notifier

  /** How a run ends: no page, no items (which the extractor makes
      impossible), or items pushed with this many of them and this
      delivery result. */
  datatype Report = FetchFailed | NothingToPush | Pushed(total: nat, delivery: Delivery)

  /** Python's `if not html_content`: an absent or empty page stops the run. */
  predicate PageFetched(page: Option<string>)
  {
    page.Some? && page.value != []
  }

  method Run(page: Option<string>, doc: Document, webhook: Option<string>, responses: seq<PostOutcome>)
    returns (report: Report, bodies: seq<string>)
    requires WellFormed(doc)
    requires MaxNodes <= |responses|
    ensures !PageFetched(page) ==> report == FetchFailed && bodies == []
    ensures PageFetched(page) ==> report.Pushed? && report.total == |Parse(doc)|
    ensures report.Pushed? ==> 1 <= report.total <= MaxNodes
    ensures report.Pushed? ==>
              report.delivery == (if WebhookConfigured(webhook) then Sent(CountDelivered(responses[..report.total])) else MissingWebhook)
    ensures report.Pushed? && WebhookConfigured(webhook) ==>
              |bodies| == report.total && forall k :: 0 <= k < report.total ==> bodies[k] == CardBody(Parse(doc)[k])
    ensures !WebhookConfigured(webhook) ==> bodies == []
  {
    bodies := [];
    if !PageFetched(page) {
      return FetchFailed, bodies;
    }
    var items := ParseNews(doc);
    ParseLength(doc);
    if items != [] {
      var delivery;
      delivery, bodies := SendToFeishu(webhook, items, responses);
      report := Pushed(|items|, delivery);
    } else {
      report := NothingToPush;
    }
  }
}

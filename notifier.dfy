/** The delivery accounting of `send_to_feishu`: without a webhook nothing
    is sent; otherwise every item is posted once, in order, as a card whose
    markdown body shows the bold title and a "read more" link, and only the
    posts answered with status 200 are counted.

    The network is not modelled: the k-th post made receives the k-th
    element of `responses`. */
module Notifier {
  import opened Wrappers
  import opened Extractor

  /** What one POST to the webhook comes back with. */
  datatype PostOutcome = Status(code: int) | Raised

  /** The return value of `send_to_feishu`: `False` when no webhook is
      configured, otherwise the number of successful posts. */
  datatype Delivery = MissingWebhook | Sent(successCount: nat)

  const OkStatus: int := 200

  /** Between the bold title and the link: a blank line and the start of
      the "read more" markdown link. */
  const ReadMoreOpen: string := "**\n\n[阅读全文]("

  /** Python's `if not webhook_url`: an absent or empty URL is missing. */
  predicate WebhookConfigured(webhook: Option<string>)
  {
    webhook.Some? && webhook.value != []
  }

  predicate Delivered(outcome: PostOutcome)
  {
    outcome == Status(OkStatus)
  }

  /** The markdown body of an item's card: `**title**`, a blank line, then
      `[阅读全文](link)`. The title and the link sit at fixed offsets. */
  function CardBody(item: NewsItem): (r: string)
    ensures |r| == |item.title| + |item.link| + |ReadMoreOpen| + 3
    ensures r[..2] == "**" && r[2..2 + |item.title|] == item.title
    ensures r[2 + |item.title|..2 + |item.title| + |ReadMoreOpen|] == ReadMoreOpen
    ensures r[|r| - 1 - |item.link|..|r| - 1] == item.link && r[|r| - 1] == ')'
  {
    var r := "**" + item.title + ReadMoreOpen + item.link + ")";
    assert r == ("**" + item.title) + (ReadMoreOpen + item.link + ")");
    r
  }

  /** Two cards with titles of the same length have the same body only
      when they show the same item. */
  lemma CardBodyInjective(a: NewsItem, b: NewsItem)
    requires |a.title| == |b.title|
    requires CardBody(a) == CardBody(b)
    ensures a == b
  {
    var n := |CardBody(a)|;
    assert a.title == CardBody(a)[2..2 + |a.title|] == CardBody(b)[2..2 + |b.title|] == b.title;
    assert |a.link| == |b.link|;
    assert a.link == CardBody(a)[n - 1 - |a.link|..n - 1] == CardBody(b)[n - 1 - |b.link|..n - 1] == b.link;
  }

  /** How many of the outcomes are status 200. */
  function CountDelivered(outcomes: seq<PostOutcome>): nat
  {
    if outcomes == [] then 0
    else CountDelivered(outcomes[..|outcomes| - 1]) + (if Delivered(outcomes[|outcomes| - 1]) then 1 else 0)
  }

  /** The count is at most the number of posts; it is the number of posts
      exactly when every post got 200, and zero exactly when none did. */
  lemma {:induction false} CountDeliveredBounds(outcomes: seq<PostOutcome>)
    ensures CountDelivered(outcomes) <= |outcomes|
    ensures CountDelivered(outcomes) == |outcomes| <==> forall k :: 0 <= k < |outcomes| ==> Delivered(outcomes[k])
    ensures CountDelivered(outcomes) == 0 <==> forall k :: 0 <= k < |outcomes| ==> !Delivered(outcomes[k])
  {
    if outcomes != [] {
      var init := outcomes[..|outcomes| - 1];
      CountDeliveredBounds(init);
      assert forall k :: 0 <= k < |init| ==> init[k] == outcomes[k];
    }
  }

  /** The count of a run of posts is the sum of the counts of its parts. */
  lemma {:induction false} CountDeliveredAppend(a: seq<PostOutcome>, b: seq<PostOutcome>)
    ensures CountDelivered(a + b) == CountDelivered(a) + CountDelivered(b)
    decreases |b|
  {
    if b == [] {
      assert a + b == a;
    } else {
      assert (a + b)[..|a + b| - 1] == a + b[..|b| - 1];
      CountDeliveredAppend(a, b[..|b| - 1]);
    }
  }

  /** `send_to_feishu`: the webhook guard, then one post per item, in item
      order, whatever the earlier posts came back with. `bodies` records
      the card body of every post made. */
  method SendToFeishu(webhook: Option<string>, items: seq<NewsItem>, responses: seq<PostOutcome>)
    returns (result: Delivery, bodies: seq<string>)
    requires |items| <= |responses|
    ensures !WebhookConfigured(webhook) ==> result == MissingWebhook && bodies == []
    ensures WebhookConfigured(webhook) ==> result == Sent(CountDelivered(responses[..|items|]))
    ensures WebhookConfigured(webhook) ==>
              |bodies| == |items| && forall k :: 0 <= k < |items| ==> bodies[k] == CardBody(items[k])
    ensures result.Sent? ==> result.successCount <= |items|
  {
    bodies := [];
    if !WebhookConfigured(webhook) {
      return MissingWebhook, bodies;
    }
    var successCount := 0;
    var k := 0;
    while k < |items|
      invariant 0 <= k <= |items|
      invariant successCount == CountDelivered(responses[..k])
      invariant |bodies| == k && forall j :: 0 <= j < k ==> bodies[j] == CardBody(items[j])
    {
      var content := CardBody(items[k]);
      bodies := bodies + [content];
      var outcome := responses[k];
      assert responses[..k + 1][..k] == responses[..k];
      if outcome.Status? && outcome.code == OkStatus {
        successCount := successCount + 1;
      }
      k := k + 1;
    }
    CountDeliveredBounds(responses[..|items|]);
    result := Sent(successCount);
  }
}

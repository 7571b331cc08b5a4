/** The response handling of `generateImage` (generateImage.ts): from the
    list of creation records the image service returns, pick the first one
    that has an `images` field and is not expired, and answer the URL of its
    first image, or "" whenever anything is missing or goes wrong. */
module ImageSelect {
  import opened Wrappers

  datatype Image = Image(url: string)

  /** A creation record. `expired` is false when the field is absent (an
      absent field is falsy); `images` is None when the field is absent or
      null. An empty list is still present, and so truthy. */
  datatype Creation = Creation(expired: bool, images: Option<seq<Image>>)

  /** `response.data`: either an array of creation records or something else. */
  datatype Payload = NotAnArray | Creations(items: seq<Creation>)

  /** The outcome of the POST: the request threw, or a response arrived. */
  datatype Reply = RequestFailed | Received(data: Payload)

  /** What `generateImage` answers when it has no image. */
  const NoImage: string := ""

  /** The test `find` applies: `item.images && !item.expired`. */
  predicate Eligible(c: Creation) {
    c.images.Some? && !c.expired
  }

  /** `items.findIndex(Eligible)`, as an option: the index of the first
      eligible record, or None when there is none. */
  function FirstEligible(items: seq<Creation>): (k: Option<nat>)
    ensures k.Some? ==> k.value < |items| && Eligible(items[k.value])
    ensures k.Some? ==> forall j :: 0 <= j < k.value ==> !Eligible(items[j])
    ensures k.None? <==> forall j :: 0 <= j < |items| ==> !Eligible(items[j])
  {
    if |items| == 0 then None
    else if Eligible(items[0]) then Some(0)
    else
      match FirstEligible(items[1..])
      case None => None
      case Some(j) => Some(j + 1)
  }

  /** The URL `generateImage` returns for a reply. */
  function SelectUrl(reply: Reply): (url: string)
    ensures reply.RequestFailed? ==> url == NoImage
    ensures reply.Received? && reply.data.NotAnArray? ==> url == NoImage
    ensures url != NoImage ==>
              exists k :: 0 <= k < |reply.data.items| && !reply.data.items[k].expired
                          && reply.data.items[k].images.Some?
                          && |reply.data.items[k].images.value| > 0
                          && url == reply.data.items[k].images.value[0].url
  {
    match reply
    case RequestFailed => NoImage
    case Received(NotAnArray) => NoImage
    case Received(Creations(items)) =>
      if |items| == 0 then NoImage
      else
        match FirstEligible(items)
        case None => NoImage
        case Some(k) =>
          // `!latestImage.images` cannot hold of an eligible record
          var images := items[k].images.value;
          if |images| == 0 then NoImage else images[0].url
  }

  /** The same selection as a loop over the records, the way `find` walks
      the array. */
  method GenerateImage(reply: Reply) returns (url: string)
    ensures url == SelectUrl(reply)
  {
    if reply.RequestFailed? || reply.data.NotAnArray? {
      return NoImage;
    }
    var items := reply.data.items;
    if |items| == 0 {
      return NoImage;
    }
    var i := 0;
    while i < |items| && !Eligible(items[i])
      invariant 0 <= i <= |items|
      invariant forall j :: 0 <= j < i ==> !Eligible(items[j])
    {
      i := i + 1;
    }
    if i == |items| {
      return NoImage;
    }
    var images := items[i].images.value;
    if |images| == 0 {
      return NoImage;
    }
    url := images[0].url;
  }

  /** The record chosen is the first eligible one, and its image list alone
      decides the answer: its first image's URL, or "" for an empty list. */
  lemma SelectsFirstEligible(items: seq<Creation>, k: nat)
    requires k < |items| && Eligible(items[k])
    requires forall j :: 0 <= j < k ==> !Eligible(items[j])
    ensures var images := items[k].images.value;
            SelectUrl(Received(Creations(items)))
              == (if |images| == 0 then NoImage else images[0].url)
  {
  }

  /** With no eligible record (including an empty array) the answer is "". */
  lemma NoEligibleNoImage(items: seq<Creation>)
    requires forall j :: 0 <= j < |items| ==> !Eligible(items[j])
    ensures SelectUrl(Received(Creations(items))) == NoImage
  {
  }

  /** Once an eligible record has been found, records after it are never
      consulted, even when its image list is empty. */
  lemma LaterRecordsIgnored(items: seq<Creation>, later: seq<Creation>)
    requires FirstEligible(items).Some?
    ensures SelectUrl(Received(Creations(items + later))) == SelectUrl(Received(Creations(items)))
  {
    var k := FirstEligible(items).value;
    assert (items + later)[k] == items[k];
    SelectsFirstEligible(items + later, k);
    SelectsFirstEligible(items, k);
  }

  /** Records that are expired or have no image list never affect the
      answer: inserting one anywhere leaves it unchanged. */
  lemma IneligibleRecordIgnored(before: seq<Creation>, c: Creation, after: seq<Creation>)
    requires !Eligible(c)
    ensures SelectUrl(Received(Creations(before + [c] + after)))
            == SelectUrl(Received(Creations(before + after)))
  {
    var with := before + [c] + after;
    var without := before + after;
    var f := FirstEligible(without);
    if f.Some? {
      var k := f.value;
      var k' := if k < |before| then k else k + 1;
      assert with[k'] == without[k];
      forall j | 0 <= j < k' ensures !Eligible(with[j]) {
        if j < |before| { assert with[j] == without[j]; }
        else if j > |before| { assert with[j] == without[j - 1]; }
      }
      SelectsFirstEligible(with, k');
      SelectsFirstEligible(without, k);
    } else {
      forall j | 0 <= j < |with| ensures !Eligible(with[j]) {
        if j < |before| { assert with[j] == without[j]; }
        else if j > |before| { assert with[j] == without[j - 1]; }
      }
    }
  }
}

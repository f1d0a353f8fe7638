/** The model service as the pipeline sees it: one reply per batch, checked
    by the validation tail of `_call_openai`, and the replies of all batches
    collected into `translations`. */
module Gateway {
  import opened Wrappers
  import opened Batching

  /** A decoded reply: the JSON list with each element rendered by `str`, or
      `None` when the reply is not JSON or not a list. The service itself is
      a function from a batch to its reply. */
  type Service = seq<string> -> Option<seq<string>>

  /** `_call_openai` after the request: a list of the batch's length is
      taken, anything else falls back to the batch itself. */
  function Validate(items: seq<string>, reply: Option<seq<string>>): (r: seq<string>)
    ensures |r| == |items|
    ensures reply.None? || |reply.value| != |items| ==> r == items
    ensures reply.Some? && |reply.value| == |items| ==> r == reply.value
  {
    if reply.Some? && |reply.value| == |items| then reply.value else items
  }

  /** `translations` once every batch has been sent. */
  function Translations(batches: seq<seq<string>>, service: Service): seq<string>
    decreases |batches|
  {
    if batches == [] then []
    else
      var b := batches[|batches| - 1];
      Translations(batches[..|batches| - 1], service) + Validate(b, service(b))
  }

  /** The loop of `translate_html_document` over the batches. */
  method TranslateBatches(batches: seq<seq<string>>, service: Service) returns (translations: seq<string>)
    ensures translations == Translations(batches, service)
    ensures |translations| == |Flatten(batches)|
  {
    translations := [];
    var k := 0;
    while k < |batches|
      invariant 0 <= k <= |batches|
      invariant translations == Translations(batches[..k], service)
    {
      var b := batches[k];
      assert batches[..k + 1][..k] == batches[..k];
      translations := translations + Validate(b, service(b));
      k := k + 1;
    }
    assert batches[..|batches|] == batches;
    TranslationsLength(batches, service);
  }

  /** There is one translation per item of every batch. */
  lemma {:induction false} TranslationsLength(batches: seq<seq<string>>, service: Service)
    ensures |Translations(batches, service)| == |Flatten(batches)|
    decreases |batches|
  {
    if batches != [] {
      TranslationsLength(batches[..|batches| - 1], service);
    }
  }

  /** A service whose replies are all rejected, or that answers every batch
      with the batch itself, leaves the items as they are. */
  lemma {:induction false} TranslationsFallback(batches: seq<seq<string>>, service: Service)
    requires forall b :: b in batches ==> service(b).None? || |service(b).value| != |b| || service(b).value == b
    ensures Translations(batches, service) == Flatten(batches)
    decreases |batches|
  {
    if batches != [] {
      var b := batches[|batches| - 1];
      assert b in batches;
      var init := batches[..|batches| - 1];
      assert forall x :: x in init ==> x in batches;
      TranslationsFallback(init, service);
    }
  }

  /** The translation of item `j` of batch `k` sits after the items of the
      batches before it. */
  lemma {:induction false} TranslationAt(batches: seq<seq<string>>, service: Service, k: nat, j: nat)
    requires k < |batches| && j < |batches[k]|
    ensures |Flatten(batches[..k])| + j < |Translations(batches, service)|
    ensures Translations(batches, service)[|Flatten(batches[..k])| + j] == Validate(batches[k], service(batches[k]))[j]
    decreases |batches|
  {
    var n := |batches|;
    var init := batches[..n - 1];
    TranslationsLength(init, service);
    TranslationsLength(batches, service);
    if k < n - 1 {
      assert init[..k] == batches[..k] && init[k] == batches[k];
      TranslationAt(init, service, k, j);
    } else {
      assert batches[..k] == init;
    }
  }
}

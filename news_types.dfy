/** The news entities shared by the search endpoint and its client. */
module NewsTypes {
  import opened Wrappers
  import opened JsValues

  datatype ImpactLevel = High | Medium | Low

  /** The wire name of an impact level. */
  function ImpactName(level: ImpactLevel): string {
    match level
    case High => "HIGH"
    case Medium => "MEDIUM"
    case Low => "LOW"
  }

  /**
   * A news item as the endpoint emits it. The declared type gives every field as a
   * string, but the endpoint copies any truthy `date`, `source` or `url` value and
   * any `tags` array as it finds them, so those fields keep the JSON value.
   */
  datatype NewsItem = NewsItem(
    title: string,
    summary: string,
    date: JsValue,
    source: JsValue,
    url: JsValue,
    impactLevel: ImpactLevel,
    tags: seq<JsValue>)

  /** The item matches its declared type: `date`, `source`, `url` and every tag are strings. */
  predicate WellTyped(item: NewsItem) {
    && item.date.Str? && item.source.Str? && item.url.Str?
    && forall i :: 0 <= i < |item.tags| ==> item.tags[i].Str?
  }

}

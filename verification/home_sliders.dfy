/**
 Creating a homepage slider (`POST /api/home-sliders`). The handler checks the
 two required fields, counts the sliders that are currently visible, decides
 the new slider's `visible` flag from that count, and inserts one row.
 */
module HomeSliders {
  import opened Optional
  import opened JsValues
  import opened Http

  /** At most this many sliders are visible; a new one beyond it is stored hidden. */
  const MaxVisible := 5

  const MissingFieldsMessage := "Image dan title wajib diisi"

  /** The fields the handler reads from the JSON body. */
  datatype SliderBody = SliderBody(
    image: JsValue, title: JsValue, subtitle: JsValue, description: JsValue,
    buttonText: JsValue, buttonLink: JsValue, bgGradient: JsValue,
    featured: JsValue, visible: JsValue)

  /** A row of the `home_sliders` table as the handler writes it. */
  datatype SliderRow = SliderRow(
    image: JsValue, title: JsValue, subtitle: JsValue, description: JsValue,
    buttonText: JsValue, buttonLink: JsValue, bgGradient: JsValue,
    featured: JsValue, visible: bool)

  /** The reply of the exact-count query over visible sliders: the count may be
      null, or the query may fail with a message. */
  datatype CountReply = Counted(count: Option<nat>) | CountFailed(message: string)

  /** Number of visible rows in a table. */
  function VisibleCount(table: seq<SliderRow>): (n: nat)
    ensures n <= |table|
  {
    if table == [] then 0
    else VisibleCount(table[..|table| - 1]) + (if table[|table| - 1].visible then 1 else 0)
  }

  /** The `visible` value stored for a new slider, given the visible count and
      the requested flag: the first visible slider is forced on, a sixth is
      forced off, and in between a boolean request is kept (anything else
      means visible). A null count is not zero: it takes the last branch. */
  function NewVisible(count: Option<nat>, requested: JsValue): (v: bool)
    ensures count == Some(0) ==> v
    ensures count.Some? && count.value >= MaxVisible ==> !v
    ensures (count == None || 0 < count.value < MaxVisible) ==>
              (v <==> !requested.Bool? || requested.b)
  {
    if count == Some(0) then true
    else if count.GetOr(0) >= MaxVisible then false
    else if requested.Bool? then requested.b
    else true
  }

  /** The row inserted for `body` once its `visible` flag is decided. */
  function RowFor(body: SliderBody, visible: bool): (row: SliderRow)
    ensures row.visible == visible
    ensures row.featured == Coalesce(body.featured, Bool(false))
  {
    SliderRow(body.image, body.title, body.subtitle, body.description,
              body.buttonText, body.buttonLink, body.bgGradient,
              Coalesce(body.featured, Bool(false)), visible)
  }

  /** The handler: its response (the persisted `visible` flag on success) and the
      table afterwards. `insertError` is the insert's failure, if any. */
  function Post(table: seq<SliderRow>, body: SliderBody, countReply: CountReply,
                insertError: Option<string>): (r: (Response<bool>, seq<SliderRow>))
    ensures !Truthy(body.image) || !Truthy(body.title) ==>
              r == (Failure(BadRequest, MissingFieldsMessage), table)
    ensures Truthy(body.image) && Truthy(body.title) && countReply.CountFailed? ==>
              r == (Failure(ServerError, countReply.message), table)
    ensures Truthy(body.image) && Truthy(body.title) && countReply.Counted? && insertError.Some? ==>
              r == (Failure(ServerError, insertError.value), table)
    ensures r.0.Success? <==>
              Truthy(body.image) && Truthy(body.title) && countReply.Counted? && insertError.None?
    ensures r.0.Success? ==> countReply.Counted? && r.0.payload == NewVisible(countReply.count, body.visible)
    ensures r.0.Success? ==>
              && |r.1| == |table| + 1 && r.1[..|table|] == table
              && r.1[|table|].visible == r.0.payload
              && r.1[|table|].image == body.image && r.1[|table|].title == body.title
              && r.1[|table|].subtitle == body.subtitle && r.1[|table|].description == body.description
              && r.1[|table|].buttonText == body.buttonText && r.1[|table|].buttonLink == body.buttonLink
              && r.1[|table|].bgGradient == body.bgGradient
              && r.1[|table|].featured == (if body.featured.Undefined? || body.featured.Null?
                                             then Bool(false) else body.featured)
    ensures r.0.Failure? ==> r.1 == table
  {
    if !Truthy(body.image) || !Truthy(body.title) then
      (Failure(BadRequest, MissingFieldsMessage), table)
    else
      match countReply
      case CountFailed(message) => (Failure(ServerError, message), table)
      case Counted(count) =>
        var visible := NewVisible(count, body.visible);
        match insertError
        case Some(message) => (Failure(ServerError, message), table)
        case None => (Success(visible), table + [RowFor(body, visible)])
  }

  lemma VisibleCountAppend(table: seq<SliderRow>, row: SliderRow)
    ensures VisibleCount(table + [row]) == VisibleCount(table) + (if row.visible then 1 else 0)
  {
    assert (table + [row])[..|table|] == table;
  }

  /** One insert against an accurate count keeps the visible sliders at most
      five, and a successful insert leaves at least one visible. */
  lemma PostKeepsVisibleBounds(table: seq<SliderRow>, body: SliderBody, insertError: Option<string>)
    requires VisibleCount(table) <= MaxVisible
    ensures var r := Post(table, body, Counted(Some(VisibleCount(table))), insertError);
            && VisibleCount(r.1) <= MaxVisible
            && (r.0.Success? ==> VisibleCount(r.1) >= 1)
            && VisibleCount(r.1) >= VisibleCount(table)
  {
    var r := Post(table, body, Counted(Some(VisibleCount(table))), insertError);
    if r.0.Success? {
      VisibleCountAppend(table, r.1[|table|]);
      assert r.1 == table + [r.1[|table|]];
    }
  }

  /** One create request: its body and the insert's outcome. */
  datatype CreateRequest = CreateRequest(body: SliderBody, insertError: Option<string>)

  /** Requests handled one after the other, each seeing the exact visible count. */
  function Run(table: seq<SliderRow>, requests: seq<CreateRequest>): seq<SliderRow>
    decreases |requests|
  {
    if requests == [] then table
    else
      var next := Post(table, requests[0].body, Counted(Some(VisibleCount(table))), requests[0].insertError).1;
      Run(next, requests[1..])
  }

  /** Over any sequence of creates, with no update or toggle in between, the
      visible count stays within [0, 5] when it starts there, and is at least
      one once any slider has been created. */
  lemma {:induction false} RunKeepsVisibleBounds(table: seq<SliderRow>, requests: seq<CreateRequest>)
    requires VisibleCount(table) <= MaxVisible
    ensures VisibleCount(Run(table, requests)) <= MaxVisible
    ensures |Run(table, requests)| > |table| || VisibleCount(table) >= 1 ==>
              VisibleCount(Run(table, requests)) >= 1
    ensures |Run(table, requests)| >= |table|
    decreases |requests|
  {
    if requests != [] {
      var r := Post(table, requests[0].body, Counted(Some(VisibleCount(table))), requests[0].insertError);
      PostKeepsVisibleBounds(table, requests[0].body, requests[0].insertError);
      RunKeepsVisibleBounds(r.1, requests[1..]);
    }
  }
}

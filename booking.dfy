/** The booking buttons and the booking prefill. A button carries the name of
    a service; clicking it writes a booking request into the page's message
    field (when there is one) and, when the button links to the contact page,
    rewrites its link so that the contact page opens at its booking section
    with the service in the query string. On load, a page whose query string
    names a service writes the same request into an empty message field. */
module Booking {
  import opened Optional
  import opened Strings

  // ---------------------------------------------------------------------
  // the message template

  /** The fixed text in front of the service name. */
  const Lead := "I would like to book "

  /** The booking request for a service: the lead text, the service and a
      full stop. */
  function BookingMessage(service: string): string
  {
    Lead + service + "."
  }

  /** Reads a message back as a booking request: the service it names, or
      `None` when the message does not have the template's shape. */
  function NamedService(m: string): Option<string>
  {
    if |m| > |Lead| && m[..|Lead|] == Lead && m[|m| - 1] == '.'
    then Some(m[|Lead|..|m| - 1])
    else None
  }

  /** Every booking request names its own service ... */
  lemma NamedServiceOfMessage(service: string)
    ensures NamedService(BookingMessage(service)) == Some(service)
  {
    var m := BookingMessage(service);
    assert m[..|Lead|] == Lead;
    assert m[|Lead|..|m| - 1] == service;
  }

  /** ... and every message that names a service is that service's request,
      so the template is one-to-one. */
  lemma MessageOfNamedService(m: string)
    ensures NamedService(m).Some? ==> BookingMessage(NamedService(m).value) == m
  {
    if NamedService(m).Some? {
      var s := m[|Lead|..|m| - 1];
      assert m == m[..|Lead|] + s + [m[|m| - 1]];
    }
  }

  /** A booking request always starts with `I`, so it never trims to the
      empty string. */
  lemma MessageNeverBlank(service: string)
    ensures !AllSpace(BookingMessage(service))
  {
    assert BookingMessage(service)[0] == 'I';
  }

  // ---------------------------------------------------------------------
  // the parts of a URL the click handler changes

  /** One `name=value` pair of a query string. */
  datatype Param = Param(name: string, value: string)

  /** A URL as the handler sees it once the browser has parsed it: its query
      pairs in order, its fragment (`None` when there is no `#`), and
      everything else (scheme, host, path), which the handler never changes. */
  datatype Url = Url(rest: string, query: seq<Param>, fragment: Option<string>)

  /** `searchParams.get(name)`: the value of the first pair with that name, or
      `None` when there is none. */
  function GetParam(q: seq<Param>, name: string): (r: Option<string>)
    ensures r.None? <==> forall k :: 0 <= k < |q| ==> q[k].name != name
    ensures r.Some? ==> Param(name, r.value) in q
  {
    if q == [] then None
    else if q[0].name == name then Some(q[0].value)
    else GetParam(q[1..], name)
  }

  /** The pairs of `q` not named `name`, in order. */
  function Without(q: seq<Param>, name: string): (r: seq<Param>)
    ensures forall p :: p in r <==> p in q && p.name != name
  {
    if q == [] then []
    else if q[0].name == name then Without(q[1..], name)
    else [q[0]] + Without(q[1..], name)
  }

  /** `searchParams.set(name, value)`: the first pair with that name takes the
      value and every later pair with that name is removed; when there is no
      such pair, the new pair goes at the end. */
  function SetParam(q: seq<Param>, name: string, value: string): (r: seq<Param>)
    ensures Param(name, value) in r
    ensures forall i, j :: 0 <= i < |r| && 0 <= j < |r| && r[i].name == name && r[j].name == name ==> i == j
    ensures forall p: Param :: p.name != name ==> (p in r <==> p in q)
  {
    if q == [] then [Param(name, value)]
    else if q[0].name == name then [Param(name, value)] + Without(q[1..], name)
    else
      var rest := SetParam(q[1..], name, value);
      assert forall k :: 0 < k < |[q[0]] + rest| ==> ([q[0]] + rest)[k] == rest[k - 1];
      [q[0]] + rest
  }

  /** `get` returns the value of the first pair with the name. */
  lemma {:induction false} GetParamIsFirst(pre: seq<Param>, x: Param, post: seq<Param>)
    requires forall j :: 0 <= j < |pre| ==> pre[j].name != x.name
    ensures GetParam(pre + [x] + post, x.name) == Some(x.value)
  {
    var q := pre + [x] + post;
    if pre == [] {
      assert q[0] == x;
    } else {
      GetParamIsFirst(pre[1..], x, post);
      assert q[0] == pre[0] && q[1..] == pre[1..] + [x] + post;
    }
  }

  /** Where `set` puts the pair: in place of the first pair with that name,
      with every later pair of that name dropped ... */
  lemma {:induction false} SetParamReplacesFirst(pre: seq<Param>, x: Param, post: seq<Param>, value: string)
    requires forall j :: 0 <= j < |pre| ==> pre[j].name != x.name
    ensures SetParam(pre + [x] + post, x.name, value) == pre + [Param(x.name, value)] + Without(post, x.name)
  {
    if pre == [] {
      assert pre + [x] + post == [x] + post;
      SetParamAtHead(x, post, value);
    } else {
      var tail := pre[1..] + [x] + post;
      Regroup(pre, x, post, Param(x.name, value), Without(post, x.name));
      SetParamReplacesFirst(pre[1..], x, post, value);
      SetParamPastOther(pre[0], tail, x.name, value);
    }
  }

  /** Splitting off the head of `pre + [x] + post`. */
  lemma Regroup<T>(pre: seq<T>, x: T, post: seq<T>, y: T, w: seq<T>)
    requires pre != []
    ensures pre + [x] + post == [pre[0]] + (pre[1..] + [x] + post)
    ensures [pre[0]] + (pre[1..] + [y] + w) == pre + [y] + w
  {
    assert pre == [pre[0]] + pre[1..];
  }

  lemma SetParamAtHead(x: Param, post: seq<Param>, value: string)
    ensures SetParam([x] + post, x.name, value) == [Param(x.name, value)] + Without(post, x.name)
  {
    assert ([x] + post)[1..] == post;
  }

  lemma SetParamPastOther(y: Param, t: seq<Param>, name: string, value: string)
    requires y.name != name
    ensures SetParam([y] + t, name, value) == [y] + SetParam(t, name, value)
  {
    assert ([y] + t)[1..] == t;
  }

  /** ... or at the end when there is no such pair. */
  lemma {:induction false} SetParamAppends(q: seq<Param>, name: string, value: string)
    requires forall j :: 0 <= j < |q| ==> q[j].name != name
    ensures SetParam(q, name, value) == q + [Param(name, value)]
  {
    if q != [] {
      SetParamAppends(q[1..], name, value);
      assert q == [q[0]] + q[1..];
    }
  }

  /** `set` keeps every pair of another name, in its order. */
  lemma {:induction false} SetParamKeepsOthers(q: seq<Param>, name: string, value: string)
    ensures Without(SetParam(q, name, value), name) == Without(q, name)
  {
    if q == [] {
    } else if q[0].name == name {
      WithoutTwice(q[1..], name);
    } else {
      var rest := SetParam(q[1..], name, value);
      SetParamKeepsOthers(q[1..], name, value);
      assert ([q[0]] + rest)[1..] == rest;
    }
  }

  /** After `set`, `get` of that name returns the new value and `get` of any
      other name returns what it returned before. */
  lemma {:induction false} GetAfterSet(q: seq<Param>, name: string, value: string, other: string)
    ensures GetParam(SetParam(q, name, value), name) == Some(value)
    ensures other != name ==> GetParam(SetParam(q, name, value), other) == GetParam(q, other)
  {
    if q != [] && q[0].name != name {
      GetAfterSet(q[1..], name, value, other);
    } else if q != [] && other != name {
      WithoutKeepsOthers(q[1..], name, other);
    }
  }

  lemma {:induction false} WithoutKeepsOthers(q: seq<Param>, name: string, other: string)
    requires other != name
    ensures GetParam(Without(q, name), other) == GetParam(q, other)
  {
    if q != [] {
      WithoutKeepsOthers(q[1..], name, other);
    }
  }

  /** Setting a pair that is already set changes nothing. */
  lemma {:induction false} SetParamIdempotent(q: seq<Param>, name: string, value: string)
    ensures SetParam(SetParam(q, name, value), name, value) == SetParam(q, name, value)
  {
    if q == [] {
    } else if q[0].name == name {
      WithoutTwice(q[1..], name);
    } else {
      SetParamIdempotent(q[1..], name, value);
    }
  }

  lemma {:induction false} WithoutTwice(q: seq<Param>, name: string)
    ensures Without(Without(q, name), name) == Without(q, name)
  {
    if q != [] {
      WithoutTwice(q[1..], name);
    }
  }

  /** `url.searchParams.set('service', service)` when the service is not
      empty, then `url.hash = 'booking'`. */
  function Retarget(u: Url, service: string): Url
  {
    var q := if service != [] then SetParam(u.query, "service", service) else u.query;
    u.(query := q, fragment := Some("booking"))
  }

  /** The rewritten URL keeps everything but its query and fragment; it opens
      at `#booking`; its `service` parameter is the service when one is
      given and is left as it was otherwise; no other parameter changes. */
  lemma RetargetSpec(u: Url, service: string, other: string)
    ensures Retarget(u, service).rest == u.rest
    ensures Retarget(u, service).fragment == Some("booking")
    ensures GetParam(Retarget(u, service).query, "service") ==
      if service != [] then Some(service) else GetParam(u.query, "service")
    ensures other != "service" ==>
      GetParam(Retarget(u, service).query, other) == GetParam(u.query, other)
  {
    GetAfterSet(u.query, "service", service, other);
  }

  /** Retargeting a URL that was already retargeted for the same service
      changes nothing: a second click on a rewritten link asks for the URL it
      already has. */
  lemma RetargetIdempotent(u: Url, service: string)
    ensures Retarget(Retarget(u, service), service) == Retarget(u, service)
  {
    SetParamIdempotent(u.query, "service", service);
  }

  // ---------------------------------------------------------------------
  // which links go to the contact page

  const ContactPage := "contact.html"

  /** The test `/contact\.html/i`: the link mentions `contact.html` anywhere,
      in any ASCII letter case. */
  predicate LinksToContactPage(href: string)
  {
    ContainsIgnoringCase(href, ContactPage)
  }

  /** Any link with `contact.html` in it passes, whatever surrounds it. */
  lemma ContactLinkRecognised(pre: string, post: string)
    ensures LinksToContactPage(pre + ContactPage + post)
  {
    var h := pre + ContactPage + post;
    assert forall k :: 0 <= k < |ContactPage| ==> h[|pre| + k] == ContactPage[k];
    assert MatchesAt(h, |pre|, ContactPage);
  }

  /** Only the letter case of A-Z is ignored: two links that agree up to that
      case both pass or both fail. */
  lemma ContactLinkCaseBlind(href: string, other: string)
    requires |href| == |other|
    requires forall k :: 0 <= k < |href| ==> FoldAscii(href[k]) == FoldAscii(other[k])
    ensures LinksToContactPage(href) == LinksToContactPage(other)
  {
    assert forall i: nat :: MatchesAt(href, i, ContactPage) <==> MatchesAt(other, i, ContactPage);
  }

  // ---------------------------------------------------------------------
  // the click handler

  /** A booking button: its `data-book` attribute and its `href` attribute
      (`None` when absent). */
  class BookButton {
    const book: Option<string>
    var href: Option<string>

    constructor (book: Option<string>, href: Option<string>)
      ensures this.book == book && this.href == href
    {
      this.book := book;
      this.href := href;
    }
  }

  /** The page's `#message` field. */
  class MessageField {
    var value: string

    constructor (value: string)
      ensures this.value == value
    {
      this.value := value;
    }
  }

  /** The service a button books: its `data-book` attribute, trimmed, the
      empty string when the attribute is absent. */
  function ServiceOf(book: Option<string>): string
  {
    Trim(OrEmpty(book))
  }

  /** A click on a booking button. `message` is the page's message field, or
      `null` when the page has none. `resolve` is the browser's parsing of a
      link against the current location (`None` when the link is not a
      valid URL, in which case the handler stops there) and `serialize`
      writes a URL back as text. The handler
      - writes the booking request into the message field when the service is
        not empty, overwriting what was there, and otherwise leaves the field
        alone;
      - on a non-empty link that mentions the contact page, rewrites the link
        with `Retarget` and lets the browser follow it;
      - on any other link keeps the link and suppresses the browser's default
        action exactly when the link is `#`. */
  method OnBookClick(btn: BookButton, message: MessageField?,
                     resolve: string -> Option<Url>, serialize: Url -> string)
    returns (defaultPrevented: bool)
    modifies btn, message
    ensures message != null ==>
      message.value == if ServiceOf(btn.book) != [] then BookingMessage(ServiceOf(btn.book)) else old(message.value)
    ensures var h := OrEmpty(old(btn.href));
      if h != [] && LinksToContactPage(h) then
        !defaultPrevented &&
        btn.href == match resolve(h)
                    case Some(u) => Some(serialize(Retarget(u, ServiceOf(btn.book))))
                    case None => old(btn.href)
      else
        btn.href == old(btn.href) && (defaultPrevented <==> old(btn.href) == Some("#"))
  {
    var service := ServiceOf(btn.book);
    if service != [] && message != null {
      message.value := BookingMessage(service);
    }
    var h := OrEmpty(btn.href);
    defaultPrevented := false;
    if h != [] && LinksToContactPage(h) {
      var parsed := resolve(h);
      if parsed.Some? {
        btn.href := Some(serialize(Retarget(parsed.value, service)));
      }
    } else if btn.href == Some("#") {
      defaultPrevented := true;
    }
  }

  // ---------------------------------------------------------------------
  // the prefill on load

  /** The message field's value after the load-time prefill, given the
      page's `service` query parameter. Nothing changes without a non-empty
      parameter or when the field already holds something other than white
      space; otherwise the field gets the booking request for the parameter
      exactly as written (it is not trimmed, unlike the button's). */
  function PrefillValue(svc: Option<string>, current: string): (v: string)
    ensures OrEmpty(svc) == [] ==> v == current
    ensures !AllSpace(current) ==> v == current
    ensures OrEmpty(svc) != [] && AllSpace(current) ==> v == BookingMessage(OrEmpty(svc))
  {
    var s := OrEmpty(svc);
    if s == [] then current
    else if Trim(current) == [] then BookingMessage(s)
    else current
  }

  /** Running the prefill again changes nothing. */
  lemma PrefillIdempotent(svc: Option<string>, current: string)
    ensures PrefillValue(svc, PrefillValue(svc, current)) == PrefillValue(svc, current)
  {
    MessageNeverBlank(OrEmpty(svc));
  }

  /** A request written by a click is never replaced by the prefill. */
  lemma PrefillKeepsClickedMessage(service: string, svc: Option<string>)
    ensures PrefillValue(svc, BookingMessage(service)) == BookingMessage(service)
  {
    MessageNeverBlank(service);
  }

  /** Arriving at the contact page through a rewritten link writes the same
      request that a click on the same page would have written, for an empty
      message field, and keeps a field that has content. */
  lemma CrossPageAgrees(u: Url, book: Option<string>, current: string)
    requires ServiceOf(book) != []
    ensures PrefillValue(GetParam(Retarget(u, ServiceOf(book)).query, "service"), current) ==
      if AllSpace(current) then BookingMessage(ServiceOf(book)) else current
  {
    RetargetSpec(u, ServiceOf(book), "service");
  }

  /** The load-time prefill: reads the `service` parameter of the page's
      query string and rewrites the message field, when the page has one, to
      `PrefillValue`. */
  method PrefillFromQuery(query: seq<Param>, message: MessageField?)
    modifies message
    ensures message != null ==> message.value == PrefillValue(GetParam(query, "service"), old(message.value))
  {
    var svc := GetParam(query, "service");
    if OrEmpty(svc) == [] {
      return;
    }
    if message != null && Trim(message.value) == [] {
      message.value := BookingMessage(svc.value);
    }
  }
}

/** The permessage-deflate handshake (src/protocol/deflate/negotiate.rs; section 7.1 of RFC 7692). */
module Negotiate {
  import opened Bytes
  import opened ExtensionHeaders
  import opened DeflateSettings

  // ----- The client's offer -----

  /** The client's own window cap is not named: the bare parameter invites a selection. */
  function OfferParams(s: Settings): Params {
    Params(s.serverNoContextTakeover, s.clientNoContextTakeover,
           if s.serverMaxWindowBits < 15 then Some(s.serverMaxWindowBits) else None, NoValue)
  }

  lemma {:induction false} JoinSnoc(parts: seq<bytes>, x: bytes)
    requires parts != []
    ensures Join(parts + [x], SEMICOLON) == Join(parts, SEMICOLON) + [SEMICOLON] + x
  {
    assert (parts + [x])[1..] == parts[1..] + [x];
    if |parts| == 1 {
      assert parts[1..] + [x] == [x];
    } else {
      JoinSnoc(parts[1..], x);
      var tail := Join(parts[1..], SEMICOLON);
      assert parts[0] + [SEMICOLON] + (tail + [SEMICOLON] + x) == parts[0] + [SEMICOLON] + tail + [SEMICOLON] + x;
    }
  }

  /** Pushes `; part` if asked to. */
  method PushPart(value: bytes, on: bool, part: bytes, ghost parts: seq<bytes>) returns (r: bytes)
    requires parts != [] && value == Join(parts, SEMICOLON)
    ensures r == Join(parts + If(on, part), SEMICOLON)
  {
    if on {
      JoinSnoc(parts, part);
      r := value + [SEMICOLON] + part;
    } else {
      assert parts + If(on, part) == parts;
      r := value;
    }
  }

  method Offer(s: Settings) returns (r: bytes)
    requires s.BuilderValid()
    ensures r == Print(OfferParams(s))
  {
    var value := NAME;
    ghost var parts := [NAME];
    value := PushPart(value, s.serverNoContextTakeover, Param(ServerNoContext), parts);
    parts := parts + If(s.serverNoContextTakeover, Param(ServerNoContext));
    value := PushPart(value, s.clientNoContextTakeover, Param(ClientNoContext), parts);
    parts := parts + If(s.clientNoContextTakeover, Param(ClientNoContext));
    var bits := ParamBits(ServerBits, s.serverMaxWindowBits);
    value := PushPart(value, s.serverMaxWindowBits < 15, bits, parts);
    parts := parts + If(s.serverMaxWindowBits < 15, bits);
    r := PushPart(value, true, Param(ClientBits), parts);
  }

  // ----- The server's answer -----

  /** What a server makes of one offer; an offered 8 would be a window its encoder does not have. */
  function Agree(s: Settings, offer: Params): Option<Settings> {
    if offer.serverMaxWindowBits == Some(8) then None
    else Some(Settings(
      s.serverNoContextTakeover || offer.serverNoContextTakeover,
      s.clientNoContextTakeover || offer.clientNoContextTakeover,
      (match offer.serverMaxWindowBits
       case Some(bits) => Min(bits, s.serverMaxWindowBits)
       case None => s.serverMaxWindowBits),
      (match offer.clientMaxWindowBits
       case Absent => 15
       case NoValue => s.clientMaxWindowBits
       case Bits(bits) => Min(bits, s.clientMaxWindowBits))))
  }

  function ResponseParams(s: Settings, offer: Params): Params
    requires Agree(s, offer).Some?
  {
    var agreed := Agree(s, offer).value;
    Params(agreed.serverNoContextTakeover, agreed.clientNoContextTakeover,
           if offer.serverMaxWindowBits.Some? || s.serverMaxWindowBits < 15 then Some(agreed.serverMaxWindowBits)
           else None,
           if agreed.clientMaxWindowBits < 15 then Bits(agreed.clientMaxWindowBits) else Absent)
  }

  type Answer = (Settings, bytes)

  function AnswerTo(s: Settings, offer: Params): Option<Answer>
    requires s.BuilderValid() && Printable(offer)
  {
    match Agree(s, offer)
    case None => None
    case Some(agreed) => Some((agreed, Print(ResponseParams(s, offer))))
  }

  /** The response string, pushed part by part. */
  method PrintResponse(serverReset: bool, clientReset: bool, serverWindow: Option<nat>, clientWindow: ClientWindow)
    returns (r: bytes)
    requires Printable(Params(serverReset, clientReset, serverWindow, clientWindow)) && !clientWindow.NoValue?
    ensures r == Print(Params(serverReset, clientReset, serverWindow, clientWindow))
  {
    r := NAME;
    ghost var parts := [NAME];
    r := PushPart(r, serverReset, Param(ServerNoContext), parts);
    parts := parts + If(serverReset, Param(ServerNoContext));
    r := PushPart(r, clientReset, Param(ClientNoContext), parts);
    parts := parts + If(clientReset, Param(ClientNoContext));
    if serverWindow.Some? {
      r := PushPart(r, true, ParamBits(ServerBits, serverWindow.value), parts);
    } else {
      assert parts + ServerBitsPart(serverWindow) == parts;
    }
    parts := parts + ServerBitsPart(serverWindow);
    if clientWindow.Bits? {
      r := PushPart(r, true, ParamBits(ClientBits, clientWindow.bits), parts);
    } else {
      assert parts + ClientBitsPart(clientWindow) == parts;
    }
  }

  method AcceptOffer(s: Settings, offer: Params) returns (r: Option<Answer>)
    requires s.BuilderValid() && Printable(offer)
    ensures r == AnswerTo(s, offer)
  {
    var agreed := s;
    agreed := agreed.(serverNoContextTakeover := agreed.serverNoContextTakeover || offer.serverNoContextTakeover);
    agreed := agreed.(clientNoContextTakeover := agreed.clientNoContextTakeover || offer.clientNoContextTakeover);
    var serverWindow: Option<nat> := None;
    match offer.serverMaxWindowBits {
      case Some(bits) =>
        if bits == 8 { return None; }
        serverWindow := Some(Min(bits, s.serverMaxWindowBits));
      case None =>
        if s.serverMaxWindowBits < 15 { serverWindow := Some(s.serverMaxWindowBits); }
    }
    if serverWindow.Some? { agreed := agreed.(serverMaxWindowBits := serverWindow.value); }
    var clientWindow :=
      match offer.clientMaxWindowBits
      case Absent => 15
      case NoValue => s.clientMaxWindowBits
      case Bits(bits) => Min(bits, s.clientMaxWindowBits);
    agreed := agreed.(clientMaxWindowBits := clientWindow);
    var response := PrintResponse(
      agreed.serverNoContextTakeover, agreed.clientNoContextTakeover, serverWindow,
      if clientWindow < 15 then Bits(clientWindow) else Absent);
    assert ResponseParams(s, offer) == Params(agreed.serverNoContextTakeover, agreed.clientNoContextTakeover,
      serverWindow, if clientWindow < 15 then Bits(clientWindow) else Absent);
    return Some((agreed, response));
  }

  /** Whatever was parsed can be printed again. */
  lemma {:induction false} ParsedIsPrintable(p: Params, seen: set<Name>, parameters: seq<bytes>)
    requires Printable(p) && ParseParams(p, seen, parameters).Some?
    ensures Printable(ParseParams(p, seen, parameters).value)
    decreases |parameters|
  {
    if parameters != [] {
      var name := NameOf(ParamName(parameters[0])).value;
      ParsedIsPrintable(AddParam(p, name, ParamValue(parameters[0])).value, seen + {name}, parameters[1..]);
    }
  }

  lemma DeflateIsPrintable(extension: bytes)
    requires ParseExtension(extension).Deflate?
    ensures Printable(ParseExtension(extension).params)
  {
    var parts := Split(extension, SEMICOLON, Plain, []).value;
    ParsedIsPrintable(NO_PARAMS, {}, parts[1..]);
  }

  /** The answer to one list element, if it is an acceptable offer. */
  function AnswerToExtension(s: Settings, extension: bytes): seq<Answer>
    requires s.BuilderValid()
  {
    match ParseExtension(extension)
    case Deflate(offer) =>
      DeflateIsPrintable(extension);
      (match AnswerTo(s, offer) case None => [] case Some(a) => [a])
    case _ => []
  }

  function AnswersToList(s: Settings, extensions: seq<bytes>): seq<Answer>
    requires s.BuilderValid()
  {
    if extensions == [] then [] else AnswerToExtension(s, extensions[0]) + AnswersToList(s, extensions[1..])
  }

  /** The list elements of a value; a value that does not split has none. */
  function Elements(value: bytes): seq<bytes> {
    match Split(value, COMMA, Plain, []) case None => [] case Some(extensions) => extensions
  }

  /** Every acceptable offer's answer, in wire order. */
  function Answers(s: Settings, offers: seq<bytes>): seq<Answer>
    requires s.BuilderValid()
  {
    if offers == [] then [] else AnswersToList(s, Elements(offers[0])) + Answers(s, offers[1..])
  }

  /** The answer holds the client to the server's preference, or there is none to hold it to. */
  predicate Binds(s: Settings, a: Answer) {
    s.clientMaxWindowBits == 15 || a.0.clientMaxWindowBits < 15
  }

  /** The first binding answer; without one, the first answer. */
  ghost predicate IsChoice(s: Settings, answers: seq<Answer>, r: Option<Answer>) {
    match r
    case None => answers == []
    case Some(a) =>
      exists i :: 0 <= i < |answers| && answers[i] == a
        && (forall j :: 0 <= j < i ==> !Binds(s, answers[j]))
        && (Binds(s, a) || (i == 0 && forall j :: 0 <= j < |answers| ==> !Binds(s, answers[j])))
  }

  lemma ChoiceIsUnique(s: Settings, answers: seq<Answer>, r: Option<Answer>, r': Option<Answer>)
    requires IsChoice(s, answers, r) && IsChoice(s, answers, r')
    ensures r == r'
  {
  }

  /** Considers one value; `before` are the answers of the values before it, none of them binding. */
  method AcceptFromValue(s: Settings, value: bytes, fallback0: Option<Answer>, ghost before: seq<Answer>)
    returns (binding: Option<Answer>, fallback: Option<Answer>)
    requires s.BuilderValid()
    requires forall a :: a in before ==> !Binds(s, a)
    requires fallback0 == if before == [] then None else Some(before[0])
    ensures var all := before + AnswersToList(s, Elements(value));
            && (binding.Some? ==>
                  Binds(s, binding.value) && exists i :: 0 <= i < |all| && all[i] == binding.value
                                                && forall j :: 0 <= j < i ==> !Binds(s, all[j]))
            && (binding.None? ==>
                  && (forall a :: a in all ==> !Binds(s, a))
                  && fallback == if all == [] then None else Some(all[0]))
  {
    hide AnswerTo, ParseExtension, Split;
    fallback := fallback0;
    var split := SplitHeader(value, COMMA);
    var extensions := match split case None => [] case Some(parts) => parts;
    ghost var seen, all := before, before + AnswersToList(s, Elements(value));
    while extensions != []
      invariant all == seen + AnswersToList(s, extensions)
      invariant forall a :: a in seen ==> !Binds(s, a)
      invariant fallback == if seen == [] then None else Some(seen[0])
      decreases |extensions|
    {
      var extension := extensions[0];
      var parsed := Parse(extension);
      ghost var rest := AnswersToList(s, extensions[1..]);
      Assoc(seen, AnswerToExtension(s, extension), rest);
      extensions := extensions[1..];
      if parsed.Deflate? {
        DeflateIsPrintable(extension);
        var accepted := AcceptOffer(s, parsed.params);
        if accepted.Some? {
          assert all[|seen|] == accepted.value;
          if s.clientMaxWindowBits == 15 || accepted.value.0.clientMaxWindowBits < 15 {
            assert forall j :: 0 <= j < |seen| ==> all[j] == seen[j];
            return accepted, fallback;
          }
          if fallback.None? { fallback := accepted; }
          seen := seen + [accepted.value];
        } else {
          assert seen + [] == seen;
        }
      } else {
        assert seen + [] == seen;
      }
    }
    assert all == seen;
    return None, fallback;
  }

  method AcceptOffers(s: Settings, offers: seq<bytes>) returns (r: Option<Answer>)
    requires s.BuilderValid()
    ensures IsChoice(s, Answers(s, offers), r)
  {
    hide Elements, AnswersToList;
    var fallback: Option<Answer>, values := None, offers;
    ghost var seen: seq<Answer>, all := [], Answers(s, offers);
    while values != []
      invariant all == seen + Answers(s, values)
      invariant forall a :: a in seen ==> !Binds(s, a)
      invariant fallback == if seen == [] then None else Some(seen[0])
      decreases |values|
    {
      ghost var here := AnswersToList(s, Elements(values[0]));
      Assoc(seen, here, Answers(s, values[1..]));
      var binding;
      binding, fallback := AcceptFromValue(s, values[0], fallback, seen);
      seen := seen + here;
      if binding.Some? {
        assert seen <= all;
        return binding;
      }
      values := values[1..];
    }
    assert all == seen;
    return fallback;
  }

  // ----- The client reading the response -----

  /** One deflate element at most, and nothing the client did not offer; none of it is an error. */
  function SelectFromList(extensions: seq<bytes>, selected: Option<Params>): Option<Option<Params>> {
    if extensions == [] then Some(selected)
    else match ParseExtension(extensions[0])
      case Empty => SelectFromList(extensions[1..], selected)
      case Deflate(p) => if selected.None? then SelectFromList(extensions[1..], Some(p)) else None
      case Other => None
      case BadExtension => None
  }

  function Select(headers: seq<bytes>, selected: Option<Params>): Option<Option<Params>>
    decreases |headers|
  {
    if headers == [] then Some(selected)
    else match Split(headers[0], COMMA, Plain, [])
      case None => None
      case Some(extensions) =>
        match SelectFromList(extensions, selected)
        case None => None
        case Some(s) => Select(headers[1..], s)
  }

  /** What a client makes of the selected parameters; none is a failed handshake. */
  function AgreeResponse(s: Settings, p: Params): Option<Settings> {
    if s.serverNoContextTakeover && !p.serverNoContextTakeover then None
    else if p.serverMaxWindowBits.Some? && p.serverMaxWindowBits.value > s.serverMaxWindowBits then None
    else if p.serverMaxWindowBits.None? && s.serverMaxWindowBits < 15 then None
    else if p.clientMaxWindowBits == Bits(8) || p.clientMaxWindowBits.NoValue? then None
    else Some(Settings(
      p.serverNoContextTakeover,
      s.clientNoContextTakeover || p.clientNoContextTakeover,
      (match p.serverMaxWindowBits case Some(bits) => bits case None => s.serverMaxWindowBits),
      (match p.clientMaxWindowBits
       case Bits(bits) => Min(bits, s.clientMaxWindowBits)
       case _ => s.clientMaxWindowBits)))
  }

  /** None is refusal, `Some(None)` a response without the extension. */
  function Accepted(s: Settings, headers: seq<bytes>): Option<Option<Settings>> {
    match Select(headers, None)
    case None => None
    case Some(None) => Some(None)
    case Some(Some(p)) => match AgreeResponse(s, p) { case None => None case Some(agreed) => Some(Some(agreed)) }
  }

  method AcceptResponse(s: Settings, headers: seq<bytes>) returns (r: Option<Option<Settings>>)
    ensures r == Accepted(s, headers)
  {
    var selected: Option<Params>, values := None, headers;
    while values != []
      invariant Select(headers, None) == Select(values, selected)
      decreases |values|
    {
      var split := SplitHeader(values[0], COMMA);
      if split.None? { return None; }
      var extensions := split.value;
      ghost var chosen := SelectFromList(extensions, selected);
      while extensions != []
        invariant chosen == SelectFromList(extensions, selected)
        decreases |extensions|
      {
        var parsed := Parse(extensions[0]);
        match parsed {
          case Empty =>
          case Deflate(p) =>
            if selected.Some? { return None; }
            selected := Some(p);
          case Other => return None;
          case BadExtension => return None;
        }
        extensions := extensions[1..];
      }
      values := values[1..];
    }
    if selected.None? { return Some(None); }
    var p := selected.value;
    if s.serverNoContextTakeover && !p.serverNoContextTakeover { return None; }
    var agreed := s;
    agreed := agreed.(serverNoContextTakeover := p.serverNoContextTakeover);
    agreed := agreed.(clientNoContextTakeover := agreed.clientNoContextTakeover || p.clientNoContextTakeover);
    match p.serverMaxWindowBits {
      case Some(bits) =>
        if bits > s.serverMaxWindowBits { return None; }
        agreed := agreed.(serverMaxWindowBits := bits);
      case None =>
        if s.serverMaxWindowBits < 15 { return None; }
    }
    match p.clientMaxWindowBits {
      case Bits(bits) =>
        if bits == 8 { return None; }
        agreed := agreed.(clientMaxWindowBits := Min(bits, s.clientMaxWindowBits));
      case NoValue => return None;
      case Absent =>
    }
    return Some(Some(agreed));
  }

  // ----- Two endpoints of this library agree -----

  /**
   * For all settings the builder allows, the server accepts the client's own offer and the
   * client accepts the server's own answer; both no-context-takeover flags and the server's
   * window come out equal, and the client's window is at most what the server decodes with.
   */
  lemma EndpointsAgree(client: Settings, server: Settings)
    requires client.BuilderValid() && server.BuilderValid()
    ensures var answers := Answers(server, [Print(OfferParams(client))]);
            && |answers| == 1
            && IsChoice(server, answers, Some(answers[0]))
            && var (s, response) := answers[0];
               && Accepted(client, [response]).Some? && Accepted(client, [response]).value.Some?
               && var c := Accepted(client, [response]).value.value;
                  && c.serverNoContextTakeover == s.serverNoContextTakeover
                  && c.clientNoContextTakeover == s.clientNoContextTakeover
                  && c.serverMaxWindowBits == s.serverMaxWindowBits
                  && c.clientMaxWindowBits <= s.clientMaxWindowBits
                  && c.BuilderValid() && s.BuilderValid()
  {
    var o := OfferParams(client);
    OneOfferIsAnswered(server, o);
    OneResponseIsRead(client, ResponseParams(server, o));
    assert IsChoice(server, Answers(server, [Print(o)]), Some(AnswerTo(server, o).value)) by {
      assert Answers(server, [Print(o)])[0] == AnswerTo(server, o).value;
    }
  }

  lemma OneOfferIsAnswered(s: Settings, o: Params)
    requires s.BuilderValid() && Printable(o) && Agree(s, o).Some?
    ensures Answers(s, [Print(o)]) == [AnswerTo(s, o).value]
  {
    var offers: seq<bytes> := [Print(o)];
    var a := AnswerTo(s, o).value;
    ParseUndoesPrint(o);
    assert Elements(offers[0]) == offers;
    assert offers[1..] == [];
    assert AnswerToExtension(s, offers[0]) == [a];
    assert [a] + [] == [a];
    assert AnswersToList(s, offers) == [a];
  }

  lemma OneResponseIsRead(s: Settings, p: Params)
    requires Printable(p)
    ensures Accepted(s, [Print(p)]) ==
      match AgreeResponse(s, p) { case None => None case Some(agreed) => Some(Some(agreed)) }
  {
    var headers: seq<bytes> := [Print(p)];
    ParseUndoesPrint(p);
    assert headers[1..] == [];
    assert SelectFromList(headers, None) == Some(Some(p));
    assert Select(headers, None) == Some(Some(p));
  }

  // ----- Windows are safe against any peer -----

  /** The widest window the peer may send with under a response: the full one unless it names less. */
  function NamedOrFull(bits: Option<nat>): nat {
    match bits case Some(b) => b case None => 15
  }

  /**
   * A client that accepts any response compresses with 9 to 15 bits and no more than the server
   * named, and decodes with at least what the response lets the server use.
   */
  lemma ClientWindowsAreSafe(s: Settings, headers: seq<bytes>)
    requires s.BuilderValid() && Accepted(s, headers).Some? && Accepted(s, headers).value.Some?
    ensures var agreed := Accepted(s, headers).value.value;
            && Select(headers, None).Some? && Select(headers, None).value.Some?
            && var p := Select(headers, None).value.value;
               && 9 <= agreed.clientMaxWindowBits <= 15
               && (p.clientMaxWindowBits.Bits? ==> agreed.clientMaxWindowBits <= p.clientMaxWindowBits.bits)
               && NamedOrFull(p.serverMaxWindowBits) == agreed.serverMaxWindowBits <= 15
               && (agreed.serverNoContextTakeover ==> p.serverNoContextTakeover)
  {
    SelectedIsPrintable(headers, None);
  }

  lemma {:induction false} SelectedFromListIsPrintable(extensions: seq<bytes>, selected: Option<Params>)
    requires selected.Some? ==> Printable(selected.value)
    requires SelectFromList(extensions, selected).Some?
    ensures var r := SelectFromList(extensions, selected).value; r.Some? ==> Printable(r.value)
  {
    if extensions != [] {
      var parsed := ParseExtension(extensions[0]);
      if parsed.Deflate? { DeflateIsPrintable(extensions[0]); }
      SelectedFromListIsPrintable(extensions[1..], if parsed.Deflate? then Some(parsed.params) else selected);
    }
  }

  lemma {:induction false} SelectedIsPrintable(headers: seq<bytes>, selected: Option<Params>)
    requires selected.Some? ==> Printable(selected.value)
    requires Select(headers, selected).Some?
    ensures var r := Select(headers, selected).value; r.Some? ==> Printable(r.value)
    decreases |headers|
  {
    if headers != [] {
      var extensions := Split(headers[0], COMMA, Plain, []).value;
      SelectedFromListIsPrintable(extensions, selected);
      SelectedIsPrintable(headers[1..], SelectFromList(extensions, selected).value);
    }
  }

  /** `a` answers an offer that stands in one of the received values. */
  ghost predicate AnswersAnOffer(s: Settings, offers: seq<bytes>, a: Answer)
    requires s.BuilderValid()
  {
    exists value: bytes, extension: bytes ::
      value in offers && extension in Elements(value) && AnswerToExtension(s, extension) == [a]
  }

  lemma {:induction false} ListAnswersAreAnswers(s: Settings, extensions: seq<bytes>, a: Answer)
    requires s.BuilderValid() && a in AnswersToList(s, extensions)
    ensures exists extension :: extension in extensions && AnswerToExtension(s, extension) == [a]
  {
    if a in AnswerToExtension(s, extensions[0]) {
      assert extensions[0] in extensions;
    } else {
      ListAnswersAreAnswers(s, extensions[1..], a);
    }
  }

  lemma {:induction false} AnswersAreAnswers(s: Settings, offers: seq<bytes>, a: Answer)
    requires s.BuilderValid() && a in Answers(s, offers)
    ensures AnswersAnOffer(s, offers, a)
  {
    if a in AnswersToList(s, Elements(offers[0])) {
      ListAnswersAreAnswers(s, Elements(offers[0]), a);
      assert offers[0] in offers;
    } else {
      AnswersAreAnswers(s, offers[1..], a);
    }
  }

  /** An offer, what the server works with, and the response as the client reads it. */
  predicate IsSafe(offer: Params, agreed: Settings, response: Params) {
    && 9 <= agreed.serverMaxWindowBits <= 15
    && (offer.serverMaxWindowBits.Some? ==> agreed.serverMaxWindowBits <= offer.serverMaxWindowBits.value)
    && agreed.clientMaxWindowBits
       == (if response.clientMaxWindowBits.Bits? then response.clientMaxWindowBits.bits else 15)
    && !response.clientMaxWindowBits.NoValue?
    && (response.clientMaxWindowBits.Bits? ==> !offer.clientMaxWindowBits.Absent?)
    && NamedOrFull(response.serverMaxWindowBits) == agreed.serverMaxWindowBits
    && response.serverNoContextTakeover == agreed.serverNoContextTakeover
    && response.clientNoContextTakeover == agreed.clientNoContextTakeover
    && (offer.serverNoContextTakeover ==> response.serverNoContextTakeover)
  }

  /**
   * Whatever bytes a client offers, a server that accepts compresses with 9 to 15 bits and no
   * more than the client named, and tells the client in the response exactly the windows and
   * resets it then works with: the full decoder window unless the response names less, which it
   * does only if the offer invited it.
   */
  lemma ServerWindowsAreSafe(s: Settings, offers: seq<bytes>, a: Answer)
    requires s.BuilderValid() && a in Answers(s, offers)
    ensures exists value: bytes, extension: bytes ::
              && value in offers && extension in Elements(value) && ParseExtension(extension).Deflate?
              && ParseExtension(a.1).Deflate?
              && IsSafe(ParseExtension(extension).params, a.0, ParseExtension(a.1).params)
  {
    AnswersAreAnswers(s, offers, a);
    var value: bytes, extension: bytes :|
      value in offers && extension in Elements(value) && AnswerToExtension(s, extension) == [a];
    DeflateIsPrintable(extension);
    var offer := ParseExtension(extension).params;
    AgreementIsSafe(s, offer);
    ParseUndoesPrint(ResponseParams(s, offer));
    assert a == AnswerTo(s, offer).value;
  }

  lemma AgreementIsSafe(s: Settings, offer: Params)
    requires s.BuilderValid() && Printable(offer) && Agree(s, offer).Some?
    ensures IsSafe(offer, Agree(s, offer).value, ResponseParams(s, offer))
  {
  }
}

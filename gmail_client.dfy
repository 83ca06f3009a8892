/** The pure half of `src/gmail_client.py`: header lookup, the walk over
    the MIME part tree that collects the plain-text body, and the record
    `fetch_message` builds from a fetched payload. */
module GmailClient {
  import opened Wrappers
  import opened PyStr
  import opened Base64Url

  /** One entry of a payload's `headers` list; either key may be missing. */
  datatype Header = Header(name: Option<string>, value: Option<string>)

  /** A node of the message body tree. `data` is `body.data`. `None` stands
      for a missing key (a missing `body` or a missing `data`); JSON `null`
      values, which make the source raise, are not modelled. */
  datatype Payload = Payload(
    mimeType: Option<string>,
    headers: seq<Header>,
    data: Option<string>,
    parts: PartsField)

  /** The `parts` key of a node: a node without the key is not the same as a
      node whose list of parts is empty. */
  datatype PartsField = NoParts | Parts(list: seq<Payload>)

  /** `msg.get("payload", {})` when the message has no payload. */
  const EmptyPayload := Payload(None, [], None, NoParts)

  /** The record `fetch_message` returns. */
  datatype EmailRecord = EmailRecord(
    id: string,
    subject: string,
    from: string,
    to: string,
    date: string,
    text: string)

  // ---------------------------------------------------------------------
  // Header lookup

  /** `h.get("name", "").lower() == name.lower()`. */
  predicate NameMatches(h: Header, name: string) {
    Lower(h.name.GetOr("")) == Lower(name)
  }

  /** The value `_get_header` returns: that of the first header whose name
      matches, which may itself be missing; `None` when nothing matches. */
  function HeaderValue(headers: seq<Header>, name: string): (r: Option<string>)
    ensures r.Some? ==> exists j :: 0 <= j < |headers| && NameMatches(headers[j], name) && headers[j].value == r
    decreases |headers|
  {
    if headers == [] then None
    else if NameMatches(headers[0], name) then headers[0].value
    else HeaderValue(headers[1..], name)
  }

  /** `_get_header(headers, name)`: a linear search with an early return. */
  method GetHeader(headers: seq<Header>, name: string) returns (value: Option<string>)
    ensures value == HeaderValue(headers, name)
  {
    var nameLower := Lower(name);
    var i := 0;
    while i < |headers|
      invariant 0 <= i <= |headers|
      invariant HeaderValue(headers[i..], name) == HeaderValue(headers, name)
    {
      if Lower(headers[i].name.GetOr("")) == nameLower {
        return headers[i].value;
      }
      assert headers[i..][1..] == headers[i + 1..];
      i := i + 1;
    }
    return None;
  }

  /** The first header whose name matches decides the result, whatever
      follows it. */
  lemma {:induction false} HeaderValueFirstMatch(headers: seq<Header>, name: string, i: nat)
    requires i < |headers| && NameMatches(headers[i], name)
    requires forall j :: 0 <= j < i ==> !NameMatches(headers[j], name)
    ensures HeaderValue(headers, name) == headers[i].value
    decreases i
  {
    if i > 0 {
      HeaderValueFirstMatch(headers[1..], name, i - 1);
    }
  }

  /** With no matching name the lookup gives `None`. */
  lemma {:induction false} HeaderValueNoMatch(headers: seq<Header>, name: string)
    requires forall j :: 0 <= j < |headers| ==> !NameMatches(headers[j], name)
    ensures HeaderValue(headers, name) == None
    decreases |headers|
  {
    if headers != [] {
      HeaderValueNoMatch(headers[1..], name);
    }
  }

  /** Names are compared without regard to case: asking for `name` or for
      any spelling with the same lower-case form gives the same result. */
  lemma {:induction false} HeaderValueIgnoresCase(headers: seq<Header>, name: string, other: string)
    requires Lower(name) == Lower(other)
    ensures HeaderValue(headers, name) == HeaderValue(headers, other)
    decreases |headers|
  {
    if headers != [] {
      HeaderValueIgnoresCase(headers[1..], name, other);
    }
  }

  /** `_get_header(headers, name) or ""`: empty when the header is missing,
      has no value or has the empty value, and its value otherwise. */
  function HeaderOrEmpty(headers: seq<Header>, name: string): (r: string)
    ensures r == "" <==> HeaderValue(headers, name) == None || HeaderValue(headers, name) == Some("")
    ensures r != "" ==> HeaderValue(headers, name) == Some(r)
  {
    HeaderValue(headers, name).GetOr("")
  }

  // ---------------------------------------------------------------------
  // Text extraction

  /** Every body the walk decodes is data characters followed by any `=`
      padding (`IsBodyText`): the data of a node without `parts`, and,
      below a node with `parts`, the data of each `text/plain` child and,
      recursively, each multipart child. Bodies the walk never decodes, such
      as an HTML child or the own data of a node with `parts`, may hold
      anything. Python's decoder would drop other characters, and stop at an
      `=` inside the text; neither is modelled. */
  predicate WellEncoded(p: Payload)
    decreases p, 1
  {
    if p.parts.Parts? then
      forall i :: 0 <= i < |p.parts.list| ==> ChildEncoded(p.parts.list[i])
    else
      HasData(p) ==> IsBodyText(p.data.value)
  }

  /** What `WellEncoded` asks of one child of a node with `parts`. */
  predicate ChildEncoded(c: Payload)
    decreases c, 2
  {
    && (IsPlainTextPart(c) ==> IsBodyText(c.data.value))
    && (IsMultipartPart(c) ==> WellEncoded(c))
  }

  lemma ChildWellEncoded(p: Payload, i: nat)
    requires WellEncoded(p) && p.parts.Parts? && i < |p.parts.list|
    ensures IsPlainTextPart(p.parts.list[i]) ==> IsBodyText(p.parts.list[i].data.value)
    ensures IsMultipartPart(p.parts.list[i]) ==> WellEncoded(p.parts.list[i])
  {
    assert ChildEncoded(p.parts.list[i]);
  }

  /** `part.get("mimeType", "")`. */
  function MimeOf(p: Payload): string {
    p.mimeType.GetOr("")
  }

  /** `body.get("data")` is truthy. */
  predicate HasData(p: Payload) {
    p.data.Some? && p.data.value != ""
  }

  /** A child whose own body is taken: exactly `text/plain`, with data. */
  predicate IsPlainTextPart(p: Payload) {
    MimeOf(p) == "text/plain" && HasData(p)
  }

  /** A child that is walked into. */
  predicate IsMultipartPart(p: Payload) {
    StartsWith(MimeOf(p), "multipart/")
  }

  lemma MultipartIsNotPlainText(p: Payload)
    requires IsMultipartPart(p)
    ensures !IsPlainTextPart(p)
  {
    assert MimeOf(p)[0] == MimeOf(p)[..10][0] == 'm';
    assert "text/plain"[0] == 't';
  }

  /** A child that contributes nothing: HTML, attachments, `text/plain`
      without data. */
  predicate IsIgnoredPart(p: Payload) {
    !IsPlainTextPart(p) && !IsMultipartPart(p)
  }

  /** `t.strip()` is falsy: `t` is whitespace only (see `Strip`). */
  predicate IsBlank(t: string) {
    AllSpace(t)
  }

  /** `[t for t in texts if t.strip()]`. */
  function NonBlank(texts: seq<string>): (r: seq<string>)
    ensures forall k :: 0 <= k < |r| ==> !IsBlank(r[k])
    ensures |r| <= |texts|
    decreases |texts|
  {
    if texts == [] then []
    else if IsBlank(texts[0]) then NonBlank(texts[1..])
    else [texts[0]] + NonBlank(texts[1..])
  }

  lemma {:induction false} NonBlankAppend(xs: seq<string>, ys: seq<string>)
    ensures NonBlank(xs + ys) == NonBlank(xs) + NonBlank(ys)
    decreases |xs|
  {
    var zs := xs + ys;
    if xs == [] {
      assert zs == ys;
    } else {
      assert zs[0] == xs[0] && zs[1..] == xs[1..] + ys;
      NonBlankAppend(xs[1..], ys);
      if !IsBlank(xs[0]) {
        assert ([xs[0]] + NonBlank(xs[1..])) + NonBlank(ys) == [xs[0]] + (NonBlank(xs[1..]) + NonBlank(ys));
      }
    }
  }

  /** `"\n".join(texts)` of non-blank texts is empty or non-blank. */
  lemma JoinedNonBlank(texts: seq<string>)
    requires forall k :: 0 <= k < |texts| ==> !IsBlank(texts[k])
    ensures Join("\n", texts) == "" <==> texts == []
    ensures texts != [] ==> !IsBlank(Join("\n", texts))
  {
    if texts != [] {
      var j := Join("\n", texts);
      JoinStartsWith("\n", texts);
      var k :| 0 <= k < |texts[0]| && !IsSpace(texts[0][k]);
      assert j[k] == j[..|texts[0]|][k];
    }
  }

  /** `_extract_text_from_payload(payload)` (source lines 53-73), with UTF-8
      decoding given as `utf8`; a body whose base64 cannot be decoded makes
      the whole walk fail, as the exception does in the source. */
  function ExtractText(p: Payload, utf8: seq<byte> -> string): (r: Result<string, DecodeError>)
    requires WellEncoded(p)
    ensures p.parts.Parts? && r.Ok? ==> r.value == "" || !IsBlank(r.value)
    decreases p, 1
  {
    if p.parts.Parts? then
      var texts :- PartTexts(p, 0, utf8);
      JoinedNonBlank(NonBlank(texts));
      Ok(Join("\n", NonBlank(texts)))
    else if HasData(p) then DecodeBase64Url(p.data.value, utf8)
    else Ok("")
  }

  /** The list `texts` the loop over `payload["parts"][i:]` builds. */
  function PartTexts(p: Payload, i: nat, utf8: seq<byte> -> string): (r: Result<seq<string>, DecodeError>)
    requires WellEncoded(p) && p.parts.Parts? && i <= |p.parts.list|
    ensures r.Ok? ==> |r.value| <= |p.parts.list| - i
    decreases p, 0, |p.parts.list| - i
  {
    if i == |p.parts.list| then Ok([])
    else
      var part := p.parts.list[i];
      ChildWellEncoded(p, i);
      if IsPlainTextPart(part) then
        var t :- DecodeBase64Url(part.data.value, utf8);
        var rest :- PartTexts(p, i + 1, utf8);
        Ok([t] + rest)
      else if IsMultipartPart(part) then
        var t :- ExtractText(part, utf8);
        var rest :- PartTexts(p, i + 1, utf8);
        Ok([t] + rest)
      else PartTexts(p, i + 1, utf8)
  }

  /** `_extract_text_from_payload` as the source runs it: a loop over the
      parts that appends to `texts`, recursing into multipart children. */
  method ExtractTextFromPayload(p: Payload, utf8: seq<byte> -> string) returns (r: Result<string, DecodeError>)
    requires WellEncoded(p)
    ensures r == ExtractText(p, utf8)
    decreases p
  {
    if p.parts.Parts? {
      var parts := p.parts.list;
      var texts: seq<string> := [];
      var i := 0;
      assert PartTexts(p, 0, utf8) == Prepend(texts, PartTexts(p, 0, utf8)) by {
        PrependNothing(PartTexts(p, 0, utf8));
      }
      while i < |parts|
        invariant 0 <= i <= |parts|
        invariant PartTexts(p, 0, utf8) == Prepend(texts, PartTexts(p, i, utf8))
      {
        var part := parts[i];
        ChildWellEncoded(p, i);
        var mime := MimeOf(part);
        if mime == "text/plain" && HasData(part) {
          PartTextsPlainStep(p, i, utf8);
          var t := DecodeBase64Url(part.data.value, utf8);
          if t.Err? {
            return Err(t.error);
          }
          PrependTwice(texts, [t.value], PartTexts(p, i + 1, utf8));
          texts := texts + [t.value];
        } else if StartsWith(mime, "multipart/") {
          PartTextsMultipartStep(p, i, utf8);
          var t := ExtractTextFromPayload(part, utf8);
          if t.Err? {
            return Err(t.error);
          }
          PrependTwice(texts, [t.value], PartTexts(p, i + 1, utf8));
          texts := texts + [t.value];
        } else {
          PartTextsIgnoredStep(p, i, utf8);
        }
        i := i + 1;
      }
      assert PartTexts(p, 0, utf8) == Ok(texts) by {
        assert texts + [] == texts;
      }
      r := Ok(Join("\n", NonBlank(texts)));
    } else if HasData(p) {
      r := DecodeBase64Url(p.data.value, utf8);
    } else {
      r := Ok("");
    }
  }

  // ---------------------------------------------------------------------
  // Properties of the walk

  /** The texts of the children from `i` on depend only on those children. */
  lemma {:induction false} PartTextsSuffix(p: Payload, i: nat, q: Payload, j: nat, utf8: seq<byte> -> string)
    requires WellEncoded(p) && p.parts.Parts? && i <= |p.parts.list|
    requires WellEncoded(q) && q.parts.Parts? && j <= |q.parts.list|
    requires p.parts.list[i..] == q.parts.list[j..]
    ensures PartTexts(p, i, utf8) == PartTexts(q, j, utf8)
    decreases |p.parts.list| - i
  {
    if i < |p.parts.list| {
      assert p.parts.list[i] == p.parts.list[i..][0] == q.parts.list[j];
      assert p.parts.list[i + 1..] == p.parts.list[i..][1..];
      assert q.parts.list[j + 1..] == q.parts.list[j..][1..];
      PartTextsSuffix(p, i + 1, q, j + 1, utf8);
    }
  }

  /** The node `p` with its children replaced by `ps`. */
  function WithParts(p: Payload, ps: seq<Payload>): (q: Payload)
    ensures q.parts == Parts(ps)
  {
    p.(parts := Parts(ps))
  }

  /** What `"\n".join` does with the texts of two runs of children. */
  function JoinResults(a: Result<string, DecodeError>, b: Result<string, DecodeError>): Result<string, DecodeError> {
    match a
    case Err(e) => Err(e)
    case Ok(x) =>
      match b
      case Err(e) => Err(e)
      case Ok(y) => Ok(if x == "" then y else if y == "" then x else x + "\n" + y)
  }

  /** The children of a well-encoded node, split in two, make two
      well-encoded nodes. */
  lemma WellEncodedSplit(p: Payload, ps1: seq<Payload>, ps2: seq<Payload>)
    requires WellEncoded(WithParts(p, ps1 + ps2))
    ensures WellEncoded(WithParts(p, ps1)) && WellEncoded(WithParts(p, ps2))
  {
    var p12, p1, p2 := WithParts(p, ps1 + ps2), WithParts(p, ps1), WithParts(p, ps2);
    forall k | 0 <= k < |ps1|
      ensures ChildEncoded(p1.parts.list[k])
    {
      assert p1.parts.list[k] == p12.parts.list[k];
    }
    forall k | 0 <= k < |ps2|
      ensures ChildEncoded(p2.parts.list[k])
    {
      assert p2.parts.list[k] == p12.parts.list[|ps1| + k];
    }
  }

  lemma {:induction false} PartTextsAppend(p: Payload, ps1: seq<Payload>, ps2: seq<Payload>, i: nat, utf8: seq<byte> -> string)
    requires WellEncoded(WithParts(p, ps1 + ps2)) && i <= |ps1|
    ensures WellEncoded(WithParts(p, ps1)) && WellEncoded(WithParts(p, ps2))
    ensures PartTexts(WithParts(p, ps1 + ps2), i, utf8) ==
      match PartTexts(WithParts(p, ps1), i, utf8)
      case Err(e) => Err(e)
      case Ok(t1) => Prepend(t1, PartTexts(WithParts(p, ps2), 0, utf8))
    decreases |ps1| - i
  {
    var p12, p1, p2 := WithParts(p, ps1 + ps2), WithParts(p, ps1), WithParts(p, ps2);
    WellEncodedSplit(p, ps1, ps2);
    if i == |ps1| {
      PartTextsSuffix(p12, i, p2, 0, utf8);
      match PartTexts(p2, 0, utf8)
      case Ok(t2) => assert [] + t2 == t2;
      case Err(_) =>
    } else {
      PartTextsAppend(p, ps1, ps2, i + 1, utf8);
      assert p12.parts.list[i] == p1.parts.list[i];
      match PartTexts(p1, i + 1, utf8)
      case Err(_) =>
      case Ok(t1) =>
        match PartTexts(p2, 0, utf8)
        case Err(_) =>
        case Ok(t2) =>
          forall t: string ensures [t] + (t1 + t2) == ([t] + t1) + t2 { }
    }
  }

  /** Children contribute in order, the texts of two runs of children being
      joined by a single newline; the first failure in child order wins. */
  lemma ExtractTextAppend(p: Payload, ps1: seq<Payload>, ps2: seq<Payload>, utf8: seq<byte> -> string)
    requires WellEncoded(WithParts(p, ps1 + ps2))
    ensures WellEncoded(WithParts(p, ps1)) && WellEncoded(WithParts(p, ps2))
    ensures ExtractText(WithParts(p, ps1 + ps2), utf8) ==
      JoinResults(ExtractText(WithParts(p, ps1), utf8), ExtractText(WithParts(p, ps2), utf8))
  {
    PartTextsAppend(p, ps1, ps2, 0, utf8);
    var p12, p1, p2 := WithParts(p, ps1 + ps2), WithParts(p, ps1), WithParts(p, ps2);
    match PartTexts(p1, 0, utf8)
    case Err(_) =>
    case Ok(t1) =>
      match PartTexts(p2, 0, utf8)
      case Err(_) =>
      case Ok(t2) =>
        NonBlankAppend(t1, t2);
        var n1, n2 := NonBlank(t1), NonBlank(t2);
        JoinedNonBlank(n1);
        JoinedNonBlank(n2);
        if n1 != [] && n2 != [] {
          JoinAppend("\n", n1, n2);
        } else if n1 == [] {
          assert n1 + n2 == n2;
        } else {
          assert n1 + n2 == n1;
        }
  }

  /** A node with an empty `parts` list yields `""`. */
  lemma EmptyPartsGiveEmptyText(p: Payload, utf8: seq<byte> -> string)
    requires WellEncoded(WithParts(p, []))
    ensures ExtractText(WithParts(p, []), utf8) == Ok("")
  {
  }

  /** A single ignored child (HTML, or `text/plain` without data) yields `""`. */
  lemma IgnoredChildGivesEmptyText(p: Payload, c: Payload, utf8: seq<byte> -> string)
    requires WellEncoded(WithParts(p, [c])) && IsIgnoredPart(c)
    ensures ExtractText(WithParts(p, [c]), utf8) == Ok("")
  {
    var q := WithParts(p, [c]);
    assert PartTexts(q, 1, utf8) == Ok([]);
  }

  /** An ignored child can be removed from anywhere in the list without
      changing the result. */
  lemma IgnoredChildContributesNothing(p: Payload, ps1: seq<Payload>, c: Payload, ps2: seq<Payload>, utf8: seq<byte> -> string)
    requires WellEncoded(WithParts(p, ps1 + [c] + ps2)) && IsIgnoredPart(c)
    ensures WellEncoded(WithParts(p, ps1 + ps2))
    ensures ExtractText(WithParts(p, ps1 + [c] + ps2), utf8) == ExtractText(WithParts(p, ps1 + ps2), utf8)
  {
    assert ps1 + [c] + ps2 == ps1 + ([c] + ps2);
    ExtractTextAppend(p, ps1, [c] + ps2, utf8);
    ExtractTextAppend(p, [c], ps2, utf8);
    IgnoredChildGivesEmptyText(p, c, utf8);
    ExtractTextAppend(p, ps1, ps2, utf8);
  }

  /** A single `text/plain` child with data yields its decoded body, or `""`
      when that body is only whitespace. */
  lemma PlainTextChildKept(p: Payload, c: Payload, utf8: seq<byte> -> string)
    requires WellEncoded(WithParts(p, [c])) && IsPlainTextPart(c)
    ensures IsBodyText(c.data.value)
    ensures ExtractText(WithParts(p, [c]), utf8) ==
      match DecodeBase64Url(c.data.value, utf8)
      case Err(e) => Err(e)
      case Ok(t) => Ok(if IsBlank(t) then "" else t)
  {
    var q := WithParts(p, [c]);
    assert q.parts.list[0] == c;
    ChildWellEncoded(q, 0);
    PartTextsPlainStep(q, 0, utf8);
    assert PartTexts(q, 1, utf8) == Ok([]);
    ExtractTextOfParts(q, utf8);
    match DecodeBase64Url(c.data.value, utf8)
    case Err(_) =>
    case Ok(t) =>
      assert [t] + [] == [t];
      SingleTextJoined(t);
  }

  /** One step of the walk over a `text/plain` child with data: its decoded
      body, then the rest. */
  lemma PartTextsPlainStep(p: Payload, i: nat, utf8: seq<byte> -> string)
    requires WellEncoded(p) && p.parts.Parts? && i < |p.parts.list|
    requires IsPlainTextPart(p.parts.list[i])
    ensures IsBodyText(p.parts.list[i].data.value)
    ensures PartTexts(p, i, utf8) ==
      match DecodeBase64Url(p.parts.list[i].data.value, utf8)
      case Err(e) => Err(e)
      case Ok(t) => Prepend([t], PartTexts(p, i + 1, utf8))
  {
    ChildWellEncoded(p, i);
  }

  /** One step of the walk over any other child: it is skipped. */
  lemma PartTextsIgnoredStep(p: Payload, i: nat, utf8: seq<byte> -> string)
    requires WellEncoded(p) && p.parts.Parts? && i < |p.parts.list|
    requires IsIgnoredPart(p.parts.list[i])
    ensures PartTexts(p, i, utf8) == PartTexts(p, i + 1, utf8)
  {
  }

  /** One step of the walk over a multipart child: its text, then the rest. */
  lemma PartTextsMultipartStep(p: Payload, i: nat, utf8: seq<byte> -> string)
    requires WellEncoded(p) && p.parts.Parts? && i < |p.parts.list|
    requires IsMultipartPart(p.parts.list[i])
    ensures WellEncoded(p.parts.list[i])
    ensures PartTexts(p, i, utf8) ==
      match ExtractText(p.parts.list[i], utf8)
      case Err(e) => Err(e)
      case Ok(t) => Prepend([t], PartTexts(p, i + 1, utf8))
  {
    MultipartIsNotPlainText(p.parts.list[i]);
  }

  /** A child that is itself a multipart node is flattened: its text is the
      whole result. */
  lemma MultipartChildFlattened(p: Payload, c: Payload, utf8: seq<byte> -> string)
    requires WellEncoded(p) && p.parts == Parts([c]) && IsMultipartPart(c) && c.parts.Parts?
    ensures WellEncoded(c)
    ensures ExtractText(p, utf8) == ExtractText(c, utf8)
  {
    assert p.parts.list[0] == c;
    assert PartTexts(p, 1, utf8) == Ok([]);
    PartTextsMultipartStep(p, 0, utf8);
    ExtractTextOfParts(p, utf8);
    match ExtractText(c, utf8)
    case Err(e) =>
    case Ok(t) =>
      assert PartTexts(p, 0, utf8) == Ok([t]) by {
        assert [t] + [] == [t];
      }
      SingleTextJoined(t);
      assert IsBlank(t) ==> t == "";
  }

  /** A node with `parts` joins the kept texts of its children. */
  lemma ExtractTextOfParts(p: Payload, utf8: seq<byte> -> string)
    requires WellEncoded(p) && p.parts.Parts?
    ensures ExtractText(p, utf8) ==
      match PartTexts(p, 0, utf8)
      case Err(e) => Err(e)
      case Ok(texts) => Ok(Join("\n", NonBlank(texts)))
  {
  }

  /** The text of a node whose only kept text is `t`. */
  lemma SingleTextJoined(t: string)
    ensures Join("\n", NonBlank([t])) == if IsBlank(t) then "" else t
  {
    assert [t][1..] == [];
  }

  /** A node without `parts` decodes its own body whatever its mimeType. */
  lemma LeafIgnoresMimeType(p: Payload, mime: Option<string>, utf8: seq<byte> -> string)
    requires WellEncoded(p) && p.parts.NoParts?
    ensures ExtractText(p, utf8) == ExtractText(p.(mimeType := mime), utf8)
    ensures !HasData(p) ==> ExtractText(p, utf8) == Ok("")
  {
  }

  /** A leaf carrying the unpadded encoding of some bytes yields their UTF-8
      decoding. */
  lemma EncodedLeafRoundTrip(p: Payload, b: seq<byte>, utf8: seq<byte> -> string)
    requires p.parts.NoParts? && p.data == Some(Encode(b)) && b != []
    ensures WellEncoded(p)
    ensures ExtractText(p, utf8) == Ok(utf8(b))
  {
    EncodedTextDecodes(b, utf8);
  }

  lemma HtmlIsIgnored(p: Payload)
    requires p.mimeType == Some("text/html")
    ensures IsIgnoredPart(p)
  {
    assert MimeOf(p)[5] == 'h' && "text/plain"[5] == 'p';
    assert MimeOf(p)[0] == 't' && "multipart/"[0] == 'm';
  }

  /** A lone `text/plain` child carrying the encoding of `b` yields the
      decoding of `b`, when that is not whitespace only. */
  lemma EncodedPlainChild(p: Payload, plain: Payload, b: seq<byte>, utf8: seq<byte> -> string)
    requires plain.mimeType == Some("text/plain") && plain.data == Some(Encode(b)) && b != []
    requires plain.parts == NoParts
    requires !IsBlank(utf8(b))
    ensures ChildEncoded(plain) && IsPlainTextPart(plain)
    ensures WellEncoded(WithParts(p, [plain]))
    ensures ExtractText(WithParts(p, [plain]), utf8) == Ok(utf8(b))
  {
    EncodedTextDecodes(b, utf8);
    assert WellEncoded(plain);
    assert ChildEncoded(plain);
    var q := WithParts(p, [plain]);
    assert q.parts.list[0] == plain;
    assert WellEncoded(q) by {
      assert forall i :: 0 <= i < |q.parts.list| ==> q.parts.list[i] == plain;
    }
    PlainTextChildKept(p, plain, utf8);
  }

  /** Two well-encoded children make a well-encoded node. */
  lemma WellEncodedPair(p: Payload, c1: Payload, c2: Payload)
    requires ChildEncoded(c1) && ChildEncoded(c2)
    ensures WellEncoded(WithParts(p, [c1, c2]))
  {
    var q := WithParts(p, [c1, c2]);
    assert q.parts.list[0] == c1 && q.parts.list[1] == c2;
  }

  /** A multipart node with one encoded `text/plain` child and one HTML child
      yields exactly the plain-text child's text, when that decoding is not
      whitespace only. */
  lemma PlainTextBesideHtml(p: Payload, plain: Payload, html: Payload, b: seq<byte>, utf8: seq<byte> -> string)
    requires plain.mimeType == Some("text/plain") && plain.data == Some(Encode(b)) && b != []
    requires plain.parts == NoParts
    requires html.mimeType == Some("text/html")
    requires !IsBlank(utf8(b))
    ensures WellEncoded(WithParts(p, [plain, html]))
    ensures ExtractText(WithParts(p, [plain, html]), utf8) == Ok(utf8(b))
  {
    EncodedPlainChild(p, plain, b, utf8);
    HtmlIsIgnored(html);
    WellEncodedPair(p, plain, html);
    assert [plain, html] == [plain] + [html];
    ExtractTextAppend(p, [plain], [html], utf8);
    IgnoredChildGivesEmptyText(p, html, utf8);
  }

  /** An HTML child is never decoded: whatever its body holds, even text
      that is not base64url, a node whose only child it is yields `""`. */
  lemma UndecodedHtmlBody(utf8: seq<byte> -> string)
    ensures WellEncoded(Payload(None, [], None, Parts([Payload(Some("text/html"), [], Some("PGI+=="), NoParts)])))
    ensures ExtractText(Payload(None, [], None, Parts([Payload(Some("text/html"), [], Some("PGI+=="), NoParts)])), utf8) == Ok("")
  {
    var html := Payload(Some("text/html"), [], Some("PGI+=="), NoParts);
    var p := Payload(None, [], None, Parts([html]));
    HtmlIsIgnored(html);
    assert p.parts.list[0] == html;
    assert WithParts(p, [html]) == p;
    IgnoredChildGivesEmptyText(p, html, utf8);
  }

  /** A body that already carries its `=` padding is decoded too: `"aGk="`
      encodes the bytes of `"hi"`. */
  lemma PaddedLeafDecodes(utf8: seq<byte> -> string)
    ensures WellEncoded(Payload(None, [], Some("aGk="), NoParts))
    ensures ExtractText(Payload(None, [], Some("aGk="), NoParts), utf8) == Ok(utf8([104, 105]))
  {
    assert Unpadded("aGk=") == "aGk" by {
      assert TrailingPadding("aGk") == 0;
      assert "aGk="[..3] == "aGk";
    }
    assert DecodeData("aGk") == [104, 105];
  }

  // ---------------------------------------------------------------------
  // The record of fetch_message

  /** The record `fetch_message` builds from a message's payload (source
      lines 85-99). */
  function MessageRecord(messageId: string, p: Payload, utf8: seq<byte> -> string): (r: Result<EmailRecord, DecodeError>)
    requires WellEncoded(p)
    ensures r.Err? <==> ExtractText(p, utf8).Err?
    ensures r.Ok? ==>
      && r.value.id == messageId
      && r.value.subject == HeaderOrEmpty(p.headers, "Subject")
      && r.value.from == HeaderOrEmpty(p.headers, "From")
      && r.value.to == HeaderOrEmpty(p.headers, "To")
      && r.value.date == HeaderOrEmpty(p.headers, "Date")
      && r.value.text == Strip(ExtractText(p, utf8).value)
    ensures r.Ok? && r.value.text != "" ==> !IsSpace(r.value.text[0]) && !IsSpace(r.value.text[|r.value.text| - 1])
  {
    match ExtractText(p, utf8)
    case Err(e) => Err(e)
    case Ok(text) =>
      Ok(EmailRecord(messageId, HeaderOrEmpty(p.headers, "Subject"), HeaderOrEmpty(p.headers, "From"),
                     HeaderOrEmpty(p.headers, "To"), HeaderOrEmpty(p.headers, "Date"), Strip(text)))
  }

  /** `fetch_message` on a fetched message (source lines 84-99): its payload,
      or an empty one when it has none (`msg.get("payload", {})`); a message
      without a payload gives a record with the given id and empty strings
      elsewhere. The mailbox call that fetches the message is not part of
      this model. */
  function FetchRecord(messageId: string, payload: Option<Payload>, utf8: seq<byte> -> string): (r: Result<EmailRecord, DecodeError>)
    requires payload.Some? ==> WellEncoded(payload.value)
    ensures payload.Some? ==> r == MessageRecord(messageId, payload.value, utf8)
    ensures payload.None? ==> r == Ok(EmailRecord(messageId, "", "", "", "", ""))
  {
    match payload
    case Some(p) => MessageRecord(messageId, p, utf8)
    case None =>
      assert Strip("") == "";
      MessageRecord(messageId, EmptyPayload, utf8)
  }
}

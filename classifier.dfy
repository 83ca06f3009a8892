/** `src/classifier.py`: trimming the body before it goes into the prompt,
    building the prompt, and recovering a JSON value from the model's
    free-form answer. JSON parsing itself is a given partial function
    `parse`; the value type `J` it produces is left open, because nothing
    checks it is an object with a valid `label` or `confidence`. */
module Classifier {
  import opened Wrappers
  import opened PyStr
  import Llm

  // ---------------------------------------------------------------------
  // trim_email

  /** The reply separators, in the order they are tried. */
  const CutMarkers: seq<string> := ["\nOn ", "\nFrom:", "\n-----Original Message-----", "\n> "]

  /** A marker cuts only where its first occurrence lies past this offset. */
  const CutFloor := 200

  /** The default `max_chars`. */
  const DefaultMaxChars := 1500

  /** Where the `for m in cut_markers` loop cuts `text`: at the first
      occurrence of the first marker, in list order, whose first occurrence
      lies past `CutFloor`; `None` when no marker qualifies. */
  function CutIndex(text: string, markers: seq<string>): (r: Option<int>)
    ensures r.None? <==> forall w :: 0 <= w < |markers| ==> Find(text, markers[w]) <= CutFloor
    ensures r.Some? ==> CutFloor < r.value <= |text|
    ensures r.Some? ==> exists w :: 0 <= w < |markers| && Find(text, markers[w]) == r.value &&
                                    forall v :: 0 <= v < w ==> Find(text, markers[v]) <= CutFloor
    decreases |markers|
  {
    if markers == [] then None
    else
      var idx := Find(text, markers[0]);
      if idx != -1 && idx > CutFloor then Some(idx)
      else
        var r := CutIndex(text, markers[1..]);
        assert forall w :: 1 <= w < |markers| ==> markers[w] == markers[1..][w - 1];
        if r.Some? then
          var w :| 0 <= w < |markers[1..]| && Find(text, markers[1..][w]) == r.value &&
            forall v :: 0 <= v < w ==> Find(text, markers[1..][v]) <= CutFloor;
          assert Find(text, markers[w + 1]) == r.value;
          r
        else r
  }

  /** The text before the winning marker, or all of it. */
  function Unquoted(text: string): (u: string)
    ensures |u| <= |text| && u == text[..|u|]
    ensures CutIndex(text, CutMarkers).None? <==> u == text
    ensures CutIndex(text, CutMarkers).Some? ==> |u| == CutIndex(text, CutMarkers).value
  {
    match CutIndex(text, CutMarkers)
    case Some(i) => text[..i]
    case None => text
  }

  /** A prefix of the stripped form of `u` is a piece of `u`. */
  lemma StrippedPrefixOccurs(u: string, n: int)
    ensures OccursAt(u, PyPrefix(Strip(u), n), LeadingSpace(u))
  {
    var s := Strip(u);
    var r := PyPrefix(s, n);
    var k := LeadingSpace(u);
    assert u[k..k + |s|][..|r|] == u[k..k + |r|];
  }

  /** A piece of a prefix of `text` is a piece of `text`. */
  lemma OccursInPrefix(text: string, u: string, r: string, k: int)
    requires |u| <= |text| && u == text[..|u|] && OccursAt(u, r, k)
    ensures OccursAt(text, r, k)
  {
    assert text[k..k + |r|] == text[..|u|][k..k + |r|];
  }

  /** `trim_email(text, max_chars)`: empty text stays empty; otherwise the
      stripped unquoted text, cut to `max_chars` with Python's slice rules. */
  function TrimEmail(text: string, maxChars: int): string {
    if text == "" then "" else PyPrefix(Strip(Unquoted(text)), maxChars)
  }

  /** What `trim_email` returns: empty text stays empty; the result has at
      most `max_chars` characters, exactly as many of the stripped unquoted
      text as fit; it is a piece of the original text and starts with no
      whitespace. */
  lemma TrimEmailMeaning(text: string, maxChars: int)
    ensures text == "" ==> TrimEmail(text, maxChars) == ""
    ensures 0 <= maxChars ==> |TrimEmail(text, maxChars)| <= maxChars
    ensures 0 <= maxChars ==> |TrimEmail(text, maxChars)| == if maxChars < |Strip(Unquoted(text))| then maxChars else |Strip(Unquoted(text))|
    ensures |TrimEmail(text, maxChars)| <= |Strip(Unquoted(text))|
    ensures TrimEmail(text, maxChars) == Strip(Unquoted(text))[..|TrimEmail(text, maxChars)|]
    ensures Contains(Unquoted(text), TrimEmail(text, maxChars)) && Contains(text, TrimEmail(text, maxChars))
    ensures TrimEmail(text, maxChars) != "" ==> !IsSpace(TrimEmail(text, maxChars)[0])
  {
    var u := Unquoted(text);
    var k := LeadingSpace(u);
    StrippedPrefixOccurs(u, maxChars);
    OccursInPrefix(text, u, PyPrefix(Strip(u), maxChars), k);
    if text == "" {
      assert Strip(u) == "";
    }
  }

  /** `trim_email` as the source runs it: the loop over the markers that
      reassigns `text` and leaves at the first cut. */
  method Trim(text: string, maxChars: int) returns (r: string)
    ensures r == TrimEmail(text, maxChars)
  {
    if text == "" {
      return "";
    }
    var body := text;
    var markers := CutMarkers;
    var i := 0;
    while i < |markers|
      invariant 0 <= i <= |markers|
      invariant body == text
      invariant CutIndex(text, markers[i..]) == CutIndex(text, markers)
    {
      var idx := Find(body, markers[i]);
      assert markers[i..][0] == markers[i] && markers[i..][1..] == markers[i + 1..];
      if idx != -1 && idx > CutFloor {
        body := body[..idx];
        break;
      }
      i := i + 1;
    }
    r := PyPrefix(Strip(body), maxChars);
  }

  /** The first marker in list order that qualifies wins, even when a later
      marker occurs earlier in the text. */
  lemma {:induction false} CutIndexWinner(text: string, markers: seq<string>, w: nat)
    requires w < |markers| && Find(text, markers[w]) > CutFloor
    requires forall v :: 0 <= v < w ==> Find(text, markers[v]) <= CutFloor
    ensures CutIndex(text, markers) == Some(Find(text, markers[w]))
    decreases w
  {
    if w > 0 {
      assert forall v :: 0 <= v < w - 1 ==> markers[1..][v] == markers[v + 1];
      CutIndexWinner(text, markers[1..], w - 1);
    }
  }

  /** A marker is looked for only at its first occurrence: when every
      marker first occurs within the floor, nothing is cut, however often
      the markers occur later. */
  lemma EarlyMarkersNeverCut(text: string, maxChars: int)
    requires forall w :: 0 <= w < |CutMarkers| ==> Find(text, CutMarkers[w]) <= CutFloor
    ensures TrimEmail(text, maxChars) == PyPrefix(Strip(text), maxChars)
  {
  }

  /** Text of at most 203 characters is never cut: the shortest marker has
      three characters and must start past offset 200. */
  lemma ShortTextNeverCut(text: string, maxChars: int)
    requires |text| <= CutFloor + 3
    ensures TrimEmail(text, maxChars) == PyPrefix(Strip(text), maxChars)
  {
    forall w | 0 <= w < |CutMarkers|
      ensures Find(text, CutMarkers[w]) <= CutFloor
    {
      var m := CutMarkers[w];
      assert |m| >= 3;
      var f := Find(text, m);
      assert f == -1 || f + |m| <= |text|;
    }
    EarlyMarkersNeverCut(text, maxChars);
  }

  /** `sub` occurs in `s` at `k`, and nowhere before: `find` reports `k`. */
  lemma FindIs(s: string, sub: string, k: nat)
    requires OccursAt(s, sub, k)
    requires forall j :: 0 <= j < k ==> !OccursAt(s, sub, j)
    ensures Find(s, sub) == k
  {
  }

  /** A marker starts with a newline, so it can only occur at one. */
  lemma MarkerAtNewline(s: string, m: string, k: int)
    requires m != [] && m[0] == '\n' && OccursAt(s, m, k)
    ensures s[k] == '\n' && (|m| > 1 ==> s[k + 1] == m[1])
  {
    assert s[k] == s[k..k + |m|][0];
    if |m| > 1 {
      assert s[k + 1] == s[k..k + |m|][1];
    }
  }

  predicate NoNewline(s: string) {
    forall k :: 0 <= k < |s| ==> s[k] != '\n'
  }

  /** A marker whose second character follows no newline of `s` does not
      occur in `s`. */
  lemma MarkerAbsent(s: string, m: string)
    requires |m| > 1 && m[0] == '\n'
    requires forall k :: 0 <= k < |s| - 1 && s[k] == '\n' ==> s[k + 1] != m[1]
    ensures Find(s, m) == -1
  {
    forall k | 0 <= k && OccursAt(s, m, k)
      ensures false
    {
      MarkerAtNewline(s, m, k);
    }
  }

  /** In `body + "\nFrom:" + tail` without other newlines, `"\nOn "` does
      not occur and `"\nFrom:"` first occurs right after `body`. */
  lemma ReplyMarkersFound(body: string, tail: string)
    requires NoNewline(body) && NoNewline(tail)
    ensures Find(body + "\nFrom:" + tail, CutMarkers[0]) == -1
    ensures Find(body + "\nFrom:" + tail, CutMarkers[1]) == |body|
  {
    var text := body + "\nFrom:" + tail;
    var n := |body|;
    assert text[n] == '\n' && text[n + 1] == 'F';
    assert forall k :: 0 <= k < |text| && text[k] == '\n' ==> k == n by {
      assert forall k :: 0 <= k < n ==> text[k] == body[k];
      assert forall k :: n + 6 <= k < |text| ==> text[k] == tail[k - n - 6];
    }
    MarkerAbsent(text, CutMarkers[0]);
    assert OccursAt(text, CutMarkers[1], n) by {
      assert text[n..n + 6] == "\nFrom:";
    }
    forall j | 0 <= j < n
      ensures !OccursAt(text, CutMarkers[1], j)
    {
      if OccursAt(text, CutMarkers[1], j) {
        MarkerAtNewline(text, CutMarkers[1], j);
      }
    }
    FindIs(text, CutMarkers[1], n);
  }

  /** A quoted reply introduced by `"\nFrom:"` past the floor is removed:
      with `"x" * 250 + "\nFrom: evil@x"` only the run of `x` is kept. */
  lemma QuotedReplyCut(body: string, tail: string, maxChars: int)
    requires NoNewline(body) && NoNewline(tail) && |body| > CutFloor
    ensures TrimEmail(body + "\nFrom:" + tail, maxChars) == PyPrefix(Strip(body), maxChars)
  {
    var text := body + "\nFrom:" + tail;
    ReplyMarkersFound(body, tail);
    CutIndexWinner(text, CutMarkers, 1);
    assert Unquoted(text) == text[..|body|] == body;
  }

  /** Short text with no surrounding whitespace comes back whole, quote
      markers and all. */
  lemma ShortTextKept(text: string, maxChars: int)
    requires |text| <= CutFloor + 3 && |text| <= maxChars
    requires text != "" ==> !IsSpace(text[0]) && !IsSpace(text[|text| - 1])
    ensures TrimEmail(text, maxChars) == text
  {
    ShortTextNeverCut(text, maxChars);
    StripUnchanged(text);
  }

  /** `"hi\nFrom: injected"`: the marker lies within the floor and the
      whole text is kept. */
  lemma EarlyQuoteKept()
    ensures TrimEmail("hi\nFrom: injected", DefaultMaxChars) == "hi\nFrom: injected"
  {
    var text := "hi\nFrom: injected";
    assert |text| == 17 && text[0] == 'h' && text[16] == 'd';
    ShortTextKept(text, DefaultMaxChars);
  }

  // ---------------------------------------------------------------------
  // The prompt of classify_email

  /** `SYSTEM_RULES`, the instructions that open every prompt. */
  const SystemRules: string :=
    "\nYou are an email classifier.\n"
    + "Return ONLY valid JSON with keys:\n"
    + "- label: one of [\"urgent\",\"action_required\",\"informational\",\"spam\",\"personal\"]\n"
    + "- confidence: number from 0.0 to 1.0\n"
    + "- reason: short string (max 20 words)\n"
    + "No extra text.\n"

  /** `email.get(key, "")`. */
  function Field(email: map<string, string>, key: string): string {
    if key in email then email[key] else ""
  }

  /** What precedes the sender: the instructions `rules`, then the `Email:`
      and `From:` labels. */
  function FromLabel(rules: string): string {
    rules + "\n\nEmail:\nFrom: "
  }

  /** `lead + sender + "\nSubject: " + subject + "\nBody:\n" + body + "\n"`,
      the shape of every prompt. */
  function Layout(lead: string, sender: string, subject: string, body: string): string {
    lead + sender + "\nSubject: " + subject + "\nBody:\n" + body + "\n"
  }

  /** The prompt `classify_email` builds around the instructions `rules`
      (source lines 30-37). */
  function PromptWith(rules: string, email: map<string, string>): string {
    Layout(FromLabel(rules), Field(email, "from"), Field(email, "subject"), TrimEmail(Field(email, "text"), DefaultMaxChars))
  }

  /** The prompt `classify_email` sends: the one around `SYSTEM_RULES`. The
      lemmas below hold for any instructions, and so for this prompt. */
  function Prompt(email: map<string, string>): string {
    PromptWith(SystemRules, email)
  }

  /** The lead and the sender open the layout. */
  lemma LayoutSender(lead: string, sender: string, subject: string, body: string)
    ensures |lead| + |sender| <= |Layout(lead, sender, subject, body)|
    ensures Layout(lead, sender, subject, body)[..|lead|] == lead
    ensures Layout(lead, sender, subject, body)[|lead|..|lead| + |sender|] == sender
  {
    var p := Layout(lead, sender, subject, body);
    var q := lead + sender;
    assert p[..|q|] == q;
    assert p[..|lead|] == q[..|lead|];
    assert p[|lead|..|q|] == q[|lead|..];
  }

  /** The subject comes after its label. */
  lemma LayoutSubject(lead: string, sender: string, subject: string, body: string)
    ensures |lead| + |sender| + 10 + |subject| <= |Layout(lead, sender, subject, body)|
    ensures Layout(lead, sender, subject, body)[|lead| + |sender|..|lead| + |sender| + 10] == "\nSubject: "
    ensures Layout(lead, sender, subject, body)[|lead| + |sender| + 10..|lead| + |sender| + 10 + |subject|] == subject
  {
    var p := Layout(lead, sender, subject, body);
    var q := lead + sender + "\nSubject: " + subject;
    var n := |lead| + |sender|;
    assert p[..|q|] == q;
    assert p[n..n + 10] == q[n..n + 10];
    assert p[n + 10..|q|] == q[n + 10..];
  }

  /** The body comes after its label, and a newline ends the layout. */
  lemma LayoutBody(lead: string, sender: string, subject: string, body: string)
    ensures |lead| + |sender| + 10 + |subject| + 7 + |body| + 1 == |Layout(lead, sender, subject, body)|
    ensures Layout(lead, sender, subject, body)[|lead| + |sender| + 10 + |subject|..|lead| + |sender| + 10 + |subject| + 7] == "\nBody:\n"
    ensures Layout(lead, sender, subject, body)[|lead| + |sender| + 10 + |subject| + 7..|Layout(lead, sender, subject, body)| - 1] == body
    ensures Layout(lead, sender, subject, body)[|Layout(lead, sender, subject, body)| - 1] == '\n'
  {
    var p := Layout(lead, sender, subject, body);
    var q := lead + sender + "\nSubject: " + subject;
    var h := q + "\nBody:\n";
    assert p == h + body + "\n";
    assert p[..|h|] == h;
    assert p[|q|..|h|] == h[|q|..];
    assert p[|h|..|p| - 1] == body;
  }

  /** Where the subject starts in the prompt of `email`. */
  function SubjectAt(rules: string, email: map<string, string>): nat {
    |FromLabel(rules)| + |Field(email, "from")| + 10
  }

  /** Where the body starts in the prompt of `email`. */
  function BodyAt(rules: string, email: map<string, string>): nat {
    SubjectAt(rules, email) + |Field(email, "subject")| + 7
  }

  /** After the instructions and the `From:` label comes the sender,
      exactly as given. */
  lemma PromptSender(rules: string, email: map<string, string>)
    ensures |FromLabel(rules)| + |Field(email, "from")| <= |PromptWith(rules, email)|
    ensures PromptWith(rules, email)[..|FromLabel(rules)|] == FromLabel(rules)
    ensures PromptWith(rules, email)[|FromLabel(rules)|..|FromLabel(rules)| + |Field(email, "from")|] == Field(email, "from")
  {
    LayoutSender(FromLabel(rules), Field(email, "from"), Field(email, "subject"), TrimEmail(Field(email, "text"), DefaultMaxChars));
  }

  /** Then the subject, exactly as given, on its own labelled line. */
  lemma PromptSubject(rules: string, email: map<string, string>)
    ensures SubjectAt(rules, email) + |Field(email, "subject")| <= |PromptWith(rules, email)|
    ensures PromptWith(rules, email)[SubjectAt(rules, email) - 10..SubjectAt(rules, email)] == "\nSubject: "
    ensures PromptWith(rules, email)[SubjectAt(rules, email)..SubjectAt(rules, email) + |Field(email, "subject")|] == Field(email, "subject")
  {
    var sender := Field(email, "from");
    LayoutSubject(FromLabel(rules), sender, Field(email, "subject"), TrimEmail(Field(email, "text"), DefaultMaxChars));
    assert SubjectAt(rules, email) == |FromLabel(rules)| + |sender| + 10;
  }

  /** The body comes on the lines after `Body:`. */
  lemma PromptBodyLabel(rules: string, email: map<string, string>)
    ensures 7 <= BodyAt(rules, email) <= |PromptWith(rules, email)|
    ensures PromptWith(rules, email)[BodyAt(rules, email) - 7..BodyAt(rules, email)] == "\nBody:\n"
  {
    var sender, subject := Field(email, "from"), Field(email, "subject");
    LayoutBody(FromLabel(rules), sender, subject, TrimEmail(Field(email, "text"), DefaultMaxChars));
    assert BodyAt(rules, email) == |FromLabel(rules)| + |sender| + 10 + |subject| + 7;
  }

  /** Then the trimmed body and a final newline. */
  lemma PromptBody(rules: string, email: map<string, string>)
    ensures BodyAt(rules, email) + |TrimEmail(Field(email, "text"), DefaultMaxChars)| + 1 == |PromptWith(rules, email)|
    ensures PromptWith(rules, email)[BodyAt(rules, email)..|PromptWith(rules, email)| - 1] == TrimEmail(Field(email, "text"), DefaultMaxChars)
    ensures PromptWith(rules, email)[|PromptWith(rules, email)| - 1] == '\n'
  {
    var sender, subject := Field(email, "from"), Field(email, "subject");
    LayoutBody(FromLabel(rules), sender, subject, TrimEmail(Field(email, "text"), DefaultMaxChars));
    assert BodyAt(rules, email) == |FromLabel(rules)| + |sender| + 10 + |subject| + 7;
  }

  /** Every prompt opens with its instructions. */
  lemma PromptOpensWithRules(rules: string, email: map<string, string>)
    ensures StartsWith(PromptWith(rules, email), rules)
  {
    var p := PromptWith(rules, email);
    PromptSender(rules, email);
    assert FromLabel(rules)[..|rules|] == rules;
    assert p[..|rules|] == p[..|FromLabel(rules)|][..|rules|];
  }

  /** A missing `from`, `subject` or `text` key reads as `""`. */
  lemma MissingFieldIsEmpty(rules: string, email: map<string, string>, key: string)
    requires key !in email
    ensures PromptWith(rules, email) == PromptWith(rules, email[key := ""])
  {
    var e := email[key := ""];
    assert Field(e, "from") == Field(email, "from");
    assert Field(e, "subject") == Field(email, "subject");
    assert Field(e, "text") == Field(email, "text");
  }

  // ---------------------------------------------------------------------
  // Recovering the model's answer

  /** Why the recovery raises: the whole answer is not JSON and holds no
      `{` before a `}`, or the braced slice is not JSON either. */
  datatype RecoverError =
    | WholeOutputInvalid
    | BracedSliceInvalid(start: nat, end: nat)

  /** First `{` and last `}` of a text. */
  datatype Span = Span(start: nat, end: nat)

  predicate HasBracePair(raw: string) {
    exists i, j :: 0 <= i < j < |raw| && raw[i] == '{' && raw[j] == '}'
  }

  lemma OccursAtChar(s: string, c: char, k: int)
    ensures OccursAt(s, [c], k) <==> 0 <= k < |s| && s[k] == c
  {
    if 0 <= k < |s| {
      assert s[k..k + 1] == [s[k]];
    }
  }

  /** The slice `raw[start:end+1]` the fallback parses, when `start` is the
      first `{`, `end` the last `}` and `end > start`. */
  function BracedSpan(raw: string): (o: Option<Span>)
    ensures o.Some? <==> HasBracePair(raw)
    ensures o.Some? ==> o.value.start < o.value.end < |raw|
    ensures o.Some? ==> raw[o.value.start] == '{' && raw[o.value.end] == '}'
    ensures o.Some? ==> forall k :: 0 <= k < o.value.start ==> raw[k] != '{'
    ensures o.Some? ==> forall k :: o.value.end < k < |raw| ==> raw[k] != '}'
  {
    var start := Find(raw, "{");
    var end := RFind(raw, "}");
    OccursAtChar(raw, '{', start);
    OccursAtChar(raw, '}', end);
    assert forall k :: 0 <= k < |raw| && raw[k] == '{' ==> start != -1 && start <= k by {
      forall k | 0 <= k < |raw| && raw[k] == '{'
        ensures start != -1 && start <= k
      {
        OccursAtChar(raw, '{', k);
      }
    }
    assert forall k :: 0 <= k < |raw| && raw[k] == '}' ==> end != -1 && k <= end by {
      forall k | 0 <= k < |raw| && raw[k] == '}'
        ensures end != -1 && k <= end
      {
        OccursAtChar(raw, '}', k);
      }
    }
    if start != -1 && end != -1 && end > start then
      Some(Span(start, end))
    else
      None
  }

  /** The two-stage parse of `classify_email`: the whole answer, and if that
      fails, the braced slice; the value is returned as parsed. */
  function Recover<J>(raw: string, parse: string -> Option<J>): (r: Result<J, RecoverError>)
    ensures parse(raw).Some? ==> r == Ok(parse(raw).value)
    ensures parse(raw).None? ==> (r == Err(WholeOutputInvalid) <==> !HasBracePair(raw))
    ensures parse(raw).None? && r.Ok? ==>
      var span := BracedSpan(raw).value;
      parse(raw[span.start..span.end + 1]) == Some(r.value)
    ensures parse(raw).None? && HasBracePair(raw) ==>
      (r.Ok? <==> parse(raw[BracedSpan(raw).value.start..BracedSpan(raw).value.end + 1]).Some?)
    ensures parse(raw).None? && HasBracePair(raw) && r.Err? ==>
      r.error == BracedSliceInvalid(BracedSpan(raw).value.start, BracedSpan(raw).value.end)
  {
    match parse(raw)
    case Some(v) => Ok(v)
    case None =>
      match BracedSpan(raw)
      case None => Err(WholeOutputInvalid)
      case Some(span) =>
        match parse(raw[span.start..span.end + 1])
        case Some(v) => Ok(v)
        case None => Err(BracedSliceInvalid(span.start, span.end))
  }

  /** A `{` with none before it and a later `}` with none after it are the
      span found. */
  lemma SpanPinned(raw: string, i: nat, j: nat)
    requires i < j < |raw| && raw[i] == '{' && raw[j] == '}'
    requires forall k :: 0 <= k < i ==> raw[k] != '{'
    requires forall k :: j < k < |raw| ==> raw[k] != '}'
    ensures BracedSpan(raw) == Some(Span(i, j))
  {
    assert HasBracePair(raw);
    var span := BracedSpan(raw).value;
    assert span.start <= i;
    assert span.end >= j;
  }

  /** In prose that holds no `{` before a braced text and no `}` after it,
      the braced text is exactly the span found. */
  lemma EmbeddedSpan(before: string, rec: string, after: string)
    requires forall k :: 0 <= k < |before| ==> before[k] != '{'
    requires forall k :: 0 <= k < |after| ==> after[k] != '}'
    requires 2 <= |rec| && rec[0] == '{' && rec[|rec| - 1] == '}'
    ensures BracedSpan(before + rec + after) == Some(Span(|before|, |before| + |rec| - 1))
    ensures (before + rec + after)[|before|..|before| + |rec|] == rec
  {
    var raw := before + rec + after;
    var i, j := |before|, |before| + |rec| - 1;
    assert raw[i] == rec[0] && raw[j] == rec[|rec| - 1];
    forall k | 0 <= k < i
      ensures raw[k] != '{'
    {
      assert raw[k] == before[k];
    }
    forall k | j < k < |raw|
      ensures raw[k] != '}'
    {
      assert raw[k] == after[k - j - 1];
    }
    SpanPinned(raw, i, j);
  }

  /** A record embedded in prose that holds no `{` before it and no `}`
      after it is what the fallback parses. */
  lemma EmbeddedRecordRecovered<J>(before: string, rec: string, after: string, parse: string -> Option<J>)
    requires forall k :: 0 <= k < |before| ==> before[k] != '{'
    requires forall k :: 0 <= k < |after| ==> after[k] != '}'
    requires 2 <= |rec| && rec[0] == '{' && rec[|rec| - 1] == '}'
    requires parse(before + rec + after).None?
    ensures Recover(before + rec + after, parse) ==
      match parse(rec)
      case Some(v) => Ok(v)
      case None => Err(BracedSliceInvalid(|before|, |before| + |rec| - 1))
  {
    EmbeddedSpan(before, rec, after);
  }

  /** `'Sure! {"label":"urgent",...} Hope that helps.'`: the record inside
      the prose is recovered. */
  lemma ProseAroundRecord<J>(rec: string, parse: string -> Option<J>)
    requires 2 <= |rec| && rec[0] == '{' && rec[|rec| - 1] == '}'
    requires parse("Sure! " + rec + " Hope that helps.").None? && parse(rec).Some?
    ensures Recover("Sure! " + rec + " Hope that helps.", parse) == Ok(parse(rec).value)
  {
    EmbeddedRecordRecovered("Sure! ", rec, " Hope that helps.", parse);
  }

  /** Two records in one answer are not told apart: the slice runs from the
      first record's `{` to the second record's `}`. */
  lemma TwoRecordsSpanned<J>(before: string, x: string, mid: string, y: string, after: string, parse: string -> Option<J>)
    requires forall k :: 0 <= k < |before| ==> before[k] != '{'
    requires forall k :: 0 <= k < |after| ==> after[k] != '}'
    requires 2 <= |x| && x[0] == '{' && 2 <= |y| && y[|y| - 1] == '}'
    requires parse(before + x + mid + y + after).None?
    ensures Recover(before + x + mid + y + after, parse) ==
      match parse(x + mid + y)
      case Some(v) => Ok(v)
      case None => Err(BracedSliceInvalid(|before|, |before| + |x + mid + y| - 1))
  {
    var rec := x + mid + y;
    Regroup(before, x, mid, y, after);
    assert rec[0] == x[0];
    assert rec[|rec| - 1] == y[|y| - 1];
    EmbeddedRecordRecovered(before, rec, after, parse);
  }

  lemma Regroup(a: string, b: string, c: string, d: string, e: string)
    ensures a + b + c + d + e == a + (b + c + d) + e
  {
  }

  // ---------------------------------------------------------------------
  // classify_email

  /** Why `classify_email` raises. */
  datatype ClassifyError =
    | GenerationFailed(cause: Llm.GenerateError)
    | RecoveryFailed(reason: RecoverError)

  /** `classify_email(model, email)`: the prompt goes to the backend, whose
      reply to it is `respond` (the model name and the temperature travel
      with the request and are not modelled), and the answer is recovered. */
  function ClassifyEmail<J>(email: map<string, string>, respond: string -> Llm.HttpResponse, parse: string -> Option<J>): (r: Result<J, ClassifyError>)
    ensures r.Err? && r.error.GenerationFailed? <==> Llm.Generate(respond(Prompt(email))).Err?
    ensures r.Err? && r.error.GenerationFailed? ==> r.error.cause == Llm.Generate(respond(Prompt(email))).error
    ensures Llm.Generate(respond(Prompt(email))).Ok? ==>
      var raw := Llm.Generate(respond(Prompt(email))).value;
      && (r.Ok? <==> Recover(raw, parse).Ok?)
      && (r.Ok? ==> r.value == Recover(raw, parse).value)
      && (r.Err? ==> r.error == RecoveryFailed(Recover(raw, parse).error))
  {
    match Llm.Generate(respond(Prompt(email)))
    case Err(e) => Err(GenerationFailed(e))
    case Ok(raw) =>
      match Recover(raw, parse)
      case Ok(v) => Ok(v)
      case Err(e) => Err(RecoveryFailed(e))
  }

  /** An answer that parses whole is returned as parsed, whatever it holds:
      no label or confidence is checked. */
  lemma ParsedAnswerReturned<J>(email: map<string, string>, respond: string -> Llm.HttpResponse, parse: string -> Option<J>, v: J)
    requires Llm.Generate(respond(Prompt(email))).Ok?
    requires parse(Llm.Generate(respond(Prompt(email))).value) == Some(v)
    ensures ClassifyEmail(email, respond, parse) == Ok(v)
  {
  }
}

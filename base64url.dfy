/** The body encoding of the mailbox API: base64 with the URL- and
    filename-safe alphabet of section 5 of RFC 4648, sent without the `=`
    padding of section 3.2. `DecodeBase64Url` is the source's
    `_decode_base64url`: it re-pads the text and hands it to Python's
    `base64.urlsafe_b64decode`, modelled here by `UrlSafeB64Decode`. */
module Base64Url {
  import opened Wrappers
  import opened PyStr

  type byte = x: int | 0 <= x < 256

  /** A six-bit group, the value one alphabet character stands for. */
  type sextet = x: int | 0 <= x < 64

  /** Why `base64.urlsafe_b64decode` raises `binascii.Error`. */
  datatype DecodeError =
    | InvalidLength(dataChars: nat)  // the data characters are one more than a multiple of 4
    | IncorrectPadding               // a final group of 2 or 3 characters lacks its `=`

  predicate IsAlphabetChar(c: char) {
    ('A' <= c <= 'Z') || ('a' <= c <= 'z') || ('0' <= c <= '9') || c == '-' || c == '_'
  }

  predicate IsAlphabetText(s: string) {
    forall k :: 0 <= k < |s| ==> IsAlphabetChar(s[k])
  }

  /** A character `urlsafe_b64decode` reads as data. It maps `-` and `_` to
      `+` and `/` before decoding with the standard alphabet, so `+` and `/`
      are read as data too. */
  predicate IsDataChar(c: char) {
    IsAlphabetChar(c) || c == '+' || c == '/'
  }

  predicate IsDataText(s: string) {
    forall k :: 0 <= k < |s| ==> IsDataChar(s[k])
  }

  /** The value of a data character (Table 2 of RFC 4648 for the URL-safe
      alphabet, Table 1 for `+` and `/`). */
  function SextetOf(c: char): (v: sextet)
    requires IsDataChar(c)
  {
    if 'A' <= c <= 'Z' then c as int - 'A' as int
    else if 'a' <= c <= 'z' then c as int - 'a' as int + 26
    else if '0' <= c <= '9' then c as int - '0' as int + 52
    else if c == '-' || c == '+' then 62
    else 63
  }

  /** The alphabet character standing for `v`; `SextetOf` undoes it. */
  function CharOf(v: sextet): (c: char)
    ensures IsAlphabetChar(c) && SextetOf(c) == v
  {
    if v < 26 then ('A' as int + v) as char
    else if v < 52 then ('a' as int + (v - 26)) as char
    else if v < 62 then ('0' as int + (v - 52)) as char
    else if v == 62 then '-'
    else '_'
  }

  /** Section 5 of RFC 4648 with the padding omitted: each three bytes become
      four characters, a final one or two bytes become two or three. */
  function Encode(b: seq<byte>): (s: string)
    ensures IsAlphabetText(s)
    ensures |s| == |b| / 3 * 4 + (if |b| % 3 == 0 then 0 else |b| % 3 + 1)
    decreases |b|
  {
    if |b| == 0 then ""
    else if |b| == 1 then [CharOf(b[0] / 4), CharOf(b[0] % 4 * 16)]
    else if |b| == 2 then [CharOf(b[0] / 4), CharOf(b[0] % 4 * 16 + b[1] / 16), CharOf(b[1] % 16 * 4)]
    else
      [CharOf(b[0] / 4), CharOf(b[0] % 4 * 16 + b[1] / 16),
       CharOf(b[1] % 16 * 4 + b[2] / 64), CharOf(b[2] % 64)] + Encode(b[3..])
  }

  /** The bytes carried by a run of data characters: four characters give
      three bytes, a final group of two or three characters gives one or two,
      and the bits left over in a final group are dropped (Python does not
      check that they are zero). */
  function DecodeData(s: string): (b: seq<byte>)
    requires IsDataText(s) && |s| % 4 != 1
    ensures |b| == |s| / 4 * 3 + (if |s| % 4 == 0 then 0 else |s| % 4 - 1)
    decreases |s|
  {
    if |s| == 0 then []
    else
      var v0, v1 := SextetOf(s[0]), SextetOf(s[1]);
      if |s| == 2 then [v0 * 4 + v1 / 16]
      else
        var v2 := SextetOf(s[2]);
        if |s| == 3 then [v0 * 4 + v1 / 16, v1 % 16 * 16 + v2 / 4]
        else
          var v3 := SextetOf(s[3]);
          [v0 * 4 + v1 / 16, v1 % 16 * 16 + v2 / 4, v2 % 4 * 64 + v3] + DecodeData(s[4..])
  }

  /** The number of `=` characters that end `t`. */
  function TrailingPadding(t: string): (n: nat)
    ensures n <= |t|
    ensures forall k :: |t| - n <= k < |t| ==> t[k] == '='
    ensures n < |t| ==> t[|t| - n - 1] != '='
    decreases |t|
  {
    if t == [] || t[|t| - 1] != '=' then 0 else 1 + TrailingPadding(t[..|t| - 1])
  }

  /** `t` without its trailing `=`. */
  function Unpadded(t: string): string {
    t[..|t| - TrailingPadding(t)]
  }

  /** A body the decoder reads whole: data characters, then any number of
      `=`. */
  predicate IsBodyText(t: string) {
    IsDataText(Unpadded(t))
  }

  /** Text of the URL-safe alphabet has no padding to drop. */
  lemma AlphabetTextUnpadded(s: string)
    requires IsAlphabetText(s)
    ensures Unpadded(s) == s && IsBodyText(s)
  {
    if s != [] {
      assert IsAlphabetChar(s[|s| - 1]);
    }
  }

  /** Text is its data characters followed by its trailing `=`. */
  lemma UnpaddedSplit(t: string)
    ensures t == Unpadded(t) + Repeat('=', TrailingPadding(t))
  {
    var d := Unpadded(t);
    var p := TrailingPadding(t);
    assert forall k :: 0 <= k < |t| ==> t[k] == (d + Repeat('=', p))[k] by {
      forall k | 0 <= k < |t|
        ensures t[k] == (d + Repeat('=', p))[k]
      {
        if k < |d| {
          assert t[k] == d[k];
        }
      }
    }
  }

  lemma ConcatAssoc(a: string, b: string, c: string)
    ensures (a + b) + c == a + (b + c)
  {
  }

  /** The data characters do not end in `=`. */
  lemma UnpaddedEnd(t: string)
    ensures Unpadded(t) == [] || Unpadded(t)[|Unpadded(t)| - 1] != '='
  {
  }

  lemma RepeatAppend(c: char, m: nat, n: nat)
    ensures Repeat(c, m) + Repeat(c, n) == Repeat(c, m + n)
  {
    assert forall k :: 0 <= k < m + n ==> (Repeat(c, m) + Repeat(c, n))[k] == c;
  }

  /** `base64.urlsafe_b64decode(t)` on data characters followed by `=`
      padding, as `binascii.a2b_base64` treats them: a group of one data
      character is an error whatever follows; a final group of two or three
      needs padding that completes it to four. */
  function UrlSafeB64Decode(t: string): (r: Result<seq<byte>, DecodeError>)
    requires IsDataText(t[..|t| - TrailingPadding(t)])
    ensures |t| % 4 == 0 ==> (r.Err? <==> (|t| - TrailingPadding(t)) % 4 == 1)
    ensures r.Ok? ==> (|t| - TrailingPadding(t)) % 4 != 1 && r.value == DecodeData(t[..|t| - TrailingPadding(t)])
  {
    var pads := TrailingPadding(t);
    var n := |t| - pads;
    if n % 4 == 1 then Err(InvalidLength(n))
    else if n % 4 != 0 && n % 4 + pads < 4 then Err(IncorrectPadding)
    else Ok(DecodeData(t[..n]))
  }

  /** `missing_padding` of the source: `4 - len(data) % 4` characters, unless
      that is 4 (source lines 47-48). */
  function PaddingCount(n: nat): (k: nat)
    ensures (n + k) % 4 == 0
    ensures n % 4 == 0 ==> k == 0
    ensures n % 4 == 1 ==> k == 3
    ensures n % 4 == 2 ==> k == 2
    ensures n % 4 == 3 ==> k == 1
  {
    var missing := 4 - n % 4;
    if missing != 0 && missing != 4 then missing else 0
  }

  /** `data += "=" * missing_padding`: the length becomes a multiple of 4. */
  function Pad(data: string): (t: string)
    ensures |t| % 4 == 0 && |data| <= |t| < |data| + 4
    ensures t[..|data|] == data
    ensures forall k :: |data| <= k < |t| ==> t[k] == '='
  {
    data + Repeat('=', PaddingCount(|data|))
  }

  /** Text that does not end in `=`, followed by `k` of them, has exactly `k`
      trailing `=`. */
  lemma {:induction false} TrailingPaddingOf(body: string, k: nat)
    requires body == [] || body[|body| - 1] != '='
    ensures TrailingPadding(body + Repeat('=', k)) == k
  {
    var t := body + Repeat('=', k);
    if k > 0 {
      assert t[..|t| - 1] == body + Repeat('=', k - 1);
      TrailingPaddingOf(body, k - 1);
    }
  }

  /** Adding `=` keeps the data characters and lengthens the padding. */
  lemma PadUnpadded(data: string, k: nat)
    ensures TrailingPadding(data + Repeat('=', k)) == TrailingPadding(data) + k
    ensures Unpadded(data + Repeat('=', k)) == Unpadded(data)
  {
    UnpaddedEnd(data);
    PadRepeats(data, k);
    PaddedText(data + Repeat('=', k), Unpadded(data), TrailingPadding(data) + k);
  }

  lemma PadRepeats(data: string, k: nat)
    ensures data + Repeat('=', k) == Unpadded(data) + Repeat('=', TrailingPadding(data) + k)
  {
    UnpaddedSplit(data);
    MorePadding(data, Unpadded(data), TrailingPadding(data), k);
  }

  /** `k` more `=` after `p` of them make `p + k`. */
  lemma MorePadding(data: string, d: string, p: nat, k: nat)
    requires data == d + Repeat('=', p)
    ensures data + Repeat('=', k) == d + Repeat('=', p + k)
  {
    ConcatAssoc(d, Repeat('=', p), Repeat('=', k));
    RepeatAppend('=', p, k);
  }

  /** Text not ending in `=`, followed by `n` of them, is unpadded to itself. */
  lemma PaddedText(t: string, d: string, n: nat)
    requires d == [] || d[|d| - 1] != '='
    requires t == d + Repeat('=', n)
    ensures TrailingPadding(t) == n
    ensures Unpadded(t) == d
  {
    TrailingPaddingOf(d, n);
    assert t[..|t| - n] == d;
  }

  /** `_decode_base64url(data)` (source lines 44-50), with UTF-8 decoding
      under `errors="replace"` given as the total function `utf8`. The body
      is data characters, possibly already followed by `=`. Empty data gives
      `""`; otherwise the text decodes unless its data characters are one
      more than a multiple of 4, which no encoder produces; re-padding always
      supplies the `=` a final group of two or three needs. */
  function DecodeBase64Url(data: string, utf8: seq<byte> -> string): (r: Result<string, DecodeError>)
    requires IsBodyText(data)
    ensures data == "" ==> r == Ok("")
    ensures r.Err? <==> |Unpadded(data)| % 4 == 1
    ensures r.Err? ==> r.error == InvalidLength(|Unpadded(data)|)
    ensures r.Ok? && data != "" ==> r.value == utf8(DecodeData(Unpadded(data)))
  {
    if data == "" then Ok("")
    else
      PadUnpadded(data, PaddingCount(|data|));
      assert (|Unpadded(data)| + TrailingPadding(Pad(data))) % 4 == 0;
      match UrlSafeB64Decode(Pad(data))
      case Ok(b) => Ok(utf8(b))
      case Err(e) => Err(e)
  }

  /** Padding already present in a body changes nothing: the body decodes
      as its data characters alone do. */
  lemma PaddedBodyDecodes(data: string, k: nat, utf8: seq<byte> -> string)
    requires IsDataText(data) && data != ""
    ensures IsBodyText(data) && IsBodyText(data + Repeat('=', k))
    ensures DecodeBase64Url(data + Repeat('=', k), utf8) == DecodeBase64Url(data, utf8)
  {
    assert IsDataChar(data[|data| - 1]);
    TrailingPaddingOf(data, k);
    TrailingPaddingOf(data, 0);
    var t := data + Repeat('=', k);
    assert t[..|t| - k] == data;
    assert data + Repeat('=', 0) == data;
  }

  /** `+` and `/` are read as `-` and `_` are. */
  lemma StandardCharsDecode(utf8: seq<byte> -> string)
    ensures IsBodyText("+/8") && IsBodyText("-_8")
    ensures DecodeBase64Url("+/8", utf8) == DecodeBase64Url("-_8", utf8)
  {
    assert TrailingPadding("+/8") == 0 && "+/8"[..3] == "+/8";
    assert TrailingPadding("-_8") == 0 && "-_8"[..3] == "-_8";
    assert DecodeData("+/8") == DecodeData("-_8") by {
      assert SextetOf('+') == SextetOf('-') && SextetOf('/') == SextetOf('_');
    }
  }

  /** One group of three bytes survives encoding and decoding. */
  lemma QuantumRoundTrip(b0: byte, b1: byte, b2: byte)
    ensures b0 / 4 * 4 + (b0 % 4 * 16 + b1 / 16) / 16 == b0
    ensures (b0 % 4 * 16 + b1 / 16) % 16 * 16 + (b1 % 16 * 4 + b2 / 64) / 4 == b1
    ensures (b1 % 16 * 4 + b2 / 64) % 4 * 64 + b2 % 64 == b2
  {
  }

  /** Decoding is group by group: a full group of four characters decodes
      independently of what follows it. */
  lemma DecodeDataSplit(q: string, rest: string)
    requires |q| == 4 && IsDataText(q) && IsDataText(rest) && |rest| % 4 != 1
    ensures IsDataText(q + rest) && |q + rest| % 4 != 1
    ensures DecodeData(q + rest) == DecodeData(q) + DecodeData(rest)
  {
    var s := q + rest;
    assert s[..4] == q && s[4..] == rest;
    assert q[4..] == "";
  }

  /** Four characters decode to the three bytes their sextets spell. */
  lemma DecodeQuad(v0: sextet, v1: sextet, v2: sextet, v3: sextet)
    ensures DecodeData([CharOf(v0), CharOf(v1), CharOf(v2), CharOf(v3)]) ==
      [v0 * 4 + v1 / 16, v1 % 16 * 16 + v2 / 4, v2 % 4 * 64 + v3]
  {
    var s := [CharOf(v0), CharOf(v1), CharOf(v2), CharOf(v3)];
    assert s[4..] == [];
  }

  /** A full group of three bytes survives encoding and decoding. */
  lemma DecodeEncodeTriple(b: seq<byte>)
    requires |b| == 3
    ensures |Encode(b)| == 4 && DecodeData(Encode(b)) == b
  {
    var v0, v1 := b[0] / 4, b[0] % 4 * 16 + b[1] / 16;
    var v2, v3 := b[1] % 16 * 4 + b[2] / 64, b[2] % 64;
    assert b[3..] == [];
    assert Encode(b) == [CharOf(v0), CharOf(v1), CharOf(v2), CharOf(v3)] + Encode(b[3..]);
    DecodeQuad(v0, v1, v2, v3);
    QuantumRoundTrip(b[0], b[1], b[2]);
    assert b == [b[0], b[1], b[2]];
  }

  /** A final group of one or two bytes survives encoding and decoding. */
  lemma DecodeEncodeShort(b: seq<byte>)
    requires 1 <= |b| <= 2
    ensures |Encode(b)| % 4 != 1 && DecodeData(Encode(b)) == b
  {
    QuantumRoundTrip(b[0], if |b| == 2 then b[1] else 0, 0);
  }

  /** A final group of up to three bytes survives encoding and decoding. */
  lemma DecodeEncodeGroup(b: seq<byte>)
    requires 1 <= |b| <= 3
    ensures |Encode(b)| % 4 != 1 && DecodeData(Encode(b)) == b
  {
    if |b| == 3 {
      DecodeEncodeTriple(b);
    } else {
      DecodeEncodeShort(b);
    }
  }

  /** Encoding is group by group: the first three bytes give the first four
      characters whatever follows them. */
  lemma EncodeSplit(b: seq<byte>)
    requires |b| > 3
    ensures Encode(b) == Encode(b[..3]) + Encode(b[3..])
  {
    var head := b[..3];
    assert head[3..] == [] && head[0] == b[0] && head[1] == b[1] && head[2] == b[2];
  }

  /** Decoding the unpadded encoding of any byte sequence gives it back. */
  lemma {:induction false} DecodeEncode(b: seq<byte>)
    ensures |Encode(b)| % 4 != 1
    ensures DecodeData(Encode(b)) == b
    decreases |b|
  {
    if |b| == 0 {
    } else if |b| <= 3 {
      DecodeEncodeGroup(b);
    } else {
      var head, tail := b[..3], b[3..];
      EncodeSplit(b);
      DecodeEncodeGroup(head);
      DecodeEncode(tail);
      DecodeDataSplit(Encode(head), Encode(tail));
      assert b == head + tail;
    }
  }

  /** The source's decoder inverts the unpadded encoding: the text it returns
      is the UTF-8 decoding of the very bytes that were encoded. */
  lemma EncodedTextDecodes(b: seq<byte>, utf8: seq<byte> -> string)
    ensures IsBodyText(Encode(b)) && Unpadded(Encode(b)) == Encode(b)
    ensures DecodeBase64Url(Encode(b), utf8) == Ok(if b == [] then "" else utf8(b))
  {
    AlphabetTextUnpadded(Encode(b));
    DecodeEncode(b);
  }
}

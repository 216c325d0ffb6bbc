/** The chat side: choosing where a reply goes, the narrow link of a
    conversation, translating user ids through the team's id map, and the
    webhook's `respond`. Sending messages and fetching the id map are I/O
    and stay outside the model: their results are parameters. */
module Zulip {
  import opened Wrappers
  import opened Text
  import Handlers

  newtype byte = x: int | 0 <= x < 256

  /** The metadata of an incoming chat message. */
  datatype Message = Message(
    senderId: nat,
    senderEmail: string,
    recipientId: nat,
    senderShortName: string,
    senderFullName: string,
    streamId: Option<nat>,
    topic: Option<string>,
    messageType: string)

  /** An incoming webhook request: message text, metadata, shared token. */
  datatype Request = Request(data: string, message: Message, token: string)

  datatype Recipient = Stream(id: nat, topic: string) | Private(id: nat, email: string)

  datatype MessageApiRequest = MessageApiRequest(recipient: Recipient, content: string)

  /** The messages `reply` can answer without panicking: private ones, and
      stream ones that carry a topic. */
  predicate CanReply(m: Message)
  {
    m.messageType == "private" || (m.messageType == "stream" && m.topic.Some?)
  }

  /** Where `Message::reply` sends its answer. */
  function ReplyRecipient(m: Message): (r: Recipient)
    requires CanReply(m)
    ensures r.id == m.recipientId
    ensures r.Private? <==> m.messageType == "private"
    ensures r.Private? ==> r.email == m.senderEmail
    ensures r.Stream? ==> r.topic == m.topic.value
  {
    if m.messageType == "private" then Private(m.recipientId, m.senderEmail)
    else Stream(m.recipientId, m.topic.value)
  }

  // ---------------------------------------------------------------------
  // UTF-8, for `str::bytes`.

  /** The UTF-8 encoding of one Unicode scalar value. */
  function Utf8Char(c: char): (bs: seq<byte>)
    ensures 1 <= |bs| <= 4
    ensures (c as int) < 0x80 <==> |bs| == 1
    ensures (c as int) < 0x80 ==> bs[0] as int == c as int
    ensures |bs| > 1 ==> forall i :: 0 <= i < |bs| ==> bs[i] as int >= 0x80
  {
    var cp := c as int;
    if cp < 0x80 then [cp as byte]
    else if cp < 0x800 then [(0xC0 + cp / 64) as byte, (0x80 + cp % 64) as byte]
    else if cp < 0x10000 then
      [(0xE0 + cp / 4096) as byte, (0x80 + (cp / 64) % 64) as byte, (0x80 + cp % 64) as byte]
    else
      [(0xF0 + cp / 262144) as byte, (0x80 + (cp / 4096) % 64) as byte,
       (0x80 + (cp / 64) % 64) as byte, (0x80 + cp % 64) as byte]
  }

  /** `str::bytes`: the UTF-8 encoding of a string. */
  function Utf8(s: string): (bs: seq<byte>)
    ensures |bs| >= |s|
  {
    if |s| == 0 then [] else Utf8Char(s[0]) + Utf8(s[1..])
  }

  // ---------------------------------------------------------------------
  // The topic encoding of `Recipient::narrow`.

  /** The `ALWAYS_SAFE` set: ASCII letters, digits, `_`, `-` and `~`
      (Python's `urllib` safe set without `.`, which Zulip reserves for its
      escapes). */
  predicate IsSafeChar(c: char)
  {
    ('A' <= c <= 'Z') || ('a' <= c <= 'z') || ('0' <= c <= '9') || c == '_' || c == '-' || c == '~'
  }

  function AsChar(b: byte): char
  {
    (b as int) as char
  }

  predicate IsSafe(b: byte)
  {
    IsSafeChar(AsChar(b))
  }

  /** An uppercase hexadecimal digit, as `{:02X}` prints it. */
  function HexDigit(d: nat): (c: char)
    requires d < 16
  {
    if d < 10 then (('0' as int) + d) as char else (('A' as int) + d - 10) as char
  }

  predicate IsHexDigit(c: char)
  {
    ('0' <= c <= '9') || ('A' <= c <= 'F')
  }

  function HexValue(c: char): (d: nat)
    requires IsHexDigit(c)
    ensures d < 16
  {
    if '0' <= c <= '9' then (c as int) - ('0' as int) else (c as int) - ('A' as int) + 10
  }

  /** `%XX` with two uppercase hex digits. */
  function PercentEscape(b: byte): string
  {
    ['%', HexDigit(b as int / 16), HexDigit(b as int % 16)]
  }

  /** The first stage: safe bytes as themselves, every other byte as `%XX`.
      It never writes a `.`, which is what lets the second stage use `.` as
      the escape character. */
  function PercentEncode(bytes: seq<byte>): (r: string)
    ensures |r| == SafeCount(bytes) + 3 * (|bytes| - SafeCount(bytes))
    ensures '.' !in r
  {
    if |bytes| == 0 then ""
    else (if IsSafe(bytes[0]) then [AsChar(bytes[0])] else PercentEscape(bytes[0]))
         + PercentEncode(bytes[1..])
  }

  /** `str::replace("%", ".")`. */
  function ReplacePercent(s: string): (r: string)
    ensures |r| == |s|
    ensures forall i :: 0 <= i < |s| ==> r[i] == if s[i] == '%' then '.' else s[i]
  {
    seq(|s|, i requires 0 <= i < |s| => if s[i] == '%' then '.' else s[i])
  }

  /** The encoded topic of a stream narrow: the same as escaping every
      unsafe byte as `.XX` directly. */
  function EncodeTopic(bytes: seq<byte>): (r: string)
    ensures r == DotEncode(bytes)
  {
    EncodeTopicIsDotEncode(bytes);
    ReplacePercent(PercentEncode(bytes))
  }

  /** The encoding one byte contributes after the replacement. */
  function DotPiece(b: byte): (s: string)
  {
    if IsSafe(b) then [AsChar(b)] else ['.', HexDigit(b as int / 16), HexDigit(b as int % 16)]
  }

  function DotEncode(bytes: seq<byte>): string
  {
    if |bytes| == 0 then "" else DotPiece(bytes[0]) + DotEncode(bytes[1..])
  }

  function SafeCount(bytes: seq<byte>): (n: nat)
    ensures n <= |bytes|
  {
    if |bytes| == 0 then 0 else (if IsSafe(bytes[0]) then 1 else 0) + SafeCount(bytes[1..])
  }

  lemma {:induction false} ReplacePercentAppend(a: string, b: string)
    ensures ReplacePercent(a + b) == ReplacePercent(a) + ReplacePercent(b)
  {
  }

  /** Replacing `%` after escaping is the same as escaping with `.` directly,
      since no safe byte is `%`. */
  lemma {:induction false} EncodeTopicIsDotEncode(bytes: seq<byte>)
    ensures ReplacePercent(PercentEncode(bytes)) == DotEncode(bytes)
  {
    if |bytes| > 0 {
      var b := bytes[0];
      var head := if IsSafe(b) then [AsChar(b)] else PercentEscape(b);
      ReplacePercentAppend(head, PercentEncode(bytes[1..]));
      EncodeTopicIsDotEncode(bytes[1..]);
      if IsSafe(b) {
        assert ReplacePercent(head) == [AsChar(b)];
      } else {
        assert ReplacePercent(head)[0] == '.';
      }
    }
  }

  /** Every `.` of an encoding starts a three-character escape. */
  predicate DotsStartEscapes(s: string)
  {
    forall i :: 0 <= i < |s| && s[i] == '.' ==>
      i + 2 < |s| && IsHexDigit(s[i + 1]) && IsHexDigit(s[i + 2])
  }

  lemma {:induction false} DotEncodeLength(bytes: seq<byte>)
    ensures |DotEncode(bytes)| == SafeCount(bytes) + 3 * (|bytes| - SafeCount(bytes))
  {
    if |bytes| > 0 {
      DotEncodeLength(bytes[1..]);
    }
  }

  lemma {:induction false} DotEncodeNoPercent(bytes: seq<byte>)
    ensures '%' !in DotEncode(bytes)
  {
    if |bytes| > 0 {
      DotEncodeNoPercent(bytes[1..]);
      assert DotEncode(bytes) == DotPiece(bytes[0]) + DotEncode(bytes[1..]);
    }
  }

  lemma {:induction false} DotsStartEscapesAppend(p: string, rest: string)
    requires DotsStartEscapes(p) && DotsStartEscapes(rest)
    requires |p| > 0 && p[|p| - 1] != '.'
    requires |p| < 2 || p[|p| - 2] != '.'
    ensures DotsStartEscapes(p + rest)
  {
    forall i | 0 <= i < |p + rest| && (p + rest)[i] == '.'
      ensures i + 2 < |p + rest| && IsHexDigit((p + rest)[i + 1]) && IsHexDigit((p + rest)[i + 2])
    {
      if i >= |p| {
        assert (p + rest)[i] == rest[i - |p|];
        assert (p + rest)[i + 1] == rest[i + 1 - |p|];
        assert (p + rest)[i + 2] == rest[i + 2 - |p|];
      } else {
        assert p[i] == '.';
      }
    }
  }

  lemma {:induction false} DotEncodeEscapes(bytes: seq<byte>)
    ensures DotsStartEscapes(DotEncode(bytes))
  {
    if |bytes| > 0 {
      DotEncodeEscapes(bytes[1..]);
      var p := DotPiece(bytes[0]);
      HexRoundTrip(bytes[0] as int / 16);
      HexRoundTrip(bytes[0] as int % 16);
      assert DotsStartEscapes(p);
      DotsStartEscapesAppend(p, DotEncode(bytes[1..]));
    }
  }

  /** The encoded topic keeps each safe byte, turns every other byte into
      `.` and two uppercase hex digits, holds no `%`, and every `.` in it
      begins an escape. */
  lemma {:induction false} EncodeTopicShape(bytes: seq<byte>)
    ensures var e := EncodeTopic(bytes);
            && |e| == SafeCount(bytes) + 3 * (|bytes| - SafeCount(bytes))
            && '%' !in e
            && DotsStartEscapes(e)
  {
    EncodeTopicIsDotEncode(bytes);
    DotEncodeLength(bytes);
    DotEncodeNoPercent(bytes);
    DotEncodeEscapes(bytes);
  }

  /** Reads an encoded topic back into bytes; `None` for text no encoding
      produces. */
  function DecodeTopic(s: string): Option<seq<byte>>
  {
    if |s| == 0 then Some([])
    else if s[0] == '.' then
      if |s| >= 3 && IsHexDigit(s[1]) && IsHexDigit(s[2]) then
        match DecodeTopic(s[3..])
        case None => None
        case Some(rest) => Some([(16 * HexValue(s[1]) + HexValue(s[2])) as byte] + rest)
      else None
    else if (s[0] as int) < 256 && IsSafe((s[0] as int) as byte) then
      match DecodeTopic(s[1..])
      case None => None
      case Some(rest) => Some([(s[0] as int) as byte] + rest)
    else None
  }

  lemma {:induction false} HexRoundTrip(d: nat)
    requires d < 16
    ensures IsHexDigit(HexDigit(d)) && HexValue(HexDigit(d)) == d
  {
  }

  /** Decoding an encoded topic gives the topic's bytes back, so distinct
      topics get distinct narrows. */
  lemma {:induction false} DecodeEncodeTopic(bytes: seq<byte>)
    ensures DecodeTopic(EncodeTopic(bytes)) == Some(bytes)
  {
    EncodeTopicIsDotEncode(bytes);
    DecodeDotEncode(bytes);
  }

  lemma {:induction false} DecodeDotEncode(bytes: seq<byte>)
    ensures DecodeTopic(DotEncode(bytes)) == Some(bytes)
  {
    if |bytes| > 0 {
      var b := bytes[0];
      var p := DotPiece(b);
      var rest := DotEncode(bytes[1..]);
      var s := p + rest;
      assert DotEncode(bytes) == s;
      DecodeDotEncode(bytes[1..]);
      if IsSafe(b) {
        assert s[0] == AsChar(b) && s[1..] == rest;
        assert (s[0] as int) as byte == b;
      } else {
        HexRoundTrip(b as int / 16);
        HexRoundTrip(b as int % 16);
        assert s[0] == '.' && s[1] == HexDigit(b as int / 16) && s[2] == HexDigit(b as int % 16);
        assert s[3..] == rest;
        assert (16 * HexValue(s[1]) + HexValue(s[2])) as byte == b;
      }
      assert [b] + bytes[1..] == bytes;
    }
  }

  // ---------------------------------------------------------------------
  // Narrow links.

  const NARROW_BASE: string := "https://rust-lang.zulipchat.com/#narrow/"

  /** `Recipient::narrow`. A stream narrow ends in the topic's bytes with
      every unsafe byte escaped as `.XX`, and that tail decodes back to the
      topic's bytes. */
  function Narrow(r: Recipient): (n: string)
    ensures r.Stream? ==>
              var e := DotEncode(Utf8(r.topic));
              && n == "stream/" + NatToDecimal(r.id) + "-xxx/topic/" + e
              && DecodeTopic(n[|n| - |e|..]) == Some(Utf8(r.topic))
    ensures r.Private? ==> n == "pm-with/" + NatToDecimal(r.id) + "-xxx"
  {
    match r
    case Stream(id, topic) =>
      var e := EncodeTopic(Utf8(topic));
      var n := "stream/" + NatToDecimal(id) + "-xxx/topic/" + e;
      DecodeDotEncode(Utf8(topic));
      assert n[|n| - |e|..] == e;
      n
    case Private(id, _) => "pm-with/" + NatToDecimal(id) + "-xxx"
  }

  /** A reply goes back to the conversation it answers: a private reply's
      narrow names the message's recipient, and a stream reply's narrow
      names it and ends in a tail that decodes to the message's topic. */
  lemma {:induction false} ReplyLeadsBack(m: Message)
    requires CanReply(m)
    ensures var n := Narrow(ReplyRecipient(m));
            && (m.messageType == "private" ==> n == "pm-with/" + NatToDecimal(m.recipientId) + "-xxx")
            && (m.messageType != "private" ==>
                  var e := DotEncode(Utf8(m.topic.value));
                  && n == "stream/" + NatToDecimal(m.recipientId) + "-xxx/topic/" + e
                  && DecodeTopic(n[|n| - |e|..]) == Some(Utf8(m.topic.value)))
  {
  }

  /** `MessageApiRequest::url`: the narrow under the organisation's base URL.
      A stream link ends in the escaped topic, which decodes back to the
      topic's bytes. */
  function Url(req: MessageApiRequest): (u: string)
    ensures |u| > |NARROW_BASE| && u[..|NARROW_BASE|] == NARROW_BASE
    ensures req.recipient.Stream? ==>
              var e := DotEncode(Utf8(req.recipient.topic));
              && u == NARROW_BASE + "stream/" + NatToDecimal(req.recipient.id) + "-xxx/topic/" + e
              && DecodeTopic(u[|u| - |e|..]) == Some(Utf8(req.recipient.topic))
    ensures req.recipient.Private? ==>
              u == NARROW_BASE + "pm-with/" + NatToDecimal(req.recipient.id) + "-xxx"
  {
    var narrow := Narrow(req.recipient);
    var d := NatToDecimal(req.recipient.id);
    if req.recipient.Stream? then
      var e := DotEncode(Utf8(req.recipient.topic));
      TailAfterHeader(NARROW_BASE, narrow, |e|);
      Regroup4(NARROW_BASE, "stream/", d, "-xxx/topic/", e);
      NARROW_BASE + narrow
    else
      TailAfterHeader(NARROW_BASE, narrow, 0);
      Regroup3(NARROW_BASE, "pm-with/", d, "-xxx");
      NARROW_BASE + narrow
  }

  /** An ASCII topic made only of safe characters appears in the link
      unchanged. */
  lemma {:induction false} SafeTopicUnchanged(topic: string)
    requires forall i :: 0 <= i < |topic| ==> IsSafeChar(topic[i])
    ensures EncodeTopic(Utf8(topic)) == topic
  {
    EncodeTopicIsDotEncode(Utf8(topic));
    SafeTopicUnchangedDot(topic);
  }

  lemma {:induction false} SafeTopicUnchangedDot(topic: string)
    requires forall i :: 0 <= i < |topic| ==> IsSafeChar(topic[i])
    ensures DotEncode(Utf8(topic)) == topic
  {
    if |topic| > 0 {
      var c := topic[0];
      assert IsSafeChar(c);
      var b := Utf8Char(c)[0];
      assert Utf8(topic) == [b] + Utf8(topic[1..]);
      assert AsChar(b) == c;
      SafeTopicUnchangedDot(topic[1..]);
      assert DotEncode(Utf8(topic)) == [c] + DotEncode(Utf8(topic[1..]));
      assert topic == [c] + topic[1..];
    }
  }

  // ---------------------------------------------------------------------
  // The chat-to-code-hosting id map.

  /** The team's id map, as the entries (chat id, code-hosting id) of the
      `HashMap` in its iteration order, which the source does not fix. */
  datatype IdMap = IdMap(users: seq<(nat, nat)>)

  const TWO_64: int := 0x1_0000_0000_0000_0000
  const TWO_63: int := 0x8000_0000_0000_0000

  /** `v as i64` for a `usize`: two's-complement wrap-around above `i64::MAX`. */
  function AsI64(v: nat): int
  {
    var w := v % TWO_64;
    if w < TWO_63 then w else w - TWO_64
  }

  /** `g as usize` for an `i64`: negative values wrap around to the top. */
  function AsUsize(g: int): nat
  {
    g % TWO_64
  }

  /** `to_github_id`: the entry for the chat id, converted to `i64`. */
  function ToGithubId(m: IdMap, zulipId: nat): (r: Option<int>)
    decreases |m.users|
    ensures r.Some? <==> exists i :: 0 <= i < |m.users| && m.users[i].0 == zulipId
    ensures r.Some? ==> exists i :: 0 <= i < |m.users| && m.users[i].0 == zulipId
                                    && r.value == AsI64(m.users[i].1)
  {
    if |m.users| == 0 then None
    else if m.users[0].0 == zulipId then Some(AsI64(m.users[0].1))
    else
      var r := ToGithubId(IdMap(m.users[1..]), zulipId);
      assert r.Some? ==> exists i :: 0 <= i < |m.users[1..]| && m.users[1..][i].0 == zulipId
                                     && r.value == AsI64(m.users[1..][i].1);
      r
  }

  /** `to_zulip_id`: the key of the first entry, in iteration order, whose
      value is the code-hosting id converted to `usize`. */
  function ToZulipId(m: IdMap, githubId: int): (r: Option<nat>)
    decreases |m.users|
    ensures r.None? <==> forall i :: 0 <= i < |m.users| ==> m.users[i].1 != AsUsize(githubId)
    ensures r.Some? ==> exists i :: 0 <= i < |m.users| && m.users[i] == (r.value, AsUsize(githubId))
                                    && forall j :: 0 <= j < i ==> m.users[j].1 != AsUsize(githubId)
  {
    if |m.users| == 0 then None
    else if m.users[0].1 == AsUsize(githubId) then Some(m.users[0].0)
    else
      var r := ToZulipId(IdMap(m.users[1..]), githubId);
      if r.Some? then
        var i :| 0 <= i < |m.users[1..]| && m.users[1..][i] == (r.value, AsUsize(githubId))
                 && forall j :: 0 <= j < i ==> m.users[1..][j].1 != AsUsize(githubId);
        assert m.users[i + 1] == (r.value, AsUsize(githubId));
        r
      else r
  }

  /** Converting a `usize` to `i64` and back is the identity. */
  lemma {:induction false} CastRoundTrip(v: nat)
    requires v <= USIZE_MAX
    ensures AsUsize(AsI64(v)) == v
  {
    assert v % TWO_64 == v;
    if v >= TWO_63 {
      assert (v - TWO_64) % TWO_64 == v;
    }
  }

  /** A map as the team data holds it: `usize` values and no repeated key. */
  predicate WellFormed(m: IdMap)
  {
    && (forall i :: 0 <= i < |m.users| ==> m.users[i].1 <= USIZE_MAX)
    && (forall i, j :: 0 <= i < j < |m.users| ==> m.users[i].0 != m.users[j].0)
  }

  /** i64 → usize → i64 is the identity on every 64-bit signed value. */
  lemma {:induction false} SignedCastRoundTrip(g: int)
    requires -TWO_63 <= g < TWO_63
    ensures AsI64(AsUsize(g)) == g
  {
    if g < 0 {
      assert g % TWO_64 == g + TWO_64;
    } else {
      assert g % TWO_64 == g;
    }
  }

  /** With unique chat ids, `to_github_id` undoes `to_zulip_id` for every
      64-bit signed GitHub id: the chat id found for it maps back to it. */
  lemma {:induction false} ReverseLookupRoundTrip(m: IdMap, githubId: int)
    requires WellFormed(m)
    requires -TWO_63 <= githubId < TWO_63
    requires ToZulipId(m, githubId).Some?
    ensures ToGithubId(m, ToZulipId(m, githubId).value) == Some(githubId)
  {
    var z := ToZulipId(m, githubId).value;
    var k :| 0 <= k < |m.users| && m.users[k] == (z, AsUsize(githubId))
             && forall j :: 0 <= j < k ==> m.users[j].1 != AsUsize(githubId);
    var r := ToGithubId(m, z);
    assert r.Some?;
    var i :| 0 <= i < |m.users| && m.users[i].0 == z && r.value == AsI64(m.users[i].1);
    assert i == k;
    SignedCastRoundTrip(githubId);
  }

  /** Looking a chat user up and back again returns the same chat user when
      no code-hosting id is shared by two entries. */
  lemma {:induction false} LookupRoundTrip(m: IdMap, zulipId: nat)
    requires WellFormed(m)
    requires forall i, j :: 0 <= i < j < |m.users| ==> m.users[i].1 != m.users[j].1
    requires ToGithubId(m, zulipId).Some?
    ensures ToZulipId(m, ToGithubId(m, zulipId).value) == Some(zulipId)
  {
    var g := ToGithubId(m, zulipId).value;
    var i :| 0 <= i < |m.users| && m.users[i].0 == zulipId && g == AsI64(m.users[i].1);
    CastRoundTrip(m.users[i].1);
    var r := ToZulipId(m, g);
    var k :| 0 <= k < |m.users| && m.users[k] == (r.value, AsUsize(g))
             && forall j :: 0 <= j < k ==> m.users[j].1 != AsUsize(g);
    assert m.users[k].1 == m.users[i].1;
    assert k == i;
  }

  // ---------------------------------------------------------------------
  // The webhook.

  /** What `respond` sends back: a JSON `content` (serialisation left
      out), or the empty body on success; or no answer at all, when the
      request panics. */
  datatype HookReply = Content(text: string) | Empty | Panic

  /** `respond`: a wrong token is refused before any handler is consulted;
      otherwise chat dispatch runs and its outcome becomes the reply: a
      message verbatim, a fixed notice for an internal error, nothing on
      success. The token comparison, `openssl::memcmp::eq` over the tokens'
      UTF-8 bytes, panics when the two differ in byte length. */
  function Respond(req: Request, expectedToken: string, hs: seq<Handlers.ZulipHandler>)
    : (r: (HookReply, seq<Handlers.Call>))
    requires Handlers.RegisteredZulip(hs)
    ensures |Utf8(req.token)| != |Utf8(expectedToken)| ==> r == (Panic, [])
    ensures |Utf8(req.token)| == |Utf8(expectedToken)| && req.token != expectedToken
            ==> r == (Content("Invalid authorization."), [])
    ensures req.token == expectedToken ==> r.1 == Handlers.HandleZulip(hs).calls
    ensures req.token == expectedToken ==>
              (r.0 == Empty <==> forall i :: 0 <= i < |hs| ==> Handlers.ZulipStep(hs[i]).Continue?)
    ensures req.token == expectedToken && Handlers.HandleZulip(hs).result.Err? ==>
              r.0 == Content(match Handlers.HandleZulip(hs).result.error
                             case Message(m) => m
                             case Other(_) => "handling failed, error logged")
  {
    if |Utf8(req.token)| != |Utf8(expectedToken)| then (Panic, [])
    else if req.token != expectedToken then (Content("Invalid authorization."), [])
    else
      var d := Handlers.HandleZulip(hs);
      match d.result
      case Err(Message(m)) => (Content(m), d.calls)
      case Err(Other(_)) => (Content("handling failed, error logged"), d.calls)
      case Ok(_) => (Empty, d.calls)
  }

  /** With the right token, the reply is what the first handler to return
      early reported (its message, or the fixed notice for an internal
      error), and the empty body when none does; the calls are those of the
      handlers up to it. */
  lemma {:induction false} RespondReportsFirstAbort(req: Request, expectedToken: string,
                                                    hs: seq<Handlers.ZulipHandler>)
    requires Handlers.RegisteredZulip(hs) && req.token == expectedToken
    ensures var steps := Handlers.ZulipSteps(hs);
            var k := Handlers.FirstAbort(steps);
            var r := Respond(req, expectedToken, hs);
            && (k == |steps| ==> r.0 == Empty)
            && (k < |steps| ==> r.0 == Content(match steps[k].error
                                               case Message(m) => m
                                               case Other(_) => "handling failed, error logged"))
            && r.1 == Handlers.Flatten(steps[..if k < |steps| then k + 1 else k])
  {
    Handlers.RunMeaning(Handlers.ZulipSteps(hs));
  }

  /** Lengths are counted in UTF-8 bytes: "é" has as many bytes as "ab", so
      it is refused rather than making the comparison panic. */
  lemma {:induction false} RespondCountsBytes(req: Request, hs: seq<Handlers.ZulipHandler>)
    requires Handlers.RegisteredZulip(hs) && req.token == "\U{e9}"
    ensures Respond(req, "ab", hs) == (Content("Invalid authorization."), [])
  {
    assert Utf8(req.token) == Utf8Char('\U{e9}') + Utf8([]);
  }
}

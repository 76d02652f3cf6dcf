/**
 * The controller's handling of one inbound WebSocket text message: the
 * received bytes become a string, messages that are not Socket.IO events
 * are ignored, an event without a JSON array payload (or with a `null` in
 * it) gets the fixed manual-driving reply, and any other event hands its
 * extracted payload to the JSON handler.
 *
 * A Socket.IO event travels as the Engine.IO packet type 4 ("message")
 * carrying the Socket.IO packet type 2 ("EVENT"), hence the `42` prefix.
 */
module MessageDispatch {
  import opened CppString

  /** The token whose presence anywhere in a message means "no data". */
  const NULL_TOKEN: string := "null"

  /** The reply sent for an event that carries no data. */
  const MANUAL_REPLY: string := "42[\"manual\",{}]"

  /** What the handler does with one inbound message. */
  datatype Classified =
    | Ignore                  // not a Socket.IO event: no reply at all
    | Manual                  // an event without data: reply MANUAL_REPLY
    | Payload(json: string)   // an event with data: hand the payload to the JSON handler

  /** `c` first occurs in `s` at index `i`. */
  predicate FirstAt(s: string, c: char, i: nat)
  {
    i < |s| && s[i] == c && forall j :: 0 <= j < i ==> s[j] != c
  }

  /** `c` last occurs in `s` at index `i`. */
  predicate LastAt(s: string, c: char, i: nat)
  {
    i < |s| && s[i] == c && forall j :: i < j < |s| ==> s[j] != c
  }

  /**
   * `std::string(data).substr(0, length)`: the C string in the receive
   * buffer (everything before its first NUL), cut to at most `length`
   * characters.
   */
  function ReceivedText(data: string, length: nat): (sdata: string)
    requires |data| < NPOS && '\0' in data
    ensures sdata <= data
    ensures '\0' !in sdata
    ensures |sdata| == length || (|sdata| < length && data[|sdata|] == '\0')
  {
    var cstr := data[..FindFirstOf(data, "\0")];
    Substr(cstr, 0, length)
  }

  /**
   * `hasData`: the text from the first `[` to the last `]` of a message, or
   * the empty string when the message mentions `null` or lacks either
   * bracket. The span's length `b2 - b1 + 1` is computed in size_t and the
   * substring is clamped to the end of the message, as the C++ does.
   */
  function HasData(s: string): (r: string)
    requires |s| < NPOS
    ensures |r| <= |s| && Contains(s, r)
    ensures !Contains(r, NULL_TOKEN)
    ensures Contains(s, NULL_TOKEN) ==> r == ""
    ensures r != "" ==> r[0] == '['
  {
    var foundNull := Find(s, NULL_TOKEN);
    var b1 := FindFirstOf(s, "[");
    var b2 := FindLastOf(s, "]");
    ContainsEmpty(s);
    if foundNull != NPOS then ""
    else if b1 != NPOS && b2 != NPOS then
      var r := Substr(s, b1, SizeT(SizeT(b2 - b1) + 1));
      ContainsTransitive(s, r, NULL_TOKEN);
      r
    else ""
  }

  /**
   * Without `null`, the result is fixed by the first `[` (at `b1`) and the
   * last `]` (at `b2`): the bracketed span when they are in order; when the
   * `]` comes first the unsigned length wraps around, so the substring is
   * empty if the two are adjacent and otherwise runs to the end of the text.
   */
  lemma HasDataSpan(s: string, b1: nat, b2: nat)
    requires |s| < NPOS && !Contains(s, NULL_TOKEN)
    requires FirstAt(s, '[', b1) && LastAt(s, ']', b2)
    ensures b1 <= b2 ==>
      var r := HasData(s);
      r == s[b1..b2 + 1] && |r| == b2 - b1 + 1 && r[0] == '[' && r[|r| - 1] == ']'
    ensures b1 == b2 + 1 ==> HasData(s) == ""
    ensures b1 > b2 + 1 ==> HasData(s) == s[b1..]
  {
    var count := SizeT(SizeT(b2 - b1) + 1);
    HasDataLocates(s, b1, b2);
    if b1 <= b2 {
      assert count == b2 - b1 + 1;
    } else if b1 == b2 + 1 {
      assert SizeT(b2 - b1) == NPOS;
      assert count == 0;
    } else {
      assert SizeT(b2 - b1) == SIZE_MODULUS + b2 - b1;
      assert count == SIZE_MODULUS + b2 - b1 + 1;
      assert Min(count, |s| - b1) == |s| - b1;
    }
  }

  /**
   * Without `null`, the extractor takes the substring at the first `[` with
   * the size_t length computed from the first `[` and the last `]`.
   */
  lemma HasDataLocates(s: string, b1: nat, b2: nat)
    requires |s| < NPOS && !Contains(s, NULL_TOKEN)
    requires FirstAt(s, '[', b1) && LastAt(s, ']', b2)
    ensures HasData(s) == Substr(s, b1, SizeT(SizeT(b2 - b1) + 1))
  {
    assert Find(s, NULL_TOKEN) == NPOS;
    assert FindFirstOf(s, "[") == b1;
    assert FindLastOf(s, "]") == b2;
  }

  /** A message lacking either bracket carries no data. */
  lemma HasDataWithoutBrackets(s: string)
    requires |s| < NPOS
    requires '[' !in s || ']' !in s
    ensures HasData(s) == ""
  {
    if '[' !in s {
      assert FindFirstOf(s, "[") == NPOS;
    } else {
      assert FindLastOf(s, "]") == NPOS;
    }
  }

  /**
   * Extracting twice gives back the first extraction exactly when it still
   * holds a `]`, that is, when the brackets were in order; a span produced
   * by the wrap-around has no `]` and extracts to nothing.
   */
  lemma HasDataTwice(s: string)
    requires |s| < NPOS
    ensures var r := HasData(s); HasData(r) == if ']' in r then r else ""
  {
    var r := HasData(s);
    if r == "" {
      HasDataWithoutBrackets(r);
    } else {
      var b1 := FindFirstOf(s, "[");
      var b2 := FindLastOf(s, "]");
      assert b1 != NPOS && b2 != NPOS;
      HasDataSpan(s, b1, b2);
      if b1 <= b2 {
        assert ']' in r by { assert r[|r| - 1] == ']'; }
        HasDataSpan(r, 0, |r| - 1);
      } else {
        assert r == s[b1..];
        assert ']' !in r;
        HasDataWithoutBrackets(r);
      }
    }
  }

  /** A Socket.IO event: longer than two characters and starting with `42`. */
  predicate IsEventFrame(sdata: string)
  {
    |sdata| > 2 && sdata[0] == '4' && sdata[1] == '2'
  }

  /**
   * The dispatch of one received message: non-events are ignored, events
   * without data get the manual reply, and the payload of any other event
   * is a `null`-free span starting with `[` that lies after the `42` prefix.
   */
  function Classify(sdata: string): (c: Classified)
    requires |sdata| < NPOS
    ensures c == Ignore <==> !IsEventFrame(sdata)
    ensures c == Manual <==> IsEventFrame(sdata) && HasData(sdata) == ""
    ensures c.Payload? ==> c.json == HasData(sdata) && c.json != "" && c.json[0] == '['
    ensures c.Payload? ==> !Contains(c.json, NULL_TOKEN)
    ensures c.Payload? ==> exists i: nat :: 2 <= i && OccursAt(sdata, c.json, i)
  {
    if |sdata| > 2 && sdata[0] == '4' && sdata[1] == '2' then
      var s := HasData(sdata);
      if s != "" then
        PayloadFollowsPrefix(sdata, s);
        Payload(s)
      else Manual
    else Ignore
  }

  /** A span starting with `[` cannot overlap a `42` prefix. */
  lemma PayloadFollowsPrefix(sdata: string, s: string)
    requires IsEventFrame(sdata) && s != [] && s[0] == '[' && Contains(sdata, s)
    ensures exists i: nat :: 2 <= i && OccursAt(sdata, s, i)
  {
    var i: nat :| OccursAt(sdata, s, i);
    assert sdata[i] == sdata[i..i + |s|][0] == '[';
  }

  /**
   * The replies sent for one received message. What the JSON handler
   * answers to a payload is outside this model and given as `handleJson`.
   */
  function Respond(sdata: string, handleJson: string -> seq<string>): (out: seq<string>)
    requires |sdata| < NPOS
    ensures !IsEventFrame(sdata) ==> out == []
    ensures IsEventFrame(sdata) && HasData(sdata) == "" ==> out == [MANUAL_REPLY]
    ensures IsEventFrame(sdata) && HasData(sdata) != "" ==> out == handleJson(HasData(sdata))
  {
    match Classify(sdata)
    case Ignore => []
    case Manual => [MANUAL_REPLY]
    case Payload(json) => handleJson(json)
  }

  /** The Socket.IO event packet `["<event>",<body>]`. */
  function EventPacket(event: string, body: string): string
  {
    "[\"" + event + "\"," + body + "]"
  }

  /** The outbound framing of a Socket.IO event: `42["<event>",<body>]`. */
  function EventFrame(event: string, body: string): string
  {
    "42" + EventPacket(event, body)
  }

  /** Framing a name and a body that lack `null` does not introduce one. */
  lemma EventFrameAvoidsNull(event: string, body: string)
    requires !Contains(event, NULL_TOKEN) && !Contains(body, NULL_TOKEN)
    ensures !Contains(EventFrame(event, body), NULL_TOKEN)
  {
    LacksFirstChar("42[", NULL_TOKEN);
    LacksFirstChar("", NULL_TOKEN);
    var a1 := "42[" + ['"'] + event;
    JoinAvoids("42[", '"', event, NULL_TOKEN);
    var a2 := a1 + ['"'] + "";
    JoinAvoids(a1, '"', "", NULL_TOKEN);
    var a3 := a2 + [','] + body;
    JoinAvoids(a2, ',', body, NULL_TOKEN);
    JoinAvoids(a3, ']', "", NULL_TOKEN);
    assert EventFrame(event, body) == a3 + [']'] + "";
  }

  /**
   * An event frame whose name and body do not mention `null` is classified
   * as a payload, and the payload is the frame without its `42` prefix: the
   * handler's own extractor recovers what the framing wrapped.
   */
  lemma EventFrameRoundTrip(event: string, body: string)
    requires |EventFrame(event, body)| < NPOS
    requires !Contains(event, NULL_TOKEN) && !Contains(body, NULL_TOKEN)
    ensures Classify(EventFrame(event, body)) == Payload(EventPacket(event, body))
  {
    var m := EventFrame(event, body);
    EventFrameAvoidsNull(event, body);
    EventFrameBrackets(event, body);
    HasDataSpan(m, 2, |m| - 1);
  }

  /** Where the brackets of an event frame sit, whatever its name and body hold. */
  lemma EventFrameBrackets(event: string, body: string)
    ensures var m := EventFrame(event, body);
      && IsEventFrame(m)
      && FirstAt(m, '[', 2) && LastAt(m, ']', |m| - 1)
      && m[2..] == EventPacket(event, body)
  {
    var m := EventFrame(event, body);
    assert m[0] == '4' && m[1] == '2' && m[2] == '[' && m[|m| - 1] == ']';
  }

  /** The event name of the manual reply does not mention `null`. */
  lemma ManualNameAvoidsNull()
    ensures !Contains("manual", NULL_TOKEN)
  {
    var name := "manual";
    forall i: nat
      ensures !OccursAt(name, NULL_TOKEN, i)
    {
      if i + 4 <= |name| {
        assert name[i..i + 4][2] == name[i + 2] != 'l';
      }
    }
  }

  /** The manual reply is the event frame of `manual` with body `{}`. */
  lemma ManualReplyIsFrame()
    ensures MANUAL_REPLY == EventFrame("manual", "{}")
  {
  }

  /** The manual reply is itself a well-formed event whose payload is `["manual",{}]`. */
  lemma ManualReplyRoundTrip()
    ensures Classify(MANUAL_REPLY) == Payload(EventPacket("manual", "{}"))
  {
    ManualReplyIsFrame();
    ManualNameAvoidsNull();
    LacksFirstChar("{}", NULL_TOKEN);
    EventFrameRoundTrip("manual", "{}");
  }

  /**
   * The steering command frame `42["steer",<json>]` built from a JSON
   * document without `null` is recognised as an event carrying
   * `["steer",<json>]`.
   */
  lemma SteerFrameRoundTrip(json: string)
    requires |EventFrame("steer", json)| < NPOS
    requires !Contains(json, NULL_TOKEN)
    ensures Classify(EventFrame("steer", json)) == Payload(EventPacket("steer", json))
  {
    LacksFirstChar("steer", NULL_TOKEN);
    EventFrameRoundTrip("steer", json);
  }
}

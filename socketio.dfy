/** Socket.IO framing around the controller: extraction of the JSON payload
    from a raw frame (`hasData`), the test that a frame is an event, and the
    two replies the message handler can send. */
module SocketIo {
  import opened StdString

  /** The character `c` first occurs in `s` at position `i`. */
  predicate IsFirst(s: string, c: char, i: nat)
  {
    i < |s| && s[i] == c && forall k: nat :: k < i ==> s[k] != c
  }

  /** `pat` last occurs in `s` at position `i`. */
  ghost predicate IsLast(s: string, pat: string, i: nat)
  {
    OccursAt(s, pat, i) && forall k: nat :: i < k ==> !OccursAt(s, pat, k)
  }

  /** `pat` occurs somewhere in `s`. */
  ghost predicate Contains(s: string, pat: string)
  {
    exists k: nat :: OccursAt(s, pat, k)
  }

  /** `hasData`: the JSON text carried by an event frame, or "" when there is
      none. Any occurrence of "null" means no data; otherwise the text runs
      from the first '[' through the end of the last "}]", its length being
      computed in unsigned `size_t` arithmetic and then clamped by `substr`. */
  function HasData(s: string): (r: string)
    ensures |r| <= |s|
    ensures r != "" ==> r[0] == '['
  {
    var foundNull := Find(s, "null");
    var b1 := FindFirstOf(s, "[");
    var b2 := RFind(s, "}]");
    if foundNull.At? then ""
    else if b1.At? && b2.At? then Substr(s, b1.index, SizeT(b2.index - b1.index + 2))
    else ""
  }

  /** A "null" anywhere in the frame means no data, whatever else it holds. */
  lemma HasDataNullMeansEmpty(s: string)
    requires Contains(s, "null")
    ensures HasData(s) == ""
  {
  }

  /** Without "null", a frame lacking a '[' or lacking a "}]" has no data. */
  lemma HasDataMissingDelimiterMeansEmpty(s: string)
    requires !Contains(s, "null")
    requires '[' !in s || !Contains(s, "}]")
    ensures HasData(s) == ""
  {
  }

  /** Without "null", when the first '[' precedes the last "}]", the data is
      exactly the text from that '[' through the end of that "}]". */
  lemma HasDataExtractsArray(s: string, b1: nat, b2: nat)
    requires |s| < SIZE_RANGE
    requires !Contains(s, "null")
    requires IsFirst(s, '[', b1) && IsLast(s, "}]", b2)
    requires b1 < b2
    ensures HasData(s) == s[b1..b2 + 2]
    ensures |HasData(s)| == b2 - b1 + 2
    ensures HasData(s)[0] == '[' && HasData(s)[|HasData(s)| - 2..] == "}]"
  {
    FindFirstOfIsFirst(s, '[', b1);
    RFindIsLast(s, "}]", b2);
    assert Find(s, "null") == NPos;
    assert SizeT(b2 - b1 + 2) == b2 - b1 + 2;
    assert HasData(s) == s[b1..b2 + 2];
    assert s[b2..b2 + 2] == "}]";
  }

  /** Without "null", when the first '[' comes after the last "}]", the
      length `b2 - b1 + 2` wraps around in `size_t`: the data is then the whole
      suffix from that '[', or "" when the '[' directly follows the "}]". */
  lemma HasDataWrapsToSuffix(s: string, b1: nat, b2: nat)
    requires |s| < SIZE_RANGE
    requires !Contains(s, "null")
    requires IsFirst(s, '[', b1) && IsLast(s, "}]", b2)
    requires b2 < b1
    ensures b2 + 2 <= b1
    ensures HasData(s) == if b1 == b2 + 2 then "" else s[b1..]
  {
    FindFirstOfIsFirst(s, '[', b1);
    RFindIsLast(s, "}]", b2);
    assert Find(s, "null") == NPos;
    assert s[b2 + 1] == ']' by {
      assert s[b2..b2 + 2] == "}]";
    }
    var count := SizeT(b2 - b1 + 2);
    assert HasData(s) == Substr(s, b1, count);
    if b1 != b2 + 2 {
      assert count == b2 - b1 + 2 + SIZE_RANGE;
      assert |s| - b1 <= count;
    }
  }

  /** Whatever the frame, the data is one contiguous piece of it. */
  lemma HasDataIsSlice(s: string)
    ensures exists i: nat, j: nat :: i <= j <= |s| && HasData(s) == s[i..j]
  {
    var r := HasData(s);
    if r == "" {
      assert r == s[0..0];
    } else {
      var b1 := FindFirstOf(s, "[").index;
      assert r == s[b1..b1 + |r|];
    }
  }

  /** The `c` that `find_first_of` finds is the first `c` that `IsFirst` names. */
  lemma FindFirstOfIsFirst(s: string, c: char, i: nat)
    requires IsFirst(s, c, i)
    ensures FindFirstOf(s, [c]) == At(i)
  {
    assert s[i] in [c];
  }

  /** The occurrence that `rfind` finds is the last one that `IsLast` names. */
  lemma RFindIsLast(s: string, pat: string, i: nat)
    requires IsLast(s, pat, i)
    ensures RFind(s, pat) == At(i)
  {
  }

  /** A frame is a Socket.IO event message when it is longer than two
      characters and begins with "42" (4: message, 2: event). */
  predicate IsEventFrame(sdata: string)
  {
    |sdata| > 2 && sdata[0] == '4' && sdata[1] == '2'
  }

  /** The fixed reply to an event frame without data: switch to manual driving. */
  const MANUAL_REPLY: string := "42[\"manual\",{}]"

  /** What precedes the serialised control message in a steer reply. */
  const STEER_PREFIX: string := "42[\"steer\","

  /** The steer reply wrapping the serialised control message `body`. */
  function SteerReply(body: string): (r: string)
    ensures IsEventFrame(r)
    ensures |r| == |STEER_PREFIX| + |body| + 1
  {
    STEER_PREFIX + body + "]"
  }

  /** Recognises a steer reply and recovers the serialised message it carries. */
  datatype ParsedReply = NotSteer | Steer(body: string)

  function ParseSteerReply(frame: string): (r: ParsedReply)
    ensures r.Steer? ==> |r.body| + |STEER_PREFIX| + 1 == |frame|
    ensures r.Steer? ==> frame == SteerReply(r.body)
  {
    if |frame| > |STEER_PREFIX| && frame[..|STEER_PREFIX|] == STEER_PREFIX && frame[|frame| - 1] == ']'
    then Steer(frame[|STEER_PREFIX|..|frame| - 1])
    else NotSteer
  }

  /** A steer reply gives back exactly the message it wraps. */
  lemma SteerReplyRoundTrip(body: string)
    ensures ParseSteerReply(SteerReply(body)) == Steer(body)
  {
  }

  /** The manual reply is never mistaken for a steer reply. */
  lemma ManualReplyIsNotSteer()
    ensures ParseSteerReply(MANUAL_REPLY) == NotSteer
  {
    assert MANUAL_REPLY[4] != STEER_PREFIX[4];
  }

  /** Wrapping a message without "null" introduces none: the prefix holds no
      'n' and the closing ']' is not an 'l'. */
  lemma SteerReplyHasNoNull(body: string)
    requires !Contains(body, "null")
    ensures !Contains(SteerReply(body), "null")
  {
    var m := SteerReply(body);
    var n := |STEER_PREFIX|;
    forall k: nat
      ensures !OccursAt(m, "null", k)
    {
      if k < n {
        assert m[k] == STEER_PREFIX[k];
        assert STEER_PREFIX[k] != 'n';
      } else if k + 4 <= n + |body| {
        assert m[k..k + 4] == (STEER_PREFIX + body)[k..k + 4] == body[k - n..k - n + 4];
        assert !OccursAt(body, "null", k - n);
      } else if k + 4 <= |m| {
        assert m[k + 3] == m[|m| - 1] == ']';
      }
    }
  }

  /** A steer reply whose message is a JSON object without "null" passes the
      controller's own extraction rule, which yields the event array
      `["steer", body]`. */
  lemma HasDataOfSteerReply(body: string)
    requires |body| < SIZE_RANGE - |STEER_PREFIX| - 1
    requires body != [] && body[|body| - 1] == '}'
    requires !Contains(body, "null")
    ensures HasData(SteerReply(body)) == SteerReply(body)[2..]
  {
    var m := SteerReply(body);
    SteerReplyHasNoNull(body);
    assert IsFirst(m, '[', 2);
    assert m[|m| - 2..] == "}]";
    assert IsLast(m, "}]", |m| - 2);
    HasDataExtractsArray(m, 2, |m| - 2);
  }

  /** What the message handler does with a frame. */
  datatype Reply = Silent | Send(frame: string)

  /** The message handler's framing and dispatch. `eventOf` names the event of
      a JSON payload (element 0 of the parsed array) and `steerBody` is the
      serialised control message the telemetry pipeline builds from it; both
      belong to the JSON library and the controller, outside this model. */
  function OnMessage(sdata: string, eventOf: string -> string, steerBody: string -> string): (r: Reply)
    ensures !IsEventFrame(sdata) ==> r == Silent
    ensures r.Send? ==> IsEventFrame(r.frame)
    ensures r.Send? ==> r.frame == MANUAL_REPLY || ParseSteerReply(r.frame).Steer?
    ensures r == Silent <==>
      !IsEventFrame(sdata) || (HasData(sdata) != "" && eventOf(HasData(sdata)) != "telemetry")
    ensures r == Send(MANUAL_REPLY) <==> IsEventFrame(sdata) && HasData(sdata) == ""
    ensures (r.Send? && ParseSteerReply(r.frame).Steer?) <==>
      IsEventFrame(sdata) && HasData(sdata) != "" && eventOf(HasData(sdata)) == "telemetry"
    ensures r.Send? && ParseSteerReply(r.frame).Steer? ==>
      ParseSteerReply(r.frame).body == steerBody(HasData(sdata))
  {
    if !IsEventFrame(sdata) then Silent
    else
      var s := HasData(sdata);
      if s == "" then
        ManualReplyIsNotSteer();
        Send(MANUAL_REPLY)
      else if eventOf(s) == "telemetry" then
        ManualReplyIsNotSteer();
        SteerReplyRoundTrip(steerBody(s));
        Send(SteerReply(steerBody(s)))
      else Silent
  }
}

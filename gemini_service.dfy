/**
 * services/geminiService.ts: the cleanup of the extractor's reply and the
 * paths on which `parseAppointmentWithGemini` settles without an appointment.
 * The model call itself is an outcome parameter.
 */
module GeminiService {
  import opened Types
  import opened Text

  const Fence: string := "```"
  const FenceJson: string := "```json"

  /** `text.replace(/```json/g, '').replace(/```/g, '').trim()` */
  function CleanResponse(text: string): (r: string)
    ensures Bare(r) && Free(r, Fence) && Free(r, FenceJson)
  {
    var stripped := RemoveAll(RemoveAll(text, FenceJson), Fence);
    StripFencesFree(RemoveAll(text, FenceJson));
    var r := Trim(stripped);
    var i, j :| 0 <= i <= j <= |stripped| && r == stripped[i..j];
    FreeInfix(stripped, i, j, Fence);
    FenceFreeIsFenceJsonFree(r);
    r
  }

  /** The number of backticks `s` starts with. */
  function LeadingBackticks(s: string): (n: nat)
    ensures n <= |s|
  {
    if s != [] && s[0] == '`' then 1 + LeadingBackticks(s[1..]) else 0
  }

  /** Removing fences leaves a run of k leading backticks as k mod 3 of them. */
  lemma {:induction false} StripFencesLeading(s: string)
    ensures LeadingBackticks(RemoveAll(s, Fence)) == LeadingBackticks(s) % 3
    decreases |s|
  {
    if |s| < |Fence| {
      assert RemoveAll(s, Fence) == s;
    } else if s[..3] == Fence {
      StripFencesLeading(s[3..]);
      FenceAtFront(s);
      var k := LeadingBackticks(s[3..]);
      assert (k + 3) % 3 == k % 3;
    } else if s[0] == '`' {
      StripFencesLeading(s[1..]);
      LoneBacktick(s);
      var n := LeadingBackticks(s);
      assert n % 3 == n;
    } else {
      assert RemoveAll(s, Fence)[0] == s[0];
    }
  }

  /** Inductive step of StripFencesLeading for a text that starts with a backtick but no fence. */
  lemma LoneBacktick(s: string)
    requires |s| >= 3 && s[..3] != Fence && s[0] == '`'
    requires LeadingBackticks(RemoveAll(s[1..], Fence)) == LeadingBackticks(s[1..]) % 3
    ensures LeadingBackticks(RemoveAll(s, Fence)) == LeadingBackticks(s) <= 2
  {
    var rest := RemoveAll(s[1..], Fence);
    var r := [s[0]] + rest;
    assert RemoveAll(s, Fence) == r;
    ShortRun(s);
    var n := LeadingBackticks(s[1..]);
    assert n % 3 == n by { if n == 0 { assert 0 % 3 == 0; } else { assert n == 1 && 1 % 3 == 1; } }
    assert r[0] == '`' && r[1..] == rest;
    assert LeadingBackticks(r) == 1 + n;
    assert LeadingBackticks(s) == 1 + n;
  }

  lemma FenceAtFront(s: string)
    requires |s| >= 3 && s[..3] == Fence
    ensures RemoveAll(s, Fence) == RemoveAll(s[3..], Fence)
    ensures LeadingBackticks(s) == 3 + LeadingBackticks(s[3..])
  {
    assert s[..3][0] == s[0] && s[..3][1] == s[1] && s[..3][2] == s[2];
    assert s[1..][1..] == s[2..] && s[2..][1..] == s[3..];
    assert LeadingBackticks(s[2..]) == 1 + LeadingBackticks(s[3..]);
    assert LeadingBackticks(s[1..]) == 1 + LeadingBackticks(s[2..]);
  }

  /** A backtick that does not open a fence is followed by at most one more. */
  lemma ShortRun(s: string)
    requires |s| >= 3 && s[..3] != Fence && s[0] == '`'
    ensures LeadingBackticks(s[1..]) <= 1
  {
    if s[1] == '`' {
      assert s[2] != '`' by { assert s[..3] == [s[0], s[1], s[2]]; }
      assert s[1..][1..] == s[2..];
    }
  }

  /** After the second `replace`, no fence is left: removal cannot glue a new one together. */
  lemma {:induction false} StripFencesFree(s: string)
    ensures Free(RemoveAll(s, Fence), Fence)
    decreases |s|
  {
    var r := RemoveAll(s, Fence);
    if |s| < |Fence| {
    } else if s[..3] == Fence {
      StripFencesFree(s[3..]);
    } else {
      var rest := RemoveAll(s[1..], Fence);
      StripFencesFree(s[1..]);
      assert r == [s[0]] + rest;
      assert r[1..] == rest;
      forall i | 0 <= i <= |r| - |Fence| ensures !OccursAt(r, Fence, i) {
        if i == 0 {
          if s[0] == '`' {
            StripFencesLeading(s[1..]);
            ShortRun(s);
            assert r[..3][1] == rest[0] && r[..3][2] == rest[1];
          } else {
            assert r[..3][0] == s[0];
          }
        } else {
          SliceOfSlice(r, 1, |r|, i - 1, |Fence|);
          assert !OccursAt(rest, Fence, i - 1);
        }
      }
    }
  }

  /** "```json" begins with a fence, so a fence-free text holds no "```json" either. */
  lemma FenceFreeIsFenceJsonFree(s: string)
    requires Free(s, Fence)
    ensures Free(s, FenceJson)
  {
    forall i | 0 <= i <= |s| - |FenceJson| ensures !OccursAt(s, FenceJson, i) {
      assert !OccursAt(s, Fence, i);
      SliceOfSlice(s, i, i + |FenceJson|, 0, |Fence|);
      assert FenceJson[..3] == Fence;
    }
  }

  /** Cleaning a cleaned reply changes nothing. */
  lemma CleanIdempotent(text: string)
    ensures CleanResponse(CleanResponse(text)) == CleanResponse(text)
  {
    var c := CleanResponse(text);
    RemoveAllFree(c, FenceJson);
    RemoveAllFree(c, Fence);
    TrimBare(c);
  }

  /** A payload wrapped in a ```json fence comes out exactly. */
  lemma CleanFencedPayload(payload: string)
    requires Bare(payload) && forall k :: 0 <= k < |payload| ==> payload[k] != '`'
    ensures CleanResponse(FenceJson + "\n" + payload + "\n" + Fence) == payload
  {
    var nl: string := "\n";
    var body := nl + payload + nl;
    assert FenceJson + "\n" + payload + "\n" + Fence == FenceJson + (body + Fence);
    RemoveAllLeading(FenceJson, body + Fence);
    assert forall k :: 0 <= k < |body| ==> body[k] != '`';
    RemoveAllKeepsPrefix(body, Fence, FenceJson);
    assert RemoveAll(Fence, FenceJson) == Fence;
    RemoveAllKeepsPrefix(body, Fence, Fence);
    RemoveAllLeading(Fence, []);
    assert Fence + [] == Fence;
    assert body + [] == body;
    TrimPadded(nl, payload, nl);
  }

  /** How the model call settles: it resolves with the response's `text` getter (possibly absent), or it rejects. */
  datatype ModelResponse = Responded(text: Option<string>) | CallRejected

  /**
   * What `JSON.parse(cleanedText) as ParsedAppointment` yields: it throws on
   * malformed text, it can give a falsy value (`null`, `false`, `0`, `""`),
   * or it gives a value whose four fields are read as they are.
   */
  datatype Decoded = Malformed | Falsy | Record(value: ParsedAppointment)

  /**
   * How the promise returned by `parseAppointmentWithGemini` settles. A falsy
   * decoded value is reported as `Resolved(None)`, since its only caller
   * treats it exactly as `null`.
   */
  datatype ServiceOutcome = Resolved(result: Option<ParsedAppointment>) | Rejected

  /** `if (!process.env.API_KEY)`: absent or empty. */
  predicate KeyMissing(apiKey: Option<string>) {
    apiKey == None || apiKey == Some("")
  }

  /**
   * `parseAppointmentWithGemini` with the client, the model call and
   * `JSON.parse` given as parameters: `clientFails` says whether
   * `new GoogleGenAI(...)` throws, which happens outside the try block.
   */
  function ParseAppointmentWithGemini(
    apiKey: Option<string>, clientFails: bool, response: ModelResponse, decode: string -> Decoded): (o: ServiceOutcome)
  {
    if KeyMissing(apiKey) then Resolved(None)
    else if clientFails then Rejected
    else match response
      case CallRejected => Resolved(None)
      case Responded(None) => Resolved(None)
      case Responded(Some(text)) =>
        if text == "" then Resolved(None)
        else match decode(CleanResponse(text))
          case Record(p) => Resolved(Some(p))
          case _ => Resolved(None)
  }

  /** A missing key settles with null whatever the model would have said. */
  lemma MissingKeyIsNull(apiKey: Option<string>, clientFails: bool, response: ModelResponse, decode: string -> Decoded)
    requires KeyMissing(apiKey)
    ensures ParseAppointmentWithGemini(apiKey, clientFails, response, decode) == Resolved(None)
  {
  }

  /**
   * The only way the promise rejects is a client that cannot be built; a
   * rejected call, an empty reply and a decode failure all settle with null.
   */
  lemma FailuresSettleWithNull(apiKey: Option<string>, clientFails: bool, response: ModelResponse, decode: string -> Decoded)
    ensures ParseAppointmentWithGemini(apiKey, clientFails, response, decode) == Rejected
        <==> !KeyMissing(apiKey) && clientFails
    ensures !KeyMissing(apiKey) && !clientFails &&
            (response == CallRejected || response == Responded(None) || response == Responded(Some("")))
        ==> ParseAppointmentWithGemini(apiKey, clientFails, response, decode) == Resolved(None)
    ensures !KeyMissing(apiKey) && !clientFails && response.Responded? && response.text.Some? &&
            response.text.value != "" && decode(CleanResponse(response.text.value)) == Malformed
        ==> ParseAppointmentWithGemini(apiKey, clientFails, response, decode) == Resolved(None)
  {
  }

  /** An appointment comes back exactly when a non-empty reply decodes, after cleanup, to a record. */
  lemma SuccessIff(apiKey: Option<string>, clientFails: bool, response: ModelResponse, decode: string -> Decoded, p: ParsedAppointment)
    ensures ParseAppointmentWithGemini(apiKey, clientFails, response, decode) == Resolved(Some(p))
        <==> !KeyMissing(apiKey) && !clientFails && response.Responded? && response.text.Some? &&
             response.text.value != "" && decode(CleanResponse(response.text.value)) == Record(p)
  {
  }

  /** A reply that wraps a bare JSON payload in a ```json fence reaches the decoder as that payload. */
  lemma FencedReplyDecodesPayload(apiKey: Option<string>, payload: string, decode: string -> Decoded)
    requires !KeyMissing(apiKey)
    requires Bare(payload) && forall k :: 0 <= k < |payload| ==> payload[k] != '`'
    ensures ParseAppointmentWithGemini(apiKey, false, Responded(Some(FenceJson + "\n" + payload + "\n" + Fence)), decode)
         == match decode(payload) case Record(p) => Resolved(Some(p)) case _ => Resolved(None)
  {
    CleanFencedPayload(payload);
  }
}

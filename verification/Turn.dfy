/** One conversational turn as seen by `call_agent_async`: the runner yields
    a finite stream of events; the first event flagged as a final response
    decides the text returned to the caller, and a preset fallback stands
    when no such event arrives. */
module Turn {
  import opened Wrappers
  import Text

  /** What the loop reads off one event: whether it is a final response,
      the texts of its content parts (empty when there is no content or no
      part), the escalate action, and the optional error message. */
  datatype Event = Event(isFinal: bool, parts: seq<string>, escalate: bool, errorMessage: Option<string>)

  /** Returned when no final response supplies a text. */
  const Fallback := "⚠️ Agent không tạo ra response."

  /** An escalation warning is this marker followed by the reason. */
  const EscalatedPrefix := "⚠️ Agent escalated: "

  /** The reason shown when an escalation carries no (or an empty) message. */
  const NoMessage := "Không có message."

  /** The reason quoted in an escalation warning: the error message when it
      is truthy, the fixed phrase otherwise. Never empty. */
  function EscalationReason(errorMessage: Option<string>): (r: string)
    ensures r != ""
    ensures Text.Truthy(errorMessage) ==> r == errorMessage.value
    ensures !Text.Truthy(errorMessage) ==> r == NoMessage
  {
    if Text.Truthy(errorMessage) then errorMessage.value else NoMessage
  }

  /** The warning text for an escalation. It always carries the marker and
      the reason can be read back out of it, so it can never be mistaken
      for the fallback. */
  function EscalationWarning(errorMessage: Option<string>): (r: string)
    ensures Text.Unquote(EscalatedPrefix, "", r) == Some(EscalationReason(errorMessage))
    ensures r != Fallback
  {
    var reason := EscalationReason(errorMessage);
    Text.UnquoteQuote(EscalatedPrefix, "", reason);
    assert EscalatedPrefix + reason + "" == EscalatedPrefix + reason;
    assert Text.Unquote(EscalatedPrefix, "", Fallback) == None by {
      assert Fallback[11] != EscalatedPrefix[11];
    }
    EscalatedPrefix + reason
  }

  /** The text a final-response event produces: its first part when it has
      content parts (whatever the escalate flag says), otherwise the
      escalation warning when it escalates, otherwise the fallback. */
  function Outcome(e: Event): (r: string)
    ensures |e.parts| > 0 ==> r == e.parts[0]
    ensures |e.parts| == 0 ==> (r == Fallback <==> !e.escalate)
    ensures |e.parts| == 0 && e.escalate ==>
      Text.Unquote(EscalatedPrefix, "", r) == Some(EscalationReason(e.errorMessage))
  {
    if |e.parts| > 0 then e.parts[0]
    else if e.escalate then EscalationWarning(e.errorMessage)
    else Fallback
  }

  /** No event of the sequence is a final response. */
  predicate NoFinal(events: seq<Event>) {
    forall i :: 0 <= i < |events| ==> !events[i].isFinal
  }

  /** `k` is the position of the first final response. */
  predicate IsFirstFinal(events: seq<Event>, k: int) {
    && 0 <= k < |events|
    && events[k].isFinal
    && forall j :: 0 <= j < k ==> !events[j].isFinal
  }

  /** The text `call_agent_async` returns for a stream of events, as a
      recursive definition: skip non-final events, stop at the first final
      one. */
  function ExtractResponse(events: seq<Event>): (r: string)
    ensures NoFinal(events) ==> r == Fallback
    ensures r == Fallback || exists i :: 0 <= i < |events| && events[i].isFinal && r == Outcome(events[i])
  {
    if |events| == 0 then Fallback
    else if events[0].isFinal then Outcome(events[0])
    else
      var r := ExtractResponse(events[1..]);
      assert forall i :: 0 <= i < |events[1..]| ==> events[1..][i] == events[i + 1];
      r
  }

  /** The reference characterisation: the result is the outcome of the
      first final event. */
  lemma {:induction false} FirstFinalDecides(events: seq<Event>, k: int)
    requires IsFirstFinal(events, k)
    ensures ExtractResponse(events) == Outcome(events[k])
  {
    if k > 0 {
      assert IsFirstFinal(events[1..], k - 1);
      FirstFinalDecides(events[1..], k - 1);
    }
  }

  /** Every stream either has a first final event or none at all. */
  lemma {:induction false} FirstFinalExists(events: seq<Event>)
    requires !NoFinal(events)
    ensures exists k :: IsFirstFinal(events, k)
  {
    if events[0].isFinal {
      assert IsFirstFinal(events, 0);
    } else {
      assert !NoFinal(events[1..]) by {
        var i :| 0 <= i < |events| && events[i].isFinal;
        assert events[1..][i - 1] == events[i];
      }
      FirstFinalExists(events[1..]);
      var k :| IsFirstFinal(events[1..], k);
      assert IsFirstFinal(events, k + 1);
    }
  }

  /** Non-final events in front of the stream have no effect. */
  lemma {:induction false} LeadingNonFinalIgnored(prefix: seq<Event>, rest: seq<Event>)
    requires NoFinal(prefix)
    ensures ExtractResponse(prefix + rest) == ExtractResponse(rest)
  {
    if prefix != [] {
      assert (prefix + rest)[0] == prefix[0];
      assert (prefix + rest)[1..] == prefix[1..] + rest;
      LeadingNonFinalIgnored(prefix[1..], rest);
    } else {
      assert prefix + rest == rest;
    }
  }

  /** Once a final event has occurred, later events have no effect. */
  lemma {:induction false} LaterEventsIgnored(events: seq<Event>, more: seq<Event>)
    requires !NoFinal(events)
    ensures ExtractResponse(events + more) == ExtractResponse(events)
  {
    FirstFinalExists(events);
    var k :| IsFirstFinal(events, k);
    assert IsFirstFinal(events + more, k);
    FirstFinalDecides(events + more, k);
    FirstFinalDecides(events, k);
  }

  /** `call_agent_async`'s loop: start from the fallback, walk the events,
      and at the first final response take its outcome and stop. */
  method CallAgent(events: seq<Event>) returns (text: string)
    ensures text == ExtractResponse(events)
  {
    text := Fallback;
    var i := 0;
    while i < |events|
      invariant 0 <= i <= |events|
      invariant text == Fallback
      invariant ExtractResponse(events[i..]) == ExtractResponse(events)
    {
      var event := events[i];
      if event.isFinal {
        if |event.parts| > 0 {
          text := event.parts[0];
        } else if event.escalate {
          text := EscalatedPrefix + EscalationReason(event.errorMessage);
        }
        break;
      }
      assert events[i..] == [event] + events[i + 1..];
      i := i + 1;
    }
  }

  /** An escalation reported with "internal timeout" reaches the caller
      behind the warning marker, and an empty stream yields the fallback. */
  lemma EscalationExample()
    ensures ExtractResponse([Event(true, [], true, Some("internal timeout"))])
      == EscalatedPrefix + "internal timeout"
    ensures ExtractResponse([]) == Fallback
  {
  }
}

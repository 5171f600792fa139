/** `stream_decoder` of src/nxtai/responses_stream.hpp. */
module Responses {
  import opened Basics
  import opened StrictJson
  import opened JsonAgreement

  /** `response_result`. */
  datatype Snapshot = Snapshot(id: string, items: seq<string>)

  /** What `accept` does: throw, return a delta, or return nothing. */
  datatype Outcome = Throws | Delta(text: string) | Quiet

  // ----- meaning, in the strict reader's terms alone -----

  /** The raw slice of a field. */
  ghost function Field(data: string, key: string): Option<string> {
    var ms := Fields(data);
    if ms.Some? && key in AsMap(data, ms.value) then Some(AsMap(data, ms.value)[key]) else None
  }

  /** The decoded value of a field that is a string literal. */
  ghost function TextField(data: string, key: string): Option<string> {
    var raw := Field(data, key);
    if raw.Some? then LiteralOf(raw.value) else None
  }

  /** The snapshot a `response.completed` payload carries, if it is a valid one. */
  ghost function SnapshotOf(data: string): Option<Snapshot> {
    var raw := Field(data, "response");
    if raw.None? || Fields(raw.value).None? then None else
    var id := TextField(raw.value, "id");
    var output := Field(raw.value, "output");
    if id.None? || id.value == "" || TextField(raw.value, "status") != Some("completed") then None
    else if output.None? || Slices(output.value).None? then None
    else Some(Snapshot(id.value, Slices(output.value).value))
  }

  predicate IsFailure(kind: string) {
    kind == "error" || kind == "response.failed" || kind == "response.incomplete"
  }

  predicate IsDelta(kind: string) {
    kind == "response.output_text.delta" || kind == "response.refusal.delta"
  }

  ghost function Meaning(kind: string, data: string): Outcome {
    if TextField(data, "type") != Some(kind) || IsFailure(kind) then Throws
    else if IsDelta(kind) then
      var delta := TextField(data, "delta");
      if delta.Some? then Delta(delta.value) else Throws
    else if kind == "response.completed" && SnapshotOf(data).None? then Throws
    else Quiet
  }

  // ----- the decoder -----

  class StreamDecoder {
    var completed: Option<Snapshot>

    constructor ()
      ensures completed.None?
    {
      completed := None;
    }

    /** Only a valid snapshot, and only the first, completes the response. */
    method Accept(kind: string, data: string) returns (r: Outcome)
      modifies this
      ensures old(completed).Some? ==> r == Throws && completed == old(completed)
      ensures old(completed).None? ==> r == Meaning(kind, data)
      ensures completed != old(completed) <==>
              old(completed).None? && r == Quiet && kind == "response.completed"
      ensures completed != old(completed) ==> completed == SnapshotOf(data)
    {
      hide Fields, AsMap, LiteralOf, Slices;
      if completed.Some? {
        return Throws;
      }
      var fields := Object(data);
      if fields.None? {
        return Throws;
      }
      var payload := StringField(data, "type");
      if payload != Some(kind) {
        return Throws;
      }
      if IsFailure(kind) {
        return Throws;
      }
      if IsDelta(kind) {
        var delta := StringField(data, "delta");
        return if delta.Some? then Delta(delta.value) else Throws;
      }
      if kind == "response.completed" {
        var snapshot := ReadSnapshot(fields.value, data);
        if snapshot.None? {
          return Throws;
        }
        completed := snapshot;
      }
      return Quiet;
    }
  }

  /** The `response.completed` branch. */
  method ReadSnapshot(fields: map<string, string>, data: string) returns (r: Option<Snapshot>)
    requires Fields(data).Some? && fields == AsMap(data, Fields(data).value)
    ensures r == SnapshotOf(data)
  {
    hide Fields, AsMap, LiteralOf, Slices;
    if "response" !in fields {
      return None;
    }
    var raw := fields["response"];
    var response := Object(raw);
    if response.None? {
      return None;
    }
    var id := StringField(raw, "id");
    var status := StringField(raw, "status");
    if id.None? || id.value == "" || status != Some("completed") {
      return None;
    }
    if "output" !in response.value {
      return None;
    }
    var items := Array(response.value["output"]);
    if items.None? {
      return None;
    }
    r := Some(Snapshot(id.value, items.value));
  }

  // ----- event by event -----

  /** What each kind of event comes to, once its payload's `type` agrees. */
  lemma KindsOfEvents(data: string)
    ensures TextField(data, "type") == Some("error") ==> Meaning("error", data) == Throws
    ensures TextField(data, "type") == Some("response.failed") ==> Meaning("response.failed", data) == Throws
    ensures TextField(data, "type") == Some("response.incomplete") ==> Meaning("response.incomplete", data) == Throws
    ensures TextField(data, "type") == Some("response.output_text.delta") ==>
              Meaning("response.output_text.delta", data) == DeltaOrThrow(data)
    ensures TextField(data, "type") == Some("response.refusal.delta") ==>
              Meaning("response.refusal.delta", data) == DeltaOrThrow(data)
    ensures TextField(data, "type") == Some("response.completed") ==>
              Meaning("response.completed", data) == if SnapshotOf(data).Some? then Quiet else Throws
  {
    hide TextField, SnapshotOf;
  }

  ghost function DeltaOrThrow(data: string): Outcome {
    var delta := TextField(data, "delta");
    if delta.None? then Throws else Delta(delta.value)
  }

  /** Any other kind is checked and ignored; a payload whose `type` differs throws. */
  lemma OtherEvents(kind: string, data: string)
    ensures TextField(data, "type") != Some(kind) ==> Meaning(kind, data) == Throws
    ensures TextField(data, "type") == Some(kind)
            && kind != "error" && kind != "response.failed" && kind != "response.incomplete"
            && kind != "response.output_text.delta" && kind != "response.refusal.delta" && kind != "response.completed"
            ==> Meaning(kind, data) == Quiet
  {
    hide TextField, SnapshotOf;
  }

  /** A snapshot is an object `response` with a nonempty string `id`, the string
      `completed` for `status`, and an array `output`; its items are that array's slices. */
  lemma SnapshotIs(data: string, id: string, items: seq<string>)
    ensures SnapshotOf(data) == Some(Snapshot(id, items)) <==>
              exists raw, output ::
                && Field(data, "response") == Some(raw) && Field(raw, "output") == Some(output)
                && TextField(raw, "id") == Some(id) && id != "" && TextField(raw, "status") == Some("completed")
                && Slices(output) == Some(items)
  {
    hide AsMap, LiteralOf, Slices, Fields;
    if SnapshotOf(data) == Some(Snapshot(id, items)) {
      var raw := Field(data, "response").value;
      var output := Field(raw, "output").value;
      assert Field(data, "response") == Some(raw) && Field(raw, "output") == Some(output);
    }
  }
}

/** Actions, decisions, and the flattening of an action that every other module reads. */
module Types {

  type DID = string

  /** An instant as the log keeps it: its RFC 3339 text in UTC, and the offset its JSON also records. */
  datatype Timestamp = Timestamp(utcText: string, offset: int)

  datatype Action = Action(kind: string, target: string, attributes: map<string, string>, timestamp: Timestamp)

  const FIELD_ACTION_TYPE := "action.type"
  const FIELD_TARGET := "target"
  const FIELD_EXPIRY := "expiry"

  /** Why the enforcement point refused after policy allowed. */
  datatype Cause =
    | PolicyFailed
    | BeyondAuthority
    | NoStatusSource
    | StatusFailed
    | Revoked(hop: nat)
    | ApprovalMissing
    | ApproverUnresolved
    | ApprovalInvalid

  /** A decision's stated reason; the two generated sentences are kept structured. */
  datatype Reason =
    | Stated(text: string)
    | NotComparable(rule: string, fields: seq<string>)
    | Refusal(cause: Cause)

  datatype Decision = Decision(
    allowed: bool, consequential: bool, ruleFired: string, policyVersion: string, statusCheckedHops: nat,
    reason: Reason)

  /** The canonical field map: attributes, then the reserved names, which attributes cannot shadow. */
  function Context(a: Action): (ctx: map<string, string>)
    ensures ctx.Keys == a.attributes.Keys + {FIELD_ACTION_TYPE, FIELD_TARGET, FIELD_EXPIRY}
    ensures ctx[FIELD_ACTION_TYPE] == a.kind && ctx[FIELD_TARGET] == a.target
    ensures ctx[FIELD_EXPIRY] == a.timestamp.utcText
    ensures forall k :: k in a.attributes && k !in {FIELD_ACTION_TYPE, FIELD_TARGET, FIELD_EXPIRY} ==>
            ctx[k] == a.attributes[k]
  {
    a.attributes + map[FIELD_ACTION_TYPE := a.kind, FIELD_TARGET := a.target, FIELD_EXPIRY := a.timestamp.utcText]
  }

  /** Action.Context: copies the attributes one by one, then writes the reserved names. */
  method FillContext(a: Action) returns (ctx: map<string, string>)
    ensures ctx == Context(a)
  {
    ctx := map[];
    var todo := a.attributes.Keys;
    while todo != {}
      invariant todo <= a.attributes.Keys
      invariant ctx.Keys == a.attributes.Keys - todo
      invariant forall k :: k in ctx ==> ctx[k] == a.attributes[k]
      decreases todo
    {
      var k :| k in todo;
      ctx := ctx[k := a.attributes[k]];
      todo := todo - {k};
    }
    ctx := ctx[FIELD_ACTION_TYPE := a.kind];
    ctx := ctx[FIELD_TARGET := a.target];
    ctx := ctx[FIELD_EXPIRY := a.timestamp.utcText];
  }
}

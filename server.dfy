/** The decisions apps/backend/src/server.ts makes around the engine: which
    browser origins are let in, which `document:op` payloads are accepted,
    and what a process does with an accepted operation. Sockets, rooms and
    the message broker are replaced by the abstract actions they would perform. */
module Server {
  import opened Types
  import opened JsStrings
  import opened CollaborationEngine

  // ---------------------------------------------------------------------
  // Origin allow-list
  // ---------------------------------------------------------------------

  /** The value `FRONTEND_ORIGIN` takes when the environment does not set it. */
  const DefaultFrontendOrigin: string := "http://localhost:5173"

  /** `.map(trim).filter(Boolean)`: trim every piece, drop the empty ones. */
  function TrimNonEmpty(pieces: seq<string>): (origins: seq<string>)
    ensures |origins| <= |pieces|
    ensures forall i :: 0 <= i < |origins| ==> origins[i] != []
    decreases |pieces|
  {
    if pieces == [] then []
    else
      var t := Trim(pieces[0]);
      var rest := TrimNonEmpty(pieces[1..]);
      if t == [] then rest else [t] + rest
  }

  /** Every allow-list entry is already trimmed: trimming it again changes nothing. */
  lemma {:induction false} TrimNonEmptyTrimmed(pieces: seq<string>)
    ensures forall x :: x in TrimNonEmpty(pieces) ==> Trim(x) == x
    decreases |pieces|
  {
    if pieces != [] {
      TrimNonEmptyTrimmed(pieces[1..]);
      var t := Trim(pieces[0]);
      var rest := TrimNonEmpty(pieces[1..]);
      if t != [] {
        assert TrimNonEmpty(pieces) == [t] + rest;
        forall x | x in [t] + rest
          ensures Trim(x) == x
        {
          if x == t {
            TrimIdempotent(pieces[0]);
          }
        }
      }
    }
  }

  /** `allowedOrigins`: `FRONTEND_ORIGIN` (or its default) split on commas,
      each entry trimmed, empty entries dropped. Every entry is a single,
      non-empty, already trimmed origin. */
  function AllowedOrigins(frontendOrigin: Option<string>): (origins: seq<string>)
    ensures forall i :: 0 <= i < |origins| ==>
      origins[i] != [] && Trim(origins[i]) == origins[i] && ',' !in origins[i]
  {
    var raw := if frontendOrigin.Some? then frontendOrigin.value else DefaultFrontendOrigin;
    TrimNonEmptyTrimmed(Split(raw, ','));
    TrimNonEmptyAvoids(Split(raw, ','), ',');
    TrimNonEmpty(Split(raw, ','))
  }

  /** A character no piece contains is in no allow-list entry either. */
  lemma {:induction false} TrimNonEmptyAvoids(pieces: seq<string>, c: char)
    requires forall j :: 0 <= j < |pieces| ==> c !in pieces[j]
    ensures forall i :: 0 <= i < |TrimNonEmpty(pieces)| ==> c !in TrimNonEmpty(pieces)[i]
    decreases |pieces|
  {
    if pieces != [] {
      assert forall j :: 0 <= j < |pieces[1..]| ==> pieces[1..][j] == pieces[j + 1];
      TrimNonEmptyAvoids(pieces[1..], c);
      var t := Trim(pieces[0]);
      assert c !in pieces[0];
      assert c !in t;
      if t != [] {
        var out := TrimNonEmpty(pieces);
        var rest := TrimNonEmpty(pieces[1..]);
        assert out == [t] + rest;
        assert forall i :: 1 <= i < |out| ==> out[i] == rest[i - 1];
      }
    }
  }

  /** Every piece trimmed, none dropped. */
  function TrimAll(pieces: seq<string>): (trimmed: seq<string>)
    ensures |trimmed| == |pieces|
    ensures forall i :: 0 <= i < |pieces| ==> trimmed[i] == Trim(pieces[i])
    decreases |pieces|
  {
    if pieces == [] then [] else [Trim(pieces[0])] + TrimAll(pieces[1..])
  }

  /** `a` is `b` with some elements left out and the rest kept in order. */
  ghost predicate IsSubsequence(a: seq<string>, b: seq<string>)
    decreases |b|
  {
    if a == [] then true
    else if b == [] then false
    else (a[0] == b[0] && IsSubsequence(a[1..], b[1..])) || IsSubsequence(a, b[1..])
  }

  /** `.filter(Boolean)` on strings: the non-empty entries, in order. */
  function FilterNonEmpty(entries: seq<string>): (kept: seq<string>)
    ensures forall i :: 0 <= i < |kept| ==> kept[i] != []
    ensures (forall i :: 0 <= i < |entries| ==> entries[i] != []) ==> kept == entries
    decreases |entries|
  {
    if entries == [] then []
    else
      var rest := FilterNonEmpty(entries[1..]);
      assert entries == [entries[0]] + entries[1..];
      if entries[0] == [] then rest
      else [entries[0]] + rest
  }

  /** Filtering keeps every non-empty entry as often as it occurs, drops
      nothing else, and keeps the input order. */
  lemma {:induction false} FilterNonEmptyKeeps(entries: seq<string>)
    ensures forall x :: x != [] ==> multiset(FilterNonEmpty(entries))[x] == multiset(entries)[x]
    ensures IsSubsequence(FilterNonEmpty(entries), entries)
    decreases |entries|
  {
    if entries != [] {
      FilterNonEmptyKeeps(entries[1..]);
      var rest := FilterNonEmpty(entries[1..]);
      assert entries == [entries[0]] + entries[1..];
      assert multiset(entries) == multiset{entries[0]} + multiset(entries[1..]);
      if entries[0] != [] {
        var kept := FilterNonEmpty(entries);
        assert kept == [entries[0]] + rest;
        assert kept[1..] == rest;
        assert multiset(kept) == multiset{entries[0]} + multiset(rest);
      }
    }
  }

  /** The allow-list is `allowedOrigins`'s `.map(trim).filter(Boolean)`
      chain taken literally: trim every piece, then keep exactly the non-empty
      results, in the order of the comma-separated input. */
  lemma {:induction false} TrimNonEmptyKeepsOrder(pieces: seq<string>)
    ensures TrimNonEmpty(pieces) == FilterNonEmpty(TrimAll(pieces))
    ensures IsSubsequence(TrimNonEmpty(pieces), TrimAll(pieces))
    ensures (forall i :: 0 <= i < |pieces| ==> Trim(pieces[i]) != []) ==> TrimNonEmpty(pieces) == TrimAll(pieces)
    decreases |pieces|
  {
    var all := TrimAll(pieces);
    if pieces != [] {
      TrimNonEmptyKeepsOrder(pieces[1..]);
      assert all[0] == Trim(pieces[0]) && all[1..] == TrimAll(pieces[1..]);
    }
    FilterNonEmptyKeeps(all);
  }

  /** An origin is on the allow-list exactly when it is non-empty and some
      comma-separated piece trims to it. */
  lemma {:induction false} TrimNonEmptyMembers(pieces: seq<string>, origin: string)
    ensures origin in TrimNonEmpty(pieces) <==>
      origin != [] && exists i :: 0 <= i < |pieces| && Trim(pieces[i]) == origin
    decreases |pieces|
  {
    if pieces != [] {
      TrimNonEmptyMembers(pieces[1..], origin);
      var rest := TrimNonEmpty(pieces[1..]);
      if Trim(pieces[0]) == [] {
        assert TrimNonEmpty(pieces) == rest;
      } else {
        assert TrimNonEmpty(pieces) == [Trim(pieces[0])] + rest;
      }
      if exists i :: 0 <= i < |pieces| && Trim(pieces[i]) == origin {
        var i :| 0 <= i < |pieces| && Trim(pieces[i]) == origin;
        if i > 0 { assert Trim(pieces[1..][i - 1]) == origin; }
      }
      if exists j :: 0 <= j < |pieces[1..]| && Trim(pieces[1..][j]) == origin {
        var j :| 0 <= j < |pieces[1..]| && Trim(pieces[1..][j]) == origin;
        assert Trim(pieces[j + 1]) == origin;
      }
    }
  }

  /** A single origin with no comma and no surrounding white space
      configures an allow-list holding exactly that origin. */
  lemma SingleOriginConfig(origin: string)
    requires origin != [] && ',' !in origin
    requires !IsWhiteSpace(origin[0]) && !IsWhiteSpace(origin[|origin| - 1])
    ensures AllowedOrigins(Some(origin)) == [origin]
  {
    SplitJoin([origin], ',');
    assert Split(origin, ',') == [origin];
    TrimUnpadded(origin);
    assert TrimNonEmpty([origin]) == [Trim(origin)] + TrimNonEmpty([]);
  }

  /** With `FRONTEND_ORIGIN` unset, exactly the local development front end is allowed. */
  lemma DefaultAllowedOrigins()
    ensures AllowedOrigins(None) == [DefaultFrontendOrigin]
  {
    var s := DefaultFrontendOrigin;
    assert ',' !in s;
    assert s[0] == 'h' && s[|s| - 1] == '3';
    SingleOriginConfig(s);
  }

  /** `FRONTEND_ORIGIN` set to the empty string (the default applies only
      when it is unset) gives an empty allow-list, so only requests without
      an origin get through. */
  lemma EmptyConfigAllowsOnlyAbsentOrigins(origin: Option<string>)
    ensures AllowedOrigins(Some("")) == []
    ensures IsOriginAllowed(AllowedOrigins(Some("")), origin) <==> origin.None? || origin == Some("")
  {
    assert Split("", ',') == [[]];
    assert Trim([]) == [];
    assert TrimNonEmpty([[]]) == [] + TrimNonEmpty([]);
  }

  /** A string with no white space at either end is its own trim. */
  lemma TrimUnpadded(s: string)
    requires s != [] && !IsWhiteSpace(s[0]) && !IsWhiteSpace(s[|s| - 1])
    ensures Trim(s) == s
  {
    var (a, b) := TrimBounds(s);
    assert a == 0 && b == |s|;
  }

  /** `isOriginAllowed`: an absent origin (undefined or empty) is let in; a
      `*` entry lets every origin in; otherwise the origin must equal an
      entry exactly. */
  function IsOriginAllowed(allowed: seq<string>, origin: Option<string>): (ok: bool)
    ensures origin.None? || origin == Some("") ==> ok
    ensures "*" in allowed ==> ok
    ensures origin.Some? && origin.value != "" && "*" !in allowed ==>
      (ok <==> exists i :: 0 <= i < |allowed| && allowed[i] == origin.value)
  {
    if origin.None? || origin.value == "" then true
    else if "*" in allowed then true
    else origin.value in allowed
  }

  /** Against the configured allow-list and without a `*` entry, a present
      origin is let in exactly when some comma-separated piece of the
      configuration trims to it; in particular an origin carrying white
      space at either end is always refused. */
  lemma ConfiguredOriginAllowed(frontendOrigin: Option<string>, origin: string)
    requires origin != ""
    ensures var raw := if frontendOrigin.Some? then frontendOrigin.value else DefaultFrontendOrigin;
      "*" !in AllowedOrigins(frontendOrigin) ==>
        (IsOriginAllowed(AllowedOrigins(frontendOrigin), Some(origin)) <==>
          exists i :: 0 <= i < |Split(raw, ',')| && Trim(Split(raw, ',')[i]) == origin)
    ensures "*" !in AllowedOrigins(frontendOrigin) && Trim(origin) != origin ==>
      !IsOriginAllowed(AllowedOrigins(frontendOrigin), Some(origin))
  {
    var raw := if frontendOrigin.Some? then frontendOrigin.value else DefaultFrontendOrigin;
    var allowed := AllowedOrigins(frontendOrigin);
    assert allowed == TrimNonEmpty(Split(raw, ','));
    if "*" !in allowed {
      TrimNonEmptyMembers(Split(raw, ','), origin);
      assert IsOriginAllowed(allowed, Some(origin)) <==> origin in allowed;
    }
  }

  // ---------------------------------------------------------------------
  // Operation payload schema
  // ---------------------------------------------------------------------

  /** The untyped value a client sends, as JSON. */
  datatype Json =
    | JNull
    | JBool(b: bool)
    | JNumber(n: real)
    | JString(s: string)
    | JArray(items: seq<Json>)
    | JObject(fields: map<string, Json>)

  /** A real number with no fractional part (`Number.isInteger`). */
  predicate IsInteger(n: real)
  {
    n == n.Floor as real
  }

  /** The field as a string, when it is present and a string. */
  function StringField(fields: map<string, Json>, key: string): Option<string>
  {
    if key in fields && fields[key].JString? then Some(fields[key].s) else None
  }

  /** The field as a non-negative integer, when it is present and one. */
  function NatField(fields: map<string, Json>, key: string): Option<int>
  {
    if key in fields && fields[key].JNumber? && IsInteger(fields[key].n) && fields[key].n >= 0.0
    then Some(fields[key].n.Floor)
    else None
  }

  /** The keys `opSchema` declares. */
  const SchemaKeys: set<string> := {"docId", "position", "deleteCount", "insertText", "clientId", "baseVersion"}

  /** The zod rule for one declared key: `z.string().min(1)` for the two
      ids, `z.string()` for the inserted text, and
      `z.number().int().nonnegative()` for the three numbers. */
  predicate FieldValid(key: string, v: Json)
  {
    if key == "docId" || key == "clientId" then v.JString? && v.s != []
    else if key == "insertText" then v.JString?
    else v.JNumber? && IsInteger(v.n) && v.n >= 0.0
  }

  /** The payload rule `opSchema` checks: non-empty document and client ids,
      non-negative whole position, delete count and base version; the
      inserted text may be empty. An operation meets it exactly when every
      field of its JSON form passes that field's zod rule. */
  predicate WellFormed(op: TextOperation): (ok: bool)
    ensures ok <==> forall k :: k in SchemaKeys ==> FieldValid(k, EncodeOp(op).fields[k])
  {
    var fields := EncodeOp(op).fields;
    assert FieldValid("docId", fields["docId"]) <==> op.docId != "";
    assert FieldValid("clientId", fields["clientId"]) <==> op.clientId != "";
    assert FieldValid("insertText", fields["insertText"]);
    assert FieldValid("position", fields["position"]) <==> op.position >= 0;
    assert FieldValid("deleteCount", fields["deleteCount"]) <==> op.deleteCount >= 0;
    assert FieldValid("baseVersion", fields["baseVersion"]) <==> op.baseVersion >= 0;

    op.docId != "" && op.clientId != ""
    && op.position >= 0 && op.deleteCount >= 0 && op.baseVersion >= 0
  }

  /** An operation as the JSON object that carries it (what `JSON.stringify`
      serialises and a client sends). */
  function EncodeOp(op: TextOperation): (j: Json)
    ensures j.JObject? && j.fields.Keys == SchemaKeys
    ensures CarriesOp(j, op)
  {
    var fields := map[
      "docId" := JString(op.docId),
      "position" := JNumber(op.position as real),
      "deleteCount" := JNumber(op.deleteCount as real),
      "insertText" := JString(op.insertText),
      "clientId" := JString(op.clientId),
      "baseVersion" := JNumber(op.baseVersion as real)];
    assert fields.Keys == SchemaKeys;
    JObject(fields)
  }

  /** The six fields the schema knows; any other field is ignored. */
  predicate CarriesOp(candidate: Json, op: TextOperation)
  {
    && candidate.JObject?
    && var fields := candidate.fields;
    && "docId" in fields && fields["docId"] == JString(op.docId)
    && "position" in fields && fields["position"] == JNumber(op.position as real)
    && "deleteCount" in fields && fields["deleteCount"] == JNumber(op.deleteCount as real)
    && "insertText" in fields && fields["insertText"] == JString(op.insertText)
    && "clientId" in fields && fields["clientId"] == JString(op.clientId)
    && "baseVersion" in fields && fields["baseVersion"] == JNumber(op.baseVersion as real)
  }

  /** `opSchema.safeParse`: the operation a payload carries, or None when the
      payload breaks the schema. */
  function ParseOp(candidate: Json): (r: Option<TextOperation>)
    ensures r.Some? ==> WellFormed(r.value) && CarriesOp(candidate, r.value)
  {
    if !candidate.JObject? then None
    else
      var fields := candidate.fields;
      match (StringField(fields, "docId"), NatField(fields, "position"), NatField(fields, "deleteCount"),
             StringField(fields, "insertText"), StringField(fields, "clientId"), NatField(fields, "baseVersion"))
      case (Some(docId), Some(position), Some(deleteCount), Some(insertText), Some(clientId), Some(baseVersion)) =>
        if docId == "" || clientId == "" then None
        else Some(TextOperation(docId, position, deleteCount, insertText, clientId, baseVersion))
      case _ => None
  }

  /** Every payload that carries a well-formed operation, whatever other
      fields it has, is accepted as exactly that operation; with
      `ParseOp`'s own contract this makes acceptance an if-and-only-if. */
  lemma ParseOpAccepts(candidate: Json, op: TextOperation)
    requires WellFormed(op) && CarriesOp(candidate, op)
    ensures ParseOp(candidate) == Some(op)
  {
    var fields := candidate.fields;
    assert StringField(fields, "docId") == Some(op.docId);
    assert NatField(fields, "position") == Some(op.position);
    assert NatField(fields, "deleteCount") == Some(op.deleteCount);
    assert StringField(fields, "insertText") == Some(op.insertText);
    assert StringField(fields, "clientId") == Some(op.clientId);
    assert NatField(fields, "baseVersion") == Some(op.baseVersion);
  }

  /** Round trip: a serialised operation parses back to itself exactly when
      it is well formed. */
  lemma ParseEncodeRoundTrip(op: TextOperation)
    ensures ParseOp(EncodeOp(op)) == Some(op) <==> WellFormed(op)
    ensures !WellFormed(op) ==> ParseOp(EncodeOp(op)) == None
  {
    if WellFormed(op) {
      ParseOpAccepts(EncodeOp(op), op);
    }
  }

  // ---------------------------------------------------------------------
  // `document:op` handling in one process
  // ---------------------------------------------------------------------

  /** The channel operations are published on when a broker is configured. */
  const OpsChannel: string := "workspace:ops"
  const InvalidPayloadMessage: string := "Invalid operation payload"
  const ConflictMessage: string := "Version mismatch detected. Snapshot resynced."

  /** What the handler does to the outside world. */
  datatype Action =
    | SendError(message: string)                                  // `document:error` to the sender
    | Publish(channel: string, payload: Json)                     // broker publish
    | BroadcastUpdated(room: string, snapshot: DocumentSnapshot)  // `document:updated` to a room
    | SendConflict(message: string, snapshot: DocumentSnapshot)   // `document:conflict` to the sender

  /** `if (REDIS_URL)`: a broker publisher exists when `REDIS_URL` is set
      to a non-empty string; unset or empty leaves the process on its own. */
  predicate BrokerConfigured(redisUrl: Option<string>): (configured: bool)
    ensures redisUrl.None? || redisUrl == Some("") ==> !configured
    ensures redisUrl.Some? && |redisUrl.value| > 0 ==> configured
  {
    redisUrl.Some? && redisUrl.value != ""
  }

  /** The table after the handler and the actions it performed, in order. */
  datatype Handled = Handled(table: map<string, DocumentSnapshot>, actions: seq<Action>)

  /** The `document:op` handler: reject a malformed payload; with a broker,
      only publish; otherwise apply, broadcast to the document's room, and
      tell the sender about a conflict when there was one. */
  function HandleOp(table: map<string, DocumentSnapshot>, candidate: Json, redisUrl: Option<string>, now: int): (h: Handled)
    ensures 1 <= |h.actions| <= 2
    ensures h.table != table ==> ParseOp(candidate).Some? && !BrokerConfigured(redisUrl)
    ensures WellKeyed(table) ==> WellKeyed(h.table)
  {
    match ParseOp(candidate)
    case None => Handled(table, [SendError(InvalidPayloadMessage)])
    case Some(op) =>
      if BrokerConfigured(redisUrl) then Handled(table, [Publish(OpsChannel, EncodeOp(op))])
      else
        var step := TableApply(table, op, now);
        var broadcast := [BroadcastUpdated(op.docId, step.result.snapshot)];
        if step.result.conflict then Handled(step.table, broadcast + [SendConflict(ConflictMessage, step.result.snapshot)])
        else Handled(step.table, broadcast)
  }

  /** A malformed payload only earns the sender an error: nothing is applied,
      published or broadcast. */
  lemma HandleInvalid(table: map<string, DocumentSnapshot>, candidate: Json, redisUrl: Option<string>, now: int)
    requires forall op :: !(WellFormed(op) && CarriesOp(candidate, op))
    ensures HandleOp(table, candidate, redisUrl, now) == Handled(table, [SendError(InvalidPayloadMessage)])
  {
  }

  /** With a broker, an accepted operation is only published, unchanged, and
      a subscriber that parses the published payload gets the same operation
      back; the local table is not touched. */
  lemma HandleWithBroker(table: map<string, DocumentSnapshot>, candidate: Json, op: TextOperation, redisUrl: Option<string>, now: int)
    requires WellFormed(op) && CarriesOp(candidate, op)
    requires BrokerConfigured(redisUrl)
    ensures var h := HandleOp(table, candidate, redisUrl, now);
      && h.table == table
      && h.actions == [Publish(OpsChannel, EncodeOp(op))]
      && ParseOp(h.actions[0].payload) == Some(op)
  {
    ParseOpAccepts(candidate, op);
    ParseEncodeRoundTrip(op);
  }

  /** Without a broker, an accepted operation is applied to the table; the
      room named by its document id gets the snapshot the table now holds;
      the sender additionally gets that snapshot as a conflict exactly when
      its base version differed from the version stored before the edit. */
  lemma HandleLocally(table: map<string, DocumentSnapshot>, candidate: Json, op: TextOperation, redisUrl: Option<string>, now: int)
    requires WellFormed(op) && CarriesOp(candidate, op)
    requires !BrokerConfigured(redisUrl)
    ensures var h := HandleOp(table, candidate, redisUrl, now);
      var before := Lookup(table, op.docId, now);
      && op.docId in h.table
      && h.table[op.docId].version == before.version + 1
      && h.table[op.docId].content == EditContent(before.content, op)
      && (forall id :: id in table && id != op.docId ==> id in h.table && h.table[id] == table[id])
      && h.actions[0] == BroadcastUpdated(op.docId, h.table[op.docId])
      && (|h.actions| == 2 <==> op.baseVersion != before.version)
      && (|h.actions| == 2 ==> h.actions[1] == SendConflict(ConflictMessage, h.table[op.docId]))
  {
    ParseOpAccepts(candidate, op);
    ApplyIgnoresBaseVersion(Lookup(table, op.docId, now), op, op.baseVersion, now);
  }
}

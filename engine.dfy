/** The in-memory document engine (apps/backend/src/collaboration-engine.ts):
    a table of snapshots keyed by document id, lazily filled with empty
    documents, and a clamped splice that advances a document by one version. */
module CollaborationEngine {
  import opened Types

  /** The snapshot a document id starts from: empty content, version 0,
      and fit to be stored under its own id. */
  function DefaultDoc(id: string, now: int): (d: DocumentSnapshot)
    ensures d.content == [] && d.version == 0 && d.updatedAt == now
    ensures WellKeyed(map[id := d])
  {
    DocumentSnapshot(id, "", 0, now)
  }

  /** Distance between two integers, used to state what clamping means. */
  function Dist(a: int, b: int): nat
  {
    if a >= b then a - b else b - a
  }

  /** `Math.min(max, Math.max(min, value))`: the point of [min, max] nearest
      to `value` (and `max` when the interval is empty). */
  function Clamp(value: int, min: int, max: int): (r: int)
    ensures min <= max ==> min <= r <= max
    ensures min <= value <= max ==> r == value
    ensures min <= max ==> forall y :: min <= y <= max ==> Dist(value, r) <= Dist(value, y)
    ensures max < min ==> r == max
  {
    var atLeastMin := if value < min then min else value;
    if max < atLeastMin then max else atLeastMin
  }

  /** The clamped position and delete count of an edit against content of
      length `len`: both slices taken by the splice are in bounds, whatever
      the (possibly stale or negative) position and count are. */
  function SafeRange(len: nat, position: int, deleteCount: int): (r: (nat, nat))
    ensures r.0 <= len && r.1 <= len - r.0
    ensures 0 <= position <= len ==> r.0 == position
    ensures position > len ==> r.0 == len
    ensures 0 <= deleteCount <= len - r.0 ==> r.1 == deleteCount
    ensures deleteCount > len - r.0 ==> r.1 == len - r.0
  {
    var safePos: nat := Clamp(position, 0, len);
    var safeDelete: nat := Clamp(deleteCount, 0, len - safePos);
    (safePos, safeDelete)
  }

  /** Delete `del` characters of `content` at `pos`, then insert `ins` there:
      the result is the untouched prefix, the inserted text, and the untouched
      rest after the deleted range. */
  function Splice(content: string, pos: nat, del: nat, ins: string): (r: string)
    requires pos + del <= |content|
    ensures |r| == |content| - del + |ins|
    ensures r[..pos] == content[..pos]
    ensures r[pos..pos + |ins|] == ins
    ensures r[pos + |ins|..] == content[pos + del..]
  {
    content[..pos] + ins + content[pos + del..]
  }

  /** The reference reading of a splice, character by character: the part
      before `pos` is kept, `ins` follows, then everything after the deleted
      range, shifted. */
  lemma SpliceAt(content: string, pos: nat, del: nat, ins: string, i: int)
    requires pos + del <= |content|
    ensures |Splice(content, pos, del, ins)| == |content| - del + |ins|
    ensures 0 <= i < |content| - del + |ins| ==>
      Splice(content, pos, del, ins)[i] ==
        if i < pos then content[i]
        else if i < pos + |ins| then ins[i - pos]
        else content[i - |ins| + del]
  {
  }

  /** A splice is undone by the splice that removes the inserted text and puts
      the deleted range back. */
  lemma SpliceUndo(content: string, pos: nat, del: nat, ins: string)
    requires pos + del <= |content|
    ensures pos + |ins| <= |Splice(content, pos, del, ins)|
    ensures Splice(Splice(content, pos, del, ins), pos, |ins|, content[pos..pos + del]) == content
  {
    var edited := Splice(content, pos, del, ins);
    assert edited[..pos] == content[..pos];
    assert edited[pos + |ins|..] == content[pos + del..];
    calc {
      Splice(edited, pos, |ins|, content[pos..pos + del]);
      edited[..pos] + content[pos..pos + del] + edited[pos + |ins|..];
      content[..pos] + content[pos..pos + del] + content[pos + del..];
      { assert content[..pos] + content[pos..pos + del] == content[..pos + del]; }
      content[..pos + del] + content[pos + del..];
      content;
    }
  }

  /** The new content an operation produces against `content`: everything
      before the clamped position is kept, the inserted text follows, then
      everything after the clamped deleted range. */
  function EditContent(content: string, op: TextOperation): (r: string)
    ensures var (p, d) := SafeRange(|content|, op.position, op.deleteCount);
      && |r| == |content| - d + |op.insertText|
      && r[..p] == content[..p]
      && r[p..p + |op.insertText|] == op.insertText
      && r[p + |op.insertText|..] == content[p + d..]
  {
    var (safePos, safeDelete) := SafeRange(|content|, op.position, op.deleteCount);
    Splice(content, safePos, safeDelete, op.insertText)
  }

  /** The outcome of applying one operation: the next snapshot and whether
      the sender's base version was stale. */
  datatype Applied = Applied(snapshot: DocumentSnapshot, conflict: bool)

  /** The operation applier: conflict is only reported, the edit lands and the
      version advances by one either way. */
  function Apply(doc: DocumentSnapshot, op: TextOperation, now: int): (r: Applied)
    ensures r.conflict <==> op.baseVersion != doc.version
    ensures r.snapshot.id == doc.id
    ensures r.snapshot.version == doc.version + 1
    ensures r.snapshot.updatedAt == now
    ensures |r.snapshot.content| == |doc.content| - SafeRange(|doc.content|, op.position, op.deleteCount).1 + |op.insertText|
  {
    var safe := SafeRange(|doc.content|, op.position, op.deleteCount);
    SpliceAt(doc.content, safe.0, safe.1, op.insertText, 0);
    Applied(
      doc.(content := EditContent(doc.content, op), version := doc.version + 1, updatedAt := now),
      op.baseVersion != doc.version)
  }

  /** The resulting snapshot does not depend on the sender's base version:
      a stale operation is applied exactly like a current one. */
  lemma ApplyIgnoresBaseVersion(doc: DocumentSnapshot, op: TextOperation, base: int, now: int)
    ensures Apply(doc, op.(baseVersion := base), now).snapshot == Apply(doc, op, now).snapshot
    ensures Apply(doc, op, now).snapshot.content == EditContent(doc.content, op)
  {
  }

  /** The new content is the source's slice expression over the clamped
      bounds. This only unfolds `EditContent` and `Splice`; the independent,
      character-by-character reading of the same splice is `SpliceAt`. */
  lemma EditContentShape(content: string, op: TextOperation)
    ensures var (p, d) := SafeRange(|content|, op.position, op.deleteCount);
      && p + d <= |content|
      && |EditContent(content, op)| == |content| - d + |op.insertText|
      && EditContent(content, op) == content[..p] + op.insertText + content[p + d..]
  {
  }

  /** A position at or past the end inserts at the end, whatever the delete count. */
  lemma PastEndAppends(content: string, op: TextOperation)
    requires op.position >= |content|
    ensures EditContent(content, op) == content + op.insertText
  {
    var (p, d) := SafeRange(|content|, op.position, op.deleteCount);
    assert p == |content| && d == 0;
    assert content[..p] == content;
    assert content[p + d..] == [];
  }

  /** A full replace (position 0 or before, deleting at least the whole
      content) leaves exactly the inserted text, whatever the old content. */
  lemma FullReplace(content: string, op: TextOperation)
    requires op.position <= 0 && op.deleteCount >= |content|
    ensures EditContent(content, op) == op.insertText
  {
    var (p, d) := SafeRange(|content|, op.position, op.deleteCount);
    assert p == 0 && d == |content|;
    assert content[p + d..] == [];
  }

  /** An operation that deletes nothing inserts at its position and keeps
      every original character, in order around the insertion. */
  lemma InsertOnly(content: string, op: TextOperation)
    requires 0 <= op.position <= |content| && op.deleteCount <= 0
    ensures EditContent(content, op) == content[..op.position] + op.insertText + content[op.position..]
    ensures |EditContent(content, op)| == |content| + |op.insertText|
  {
    var (p, d) := SafeRange(|content|, op.position, op.deleteCount);
    assert p == op.position && d == 0;
  }

  /** What `getDocument` returns for `id` against `table`: the stored
      snapshot, or a fresh default one. */
  function Lookup(table: map<string, DocumentSnapshot>, id: string, now: int): (doc: DocumentSnapshot)
    ensures id in table ==> doc == table[id]
    ensures id !in table ==> doc.id == id && doc.content == [] && doc.version == 0
  {
    if id in table then table[id] else DefaultDoc(id, now)
  }

  /** Every stored snapshot carries its own key as id and a version of at least 0. */
  predicate WellKeyed(table: map<string, DocumentSnapshot>)
  {
    forall id :: id in table ==> table[id].id == id && table[id].version >= 0
  }

  /** A table after one operation, with the outcome the caller sees. */
  datatype StoreStep = StoreStep(table: map<string, DocumentSnapshot>, result: Applied)

  /** The specification of `applyOperation` on the table: look the document
      up (creating it on a miss), apply the operation, store the result under
      the operation's document id. */
  function TableApply(table: map<string, DocumentSnapshot>, op: TextOperation, now: int): (s: StoreStep)
    ensures s.table.Keys == table.Keys + {op.docId}
    ensures s.table[op.docId] == s.result.snapshot
    ensures forall id :: id in table && id != op.docId ==> s.table[id] == table[id]
    ensures s.result.snapshot.version == Lookup(table, op.docId, now).version + 1
    ensures s.result.snapshot.content == EditContent(Lookup(table, op.docId, now).content, op)
    ensures s.result.conflict <==> op.baseVersion != Lookup(table, op.docId, now).version
    ensures WellKeyed(table) ==> WellKeyed(s.table) && s.result.snapshot.id == op.docId
  {
    var r := Apply(Lookup(table, op.docId, now), op, now);
    StoreStep(table[op.docId := r.snapshot], r)
  }

  /** The table after applying `ops` in order, the i-th at clock reading `times[i]`. */
  function ApplyAll(table: map<string, DocumentSnapshot>, ops: seq<TextOperation>, times: seq<int>): map<string, DocumentSnapshot>
    requires |times| == |ops|
    decreases |ops|
  {
    if ops == [] then table
    else ApplyAll(TableApply(table, ops[0], times[0]).table, ops[1..], times[1..])
  }

  /** How many of `ops` target document `id`. */
  function CountFor(ops: seq<TextOperation>, id: string): nat
  {
    if ops == [] then 0
    else (if ops[0].docId == id then 1 else 0) + CountFor(ops[1..], id)
  }

  /** The version a document has in `table` before any operation (0 if absent). */
  function StartVersion(table: map<string, DocumentSnapshot>, id: string): int
  {
    if id in table then table[id].version else 0
  }

  /** Versions count applied operations: after a run of operations, a
      document's version is its starting version plus the number of
      operations addressed to it; a document no operation addresses is
      untouched; the table stays well keyed. */
  lemma {:induction false} ApplyAllVersions(table: map<string, DocumentSnapshot>, ops: seq<TextOperation>, times: seq<int>, id: string)
    requires |times| == |ops|
    ensures var t := ApplyAll(table, ops, times);
      && (id in t <==> id in table || CountFor(ops, id) > 0)
      && (id in t ==> t[id].version == StartVersion(table, id) + CountFor(ops, id))
      && (CountFor(ops, id) == 0 && id in table ==> t[id] == table[id])
      && (WellKeyed(table) ==> WellKeyed(t))
    decreases |ops|
  {
    if ops != [] {
      var step := TableApply(table, ops[0], times[0]);
      ApplyAllVersions(step.table, ops[1..], times[1..], id);
    }
  }

  /** The inline steps of `applyOperation` (two clamps, a slice expression
      and a record update) compute exactly what `Apply` specifies. */
  lemma ApplyInline(doc: DocumentSnapshot, op: TextOperation, now: int, safePos: int, safeDelete: int)
    requires safePos == Clamp(op.position, 0, |doc.content|)
    requires safeDelete == Clamp(op.deleteCount, 0, |doc.content| - safePos)
    ensures 0 <= safePos <= safePos + safeDelete <= |doc.content|
    ensures Apply(doc, op, now) == Applied(
      doc.(content := doc.content[..safePos] + op.insertText + doc.content[safePos + safeDelete..],
           version := doc.version + 1, updatedAt := now),
      op.baseVersion != doc.version)
  {
    assert (safePos, safeDelete) == SafeRange(|doc.content|, op.position, op.deleteCount);
    var next := doc.content[..safePos] + op.insertText + doc.content[safePos + safeDelete..];
    assert EditContent(doc.content, op) == Splice(doc.content, safePos, safeDelete, op.insertText) == next;
  }

  /** Storing the applied snapshot into the table the look-up left behind
      (`mid`, which may hold a freshly created default document) is the step
      `TableApply` specifies, and keeps the table well keyed. */
  lemma StoreInline(before: map<string, DocumentSnapshot>, mid: map<string, DocumentSnapshot>,
                    op: TextOperation, now: int, doc: DocumentSnapshot, a: Applied)
    requires doc == Lookup(before, op.docId, now) && mid == before[op.docId := doc]
    requires a == Apply(doc, op, now)
    ensures mid[op.docId := a.snapshot] == before[op.docId := a.snapshot]
    ensures TableApply(before, op, now) == StoreStep(mid[op.docId := a.snapshot], a)
    ensures WellKeyed(before) ==> WellKeyed(mid[op.docId := a.snapshot]) && a.snapshot.id == op.docId
  {
    assert mid[op.docId := a.snapshot] == before[op.docId := a.snapshot];
  }

  /** The single-process document table (`documents` in collaboration-engine.ts). */
  class DocumentStore {
    var documents: map<string, DocumentSnapshot>

    ghost predicate Valid()
      reads this
    {
      WellKeyed(documents)
    }

    constructor ()
      ensures Valid() && documents == map[]
    {
      documents := map[];
    }

    /** `getDocument`: return the stored snapshot, or create, store and
        return the default one. */
    method GetDocument(docId: string, now: int) returns (doc: DocumentSnapshot)
      requires Valid()
      modifies this
      ensures Valid()
      ensures doc == Lookup(old(documents), docId, now)
      ensures doc.id == docId
      ensures documents == old(documents)[docId := doc]
      ensures docId in old(documents) ==> documents == old(documents)
      ensures docId !in old(documents) ==>
        doc == DefaultDoc(docId, now) && documents == old(documents)[docId := doc]
    {
      if docId in documents {
        doc := documents[docId];
        return;
      }
      var created := DefaultDoc(docId, now);
      documents := documents[docId := created];
      doc := created;
    }

    /** `applyOperation`: clamp, splice, bump the version, store, and report
        whether the sender's base version was stale. */
    method ApplyOperation(op: TextOperation, now: int) returns (snapshot: DocumentSnapshot, conflict: bool)
      requires Valid()
      modifies this
      ensures Valid()
      ensures TableApply(old(documents), op, now) == StoreStep(documents, Applied(snapshot, conflict))
      ensures documents == old(documents)[op.docId := snapshot]
      ensures snapshot.id == op.docId
    {
      ghost var before := documents;
      var doc := GetDocument(op.docId, now);
      conflict := op.baseVersion != doc.version;

      var safePos := Clamp(op.position, 0, |doc.content|);
      var safeDelete := Clamp(op.deleteCount, 0, |doc.content| - safePos);
      ApplyInline(doc, op, now, safePos, safeDelete);

      var nextContent := doc.content[..safePos] + op.insertText + doc.content[safePos + safeDelete..];
      snapshot := doc.(content := nextContent, version := doc.version + 1, updatedAt := now);
      StoreInline(before, documents, op, now, doc, Applied(snapshot, conflict));
      documents := documents[op.docId := snapshot];
    }
  }

  /** Joining a document twice without an edit in between yields the same
      empty snapshot at version 0. */
  method JoinTwiceScenario(id: string, now1: int, now2: int)
  {
    var store := new DocumentStore();
    var first := store.GetDocument(id, now1);
    var second := store.GetDocument(id, now2);
    assert first == second && first.content == "" && first.version == 0;
  }

  /** An operation against a document that moved on is flagged as a conflict,
      applied anyway, and the version still advances by one. */
  method StaleEditScenario(id: string, now: int)
  {
    var store := new DocumentStore();
    var created := store.GetDocument(id, now);
    var i := 0;
    while i < 3
      invariant 0 <= i <= 3
      invariant store.Valid() && id in store.documents && store.documents[id].version == i
      invariant i == 0 ==> store.documents[id].content == ""
      modifies store
    {
      var _, _ := store.ApplyOperation(TextOperation(id, 0, 0, "", "c", i), now);
      i := i + 1;
    }
    var snapshot, conflict := store.ApplyOperation(TextOperation(id, 0, 0, "x", "c", 0), now);
    assert conflict && snapshot.version == 4;
  }

  /** A position and delete count past the end insert at the end. */
  lemma ClampPastEndExample(id: string, client: string, t: int, now: int)
    ensures Apply(DocumentSnapshot(id, "abc", 0, t), TextOperation(id, 10, 5, "X", client, 0), now)
         == Applied(DocumentSnapshot(id, "abcX", 1, now), false)
  {
    PastEndAppends("abc", TextOperation(id, 10, 5, "X", client, 0));
  }

  /** Appending at the end of "hello" gives "hello world" at the next version. */
  lemma InsertOnlyExample(id: string, client: string, t: int, now: int)
    ensures Apply(DocumentSnapshot(id, "hello", 2, t), TextOperation(id, 5, 0, " world", client, 2), now)
         == Applied(DocumentSnapshot(id, "hello world", 3, now), false)
  {
    InsertOnly("hello", TextOperation(id, 5, 0, " world", client, 2));
  }

  /** Replacing the whole of "old text" gives "new text" at the next version. */
  lemma FullReplaceExample(id: string, client: string, t: int, now: int)
    ensures Apply(DocumentSnapshot(id, "old text", 5, t), TextOperation(id, 0, 8, "new text", client, 5), now)
         == Applied(DocumentSnapshot(id, "new text", 6, now), false)
  {
    FullReplace("old text", TextOperation(id, 0, 8, "new text", client, 5));
  }
}

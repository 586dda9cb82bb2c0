/** The memory table: one row per id, one row per (title, namespace), and the statements autonomy uses. */
module MemoryStore {
  import opened Basics

  datatype Tier = Short | Mid | Long

  /** The JSON metadata: the keys autonomy looks at, and the rest. */
  datatype Metadata = Metadata(agentId: Option<string>, contradictions: seq<Option<string>>, rest: map<string, string>)

  /** Times are compared by their order only. */
  datatype Memory = Memory(
    id: string, tier: Tier, namespace: string, title: string, content: string, tags: seq<string>,
    priority: int, confidence: real, source: string, accessCount: int, createdAt: int, updatedAt: int,
    lastAccessedAt: Option<int>, expiresAt: Option<int>, metadata: Metadata)

  type Rows = map<string, Memory>

  function Slot(m: Memory): (string, string) {
    (m.title, m.namespace)
  }

  /** Rows sit under their own id and no two share a title and namespace. */
  ghost predicate WellKeyed(rows: Rows) {
    && (forall id :: id in rows ==> rows[id].id == id)
    && (forall i, j :: i in rows && j in rows && i != j ==> Slot(rows[i]) != Slot(rows[j]))
  }

  ghost predicate Holds(rows: Rows, id: string, slot: (string, string)) {
    id in rows && Slot(rows[id]) == slot
  }

  function MaxInt(a: int, b: int): int {
    if a < b then b else a
  }

  function MaxReal(a: real, b: real): real {
    if a < b then b else a
  }

  /** What `ON CONFLICT(title, namespace) DO UPDATE` makes of the stored row. */
  function Upsert(stored: Memory, m: Memory): Memory {
    stored.(
      content := m.content,
      tags := m.tags,
      priority := MaxInt(stored.priority, m.priority),
      confidence := MaxReal(stored.confidence, m.confidence),
      source := m.source,
      tier := if m.tier.Long? || stored.tier.Long? then Long else if m.tier.Mid? then Mid else stored.tier,
      updatedAt := m.updatedAt,
      expiresAt := if m.tier.Long? || stored.tier.Long? then None
                   else if m.expiresAt.Some? then m.expiresAt else stored.expiresAt,
      metadata := if stored.metadata.agentId.Some? then m.metadata.(agentId := stored.metadata.agentId)
                  else m.metadata)
  }

  /**
   An upsert on the title and namespace. That conflict is looked for first, so the
   row on the place is updated whatever its id; without one, a taken id is an error.
   */
  ghost function Insert(rows: Rows, m: Memory): Result<Rows, string> {
    if exists h :: Holds(rows, h, Slot(m)) then
      var h :| Holds(rows, h, Slot(m));
      Ok(rows[h := Upsert(rows[h], m)])
    else if m.id in rows then Err("UNIQUE constraint failed: memories.id")
    else Ok(rows[m.id := m])
  }

  /**
   An insert on a taken place, column by column: the incoming text, the stored
   identity and history, the larger of two numbers, a tier that never falls, an
   author that never changes, and nothing else in the table.
   */
  lemma InsertOnTakenPlace(rows: Rows, m: Memory, h: string)
    requires WellKeyed(rows) && Holds(rows, h, Slot(m))
    ensures Insert(rows, m).Ok? && Insert(rows, m).value.Keys == rows.Keys
    ensures var r, was := Insert(rows, m).value[h], rows[h];
            && r.content == m.content && r.tags == m.tags && r.source == m.source && r.updatedAt == m.updatedAt
            && r.id == h && r.title == m.title && r.namespace == m.namespace
            && r.createdAt == was.createdAt && r.accessCount == was.accessCount
            && r.lastAccessedAt == was.lastAccessedAt
            && r.priority >= was.priority && r.priority >= m.priority && r.priority in {was.priority, m.priority}
            && r.confidence >= was.confidence && r.confidence >= m.confidence
            && r.confidence in {was.confidence, m.confidence}
            && (r.tier == Long <==> was.tier == Long || m.tier == Long)
            && (r.tier == Short <==> was.tier == Short && m.tier == Short)
            && (r.tier == Long ==> r.expiresAt == None)
            && (r.tier != Long ==> r.expiresAt == if m.expiresAt.Some? then m.expiresAt else was.expiresAt)
            && r.metadata.contradictions == m.metadata.contradictions && r.metadata.rest == m.metadata.rest
            && r.metadata.agentId == if was.metadata.agentId.Some? then was.metadata.agentId else m.metadata.agentId
    ensures forall id :: id in rows && id != h ==> Insert(rows, m).value[id] == rows[id]
  {
    assert forall g :: Holds(rows, g, Slot(m)) ==> g == h;
  }

  /** On a free place the row goes in as it is, unless its id is taken. */
  lemma InsertOnFreePlace(rows: Rows, m: Memory)
    requires forall h :: !Holds(rows, h, Slot(m))
    ensures Insert(rows, m).Ok? <==> m.id !in rows
    ensures m.id !in rows ==> Insert(rows, m).value == rows[m.id := m]
  {
  }

  function Delete(rows: Rows, id: string): Rows {
    rows - {id}
  }

  /** A change of priority stamps the row; a missing row is left missing. */
  function SetPriority(rows: Rows, id: string, priority: int, now: int): Rows {
    if id in rows then rows[id := rows[id].(priority := priority, updatedAt := now)] else rows
  }

  /** In one transaction: every source must exist, the new row must fit, then the sources go. */
  ghost function Consolidate(rows: Rows, ids: set<string>, row: Memory): Result<Rows, string> {
    if !(ids <= rows.Keys) then Err("memory not found")
    else if row.id in rows || (exists h :: Holds(rows, h, Slot(row))) then Err("UNIQUE constraint failed")
    else Ok(rows[row.id := row] - ids)
  }

  /** The transaction: all sources there and the new row's id and place free, or an error. */
  lemma ConsolidateMeans(rows: Rows, ids: set<string>, row: Memory)
    ensures Consolidate(rows, ids, row).Ok? <==>
              && (forall id :: id in ids ==> id in rows) && row.id !in rows
              && forall h :: h in rows ==> rows[h].title != row.title || rows[h].namespace != row.namespace
    ensures Consolidate(rows, ids, row).Ok? ==>
              var after := Consolidate(rows, ids, row).value;
              && (forall id :: id in after <==> (id == row.id && id !in ids) || (id in rows && id !in ids))
              && (forall id :: id in after ==> after[id] == if id == row.id then row else rows[id])
  {
    if h :| h in rows && rows[h].title == row.title && rows[h].namespace == row.namespace {
      assert Holds(rows, h, Slot(row));
    }
  }
}

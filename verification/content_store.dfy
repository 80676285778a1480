/**
  A table with SQLite rowids: rows in rowid order, each new row numbered one past
  the largest rowid in the table (1 in an empty table), as SQLite does for an
  `INTEGER PRIMARY KEY` without `AUTOINCREMENT`.
*/
module Tables {
  import Seqs

  datatype Row<T> = Row(id: nat, val: T)

  /** Rowids strictly increase along the table. */
  predicate Ordered<T>(t: seq<Row<T>>) {
    forall i, j :: 0 <= i < j < |t| ==> t[i].id < t[j].id
  }

  /** No two rows share a key. */
  predicate Unique<T, K(==)>(t: seq<Row<T>>, key: T -> K) {
    forall i, j :: 0 <= i < j < |t| ==> key(t[i].val) != key(t[j].val)
  }

  /** The rowid SQLite gives the next inserted row. */
  function NextId<T>(t: seq<Row<T>>): (id: nat)
    ensures id >= 1
    ensures forall i :: 0 <= i < |t| ==> t[i].id < id
    ensures t != [] ==> exists i :: 0 <= i < |t| && id == t[i].id + 1
    decreases |t|
  {
    if t == [] then 1
    else
      var rest := NextId(t[..|t| - 1]);
      var last := t[|t| - 1].id + 1;
      assert forall i :: 0 <= i < |t| - 1 ==> t[..|t| - 1][i] == t[i];
      if last >= rest then last else rest
  }

  /** `INSERT`: the new row and its rowid. */
  function Insert<T>(t: seq<Row<T>>, v: T): (r: (seq<Row<T>>, nat))
    ensures r.0 == t + [Row(r.1, v)]
    ensures forall i :: 0 <= i < |t| ==> t[i].id < r.1
  {
    var id := NextId(t);
    (t + [Row(id, v)], id)
  }

  /** The first row whose key is `k` (`SELECT ... WHERE ... fetchone()`), or `|t|`. */
  function Find<T, K(==)>(t: seq<Row<T>>, key: T -> K, k: K): (i: nat)
    ensures i <= |t|
    ensures i < |t| ==> key(t[i].val) == k
    ensures forall j :: 0 <= j < i ==> key(t[j].val) != k
    decreases |t|
  {
    if t == [] then 0
    else if key(t[0].val) == k then 0
    else 1 + Find(t[1..], key, k)
  }

  /** `UPDATE ... WHERE key = k`: every row with key `k` gets `update` applied. */
  function UpdateWhere<T, K(==)>(t: seq<Row<T>>, key: T -> K, k: K, update: T -> T): (r: seq<Row<T>>)
    ensures |r| == |t|
    ensures forall i :: 0 <= i < |t| ==>
      r[i] == if key(t[i].val) == k then Row(t[i].id, update(t[i].val)) else t[i]
    decreases |t|
  {
    if t == [] then []
    else
      var head := if key(t[0].val) == k then Row(t[0].id, update(t[0].val)) else t[0];
      [head] + UpdateWhere(t[1..], key, k, update)
  }

  /** `DELETE ... WHERE id = ?`. */
  function DeleteId<T(!new)>(t: seq<Row<T>>, id: nat): (r: seq<Row<T>>)
    ensures |r| <= |t|
    ensures forall x :: x in r <==> x in t && x.id != id
  {
    Seqs.Filter(t, (x: Row<T>) => x.id != id)
  }

  /** `SELECT * ... WHERE key = k`, in rowid order. */
  function Select<T(!new), K(==)>(t: seq<Row<T>>, key: T -> K, k: K): (r: seq<Row<T>>)
    ensures |r| <= |t|
    ensures forall x :: x in r <==> x in t && key(x.val) == k
  {
    Seqs.Filter(t, (x: Row<T>) => key(x.val) == k)
  }

  /** Find-or-insert: the rowid of the row with key `k`, inserting `ins` when there is none. */
  function GetOrInsert<T, K(==)>(t: seq<Row<T>>, key: T -> K, k: K, ins: T): (r: (seq<Row<T>>, nat))
  {
    var i := Find(t, key, k);
    if i < |t| then (t, t[i].id) else Insert(t, ins)
  }

  /** Update-or-insert: the rows with key `k` get `update`; with none, `ins` is inserted. */
  function Upsert<T, K(==)>(t: seq<Row<T>>, key: T -> K, k: K, update: T -> T, ins: T): (r: (seq<Row<T>>, nat))
  {
    var i := Find(t, key, k);
    if i < |t| then (UpdateWhere(t, key, k, update), t[i].id) else Insert(t, ins)
  }

  /** Delete-then-insert: the first row with key `k`, if any, is deleted and `ins` inserted. */
  function Replace<T(!new), K(==)>(t: seq<Row<T>>, key: T -> K, k: K, ins: T): (r: (seq<Row<T>>, nat))
  {
    var i := Find(t, key, k);
    var kept := if i < |t| then DeleteId(t, t[i].id) else t;
    Insert(kept, ins)
  }

  // ----------------------------------------------------------------- lemmas

  /** Inserting keeps the rows in rowid order. */
  lemma InsertOrdered<T>(t: seq<Row<T>>, v: T)
    requires Ordered(t)
    ensures Ordered(Insert(t, v).0)
  {
    var r := Insert(t, v);
    forall i, j | 0 <= i < j < |r.0| ensures r.0[i].id < r.0[j].id {
      assert r.0[i] == t[i];
      if j < |t| {
        assert r.0[j] == t[j];
      }
    }
  }

  /** Inserting a row whose key is not yet present keeps keys unique. */
  lemma InsertUnique<T, K>(t: seq<Row<T>>, key: T -> K, v: T)
    requires Unique(t, key)
    requires forall i :: 0 <= i < |t| ==> key(t[i].val) != key(v)
    ensures Unique(Insert(t, v).0, key)
  {
    var r := Insert(t, v).0;
    forall i, j | 0 <= i < j < |r| ensures key(r[i].val) != key(r[j].val) {
      assert r[i] == t[i];
      if j < |t| {
        assert r[j] == t[j];
      }
    }
  }

  /** With unique keys, the row found for `k` is the only one with that key. */
  lemma FindOnly<T, K>(t: seq<Row<T>>, key: T -> K, k: K)
    requires Unique(t, key) && Find(t, key, k) < |t|
    ensures forall j :: 0 <= j < |t| && key(t[j].val) == k ==> j == Find(t, key, k)
  {
  }

  /** The rowid find-or-insert returns names a row with key `k`, and the rows are still ordered. */
  lemma GetOrInsertFinds<T, K>(t: seq<Row<T>>, key: T -> K, k: K, ins: T)
    requires key(ins) == k
    ensures var (t', id) := GetOrInsert(t, key, k, ins);
      exists i :: 0 <= i < |t'| && t'[i].id == id && key(t'[i].val) == k
  {
    var (t', id) := GetOrInsert(t, key, k, ins);
    var i := Find(t, key, k);
    if i == |t| {
      assert t'[|t|].id == id;
    }
  }

  /** Find-or-insert leaves a table alone when the key is present, and keeps keys unique and rows ordered. */
  lemma GetOrInsertKeeps<T, K>(t: seq<Row<T>>, key: T -> K, k: K, ins: T)
    requires key(ins) == k && Ordered(t) && Unique(t, key)
    ensures var (t', id) := GetOrInsert(t, key, k, ins);
      && Ordered(t') && Unique(t', key)
      && (Find(t, key, k) < |t| ==> t' == t)
      && (Find(t, key, k) == |t| ==> t' == t + [Row(id, ins)] && forall i :: 0 <= i < |t| ==> t[i].id < id)
  {
    if Find(t, key, k) == |t| {
      InsertOrdered(t, ins);
      InsertUnique(t, key, ins);
    }
  }

  /** Find-or-insert is idempotent: a second call returns the same rowid and changes nothing. */
  lemma GetOrInsertTwice<T, K>(t: seq<Row<T>>, key: T -> K, k: K, ins: T, ins': T)
    requires key(ins) == k && key(ins') == k
    ensures var (t1, id1) := GetOrInsert(t, key, k, ins);
      GetOrInsert(t1, key, k, ins') == (t1, id1)
  {
    var (t1, id1) := GetOrInsert(t, key, k, ins);
    if Find(t, key, k) == |t| {
      var j := Find(t1, key, k);
      assert key(t1[|t|].val) == k;
      assert forall i :: 0 <= i < |t| ==> t1[i] == t[i];
      assert j == |t|;
    }
  }

  /** Updating rows in place keeps rowid order, and keeps keys unique when `update` keeps keys. */
  lemma UpdateWhereValid<T, K>(t: seq<Row<T>>, key: T -> K, k: K, update: T -> T)
    requires forall v :: key(update(v)) == key(v)
    requires Ordered(t) && Unique(t, key)
    ensures Ordered(UpdateWhere(t, key, k, update)) && Unique(UpdateWhere(t, key, k, update), key)
  {
    var r := UpdateWhere(t, key, k, update);
    forall i | 0 <= i < |r| ensures r[i].id == t[i].id && key(r[i].val) == key(t[i].val) {
    }
    SameIdsAndKeys(t, r, key);
  }

  /** A table with the ids and keys of `t`, row by row, is ordered and unique when `t` is. */
  lemma SameIdsAndKeys<T, K>(t: seq<Row<T>>, r: seq<Row<T>>, key: T -> K)
    requires |r| == |t| && forall i :: 0 <= i < |r| ==> r[i].id == t[i].id && key(r[i].val) == key(t[i].val)
    requires Ordered(t) && Unique(t, key)
    ensures Ordered(r) && Unique(r, key)
  {
  }

  /** Upsert keeps rows ordered and keys unique when `update` keeps keys and `ins` has key `k`. */
  lemma UpsertKeeps<T, K>(t: seq<Row<T>>, key: T -> K, k: K, update: T -> T, ins: T)
    requires key(ins) == k && forall v :: key(update(v)) == key(v)
    requires Ordered(t) && Unique(t, key)
    ensures Ordered(Upsert(t, key, k, update, ins).0) && Unique(Upsert(t, key, k, update, ins).0, key)
  {
    if Find(t, key, k) < |t| {
      UpdateWhereValid(t, key, k, update);
    } else {
      InsertOrdered(t, ins);
      InsertUnique(t, key, ins);
    }
  }

  /**
    After an upsert on a table with unique keys, the row with key `k` is the one the
    returned rowid names: the existing row updated in place, or the new `ins` row.
  */
  lemma UpsertResult<T, K>(t: seq<Row<T>>, key: T -> K, k: K, update: T -> T, ins: T)
    requires key(ins) == k && forall v :: key(update(v)) == key(v)
    ensures var (t', id) := Upsert(t, key, k, update, ins);
      var i := Find(t, key, k);
      && Find(t', key, k) < |t'|
      && t'[Find(t', key, k)] == (if i < |t| then Row(t[i].id, update(t[i].val)) else Row(id, ins))
  {
    var (t', id) := Upsert(t, key, k, update, ins);
    var i := Find(t, key, k);
    if i < |t| {
      assert forall j :: 0 <= j < i ==> t'[j] == t[j];
      FindIs(t', key, k, i);
    } else {
      assert forall j :: 0 <= j < |t| ==> t'[j] == t[j];
      FindIs(t', key, k, |t|);
    }
  }

  /** Upsert leaves every row with another key exactly as it was. */
  lemma UpsertOthers<T, K>(t: seq<Row<T>>, key: T -> K, k: K, update: T -> T, ins: T)
    requires key(ins) == k
    ensures var t' := Upsert(t, key, k, update, ins).0;
      forall i :: 0 <= i < |t| && key(t[i].val) != k ==> t'[i] == t[i]
  {
  }

  /** The position of a row is determined by Find's contract: the first row with the key. */
  lemma FindIs<T, K>(t: seq<Row<T>>, key: T -> K, k: K, i: nat)
    requires i <= |t| && (i < |t| ==> key(t[i].val) == k)
    requires forall j :: 0 <= j < i ==> key(t[j].val) != k
    ensures Find(t, key, k) == i
  {
  }

  /** Deleting rows keeps the rest in rowid order and their keys unique. */
  lemma DeleteKeeps<T(!new), K>(t: seq<Row<T>>, key: T -> K, id: nat)
    requires Ordered(t) && Unique(t, key)
    ensures Ordered(DeleteId(t, id)) && Unique(DeleteId(t, id), key)
  {
    var p := (x: Row<T>) => x.id != id;
    var before := (a: Row<T>, b: Row<T>) => a.id < b.id;
    var apart := (a: Row<T>, b: Row<T>) => key(a.val) != key(b.val);
    assert Seqs.Pairwise(t, before) && Seqs.Pairwise(t, apart);
    Seqs.FilterPairwise(t, p, before);
    Seqs.FilterPairwise(t, p, apart);
    var r := DeleteId(t, id);
    assert forall i, j :: 0 <= i < j < |r| ==> before(r[i], r[j]) && apart(r[i], r[j]);
  }

  /** With unique keys, deleting the row found for `k` leaves no row with key `k`. */
  lemma DeleteOnly<T(!new), K>(t: seq<Row<T>>, key: T -> K, k: K)
    requires Ordered(t) && Unique(t, key) && Find(t, key, k) < |t|
    ensures forall x :: x in DeleteId(t, t[Find(t, key, k)].id) ==> key(x.val) != k
  {
    var i := Find(t, key, k);
    forall x | x in DeleteId(t, t[i].id) ensures key(x.val) != k {
      var j :| 0 <= j < |t| && t[j] == x;
      assert j != i;
    }
  }

  /** Delete-then-insert keeps rows ordered and keys unique. */
  lemma ReplaceKeeps<T(!new), K>(t: seq<Row<T>>, key: T -> K, k: K, ins: T)
    requires key(ins) == k && Ordered(t) && Unique(t, key)
    ensures Ordered(Replace(t, key, k, ins).0) && Unique(Replace(t, key, k, ins).0, key)
  {
    var i := Find(t, key, k);
    var kept := if i < |t| then DeleteId(t, t[i].id) else t;
    if i < |t| {
      DeleteKeeps(t, key, t[i].id);
      DeleteOnly(t, key, k);
    }
    forall j | 0 <= j < |kept| ensures key(kept[j].val) != key(ins) {
      assert kept[j] in kept;
    }
    InsertOrdered(kept, ins);
    InsertUnique(kept, key, ins);
  }

  /** After delete-then-insert on a table with unique keys, the new last row is the only one with key `k`. */
  lemma ReplaceResult<T(!new), K>(t: seq<Row<T>>, key: T -> K, k: K, ins: T)
    requires Ordered(t) && Unique(t, key)
    ensures var (t', id) := Replace(t, key, k, ins);
      && |t'| > 0 && t'[|t'| - 1] == Row(id, ins)
      && forall j :: 0 <= j < |t'| - 1 ==> key(t'[j].val) != k
  {
    var i := Find(t, key, k);
    var kept := if i < |t| then DeleteId(t, t[i].id) else t;
    if i < |t| {
      DeleteOnly(t, key, k);
    }
    var t' := Replace(t, key, k, ins).0;
    forall j | 0 <= j < |t'| - 1 ensures key(t'[j].val) != k {
      assert t'[j] == kept[j];
      assert kept[j] in kept;
    }
  }
}

/**
  The pipeline's SQLite store as five tables. Every operation first needs a
  connection; without one it returns its sentinel (`None`, `False` or `[]`) and
  touches nothing.
*/
module ContentStore {
  import opened Wrappers
  import opened Tables

  /** The six columns that identify a configuration. `temperature` and `top_p` are compared exactly. */
  datatype Config = Config(api: string, model: string, temperature: real, topP: real,
                           chunkSize: int, paddingSize: int)

  /** A SHA-256 digest, as bytes. */
  type Digest = seq<bv8>

  datatype Document = Document(name: string, text: string, hash: Digest)

  /** A phase-one response: the entity list of one chunk. */
  datatype EntityResponse = EntityResponse(document: int, chunk: int, config: int, nodes: string)

  /** A phase-two (or single-phase) response: node and edge CSV of one chunk. */
  datatype GraphResponse = GraphResponse(document: int, chunk: int, config: int, nodes: string, edges: string)

  datatype StoredGraph = StoredGraph(document: int, config: int, nodes: string, edges: string, metadata: string)

  datatype Store = Store(
    configs: seq<Row<Config>>,
    documents: seq<Row<Document>>,
    entityResponses: seq<Row<EntityResponse>>,
    responses: seq<Row<GraphResponse>>,
    graphs: seq<Row<StoredGraph>>)

  /** `get_connection()`: either no connection (no database path, or it could not be opened) or the store. */
  datatype Db = Offline | Online(store: Store)

  /** The key a response is stored under: document, chunk, configuration. */
  datatype ResponseKey = ResponseKey(document: int, chunk: int, config: int)

  function EntityKey(r: EntityResponse): ResponseKey {
    ResponseKey(r.document, r.chunk, r.config)
  }

  function GraphKey(r: GraphResponse): ResponseKey {
    ResponseKey(r.document, r.chunk, r.config)
  }

  function HashOf(d: Document): Digest {
    d.hash
  }

  function SameConfig(c: Config): Config {
    c
  }

  /** The pair a stored graph belongs to. */
  function GraphOwner(g: StoredGraph): (int, int) {
    (g.document, g.config)
  }

  function DocumentOf(r: GraphResponse): int {
    r.document
  }

  /** The tables the store keeps consistent: rowid order, and one row per natural key. */
  predicate Valid(s: Store) {
    && Ordered(s.configs) && Unique(s.configs, SameConfig)
    && Ordered(s.documents) && Unique(s.documents, HashOf)
    && Ordered(s.entityResponses) && Unique(s.entityResponses, EntityKey)
    && Ordered(s.responses) && Unique(s.responses, GraphKey)
    && Ordered(s.graphs) && Unique(s.graphs, GraphOwner)
  }

  predicate ValidDb(db: Db) {
    db.Online? ==> Valid(db.store)
  }

  // ------------------------------------------------------------- operations

  /** `get_or_create_config_id`: the id of the row holding exactly this configuration, created if missing. */
  function GetOrCreateConfig(db: Db, c: Config): (r: (Db, Option<nat>))
    ensures db.Offline? ==> r == (db, None)
    ensures db.Online? ==> r.0.Online? && r.1.Some?
  {
    match db
    case Offline => (db, None)
    case Online(s) =>
      var (t, id) := GetOrInsert(s.configs, SameConfig, c, c);
      (Online(s.(configs := t)), Some(id))
  }

  /** `get_document_id`: the id of the document with this hash. */
  function GetDocumentId(db: Db, hash: Digest): (r: Option<nat>)
    ensures db.Offline? ==> r.None?
  {
    match db
    case Offline => None
    case Online(s) =>
      var i := Find(s.documents, HashOf, hash);
      if i < |s.documents| then Some(s.documents[i].id) else None
  }

  /** The position of the row with rowid `id`, or `|t|`. */
  function FindId<T>(t: seq<Row<T>>, id: nat): (i: nat)
    ensures i <= |t|
    ensures i < |t| ==> t[i].id == id
    ensures forall j :: 0 <= j < i ==> t[j].id != id
    decreases |t|
  {
    if t == [] then 0 else if t[0].id == id then 0 else 1 + FindId(t[1..], id)
  }

  /** `get_document_text`. */
  function GetDocumentText(db: Db, id: nat): (r: Option<string>)
    ensures db.Offline? ==> r.None?
  {
    match db
    case Offline => None
    case Online(s) =>
      var i := FindId(s.documents, id);
      if i < |s.documents| then Some(s.documents[i].val.text) else None
  }

  /** `insert_document`: content-addressed by hash; a known hash returns its id and stores nothing. */
  function InsertDocument(db: Db, hash: Digest, text: string, name: string): (r: (Db, Option<nat>))
    ensures db.Offline? ==> r == (db, None)
    ensures db.Online? ==> r.0.Online? && r.1.Some?
  {
    match db
    case Offline => (db, None)
    case Online(s) =>
      var (t, id) := GetOrInsert(s.documents, HashOf, hash, Document(name, text, hash));
      (Online(s.(documents := t)), Some(id))
  }

  /** `response_exists_L1`. */
  function EntityResponseExists(db: Db, document: int, chunk: int, config: int): (r: bool)
    ensures db.Offline? ==> !r
  {
    db.Online? && Find(db.store.entityResponses, EntityKey, ResponseKey(document, chunk, config)) < |db.store.entityResponses|
  }

  /** `response_exists`. */
  function ResponseExists(db: Db, document: int, chunk: int, config: int): (r: bool)
    ensures db.Offline? ==> !r
  {
    db.Online? && Find(db.store.responses, GraphKey, ResponseKey(document, chunk, config)) < |db.store.responses|
  }

  function SetNodes(nodes: string): EntityResponse -> EntityResponse {
    (e: EntityResponse) => e.(nodes := nodes)
  }

  function SetTables(nodes: string, edges: string): GraphResponse -> GraphResponse {
    (g: GraphResponse) => g.(nodes := nodes, edges := edges)
  }

  /** `insert_response_L1`: update the rows under the key (keeping the first one's id) or insert one. */
  function InsertEntityResponse(db: Db, document: int, chunk: int, config: int, nodes: string): (r: (Db, Option<nat>))
    ensures db.Offline? ==> r == (db, None)
    ensures db.Online? ==> r.0.Online? && r.1.Some?
  {
    match db
    case Offline => (db, None)
    case Online(s) =>
      var (t, id) := Upsert(s.entityResponses, EntityKey, ResponseKey(document, chunk, config),
                            SetNodes(nodes), EntityResponse(document, chunk, config, nodes));
      (Online(s.(entityResponses := t)), Some(id))
  }

  /** `insert_response`: the same upsert on the node/edge responses. */
  function InsertResponse(db: Db, document: int, chunk: int, config: int, nodes: string, edges: string): (r: (Db, Option<nat>))
    ensures db.Offline? ==> r == (db, None)
    ensures db.Online? ==> r.0.Online? && r.1.Some?
  {
    match db
    case Offline => (db, None)
    case Online(s) =>
      var (t, id) := Upsert(s.responses, GraphKey, ResponseKey(document, chunk, config),
                            SetTables(nodes, edges), GraphResponse(document, chunk, config, nodes, edges));
      (Online(s.(responses := t)), Some(id))
  }

  function DocConfigOfEntity(e: EntityResponse): (int, int) {
    (e.document, e.config)
  }

  function DocConfigOfGraph(g: GraphResponse): (int, int) {
    (g.document, g.config)
  }

  /** `get_all_L1_responses_for`: every phase-one row of the document under the configuration. */
  function AllEntityResponsesFor(db: Db, document: int, config: int): (r: seq<Row<EntityResponse>>)
    ensures db.Offline? ==> r == []
  {
    match db
    case Offline => []
    case Online(s) => Select(s.entityResponses, DocConfigOfEntity, (document, config))
  }

  /** `get_all_responses_for`: every node/edge row of the document under the configuration. */
  function AllResponsesFor(db: Db, document: int, config: int): (r: seq<Row<GraphResponse>>)
    ensures db.Offline? ==> r == []
  {
    match db
    case Offline => []
    case Online(s) => Select(s.responses, DocConfigOfGraph, (document, config))
  }

  /**
    `insert_graph`: refused (`None`) when no document has the id; otherwise the graph
    stored for the pair, if any, is deleted and the new one inserted.
  */
  function InsertGraph(db: Db, document: int, config: int, nodes: string, edges: string, metadata: string): (r: (Db, Option<nat>))
    ensures db.Offline? ==> r == (db, None)
  {
    match db
    case Offline => (db, None)
    case Online(s) =>
      if document < 0 || FindId(s.documents, document) == |s.documents| then (db, None)
      else
        var (t, id) := Replace(s.graphs, GraphOwner, (document, config), StoredGraph(document, config, nodes, edges, metadata));
        (Online(s.(graphs := t)), Some(id))
  }

  /** A value bound to an SQL parameter: text, or a Python `dict`, which `sqlite3` has no adapter for. */
  datatype Param = TextParam(text: string) | DictParam(entries: seq<(string, string)>)

  /** The metadata `extract_graph` builds for a merged graph. */
  datatype Metadata = Metadata(index: int, filename: string, sha256: string)

  /**
    `insert_graph` with the metadata bound as given, as `merge_graphs` calls it. A `dict`
    cannot be bound, so the INSERT raises an `sqlite3.Error`, which the function catches
    and answers with `None`. The DELETE of the pair's earlier graph has already run in
    the open transaction; the model keeps it, as a later commit on the connection does.
  */
  function InsertGraphBound(db: Db, document: int, config: int, nodes: string, edges: string,
                            metadata: Param): (r: (Db, Option<nat>))
    ensures metadata.DictParam? ==> r.1 == None
  {
    match metadata
    case TextParam(m) => InsertGraph(db, document, config, nodes, edges, m)
    case DictParam(_) =>
      match db
      case Offline => (db, None)
      case Online(s) =>
        if document < 0 || FindId(s.documents, document) == |s.documents| then (db, None)
        else
          var i := Find(s.graphs, GraphOwner, (document, config));
          (Online(s.(graphs := if i < |s.graphs| then DeleteId(s.graphs, s.graphs[i].id) else s.graphs)), None)
  }

  /**
    Storing a merged graph with its metadata serialized to text by `dumps` before it is
    bound, which is what the caller evidently intends.
  */
  function StoreMergedGraph(db: Db, document: int, config: int, nodes: string, edges: string,
                            metadata: Metadata, dumps: Metadata -> string): (r: (Db, Option<nat>))
    ensures r == InsertGraph(db, document, config, nodes, edges, dumps(metadata))
  {
    InsertGraphBound(db, document, config, nodes, edges, TextParam(dumps(metadata)))
  }

  // ----------------------------------------------------------------- lemmas

  /** The empty database is consistent. */
  lemma EmptyValid()
    ensures Valid(Store([], [], [], [], []))
  {
  }

  /** Calling `get_or_create_config_id` twice with the same tuple returns the same id and adds no row. */
  lemma ConfigTwice(db: Db, c: Config)
    ensures var (db1, id1) := GetOrCreateConfig(db, c);
      GetOrCreateConfig(db1, c) == (db1, id1)
  {
    if db.Online? {
      GetOrInsertTwice(db.store.configs, SameConfig, c, c, c);
    }
  }

  /** The configuration id names a row holding exactly that configuration; the store stays consistent. */
  lemma ConfigFound(db: Db, c: Config)
    requires ValidDb(db)
    ensures var (db1, id) := GetOrCreateConfig(db, c);
      && ValidDb(db1)
      && (id.Some? ==> exists i :: 0 <= i < |db1.store.configs| && db1.store.configs[i] == Row(id.value, c))
  {
    if db.Online? {
      var s := db.store;
      GetOrInsertKeeps(s.configs, SameConfig, c, c);
      GetOrInsertFinds(s.configs, SameConfig, c, c);
    }
  }

  /** A hash already stored returns its id and leaves the store, text and name included, unchanged. */
  lemma DocumentKnown(db: Db, hash: Digest, text: string, name: string)
    requires db.Online? && GetDocumentId(db, hash).Some?
    ensures InsertDocument(db, hash, text, name) == (db, GetDocumentId(db, hash))
  {
  }

  /** A stored document is found again by its hash, under the id the insertion returned. */
  lemma DocumentFound(db: Db, hash: Digest, text: string, name: string)
    requires ValidDb(db)
    ensures var (db1, id) := InsertDocument(db, hash, text, name);
      ValidDb(db1) && GetDocumentId(db1, hash) == id
  {
    if db.Online? {
      var s := db.store;
      GetOrInsertKeeps(s.documents, HashOf, hash, Document(name, text, hash));
      GetOrInsertTwice(s.documents, HashOf, hash, Document(name, text, hash), Document(name, text, hash));
    }
  }

  /** After a stored response, `response_exists` holds for its key; without a connection nothing exists. */
  lemma ResponseStored(db: Db, document: int, chunk: int, config: int, nodes: string, edges: string)
    ensures var (db1, id) := InsertResponse(db, document, chunk, config, nodes, edges);
      && (id.Some? <==> db.Online?)
      && (id.Some? ==> ResponseExists(db1, document, chunk, config))
      && (id.None? ==> !ResponseExists(db1, document, chunk, config))
  {
    if db.Online? {
      var s := db.store;
      UpsertResult(s.responses, GraphKey, ResponseKey(document, chunk, config),
                   SetTables(nodes, edges), GraphResponse(document, chunk, config, nodes, edges));
    }
  }

  /**
    The upsert of a node/edge response: the store stays consistent, the row under the
    key holds the new payload under the returned id (the existing id on an update), and
    every other response row is unchanged.
  */
  lemma ResponseUpsert(db: Db, document: int, chunk: int, config: int, nodes: string, edges: string)
    requires db.Online? && Valid(db.store)
    ensures var (db1, id) := InsertResponse(db, document, chunk, config, nodes, edges);
      var k := ResponseKey(document, chunk, config);
      var prev := db.store.responses;
      var t := db1.store.responses;
      && Valid(db1.store)
      && Find(t, GraphKey, k) < |t|
      && t[Find(t, GraphKey, k)] == Row(id.value, GraphResponse(document, chunk, config, nodes, edges))
      && (Find(prev, GraphKey, k) < |prev| ==> id.value == prev[Find(prev, GraphKey, k)].id)
      && (forall i :: 0 <= i < |prev| && GraphKey(prev[i].val) != k ==> t[i] == prev[i])
  {
    var s := db.store;
    var k := ResponseKey(document, chunk, config);
    var ins := GraphResponse(document, chunk, config, nodes, edges);
    UpsertKeeps(s.responses, GraphKey, k, SetTables(nodes, edges), ins);
    UpsertResult(s.responses, GraphKey, k, SetTables(nodes, edges), ins);
    UpsertOthers(s.responses, GraphKey, k, SetTables(nodes, edges), ins);
  }

  /** The same upsert guarantees for phase-one responses. */
  lemma EntityResponseUpsert(db: Db, document: int, chunk: int, config: int, nodes: string)
    requires db.Online? && Valid(db.store)
    ensures var (db1, id) := InsertEntityResponse(db, document, chunk, config, nodes);
      var k := ResponseKey(document, chunk, config);
      var prev := db.store.entityResponses;
      var t := db1.store.entityResponses;
      && Valid(db1.store)
      && EntityResponseExists(db1, document, chunk, config)
      && t[Find(t, EntityKey, k)] == Row(id.value, EntityResponse(document, chunk, config, nodes))
      && (Find(prev, EntityKey, k) < |prev| ==> id.value == prev[Find(prev, EntityKey, k)].id)
      && (forall i :: 0 <= i < |prev| && EntityKey(prev[i].val) != k ==> t[i] == prev[i])
  {
    var s := db.store;
    var k := ResponseKey(document, chunk, config);
    var ins := EntityResponse(document, chunk, config, nodes);
    UpsertKeeps(s.entityResponses, EntityKey, k, SetNodes(nodes), ins);
    UpsertResult(s.entityResponses, EntityKey, k, SetNodes(nodes), ins);
    UpsertOthers(s.entityResponses, EntityKey, k, SetNodes(nodes), ins);
  }

  /** `get_all_responses_for` returns exactly the rows of the document under the configuration. */
  lemma ResponsesForExact(db: Db, document: int, config: int)
    requires db.Online?
    ensures forall x :: (x in AllResponsesFor(db, document, config)
      <==> x in db.store.responses && x.val.document == document && x.val.config == config)
    ensures AllResponsesFor(db, document, config) == []
      <==> forall i :: (0 <= i < |db.store.responses| ==>
            !(db.store.responses[i].val.document == document && db.store.responses[i].val.config == config))
  {
    var r := AllResponsesFor(db, document, config);
    var t := db.store.responses;
    if r != [] {
      assert r[0] in r;
    }
    if exists i :: 0 <= i < |t| && t[i].val.document == document && t[i].val.config == config {
      var i :| 0 <= i < |t| && t[i].val.document == document && t[i].val.config == config;
      assert t[i] in t;
      assert t[i] in r;
    }
  }

  /** `get_all_L1_responses_for` returns exactly the phase-one rows of the document under the configuration. */
  lemma EntityResponsesForExact(db: Db, document: int, config: int)
    requires db.Online?
    ensures forall x :: (x in AllEntityResponsesFor(db, document, config)
      <==> x in db.store.entityResponses && x.val.document == document && x.val.config == config)
    ensures AllEntityResponsesFor(db, document, config) == []
      <==> forall i :: (0 <= i < |db.store.entityResponses| ==>
            !(db.store.entityResponses[i].val.document == document && db.store.entityResponses[i].val.config == config))
  {
    var r := AllEntityResponsesFor(db, document, config);
    var t := db.store.entityResponses;
    if r != [] {
      assert r[0] in r;
    }
    if exists i :: 0 <= i < |t| && t[i].val.document == document && t[i].val.config == config {
      var i :| 0 <= i < |t| && t[i].val.document == document && t[i].val.config == config;
      assert t[i] in t;
      assert t[i] in r;
    }
  }

  /** `get_document_text` returns the text of the document row with the id, and `None` exactly when there is none. */
  lemma DocumentTextExact(db: Db, id: nat)
    requires db.Online? && Valid(db.store)
    ensures GetDocumentText(db, id).Some? <==> exists i :: 0 <= i < |db.store.documents| && db.store.documents[i].id == id
    ensures forall i :: 0 <= i < |db.store.documents| && db.store.documents[i].id == id ==>
      GetDocumentText(db, id) == Some(db.store.documents[i].val.text)
  {
    var t := db.store.documents;
    var k := FindId(t, id);
    forall i | 0 <= i < |t| && t[i].id == id ensures k == i {
    }
  }

  /**
    A document stored under a new hash reads back its text under the returned id;
    under a known hash the returned id reads back the text stored first.
  */
  lemma DocumentTextStored(db: Db, hash: Digest, text: string, name: string)
    requires db.Online? && Valid(db.store)
    ensures var (db1, id) := InsertDocument(db, hash, text, name);
      var i := Find(db.store.documents, HashOf, hash);
      && (i == |db.store.documents| ==> GetDocumentText(db1, id.value) == Some(text))
      && (i < |db.store.documents| ==> GetDocumentText(db1, id.value) == Some(db.store.documents[i].val.text))
  {
    var s := db.store;
    var (db1, id) := InsertDocument(db, hash, text, name);
    GetOrInsertKeeps(s.documents, HashOf, hash, Document(name, text, hash));
    var t := db1.store.documents;
    var i := Find(s.documents, HashOf, hash);
    if i == |s.documents| {
      assert t[|t| - 1] == Row(id.value, Document(name, text, hash));
      DocumentTextExact(db1, id.value);
    } else {
      assert t == s.documents && id.value == s.documents[i].id;
      DocumentTextExact(db1, id.value);
    }
  }

  /**
    `insert_graph` for a known document: afterwards exactly one stored graph belongs to
    the pair, under the returned id, holding the new tables; the store stays consistent.
  */
  lemma GraphReplaced(db: Db, document: int, config: int, nodes: string, edges: string, metadata: string)
    requires db.Online? && Valid(db.store)
    requires InsertGraph(db, document, config, nodes, edges, metadata).1.Some?
    ensures var (db1, id) := InsertGraph(db, document, config, nodes, edges, metadata);
      var t := db1.store.graphs;
      && Valid(db1.store)
      && |t| > 0 && t[|t| - 1] == Row(id.value, StoredGraph(document, config, nodes, edges, metadata))
      && forall i :: 0 <= i < |t| - 1 ==> GraphOwner(t[i].val) != (document, config)
  {
    var g := StoredGraph(document, config, nodes, edges, metadata);
    ReplaceKeeps(db.store.graphs, GraphOwner, (document, config), g);
    ReplaceResult(db.store.graphs, GraphOwner, (document, config), g);
  }

  /** An unknown document id (or no connection) stores no graph and changes nothing. */
  lemma GraphRefused(db: Db, document: int, config: int, nodes: string, edges: string, metadata: string)
    requires db.Offline? || document < 0 || GetDocumentText(db, document).None?
    ensures InsertGraph(db, document, config, nodes, edges, metadata) == (db, None)
  {
  }

  /**
    The merged graph is never stored: for a known document, binding the metadata `dict`
    gives `None` and leaves no graph at all for the pair, the earlier one included.
  */
  lemma MergedGraphLost(db: Db, document: int, config: int, nodes: string, edges: string,
                        entries: seq<(string, string)>)
    requires db.Online? && Valid(db.store)
    requires document >= 0 && GetDocumentText(db, document).Some?
    ensures var (db1, id) := InsertGraphBound(db, document, config, nodes, edges, DictParam(entries));
      && id == None && db1.Online?
      && forall x :: x in db1.store.graphs ==> GraphOwner(x.val) != (document, config)
  {
    var t := db.store.graphs;
    var i := Find(t, GraphOwner, (document, config));
    if i < |t| {
      DeleteOnly(t, GraphOwner, (document, config));
    }
  }

  /**
    With the metadata serialized first, a merged graph for a known document is stored:
    the call returns an id, under which the pair's only graph holds the new tables.
  */
  lemma MergedGraphStored(db: Db, document: int, config: int, nodes: string, edges: string,
                          metadata: Metadata, dumps: Metadata -> string)
    requires db.Online? && Valid(db.store)
    requires document >= 0 && GetDocumentText(db, document).Some?
    ensures var (db1, id) := StoreMergedGraph(db, document, config, nodes, edges, metadata, dumps);
      var t := db1.store.graphs;
      && id.Some? && Valid(db1.store)
      && |t| > 0 && t[|t| - 1] == Row(id.value, StoredGraph(document, config, nodes, edges, dumps(metadata)))
      && forall i :: 0 <= i < |t| - 1 ==> GraphOwner(t[i].val) != (document, config)
  {
    GraphReplaced(db, document, config, nodes, edges, dumps(metadata));
  }
}

/** The contents of a store's database file, and what each write action does to them. */
module Database {
  import opened Strings
  import opened Json
  import opened JsonParser
  import opened Query

  datatype Embedding = Embedding(model: Bytes, dimension: int, revision: Option<Bytes>)

  type Vector = seq<Number>

  /** A provenance row of `_index_meta`, with its implicit row id. */
  datatype Meta = Meta(rowid: nat, table: Bytes, embedding: Embedding)

  /** A vec0 table: its declared width and its entries. */
  datatype VecTable = VecTable(dimension: int, entries: map<Bytes, Vector>)

  datatype Db = Db(
    stores: set<Bytes>,                      // _stores
    rows: map<(Bytes, Bytes), Bytes>,        // _rows, by store and key
    meta: map<Bytes, Meta>,                  // _index_meta
    tables: map<Bytes, VecTable>,            // the vec_<n> tables
    payloads: map<(Bytes, Bytes), Bytes>)    // _vector_values, by index and key

  const EMPTY: Db := Db({}, map[], map[], map[], map[])

  /** An action's answer: success, or a typed error with its code and, for a mismatch, its reason. */
  datatype Reply = Done | Refused(code: string, reason: string)

  // --- names ---------------------------------------------------------------------

  predicate IsLetter(c: char) { 'a' <= c <= 'z' || 'A' <= c <= 'Z' }

  predicate ValidName(s: Bytes) {
    && 0 < |s| <= 128
    && forall k | 0 <= k < |s| :: IsLetter(s[k]) || IsDigit(s[k]) || s[k] in "_.-"
  }

  predicate ValidLabel(s: Bytes) { ValidName(s) && s != "." && s != ".." }

  predicate ValidSavepoint(s: Bytes) {
    && 0 < |s| <= 64 && (IsLetter(s[0]) || s[0] == '_')
    && forall k | 0 <= k < |s| :: IsLetter(s[k]) || IsDigit(s[k]) || s[k] == '_'
  }

  /** A letter, a digit or an underscore. */
  predicate IsWord(c: char) {
    0x41 <= c as int <= 0x5A || 0x61 <= c as int <= 0x7A || 0x30 <= c as int <= 0x39 || c as int == 0x5F
  }

  /** The three kinds of name, in code points: of a store or an index, of a snapshot, of a savepoint. */
  lemma NamesAre(s: Bytes)
    ensures ValidName(s) <==>
      1 <= |s| <= 128 && forall k | 0 <= k < |s| :: IsWord(s[k]) || s[k] as int in [0x2D, 0x2E]
    ensures ValidLabel(s) <==> ValidName(s) && s !in [".", ".."]
    ensures ValidSavepoint(s) <==>
      1 <= |s| <= 64 && (forall k | 0 <= k < |s| :: IsWord(s[k])) && !(0x30 <= s[0] as int <= 0x39)
  {
    forall c: char ensures IsWord(c) <==> IsLetter(c) || IsDigit(c) || c == '_' {}
    forall c: char ensures c in "_.-" <==> c == '_' || c as int in [0x2D, 0x2E] {}
    hide IsWord;
    if s != [] { assert IsWord(s[0]) && !IsDigit(s[0]) <==> IsLetter(s[0]) || s[0] == '_' by { WordStart(s[0]); } }
  }

  lemma WordStart(c: char)
    ensures IsWord(c) && !IsDigit(c) <==> IsLetter(c) || c == '_'
  {
  }

  // --- rows ------------------------------------------------------------------------

  /** The text stored for a value: `{}` for null. */
  function StoredText(F: Floats, v: Value): Bytes { if v.Null? then "{}" else Dump(F, v) }

  /** The value read from a stored text; one that does not parse reads as null. */
  function ReadText(F: Floats, text: Bytes): Value {
    match Parse(F, text, MAX_DEPTH) case Ok(v, _) => v case Bad(_, _) => Null
  }

  function StoreOf(args: Value): Bytes { AsString(Get(args, "store"), "") }

  function KeyOf(args: Value): Bytes { AsString(Get(args, "key"), "") }

  function IndexOf(args: Value): Bytes { AsString(Get(args, "index"), "") }

  // --- vectors ------------------------------------------------------------------------

  function ParseEmbedding(v: Value): Option<Embedding> {
    if !v.Obj? || !Get(v, "model").Str? || !Get(v, "dimension").Num? then None
    else
      var dimension := AsInt(Get(v, "dimension"));
      if dimension <= 0 || dimension > 8192 then None
      else Some(Embedding(Get(v, "model").s, dimension,
                          if Get(v, "revision").Str? then Some(Get(v, "revision").s) else None))
  }

  /** An array of numbers; the narrowing to 32-bit floats is left as it is. */
  function ReadVector(v: Value): Option<Vector> {
    if v.Arr? && forall k | 0 <= k < |v.items| :: v.items[k].Num?
    then Some(seq(|v.items|, k requires 0 <= k < |v.items| => if v.items[k].Num? then v.items[k].n else PosInf))
    else None
  }

  /** Why two embeddings differ, if they do. */
  function Mismatch(stored: Embedding, query: Embedding): Option<string> {
    if stored.dimension != query.dimension then Some("dimension")
    else if stored.model != query.model then Some("model")
    else if stored.revision != query.revision then Some("revision")
    else None
  }

  /** A provenance is read from a model, a dimension from 1 to 8192 whose fraction is cut off, and a revision that
      counts when it is a string. */
  lemma EmbeddingIs(v: Value, e: Embedding)
    ensures ParseEmbedding(v) == Some(e) <==>
      && Get(v, "model") == Str(e.model) && 1 <= e.dimension <= 8192
      && Get(v, "dimension").Num? && Get(v, "dimension").n.Fin?
      && e.dimension as real <= Get(v, "dimension").n.r < e.dimension as real + 1.0
      && e.revision == (match Get(v, "revision") case Str(s) => Some(s) case _ => None)
  {
    hide Get;
    var d := Get(v, "dimension");
    if !v.Obj? {
      assert Get(v, "model") == Null by { NoMember(v, "model"); }
    } else if d.Num? && d.n.Fin? {
      assert d == Num(Fin(d.n.r));
      AsIntIs(d.n.r, e.dimension);
      AsIntIs(d.n.r, AsInt(d));
    }
    assert e == Embedding(e.model, e.dimension, e.revision);
  }

  lemma NoMember(v: Value, key: Bytes)
    requires !v.Obj?
    ensures Get(v, key) == Null
  {
  }

  /** A vector is read from an array of numbers, place by place. */
  lemma VectorIs(v: Value, w: Vector)
    ensures ReadVector(v) == Some(w) <==>
      v.Arr? && |v.items| == |w| && forall k | 0 <= k < |w| :: v.items[k] == Num(w[k])
  {
    if v.Arr? && |v.items| == |w| && forall k | 0 <= k < |w| :: v.items[k] == Num(w[k]) {
      assert ReadVector(v).value == w;
    }
    if ReadVector(v) == Some(w) {
      forall k | 0 <= k < |w| ensures v.items[k] == Num(w[k]) {
        assert w[k] == v.items[k].n;
      }
    }
  }

  /** Which reason is given when two embeddings differ. */
  lemma MismatchIs(a: Embedding, b: Embedding)
    ensures Mismatch(a, b) == None <==> a == b
    ensures Mismatch(a, b) == Some("dimension") <==> a.dimension != b.dimension
    ensures Mismatch(a, b) == Some("model") <==> a.dimension == b.dimension && a.model != b.model
    ensures Mismatch(a, b) == Some("revision") <==>
      a.dimension == b.dimension && a.model == b.model && a.revision != b.revision
  {
  }

  function PhysicalName(n: nat): Bytes { "vec_" + Decimal(n) }

  function Rowids(meta: map<Bytes, Meta>): set<nat> { set i | i in meta :: meta[i].rowid }

  /** `IFNULL(MAX(rowid), 0)`. */
  ghost function MaxOf(ids: set<nat>): (m: nat)
    ensures forall x | x in ids :: x <= m
    ensures ids == {} ==> m == 0
    ensures ids != {} ==> m in ids
  {
    if ids == {} then 0
    else
      var x :| x in ids;
      assert ids == (ids - {x}) + {x};
      Max(x, MaxOf(ids - {x}))
  }

  /** A new provenance row, whose row id SQLite picks as the largest plus one, and its table unless
      one of that name exists. */
  ghost function Created(db: Db, index: Bytes, e: Embedding): Db {
    var serial := MaxOf(Rowids(db.meta)) + 1;
    var table := PhysicalName(serial);
    db.(meta := db.meta[index := Meta(serial, table, e)],
        tables := if table in db.tables then db.tables else db.tables[table := VecTable(e.dimension, map[])])
  }

  /** The table, the payloads and the provenance row of an index, gone. */
  function Dropped(db: Db, index: Bytes): Db
    requires index in db.meta
  {
    var table := db.meta[index].table;
    db.(tables := if table != "" then db.tables - {table} else db.tables,
        payloads := map p | p in db.payloads && p.0 != index :: db.payloads[p],
        meta := db.meta - {index})
  }

  /** One vector and its payload, replacing what the key had. */
  function Written(db: Db, index: Bytes, key: Bytes, vector: Vector, text: Bytes): Db
    requires index in db.meta && db.meta[index].table in db.tables
  {
    var table := db.meta[index].table;
    var t := db.tables[table];
    db.(tables := db.tables[table := t.(entries := t.entries[key := vector])],
        payloads := db.payloads[(index, key) := text])
  }

  predicate HasTable(db: Db, index: Bytes) {
    index in db.meta && db.meta[index].table in db.tables
  }

  // --- the write actions -----------------------------------------------------------------

  /** An action that changes contents, with its argument object. */
  datatype Write =
    | Declare(args: Value)
    | Put(args: Value)
    | Delete(args: Value)
    | IndexUpsert(args: Value)
    | IndexDelete(args: Value)
    | IndexReindex(args: Value)

  datatype Result = Result(db: Db, reply: Reply)

  ghost function Effect(F: Floats, w: Write, db: Db): Result {
    match w
    case Declare(args) =>
      if !ValidName(StoreOf(args)) then Result(db, Refused("invalid_store", ""))
      else Result(db.(stores := db.stores + {StoreOf(args)}), Done)
    case Put(args) =>
      if StoreOf(args) !in db.stores then Result(db, Refused("unknown_store", ""))
      else Result(db.(rows := db.rows[(StoreOf(args), KeyOf(args)) := StoredText(F, Get(args, "value"))]), Done)
    case Delete(args) =>
      if StoreOf(args) !in db.stores then Result(db, Refused("unknown_store", ""))
      else Result(db.(rows := db.rows - {(StoreOf(args), KeyOf(args))}), Done)
    case IndexUpsert(args) => if ValidName(IndexOf(args)) then Upsert(F, args, db) else BadIndex(db)
    case IndexDelete(args) => if ValidName(IndexOf(args)) then Erase(args, db) else BadIndex(db)
    case IndexReindex(args) => if ValidName(IndexOf(args)) then Reindex(F, args, db) else BadIndex(db)
  }

  function BadIndex(db: Db): Result { Result(db, Refused("invalid_index", "")) }

  /** The entry and its payload, gone. */
  function Erased(db: Db, index: Bytes, key: Bytes): Db {
    var kept := db.(payloads := db.payloads - {(index, key)});
    if HasTable(db, index) then
      var t := db.tables[db.meta[index].table];
      kept.(tables := db.tables[db.meta[index].table := t.(entries := t.entries - {key})])
    else kept
  }

  function Erase(args: Value, db: Db): Result {
    if IndexOf(args) in db.meta && !HasTable(db, IndexOf(args)) then Result(db, Refused("sql_failed", ""))
    else Result(Erased(db, IndexOf(args), KeyOf(args)), Done)
  }

  ghost function Upsert(F: Floats, args: Value, db: Db): Result {
    var index := IndexOf(args);
    match ParseEmbedding(Get(args, "embedding"))
    case None => Result(db, Refused("invalid_embedding", ""))
    case Some(e) =>
      match ReadVector(Get(args, "vector"))
      case None => Result(db, Refused("invalid_vector", ""))
      case Some(vector) =>
        if index in db.meta && Mismatch(db.meta[index].embedding, e).Some? then
          Result(db, Refused("embedding_mismatch", Mismatch(db.meta[index].embedding, e).value))
        else
          var ready := if index in db.meta then db else Created(db, index, e);
          WriteChecked(F, ready, index, e, KeyOf(args), vector, Get(args, "value"))
  }

  /** The length check before a write, and the write. */
  function WriteChecked(F: Floats, db: Db, index: Bytes, e: Embedding, key: Bytes, vector: Vector,
                        value: Value): Result {
    if |vector| != e.dimension then Result(db, Refused("embedding_mismatch", "dimension"))
    else if !HasTable(db, index) then Result(db, Refused("sql_failed", ""))
    else Result(Written(db, index, key, vector, StoredText(F, value)), Done)
  }

  ghost function Reindex(F: Floats, args: Value, db: Db): Result {
    var index := IndexOf(args);
    match ParseEmbedding(Get(args, "embedding"))
    case None => Result(db, Refused("invalid_embedding", ""))
    case Some(e) =>
      var cleared := if index in db.meta then Dropped(db, index) else db;
      Filled(F, Created(cleared, index, e), index, e, AsItems(Get(args, "vectors")))
  }

  /** The rows of a reindex written one by one, up to the first that is refused. */
  function Filled(F: Floats, db: Db, index: Bytes, e: Embedding, rows: seq<Value>): Result
    decreases |rows|
  {
    if rows == [] then Result(db, Done)
    else match ReadVector(Get(rows[0], "vector"))
      case None => Result(db, Refused("invalid_vector", ""))
      case Some(vector) =>
        var r := WriteChecked(F, db, index, e, KeyOf(rows[0]), vector, Get(rows[0], "value"));
        if r.reply.Done? then Filled(F, r.db, index, e, rows[1..]) else r
  }
}

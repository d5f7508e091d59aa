/**
 The checkpointed CSV loader: chunks go in by plain insert, or row by row through an upsert when
 a key conflicts, and a checkpoint file is rewritten after each chunk. The machine allows a crash
 between any two steps and inside a plain insert, any number of restarts with any chunk size,
 and a checkpoint file that is lost, emptied or set back while the loader is down.
 */
module CsvLoader {

  type Key = string

  /** The columns of a row and their values. */
  datatype Data = Data(cells: map<string, string>)

  type Table = map<Key, Data>

  datatype Record = Record(key: Key, data: Data)

  /** What to do when a key is already there. */
  datatype OnConflict = Refuse | Ignore | Overwrite

  /** Contents of the checkpoint file, as int() sees them. */
  datatype File = Unreadable | Number(n: int)

  /** The checkpoint counts file lines from 1 with the header, so data rows before resume - 1 are skipped. */
  function ResumeAt(file: File): nat
    ensures ResumeAt(file) >= 1
  {
    if file.Number? && file.n >= 1 then file.n else 1
  }

  // ---------- Statements ----------

  /** The columns of late replace those of early; others are kept. */
  function Merge(early: Data, late: Data): Data { Data(early.cells + late.cells) }

  function Without(d: Data, cols: set<string>): Data { Data(d.cells - cols) }

  const NO_DATA := Data(map[])

  function UpsertOne(mode: OnConflict, t: Table, r: Record): Table {
    if r.key !in t then t[r.key := r.data]
    else if mode.Overwrite? then t[r.key := Merge(t[r.key], r.data)]
    else t
  }

  /** Row by row, in order. */
  function Upsert(mode: OnConflict, t: Table, rows: seq<Record>): Table {
    if rows == [] then t else UpsertOne(mode, Upsert(mode, t, rows[..|rows| - 1]), rows[|rows| - 1])
  }

  function Keys(rows: seq<Record>): set<Key> {
    set r | r in rows :: r.key
  }

  /** No row meets a key that is in the table or in an earlier row. */
  ghost predicate Insertable(t: Table, rows: seq<Record>) {
    && (forall i | 0 <= i < |rows| :: rows[i].key !in t)
    && (forall i, j | 0 <= i < j < |rows| :: rows[i].key != rows[j].key)
  }

  function InsertAll(t: Table, rows: seq<Record>): Table {
    if rows == [] then t else InsertAll(t, rows[..|rows| - 1])[rows[|rows| - 1].key := rows[|rows| - 1].data]
  }

  ghost predicate Uniform(rows: seq<Record>, cols: set<string>) {
    forall i | 0 <= i < |rows| :: rows[i].data.cells.Keys == cols
  }

  // ---------- What the statements amount to, key by key ----------

  function LastData(rows: seq<Record>, k: Key): Data
    requires k in Keys(rows)
  {
    if rows[|rows| - 1].key == k then rows[|rows| - 1].data
    else
      KeysOneLess(rows, k);
      LastData(rows[..|rows| - 1], k)
  }

  function FirstData(rows: seq<Record>, k: Key): Data
    requires k in Keys(rows)
  {
    if k in Keys(rows[..|rows| - 1]) then FirstData(rows[..|rows| - 1], k)
    else
      KeysOneLess(rows, k);
      rows[|rows| - 1].data
  }

  lemma KeysOneLess(rows: seq<Record>, k: Key)
    requires rows != []
    ensures k in Keys(rows) <==> k == rows[|rows| - 1].key || k in Keys(rows[..|rows| - 1])
  {
    assert rows == rows[..|rows| - 1] + [rows[|rows| - 1]];
  }

  function BaseOf(t: Table, k: Key): Data {
    if k in t then t[k] else NO_DATA
  }

  /** The last writer wins, and columns the file does not have are left alone. */
  ghost predicate LastWriterWins(t: Table, rows: seq<Record>, result: Table) {
    && result.Keys == t.Keys + Keys(rows)
    && (forall k | k in t && k !in Keys(rows) :: result[k] == t[k])
    && (forall k | k in Keys(rows) :: result[k] == Merge(BaseOf(t, k), LastData(rows, k)))
  }

  /** Rows already there win, then the first row of the file. */
  ghost predicate FirstWriterWins(t: Table, rows: seq<Record>, result: Table) {
    && result.Keys == t.Keys + Keys(rows)
    && (forall k | k in t :: result[k] == t[k])
    && (forall k | k in Keys(rows) && k !in t :: result[k] == FirstData(rows, k))
  }

  /** Columns that a later row of the same file supplies again do not matter. */
  lemma Overwritten(base: Data, early: Data, late: Data)
    requires early.cells.Keys == late.cells.Keys
    ensures Merge(Merge(base, early), late) == Merge(base, late)
  {
  }

  lemma LastDataStep(rest: seq<Record>, r: Record)
    ensures Keys(rest + [r]) == Keys(rest) + {r.key}
    ensures forall k | k in Keys(rest + [r]) :: LastData(rest + [r], k) == if k == r.key then r.data else LastData(rest, k)
  {
    assert (rest + [r])[..|rest|] == rest;
    forall k ensures k in Keys(rest + [r]) <==> k == r.key || k in Keys(rest) {
      KeysOneLess(rest + [r], k);
    }
  }

  lemma LastWriterStep(t: Table, rest: seq<Record>, r: Record, u: Table, cols: set<string>)
    requires LastWriterWins(t, rest, u) && r.data.cells.Keys == cols
    requires forall k | k in Keys(rest) :: LastData(rest, k).cells.Keys == cols
    ensures LastWriterWins(t, rest + [r], UpsertOne(Overwrite, u, r))
  {
    hide LastWriterWins;
    LastDataStep(rest, r);
    StepAtKey(t, rest, r, u, cols);
    OneTouched(Overwrite, u, r);
    LastWriterExtends(t, rest, rest + [r], r, u, UpsertOne(Overwrite, u, r));
  }

  lemma LastWriterExtends(t: Table, rest: seq<Record>, rows: seq<Record>, r: Record, u: Table, v: Table)
    requires LastWriterWins(t, rest, u)
    requires Keys(rows) == Keys(rest) + {r.key} && v.Keys == u.Keys + {r.key}
    requires forall k | k in Keys(rows) :: LastData(rows, k) == if k == r.key then r.data else LastData(rest, k)
    requires v[r.key] == Merge(BaseOf(t, r.key), r.data) && forall k | k != r.key :: SameAt(v, u, k)
    ensures LastWriterWins(t, rows, v)
  {
    hide LastData, Keys, BaseOf, Merge;
    forall k | k in t && k !in Keys(rows) ensures v[k] == t[k] {
      assert SameAt(v, u, k);
    }
    forall k | k in Keys(rows) ensures v[k] == Merge(BaseOf(t, k), LastData(rows, k)) {
      if k != r.key {
        assert SameAt(v, u, k);
      }
    }
  }

  lemma StepAtKey(t: Table, rest: seq<Record>, r: Record, u: Table, cols: set<string>)
    requires LastWriterWins(t, rest, u) && r.data.cells.Keys == cols
    requires forall k | k in Keys(rest) :: LastData(rest, k).cells.Keys == cols
    ensures UpsertOne(Overwrite, u, r)[r.key] == Merge(BaseOf(t, r.key), r.data)
  {
    hide LastData, Keys, Merge;
    if r.key in Keys(rest) {
      Overwritten(BaseOf(t, r.key), LastData(rest, r.key), r.data);
    } else {
      MergeNone(r.data);
    }
  }

  lemma MergeNone(d: Data)
    ensures Merge(NO_DATA, d) == d
  {
    assert map[] + d.cells == d.cells;
  }

  lemma {:induction false} OverwriteIsLastWriter(t: Table, rows: seq<Record>, cols: set<string>)
    requires Uniform(rows, cols)
    ensures LastWriterWins(t, rows, Upsert(Overwrite, t, rows))
    ensures forall k | k in Keys(rows) :: LastData(rows, k).cells.Keys == cols
  {
    if rows != [] {
      hide LastWriterWins;
      var rest := rows[..|rows| - 1];
      OverwriteIsLastWriter(t, rest, cols);
      LastWriterStep(t, rest, rows[|rows| - 1], Upsert(Overwrite, t, rest), cols);
      assert rest + [rows[|rows| - 1]] == rows;
      forall k | k in Keys(rows) ensures LastData(rows, k).cells.Keys == cols {
        KeysOneLess(rows, k);
      }
    }
  }

  /** Column by column: those of the file have the last row's value, any other has the one it had. */
  lemma OverwriteByColumn(t: Table, rows: seq<Record>, cols: set<string>, i: nat, c: string)
    requires Uniform(rows, cols) && i < |rows| && forall j | i < j < |rows| :: rows[j].key != rows[i].key
    ensures var (k, after) := (rows[i].key, Upsert(Overwrite, t, rows));
      && k in after
      && (c in after[k].cells <==> c in cols || (k in t && c in t[k].cells))
      && (c in cols ==> c in after[k].cells && after[k].cells[c] == rows[i].data.cells[c])
      && (c !in cols && k in t && c in t[k].cells ==> after[k].cells[c] == t[k].cells[c])
  {
    hide Upsert, LastData;
    var later := rows[i + 1..];
    assert forall j | 0 <= j < |later| :: later[j] == rows[i + 1 + j];
    OverwriteIsLastWriter(t, rows, cols);
    LastAt(rows, i);
  }

  lemma {:induction false} IgnoreIsFirstWriter(mode: OnConflict, t: Table, rows: seq<Record>)
    requires !mode.Overwrite?
    ensures FirstWriterWins(t, rows, Upsert(mode, t, rows))
  {
    if rows != [] {
      var rest := rows[..|rows| - 1];
      IgnoreIsFirstWriter(mode, t, rest);
      forall k ensures k in Keys(rows) <==> k == rows[|rows| - 1].key || k in Keys(rest) {
        KeysOneLess(rows, k);
      }
    }
  }

  lemma {:induction false} UpsertConcat(mode: OnConflict, t: Table, a: seq<Record>, b: seq<Record>)
    ensures Upsert(mode, t, a + b) == Upsert(mode, Upsert(mode, t, a), b)
    decreases |b|
  {
    if b == [] {
      assert a + b == a;
    } else {
      assert (a + b)[..|a + b| - 1] == a + b[..|b| - 1];
      UpsertConcat(mode, t, a, b[..|b| - 1]);
    }
  }

  /** The fast path refines the slow one: a plain insert that succeeds does what the upsert would. */
  lemma {:induction false} PlainInsertIsUpsert(mode: OnConflict, t: Table, rows: seq<Record>)
    requires Insertable(t, rows)
    ensures InsertAll(t, rows) == Upsert(mode, t, rows)
    ensures InsertAll(t, rows).Keys == t.Keys + Keys(rows)
  {
    if rows != [] {
      var rest := rows[..|rows| - 1];
      PlainInsertIsUpsert(mode, t, rest);
      assert rows[|rows| - 1].key !in Keys(rest);
      forall k ensures k in Keys(rows) <==> k == rows[|rows| - 1].key || k in Keys(rest) {
        KeysOneLess(rows, k);
      }
    }
  }

  /** A plain insert that fails after committing some rows leaves nothing for the fallback upsert to notice. */
  lemma FallbackErasesPrefix(mode: OnConflict, t: Table, rows: seq<Record>, k: nat, cols: set<string>)
    requires k <= |rows| && Insertable(t, rows[..k]) && Uniform(rows, cols)
    ensures Upsert(mode, InsertAll(t, rows[..k]), rows) == Upsert(mode, t, rows)
  {
    PlainInsertIsUpsert(mode, t, rows[..k]);
    var p := Upsert(mode, t, rows[..k]);
    KeysOfPrefix(rows, k);
    if mode.Overwrite? {
      OverwriteIsLastWriter(t, rows[..k], cols);
      OverwriteIsLastWriter(t, rows, cols);
      OverwriteIsLastWriter(p, rows, cols);
      LastWriterAgain(t, rows, k, p, Upsert(mode, t, rows), Upsert(mode, p, rows), cols);
    } else {
      IgnoreIsFirstWriter(mode, t, rows[..k]);
      IgnoreIsFirstWriter(mode, t, rows);
      IgnoreIsFirstWriter(mode, p, rows);
      FirstWriterAgain(t, rows, k, p, Upsert(mode, t, rows), Upsert(mode, p, rows));
    }
  }

  lemma KeysOfPrefix(rows: seq<Record>, k: nat)
    requires k <= |rows|
    ensures Keys(rows[..k]) <= Keys(rows)
  {
    assert forall i | 0 <= i < k :: rows[..k][i] in rows;
  }

  lemma LastWriterAgain(t: Table, rows: seq<Record>, k: nat, p: Table, u: Table, v: Table, cols: set<string>)
    requires k <= |rows| && Keys(rows[..k]) <= Keys(rows)
    requires LastWriterWins(t, rows[..k], p) && LastWriterWins(t, rows, u) && LastWriterWins(p, rows, v)
    requires forall x | x in Keys(rows) :: LastData(rows, x).cells.Keys == cols
    requires forall x | x in Keys(rows[..k]) :: LastData(rows[..k], x).cells.Keys == cols
    ensures u == v
  {
    hide LastData, Keys, Merge;
    forall x ensures SameAt(v, u, x) {
      if x in Keys(rows[..k]) {
        Overwritten(BaseOf(t, x), LastData(rows[..k], x), LastData(rows, x));
      }
    }
    SameEverywhere(v, u);
  }

  lemma FirstWriterAgain(t: Table, rows: seq<Record>, k: nat, p: Table, u: Table, v: Table)
    requires k <= |rows| && Keys(rows[..k]) <= Keys(rows)
    requires FirstWriterWins(t, rows[..k], p) && FirstWriterWins(t, rows, u) && FirstWriterWins(p, rows, v)
    ensures u == v
  {
    hide FirstData, Keys;
    forall x | x in Keys(rows[..k]) ensures FirstData(rows[..k], x) == FirstData(rows, x) {
      FirstInPrefix(rows, k, x);
    }
    assert u.Keys == v.Keys;
  }

  lemma {:induction false} FirstInPrefix(rows: seq<Record>, k: nat, x: Key)
    requires k <= |rows| && x in Keys(rows[..k])
    ensures x in Keys(rows) && FirstData(rows, x) == FirstData(rows[..k], x)
    decreases |rows|
  {
    assert forall r | r in rows[..k] :: r in rows;
    if k == |rows| {
      assert rows[..k] == rows;
    } else {
      assert rows[..|rows| - 1][..k] == rows[..k];
      FirstInPrefix(rows[..|rows| - 1], k, x);
    }
  }

  lemma {:induction false} LastAt(rows: seq<Record>, n: nat)
    requires n < |rows| && rows[n].key !in Keys(rows[n + 1..])
    ensures rows[n].key in Keys(rows) && LastData(rows, rows[n].key) == rows[n].data
    decreases |rows|
  {
    var m := |rows| - 1;
    assert rows[n] in rows;
    if n < m {
      assert rows[m] in rows[n + 1..];
      assert rows[..m][n + 1..] == rows[n + 1..m];
      assert rows[n + 1..m] == rows[n + 1..][..m - n - 1];
      KeysOfPrefix(rows[n + 1..], m - n - 1);
      LastAt(rows[..m], n);
    }
  }

  lemma FirstAt(rows: seq<Record>, n: nat)
    requires n < |rows| && rows[n].key !in Keys(rows[..n])
    ensures rows[n].key in Keys(rows) && FirstData(rows, rows[n].key) == rows[n].data
  {
    assert rows[..n + 1][..n] == rows[..n];
    assert rows[..n + 1][n] in rows[..n + 1];
    FirstInPrefix(rows, n + 1, rows[n].key);
  }

  // ---------- The machine ----------

  /** Rows not yet in the table; what the loader is about to do next. */
  datatype Phase =
    | Down                                              // not running
    | AtChunk(next: nat)                                // about to read the chunk at data row next
    | Upserting(next: nat, len: nat, done: nat)         // plain insert failed; done rows of the chunk upserted
    | Saving(next: nat)                                 // chunk finished, checkpoint file not touched yet
    | Truncated(next: nat)                              // checkpoint file emptied, not written yet
    | Complete                                          // ran to the end of the file
    | Raised                                            // a conflict in mode Refuse ended the run

  datatype State = State(table: Table, file: File, chunkSize: nat, phase: Phase)

  datatype Config = Config(csv: seq<Record>, mode: OnConflict)

  datatype Event =
    | Launch(chunkSize: nat)      // read the checkpoint file and begin
    | Insert                      // to_sql with plain inserts succeeds
    | InsertFails(k: nat)          // IntegrityError, k rows of the chunk committed
    | InsertDies(k: nat)           // the process dies inside the plain insert, k rows committed
    | UpsertRow
    | UpsertDone
    | Truncate
    | Write
    | EndOfFile
    | Crash                       // or an ordinary exit
    | SetBack(file: File)         // while down, the checkpoint file is lost or reverts to an earlier position

  function ChunkLen(cfg: Config, s: State): nat
    requires s.phase.AtChunk? && s.phase.next < |cfg.csv|
  {
    if s.phase.next + s.chunkSize <= |cfg.csv| then s.chunkSize else |cfg.csv| - s.phase.next
  }

  function Chunk(cfg: Config, s: State): seq<Record>
    requires s.phase.AtChunk? && s.phase.next < |cfg.csv|
  {
    cfg.csv[s.phase.next..s.phase.next + ChunkLen(cfg, s)]
  }

  ghost predicate Enabled(cfg: Config, s: State, e: Event) {
    match e
    case Launch(chunkSize) => s.phase.Down? && chunkSize > 0
    case Insert => s.phase.AtChunk? && s.phase.next < |cfg.csv| && Insertable(s.table, Chunk(cfg, s))
    case InsertFails(k) => s.phase.AtChunk? && s.phase.next < |cfg.csv| && !Insertable(s.table, Chunk(cfg, s))
        && k <= ChunkLen(cfg, s) && Insertable(s.table, Chunk(cfg, s)[..k])
    case InsertDies(k) => s.phase.AtChunk? && s.phase.next < |cfg.csv|
        && k <= ChunkLen(cfg, s) && Insertable(s.table, Chunk(cfg, s)[..k])
    case UpsertRow => s.phase.Upserting? && s.phase.done < s.phase.len && s.phase.next + s.phase.len <= |cfg.csv|
    case UpsertDone => s.phase.Upserting? && s.phase.done == s.phase.len
    case Truncate => s.phase.Saving?
    case Write => s.phase.Truncated?
    case EndOfFile => s.phase.AtChunk? && s.phase.next >= |cfg.csv|
    case Crash => true
    case SetBack(file) => s.phase.Down? && ResumeAt(file) <= ResumeAt(s.file)
  }

  function Next(cfg: Config, s: State, e: Event): State
    requires Enabled(cfg, s, e)
  {
    match e
    case Launch(chunkSize) => s.(chunkSize := chunkSize, phase := AtChunk(ResumeAt(s.file) - 1))
    case Insert => s.(table := InsertAll(s.table, Chunk(cfg, s)), phase := Saving(s.phase.next + ChunkLen(cfg, s)))
    case InsertFails(k) => s.(table := InsertAll(s.table, Chunk(cfg, s)[..k]),
        phase := if cfg.mode.Refuse? then Raised else Upserting(s.phase.next, ChunkLen(cfg, s), 0))
    case InsertDies(k) => s.(table := InsertAll(s.table, Chunk(cfg, s)[..k]), phase := Down)
    case UpsertRow => s.(table := UpsertOne(cfg.mode, s.table, cfg.csv[s.phase.next + s.phase.done]),
        phase := s.phase.(done := s.phase.done + 1))
    case UpsertDone => s.(phase := Saving(s.phase.next + s.phase.len))
    case Truncate => s.(file := Unreadable, phase := Truncated(s.phase.next))
    case Write => s.(file := Number(s.phase.next + 1), phase := AtChunk(s.phase.next))
    case EndOfFile => s.(phase := Complete)
    case Crash => s.(phase := Down)
    case SetBack(file) => s.(file := file)
  }

  ghost predicate Runs(cfg: Config, s: State, events: seq<Event>)
    decreases |events|
  {
    events == [] || (Enabled(cfg, s, events[0]) && Runs(cfg, Next(cfg, s, events[0]), events[1..]))
  }

  ghost function Reached(cfg: Config, s: State, events: seq<Event>): State
    requires Runs(cfg, s, events)
    decreases |events|
  {
    if events == [] then s else Reached(cfg, Next(cfg, s, events[0]), events[1..])
  }

  // ---------- Invariant ----------

  ghost predicate SameAt(a: Table, b: Table, k: Key) {
    (k in a <==> k in b) && (k in a ==> a[k] == b[k])
  }

  /** What a row holds outside the columns of the file. */
  function Rest(t: Table, k: Key, cols: set<string>): Data {
    if k in t then Without(t[k], cols) else NO_DATA
  }

  /**
   Loading can go on from data row n: every key that occurs no more from n on already has its final
   row, and no row has lost what an overwrite keeps (or, when the first writer wins, what was written first).
   */
  ghost predicate Covered(cfg: Config, cols: set<string>, t0: Table, t: Table, n: nat)
    requires n <= |cfg.csv|
  {
    var final := Upsert(cfg.mode, t0, cfg.csv);
    && t0.Keys <= t.Keys
    && if cfg.mode.Overwrite? then
         && (forall k | k !in Keys(cfg.csv[n..]) :: SameAt(t, final, k))
         && (forall k :: Rest(t, k, cols) == Rest(t0, k, cols))
       else
         && Keys(cfg.csv[..n]) <= t.Keys
         && (forall k | k in t :: SameAt(t, final, k))
  }

  lemma CoveredEarlier(cfg: Config, cols: set<string>, t0: Table, t: Table, n: nat, m: nat)
    requires m <= n <= |cfg.csv| && Covered(cfg, cols, t0, t, n)
    ensures Covered(cfg, cols, t0, t, m)
  {
    assert forall i | n <= i < |cfg.csv| :: cfg.csv[i] in cfg.csv[m..];
    assert forall r | r in cfg.csv[n..] :: r in cfg.csv[m..];
    assert cfg.csv[..m] == cfg.csv[..n][..m];
    KeysOfPrefix(cfg.csv[..n], m);
  }

  /** Upserting the next row moves the covered point past it. */
  lemma CoveredStep(cfg: Config, cols: set<string>, t0: Table, t: Table, n: nat)
    requires n < |cfg.csv| && Uniform(cfg.csv, cols) && Covered(cfg, cols, t0, t, n)
    ensures Covered(cfg, cols, t0, UpsertOne(cfg.mode, t, cfg.csv[n]), n + 1)
  {
    if cfg.mode.Overwrite? {
      CoveredStepOverwrite(cfg, cols, t0, t, n);
    } else {
      CoveredStepKeep(cfg, cols, t0, t, n);
    }
  }

  lemma CoveredStepOverwrite(cfg: Config, cols: set<string>, t0: Table, t: Table, n: nat)
    requires n < |cfg.csv| && Uniform(cfg.csv, cols) && Covered(cfg, cols, t0, t, n) && cfg.mode.Overwrite?
    ensures Covered(cfg, cols, t0, UpsertOne(cfg.mode, t, cfg.csv[n]), n + 1)
  {
    hide LastData, Upsert, Keys, UpsertOne, Rest;
    var r := cfg.csv[n];
    assert cfg.csv[n..] == [r] + cfg.csv[n + 1..];
    KeysAppend([r], cfg.csv[n + 1..]);
    KeysOne(r);
    var u := UpsertOne(Overwrite, t, r);
    OneTouched(Overwrite, t, r);
    RestKept(t, t0, r, cols);
    forall k ensures Rest(u, k, cols) == Rest(t0, k, cols) {
      if k != r.key {
        RestSame(t, u, k, cols);
      }
    }
    if r.key !in Keys(cfg.csv[n + 1..]) {
      OverwriteIsLastWriter(t0, cfg.csv, cols);
      LastAt(cfg.csv, n);
      NewestWins(t, t0, r, cols);
    }
    var final := Upsert(Overwrite, t0, cfg.csv);
    forall k | k !in Keys(cfg.csv[n + 1..]) ensures SameAt(u, final, k) {
      if k != r.key {
        assert SameAt(u, t, k) && SameAt(t, final, k);
      }
    }
  }

  lemma CoveredStepKeep(cfg: Config, cols: set<string>, t0: Table, t: Table, n: nat)
    requires n < |cfg.csv| && Covered(cfg, cols, t0, t, n) && !cfg.mode.Overwrite?
    ensures Covered(cfg, cols, t0, UpsertOne(cfg.mode, t, cfg.csv[n]), n + 1)
  {
    hide FirstData, Upsert, Keys;
    var r := cfg.csv[n];
    assert cfg.csv[..n + 1] == cfg.csv[..n] + [r];
    KeysAppend(cfg.csv[..n], [r]);
    KeysOne(r);
    if r.key !in t {
      IgnoreIsFirstWriter(cfg.mode, t0, cfg.csv);
      FirstAt(cfg.csv, n);
    }
  }

  lemma OneTouched(mode: OnConflict, t: Table, r: Record)
    ensures forall k | k != r.key :: SameAt(UpsertOne(mode, t, r), t, k)
    ensures UpsertOne(mode, t, r).Keys == t.Keys + {r.key}
  {
  }

  lemma RestSame(t: Table, u: Table, k: Key, cols: set<string>)
    requires SameAt(u, t, k)
    ensures Rest(u, k, cols) == Rest(t, k, cols)
  {
  }

  lemma KeysOne(r: Record)
    ensures Keys([r]) == {r.key}
  {
  }

  lemma KeysAppend(a: seq<Record>, b: seq<Record>)
    ensures Keys(a + b) == Keys(a) + Keys(b)
  {
  }

  lemma RestKept(t: Table, t0: Table, r: Record, cols: set<string>)
    requires r.data.cells.Keys == cols && Rest(t, r.key, cols) == Rest(t0, r.key, cols)
    ensures Rest(UpsertOne(Overwrite, t, r), r.key, cols) == Rest(t0, r.key, cols)
  {
    if r.key in t {
      assert (t[r.key].cells + r.data.cells) - cols == t[r.key].cells - cols;
    } else {
      assert r.data.cells - cols == map[];
    }
  }

  lemma NewestWins(t: Table, t0: Table, r: Record, cols: set<string>)
    requires t0.Keys <= t.Keys && r.data.cells.Keys == cols && Rest(t, r.key, cols) == Rest(t0, r.key, cols)
    ensures UpsertOne(Overwrite, t, r)[r.key] == Merge(BaseOf(t0, r.key), r.data)
  {
    RestIsEnough(BaseOf(t0, r.key), r.data, cols);
    if r.key in t {
      RestIsEnough(t[r.key], r.data, cols);
    } else {
      assert map[] + r.data.cells == r.data.cells;
    }
    if r.key !in t0 {
      assert NO_DATA.cells - cols == map[];
    }
  }

  lemma RestIsEnough(base: Data, late: Data, cols: set<string>)
    requires late.cells.Keys == cols
    ensures Merge(base, late) == Merge(Without(base, cols), late)
  {
    assert base.cells + late.cells == (base.cells - cols) + late.cells;
  }

  lemma {:induction false} CoveredRun(cfg: Config, cols: set<string>, t0: Table, t: Table, n: nat, m: nat)
    requires n <= m <= |cfg.csv| && Uniform(cfg.csv, cols) && Covered(cfg, cols, t0, t, n)
    ensures Covered(cfg, cols, t0, Upsert(cfg.mode, t, cfg.csv[n..m]), m)
    decreases m
  {
    hide Covered;
    if n < m {
      CoveredRun(cfg, cols, t0, t, n, m - 1);
      assert cfg.csv[n..m][..m - n - 1] == cfg.csv[n..m - 1];
      CoveredStep(cfg, cols, t0, Upsert(cfg.mode, t, cfg.csv[n..m - 1]), m - 1);
    } else {
      assert cfg.csv[n..m] == [];
    }
  }

  lemma CoveredInsert(cfg: Config, cols: set<string>, t0: Table, t: Table, n: nat, m: nat)
    requires n <= m <= |cfg.csv| && Uniform(cfg.csv, cols) && Covered(cfg, cols, t0, t, n)
    requires Insertable(t, cfg.csv[n..m])
    ensures Covered(cfg, cols, t0, InsertAll(t, cfg.csv[n..m]), m)
  {
    PlainInsertIsUpsert(cfg.mode, t, cfg.csv[n..m]);
    CoveredRun(cfg, cols, t0, t, n, m);
  }

  /** The data row from which the table is covered, as the phase implies. */
  function Front(s: State): nat {
    match s.phase
    case AtChunk(next) => next
    case Upserting(next, _, done) => next + done
    case Saving(next) => next
    case Truncated(next) => next
    case _ => ResumeAt(s.file) - 1
  }

  ghost predicate Inv(cfg: Config, cols: set<string>, t0: Table, s: State) {
    && ResumeAt(s.file) - 1 <= Front(s) <= |cfg.csv|
    && (s.phase.Upserting? ==> s.phase.done <= s.phase.len && s.phase.next + s.phase.len <= |cfg.csv|)
    && (s.phase.Upserting? ==> ResumeAt(s.file) - 1 <= s.phase.next)
    && (s.phase.Complete? ==> Front(s) == |cfg.csv|)
    && (s.phase.AtChunk? ==> s.phase.next == ResumeAt(s.file) - 1)
    && Covered(cfg, cols, t0, s.table, Front(s))
  }

  lemma SliceOfSlice(rows: seq<Record>, n: nat, len: nat, k: nat)
    requires k <= len && n + len <= |rows|
    ensures rows[n..n + len][..k] == rows[n..n + k]
  {
  }

  lemma ChunkRows(cfg: Config, s: State)
    requires s.phase.AtChunk? && s.phase.next < |cfg.csv|
    ensures forall i | s.phase.next <= i < s.phase.next + ChunkLen(cfg, s) ::
        cfg.csv[i] == Chunk(cfg, s)[i - s.phase.next]
  {
  }

  /** Inserting the first k rows of a chunk leaves the table covered from there, and from the start of the chunk. */
  lemma CoveredPrefix(cfg: Config, cols: set<string>, t0: Table, s: State, k: nat)
    requires s.phase.AtChunk? && s.phase.next < |cfg.csv| && Uniform(cfg.csv, cols)
    requires Covered(cfg, cols, t0, s.table, s.phase.next)
    requires k <= ChunkLen(cfg, s) && Insertable(s.table, Chunk(cfg, s)[..k])
    ensures Covered(cfg, cols, t0, InsertAll(s.table, Chunk(cfg, s)[..k]), s.phase.next + k)
    ensures Covered(cfg, cols, t0, InsertAll(s.table, Chunk(cfg, s)[..k]), s.phase.next)
  {
    hide Covered, Uniform, Insertable, InsertAll;
    SliceOfSlice(cfg.csv, s.phase.next, ChunkLen(cfg, s), k);
    CoveredInsert(cfg, cols, t0, s.table, s.phase.next, s.phase.next + k);
    CoveredEarlier(cfg, cols, t0, InsertAll(s.table, Chunk(cfg, s)[..k]), s.phase.next + k, s.phase.next);
  }

  lemma StepKeepsInv(cfg: Config, cols: set<string>, t0: Table, s: State, e: Event)
    requires Uniform(cfg.csv, cols) && Inv(cfg, cols, t0, s) && Enabled(cfg, s, e)
    ensures Inv(cfg, cols, t0, Next(cfg, s, e))
  {
    hide Covered, Uniform, Insertable, InsertAll, UpsertOne;
    var u := Next(cfg, s, e);
    match e {
      case Insert =>
        assert Chunk(cfg, s)[..ChunkLen(cfg, s)] == Chunk(cfg, s);
        CoveredPrefix(cfg, cols, t0, s, ChunkLen(cfg, s));
      case InsertFails(k) =>
        CoveredPrefix(cfg, cols, t0, s, k);
      case InsertDies(k) =>
        CoveredPrefix(cfg, cols, t0, s, k);
      case UpsertRow =>
        CoveredStep(cfg, cols, t0, s.table, s.phase.next + s.phase.done);
      case Crash =>
        CoveredEarlier(cfg, cols, t0, s.table, Front(s), Front(u));
      case SetBack(file) =>
        CoveredEarlier(cfg, cols, t0, s.table, Front(s), Front(u));
      case _ =>
    }
  }

  lemma {:induction false} RunKeepsInv(cfg: Config, cols: set<string>, t0: Table, s: State, events: seq<Event>)
    requires Uniform(cfg.csv, cols) && Inv(cfg, cols, t0, s) && Runs(cfg, s, events)
    ensures Inv(cfg, cols, t0, Reached(cfg, s, events))
    decreases |events|
  {
    hide Inv, Enabled;
    if events != [] {
      StepKeepsInv(cfg, cols, t0, s, events[0]);
      RunKeepsInv(cfg, cols, t0, Next(cfg, s, events[0]), events[1..]);
    }
  }

  // ---------- Main results ----------

  /** Not running, some table, and a checkpoint file that says nothing has been loaded. */
  ghost predicate Fresh(s: State) {
    s.phase.Down? && ResumeAt(s.file) == 1
  }

  lemma FreshInv(cfg: Config, cols: set<string>, s: State)
    requires Fresh(s) && Uniform(cfg.csv, cols)
    ensures Inv(cfg, cols, s.table, s)
  {
    hide LastData, FirstData, Upsert;
    assert cfg.csv[0..] == cfg.csv;
    if cfg.mode.Overwrite? {
      OverwriteIsLastWriter(s.table, cfg.csv, cols);
    } else {
      IgnoreIsFirstWriter(cfg.mode, s.table, cfg.csv);
    }
  }

  /** Covered to the end means loaded. */
  lemma CoveredAll(cfg: Config, cols: set<string>, t0: Table, t: Table)
    requires Covered(cfg, cols, t0, t, |cfg.csv|)
    ensures t == Upsert(cfg.mode, t0, cfg.csv)
  {
    hide Upsert, FirstData, Keys;
    var final := Upsert(cfg.mode, t0, cfg.csv);
    assert cfg.csv[|cfg.csv|..] == [] && cfg.csv[..|cfg.csv|] == cfg.csv;
    KeysNone();
    if !cfg.mode.Overwrite? {
      IgnoreIsFirstWriter(cfg.mode, t0, cfg.csv);
    }
    forall k ensures SameAt(t, final, k) {
    }
    SameEverywhere(t, final);
  }

  lemma KeysNone()
    ensures Keys([]) == {}
  {
  }

  lemma SameEverywhere(a: Table, b: Table)
    requires forall k :: SameAt(a, b, k)
    ensures a == b
  {
    forall k ensures k in a <==> k in b {
      assert SameAt(a, b, k);
    }
    forall k | k in a ensures a[k] == b[k] {
      assert SameAt(a, b, k);
    }
  }

  /**
   Crash recovery equals one clean load: after any finite history of launches, crashes and lost or reverted
   checkpoint files, a run that gets to the end of the file has left exactly the upsert of all rows, in order,
   over the initial table.
   */
  lemma RecoveryEqualsCleanLoad(cfg: Config, cols: set<string>, s: State, events: seq<Event>)
    requires Uniform(cfg.csv, cols) && Fresh(s) && Runs(cfg, s, events)
    requires Reached(cfg, s, events).phase.Complete?
    ensures Reached(cfg, s, events).table == Upsert(cfg.mode, s.table, cfg.csv)
    ensures cfg.mode.Overwrite? ==> LastWriterWins(s.table, cfg.csv, Reached(cfg, s, events).table)
    ensures !cfg.mode.Overwrite? ==> FirstWriterWins(s.table, cfg.csv, Reached(cfg, s, events).table)
  {
    hide Covered, LastWriterWins, FirstWriterWins, Runs, Reached;
    FreshInv(cfg, cols, s);
    RunKeepsInv(cfg, cols, s.table, s, events);
    CoveredAll(cfg, cols, s.table, Reached(cfg, s, events).table);
    if cfg.mode.Overwrite? {
      OverwriteIsLastWriter(s.table, cfg.csv, cols);
    } else {
      IgnoreIsFirstWriter(cfg.mode, s.table, cfg.csv);
    }
  }

  /**
   The checkpoint never leads: whatever is on disk at whatever moment, loading just the rows the
   stored checkpoint does not skip still ends in the right table.
   */
  lemma CheckpointNeverLeads(cfg: Config, cols: set<string>, s: State, events: seq<Event>)
    requires Uniform(cfg.csv, cols) && Fresh(s) && Runs(cfg, s, events)
    ensures var now := Reached(cfg, s, events);
      && ResumeAt(now.file) - 1 <= |cfg.csv|
      && Upsert(cfg.mode, now.table, cfg.csv[ResumeAt(now.file) - 1..]) == Upsert(cfg.mode, s.table, cfg.csv)
  {
    hide Covered, Runs, Reached, Upsert;
    FreshInv(cfg, cols, s);
    RunKeepsInv(cfg, cols, s.table, s, events);
    var now := Reached(cfg, s, events);
    var n := ResumeAt(now.file) - 1;
    CoveredEarlier(cfg, cols, s.table, now.table, Front(now), n);
    CoveredRun(cfg, cols, s.table, now.table, n, |cfg.csv|);
    assert cfg.csv[n..|cfg.csv|] == cfg.csv[n..];
    CoveredAll(cfg, cols, s.table, Upsert(cfg.mode, now.table, cfg.csv[n..]));
  }

  // ---------- Mode Refuse ----------

  lemma RefuseStep(cfg: Config, cols: set<string>, t0: Table, s: State, e: Event)
    requires cfg.mode.Refuse? && !s.phase.Upserting? && Inv(cfg, cols, t0, s) && Enabled(cfg, s, e)
    requires Insertable(t0, cfg.csv[..Front(s)]) && Front(Next(cfg, s, e)) <= |cfg.csv|
    ensures !Next(cfg, s, e).phase.Upserting? && Insertable(t0, cfg.csv[..Front(Next(cfg, s, e))])
  {
    hide InsertAll, Upsert;
    var m := Front(Next(cfg, s, e));
    if e.Insert? {
      var n := s.phase.next;
      ChunkRows(cfg, s);
      assert forall i | 0 <= i < n :: cfg.csv[i] == cfg.csv[..n][i];
      forall i, j | 0 <= i < j < m ensures cfg.csv[i].key != cfg.csv[j].key {
        if i >= n {
          assert cfg.csv[i] == Chunk(cfg, s)[i - n] && cfg.csv[j] == Chunk(cfg, s)[j - n];
        } else if j < n {
          assert cfg.csv[..n][i].key != cfg.csv[..n][j].key;
        } else {
          assert cfg.csv[i] in cfg.csv[..n];
          assert Chunk(cfg, s)[j - n].key !in s.table;
        }
      }
      forall i | 0 <= i < m ensures cfg.csv[i].key !in t0 {
        if i < n { assert cfg.csv[..n][i].key !in t0; } else { assert Chunk(cfg, s)[i - n].key !in s.table; }
      }
    } else {
      assert m <= Front(s);
      assert forall i | 0 <= i < m :: cfg.csv[..m][i] == cfg.csv[..Front(s)][i];
    }
  }

  lemma {:induction false} RefuseRun(cfg: Config, cols: set<string>, t0: Table, s: State, events: seq<Event>)
    requires cfg.mode.Refuse? && !s.phase.Upserting? && Uniform(cfg.csv, cols) && Inv(cfg, cols, t0, s)
    requires Insertable(t0, cfg.csv[..Front(s)]) && Runs(cfg, s, events)
    ensures var r := Reached(cfg, s, events);
      Front(r) <= |cfg.csv| && Insertable(t0, cfg.csv[..Front(r)]) && Inv(cfg, cols, t0, r)
    decreases |events|
  {
    hide Covered, Enabled, Insertable;
    if events != [] {
      StepKeepsInv(cfg, cols, t0, s, events[0]);
      RefuseStep(cfg, cols, t0, s, events[0]);
      RefuseRun(cfg, cols, t0, Next(cfg, s, events[0]), events[1..]);
    }
  }

  /** Refusing conflicts, only a file without any conflict is ever loaded to the end. */
  lemma RefuseCompletesOnlyClean(cfg: Config, cols: set<string>, s: State, events: seq<Event>)
    requires cfg.mode.Refuse? && Uniform(cfg.csv, cols) && Fresh(s) && Runs(cfg, s, events)
    requires Reached(cfg, s, events).phase.Complete?
    ensures Insertable(s.table, cfg.csv) && Reached(cfg, s, events).table == InsertAll(s.table, cfg.csv)
  {
    hide Covered, Runs, Reached;
    FreshInv(cfg, cols, s);
    RefuseRun(cfg, cols, s.table, s, events);
    assert cfg.csv[..|cfg.csv|] == cfg.csv;
    RecoveryEqualsCleanLoad(cfg, cols, s, events);
    PlainInsertIsUpsert(cfg.mode, s.table, cfg.csv);
  }

  // ---------- The loader itself ----------

  lemma {:induction false} RunsConcat(cfg: Config, s: State, a: seq<Event>, b: seq<Event>)
    requires Runs(cfg, s, a) && Runs(cfg, Reached(cfg, s, a), b)
    ensures Runs(cfg, s, a + b) && Reached(cfg, s, a + b) == Reached(cfg, Reached(cfg, s, a), b)
    decreases |a|
  {
    hide Enabled, Next;
    if a == [] {
      assert a + b == b;
    } else {
      assert (a + b)[1..] == a[1..] + b;
      RunsConcat(cfg, Next(cfg, s, a[0]), a[1..], b);
    }
  }

  lemma RunsOne(cfg: Config, s: State, e: Event)
    requires Enabled(cfg, s, e)
    ensures Runs(cfg, s, [e]) && Reached(cfg, s, [e]) == Next(cfg, s, e)
  {
    assert [e][1..] == [];
  }

  lemma {:induction false} UpsertEvents(cfg: Config, s: State, done: nat)
    requires s.phase.Upserting? && s.phase.done == 0 && done <= s.phase.len && s.phase.next + s.phase.len <= |cfg.csv|
    ensures var es := seq(done, _ => UpsertRow);
      && Runs(cfg, s, es)
      && Reached(cfg, s, es) == s.(table := Upsert(cfg.mode, s.table, cfg.csv[s.phase.next..s.phase.next + done]),
                                   phase := s.phase.(done := done))
  {
    var n := s.phase.next;
    if done > 0 {
      UpsertEvents(cfg, s, done - 1);
      var es := seq(done - 1, _ => UpsertRow);
      RunsOne(cfg, Reached(cfg, s, es), UpsertRow);
      RunsConcat(cfg, s, es, [UpsertRow]);
      assert seq(done, _ => UpsertRow) == es + [UpsertRow];
      assert cfg.csv[n..n + done][..done - 1] == cfg.csv[n..n + done - 1];
    } else {
      assert cfg.csv[n..n] == [];
    }
  }

  /** The two checkpoint-file steps that close a chunk. */
  lemma SaveEvents(cfg: Config, s: State)
    requires s.phase.Saving?
    ensures Runs(cfg, s, [Truncate, Write])
    ensures Reached(cfg, s, [Truncate, Write]) == s.(file := Number(s.phase.next + 1), phase := AtChunk(s.phase.next))
  {
    var u := Next(cfg, s, Truncate);
    RunsOne(cfg, u, Write);
    RunsOne(cfg, s, Truncate);
    RunsConcat(cfg, s, [Truncate], [Write]);
    assert [Truncate] + [Write] == [Truncate, Write];
  }

  /** The steps that carry a whole chunk, by either path, from one read of the file to the next. */
  lemma ChunkEvents(cfg: Config, s: State, k: nat, cols: set<string>) returns (es: seq<Event>)
    requires s.phase.AtChunk? && s.phase.next < |cfg.csv| && Uniform(cfg.csv, cols)
    requires Insertable(s.table, Chunk(cfg, s))
      || (!cfg.mode.Refuse? && k <= ChunkLen(cfg, s) && Insertable(s.table, Chunk(cfg, s)[..k]))
    ensures var n := s.phase.next + ChunkLen(cfg, s);
      && Runs(cfg, s, es)
      && Reached(cfg, s, es) == s.(table := Upsert(cfg.mode, s.table, Chunk(cfg, s)), file := Number(n + 1), phase := AtChunk(n))
  {
    hide Insertable, InsertAll, Upsert, Uniform, UpsertOne, Runs, Reached;
    var chunk, len := Chunk(cfg, s), ChunkLen(cfg, s);
    if Insertable(s.table, chunk) {
      PlainInsertIsUpsert(cfg.mode, s.table, chunk);
      es := [Insert];
      RunsOne(cfg, s, Insert);
    } else {
      RunsOne(cfg, s, InsertFails(k));
      var u := Next(cfg, s, InsertFails(k));
      UniformPart(cfg.csv, cols, s.phase.next, s.phase.next + len);
      FallbackErasesPrefix(cfg.mode, s.table, chunk, k, cols);
      UpsertEvents(cfg, u, len);
      var ups := seq(len, _ => UpsertRow);
      RunsConcat(cfg, s, [InsertFails(k)], ups);
      es := [InsertFails(k)] + ups;
      RunsOne(cfg, Reached(cfg, s, es), UpsertDone);
      RunsConcat(cfg, s, es, [UpsertDone]);
      es := es + [UpsertDone];
    }
    SaveEvents(cfg, Reached(cfg, s, es));
    RunsConcat(cfg, s, es, [Truncate, Write]);
    es := es + [Truncate, Write];
  }

  /** The loader's own trace so far: it has come from start and is about to read at data row n. */
  ghost predicate Trace(cfg: Config, start: State, events: seq<Event>, now: State) {
    Runs(cfg, start, events) && Reached(cfg, start, events) == now
  }

  lemma TraceLaunch(cfg: Config, t: Table, file: File, chunkSize: nat)
    requires chunkSize > 0
    ensures Trace(cfg, State(t, file, chunkSize, Down), [Launch(chunkSize)],
                  State(t, file, chunkSize, AtChunk(ResumeAt(file) - 1)))
  {
    RunsOne(cfg, State(t, file, chunkSize, Down), Launch(chunkSize));
  }

  lemma TraceChunk(cfg: Config, cols: set<string>, start: State, events: seq<Event>, t: Table, file: File,
                   chunkSize: nat, n: nat, len: nat, k: nat) returns (more: seq<Event>)
    requires Trace(cfg, start, events, State(t, file, chunkSize, AtChunk(n))) && Uniform(cfg.csv, cols)
    requires n < |cfg.csv| && len == if n + chunkSize <= |cfg.csv| then chunkSize else |cfg.csv| - n
    requires Insertable(t, cfg.csv[n..n + len])
      || (!cfg.mode.Refuse? && k <= len && Insertable(t, cfg.csv[n..n + len][..k]))
    ensures Trace(cfg, start, more,
                  State(Upsert(cfg.mode, t, cfg.csv[n..n + len]), Number(n + len + 1), chunkSize, AtChunk(n + len)))
  {
    hide Runs, Reached, Insertable, Upsert, Uniform, Next, Enabled;
    var now := State(t, file, chunkSize, AtChunk(n));
    assert Chunk(cfg, now) == cfg.csv[n..n + len];
    var steps := ChunkEvents(cfg, now, k, cols);
    RunsConcat(cfg, start, events, steps);
    more := events + steps;
  }

  lemma TraceRefused(cfg: Config, start: State, events: seq<Event>, t: Table, file: File,
                     chunkSize: nat, n: nat, len: nat, k: nat)
    requires Trace(cfg, start, events, State(t, file, chunkSize, AtChunk(n))) && cfg.mode.Refuse?
    requires n < |cfg.csv| && len == if n + chunkSize <= |cfg.csv| then chunkSize else |cfg.csv| - n
    requires !Insertable(t, cfg.csv[n..n + len]) && k <= len && Insertable(t, cfg.csv[n..n + len][..k])
    ensures Trace(cfg, start, events + [InsertFails(k)],
                  State(InsertAll(t, cfg.csv[n..n + len][..k]), file, chunkSize, Raised))
  {
    hide Runs, Reached, Insertable, InsertAll;
    var now := State(t, file, chunkSize, AtChunk(n));
    assert Chunk(cfg, now) == cfg.csv[n..n + len];
    RunsOne(cfg, now, InsertFails(k));
    RunsConcat(cfg, start, events, [InsertFails(k)]);
  }

  lemma TraceEnd(cfg: Config, start: State, events: seq<Event>, t: Table, file: File, chunkSize: nat, n: nat)
    requires Trace(cfg, start, events, State(t, file, chunkSize, AtChunk(n))) && n >= |cfg.csv|
    ensures Trace(cfg, start, events + [EndOfFile], State(t, file, chunkSize, Complete))
  {
    hide Runs, Reached;
    RunsOne(cfg, State(t, file, chunkSize, AtChunk(n)), EndOfFile);
    RunsConcat(cfg, start, events, [EndOfFile]);
  }

  // ---------- When refusing conflicts can recover ----------

  ghost predicate Plain(cfg: Config, s: State) {
    && !s.phase.Upserting? && ResumeAt(s.file) - 1 <= Front(s) <= |cfg.csv|
    && (s.phase.AtChunk? ==> s.phase.next == ResumeAt(s.file) - 1)
    && (s.phase.Complete? ==> Front(s) == |cfg.csv|)
  }

  lemma InsertKeepsKeys(cfg: Config, t: Table, rows: seq<Record>)
    requires Insertable(t, rows)
    ensures InsertAll(t, rows).Keys == t.Keys + Keys(rows)
  {
    PlainInsertIsUpsert(cfg.mode, t, rows);
  }

  /** Fewer keys in the table, or fewer rows to go, only make inserting easier. */
  lemma InsertableLess(t: Table, u: Table, rows: seq<Record>, n: nat, m: nat)
    requires t.Keys <= u.Keys && n <= m <= |rows| && Insertable(u, rows[n..])
    ensures Insertable(t, rows[m..])
  {
    assert rows[m..] == rows[n..][m - n..];
  }

  lemma InsertableJoin(cfg: Config, t: Table, rows: seq<Record>, n: nat, m: nat)
    requires n <= m <= |rows| && Insertable(t, rows[n..m]) && Insertable(InsertAll(t, rows[n..m]), rows[m..])
    ensures Insertable(t, rows[n..])
  {
    var a, b := rows[n..m], rows[m..];
    InsertKeepsKeys(cfg, t, a);
    assert rows[n..] == a + b;
    forall i, j | 0 <= i < |a| && 0 <= j < |b| ensures a[i].key != b[j].key {
      KeyIn(a, i);
    }
  }

  lemma RefuseStepBack(cfg: Config, s: State, e: Event)
    requires cfg.mode.Refuse? && Plain(cfg, s) && Enabled(cfg, s, e)
    ensures Plain(cfg, Next(cfg, s, e))
    ensures Insertable(Next(cfg, s, e).table, cfg.csv[Front(Next(cfg, s, e))..]) ==> Insertable(s.table, cfg.csv[Front(s)..])
  {
    hide Insertable, InsertAll, UpsertOne;
    var u := Next(cfg, s, e);
    if e.InsertFails? || e.InsertDies? {
      InsertKeepsKeys(cfg, s.table, Chunk(cfg, s)[..e.k]);
    }
    if Insertable(u.table, cfg.csv[Front(u)..]) {
      if e.Insert? {
        InsertableJoin(cfg, s.table, cfg.csv, s.phase.next, s.phase.next + ChunkLen(cfg, s));
      } else {
        InsertableLess(s.table, u.table, cfg.csv, Front(u), Front(s));
      }
    }
  }

  lemma {:induction false} RefuseRunBack(cfg: Config, s: State, events: seq<Event>)
    requires cfg.mode.Refuse? && Plain(cfg, s) && Runs(cfg, s, events) && Reached(cfg, s, events).phase.Complete?
    ensures Insertable(s.table, cfg.csv[Front(s)..])
    decreases |events|
  {
    hide Insertable, Enabled, Next;
    if events != [] {
      RefuseStepBack(cfg, s, events[0]);
      RefuseRunBack(cfg, Next(cfg, s, events[0]), events[1..]);
    } else {
      NothingToInsert(s.table, cfg.csv);
    }
  }

  lemma NothingToInsert(t: Table, rows: seq<Record>)
    ensures Insertable(t, rows[|rows|..])
  {
  }

  /**
   With on_conflict 'fail', restarting helps exactly when the rows from the checkpoint on meet no key already
   in the table: a crash that left part of a chunk committed makes every later run raise.
   */
  lemma RefuseRecoversIff(cfg: Config, s: State)
    requires cfg.mode.Refuse? && s.phase.Down? && ResumeAt(s.file) - 1 <= |cfg.csv|
    ensures (exists events :: Runs(cfg, s, events) && Reached(cfg, s, events).phase.Complete?)
      <==> Insertable(s.table, cfg.csv[ResumeAt(s.file) - 1..])
  {
    hide Insertable, Runs, Reached, InsertAll;
    if events :| Runs(cfg, s, events) && Reached(cfg, s, events).phase.Complete? {
      RefuseRunBack(cfg, s, events);
    }
    if Insertable(s.table, cfg.csv[ResumeAt(s.file) - 1..]) {
      var events := CompletingRun(cfg, s);
    }
  }

  /** Once the row the loader would resume at is in the table, no later history completes. */
  lemma CommittedRowBlocks(cfg: Config, s: State, events: seq<Event>)
    requires cfg.mode.Refuse? && Plain(cfg, s) && Front(s) < |cfg.csv| && cfg.csv[Front(s)].key in s.table
    requires Runs(cfg, s, events)
    ensures !Reached(cfg, s, events).phase.Complete?
  {
    assert cfg.csv[Front(s)..][0] == cfg.csv[Front(s)];
    assert !Insertable(s.table, cfg.csv[Front(s)..]);
    if Reached(cfg, s, events).phase.Complete? {
      RefuseRunBack(cfg, s, events);
    }
  }

  /** A plain insert that failed or died after committing part of its chunk: every later history raises or dies. */
  lemma PartOfAChunkBlocks(cfg: Config, s: State, e: Event, later: seq<Event>)
    requires cfg.mode.Refuse? && Plain(cfg, s) && Enabled(cfg, s, e) && (e.InsertFails? || e.InsertDies?) && e.k > 0
    requires Runs(cfg, Next(cfg, s, e), later)
    ensures !Reached(cfg, Next(cfg, s, e), later).phase.Complete?
  {
    hide InsertAll, Insertable;
    var rows := Chunk(cfg, s)[..e.k];
    InsertKeepsKeys(cfg, s.table, rows);
    KeyIn(rows, 0);
    RefuseStepBack(cfg, s, e);
    CommittedRowBlocks(cfg, Next(cfg, s, e), later);
  }

  /** Two rows without any conflict, one chunk, a crash between them: nothing completes any more. */
  lemma TwoRowsAndACrash(later: seq<Event>)
    requires var cfg := Config([Record("a", NO_DATA), Record("b", NO_DATA)], Refuse);
      Runs(cfg, State(map["a" := NO_DATA], Unreadable, 2, Down), later)
    ensures var cfg := Config([Record("a", NO_DATA), Record("b", NO_DATA)], Refuse);
      var (start, crash) := (State(map[], Unreadable, 2, Down), [Launch(2), InsertDies(1)]);
      && Fresh(start) && Insertable(start.table, cfg.csv) && Runs(cfg, start, crash)
      && Reached(cfg, start, crash) == State(map["a" := NO_DATA], Unreadable, 2, Down)
      && !Reached(cfg, Reached(cfg, start, crash), later).phase.Complete?
  {
    var cfg := Config([Record("a", NO_DATA), Record("b", NO_DATA)], Refuse);
    var start := State(map[], Unreadable, 2, Down);
    var s := Next(cfg, start, Launch(2));
    RunsOne(cfg, start, Launch(2));
    assert Chunk(cfg, s)[..1] == [Record("a", NO_DATA)];
    assert InsertAll(s.table, [Record("a", NO_DATA)]) == map["a" := NO_DATA] by {
      assert InsertAll(s.table, []) == s.table;
    }
    RunsOne(cfg, s, InsertDies(1));
    RunsConcat(cfg, start, [Launch(2)], [InsertDies(1)]);
    assert [Launch(2)] + [InsertDies(1)] == [Launch(2), InsertDies(1)];
    PartOfAChunkBlocks(cfg, s, InsertDies(1), later);
  }

  lemma CompletingRun(cfg: Config, s: State) returns (events: seq<Event>)
    requires cfg.mode.Refuse? && s.phase.Down? && ResumeAt(s.file) - 1 <= |cfg.csv|
    requires Insertable(s.table, cfg.csv[ResumeAt(s.file) - 1..])
    ensures Runs(cfg, s, events) && Reached(cfg, s, events).phase.Complete?
  {
    hide Insertable, InsertAll, Upsert;
    var n, size := ResumeAt(s.file) - 1, |cfg.csv| + 1;
    events := [Launch(size)];
    RunsOne(cfg, s, Launch(size));
    if n < |cfg.csv| {
      var now := Reached(cfg, s, events);
      assert Chunk(cfg, now) == cfg.csv[n..];
      WholeRest(cfg, now, n);
      RunsConcat(cfg, s, events, [Insert, Truncate, Write]);
      events := events + [Insert, Truncate, Write];
    }
    RunsOne(cfg, Reached(cfg, s, events), EndOfFile);
    RunsConcat(cfg, s, events, [EndOfFile]);
    events := events + [EndOfFile];
  }

  lemma WholeRest(cfg: Config, s: State, n: nat)
    requires s.phase == AtChunk(n) && n < |cfg.csv| && Insertable(s.table, Chunk(cfg, s))
    ensures Runs(cfg, s, [Insert, Truncate, Write])
    ensures Reached(cfg, s, [Insert, Truncate, Write]).phase == AtChunk(n + ChunkLen(cfg, s))
  {
    hide Insertable, InsertAll;
    RunsOne(cfg, s, Insert);
    SaveEvents(cfg, Next(cfg, s, Insert));
    RunsConcat(cfg, s, [Insert], [Truncate, Write]);
    assert [Insert] + [Truncate, Write] == [Insert, Truncate, Write];
  }

  class Loader {
    var table: Table
    var file: File

    constructor (table: Table, file: File)
      ensures this.table == table && this.file == file
    {
      this.table, this.file := table, file;
    }

    /** All rows, or an error at the first conflict; keepPrefix says whether the rows before it stay committed. */
    method PlainInsert(rows: seq<Record>, keepPrefix: bool) returns (ok: bool, ghost k: nat)
      modifies this`table
      ensures ok <==> Insertable(old(table), rows)
      ensures ok ==> table == InsertAll(old(table), rows)
      ensures !ok ==> k <= |rows| && Insertable(old(table), rows[..k]) && table == InsertAll(old(table), rows[..k])
    {
      var before := table;
      k := 0;
      for i := 0 to |rows|
        invariant Insertable(before, rows[..i]) && table == InsertAll(before, rows[..i])
        invariant table.Keys == before.Keys + Keys(rows[..i])
      {
        if rows[i].key in table {
          NotInsertable(before, rows, i);
          k := if keepPrefix then i else 0;
          table := if keepPrefix then table else before;
          return false, k;
        }
        OneMore(before, rows, i);
        table := table[rows[i].key := rows[i].data];
      }
      assert rows[..|rows|] == rows;
      ok := true;
    }

    method UpsertRows(mode: OnConflict, rows: seq<Record>)
      modifies this`table
      ensures table == Upsert(mode, old(table), rows)
    {
      for i := 0 to |rows|
        invariant table == Upsert(mode, old(table), rows[..i])
      {
        assert rows[..i + 1][..i] == rows[..i];
        table := UpsertOne(mode, table, rows[i]);
      }
      assert rows[..|rows|] == rows;
    }

    /**
     One uninterrupted run. It only takes steps of the machine; when it succeeds it has upserted, in order,
     every row the checkpoint did not skip, whatever the chunk size and whichever chunks took the fast path.
     */
    method LoadData(cfg: Config, chunkSize: nat, keepPrefix: nat -> bool, ghost cols: set<string>)
      returns (ok: bool, ghost events: seq<Event>)
      requires chunkSize > 0 && Uniform(cfg.csv, cols)
      modifies this
      ensures Trace(cfg, State(old(table), old(file), chunkSize, Down), events,
                    State(table, file, chunkSize, if ok then Complete else Raised))
      ensures ok && ResumeAt(old(file)) - 1 <= |cfg.csv| ==>
        table == Upsert(cfg.mode, old(table), cfg.csv[ResumeAt(old(file)) - 1..]) && ResumeAt(file) - 1 == |cfg.csv|
      ensures !ok ==> cfg.mode.Refuse?
    {
      hide Trace, Insertable, InsertAll, Upsert, Uniform;
      ghost var start := State(table, file, chunkSize, Down);
      var checkpoint := ResumeAt(file);
      ghost var from := checkpoint - 1;
      events := [Launch(chunkSize)];
      TraceLaunch(cfg, table, file, chunkSize);
      assert from <= |cfg.csv| ==> cfg.csv[from..from] == [];
      UpsertNone(cfg.mode, table);
      while checkpoint - 1 < |cfg.csv|
        invariant checkpoint >= 1 && ResumeAt(file) == checkpoint && from <= checkpoint - 1
        invariant from <= |cfg.csv| ==> checkpoint - 1 <= |cfg.csv|
        invariant Trace(cfg, start, events, State(table, file, chunkSize, AtChunk(checkpoint - 1)))
        invariant from <= |cfg.csv| ==> table == Upsert(cfg.mode, old(table), cfg.csv[from..checkpoint - 1])
      {
        var n := checkpoint - 1;
        var len := if n + chunkSize <= |cfg.csv| then chunkSize else |cfg.csv| - n;
        var chunk := cfg.csv[n..n + len];
        ghost var before, fileBefore := table, file;
        var fast, k := PlainInsert(chunk, keepPrefix(n));
        if fast {
          PlainInsertIsUpsert(cfg.mode, before, chunk);
        } else if cfg.mode.Refuse? {
          TraceRefused(cfg, start, events, before, file, chunkSize, n, len, k);
          return false, events + [InsertFails(k)];
        } else {
          UniformPart(cfg.csv, cols, n, n + len);
          FallbackErasesPrefix(cfg.mode, before, chunk, k, cols);
          UpsertRows(cfg.mode, chunk);
        }
        checkpoint := checkpoint + len;
        file := Unreadable;
        file := Number(checkpoint);
        events := TraceChunk(cfg, cols, start, events, before, fileBefore, chunkSize, n, len, k);
        UpsertConcat(cfg.mode, old(table), cfg.csv[from..n], chunk);
        assert cfg.csv[from..n] + chunk == cfg.csv[from..n + len];
      }
      TraceEnd(cfg, start, events, table, file, chunkSize, checkpoint - 1);
      events := events + [EndOfFile];
      ok := true;
      if from <= |cfg.csv| {
        assert cfg.csv[from..] == cfg.csv[from..|cfg.csv|];
      }
    }
  }

  lemma UpsertNone(mode: OnConflict, t: Table)
    ensures Upsert(mode, t, []) == t
  {
  }

  lemma UniformPart(rows: seq<Record>, cols: set<string>, n: nat, m: nat)
    requires Uniform(rows, cols) && n <= m <= |rows|
    ensures Uniform(rows[n..m], cols)
  {
  }

  lemma NotInsertable(t: Table, rows: seq<Record>, i: nat)
    requires i < |rows| && rows[i].key in t.Keys + Keys(rows[..i])
    ensures !Insertable(t, rows)
    ensures Insertable(t, rows[..0]) && InsertAll(t, rows[..0]) == t
  {
    if rows[i].key in Keys(rows[..i]) {
      var r :| r in rows[..i] && r.key == rows[i].key;
      var j :| 0 <= j < i && rows[..i][j] == r;
      assert rows[j].key == rows[i].key;
    }
  }

  lemma OneMore(t: Table, rows: seq<Record>, i: nat)
    requires i < |rows| && Insertable(t, rows[..i]) && rows[i].key !in t.Keys + Keys(rows[..i])
    ensures Insertable(t, rows[..i + 1])
    ensures InsertAll(t, rows[..i + 1]) == InsertAll(t, rows[..i])[rows[i].key := rows[i].data]
    ensures Keys(rows[..i + 1]) == Keys(rows[..i]) + {rows[i].key}
  {
    hide Keys;
    assert rows[..i + 1][..i] == rows[..i];
    assert rows[..i + 1] == rows[..i] + [rows[i]];
    forall j | 0 <= j < i ensures rows[..i][j].key in Keys(rows[..i]) {
      KeyIn(rows[..i], j);
    }
    KeysAppend(rows[..i], [rows[i]]);
    KeysOne(rows[i]);
  }

  lemma KeyIn(rows: seq<Record>, j: nat)
    requires j < |rows|
    ensures rows[j].key in Keys(rows)
  {
  }
}

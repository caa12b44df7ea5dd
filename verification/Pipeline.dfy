/**
 The event pipeline as a step relation: a main thread that walks the binlog, four parse workers fed by a
 bounded queue, one write-back worker fed by a bounded queue of batches, and per-table writers that a DDL
 statement replaces.
 */
module Pipeline {
  import opened Text

  type Name = string

  /** The statements that matter here: those that open a table's next file, and all others. */
  datatype Ddl = Opens(table: Name) | Other

  /** A row event carries the text that parsing it yields. */
  datatype Event = Rows(table: Name, text: string) | Query(query: string, ddl: Ddl)

  const WORKERS: nat := 4
  const FIRST_QUEUE: nat := 40
  const LATER_QUEUE: nat := 20
  const BATCH: nat := 40
  const BACK_QUEUE: nat := 2

  predicate OccursAt(s: string, sub: string, i: nat)
    requires i <= |s|
  {
    sub <= s[i..]
  }

  predicate Contains(s: string, sub: string) {
    exists i :: 0 <= i <= |s| && OccursAt(s, sub, i)
  }

  predicate Skipped(query: string) {
    query == "BEGIN" || query == "COMMIT"
  }

  /** Is the pipeline emptied before the statement is executed? */
  predicate Drained(query: string) {
    !Skipped(query) && !Contains(query, "create") && !Contains(query, "CREATE")
  }

  // ---------- files ----------

  /** The number of the file each table writes to, and what every file holds. */
  datatype Files = Files(current: map<Name, nat>, text: map<(Name, nat), string>)

  /** A table's first statement opens file 0, each later one closes its file and opens the next. */
  function Open(f: Files, t: Name): Files {
    var k := if t in f.current then f.current[t] + 1 else 0;
    Files(f.current[t := k], f.text[(t, k) := ""])
  }

  function TextOf(f: Files, t: Name, k: nat): string {
    if (t, k) in f.text then f.text[(t, k)] else ""
  }

  function Write(f: Files, t: Name, s: string): Files {
    if t in f.current then f.(text := f.text[(t, f.current[t]) := TextOf(f, t, f.current[t]) + s]) else f
  }

  function Execute(f: Files, e: Event): Files
    requires e.Query?
  {
    if !Skipped(e.query) && e.ddl.Opens? then Open(f, e.ddl.table) else f
  }

  // ---------- state ----------

  datatype Pc =
    | Ready          // at an event
    | Flush          // a batch is full
    | DrainFlush     // before a drained statement: hand over the batch,
    | DrainParse     //   wait for the parse workers,
    | DrainBack      //   wait for the write-back worker
    | LastFlush      // the same three after the last event
    | LastParse
    | LastBack
    | Done

  datatype State = State(
    pos: nat,                        // the next event
    pc: Pc,
    queueSize: nat,                  // capacity of the parse queue
    queue: seq<nat>,                 // row events waiting for a parse worker
    running: set<nat>,               // row events being parsed
    parsed: set<nat>,                // row events whose future is complete
    batch: seq<nat>,                 // futures collected since the last hand-over
    backQueue: seq<seq<nat>>,        // batches waiting for the write-back worker
    backBatch: Option<seq<nat>>,     // what is left of the batch being written
    files: Files)

  function Init(): State {
    State(0, Ready, FIRST_QUEUE, [], {}, {}, [], [], None, Files(map[], map[]))
  }

  predicate AtRows(es: seq<Event>, s: State) {
    s.pc == Ready && s.pos < |es| && es[s.pos].Rows?
  }

  predicate AtQuery(es: seq<Event>, s: State) {
    s.pc == Ready && s.pos < |es| && es[s.pos].Query?
  }

  /** The parse workers have nothing to do. */
  predicate ParseIdle(s: State) {
    s.queue == [] && s.running == {}
  }

  predicate BackIdle(s: State) {
    s.backQueue == [] && s.backBatch.None?
  }

  // ---------- steps of the main thread ----------

  /** A row event is submitted when the parse queue has room. */
  predicate Submit(es: seq<Event>, s: State, t: State) {
    && AtRows(es, s) && |s.queue| < s.queueSize
    && t == s.(pos := s.pos + 1, queue := s.queue + [s.pos], batch := s.batch + [s.pos],
               pc := if |s.batch| + 1 >= BATCH then Flush else Ready)
  }

  /** The batch goes to the write-back queue when that has room. */
  predicate HandOver(s: State, t: State) {
    && (s.pc == Flush || s.pc == DrainFlush || s.pc == LastFlush) && |s.backQueue| < BACK_QUEUE
    && t == s.(batch := [], backQueue := s.backQueue + [s.batch],
               pc := if s.pc == Flush then Ready else if s.pc == DrainFlush then DrainParse else LastParse)
  }

  predicate MeetQuery(es: seq<Event>, s: State, t: State) {
    && AtQuery(es, s) && Drained(es[s.pos].query)
    && t == s.(pc := DrainFlush)
  }

  predicate AwaitParse(s: State, t: State) {
    && (s.pc == DrainParse || s.pc == LastParse) && ParseIdle(s)
    && t == s.(queueSize := if s.pc == DrainParse then LATER_QUEUE else s.queueSize,
               pc := if s.pc == DrainParse then DrainBack else LastBack)
  }

  /** A statement takes effect: at once if it is not drained, else when the write-back worker is through. */
  predicate RunQuery(es: seq<Event>, s: State, t: State) {
    && s.pos < |es| && es[s.pos].Query?
    && ((s.pc == Ready && !Drained(es[s.pos].query)) || (s.pc == DrainBack && BackIdle(s)))
    && t == s.(pos := s.pos + 1, pc := Ready, files := Execute(s.files, es[s.pos]))
  }

  predicate Finish(es: seq<Event>, s: State, t: State) {
    || (s.pc == Ready && s.pos == |es| && t == s.(pc := LastFlush))
    || (s.pc == LastBack && BackIdle(s) && t == s.(pc := Done))
  }

  predicate MainStep(es: seq<Event>, s: State, t: State) {
    Submit(es, s, t) || HandOver(s, t) || MeetQuery(es, s, t) || AwaitParse(s, t) || RunQuery(es, s, t) ||
      Finish(es, s, t)
  }

  // ---------- steps of the workers ----------

  predicate Take(s: State, t: State) {
    && s.queue != [] && |s.running| < WORKERS
    && t == s.(queue := s.queue[1..], running := s.running + {s.queue[0]})
  }

  predicate Parse(s: State, t: State, i: nat) {
    && i in s.running
    && t == s.(running := s.running - {i}, parsed := s.parsed + {i})
  }

  predicate TakeBatch(s: State, t: State) {
    && s.backQueue != [] && s.backBatch.None?
    && t == s.(backQueue := s.backQueue[1..], backBatch := Some(s.backQueue[0]))
  }

  /** The next future of the batch is awaited and written; without a writer the whole task dies. */
  predicate WriteOne(es: seq<Event>, s: State, t: State) {
    && s.backBatch.Some? && s.backBatch.value != [] && s.backBatch.value[0] in s.parsed
    && var i := s.backBatch.value[0];
    i < |es| && es[i].Rows? &&
    t == if es[i].table in s.files.current then
           s.(backBatch := Some(s.backBatch.value[1..]), files := Write(s.files, es[i].table, es[i].text))
         else s.(backBatch := None)
  }

  predicate EndBatch(s: State, t: State) {
    s.backBatch == Some([]) && t == s.(backBatch := None)
  }

  predicate WorkerStep(es: seq<Event>, s: State, t: State) {
    Take(s, t) || (exists i :: i in s.running && Parse(s, t, i)) || TakeBatch(s, t) || WriteOne(es, s, t) ||
      EndBatch(s, t)
  }

  predicate Step(es: seq<Event>, s: State, t: State) {
    MainStep(es, s, t) || WorkerStep(es, s, t)
  }

  ghost predicate StepAt(es: seq<Event>, run: seq<State>, k: nat)
    requires k + 1 < |run|
  {
    Step(es, run[k], run[k + 1])
  }

  /** A schedule from the start. */
  ghost predicate IsRun(es: seq<Event>, run: seq<State>) {
    run != [] && run[0] == Init() && forall k: nat :: k + 1 < |run| ==> StepAt(es, run, k)
  }

  predicate Finished(run: seq<State>) {
    run != [] && run[|run| - 1].pc.Done?
  }

  // ---------- the sequential meaning ----------

  function Apply(f: Files, e: Event): Files {
    if e.Rows? then Write(f, e.table, e.text) else Execute(f, e)
  }

  /** The binlog taken one event at a time. */
  function Sequential(es: seq<Event>): Files {
    if es == [] then Files(map[], map[])
    else Apply(Sequential(es[..|es| - 1]), es[|es| - 1])
  }

  /** Every row event comes after a statement that opened its table. */
  predicate Declared(es: seq<Event>) {
    forall i :: 0 <= i < |es| && es[i].Rows? ==> es[i].table in Sequential(es[..i]).current
  }
}

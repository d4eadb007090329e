/** The receipt of one user operation and its fingerprinter (internal/mycli/savepoint_receipt.go). */
module Receipt {
  import opened TableIds
  import opened FingerprintStream

  // The fingerprinter is that of savepoint_fingerprint.go; the loops that feed a receipt are those of
  // row_iter.go and row_iterator_transform.go. The hash is an arbitrary function of the byte stream.

  datatype Error =
    | AlreadyFinished | AlreadyFinalized | NilRow | Width | Undecodable | Unmarshalable
    | TypeMismatch | CompletedAs(kind: Kind) | NoObservation | FromCaller(code: int)

  // ---- Inputs ----

  /** A protobuf message: absent, or some content with the bytes deterministic marshalling
      makes of it. Different contents may marshal alike; marshalling may fail. */
  datatype Message = Absent | Message(content: int, wire: Option<Bytes>)

  /** A column of the row type. A nil field reads as an empty name and an absent type. */
  datatype Column = Column(name: Bytes, typ: Message)

  datatype Gcv = Gcv(typ: Message, value: Message)

  /** A cell that does not decode into a generic column value is None. */
  datatype Cell = Cell(name: Bytes, gcv: Option<Gcv>)

  datatype SpannerRow = Nil | SpannerRow(cells: seq<Cell>)

  datatype Kind = OfQuery | OfDml | OfBatch

  function KindOf(c: Completion): Kind {
    match c
    case Query => OfQuery
    case Dml(_) => OfDml
    case Batch(_) => OfBatch
  }

  // ---- Marshalling ----

  function Wire(m: Message): Option<Bytes> {
    if m.Absent? then Some([]) else m.wire
  }

  function EncodeColumns(columns: seq<Column>): Option<seq<Field>> {
    if columns == [] then Some([])
    else
      var last := columns[|columns| - 1];
      match (EncodeColumns(columns[..|columns| - 1]), Wire(last.typ))
      case (Some(front), Some(b)) => Some(front + [Field(last.name, b)])
      case _ => None
  }

  predicate Mismatch(want: Message, got: Message) {
    !want.Absent? && !got.Absent? && want != got
  }

  /** The bytes one typed value leaves on the stream, and why it stopped. */
  function WriteValue(want: Message, v: Gcv): (Bytes, Option<Error>) {
    match (Wire(v.typ), Wire(v.value))
    case (None, _) => ([], Some(Unmarshalable))
    case (Some(t), None) => (Prefixed(t), Some(Unmarshalable))
    case (Some(t), Some(b)) => (Prefixed(t) + Prefixed(b), if Mismatch(want, v.typ) then Some(TypeMismatch) else None)
  }

  /** The same for the first n values of a row: nothing is written after the first failure. */
  function WriteValues(columns: seq<Column>, values: seq<Gcv>, n: nat): (Bytes, Option<Error>)
    requires n <= |values| == |columns|
  {
    if n == 0 then ([], None)
    else
      var (bytes, error) := WriteValues(columns, values, n - 1);
      if error.Some? then (bytes, error)
      else
        var (more, stop) := WriteValue(columns[n - 1].typ, values[n - 1]);
        (bytes + more, stop)
  }

  predicate Decodes(row: SpannerRow) {
    row.SpannerRow? && forall i :: 0 <= i < |row.cells| ==> row.cells[i].gcv.Some?
  }

  function Values(row: SpannerRow): seq<Gcv>
    requires Decodes(row)
  {
    seq(|row.cells|, i requires 0 <= i < |row.cells| => row.cells[i].gcv.value)
  }

  /** The row type a row itself announces. */
  function Announced(row: SpannerRow): seq<Column>
    requires Decodes(row)
  {
    seq(|row.cells|, i requires 0 <= i < |row.cells| => Column(row.cells[i].name, row.cells[i].gcv.value.typ))
  }

  // ---- The fingerprinter as a value ----

  datatype Fp = Fp(columns: seq<Column>, stream: Bytes, rows: nat, done: bool)

  function NewFp(columns: seq<Column>): Option<Fp> {
    match EncodeColumns(columns)
    case Some(fields) => Some(Fp(columns, Header(fields), 0, false))
    case None => None
  }

  function FpRow(fp: Fp, row: SpannerRow): (Fp, Option<Error>) {
    if fp.done then (fp, Some(AlreadyFinished))
    else if row.Nil? then (fp, Some(NilRow))
    else if |row.cells| != |fp.columns| then (fp, Some(Width))
    else if !Decodes(row) then (fp, Some(Undecodable))
    else
      var (bytes, error) := WriteValues(fp.columns, Values(row), |fp.columns|);
      (fp.(stream := fp.stream + ([TAG_ROW] + U32(|row.cells|) + bytes),
        rows := if error.None? then fp.rows + 1 else fp.rows), error)
  }

  // ---- The receipt as a value ----

  datatype State = State(
    fp: Option<Fp>, observed: nat, failed: Option<Error>, finalized: bool,
    complete: Option<Kind>, fingerprint: Option<Bytes>)

  const FRESH := State(None, 0, None, false, None, None)

  datatype Op =
    | Metadata(columns: seq<Column>) | Observe(row: SpannerRow) | Finish(completion: Completion, error: Option<Error>)

  datatype Reply = Accepted | Sum(bytes: Bytes) | Refused(error: Error)

  function Open(s: State, columns: seq<Column>): State {
    match NewFp(columns)
    case Some(fp) => s.(fp := Some(fp))
    case None => s.(failed := Some(Unmarshalable))
  }

  function Closed(s: State): Option<Error> {
    if s.failed.Some? then s.failed else if s.finalized then Some(AlreadyFinalized) else None
  }

  function Outcome(s: State): Reply {
    if s.failed.Some? then Refused(s.failed.value) else Accepted
  }

  function AfterMetadata(s: State, columns: seq<Column>): (State, Reply) {
    match Closed(s)
    case Some(e) => (s, Refused(e))
    case None =>
      if s.fp.Some? then (s, Accepted)
      else (Open(s, columns), Outcome(Open(s, columns)))
  }

  function Add(s: State, row: SpannerRow): State
    requires s.fp.Some?
  {
    var (fp, error) := FpRow(s.fp.value, row);
    if error.Some? then s.(fp := Some(fp), failed := error) else s.(fp := Some(fp), observed := s.observed + 1)
  }

  function Opened(s: State, row: SpannerRow): State {
    if s.fp.Some? then s
    else if row.Nil? then s.(failed := Some(NilRow))
    else if !Decodes(row) then s.(failed := Some(Undecodable))
    else Open(s, Announced(row))
  }

  function AfterRow(s: State, row: SpannerRow): (State, Reply) {
    match Closed(s)
    case Some(e) => (s, Refused(e))
    case None =>
      var o := Opened(s, row);
      if o.failed.Some? || o.fp.None? then (o, Outcome(o)) else (Add(o, row), Outcome(Add(o, row)))
  }

  function Retold(s: State, kind: Kind): Reply {
    if s.failed.Some? then Refused(s.failed.value)
    else if s.complete != Some(kind) then Refused(CompletedAs(kind))
    else if s.fingerprint.None? then Refused(NoObservation)
    else Sum(s.fingerprint.value)
  }

  function AfterFinish(sum: Bytes -> Bytes, s: State, c: Completion, error: Option<Error>): (State, Reply) {
    if s.finalized then (s, if error.Some? then Refused(error.value) else Retold(s, KindOf(c)))
    else
      var closed := s.(finalized := true, complete := Some(KindOf(c)));
      if error.Some? then (closed.(failed := error), Refused(error.value))
      else if s.failed.Some? then (closed, Refused(s.failed.value))
      else
        var fp := if s.fp.Some? then s.fp.value else Fp([], Header([]), 0, false);
        if fp.done then (closed.(fp := Some(fp), failed := Some(AlreadyFinished)), Refused(AlreadyFinished))
        else
          var stream := fp.stream + Tail(fp.rows, c);
          (closed.(fp := Some(fp.(stream := stream, done := true)), fingerprint := Some(sum(stream))), Sum(sum(stream)))
  }

  function Apply(sum: Bytes -> Bytes, s: State, op: Op): (State, Reply) {
    match op
    case Metadata(columns) => AfterMetadata(s, columns)
    case Observe(row) => AfterRow(s, row)
    case Finish(c, error) => AfterFinish(sum, s, c, error)
  }

  function Run(sum: Bytes -> Bytes, ops: seq<Op>): State {
    if ops == [] then FRESH else Apply(sum, Run(sum, ops[..|ops| - 1]), ops[|ops| - 1]).0
  }

  function ReplyAt(sum: Bytes -> Bytes, ops: seq<Op>, i: nat): Reply
    requires i < |ops|
  {
    Apply(sum, Run(sum, ops[..i]), ops[i]).1
  }

  // ---- What a run of observations amounts to ----

  function FirstFinish(ops: seq<Op>): (k: nat)
    ensures k <= |ops| && forall j :: 0 <= j < k ==> !ops[j].Finish?
    ensures k < |ops| ==> ops[k].Finish?
  {
    if ops == [] then 0
    else
      var k := FirstFinish(ops[..|ops| - 1]);
      if k < |ops| - 1 || ops[|ops| - 1].Finish? then k else |ops|
  }

  /** The row type: the first metadata, or what the first row announces if it comes earlier. */
  function RowTypeOf(ops: seq<Op>): seq<Column> {
    if ops == [] then []
    else match ops[0]
         case Metadata(columns) => columns
         case Observe(row) => if Decodes(row) then Announced(row) else []
         case Finish(_, _) => []
  }

  function RowsOf(ops: seq<Op>): seq<SpannerRow> {
    if ops == [] then []
    else RowsOf(ops[..|ops| - 1]) + if ops[|ops| - 1].Observe? then [ops[|ops| - 1].row] else []
  }

  predicate ValueOk(want: Message, v: Gcv) {
    Wire(v.typ).Some? && Wire(v.value).Some? && !Mismatch(want, v.typ)
  }

  predicate RowOk(columns: seq<Column>, row: SpannerRow) {
    Decodes(row) && |row.cells| == |columns|
    && forall i :: 0 <= i < |columns| ==> ValueOk(columns[i].typ, row.cells[i].gcv.value)
  }

  function EncodeValue(v: Gcv): Value
    requires Wire(v.typ).Some? && Wire(v.value).Some?
  {
    Value(Wire(v.typ).value, Wire(v.value).value)
  }

  function EncodeRow(columns: seq<Column>, row: SpannerRow): Row
    requires RowOk(columns, row)
  {
    seq(|columns|, i requires 0 <= i < |columns| => EncodeValue(row.cells[i].gcv.value))
  }

  predicate Good(columns: seq<Column>, rows: seq<SpannerRow>) {
    EncodeColumns(columns).Some? && forall i :: 0 <= i < |rows| ==> RowOk(columns, rows[i])
  }

  function EncodeRows(columns: seq<Column>, rows: seq<SpannerRow>): seq<Row>
    requires Good(columns, rows)
  {
    seq(|rows|, i requires 0 <= i < |rows| => EncodeRow(columns, rows[i]))
  }

  /** Every observation so far can be recorded. */
  predicate Clean(ops: seq<Op>) {
    Good(RowTypeOf(ops), RowsOf(ops))
  }

  /** The bytes of a result: its columns, its rows in order, and how it completed. */
  function Recorded(columns: seq<Column>, rows: seq<SpannerRow>, c: Completion): Bytes
    requires Good(columns, rows)
  {
    Stream(EncodeColumns(columns).value, EncodeRows(columns, rows), c)
  }

  function OpenStream(columns: seq<Column>, rows: seq<SpannerRow>): Bytes
    requires Good(columns, rows)
  {
    Header(EncodeColumns(columns).value) + RowList(EncodeRows(columns, rows))
  }

  function Holding(columns: seq<Column>, rows: seq<SpannerRow>): State
    requires Good(columns, rows)
  {
    FRESH.(fp := Some(Fp(columns, OpenStream(columns, rows), |rows|, false)), observed := |rows|)
  }

  /** Failed before any completion: no bytes, now or later. */
  predicate Spoiled(s: State) {
    s.failed.Some? && !s.finalized && s.fingerprint.None?
  }

  // ---- One observation ----

  lemma {:induction false} ValueListSnoc(vs: Row, v: Value)
    ensures ValueList(vs + [v]) == ValueList(vs) + ValueBytes(v)
  {
    hide ValueBytes;
    if vs == [] {
      assert vs + [v] == [v];
      assert ValueList([v]) == ValueBytes(v) + ValueList([v][1..]);
    } else {
      assert (vs + [v])[1..] == vs[1..] + [v];
      ValueListSnoc(vs[1..], v);
      Associate(ValueBytes(vs[0]), ValueList(vs[1..]), ValueBytes(v));
    }
  }

  lemma {:induction false} RowListSnoc(rows: seq<Row>, row: Row)
    ensures RowList(rows + [row]) == RowList(rows) + RowBytes(row)
  {
    hide RowBytes;
    if rows == [] {
      assert rows + [row] == [row];
      assert RowList([row]) == RowBytes(row) + RowList([row][1..]);
    } else {
      assert (rows + [row])[1..] == rows[1..] + [row];
      RowListSnoc(rows[1..], row);
      Associate(RowBytes(rows[0]), RowList(rows[1..]), RowBytes(row));
    }
  }

  function Encoded(vs: seq<Gcv>): Row
    requires forall i :: 0 <= i < |vs| ==> Wire(vs[i].typ).Some? && Wire(vs[i].value).Some?
  {
    seq(|vs|, i requires 0 <= i < |vs| => EncodeValue(vs[i]))
  }

  lemma {:induction false} ValuesWritten(columns: seq<Column>, vs: seq<Gcv>, n: nat)
    requires n <= |vs| == |columns|
    ensures WriteValues(columns, vs, n).1.None? <==> forall i :: 0 <= i < n ==> ValueOk(columns[i].typ, vs[i])
    ensures WriteValues(columns, vs, n).1.None? ==> WriteValues(columns, vs, n).0 == ValueList(Encoded(vs[..n]))
  {
    hide Mismatch;
    hide Prefixed;
    if n > 0 {
      ValuesWritten(columns, vs, n - 1);
      var v := vs[n - 1];
      if WriteValues(columns, vs, n).1.None? {
        assert ValueOk(columns[n - 1].typ, v);
        assert Encoded(vs[..n]) == Encoded(vs[..n - 1]) + [EncodeValue(v)];
        ValueListSnoc(Encoded(vs[..n - 1]), EncodeValue(v));
      }
    }
  }

  /** A row is taken exactly when it decodes, has the width and fits the declared types;
      then its block is appended whole. */
  lemma RowTaken(columns: seq<Column>, rows: seq<SpannerRow>, row: SpannerRow)
    requires Good(columns, rows)
    ensures RowOk(columns, row) ==>
      Good(columns, rows + [row]) && AfterRow(Holding(columns, rows), row) == (Holding(columns, rows + [row]), Accepted)
    ensures !RowOk(columns, row) ==>
      AfterRow(Holding(columns, rows), row).1.Refused? && Spoiled(AfterRow(Holding(columns, rows), row).0)
  {
    hide Wire;
    hide Mismatch;
    hide EncodeColumns;
    hide Header;
    hide RowList;
    hide WriteValues;
    if Decodes(row) && |row.cells| == |columns| {
      ValuesWritten(columns, Values(row), |columns|);
      if RowOk(columns, row) {
        RowAppended(columns, rows, row);
      }
    }
  }

  lemma RowAppended(columns: seq<Column>, rows: seq<SpannerRow>, row: SpannerRow)
    requires Good(columns, rows) && RowOk(columns, row)
    ensures Good(columns, rows + [row])
    ensures OpenStream(columns, rows + [row])
         == OpenStream(columns, rows) + ([TAG_ROW] + U32(|row.cells|) + ValueList(Encoded(Values(row)[..|columns|])))
  {
    hide Wire;
    hide Mismatch;
    hide EncodeColumns;
    hide Header;
    hide U32;
    hide RowList;
    hide ValueList;
    var r := EncodeRow(columns, row);
    assert EncodeRows(columns, rows + [row]) == EncodeRows(columns, rows) + [r];
    RowListSnoc(EncodeRows(columns, rows), r);
    assert Encoded(Values(row)[..|columns|]) == r;
    Associate(Header(EncodeColumns(columns).value), RowList(EncodeRows(columns, rows)), RowBytes(r));
  }

  lemma {:induction false} ColumnsEncode(columns: seq<Column>)
    ensures EncodeColumns(columns).Some? <==> forall i :: 0 <= i < |columns| ==> Wire(columns[i].typ).Some?
    ensures EncodeColumns(columns).Some? ==> |EncodeColumns(columns).value| == |columns|
  {
    hide Wire;
    if columns != [] {
      ColumnsEncode(columns[..|columns| - 1]);
    }
  }

  /** The first row, with no metadata before it, sets the row type. */
  lemma FirstRowTaken(row: SpannerRow)
    ensures Decodes(row) && RowOk(Announced(row), row) ==>
      Good(Announced(row), [row]) && AfterRow(FRESH, row) == (Holding(Announced(row), [row]), Accepted)
    ensures !(Decodes(row) && RowOk(Announced(row), row)) ==>
      AfterRow(FRESH, row).1.Refused? && Spoiled(AfterRow(FRESH, row).0)
  {
    hide EncodeColumns;
    hide Wire;
    hide Header;
    hide Add;
    if Decodes(row) {
      var columns := Announced(row);
      ColumnsEncode(columns);
      if RowOk(columns, row) {
        assert forall i :: 0 <= i < |columns| ==> ValueOk(columns[i].typ, row.cells[i].gcv.value);
      }
      if EncodeColumns(columns).Some? {
        HeaderIsOpenStream(columns);
        RowTaken(columns, [], row);
        assert [] + [row] == [row];
      }
    }
  }

  lemma HeaderIsOpenStream(columns: seq<Column>)
    requires EncodeColumns(columns).Some?
    ensures OpenStream(columns, []) == Header(EncodeColumns(columns).value)
  {
    hide EncodeColumns;
    hide Header;
    assert EncodeRows(columns, []) == [];
  }

  // ---- Runs without a completion ----

  function StateOf(ops: seq<Op>): State
    requires Clean(ops)
  {
    if ops == [] then FRESH else Holding(RowTypeOf(ops), RowsOf(ops))
  }

  lemma OneMore(sum: Bytes -> Bytes, ops: seq<Op>, op: Op)
    requires Clean(ops) && !op.Finish? && Run(sum, ops) == StateOf(ops)
    ensures Run(sum, ops + [op]) == Apply(sum, StateOf(ops), op).0
    ensures Clean(ops + [op]) ==>
          Run(sum, ops + [op]) == StateOf(ops + [op])
          && Apply(sum, StateOf(ops), op).1 == Accepted
    ensures !Clean(ops + [op]) ==> Spoiled(Run(sum, ops + [op])) && Apply(sum, StateOf(ops), op).1.Refused?
  {
    hide EncodeColumns;
    hide OpenStream;
    hide RowOk;
    hide AfterRow;
    assert (ops + [op])[..|ops|] == ops;
    if ops == [] {
      FirstOp(sum, op);
    } else if op.Observe? {
      assert RowTypeOf(ops + [op]) == RowTypeOf(ops);
      var columns, rows := RowTypeOf(ops), RowsOf(ops);
      RowTaken(columns, rows, op.row);
      if Clean(ops + [op]) {
        assert RowOk(columns, (rows + [op.row])[|rows|]);
      }
    } else {
      assert RowTypeOf(ops + [op]) == RowTypeOf(ops);
      assert RowsOf(ops + [op]) == RowsOf(ops) + [] == RowsOf(ops);
    }
  }

  lemma FirstOp(sum: Bytes -> Bytes, op: Op)
    requires !op.Finish?
    ensures Clean([op]) ==> Apply(sum, FRESH, op) == (StateOf([op]), Accepted)
    ensures !Clean([op]) ==> Spoiled(Apply(sum, FRESH, op).0) && Apply(sum, FRESH, op).1.Refused?
  {
    hide EncodeColumns;
    hide OpenStream;
    hide RowOk;
    hide AfterRow;
    hide Header;
    assert [op][..0] == [];
    match op
    case Observe(row) =>
      FirstRowTaken(row);
      assert RowsOf([op]) == [row];
      if Clean([op]) {
        assert RowOk(RowTypeOf([op]), RowsOf([op])[0]);
        OkDecodes(RowTypeOf([op]), row);
      }
    case Metadata(columns) =>
      assert RowsOf([op]) == [];
      if EncodeColumns(columns).Some? {
        HeaderIsOpenStream(columns);
      }
  }

  lemma OkDecodes(columns: seq<Column>, row: SpannerRow)
    requires RowOk(columns, row)
    ensures Decodes(row)
  {
  }

  lemma SpoiledStays(sum: Bytes -> Bytes, s: State, op: Op)
    requires Spoiled(s) && !op.Finish?
    ensures Apply(sum, s, op).0 == s && Apply(sum, s, op).1.Refused?
  {
  }

  /** What a run of observations leaves, and that it is clean exactly when all were accepted. */
  lemma {:induction false} Observed(sum: Bytes -> Bytes, ops: seq<Op>)
    requires forall j :: 0 <= j < |ops| ==> !ops[j].Finish?
    ensures Clean(ops) ==> Run(sum, ops) == StateOf(ops)
    ensures !Clean(ops) ==> Spoiled(Run(sum, ops))
    ensures Clean(ops) <==> forall j :: 0 <= j < |ops| ==> ReplyAt(sum, ops, j) == Accepted
  {
    hide Clean;
    hide StateOf;
    hide Apply;
    if ops == [] {
      EmptyIsClean();
    } else {
      var front, op := ops[..|ops| - 1], ops[|ops| - 1];
      Observed(sum, front);
      assert front + [op] == ops;
      RepliesOfFront(sum, front, op);
      if Clean(front) {
        OneMore(sum, front, op);
      } else {
        StillUnclean(front, op);
        SpoiledStays(sum, Run(sum, front), op);
      }
    }
  }

  lemma EmptyIsClean()
    ensures Clean([]) && StateOf([]) == FRESH
  {
  }

  lemma RepliesOfFront(sum: Bytes -> Bytes, front: seq<Op>, op: Op)
    ensures forall j :: 0 <= j < |front| ==> ReplyAt(sum, front + [op], j) == ReplyAt(sum, front, j)
    ensures ReplyAt(sum, front + [op], |front|) == Apply(sum, Run(sum, front), op).1
  {
    hide Apply;
    hide Run;
    assert (front + [op])[..|front|] == front;
    forall j | 0 <= j < |front| ensures ReplyAt(sum, front + [op], j) == ReplyAt(sum, front, j) {
      assert (front + [op])[..j] == front[..j];
    }
  }

  lemma StillUnclean(front: seq<Op>, op: Op)
    requires !Clean(front) && !op.Finish?
    ensures !Clean(front + [op])
  {
    hide EncodeColumns;
    hide RowOk;
    if front == [] {
      EmptyIsClean();
    } else {
      assert (front + [op])[..|front|] == front;
      assert RowTypeOf(front + [op]) == RowTypeOf(front);
      var all := RowsOf(front + [op]);
      assert forall i :: 0 <= i < |RowsOf(front)| ==> all[i] == RowsOf(front)[i];
    }
  }

  // ---- Runs with a completion ----

  lemma ClosedStays(sum: Bytes -> Bytes, s: State, op: Op)
    requires s.finalized
    ensures Apply(sum, s, op).0 == s
    ensures !op.Finish? ==> Apply(sum, s, op).1.Refused?
  {
  }

  lemma {:induction false} RunKeeps(sum: Bytes -> Bytes, ops: seq<Op>, k: nat, n: nat)
    requires k <= n <= |ops| && Run(sum, ops[..k]).finalized
    ensures Run(sum, ops[..n]) == Run(sum, ops[..k])
    decreases n
  {
    if k < n {
      RunKeeps(sum, ops, k, n - 1);
      assert ops[..n][..n - 1] == ops[..n - 1];
      ClosedStays(sum, Run(sum, ops[..n - 1]), ops[n - 1]);
    }
  }

  lemma FinishClean(sum: Bytes -> Bytes, ops: seq<Op>, c: Completion)
    requires Clean(ops)
    ensures var (s, reply) := AfterFinish(sum, StateOf(ops), c, None);
      && s.finalized && s.failed.None? && s.complete == Some(KindOf(c))
      && s.fingerprint == Some(sum(Recorded(RowTypeOf(ops), RowsOf(ops), c))) && reply == Sum(s.fingerprint.value)
  {
    hide EncodeColumns;
    hide RowList;
    hide Header;
    hide Tail;
    if ops == [] {
      assert EncodeColumns([]) == Some([]) by { NoColumns(); }
      HeaderIsOpenStream([]);
    }
  }

  lemma NoColumns()
    ensures EncodeColumns([]) == Some([])
  {
  }

  lemma HeldIsOpen(ops: seq<Op>)
    requires Clean(ops)
    ensures !StateOf(ops).finalized && StateOf(ops).failed.None? && StateOf(ops).fingerprint.None?
  {
  }

  /** The first completion decides what the receipt will ever tell. */
  lemma FirstCompletion(sum: Bytes -> Bytes, ops: seq<Op>, c: Completion, error: Option<Error>)
    requires forall j :: 0 <= j < |ops| ==> !ops[j].Finish?
    ensures var (s, reply) := AfterFinish(sum, Run(sum, ops), c, error);
      && s.finalized && s.complete == Some(KindOf(c))
      && (Clean(ops) && error.None? ==>
            s.failed.None? && s.fingerprint == Some(sum(Recorded(RowTypeOf(ops), RowsOf(ops), c))))
      && (!(Clean(ops) && error.None?) ==> s.failed.Some? && s.fingerprint.None?)
      && reply == if s.failed.Some? then Refused(s.failed.value) else Sum(s.fingerprint.value)
  {
    hide Clean;
    hide StateOf;
    hide Recorded;
    hide Tail;
    hide Header;
    Observed(sum, ops);
    if Clean(ops) {
      FinishClean(sum, ops, c);
      HeldIsOpen(ops);
    }
  }

  lemma Unfold(sum: Bytes -> Bytes, ops: seq<Op>, k: nat)
    requires k < |ops|
    ensures Run(sum, ops[..k + 1]) == Apply(sum, Run(sum, ops[..k]), ops[k]).0
  {
    hide Apply;
    assert ops[..k + 1][..k] == ops[..k];
  }

  /** From the first completion on the receipt never changes. */
  lemma AfterFirst(sum: Bytes -> Bytes, ops: seq<Op>, i: nat)
    requires FirstFinish(ops) < i <= |ops|
    ensures var k := FirstFinish(ops);
      Run(sum, ops[..i]) == AfterFinish(sum, Run(sum, ops[..k]), ops[k].completion, ops[k].error).0
  {
    hide FirstFinish;
    hide AfterFinish;
    hide AfterRow;
    hide AfterMetadata;
    hide Clean;
    hide Recorded;
    hide KindOf;
    var k := FirstFinish(ops);
    Unfold(sum, ops, k);
    hide Run;
    FirstCompletion(sum, ops[..k], ops[k].completion, ops[k].error);
    RunKeeps(sum, ops, k + 1, i);
  }

  lemma OnlyFinishSums(sum: Bytes -> Bytes, s: State, op: Op)
    requires !op.Finish?
    ensures !Apply(sum, s, op).1.Sum?
  {
    hide Open;
    hide Opened;
    hide Add;
  }

  /** Bytes come back exactly from completions that report no error, of the kind of the first
      one, when that one reported no error and every earlier observation was recorded. The
      bytes are always the hash of what was observed before the first completion. */
  lemma BytesExactly(sum: Bytes -> Bytes, ops: seq<Op>, i: nat)
    requires i < |ops|
    ensures var k := FirstFinish(ops);
      ReplyAt(sum, ops, i).Sum? <==>
        k <= i && Clean(ops[..k]) && ops[k].error.None?
        && ops[i].Finish? && ops[i].error.None? && KindOf(ops[i].completion) == KindOf(ops[k].completion)
    ensures var k := FirstFinish(ops);
      ReplyAt(sum, ops, i).Sum? ==>
        ReplyAt(sum, ops, i).bytes == sum(Recorded(RowTypeOf(ops[..k]), RowsOf(ops[..k]), ops[k].completion))
  {
    hide FirstFinish;
    hide Clean;
    hide Recorded;
    hide AfterRow;
    hide AfterMetadata;
    hide AfterFinish;
    hide KindOf;
    hide Run;
    var k := FirstFinish(ops);
    if !ops[i].Finish? {
      OnlyFinishSums(sum, Run(sum, ops[..i]), ops[i]);
    } else {
      FirstCompletion(sum, ops[..k], ops[k].completion, ops[k].error);
      if k < i {
        AfterFirst(sum, ops, i);
        LaterCompletion(sum, Run(sum, ops[..i]), ops[i].completion, ops[i].error);
      }
    }
  }

  lemma LaterCompletion(sum: Bytes -> Bytes, s: State, c: Completion, error: Option<Error>)
    requires s.finalized
    ensures AfterFinish(sum, s, c, error) == (s, if error.Some? then Refused(error.value) else Retold(s, KindOf(c)))
  {
  }

  /** A second DML completion with another affected count is answered with the bytes of the first,
      although its own stream would have been a different one. */
  lemma LaterCountIgnored(sum: Bytes -> Bytes, a: int, b: int)
    requires IsInt64(a) && IsInt64(b) && a != b
    ensures var ops := [Finish(Dml(a), None), Finish(Dml(b), None)];
      ReplyAt(sum, ops, 0) == ReplyAt(sum, ops, 1) == Sum(sum(Recorded([], [], Dml(a))))
    ensures Recorded([], [], Dml(a)) != Recorded([], [], Dml(b))
  {
    var ops := [Finish(Dml(a), None), Finish(Dml(b), None)];
    assert FirstFinish(ops) == 0 && ops[..0] == [];
    EmptyIsClean();
    hide Run; hide ReplyAt; hide Recorded; hide Clean;
    BytesExactly(sum, ops, 0);
    BytesExactly(sum, ops, 1);
    OtherCountOtherStream(a, b);
  }

  lemma OtherCountOtherStream(a: int, b: int)
    requires IsInt64(a) && IsInt64(b) && a != b
    ensures Recorded([], [], Dml(a)) != Recorded([], [], Dml(b))
  {
    hide Stream;
    if Recorded([], [], Dml(a)) == Recorded([], [], Dml(b)) {
      assert EncodeRows([], []) == [];
      StreamInjective([], [], Dml(a), [], [], Dml(b));
    }
  }

  /** A value can be recorded under an announced type exactly if both its messages can be marshalled and
      the types are the same, or one of them is left open. */
  predicate Agrees(want: Message, v: Gcv) {
    && (v.typ.Absent? || v.typ.wire.Some?) && (v.value.Absent? || v.value.wire.Some?)
    && (want.Absent? || v.typ.Absent? || want == v.typ)
  }

  predicate Marshals(m: Message) {
    m.Absent? || m.wire.Some?
  }

  lemma {:induction false} ColumnsMarshal(columns: seq<Column>)
    ensures EncodeColumns(columns).Some? <==> forall i :: 0 <= i < |columns| ==> Marshals(columns[i].typ)
  {
    if columns != [] {
      var n := |columns| - 1;
      ColumnsMarshal(columns[..n]);
      assert forall i :: 0 <= i < n ==> columns[..n][i] == columns[i];
    }
  }

  predicate RowAgrees(columns: seq<Column>, row: SpannerRow) {
    && row.SpannerRow? && |row.cells| == |columns|
    && forall i :: 0 <= i < |columns| ==> row.cells[i].gcv.Some? && Agrees(columns[i].typ, row.cells[i].gcv.value)
  }

  /** Metadata, then one row, then a completion: bytes come back exactly if every column type can be
      marshalled and the row has the width and agrees with the types. */
  lemma TypesMustAgree(sum: Bytes -> Bytes, columns: seq<Column>, row: SpannerRow, c: Completion)
    ensures ReplyAt(sum, [Metadata(columns), Observe(row), Finish(c, None)], 2).Sum? <==>
            (forall i :: 0 <= i < |columns| ==> Marshals(columns[i].typ)) && RowAgrees(columns, row)
  {
    var ops := [Metadata(columns), Observe(row), Finish(c, None)];
    assert FirstFinish(ops) == 2 && ops[..2] == [Metadata(columns), Observe(row)];
    BytesExactly(sum, ops, 2);
    OneRow(columns, row);
    ColumnsMarshal(columns);
    assert RowOk(columns, row) <==> RowAgrees(columns, row);
    hide EncodeColumns; hide RowOk; hide ReplyAt; hide RowAgrees; hide FirstFinish;
  }

  lemma OneRow(columns: seq<Column>, row: SpannerRow)
    ensures RowTypeOf([Metadata(columns), Observe(row)]) == columns
    ensures RowsOf([Metadata(columns), Observe(row)]) == [row]
  {
    var ops := [Metadata(columns), Observe(row)];
    assert ops[..1] == [Metadata(columns)] && ops[..1][..0] == [];
    assert RowsOf(ops[..1]) == [];
  }

  // ---- The order in which metadata arrives ----

  function Observes(rows: seq<SpannerRow>): seq<Op> {
    seq(|rows|, i requires 0 <= i < |rows| => Observe(rows[i]))
  }

  lemma {:induction false} RowsOfAppend(a: seq<Op>, b: seq<Op>)
    ensures RowsOf(a + b) == RowsOf(a) + RowsOf(b)
  {
    if b == [] {
      assert a + b == a;
    } else {
      assert (a + b)[..|a + b| - 1] == a + b[..|b| - 1];
      RowsOfAppend(a, b[..|b| - 1]);
    }
  }

  lemma {:induction false} RowsOfObserves(rows: seq<SpannerRow>)
    ensures RowsOf(Observes(rows)) == rows
  {
    if rows != [] {
      RowsOfObserves(rows[..|rows| - 1]);
      assert Observes(rows)[..|rows| - 1] == Observes(rows[..|rows| - 1]);
    }
  }

  /** The fingerprint of a result under a row type, if every row can be recorded. */
  function SumIfGood(sum: Bytes -> Bytes, columns: seq<Column>, rows: seq<SpannerRow>, c: Completion): Option<Bytes> {
    if Good(columns, rows) then Some(sum(Recorded(columns, rows, c))) else None
  }

  lemma FinishOnce(sum: Bytes -> Bytes, ops: seq<Op>, c: Completion)
    requires forall j :: 0 <= j < |ops| ==> !ops[j].Finish?
    ensures Run(sum, ops + [Finish(c, None)]).fingerprint == SumIfGood(sum, RowTypeOf(ops), RowsOf(ops), c)
  {
    hide RowTypeOf; hide RowsOf; hide Recorded; hide AfterFinish; hide Good;
    FirstCompletion(sum, ops, c, None);
    assert (ops + [Finish(c, None)])[..|ops|] == ops;
  }

  /** Rows first, the row type is what the first row announces; metadata first, what that says. */
  lemma BothOrders(sum: Bytes -> Bytes, columns: seq<Column>, rows: seq<SpannerRow>, c: Completion)
    ensures var rowsFirst, metadataFirst := Observes(rows) + [Metadata(columns)], [Metadata(columns)] + Observes(rows);
      && Run(sum, rowsFirst + [Finish(c, None)]).fingerprint == SumIfGood(sum, RowTypeOf(rowsFirst), rows, c)
      && Run(sum, metadataFirst + [Finish(c, None)]).fingerprint == SumIfGood(sum, columns, rows, c)
  {
    hide Run; hide SumIfGood;
    var a, b := Observes(rows) + [Metadata(columns)], [Metadata(columns)] + Observes(rows);
    RowsOfObserves(rows);
    RowsOfAppend(Observes(rows), [Metadata(columns)]);
    RowsOfAppend([Metadata(columns)], Observes(rows));
    assert RowsOf(a) == rows && RowsOf(b) == rows;
    FinishOnce(sum, a, c);
    FinishOnce(sum, b, c);
  }

  /** Rows first or metadata first: when the first row announces what the metadata says, or
      cannot be read at all, the receipt holds the same fingerprint. */
  lemma OrderIrrelevant(sum: Bytes -> Bytes, columns: seq<Column>, rows: seq<SpannerRow>, c: Completion)
    requires rows == [] || !Decodes(rows[0]) || Announced(rows[0]) == columns
    ensures var rowsFirst, metadataFirst := Observes(rows) + [Metadata(columns)], [Metadata(columns)] + Observes(rows);
      Run(sum, rowsFirst + [Finish(c, None)]).fingerprint == Run(sum, metadataFirst + [Finish(c, None)]).fingerprint
  {
    hide Announced; hide Recorded; hide Run;
    BothOrders(sum, columns, rows, c);
    if rows != [] {
      var x := RowTypeOf(Observes(rows) + [Metadata(columns)]);
      assert (Observes(rows) + [Metadata(columns)])[0] == Observe(rows[0]);
      if !Decodes(rows[0]) {
        assert !RowOk(x, rows[0]) && !RowOk(columns, rows[0]);
      }
    }
  }

  predicate AllFit(columns: seq<Column>, rows: seq<SpannerRow>, c: Completion) {
    Good(columns, rows) && Fits(EncodeColumns(columns).value, EncodeRows(columns, rows), c)
  }

  /** When the hash does not collide on the two streams, two results share a fingerprint exactly
      when columns, rows and completion were written alike. */
  lemma SameFingerprint(sum: Bytes -> Bytes, columns: seq<Column>, rows: seq<SpannerRow>, c: Completion,
                        columns': seq<Column>, rows': seq<SpannerRow>, c': Completion)
    requires AllFit(columns, rows, c) && AllFit(columns', rows', c')
    requires sum(Recorded(columns, rows, c)) == sum(Recorded(columns', rows', c')) ==>
      Recorded(columns, rows, c) == Recorded(columns', rows', c')
    ensures sum(Recorded(columns, rows, c)) == sum(Recorded(columns', rows', c'))
       <==>
             EncodeColumns(columns) == EncodeColumns(columns')
             && EncodeRows(columns, rows) == EncodeRows(columns', rows') && c == c'
  {
    hide Stream;
    hide RowOk;
    hide Fits;
    if sum(Recorded(columns, rows, c)) == sum(Recorded(columns', rows', c')) {
      StreamInjective(EncodeColumns(columns).value, EncodeRows(columns, rows), c,
                      EncodeColumns(columns').value, EncodeRows(columns', rows'), c');
    }
  }

  /** If the metadata disagrees with the first row, the order shows: the fingerprints agree exactly
      when both row types are written alike, or neither takes all the rows. */
  lemma DisagreementShows(sum: Bytes -> Bytes, columns: seq<Column>, rows: seq<SpannerRow>, c: Completion)
    requires rows != [] && Decodes(rows[0])
    requires forall x :: x in {Announced(rows[0]), columns} && Good(x, rows) ==> AllFit(x, rows, c)
    requires Good(Announced(rows[0]), rows) && Good(columns, rows)
          && sum(Recorded(Announced(rows[0]), rows, c)) == sum(Recorded(columns, rows, c))
         ==> Recorded(Announced(rows[0]), rows, c) == Recorded(columns, rows, c)
    ensures var rowsFirst, metadataFirst := Observes(rows) + [Metadata(columns)], [Metadata(columns)] + Observes(rows);
      Run(sum, rowsFirst + [Finish(c, None)]).fingerprint == Run(sum, metadataFirst + [Finish(c, None)]).fingerprint
      <==>
        if Good(Announced(rows[0]), rows) && Good(columns, rows)
        then EncodeColumns(Announced(rows[0])) == EncodeColumns(columns)
        else !Good(Announced(rows[0]), rows) && !Good(columns, rows)
  {
    hide Recorded; hide Run; hide EncodeColumns; hide Announced; hide Good; hide AllFit; hide Decodes;
    BothOrders(sum, columns, rows, c);
    assert (Observes(rows) + [Metadata(columns)])[0] == Observe(rows[0]);
    if Good(Announced(rows[0]), rows) && Good(columns, rows) {
      SameFingerprint(sum, Announced(rows[0]), rows, c, columns, rows, c);
      SameRows(columns, Announced(rows[0]), rows);
    }
  }

  lemma SameRows(columns: seq<Column>, columns': seq<Column>, rows: seq<SpannerRow>)
    requires Good(columns, rows) && Good(columns', rows)
    ensures EncodeRows(columns, rows) == EncodeRows(columns', rows)
  {
    hide EncodeColumns;
    hide ValueOk;
    forall i | 0 <= i < |rows| ensures EncodeRow(columns, rows[i]) == EncodeRow(columns', rows[i]) {
      assert RowOk(columns, rows[i]) && RowOk(columns', rows[i]);
    }
  }
}

/** The fingerprinter and the receipt as the objects the program updates, and the two loops
    that drive a receipt (savepoint_fingerprint.go:42-198, savepoint_receipt.go:41-198,
    row_iter.go:46-122, row_iterator_transform.go:63-135, all in internal/mycli). */
module ReceiptDrivers {
  import opened TableIds
  import opened FingerprintStream
  import opened Receipt

  lemma {:induction false} FieldListSnoc(fs: seq<Field>, f: Field)
    ensures FieldList(fs + [f]) == FieldList(fs) + FieldBytes(f)
  {
    hide FieldBytes;
    if fs == [] {
      assert fs + [f] == [f];
      assert FieldList([f]) == FieldBytes(f) + FieldList([f][1..]);
    } else {
      assert (fs + [f])[1..] == fs[1..] + [f];
      FieldListSnoc(fs[1..], f);
      Associate(FieldBytes(fs[0]), FieldList(fs[1..]), FieldBytes(f));
    }
  }

  lemma {:induction false} CountListSnoc(counts: seq<int>, n: int)
    ensures CountList(counts + [n]) == CountList(counts) + U64(n)
  {
    hide U64;
    if counts == [] {
      assert counts + [n] == [n];
      assert CountList([n]) == U64(n) + CountList([n][1..]);
    } else {
      assert (counts + [n])[1..] == counts[1..] + [n];
      CountListSnoc(counts[1..], n);
      Associate(U64(counts[0]), CountList(counts[1..]), U64(n));
    }
  }

  /** Encoding fails from the first column on whose type does not marshal. */
  lemma {:induction false} EncodePrefix(columns: seq<Column>, n: nat)
    requires n <= |columns| && EncodeColumns(columns[..n]).None?
    ensures EncodeColumns(columns).None?
    decreases |columns|
  {
    if n == |columns| {
      assert columns[..n] == columns;
    } else {
      assert columns[..|columns| - 1][..n] == columns[..n];
      EncodePrefix(columns[..|columns| - 1], n);
    }
  }

  lemma {:induction false} WritePrefix(columns: seq<Column>, values: seq<Gcv>, n: nat, m: nat)
    requires n <= m <= |values| == |columns| && WriteValues(columns, values, n).1.Some?
    ensures WriteValues(columns, values, m) == WriteValues(columns, values, n)
    decreases m
  {
    hide WriteValue;
    if n < m {
      WritePrefix(columns, values, n, m - 1);
    }
  }

  class ResultFingerprinter {
    const columns: seq<Column>
    var stream: Bytes
    var rows: nat
    var done: bool

    function View(): Fp
      reads this
    {
      Fp(columns, stream, rows, done)
    }

    constructor (columns: seq<Column>)
      ensures View() == Fp(columns, Ascii(DOMAIN_TEXT), 0, false)
    {
      this.columns := columns;
      stream := Ascii(DOMAIN_TEXT);
      rows := 0;
      done := false;
    }

    /** No fingerprinter exactly when a column type cannot be marshalled. */
    static method New(columns: seq<Column>) returns (f: ResultFingerprinter?)
      ensures f == null <==> NewFp(columns).None?
      ensures f != null ==> fresh(f) && Some(f.View()) == NewFp(columns)
    {
      hide U32;
      hide Ascii;
      hide FieldList;
      var made := new ResultFingerprinter(columns);
      made.WriteByte(TAG_FIELDS);
      made.WriteUint32(|columns|);
      ghost var front := made.stream;
      var i := 0;
      assert EncodeColumns(columns[..0]) == Some([]);
      assert front + FieldList([]) == front by { EmptyFieldList(front); }
      while i < |columns|
        invariant 0 <= i <= |columns| && fresh(made) && made.columns == columns
        invariant EncodeColumns(columns[..i]).Some?
        invariant made.View() == Fp(columns, front + FieldList(EncodeColumns(columns[..i]).value), 0, false)
      {
        ghost var fields := EncodeColumns(columns[..i]).value;
        assert columns[..i + 1][..i] == columns[..i];
        made.WriteBytes(columns[i].name);
        var ok := made.WriteProto(columns[i].typ);
        if !ok {
          EncodePrefix(columns, i + 1);
          return null;
        }
        ghost var field := Field(columns[i].name, Wire(columns[i].typ).value);
        FieldListSnoc(fields, field);
        Regroup(front, FieldList(fields), Prefixed(field.name), Prefixed(field.typ));
        i := i + 1;
      }
      assert columns[..|columns|] == columns;
      FieldCount(columns);
      return made;
    }

    static lemma EmptyFieldList(front: Bytes)
      ensures front + FieldList([]) == front
    {
    }

    static lemma FieldCount(columns: seq<Column>)
      requires EncodeColumns(columns).Some?
      ensures |EncodeColumns(columns).value| == |columns|
    {
      ColumnsEncode(columns);
    }

    static lemma FourParts(was: Bytes, a: Bytes, b: Bytes, c: Bytes, d: Bytes)
      ensures (((was + a) + b) + c) + d == was + (((a + b) + c) + d)
    {
      Associate(was, a, b);
      Associate(was, a + b, c);
      Associate(was, (a + b) + c, d);
    }

    static lemma Regroup(a: Bytes, b: Bytes, c: Bytes, d: Bytes)
      ensures ((a + b) + c) + d == a + (b + (c + d))
    {
    }

    method WriteByte(b: Byte)
      modifies this`stream
      ensures stream == old(stream) + [b]
    {
      stream := stream + [b];
    }

    method WriteUint32(n: nat)
      modifies this`stream
      ensures stream == old(stream) + U32(n)
    {
      stream := stream + U32(n);
    }

    method WriteUint64(n: int)
      modifies this`stream
      ensures stream == old(stream) + U64(n)
    {
      stream := stream + U64(n);
    }

    method WriteBytes(b: Bytes)
      modifies this`stream
      ensures stream == old(stream) + Prefixed(b)
    {
      WriteUint32(|b|);
      if |b| > 0 {
        stream := stream + b;
      }
    }

    method WriteProto(m: Message) returns (ok: bool)
      modifies this`stream
      ensures ok <==> Wire(m).Some?
      ensures stream == if ok then old(stream) + Prefixed(Wire(m).value) else old(stream)
    {
      match m
      case Absent =>
        WriteBytes([]);
        return true;
      case Message(_, wire) =>
        if wire.None? {
          return false;
        }
        WriteBytes(wire.value);
        return true;
    }

    method WriteTypedValue(want: Message, v: Gcv) returns (error: Option<Error>)
      modifies this`stream
      ensures (stream, error) == (old(stream) + WriteValue(want, v).0, WriteValue(want, v).1)
    {
      hide Prefixed;
      var ok := WriteProto(v.typ);
      if !ok {
        assert stream + [] == stream;
        return Some(Unmarshalable);
      }
      ghost var was := old(stream);
      ok := WriteProto(v.value);
      if !ok {
        return Some(Unmarshalable);
      }
      Associate(was, Prefixed(Wire(v.typ).value), Prefixed(Wire(v.value).value));
      if !want.Absent? && !v.typ.Absent? && want != v.typ {
        return Some(TypeMismatch);
      }
      return None;
    }

    /** A row of decoded values: all of them written, or the stream left at the first failure. */
    method ObserveGcvs(values: seq<Gcv>) returns (error: Option<Error>)
      modifies this`stream, this`rows
      ensures done ==> error == Some(AlreadyFinished)
      ensures !done && |values| != |columns| ==> error == Some(Width)
      ensures done || |values| != |columns| ==> stream == old(stream) && rows == old(rows)
      ensures !done && |values| == |columns| ==>
        var (bytes, stop) := WriteValues(columns, values, |columns|);
        error == stop && stream == old(stream) + ([TAG_ROW] + U32(|values|) + bytes)
        && rows == if stop.None? then old(rows) + 1 else old(rows)
    {
      hide WriteValue;
      hide U32;
      if done {
        return Some(AlreadyFinished);
      }
      if |values| != |columns| {
        return Some(Width);
      }
      WriteByte(TAG_ROW);
      WriteUint32(|values|);
      var i := 0;
      while i < |values|
        invariant 0 <= i <= |values| && rows == old(rows)
        invariant WriteValues(columns, values, i).1.None?
        invariant stream == old(stream) + ([TAG_ROW] + U32(|values|) + WriteValues(columns, values, i).0)
      {
        error := WriteTypedValue(columns[i].typ, values[i]);
        i := i + 1;
        if error.Some? {
          WritePrefix(columns, values, i, |columns|);
          return;
        }
      }
      rows := rows + 1;
      return None;
    }

    method ObserveRow(row: SpannerRow) returns (error: Option<Error>)
      modifies this`stream, this`rows
      ensures (View(), error) == FpRow(old(View()), row)
    {
      hide WriteValues;
      hide U32;
      if done {
        return Some(AlreadyFinished);
      }
      if row.Nil? {
        return Some(NilRow);
      }
      if |row.cells| != |columns| {
        return Some(Width);
      }
      var values: seq<Gcv> := [];
      var i := 0;
      while i < |row.cells|
        invariant 0 <= i <= |row.cells| == |columns| && |values| == i
        invariant forall j :: 0 <= j < i ==> row.cells[j].gcv == Some(values[j])
      {
        if row.cells[i].gcv.None? {
          return Some(Undecodable);
        }
        values := values + [row.cells[i].gcv.value];
        i := i + 1;
      }
      assert values == Values(row);
      error := ObserveGcvs(values);
    }

    /** The tail is written once; a second completion is refused. */
    method Finish(sum: Bytes -> Bytes, c: Completion) returns (reply: Reply)
      modifies this`stream, this`done
      ensures done
      ensures old(done) ==> stream == old(stream) && reply == Refused(AlreadyFinished)
      ensures !old(done) ==> stream == old(stream) + Tail(rows, c) && reply == Sum(sum(stream))
    {
      hide U32;
      hide U64;
      hide CountList;
      if done {
        return Refused(AlreadyFinished);
      }
      ghost var was := stream;
      WriteByte(TAG_EOS);
      match c {
        case Query =>
          WriteUint64(rows);
          Associate(was, [TAG_EOS], U64(rows));
        case Dml(affected) =>
          WriteUint64(rows);
          WriteByte(TAG_AFFECTED);
          WriteUint64(affected);
          FourParts(was, [TAG_EOS], U64(rows), [TAG_AFFECTED], U64(affected));
        case Batch(counts) =>
          WriteByte(TAG_BATCH_COUNTS);
          WriteUint32(|counts|);
          WriteCounts(counts);
          FourParts(was, [TAG_EOS], [TAG_BATCH_COUNTS], U32(|counts|), CountList(counts));
      }
      done := true;
      return Sum(sum(stream));
    }

    method WriteCounts(counts: seq<int>)
      modifies this`stream
      ensures stream == old(stream) + CountList(counts)
    {
      hide U64;
      var i := 0;
      while i < |counts|
        invariant 0 <= i <= |counts|
        invariant stream == old(stream) + CountList(counts[..i])
      {
        WriteUint64(counts[i]);
        CountListSnoc(counts[..i], counts[i]);
        assert counts[..i] + [counts[i]] == counts[..i + 1];
        i := i + 1;
      }
      assert counts[..|counts|] == counts;
    }
  }

  class OperationReceipt {
    const sum: Bytes -> Bytes
    var fp: ResultFingerprinter?
    var observed: nat
    var failed: Option<Error>
    var finalized: bool
    var complete: Option<Kind>
    var fingerprint: Option<Bytes>

    function View(): State
      reads this, fp
    {
      State(if fp == null then None else Some(fp.View()), observed, failed, finalized, complete, fingerprint)
    }

    function Owned(): set<object>
      reads this
    {
      if fp == null then {} else {fp}
    }

    constructor (sum: Bytes -> Bytes)
      ensures this.sum == sum && View() == FRESH && fp == null
    {
      this.sum := sum;
      fp, observed, failed, finalized, complete, fingerprint := null, 0, None, false, None, None;
    }

    method ObserveMetadata(columns: seq<Column>) returns (reply: Reply)
      modifies this
      ensures (View(), reply) == AfterMetadata(old(View()), columns)
      ensures fp == old(fp) || fresh(fp)
    {
      hide NewFp;
      if finalized || failed.Some? {
        return Refused(if failed.Some? then failed.value else AlreadyFinalized);
      }
      if fp != null {
        return Accepted;
      }
      var made := ResultFingerprinter.New(columns);
      if made == null {
        failed := Some(Unmarshalable);
        return Refused(Unmarshalable);
      }
      fp := made;
      return Accepted;
    }

    /** fieldsFromSpannerRow: the columns a row announces. */
    method FieldsFromRow(row: SpannerRow) returns (columns: seq<Column>, error: Option<Error>)
      ensures row.Nil? ==> error == Some(NilRow)
      ensures row.SpannerRow? && !Decodes(row) ==> error == Some(Undecodable)
      ensures Decodes(row) ==> error.None? && columns == Announced(row)
    {
      columns := [];
      if row.Nil? {
        return columns, Some(NilRow);
      }
      var i := 0;
      while i < |row.cells|
        invariant 0 <= i <= |row.cells| && |columns| == i
        invariant forall j :: 0 <= j < i ==> row.cells[j].gcv.Some?
        invariant forall j :: 0 <= j < i ==> columns[j] == Column(row.cells[j].name, row.cells[j].gcv.value.typ)
      {
        if row.cells[i].gcv.None? {
          return columns, Some(Undecodable);
        }
        columns := columns + [Column(row.cells[i].name, row.cells[i].gcv.value.typ)];
        i := i + 1;
      }
      return columns, None;
    }

    method ObserveRow(row: SpannerRow) returns (reply: Reply)
      modifies this, Owned()
      ensures (View(), reply) == AfterRow(old(View()), row)
      ensures fp == old(fp) || fresh(fp)
    {
      hide NewFp;
      hide FpRow;
      hide Decodes;
      if finalized || failed.Some? {
        return Refused(if failed.Some? then failed.value else AlreadyFinalized);
      }
      if fp == null {
        var columns, error := FieldsFromRow(row);
        if error.Some? {
          NilDoesNotDecode(row);
          failed := error;
          return Refused(error.value);
        }
        NilDoesNotDecode(row);
        var made := ResultFingerprinter.New(columns);
        if made == null {
          failed := Some(Unmarshalable);
          return Refused(Unmarshalable);
        }
        fp := made;
      }
      var error := fp.ObserveRow(row);
      if error.Some? {
        failed := error;
        return Refused(error.value);
      }
      observed := observed + 1;
      return Accepted;
    }

    static lemma NilDoesNotDecode(row: SpannerRow)
      ensures row.Nil? ==> !Decodes(row)
    {
    }

    /** finishWith, for the completion kind of c. */
    method Finish(c: Completion, error: Option<Error>) returns (reply: Reply)
      modifies this, Owned()
      ensures (View(), reply) == AfterFinish(sum, old(View()), c, error)
      ensures fp == old(fp) || fresh(fp)
    {
      hide Tail;
      if finalized {
        if error.Some? {
          return Refused(error.value);
        }
        if failed.Some? {
          return Refused(failed.value);
        }
        if complete != Some(KindOf(c)) {
          return Refused(CompletedAs(KindOf(c)));
        }
        if fingerprint.None? {
          return Refused(NoObservation);
        }
        return Sum(fingerprint.value);
      }
      finalized := true;
      complete := Some(KindOf(c));
      if error.Some? {
        failed := error;
        return Refused(error.value);
      }
      if failed.Some? {
        return Refused(failed.value);
      }
      if fp == null {
        NoColumns();
        fp := ResultFingerprinter.New([]);
      }
      reply := fp.Finish(sum, c);
      if reply.Refused? {
        failed := Some(reply.error);
        return;
      }
      fingerprint := Some(reply.bytes);
    }
  }

  // ---- The two drivers ----

  /** A row and what the consumer makes of it. */
  datatype Delivery = Delivery(row: SpannerRow, sink: Option<Error>)

  function Delivered(ds: seq<Delivery>): seq<SpannerRow> {
    seq(|ds|, i requires 0 <= i < |ds| => ds[i].row)
  }

  predicate SinkTakes(ds: seq<Delivery>) {
    forall i :: 0 <= i < |ds| ==> ds[i].sink.None?
  }

  /** The row type when rows come first. */
  function FirstRowType(columns: seq<Column>, ds: seq<Delivery>): seq<Column> {
    if ds != [] && Decodes(ds[0].row) then Announced(ds[0].row) else columns
  }

  function Held(columns: seq<Column>, ds: seq<Delivery>): State
    requires Good(columns, Delivered(ds))
  {
    Holding(columns, Delivered(ds))
  }

  /** The receipt of a run that ended well, or none. */
  function Expected(sum: Bytes -> Bytes, well: bool, columns: seq<Column>, ds: seq<Delivery>): Option<Bytes> {
    if well then SumIfGood(sum, columns, Delivered(ds), Query) else None
  }

  lemma OpenedByMetadata(columns: seq<Column>)
    ensures EncodeColumns(columns).Some? ==>
      Good(columns, []) && AfterMetadata(FRESH, columns) == (Holding(columns, []), Accepted)
    ensures EncodeColumns(columns).None? ==>
      AfterMetadata(FRESH, columns).1.Refused? && Spoiled(AfterMetadata(FRESH, columns).0)
  {
    hide Header;
    hide EncodeColumns;
    if EncodeColumns(columns).Some? {
      HeaderIsOpenStream(columns);
    }
  }

  lemma SpoiledForGood(sum: Bytes -> Bytes, s: State, e: Error)
    requires s.fingerprint.None? && !s.finalized
    ensures AfterFinish(sum, s, Query, Some(e)).0.fingerprint.None?
  {
  }

  lemma FinishHeld(sum: Bytes -> Bytes, columns: seq<Column>, rows: seq<SpannerRow>)
    requires Good(columns, rows)
    ensures var (s, reply) := AfterFinish(sum, Holding(columns, rows), Query, None);
      reply.Sum? && s.fingerprint == Some(sum(Recorded(columns, rows, Query)))
  {
    hide EncodeColumns;
    hide Header;
    hide RowList;
    hide Tail;
    hide RowOk;
  }

  /** One bad row spoils the whole list. */
  lemma BadRow(columns: seq<Column>, ds: seq<Delivery>, i: nat)
    requires i < |ds| && !RowOk(columns, ds[i].row)
    ensures !Good(columns, Delivered(ds))
  {
    hide RowOk;
    hide EncodeColumns;
    assert Delivered(ds)[i] == ds[i].row;
  }

  /** Row i of the run, taken by a receipt that holds the rows before it. */
  lemma NextRow(columns: seq<Column>, ds: seq<Delivery>, i: nat)
    requires i < |ds| && Good(columns, Delivered(ds[..i]))
    ensures RowOk(columns, ds[i].row) ==>
      && Good(columns, Delivered(ds[..i + 1]))
      && AfterRow(Held(columns, ds[..i]), ds[i].row) == (Held(columns, ds[..i + 1]), Accepted)
    ensures !RowOk(columns, ds[i].row) ==>
      AfterRow(Held(columns, ds[..i]), ds[i].row).1.Refused? && Spoiled(AfterRow(Held(columns, ds[..i]), ds[i].row).0)
  {
    hide RowOk;
    hide EncodeColumns;
    hide OpenStream;
    hide AfterRow;
    RowTaken(columns, Delivered(ds[..i]), ds[i].row);
    assert Delivered(ds[..i + 1]) == Delivered(ds[..i]) + [ds[i].row];
  }

  lemma RowZero(columns: seq<Column>, ds: seq<Delivery>)
    requires ds != []
    ensures var t := FirstRowType(columns, ds);
      RowOk(t, ds[0].row) ==>
        Good(t, Delivered(ds[..1])) && AfterRow(FRESH, ds[0].row) == (Held(t, ds[..1]), Accepted)
    ensures !RowOk(FirstRowType(columns, ds), ds[0].row) ==>
      AfterRow(FRESH, ds[0].row).1.Refused? && Spoiled(AfterRow(FRESH, ds[0].row).0)
  {
    hide EncodeColumns;
    hide OpenStream;
    hide AfterRow;
    hide ValueOk;
    FirstRowTaken(ds[0].row);
    assert Delivered(ds[..1]) == [ds[0].row];
  }

  /** consumeRowIterCollectObservingWithMetrics: rows, then metadata, then completion. */
  method ConsumeRowsFirst(rec: OperationReceipt, columns: seq<Column>, ds: seq<Delivery>, end: Option<Error>)
    returns (error: Option<Error>)
    requires rec.View() == FRESH
    modifies rec
    ensures rec.fingerprint == Expected(rec.sum, end.None? && SinkTakes(ds), FirstRowType(columns, ds), ds)
    ensures error.None? <==> rec.fingerprint.Some?
  {
    hide Good;
    hide FirstRowType;
    hide Recorded;
    hide RowOk;
    hide Held;
    hide Decodes;
    hide AfterFinish;
    hide AfterRow;
    hide AfterMetadata;
    var i := 0;
    ghost var t := FirstRowType(columns, ds);
    while i < |ds|
      invariant 0 <= i <= |ds| && (rec.fp == null || fresh(rec.fp))
      invariant SinkTakes(ds[..i])
      invariant i == 0 ==> rec.View() == FRESH
      invariant i > 0 ==> Good(t, Delivered(ds[..i])) && rec.View() == Held(t, ds[..i])
    {
      if i == 0 {
        RowZero(columns, ds);
      } else {
        NextRow(t, ds, i);
      }
      var reply := rec.ObserveRow(ds[i].row);
      if reply.Refused? {
        SpoiledForGood(rec.sum, rec.View(), reply.error);
        BadRow(t, ds, i);
        var _ := rec.Finish(Query, Some(reply.error));
        return Some(reply.error);
      }
      if ds[i].sink.Some? {
        HeldIsUnfinished(t, ds[..i + 1]);
        SpoiledForGood(rec.sum, rec.View(), ds[i].sink.value);
        var _ := rec.Finish(Query, ds[i].sink);
        return ds[i].sink;
      }
      i := i + 1;
    }
    assert ds[..|ds|] == ds;
    if end.Some? {
      if |ds| > 0 {
        HeldIsUnfinished(t, ds);
      }
      SpoiledForGood(rec.sum, rec.View(), end.value);
      var _ := rec.Finish(Query, end);
      return end;
    }
    MetadataLast(columns, ds);
    var reply := rec.ObserveMetadata(columns);
    if reply.Refused? {
      SpoiledForGood(rec.sum, rec.View(), reply.error);
      var _ := rec.Finish(Query, Some(reply.error));
      return Some(reply.error);
    }
    HeldFinishes(rec.sum, t, ds);
    reply := rec.Finish(Query, None);
    return None;
  }

  lemma HeldIsUnfinished(columns: seq<Column>, ds: seq<Delivery>)
    requires Good(columns, Delivered(ds))
    ensures !Held(columns, ds).finalized && Held(columns, ds).fingerprint.None?
  {
    hide Good;
    hide OpenStream;
  }

  lemma HeldFinishes(sum: Bytes -> Bytes, columns: seq<Column>, ds: seq<Delivery>)
    requires Good(columns, Delivered(ds))
    ensures var (s, reply) := AfterFinish(sum, Held(columns, ds), Query, None);
      reply.Sum? && s.fingerprint == Some(sum(Recorded(columns, Delivered(ds), Query)))
  {
    hide Good;
    hide AfterFinish;
    hide Recorded;
    FinishHeld(sum, columns, Delivered(ds));
  }

  /** Metadata after the rows opens the fingerprinter only if there were none. */
  lemma MetadataLast(columns: seq<Column>, ds: seq<Delivery>)
    requires ds != [] ==> Good(FirstRowType(columns, ds), Delivered(ds))
    ensures var t := FirstRowType(columns, ds);
      var s := if ds == [] then FRESH else Held(t, ds);
      (Good(t, Delivered(ds)) ==> AfterMetadata(s, columns) == (Held(t, ds), Accepted))
      && (!Good(t, Delivered(ds)) ==> AfterMetadata(s, columns).1.Refused? && Spoiled(AfterMetadata(s, columns).0))
  {
    hide EncodeColumns;
    hide OpenStream;
    hide Decodes;
    hide RowOk;
    if ds == [] {
      assert Delivered(ds) == [];
      OpenedByMetadata(columns);
    }
  }

  /** runRowIteratorTransform: metadata before the first row, then rows, then completion.
      When the iterator fails before any row, metadata may or may not have been prepared. */
  method ConsumeMetadataFirst(rec: OperationReceipt, columns: seq<Column>, prepare: Option<Error>, ds: seq<Delivery>,
                              end: Option<Error>, finish: Option<Error>)
    returns (error: Option<Error>)
    requires rec.View() == FRESH
    modifies rec
    ensures rec.fingerprint
         == Expected(rec.sum, prepare.None? && end.None? && finish.None? && SinkTakes(ds), columns, ds)
    ensures error.None? <==> rec.fingerprint.Some?
  {
    hide Good;
    hide Recorded;
    hide RowOk;
    hide Held;
    hide AfterFinish;
    hide AfterRow;
    hide AfterMetadata;
    var prepared: bool := *;
    if prepared || |ds| > 0 || end.None? {
      PreparedEmpty(columns, ds);
      var reply := rec.ObserveMetadata(columns);
      error := if reply.Refused? then Some(reply.error) else prepare;
      if error.Some? {
        if reply.Accepted? {
          HeldIsUnfinished(columns, []);
        }
        SpoiledForGood(rec.sum, rec.View(), error.value);
        var _ := rec.Finish(Query, error);
        return;
      }
      assert ds[..0] == [];
      var i := 0;
      while i < |ds|
        invariant 0 <= i <= |ds| && (rec.fp == null || fresh(rec.fp))
        invariant SinkTakes(ds[..i])
        invariant Good(columns, Delivered(ds[..i])) && rec.View() == Held(columns, ds[..i])
      {
        NextRow(columns, ds, i);
        reply := rec.ObserveRow(ds[i].row);
        if reply.Refused? {
          SpoiledForGood(rec.sum, rec.View(), reply.error);
          BadRow(columns, ds, i);
          var _ := rec.Finish(Query, Some(reply.error));
          return Some(reply.error);
        }
        if ds[i].sink.Some? {
          HeldIsUnfinished(columns, ds[..i + 1]);
          SpoiledForGood(rec.sum, rec.View(), ds[i].sink.value);
          var _ := rec.Finish(Query, ds[i].sink);
          return ds[i].sink;
        }
        i := i + 1;
      }
      assert ds[..|ds|] == ds;
      HeldIsUnfinished(columns, ds);
    }
    if end.Some? {
      SpoiledForGood(rec.sum, rec.View(), end.value);
      var _ := rec.Finish(Query, end);
      return end;
    }
    if finish.Some? {
      SpoiledForGood(rec.sum, rec.View(), finish.value);
      var _ := rec.Finish(Query, finish);
      return finish;
    }
    HeldFinishes(rec.sum, columns, ds);
    var _ := rec.Finish(Query, None);
    return None;
  }

  lemma PreparedEmpty(columns: seq<Column>, ds: seq<Delivery>)
    ensures EncodeColumns(columns).Some? ==>
      Good(columns, Delivered([])) && AfterMetadata(FRESH, columns) == (Held(columns, []), Accepted)
    ensures EncodeColumns(columns).None? ==>
      AfterMetadata(FRESH, columns).1.Refused? && Spoiled(AfterMetadata(FRESH, columns).0)
        && !Good(columns, Delivered(ds))
  {
    hide EncodeColumns;
    hide OpenStream;
    assert Delivered([]) == [];
    OpenedByMetadata(columns);
  }

  /** Both loops over the same result, each with a receipt of its own. They leave the same
      fingerprint, and fail together, when the first row announces the metadata's row type or
      cannot be read. */
  method ConsumeBothWays(sum: Bytes -> Bytes, columns: seq<Column>, ds: seq<Delivery>, end: Option<Error>)
    returns (rowsFirst: Option<Bytes>, metadataFirst: Option<Bytes>, error: Option<Error>, error': Option<Error>)
    requires ds == [] || !Decodes(ds[0].row) || Announced(ds[0].row) == columns
    ensures rowsFirst == metadataFirst && (error.None? <==> error'.None?) && (error.None? <==> rowsFirst.Some?)
    ensures rowsFirst.Some? <==> end.None? && SinkTakes(ds) && Good(columns, Delivered(ds))
    ensures rowsFirst.Some? ==> rowsFirst.value == sum(Recorded(columns, Delivered(ds), Query))
  {
    hide Good; hide Recorded; hide Decodes; hide Announced;
    var a := new OperationReceipt(sum);
    error := ConsumeRowsFirst(a, columns, ds, end);
    var b := new OperationReceipt(sum);
    error' := ConsumeMetadataFirst(b, columns, None, ds, end, None);
    return a.fingerprint, b.fingerprint, error, error';
  }
}

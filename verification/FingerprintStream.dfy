/** The byte stream a result fingerprint hashes (internal/mycli/savepoint_fingerprint.go): a domain text,
    the columns, the rows and a tail for the kind of completion, each behind a tag, with fixed-width
    lengths and counts. */
module FingerprintStream {

  type Byte = b: int | 0 <= b < 256
  type Bytes = seq<Byte>

  const TAG_FIELDS: Byte := 1
  const TAG_ROW: Byte := 2
  const TAG_EOS: Byte := 3
  const TAG_AFFECTED: Byte := 4
  const TAG_BATCH_COUNTS: Byte := 5

  const TWO_32 := 0x1_0000_0000
  const TWO_63 := 0x8000_0000_0000_0000
  const TWO_64 := 0x1_0000_0000_0000_0000

  const DOMAIN_TEXT := "spanner-mycli/savepoint-fp/v1"

  function Ascii(s: string): Bytes {
    if s == "" then [] else Ascii(s[..|s| - 1]) + [s[|s| - 1] as int % 256]
  }

  // ---- Fixed-width integers, big-endian ----

  function Power(width: nat): nat {
    if width == 0 then 1 else 256 * Power(width - 1)
  }

  function BigEndian(n: nat, width: nat): (r: Bytes)
    ensures |r| == width
  {
    if width == 0 then [] else BigEndian(n / 256, width - 1) + [n % 256]
  }

  lemma {:induction false} BigEndianInjective(a: nat, b: nat, width: nat)
    requires a < Power(width) && b < Power(width) && BigEndian(a, width) == BigEndian(b, width)
    ensures a == b
  {
    if width > 0 {
      var x, y := BigEndian(a, width), BigEndian(b, width);
      assert x[..width - 1] == BigEndian(a / 256, width - 1) && y[..width - 1] == BigEndian(b / 256, width - 1);
      assert x[width - 1] == a % 256 && y[width - 1] == b % 256;
      BigEndianInjective(a / 256, b / 256, width - 1);
    }
  }

  lemma Powers()
    ensures Power(4) == TWO_32 && Power(8) == TWO_64
  {
    assert Power(1) == 256 * Power(0);
    assert Power(2) == 256 * Power(1);
    assert Power(3) == 256 * Power(2);
    assert Power(5) == 256 * Power(4);
    assert Power(6) == 256 * Power(5);
    assert Power(7) == 256 * Power(6);
  }

  /** uint32(n): the length is truncated. */
  function U32(n: nat): Bytes {
    BigEndian(n % TWO_32, 4)
  }

  lemma U32Width(n: nat)
    ensures |U32(n)| == 4
  {
  }

  predicate IsInt64(n: int) {
    -TWO_63 <= n < TWO_63
  }

  /** uint64 of an int64: two's complement. */
  function U64(n: int): Bytes {
    BigEndian(n % TWO_64, 8)
  }

  lemma U32Injective(a: nat, b: nat)
    requires a < TWO_32 && b < TWO_32 && U32(a) == U32(b)
    ensures a == b
  {
    hide BigEndian;
    Powers();
    hide Power;
    BigEndianInjective(a, b, 4);
  }

  lemma U64Injective(a: int, b: int)
    requires IsInt64(a) && IsInt64(b) && U64(a) == U64(b)
    ensures a == b
  {
    hide BigEndian;
    Powers();
    hide Power;
    BigEndianInjective(a % TWO_64, b % TWO_64, 8);
  }

  // ---- Content as it is written ----

  /** A column: its name and the bytes of its type message (none for an absent type). */
  datatype Field = Field(name: Bytes, typ: Bytes)

  /** A value: the bytes of its type and value messages. */
  datatype Value = Value(typ: Bytes, payload: Bytes)

  type Row = seq<Value>

  datatype Completion = Query | Dml(affected: int) | Batch(counts: seq<int>)

  function Prefixed(b: Bytes): Bytes {
    U32(|b|) + b
  }

  function FieldBytes(f: Field): Bytes {
    Prefixed(f.name) + Prefixed(f.typ)
  }

  function FieldList(fs: seq<Field>): Bytes {
    if fs == [] then [] else FieldBytes(fs[0]) + FieldList(fs[1..])
  }

  function ValueBytes(v: Value): Bytes {
    Prefixed(v.typ) + Prefixed(v.payload)
  }

  function ValueList(vs: Row): Bytes {
    if vs == [] then [] else ValueBytes(vs[0]) + ValueList(vs[1..])
  }

  function Header(fs: seq<Field>): Bytes {
    Ascii(DOMAIN_TEXT) + [TAG_FIELDS] + U32(|fs|) + FieldList(fs)
  }

  function RowBytes(row: Row): Bytes {
    [TAG_ROW] + U32(|row|) + ValueList(row)
  }

  function RowList(rows: seq<Row>): Bytes {
    if rows == [] then [] else RowBytes(rows[0]) + RowList(rows[1..])
  }

  function CountList(counts: seq<int>): Bytes {
    if counts == [] then [] else U64(counts[0]) + CountList(counts[1..])
  }

  /** What completion appends. The batch form leaves the row count out. */
  function Tail(rows: nat, c: Completion): Bytes {
    match c
    case Query => [TAG_EOS] + U64(rows)
    case Dml(affected) => [TAG_EOS] + U64(rows) + [TAG_AFFECTED] + U64(affected)
    case Batch(counts) => [TAG_EOS] + [TAG_BATCH_COUNTS] + U32(|counts|) + CountList(counts)
  }

  function Stream(fs: seq<Field>, rows: seq<Row>, c: Completion): Bytes {
    Header(fs) + RowList(rows) + Tail(|rows|, c)
  }

  // ---- The ranges in which nothing is truncated ----

  predicate Short(b: Bytes) {
    |b| < TWO_32
  }

  predicate FieldsFit(fs: seq<Field>) {
    |fs| < TWO_32 && forall i :: 0 <= i < |fs| ==> Short(fs[i].name) && Short(fs[i].typ)
  }

  predicate RowFits(row: Row) {
    |row| < TWO_32 && forall i :: 0 <= i < |row| ==> Short(row[i].typ) && Short(row[i].payload)
  }

  predicate CompletionFits(c: Completion) {
    match c
    case Query => true
    case Dml(affected) => IsInt64(affected)
    case Batch(counts) => |counts| < TWO_32 && forall i :: 0 <= i < |counts| ==> IsInt64(counts[i])
  }

  predicate Fits(fs: seq<Field>, rows: seq<Row>, c: Completion) {
    FieldsFit(fs) && (forall i :: 0 <= i < |rows| ==> RowFits(rows[i])) && CompletionFits(c)
  }

  // ---- Cancelling encodings from the left ----

  lemma SplitAt(a: Bytes, x: Bytes, b: Bytes, y: Bytes)
    requires a + x == b + y && |a| == |b|
    ensures a == b && x == y
  {
    assert a == (a + x)[..|a|] && b == (b + y)[..|b|];
    assert x == (a + x)[|a|..] && y == (b + y)[|b|..];
  }

  lemma Associate(a: Bytes, b: Bytes, c: Bytes)
    ensures (a + b) + c == a + (b + c)
  {
  }

  lemma CancelPrefixed(a: Bytes, x: Bytes, b: Bytes, y: Bytes)
    requires Short(a) && Short(b) && Prefixed(a) + x == Prefixed(b) + y
    ensures a == b && x == y
  {
    hide U32;
    Associate(U32(|a|), a, x);
    Associate(U32(|b|), b, y);
    U32Width(|a|);
    U32Width(|b|);
    SplitAt(U32(|a|), a + x, U32(|b|), b + y);
    U32Injective(|a|, |b|);
    SplitAt(a, x, b, y);
  }

  lemma CancelPair(a1: Bytes, a2: Bytes, x: Bytes, b1: Bytes, b2: Bytes, y: Bytes)
    requires Short(a1) && Short(a2) && Short(b1) && Short(b2)
    requires (Prefixed(a1) + Prefixed(a2)) + x == (Prefixed(b1) + Prefixed(b2)) + y
    ensures a1 == b1 && a2 == b2 && x == y
  {
    hide Prefixed;
    Associate(Prefixed(a1), Prefixed(a2), x);
    Associate(Prefixed(b1), Prefixed(b2), y);
    CancelPrefixed(a1, Prefixed(a2) + x, b1, Prefixed(b2) + y);
    CancelPrefixed(a2, x, b2, y);
  }

  lemma FieldListStep(fs: seq<Field>, x: Bytes)
    requires fs != []
    ensures FieldList(fs) + x == FieldBytes(fs[0]) + (FieldList(fs[1..]) + x)
  {
    hide FieldBytes;
    Associate(FieldBytes(fs[0]), FieldList(fs[1..]), x);
  }

  lemma {:induction false} CancelFields(fs: seq<Field>, x: Bytes, gs: seq<Field>, y: Bytes)
    requires FieldsFit(fs) && FieldsFit(gs) && |fs| == |gs| && FieldList(fs) + x == FieldList(gs) + y
    ensures fs == gs && x == y
  {
    hide Prefixed;
    if fs == [] {
      assert FieldList(fs) + x == x && FieldList(gs) + y == y;
    } else {
      FieldListStep(fs, x);
      FieldListStep(gs, y);
      CancelPair(fs[0].name, fs[0].typ, FieldList(fs[1..]) + x, gs[0].name, gs[0].typ, FieldList(gs[1..]) + y);
      CancelFields(fs[1..], x, gs[1..], y);
      assert fs == [fs[0]] + fs[1..] && gs == [gs[0]] + gs[1..];
    }
  }

  lemma ValueListStep(vs: Row, x: Bytes)
    requires vs != []
    ensures ValueList(vs) + x == ValueBytes(vs[0]) + (ValueList(vs[1..]) + x)
  {
    hide ValueBytes;
    Associate(ValueBytes(vs[0]), ValueList(vs[1..]), x);
  }

  lemma {:induction false} CancelValues(vs: Row, x: Bytes, ws: Row, y: Bytes)
    requires RowFits(vs) && RowFits(ws) && |vs| == |ws| && ValueList(vs) + x == ValueList(ws) + y
    ensures vs == ws && x == y
  {
    hide Prefixed;
    if vs == [] {
      assert ValueList(vs) + x == x && ValueList(ws) + y == y;
    } else {
      ValueListStep(vs, x);
      ValueListStep(ws, y);
      CancelPair(vs[0].typ, vs[0].payload, ValueList(vs[1..]) + x, ws[0].typ, ws[0].payload, ValueList(ws[1..]) + y);
      CancelValues(vs[1..], x, ws[1..], y);
      assert vs == [vs[0]] + vs[1..] && ws == [ws[0]] + ws[1..];
    }
  }

  lemma RowStep(v: Row, x: Bytes)
    ensures RowBytes(v) + x == [TAG_ROW] + (U32(|v|) + (ValueList(v) + x))
  {
    hide U32;
    hide ValueList;
    Associate([TAG_ROW] + U32(|v|), ValueList(v), x);
    Associate([TAG_ROW], U32(|v|), ValueList(v) + x);
  }

  lemma CancelRow(v: Row, x: Bytes, w: Row, y: Bytes)
    requires RowFits(v) && RowFits(w) && RowBytes(v) + x == RowBytes(w) + y
    ensures v == w && x == y
  {
    hide U32;
    hide ValueList;
    RowStep(v, x);
    RowStep(w, y);
    U32Width(|v|);
    U32Width(|w|);
    SplitAt([TAG_ROW], U32(|v|) + (ValueList(v) + x), [TAG_ROW], U32(|w|) + (ValueList(w) + y));
    SplitAt(U32(|v|), ValueList(v) + x, U32(|w|), ValueList(w) + y);
    U32Injective(|v|, |w|);
    CancelValues(v, x, w, y);
  }

  lemma RowListStep(rows: seq<Row>, x: Bytes)
    requires rows != []
    ensures RowList(rows) + x == RowBytes(rows[0]) + (RowList(rows[1..]) + x)
    ensures (RowList(rows) + x)[0] == TAG_ROW
  {
    RowStep(rows[0], RowList(rows[1..]) + x);
    hide RowBytes;
    Associate(RowBytes(rows[0]), RowList(rows[1..]), x);
  }

  /** Row blocks end where the end-of-stream tag stands, so their number need not be known. */
  lemma {:induction false} CancelRows(vs: seq<Row>, x: Bytes, ws: seq<Row>, y: Bytes)
    requires (forall i :: 0 <= i < |vs| ==> RowFits(vs[i])) && (forall i :: 0 <= i < |ws| ==> RowFits(ws[i]))
    requires x != [] && y != [] && x[0] == TAG_EOS && y[0] == TAG_EOS
    requires RowList(vs) + x == RowList(ws) + y
    ensures vs == ws && x == y
    decreases |vs|
  {
    hide RowBytes;
    assert vs == [] ==> RowList(vs) + x == x;
    assert ws == [] ==> RowList(ws) + y == y;
    if vs != [] {
      RowListStep(vs, x);
    }
    if ws != [] {
      RowListStep(ws, y);
    }
    if vs != [] && ws != [] {
      CancelRow(vs[0], RowList(vs[1..]) + x, ws[0], RowList(ws[1..]) + y);
      CancelRows(vs[1..], x, ws[1..], y);
      assert vs == [vs[0]] + vs[1..] && ws == [ws[0]] + ws[1..];
    }
  }

  lemma {:induction false} CancelCounts(a: seq<int>, b: seq<int>)
    requires |a| == |b| && CountList(a) == CountList(b)
    requires (forall i :: 0 <= i < |a| ==> IsInt64(a[i])) && (forall i :: 0 <= i < |b| ==> IsInt64(b[i]))
    ensures a == b
  {
    if a != [] {
      SplitAt(U64(a[0]), CountList(a[1..]), U64(b[0]), CountList(b[1..]));
      U64Injective(a[0], b[0]);
      CancelCounts(a[1..], b[1..]);
      assert a == [a[0]] + a[1..] && b == [b[0]] + b[1..];
    }
  }

  lemma {:induction false} CountListLength(counts: seq<int>)
    ensures |CountList(counts)| == 8 * |counts|
  {
    if counts != [] {
      CountListLength(counts[1..]);
    }
  }

  /** Tail lengths are 9, 18 and 6 + 8k: no two kinds agree. */
  lemma TailLength(rows: nat, c: Completion)
    ensures |Tail(rows, c)| == match c { case Query => 9 case Dml(_) => 18 case Batch(counts) => 6 + 8 * |counts| }
  {
    if c.Batch? {
      CountListLength(c.counts);
    }
  }

  /** Equal tails after equally many rows mean the same kind of completion with the same counts. */
  lemma TailInjective(rows: nat, c: Completion, d: Completion)
    requires CompletionFits(c) && CompletionFits(d) && Tail(rows, c) == Tail(rows, d)
    ensures c == d
  {
    TailLength(rows, c);
    TailLength(rows, d);
    match c
    case Query =>
    case Dml(m) =>
      SplitAt([TAG_EOS] + U64(rows) + [TAG_AFFECTED], U64(m), [TAG_EOS] + U64(rows) + [TAG_AFFECTED], U64(d.affected));
      U64Injective(m, d.affected);
    case Batch(counts) =>
      var front := [TAG_EOS] + [TAG_BATCH_COUNTS] + U32(|counts|);
      SplitAt(front, CountList(counts), [TAG_EOS] + [TAG_BATCH_COUNTS] + U32(|d.counts|), CountList(d.counts));
      CancelCounts(counts, d.counts);
  }

  lemma TailStarts(rows: nat, c: Completion)
    ensures |Tail(rows, c)| > 0 && Tail(rows, c)[0] == TAG_EOS
  {
    hide U32;
    hide U64;
    hide CountList;
  }

  lemma StreamStep(fs: seq<Field>, rows: seq<Row>, c: Completion)
    ensures Stream(fs, rows, c)
         == (Ascii(DOMAIN_TEXT) + [TAG_FIELDS]) + (U32(|fs|) + (FieldList(fs) + (RowList(rows) + Tail(|rows|, c))))
  {
    hide Ascii;
    hide U32;
    hide FieldList;
    hide RowList;
    hide Tail;
    var front := Ascii(DOMAIN_TEXT) + [TAG_FIELDS];
    Associate(Header(fs), RowList(rows), Tail(|rows|, c));
    Associate(front + U32(|fs|), FieldList(fs), RowList(rows) + Tail(|rows|, c));
    Associate(front, U32(|fs|), FieldList(fs) + (RowList(rows) + Tail(|rows|, c)));
  }

  /** Equal streams come from equal fields, equal rows, the same kind of completion and equal counts. */
  lemma StreamInjective(fs: seq<Field>, rows: seq<Row>, c: Completion, gs: seq<Field>, rows': seq<Row>, d: Completion)
    requires Fits(fs, rows, c) && Fits(gs, rows', d)
    requires Stream(fs, rows, c) == Stream(gs, rows', d)
    ensures fs == gs && rows == rows' && c == d
  {
    var front := Ascii(DOMAIN_TEXT) + [TAG_FIELDS];
    var x, y := RowList(rows) + Tail(|rows|, c), RowList(rows') + Tail(|rows'|, d);
    hide Ascii;
    hide U32;
    hide FieldList;
    hide RowList;
    hide Tail;
    StreamStep(fs, rows, c);
    StreamStep(gs, rows', d);
    U32Width(|fs|);
    U32Width(|gs|);
    TailStarts(|rows|, c);
    TailStarts(|rows'|, d);
    SplitAt(front, U32(|fs|) + (FieldList(fs) + x), front, U32(|gs|) + (FieldList(gs) + y));
    SplitAt(U32(|fs|), FieldList(fs) + x, U32(|gs|), FieldList(gs) + y);
    U32Injective(|fs|, |gs|);
    CancelFields(fs, x, gs, y);
    CancelRows(rows, Tail(|rows|, c), rows', Tail(|rows'|, d));
    TailInjective(|rows|, c, d);
  }

  // ---- One stream, byte by byte ----

  lemma OneAsBytes()
    ensures BigEndian(1, 4) == [0, 0, 0, 1] && BigEndian(1, 8) == [0, 0, 0, 0, 0, 0, 0, 1]
  {
    assert BigEndian(0, 1) == [0];
    assert BigEndian(0, 2) == [0, 0];
    assert BigEndian(0, 3) == [0, 0, 0];
    assert BigEndian(0, 4) == [0, 0, 0, 0];
    assert BigEndian(0, 5) == [0, 0, 0, 0, 0];
    assert BigEndian(0, 6) == [0, 0, 0, 0, 0, 0];
    assert BigEndian(0, 7) == [0, 0, 0, 0, 0, 0, 0];
  }

  lemma MinusOneAsBytes()
    ensures U64(-1) == [255, 255, 255, 255, 255, 255, 255, 255]
  {
    assert (-1) % TWO_64 == 0xFFFF_FFFF_FFFF_FFFF;
    assert BigEndian(0xFF, 1) == [255];
    assert BigEndian(0xFFFF, 2) == [255, 255];
    assert BigEndian(0xFF_FFFF, 3) == [255, 255, 255];
    assert BigEndian(0xFFFF_FFFF, 4) == [255, 255, 255, 255];
    assert BigEndian(0xFF_FFFF_FFFF, 5) == [255, 255, 255, 255, 255];
    assert BigEndian(0xFFFF_FFFF_FFFF, 6) == [255, 255, 255, 255, 255, 255];
    assert BigEndian(0xFF_FFFF_FFFF_FFFF, 7) == [255, 255, 255, 255, 255, 255, 255];
  }

  lemma PrefixExample(b: Byte)
    ensures Prefixed([b]) == [0, 0, 0, 1, b]
  {
    OneAsBytes();
    assert U32(1) == [0, 0, 0, 1];
  }

  lemma PairExample(a: Byte, b: Byte)
    ensures Prefixed([a]) + Prefixed([b]) == [0, 0, 0, 1, a, 0, 0, 0, 1, b]
  {
    PrefixExample(a);
    PrefixExample(b);
    hide Prefixed;
  }

  lemma CountExample(tag: Byte, rest: Bytes)
    ensures [tag] + U32(1) + rest == [tag, 0, 0, 0, 1] + rest
  {
    OneAsBytes();
    assert U32(1) == [0, 0, 0, 1];
    hide U32;
  }

  lemma FieldExample()
    ensures FieldList([Field([97], [8])]) == [0, 0, 0, 1, 97, 0, 0, 0, 1, 8]
  {
    PairExample(97, 8);
    hide Prefixed;
    assert FieldList([]) == [];
  }

  lemma HeaderExample()
    ensures Header([Field([97], [8])]) ==
            Ascii("spanner-mycli/savepoint-fp/v1") + [1, 0, 0, 0, 1, 0, 0, 0, 1, 97, 0, 0, 0, 1, 8]
  {
    FieldExample();
    var domain, list := Ascii(DOMAIN_TEXT), FieldList([Field([97], [8])]);
    CountExample(1, list);
    assert domain + [1] + U32(1) + list == domain + ([1] + U32(1) + list);
    hide FieldList; hide Ascii; hide U32;
    assert [1, 0, 0, 0, 1] + list == [1, 0, 0, 0, 1, 0, 0, 0, 1, 97, 0, 0, 0, 1, 8];
  }

  lemma ValueExample()
    ensures ValueList([Value([8], [1])]) == [0, 0, 0, 1, 8, 0, 0, 0, 1, 1]
  {
    PairExample(8, 1);
    hide Prefixed;
    assert ValueList([]) == [];
  }

  lemma RowExample()
    ensures RowList([[Value([8], [1])]]) == [2, 0, 0, 0, 1, 0, 0, 0, 1, 8, 0, 0, 0, 1, 1]
  {
    ValueExample();
    var list := ValueList([Value([8], [1])]);
    CountExample(2, list);
    hide ValueList; hide U32;
    assert [2, 0, 0, 0, 1] + list == [2, 0, 0, 0, 1, 0, 0, 0, 1, 8, 0, 0, 0, 1, 1];
    assert RowList([]) == [];
  }

  lemma EightBytes(tag: Byte, b: Bytes, a0: Byte, a1: Byte)
    requires b == [a0, a0, a0, a0, a0, a0, a0, a1]
    ensures [tag] + b == [tag, a0, a0, a0, a0, a0, a0, a0, a1]
  {
  }

  lemma RowCountExample()
    ensures [TAG_EOS] + U64(1) == [3, 0, 0, 0, 0, 0, 0, 0, 1]
  {
    OneAsBytes();
    EightBytes(3, U64(1), 0, 1);
    hide BigEndian;
  }

  lemma AffectedExample()
    ensures [TAG_AFFECTED] + U64(-1) == [4, 255, 255, 255, 255, 255, 255, 255, 255]
  {
    MinusOneAsBytes();
    EightBytes(4, U64(-1), 255, 255);
    hide U64;
  }

  lemma TailExample()
    ensures Tail(1, Dml(-1)) ==
            [3, 0, 0, 0, 0, 0, 0, 0, 1, 4, 255, 255, 255, 255, 255, 255, 255, 255]
  {
    RowCountExample();
    AffectedExample();
    Regroup([TAG_EOS], U64(1), [TAG_AFFECTED], U64(-1));
    hide U64;
  }

  lemma Regroup(a: Bytes, b: Bytes, c: Bytes, d: Bytes)
    ensures a + b + c + d == (a + b) + (c + d)
  {
  }

  /** One column, one row with one value, an affected count of -1: tags, lengths and counts in place. */
  lemma StreamExample()
    ensures Stream([Field([97], [8])], [[Value([8], [1])]], Dml(-1)) ==
            Ascii("spanner-mycli/savepoint-fp/v1")
            + [1, 0, 0, 0, 1, 0, 0, 0, 1, 97, 0, 0, 0, 1, 8]
            + [2, 0, 0, 0, 1, 0, 0, 0, 1, 8, 0, 0, 0, 1, 1]
            + [3, 0, 0, 0, 0, 0, 0, 0, 1, 4, 255, 255, 255, 255, 255, 255, 255, 255]
  {
    HeaderExample();
    RowExample();
    TailExample();
    hide Header; hide RowList; hide Tail; hide Ascii;
  }
}

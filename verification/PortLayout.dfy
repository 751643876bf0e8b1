/**
 * What stands where in the messages of the `csqlite` port (`control-plane/csqlite/wrapper.c`), byte by byte, and which
 * answer each request gets.
 */
module PortLayout {
  import opened Words
  import opened Bytes
  import opened Codec
  import opened Serving
  import opened Tlv
  import opened Csqlite
  import opened Port

  /** Two's complement in 64 bits. */
  predicate Complement(v: int, w: nat) {
    w == if v < 0 then v + 0x1_0000_0000_0000_0000 else v
  }

  // ----- values -----

  /** A tag, and then nothing, eight bytes, or a length in four and the bytes. */
  predicate ValueStands(e: Bytes, v: Value) {
    match v
    case Null => e == [0]
    case Integer(i) => |e| == 9 && e[0] == 1 && Complement(i, FromBE(e[1..9]))
    case Float(bits) => |e| == 9 && e[0] == 2 && FromBE(e[1..9]) == bits
    case Text(b) => |e| == 5 + |b| && e[0] == 3 && FromBE(e[1..5]) == |b| && e[5..] == b
    case Blob(b) => |e| == 5 + |b| && e[0] == 4 && FromBE(e[1..5]) == |b| && e[5..] == b
  }

  lemma {:induction false} Tagged(tag: u8, body: Bytes)
    ensures ([tag] + body)[0] == tag && ([tag] + body)[1..] == body
  {
  }

  lemma {:induction false} Prefixed(a: Bytes, b: Bytes, c: Bytes)
    ensures (a + b + c)[..|a|] == a && (a + b + c)[|a|..|a| + |b|] == b && (a + b + c)[|a| + |b|..] == c
  {
  }

  lemma {:induction false} ValueLayout(v: Value)
    requires Readable(v)
    ensures ValueStands(EncodeValue(v), v)
  {
    var e := EncodeValue(v);
    Pow256Values();
    match v
    case Null =>
    case Integer(i) => NumberStands(e, VAL_INT, FromI64(i));
    case Float(bits) => NumberStands(e, VAL_FLOAT, bits);
    case Text(b) => StringStands(e, VAL_TEXT, b);
    case Blob(b) => StringStands(e, VAL_BLOB, b);
  }

  lemma {:induction false} NumberStands(e: Bytes, tag: u8, v: u64)
    requires e == [tag] + BE(v, 8)
    ensures |e| == 9 && e[0] == tag && FromBE(e[1..9]) == v
  {
    Pow256Values();
    Tagged(tag, BE(v, 8));
    assert e[1..9] == e[1..];
    BERoundTrip(v, 8);
  }

  lemma {:induction false} StringStands(e: Bytes, tag: u8, b: Bytes)
    requires e == [tag] + EncodeBytes(b) && |b| < 0x1_0000_0000
    ensures |e| == 5 + |b| && e[0] == tag && FromBE(e[1..5]) == |b| && e[5..] == b
  {
    Pow256Values();
    assert e == [tag] + BE(|b|, 4) + b;
    Prefixed([tag], BE(|b|, 4), b);
    BERoundTrip(|b|, 4);
  }

  // ----- responses -----

  /** What the other end finds in the payload of a response other than rows. */
  predicate ResponseStands(data: Bytes, r: Response) {
    match r
    case Acknowledged => data == [0x81]
    case Done(changes, rowid) =>
      && |data| == 17 && data[0] == 0x82
      && Complement(changes, FromBE(data[1..9])) && Complement(rowid, FromBE(data[9..17]))
    case Rows(columns, _) => |data| >= 3 && data[0] == 0x83 && FromBE(data[1..3]) == |columns|
    case Error(code, message) =>
      && |data| == 9 + |message| && data[0] == 0x84
      && FromBE(data[1..5]) == code && FromBE(data[5..9]) == |message| && data[9..] == message
  }

  lemma {:induction false} DoneLayout(changes: i64, rowid: i64)
    ensures ResponseStands(EncodeResponse(Done(changes, rowid)), Done(changes, rowid))
  {
    var data, c, r := EncodeResponse(Done(changes, rowid)), BE(FromI64(changes), 8), BE(FromI64(rowid), 8);
    Pow256Values();
    Prefixed([RESP_DONE], c, r);
    assert data[9..17] == data[9..];
    BERoundTrip(FromI64(changes), 8);
    BERoundTrip(FromI64(rowid), 8);
  }

  lemma {:induction false} ErrorLayout(code: u32, message: Bytes)
    requires |message| < 0x1_0000_0000
    ensures ResponseStands(EncodeResponse(Error(code, message)), Error(code, message))
  {
    var data, c, n := EncodeResponse(Error(code, message)), BE(code, 4), BE(|message|, 4);
    Pow256Values();
    var head := [RESP_ERR] + c;
    assert data == head + n + message;
    Prefixed(head, n, message);
    Prefixed([RESP_ERR], c, n + message);
    assert data == [RESP_ERR] + c + (n + message);
    BERoundTrip(code, 4);
    BERoundTrip(|message|, 4);
  }

  lemma {:induction false} RowsLayout(columns: seq<Bytes>, rows: seq<seq<Value>>)
    requires |columns| < 0x1_0000
    ensures ResponseStands(EncodeResponse(Rows(columns, rows)), Rows(columns, rows))
  {
    var data := EncodeResponse(Rows(columns, rows));
    var rest := EncodeMany(EncodeBytes, columns) + BE(|rows|, 4) + EncodeMany(EncodeRow, rows);
    Pow256Values();
    assert data == [RESP_ROWS] + BE(|columns|, 2) + rest;
    Prefixed([RESP_ROWS], BE(|columns|, 2), rest);
    BERoundTrip(|columns|, 2);
  }

  /** Every response stands in its payload as the other end reads it. */
  lemma {:induction false} ResponseLayout(r: Response)
    requires r.Rows? ==> |r.columns| < 0x1_0000
    requires r.Error? ==> |r.message| < 0x1_0000_0000
    ensures ResponseStands(EncodeResponse(r), r)
  {
    match r
    case Acknowledged =>
    case Done(changes, rowid) => DoneLayout(changes, rowid);
    case Rows(columns, rows) => RowsLayout(columns, rows);
    case Error(code, message) => ErrorLayout(code, message);
  }

  /** A statement without columns that finishes is answered with its changes and then its row id. */
  lemma {:induction false} FinishedReceived(s: Stepping)
    requires s.end.Finished?
    ensures ResponseStands(EncodeResponse(ReplyTo([], s)), Done(s.end.changes, s.end.rowid))
  {
    DoneLayout(s.end.changes, s.end.rowid);
  }

  /** One that breaks off is answered with the code in 32 bits and the message. */
  lemma {:induction false} BrokenReceived(columns: seq<Bytes>, s: Stepping, code: u32)
    requires s.end.Broken? && |s.end.failure.message| < 0x1_0000_0000
             && (s.end.failure.code - code) % 0x1_0000_0000 == 0
    requires columns != [] && s.rows != [] ==> |EncodeResponse(Rows(columns, s.rows))| <= 0x400_0000
    ensures ResponseStands(EncodeResponse(ReplyTo(columns, s)), Error(code, s.end.failure.message))
  {
    assert s.end.failure.code % 0x1_0000_0000 == code;
    ErrorLayout(code, s.end.failure.message);
  }

  // ----- requests -----

  lemma {:induction false} ExecLayout(sql: Bytes, params: seq<Value>)
    requires |sql| < 0x1_0000_0000 && |params| < 0x1_0000
    ensures var data, n := ExecFrame(sql, params), |sql|;
            && |data| >= 7 + n && data[0] == 2 && FromBE(data[1..5]) == n && data[5..5 + n] == sql
            && FromBE(data[5 + n..7 + n]) == |params| && data[7 + n..] == EncodeMany(EncodeValue, params)
  {
    var data, n := ExecFrame(sql, params), |sql|;
    Pow256Values();
    AtWhole(data);
    FrameAt(data, sql, params);
    assert data[0] == data[0..1][0];
    BERoundTrip(n, 4);
    BERoundTrip(|params|, 2);
    assert data[7 + n..] == data[7 + n..7 + n + |EncodeRow(params)|];
  }

  // ----- which answer a request gets -----

  /** OPEN hands the engine the path and the mode of its frame. */
  predicate OpenTaken(s: Session, data: Bytes, engine: Engine) {
    !s.open && |data| > 2 && data[1] <= 2 && 0 !in data[2..] && engine.open(data[2..], data[1]) == 0
  }

  /** RESET hands it the path and the mode that were last opened. */
  predicate ResetTaken(s: Session, engine: Engine) {
    s.saved.Some? && engine.open(s.saved.value.0, s.saved.value.1) == 0
  }

  /** SCRIPT hands it the bytes after the opcode. */
  predicate ScriptTaken(s: Session, data: Bytes, engine: Engine)
    requires data != []
  {
    s.open && 0 !in data[1..] && engine.script(data[1..]) == None
  }

  /** A request other than EXEC is acknowledged exactly when it is one of these and the engine takes it. */
  lemma {:induction false} AcknowledgedIff(s: Session, data: Bytes, engine: Engine)
    requires data != [] && data[0] != 2
    ensures Handle(s, data, engine).response == Acknowledged
       <==> || (data[0] == 1 && OpenTaken(s, data, engine))
            || data[0] == 3
            || (data[0] == 4 && ScriptTaken(s, data, engine))
            || (data[0] == 5 && ResetTaken(s, engine))
    ensures Handle(s, data, engine).response == Acknowledged || Handle(s, data, engine).response.Error?
  {
  }

  predicate IsMisuse(r: Response) {
    r.Error? && r.code == 21
  }

  /** The answer says what the engine said: done, or its code in 32 bits. */
  predicate Answers(r: Response, code: int) {
    if code == 0 then r == Acknowledged else r.Error? && r.code == code % 0x1_0000_0000
  }

  /** What is refused before the engine is asked is refused as misuse; what the engine refuses keeps its code. */
  lemma {:induction false} RefusedWith(s: Session, data: Bytes, engine: Engine)
    requires data != []
    ensures var r := Handle(s, data, engine).response;
            && (data[0] == 0 || data[0] > 5 ==> IsMisuse(r))
            && (data[0] == 1 && (s.open || |data| <= 2 || data[1] > 2 || 0 in data[2..]) ==> IsMisuse(r))
            && (data[0] == 1 && !s.open && |data| > 2 && data[1] <= 2 && 0 !in data[2..] ==>
                  Answers(r, engine.open(data[2..], data[1])))
            && (data[0] == 2 && !s.open ==> IsMisuse(r))
            && (data[0] == 4 && (!s.open || 0 in data[1..]) ==> IsMisuse(r))
            && (data[0] == 5 && s.saved.None? ==> IsMisuse(r))
            && (data[0] == 5 && s.saved.Some? ==> Answers(r, engine.open(s.saved.value.0, s.saved.value.1)))
  {
  }

  /** On an open session EXEC runs exactly what its frame orders, and is answered with what came of it. */
  lemma {:induction false} ExecAnswered(s: Session, data: Bytes, engine: Engine, sql: Bytes, params: seq<Value>)
    requires s.open && Orders(data, engine, sql, params)
    ensures var p := engine.prepare(sql);
            Handle(s, data, engine) == Move(s, ReplyTo(p.columns, p.run(params)))
  {
    assert data[0] == OP_EXEC;
    FrameRuns(data, engine, sql, params);
  }

  /** A frame that orders nothing is refused. */
  lemma {:induction false} ExecRefused(s: Session, data: Bytes, engine: Engine)
    requires data != [] && data[0] == 2 && forall sql: Bytes, params: seq<Value> :: !Orders(data, engine, sql, params)
    ensures Handle(s, data, engine).session == s && Handle(s, data, engine).response.Error?
  {
    var o := Exec(data, engine);
    if o.Ran? {
      RanAs(data, engine);
      ExecIff(data, engine, o.sql, o.params);
    } else {
      RefusalIsError(data, engine);
    }
  }

  lemma {:induction false} RanAs(data: Bytes, engine: Engine)
    requires Exec(data, engine).Ran?
    ensures var o := Exec(data, engine);
            RanWith(o, o.sql, o.params, engine.prepare(o.sql))
  {
  }

  lemma {:induction false} RefusalIsError(data: Bytes, engine: Engine)
    requires Exec(data, engine).Refusal?
    ensures Exec(data, engine).reply.Error?
  {
  }

  /** A result is answered with its rows unless it is over 64 MiB, which is an error of its own. */
  lemma {:induction false} ResultAnswered(columns: seq<Bytes>, s: Stepping)
    requires columns != [] && s.end.Finished?
    ensures var size := |EncodeResponse(Rows(columns, s.rows))|;
            if s.rows == [] || size <= 0x400_0000 then ReplyTo(columns, s) == Rows(columns, s.rows)
            else ReplyTo(columns, s).Error? && ReplyTo(columns, s).code == 18
  {
  }

  /** A second statement is text after the first other than spaces, tabs, ends of lines and semicolons. */
  lemma {:induction false} TrailingIff(sql: Bytes, tail: Option<nat>)
    ensures Trailing(sql, tail)
       <==> tail.Some? && exists i :: tail.value <= i < |sql| && sql[i] !in [0x20, 0x09, 0x0A, 0x0D, 0x3B]
  {
    assert forall c: u8 :: Skipped(c) <==> c in [0x20, 0x09, 0x0A, 0x0D, 0x3B];
  }
}

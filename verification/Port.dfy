/**
 * The `csqlite` main loop (`control-plane/csqlite/wrapper.c`), and what both ends of the port may rely on: frames
 * run what was sent, responses say what happened, and every request is answered once and in order.
 */
module Port {
  import opened Words
  import opened Bytes
  import opened Codec
  import opened Serving
  import opened Tlv
  import opened Csqlite

  // ----- requests run what was sent -----

  lemma {:induction false} FrameAt(data: Bytes, sql: Bytes, params: seq<Value>)
    requires |sql| < 0x1_0000_0000 && |params| < 0x1_0000
    ensures At(data, 0, ExecFrame(sql, params))
       <==> && At(data, 0, [OP_EXEC]) && At(data, 1, BE(|sql|, 4)) && At(data, 5, sql)
            && At(data, 5 + |sql|, BE(|params|, 2)) && At(data, 7 + |sql|, EncodeRow(params))
  {
    var n := |sql|;
    AtSplit(data, 0, [OP_EXEC], EncodeBytes(sql) + (BE(|params|, 2) + EncodeRow(params)));
    AtSplit(data, 1, EncodeBytes(sql), BE(|params|, 2) + EncodeRow(params));
    AtSplit(data, 1, BE(n, 4), sql);
    AtSplit(data, 5 + n, BE(|params|, 2), EncodeRow(params));
  }

  /** The engine takes this text and these parameters for one statement. */
  predicate Accepts(prepared: Prepared, sql: Bytes, params: seq<Value>) {
    && prepared.Statement?
    && !Trailing(sql, prepared.tail)
    && prepared.expected == |params|
    && Unrejected(prepared.bind, params)
  }

  predicate RanWith(o: Outcome, sql: Bytes, params: seq<Value>, prepared: Prepared) {
    && o.Ran? && o.sql == sql && o.params == params
    && prepared.Statement? && o.columns == prepared.columns && o.stepping == prepared.run(params)
  }

  lemma {:induction false} BoundCount(read: Reader<Value>, pos: nat, n: nat, bind: (nat, Value) -> Option<Failure>)
    ensures BindAll(read, pos, n, bind).Bound? ==> |BindAll(read, pos, n, bind).values| == n
  {
    if n > 0 {
      BoundCount(read, pos, n - 1, bind);
    }
  }

  lemma {:induction false} PreparedIff(data: Bytes, pos: nat, sql: Bytes, count: nat, prepared: Prepared,
                                       params: seq<Value>)
    requires pos <= |data|
    ensures RanWith(ExecPrepared(data, pos, sql, count, prepared), sql, params, prepared)
       <==> Accepts(prepared, sql, params) && count == |params|
            && SpelledMany(data, EncodeValue, Readable, pos, params, |data|)
  {
    ValuesRead(data);
    ReadManyIff(data, ValueReader(data), EncodeValue, Readable, pos, params, |data|);
    if prepared.Statement? {
      BindAllReads(ValueReader(data), pos, params, |data|, prepared.bind);
      BoundCount(ValueReader(data), pos, count, prepared.bind);
    }
  }

  /** The frame is the strict encoding of a text and parameters the engine takes. */
  predicate Orders(data: Bytes, engine: Engine, sql: Bytes, params: seq<Value>) {
    && data == ExecFrame(sql, params) && |sql| < 0x1_0000_0000 && |params| < 0x1_0000
    && 0 !in sql && All(Readable, params) && Accepts(engine.prepare(sql), sql, params)
  }

  /** A statement is run exactly when its frame orders it: nothing else in a frame ever runs. */
  lemma {:induction false} ExecIff(data: Bytes, engine: Engine, sql: Bytes, params: seq<Value>)
    requires data != [] && data[0] == OP_EXEC
    ensures RanWith(Exec(data, engine), sql, params, engine.prepare(sql)) <==> Orders(data, engine, sql, params)
  {
    if RanWith(Exec(data, engine), sql, params, engine.prepare(sql)) {
      RanIsFrame(data, engine, sql, params);
    }
    if Orders(data, engine, sql, params) {
      FrameRuns(data, engine, sql, params);
    }
  }

  lemma {:induction false} FrameRuns(data: Bytes, engine: Engine, sql: Bytes, params: seq<Value>)
    requires Orders(data, engine, sql, params)
    ensures RanWith(Exec(data, engine), sql, params, engine.prepare(sql))
  {
    var n := |sql|;
    Pow256Values();
    AtWhole(data);
    FrameAt(data, sql, params);
    WordIff(data, 1, n, 4);
    WordIff(data, 5 + n, |params|, 2);
    PreparedIff(data, 7 + n, sql, |params|, engine.prepare(sql), params);
  }

  lemma {:induction false} RanIsFrame(data: Bytes, engine: Engine, sql: Bytes, params: seq<Value>)
    requires data != [] && data[0] == OP_EXEC
    requires RanWith(Exec(data, engine), sql, params, engine.prepare(sql))
    ensures Orders(data, engine, sql, params)
  {
    var n := |sql|;
    Pow256Values();
    var count := Word(data, 5 + n, 2);
    PreparedIff(data, 7 + n, sql, count, engine.prepare(sql), params);
    WordIff(data, 1, n, 4);
    WordIff(data, 5 + n, count, 2);
    assert data[0..1] == [OP_EXEC];
    FrameAt(data, sql, params);
    assert data[0..|data|] == data;
  }

  // ----- responses say what happened -----

  predicate Fills(ncols: nat, row: seq<Value>) {
    |row| == ncols && All(Readable, row)
  }

  function RowReader(data: Bytes, ncols: nat): Reader<seq<Value>> {
    (p: nat) => if p <= |data| then ReadMany(ValueReader(data), p, ncols) else None
  }

  function RowFills(ncols: nat): seq<Value> -> bool {
    row => Fills(ncols, row)
  }

  lemma {:induction false} RowsRead(data: Bytes, ncols: nat)
    ensures Reads(data, RowReader(data, ncols), EncodeRow, RowFills(ncols))
  {
    ValuesRead(data);
    forall p: nat, row: seq<Value>, q: nat
      ensures Spelled(data, EncodeRow, RowFills(ncols), p, row, q) <==> RowReader(data, ncols)(p) == Some((row, q))
    {
      if p <= |data| {
        ReadManyIff(data, ValueReader(data), EncodeValue, Readable, p, row, q);
      }
    }
  }

  /** The other end's view of a ROWS payload. */
  function ReadRows(data: Bytes): Option<Response> {
    if |data| < 3 then None
    else
      match ReadMany(StringReader(data), 3, Word(data, 1, 2))
      case None => None
      case Some((columns, q)) => ReadCells(data, columns, q)
  }

  function ReadCells(data: Bytes, columns: seq<Bytes>, q: nat): Option<Response> {
    if q + 4 > |data| then None
    else
      match ReadMany(RowReader(data, |columns|), q + 4, Word(data, q, 4))
      case None => None
      case Some((rows, end)) => if end == |data| then Some(Rows(columns, rows)) else None
  }

  predicate Table(columns: seq<Bytes>, rows: seq<seq<Value>>) {
    && |columns| < 0x1_0000 && |rows| < 0x1_0000_0000
    && All(Short32, columns) && All(RowFills(|columns|), rows)
  }

  lemma {:induction false} RowsAt(data: Bytes, columns: seq<Bytes>, rows: seq<seq<Value>>, m: nat)
    requires m == 3 + |EncodeMany(EncodeBytes, columns)|
    ensures At(data, 0, EncodeResponse(Rows(columns, rows)))
       <==> && At(data, 0, [RESP_ROWS]) && At(data, 1, BE(|columns|, 2))
            && At(data, 3, EncodeMany(EncodeBytes, columns))
            && At(data, m, BE(|rows|, 4)) && At(data, m + 4, EncodeMany(EncodeRow, rows))
  {
    var names, table := EncodeMany(EncodeBytes, columns), EncodeMany(EncodeRow, rows);
    AtParts(data, [RESP_ROWS], BE(|columns|, 2), names, BE(|rows|, 4), table);
  }

  lemma {:induction false} AtParts(data: Bytes, a: Bytes, b: Bytes, c: Bytes, d: Bytes, e: Bytes)
    ensures At(data, 0, a + b + c + d + e)
       <==> && At(data, 0, a) && At(data, |a|, b) && At(data, |a| + |b|, c) && At(data, |a| + |b| + |c|, d)
            && At(data, |a| + |b| + |c| + |d|, e)
  {
    var head := a + b;
    AtSplit(data, 0, head + c + d, e);
    AtSplit(data, 0, head + c, d);
    AtSplit(data, 0, head, c);
    AtSplit(data, 0, a, b);
  }

  lemma {:induction false} ColumnsRead(data: Bytes, columns: seq<Bytes>, m: nat)
    requires 3 <= |data| && Word(data, 1, 2) == |columns| && SpelledMany(data, EncodeBytes, Short32, 3, columns, m)
    ensures ReadRows(data) == ReadCells(data, columns, m)
  {
    StringsRead(data);
    ReadManyIff(data, StringReader(data), EncodeBytes, Short32, 3, columns, m);
  }

  lemma {:induction false} CellsRead(data: Bytes, columns: seq<Bytes>, rows: seq<seq<Value>>, m: nat)
    requires m + 4 <= |data| && Word(data, m, 4) == |rows|
    requires SpelledMany(data, EncodeRow, RowFills(|columns|), m + 4, rows, |data|)
    ensures ReadCells(data, columns, m) == Some(Rows(columns, rows))
  {
    RowsRead(data, |columns|);
    ReadManyIff(data, RowReader(data, |columns|), EncodeRow, RowFills(|columns|), m + 4, rows, |data|);
  }

  lemma {:induction false} CountsRead(data: Bytes, columns: seq<Bytes>, rows: seq<seq<Value>>, m: nat)
    requires Table(columns, rows) && At(data, 1, BE(|columns|, 2)) && At(data, m, BE(|rows|, 4))
    ensures Word(data, 1, 2) == |columns| && Word(data, m, 4) == |rows|
  {
    Pow256Values();
    WordIff(data, 1, |columns|, 2);
    WordIff(data, m, |rows|, 4);
  }

  /** A table sent is the table received. */
  lemma {:induction false} RowsReceived(columns: seq<Bytes>, rows: seq<seq<Value>>)
    requires Table(columns, rows)
    ensures ReadRows(EncodeResponse(Rows(columns, rows))) == Some(Rows(columns, rows))
  {
    var data := EncodeResponse(Rows(columns, rows));
    var m := 3 + |EncodeMany(EncodeBytes, columns)|;
    assert |data| == m + 4 + |EncodeMany(EncodeRow, rows)|;
    AtWhole(data);
    RowsAt(data, columns, rows, m);
    CountsRead(data, columns, rows, m);
    ColumnsRead(data, columns, m);
    CellsRead(data, columns, rows, m);
  }

  /** Under the cap no value is too long to read and no count too great to write. */
  lemma {:induction false} CapBounds(columns: seq<Bytes>, rows: seq<seq<Value>>)
    requires columns != [] && |EncodeMany(EncodeRow, rows)| <= MAX_RESP
    requires forall i :: 0 <= i < |rows| ==> |rows[i]| == |columns|
    ensures |rows| < 0x1_0000_0000 && All(RowFills(|columns|), rows)
  {
    forall i | 0 <= i < |rows|
      ensures Fills(|columns|, rows[i]) && |EncodeRow(rows[i])| >= 1
    {
      var row := rows[i];
      EncodeHolds(EncodeRow, rows, i);
      EncodeCounted(EncodeValue, row);
      forall j | 0 <= j < |row|
        ensures Readable(row[j])
      {
        EncodeHolds(EncodeValue, row, j);
      }
    }
    EncodeCounted(EncodeRow, rows);
  }

  /** Whatever a statement returns under the cap, the other end reads exactly its columns and its rows. */
  lemma {:induction false} ResultReceived(columns: seq<Bytes>, s: Stepping)
    requires 0 < |columns| < 0x1_0000 && All(Short32, columns) && Tabular(columns, s)
    ensures ReplyTo(columns, s).Rows? ==> ReadRows(EncodeResponse(ReplyTo(columns, s))) == Some(Rows(columns, s.rows))
  {
    if ReplyTo(columns, s).Rows? {
      CapBounds(columns, s.rows);
      RowsReceived(columns, s.rows);
    }
  }

  // ----- one request -----

  /** The open database, if any, and the identity RESET opens again. */
  datatype Session = Session(open: bool, saved: Option<(Bytes, u8)>)

  datatype Move = Move(session: Session, response: Response)

  function Open(s: Session, data: Bytes, engine: Engine): Move {
    if s.open then Move(s, Misuse("already open"))
    else if |data| < 2 || data[1] > 2 then Move(s, Misuse("bad OPEN frame"))
    else if |data| == 2 || 0 in data[2..] then Move(s, Misuse("empty or NUL-bearing database path"))
    else
      var rc := engine.open(data[2..], data[1]);
      if rc != SQLITE_OK then Move(s, Error(Cast32(rc), Ascii("open failed")))
      else Move(Session(true, Some((data[2..], data[1]))), Acknowledged)
  }

  function Reset(s: Session, engine: Engine): Move {
    match s.saved
    case None => Move(s, Misuse("RESET before OPEN"))
    case Some((path, mode)) =>
      var rc := engine.open(path, mode);
      if rc != SQLITE_OK then Move(s.(open := false), Error(Cast32(rc), Ascii("reopen failed")))
      else Move(s.(open := true), Acknowledged)
  }

  function Script(s: Session, sql: Bytes, engine: Engine): Response {
    if !s.open then Misuse("no open database")
    else if 0 in sql then Misuse("embedded NUL in SQL")
    else
      match engine.script(sql)
      case Some(f) => Failed(f)
      case None => Acknowledged
  }

  /** The opcode of a frame; an empty one reads as zero. */
  function Opcode(data: Bytes): u8 {
    if data == [] then 0 else data[0]
  }

  function Handle(s: Session, data: Bytes, engine: Engine): Move {
    var op := Opcode(data);
    if op == OP_OPEN then Open(s, data, engine)
    else if op == OP_RESET then Reset(s, engine)
    else if op == OP_EXEC then Move(s, if s.open then Reply(Exec(data, engine)) else Misuse("no open database"))
    else if op == OP_SCRIPT then Move(s, Script(s, data[1..], engine))
    else if op == OP_CLOSE then Move(s.(open := false), Acknowledged)
    else Move(s, Misuse("unknown opcode"))
  }

  /** An open session always knows what RESET reopens, and only a successful OPEN changes that. */
  lemma {:induction false} SessionKept(s: Session, data: Bytes, engine: Engine)
    requires s.open ==> s.saved.Some?
    ensures var t := Handle(s, data, engine);
            && (t.session.open ==> t.session.saved.Some?)
            && (t.session.saved != s.saved ==> Opcode(data) == OP_OPEN && t.response.Acknowledged? && t.session.open)
  {
  }

  method ReplyWith(r: Response) returns (payload: Bytes)
    requires r.Acknowledged? || r.Error?
    ensures payload == EncodeResponse(r)
  {
    match r
    case Acknowledged =>
      var b := new Buf();
      b.PutWord(RESP_OK, 1);
      assert BE(RESP_OK, 1) == [RESP_OK];
      payload := b.data[..b.len];
    case Error(code, message) =>
      payload := ReplyError(code, message);
  }

  /** The handler the loop runs, with the database as it is at each request. */
  function Handler(engines: nat -> Engine): Serving.Handler<Session> {
    (s: Session, data: Bytes, k: nat) =>
      var m := Handle(s, data, engines(k));
      Turn(m.session, EncodeResponse(m.response), Opcode(data) == OP_CLOSE)
  }

  method Dispatch(s: Session, data: Bytes, engines: nat -> Engine, k: nat)
    returns (session: Session, payload: Bytes, closes: bool)
    requires data != [] && Sane(engines(k))
    ensures Handler(engines)(s, data, k) == Turn(session, payload, closes)
  {
    var engine := engines(k);
    session, closes := s, false;
    var c := new Cur(data);
    var op := c.GetWord(1);
    assert op == data[0] by {
      assert data[0..1][..0] == [];
    }
    if op == OP_OPEN {
      var m := Open(s, data, engine);
      session := m.session;
      payload := ReplyWith(m.response);
    } else if op == OP_RESET {
      var m := Reset(s, engine);
      session := m.session;
      payload := ReplyWith(m.response);
    } else if op == OP_EXEC {
      if !s.open {
        payload := ReplyWith(Misuse("no open database"));
      } else {
        payload := HandleExec(c, engine);
      }
    } else if op == OP_SCRIPT {
      payload := ReplyWith(Script(s, data[1..], engine));
    } else if op == OP_CLOSE {
      session, closes := s.(open := false), true;
      payload := ReplyWith(Acknowledged);
    } else {
      payload := ReplyWith(Misuse("unknown opcode"));
    }
  }

  // ----- the sessions of a whole run -----

  /** What the other end makes of one exchange: the session, told from the request and its response alone. */
  function Follow(s: Session, data: Bytes, payload: Bytes): Session {
    var op, ok := Opcode(data), payload == EncodeResponse(Acknowledged);
    if op == OP_OPEN then if ok && |data| >= 2 then Session(true, Some((data[2..], data[1]))) else s
    else if op == OP_RESET then s.(open := ok)
    else if op == OP_CLOSE then s.(open := false)
    else s
  }

  function Followed(s: Session, requests: seq<Bytes>, payloads: seq<Bytes>): Session
    requires |requests| == |payloads|
    decreases |requests|
  {
    if requests == [] then s else Followed(Follow(s, requests[0], payloads[0]), requests[1..], payloads[1..])
  }

  lemma {:induction false} ErrorDiffers(code: u32, message: Bytes)
    ensures EncodeResponse(Error(code, message)) != EncodeResponse(Acknowledged)
  {
    assert EncodeResponse(Error(code, message))[0] == RESP_ERR && EncodeResponse(Acknowledged)[0] == RESP_OK;
  }

  lemma {:induction false} HandleFollowed(s: Session, data: Bytes, engine: Engine)
    requires s.open ==> s.saved.Some?
    ensures var m := Handle(s, data, engine);
            m.session == Follow(s, data, EncodeResponse(m.response)) && (m.session.open ==> m.session.saved.Some?)
  {
    var m := Handle(s, data, engine);
    match m.response {
      case Error(code, message) => ErrorDiffers(code, message);
      case _ =>
    }
  }

  /**
   Throughout a run the other end knows the session from the responses it has read: whether the database is open, and
   what RESET would open again, which is always something while it is open.
   */
  lemma {:induction false} SessionFollowed(engines: nat -> Engine, s: Session, requests: seq<Bytes>, k: nat, i: nat)
    requires (s.open ==> s.saved.Some?) && i <= |requests| && i <= |Served(Handler(engines), s, requests, k)|
    ensures var t := SessionAt(Handler(engines), s, requests, k, i);
            && t == Followed(s, requests[..i], Served(Handler(engines), s, requests, k)[..i])
            && (t.open ==> t.saved.Some?)
    decreases i
  {
    if i > 0 {
      var m := Handle(s, requests[0], engines(k));
      var rest := requests[1..];
      HandleFollowed(s, requests[0], engines(k));
      assert Served(Handler(engines), s, requests, k)
          == Sends(EncodeResponse(m.response), Opcode(requests[0]) == OP_CLOSE,
                   Served(Handler(engines), m.session, rest, k + 1));
      var payloads: seq<Bytes> := Served(Handler(engines), s, requests, k);
      if i == 1 {
        assert |requests[..1][1..]| == 0 && |payloads[..1][1..]| == 0;
      } else {
        SessionFollowed(engines, m.session, rest, k + 1, i - 1);
        assert requests[..i][1..] == rest[..i - 1] && payloads[1..] == Served(Handler(engines), m.session, rest, k + 1);
        assert payloads[..i][1..] == payloads[1..][..i - 1];
      }
    }
  }

  // ----- the loop -----

  method ServeOne(s: Session, data: Bytes, ghost rest: seq<Bytes>, engines: nat -> Engine, k: nat)
      returns (session: Session, payload: Bytes, closes: bool)
    requires data != [] && Sane(engines(k))
    ensures Served(Handler(engines), s, [data] + rest, k)
         == Sends(payload, closes, Served(Handler(engines), session, rest, k + 1))
  {
    session, payload, closes := Dispatch(s, data, engines, k);
    assert ([data] + rest)[1..] == rest;
  }

  /** The loop of `main`: every complete frame is answered before the next is read. */
  method Serve(input: Bytes, engines: nat -> Engine) returns (output: Bytes)
    requires forall k :: Sane(engines(k))
    ensures output == EncodeMany(EncodeBytes, Served(Handler(engines), Session(false, None), Requests(input, 0), 0))
  {
    ghost var handle := Handler(engines);
    ghost var todo := Requests(input, 0);
    ghost var left := Served(handle, Session(false, None), todo, 0);
    ghost var all, sent: seq<Bytes> := left, [];
    output := [];
    var session, pos, k := Session(false, None), 0, 0;
    while true
      invariant pos <= |input| && todo == Requests(input, pos)
      invariant left == Served(handle, session, todo, k) && all == sent + left
      invariant output == EncodeMany(EncodeBytes, sent)
      decreases |input| - pos
    {
      var frame, next := ReadFrame(input, pos);
      if frame.None? {
        assert all == sent;
        return;
      }
      pos := next;
      todo := Requests(input, pos);
      var payload, closes;
      session, payload, closes := ServeOne(session, frame.value, todo, engines, k);
      if |payload| > MAX_LENGTH {
        assert all == sent;
        return;
      }
      left := if closes then [] else Served(handle, session, todo, k + 1);
      SentNext(sent, payload, left);
      output := output + EncodeBytes(payload);
      sent := sent + [payload];
      if closes {
        assert all == sent;
        return;
      }
      k := k + 1;
    }
  }
}

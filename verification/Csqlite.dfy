/**
 * The `csqlite` port (`control-plane/csqlite/wrapper.c`): requests, responses and the loop between them. What SQLite
 * itself answers is an `Engine`, one for each request.
 */
module Csqlite {
  import opened Words
  import opened Bytes
  import opened Codec
  import opened Serving
  import opened Tlv

  const OP_OPEN: u8 := 1
  const OP_EXEC: u8 := 2
  const OP_CLOSE: u8 := 3
  const OP_SCRIPT: u8 := 4
  const OP_RESET: u8 := 5
  const RESP_OK: u8 := 0x81
  const RESP_DONE: u8 := 0x82
  const RESP_ROWS: u8 := 0x83
  const RESP_ERR: u8 := 0x84
  const SQLITE_OK := 0
  const SQLITE_TOOBIG := 18
  const SQLITE_MISUSE := 21

  function Ascii(s: string): (b: Bytes)
    ensures |b| == |s|
  {
    seq(|s|, i requires 0 <= i < |s| => s[i] as int % 256)
  }

  // ----- what SQLite answers -----

  datatype Failure = Failure(code: int, message: Bytes)

  datatype End = Finished(changes: i64, rowid: i64) | Broken(failure: Failure)

  /** The rows a statement steps through and how the stepping ends. */
  datatype Stepping = Stepping(rows: seq<seq<Value>>, end: End)

  datatype Prepared =
    | Refused(failure: Failure)
    | Blank
    | Statement(tail: Option<nat>, expected: nat, bind: (nat, Value) -> Option<Failure>, columns: seq<Bytes>,
                run: seq<Value> -> Stepping)

  datatype Engine = Engine(open: (Bytes, u8) -> int, prepare: Bytes -> Prepared, script: Bytes -> Option<Failure>)

  // ----- responses -----

  datatype Response =
    | Acknowledged
    | Done(changes: i64, rowid: i64)
    | Rows(columns: seq<Bytes>, rows: seq<seq<Value>>)
    | Error(code: u32, message: Bytes)

  function Cast32(v: int): u32 {
    v % 0x1_0000_0000
  }

  function Misuse(message: string): Response {
    Error(SQLITE_MISUSE, Ascii(message))
  }

  function Failed(f: Failure): Response {
    Error(Cast32(f.code), f.message)
  }

  function EncodeRow(row: seq<Value>): Bytes {
    EncodeMany(EncodeValue, row)
  }

  function RowsHead(columns: seq<Bytes>): Bytes {
    [RESP_ROWS] + BE(|columns|, 2) + EncodeMany(EncodeBytes, columns)
  }

  function EncodeResponse(r: Response): Bytes {
    match r
    case Acknowledged => [RESP_OK]
    case Done(changes, rowid) => [RESP_DONE] + BE(FromI64(changes), 8) + BE(FromI64(rowid), 8)
    case Rows(columns, rows) => RowsHead(columns) + BE(|rows|, 4) + EncodeMany(EncodeRow, rows)
    case Error(code, message) => [RESP_ERR] + BE(code, 4) + EncodeBytes(message)
  }

  // ----- the meaning of EXEC -----

  datatype Bound = Bound(values: seq<Value>, next: nat) | Short | Rejected(failure: Failure)

  /** The first `n` parameters from `pos` on, each bound before the next is read. */
  function BindAll(read: Reader<Value>, pos: nat, n: nat, bind: (nat, Value) -> Option<Failure>): Bound {
    if n == 0 then Bound([], pos)
    else match BindAll(read, pos, n - 1, bind)
      case Bound(vs, q) =>
        (match read(q)
         case None => Short
         case Some((v, q')) =>
           (match bind(n, v)
            case Some(f) => Rejected(f)
            case None => Bound(vs + [v], q')))
      case other => other
  }

  predicate Skipped(c: u8) {
    c == 32 || c == 10 || c == 9 || c == 13 || c == 59
  }

  /** The statement's text goes on after its end. */
  predicate Trailing(sql: Bytes, tail: Option<nat>) {
    tail.Some? && exists i :: tail.value <= i < |sql| && !Skipped(sql[i])
  }

  datatype Outcome =
    | Refusal(reply: Response)
    | Ran(sql: Bytes, params: seq<Value>, columns: seq<Bytes>, stepping: Stepping)

  /** The prepared statement given the parameters that stand at `pos`. */
  function ExecPrepared(data: Bytes, pos: nat, sql: Bytes, count: nat, prepared: Prepared): Outcome {
    match prepared
    case Refused(f) => Refusal(Failed(f))
    case Blank => Refusal(Misuse("empty statement"))
    case Statement(tail, expected, bind, columns, run) =>
      if Trailing(sql, tail) then Refusal(Misuse("EXEC takes a single statement (use SCRIPT)"))
      else if expected != count then Refusal(Misuse("parameter count mismatch"))
      else
        match BindAll(ValueReader(data), pos, count, bind)
        case Short => Refusal(Misuse("truncated parameter"))
        case Rejected(f) => Refusal(Failed(f))
        case Bound(vs, q) =>
          if q != |data| then Refusal(Misuse("trailing bytes after parameters")) else Ran(sql, vs, columns, run(vs))
  }

  /** What becomes of an EXEC frame: one refusal, or one statement run with these parameters. */
  function Exec(data: Bytes, engine: Engine): Outcome {
    if |data| < 5 || Word(data, 1, 4) + 7 > |data| then Refusal(Misuse("truncated EXEC frame"))
    else
      var n := Word(data, 1, 4);
      var sql := data[5..5 + n];
      if 0 in sql then Refusal(Misuse("embedded NUL in SQL"))
      else ExecPrepared(data, 7 + n, sql, Word(data, 5 + n, 2), engine.prepare(sql))
  }

  /** A result over the cap is an error, unless it has no rows. */
  function ReplyTo(columns: seq<Bytes>, s: Stepping): Response {
    if columns == [] then
      match s.end
      case Finished(changes, rowid) => Done(changes, rowid)
      case Broken(f) => Failed(f)
    else if s.rows != [] && |EncodeResponse(Rows(columns, s.rows))| > MAX_RESP then
      Error(SQLITE_TOOBIG, Ascii("result set too large"))
    else
      match s.end
      case Finished(_, _) => Rows(columns, s.rows)
      case Broken(f) => Failed(f)
  }

  function Reply(outcome: Outcome): Response {
    match outcome
    case Refusal(reply) => reply
    case Ran(_, _, columns, stepping) => ReplyTo(columns, stepping)
  }

  /** SQLite's own promise: a row has a value for every column. */
  ghost predicate Tabular(columns: seq<Bytes>, s: Stepping) {
    forall i :: 0 <= i < |s.rows| ==> |s.rows[i]| == |columns|
  }

  ghost predicate Sane(engine: Engine) {
    forall sql: Bytes, params: seq<Value> :: engine.prepare(sql).Statement? ==>
      Tabular(engine.prepare(sql).columns, engine.prepare(sql).run(params))
  }

  // ----- writing responses -----

  lemma {:induction false} Appended(a: Bytes, b: Bytes, c: Bytes, d: Bytes)
    ensures a + b + c + d == a + b + (c + d) == a + (b + (c + d))
  {
  }

  method ReplyError(code: u32, message: Bytes) returns (payload: Bytes)
    ensures payload == EncodeResponse(Error(code, message))
  {
    var b := new Buf();
    b.PutWord(RESP_ERR, 1);
    b.PutWord(code, 4);
    b.PutWord(|message|, 4);
    b.PutBytes(message);
    Appended(BE(RESP_ERR, 1), BE(code, 4), BE(|message|, 4), message);
    assert BE(RESP_ERR, 1) == [RESP_ERR];
    payload := b.data[..b.len];
  }

  method ReplyDone(changes: i64, rowid: i64) returns (payload: Bytes)
    ensures payload == EncodeResponse(Done(changes, rowid))
  {
    var b := new Buf();
    b.PutWord(RESP_DONE, 1);
    b.PutWord(FromI64(changes), 8);
    b.PutWord(FromI64(rowid), 8);
    assert BE(RESP_DONE, 1) == [RESP_DONE];
    payload := b.data[..b.len];
  }

  method PutHead(columns: seq<Bytes>) returns (b: Buf)
    ensures fresh(b) && fresh(b.data) && b.Valid() && b.Contents() == RowsHead(columns)
  {
    b := new Buf();
    b.PutWord(RESP_ROWS, 1);
    b.PutWord(|columns|, 2);
    ghost var head := b.Contents();
    assert head == [RESP_ROWS] + BE(|columns|, 2) by {
      assert BE(RESP_ROWS, 1) == [RESP_ROWS];
    }
    for i := 0 to |columns|
      invariant fresh(b) && fresh(b.data) && b.Valid()
      invariant b.Contents() == head + EncodeMany(EncodeBytes, columns[..i])
    {
      EncodeNext(EncodeBytes, columns, i);
      Appended(head, EncodeMany(EncodeBytes, columns[..i]), BE(|columns[i]|, 4), columns[i]);
      b.PutWord(|columns[i]|, 4);
      b.PutBytes(columns[i]);
    }
    assert columns[..|columns|] == columns;
  }

  method PutRow(b: Buf, row: seq<Value>)
    requires b.Valid()
    modifies b, b.data
    ensures b.Valid() && (b.data == old(b.data) || fresh(b.data))
    ensures b.Contents() == old(b.Contents()) + EncodeRow(row)
  {
    ghost var was := b.Contents();
    for i := 0 to |row|
      invariant b.Valid() && (b.data == old(b.data) || fresh(b.data))
      invariant b.Contents() == was + EncodeMany(EncodeValue, row[..i])
    {
      EncodeNext(EncodeValue, row, i);
      Associates(was, EncodeMany(EncodeValue, row[..i]), EncodeValue(row[i]));
      b.PutColumn(row[i]);
    }
    assert row[..|row|] == row;
  }

  lemma {:induction false} RowsNext(rows: seq<seq<Value>>, i: nat)
    requires i < |rows| && forall i :: 0 <= i < |rows| ==> |rows[i]| >= 1
    ensures EncodeMany(EncodeRow, rows[..i + 1]) == EncodeMany(EncodeRow, rows[..i]) + EncodeRow(rows[i])
    ensures i <= |EncodeMany(EncodeRow, rows[..i])|
    ensures |EncodeMany(EncodeRow, rows[..i + 1])| <= |EncodeMany(EncodeRow, rows)|
  {
    EncodeNext(EncodeRow, rows, i);
    EncodePrefix(EncodeRow, rows, i + 1);
    forall j | 0 <= j < i
      ensures |EncodeRow(rows[..i][j])| >= 1
    {
      EncodeCounted(EncodeValue, rows[j]);
    }
    EncodeCounted(EncodeRow, rows[..i]);
  }

  lemma {:induction false} NoWrap(i: nat, len: nat)
    requires i <= len && (i > 0 ==> len <= MAX_RESP)
    ensures (i + 1) % 0x1_0000_0000 == i + 1
  {
  }

  /** Puts rows until the response is over the cap, and counts them in 32 bits. */
  method PutRows(b: Buf, rows: seq<seq<Value>>) returns (count: u32, over: bool)
    requires b.Valid() && forall i :: 0 <= i < |rows| ==> |rows[i]| >= 1
    modifies b, b.data
    ensures b.Valid() && (b.data == old(b.data) || fresh(b.data))
    ensures over <==> rows != [] && old(b.len) + |EncodeMany(EncodeRow, rows)| > MAX_RESP
    ensures !over ==> count == |rows| && b.Contents() == old(b.Contents()) + EncodeMany(EncodeRow, rows)
  {
    ghost var was, done := b.Contents(), [];
    count := 0;
    for i := 0 to |rows|
      invariant b.Valid() && (b.data == old(b.data) || fresh(b.data))
      invariant done == EncodeMany(EncodeRow, rows[..i]) && b.Contents() == was + done
      invariant count == i && (i > 0 ==> |was| + |done| <= MAX_RESP)
    {
      RowsNext(rows, i);
      NoWrap(i, |was| + |done|);
      ghost var row := EncodeRow(rows[i]);
      Associates(was, done, row);
      PutRow(b, rows[i]);
      done := done + row;
      assert b.len == |b.Contents()| == |was| + |done| && |done| <= |EncodeMany(EncodeRow, rows)|;
      count := (count + 1) % 0x1_0000_0000;
      if b.len > MAX_RESP {
        return count, true;
      }
    }
    assert rows[..|rows|] == rows;
    over := false;
  }

  lemma {:induction false} Patched(head: Bytes, zero: Bytes, word: Bytes, rows: Bytes)
    requires |zero| == 4
    ensures (head + zero + rows)[..|head|] + word + (head + zero + rows)[|head| + 4..] == head + word + rows
  {
    assert (head + zero + rows)[..|head|] == head && (head + zero + rows)[|head| + 4..] == rows;
  }

  /**
   * The result set, with its row count patched in at the end. The 32-bit count cannot wrap: a row adds a byte at
   * least, and the loop stops once the response is over the cap.
   */
  method ReplyRows(columns: seq<Bytes>, s: Stepping) returns (payload: Bytes)
    requires columns != [] && Tabular(columns, s)
    ensures payload == EncodeResponse(ReplyTo(columns, s))
  {
    var b := PutHead(columns);
    var at := b.len;
    b.PutWord(0, 4);
    var count, over := PutRows(b, s.rows);
    if over {
      payload := ReplyError(SQLITE_TOOBIG, Ascii("result set too large"));
      return;
    }
    match s.end
    case Broken(f) =>
      payload := ReplyError(Cast32(f.code), f.message);
    case Finished(_, _) =>
      Patched(RowsHead(columns), BE(0, 4), BE(count, 4), EncodeMany(EncodeRow, s.rows));
      b.PatchU32(at, count);
      payload := b.data[..b.len];
  }

  // ----- handling EXEC -----

  /** After the first parameter that fails, no other is read. */
  lemma {:induction false} BindStuck(read: Reader<Value>, pos: nat, m: nat, n: nat,
                                     bind: (nat, Value) -> Option<Failure>)
    requires m <= n && !BindAll(read, pos, m, bind).Bound?
    ensures BindAll(read, pos, n, bind) == BindAll(read, pos, m, bind)
    decreases n
  {
    if m < n {
      BindStuck(read, pos, m, n - 1, bind);
    }
  }

  method BindParams(c: Cur, n: nat, bind: (nat, Value) -> Option<Failure>) returns (r: Bound)
    requires c.Valid() && !c.truncated
    modifies c
    ensures c.Valid() && r == BindAll(ValueReader(c.data), old(c.pos), n, bind)
    ensures r.Bound? ==> r.next == c.pos
  {
    ghost var read := ValueReader(c.data);
    var vs: seq<Value> := [];
    for i := 0 to n
      invariant c.Valid() && !c.truncated
      invariant BindAll(read, old(c.pos), i, bind) == Bound(vs, c.pos)
    {
      var v := c.BindParam();
      if c.truncated {
        BindStuck(read, old(c.pos), i + 1, n, bind);
        return Short;
      }
      match bind(i + 1, v)
      case Some(f) =>
        BindStuck(read, old(c.pos), i + 1, n, bind);
        return Rejected(f);
      case None =>
        vs := vs + [v];
    }
    r := Bound(vs, c.pos);
  }

  method GoesOn(sql: Bytes, tail: Option<nat>) returns (r: bool)
    ensures r <==> Trailing(sql, tail)
  {
    if tail.None? {
      return false;
    }
    var rest := tail.value;
    while rest < |sql| && Skipped(sql[rest])
      invariant tail.value <= rest
      invariant forall i :: tail.value <= i < rest && i < |sql| ==> Skipped(sql[i])
      decreases |sql| - rest
    {
      rest := rest + 1;
    }
    r := rest < |sql|;
  }

  /** The head of an EXEC frame is whole: the length of the text, the text and the number of parameters. */
  predicate Headed(data: Bytes) {
    |data| >= 5 && Word(data, 1, 4) + 7 <= |data|
  }

  method ReadHead(c: Cur) returns (whole: bool, sql: Bytes, count: nat)
    requires c.Valid() && c.pos == 1 && !c.truncated
    modifies c`pos, c`truncated
    ensures c.Valid() && whole == Headed(c.data)
    ensures whole ==>
              var n := Word(c.data, 1, 4);
              sql == c.data[5..5 + n] && count == Word(c.data, 5 + n, 2) && c.pos == 7 + n && !c.truncated
  {
    whole, sql, count := false, [], 0;
    var n := c.GetWord(4);
    var got := c.GetBytes(n);
    if !c.truncated {
      count := c.GetWord(2);
    }
    if !c.truncated {
      whole, sql := true, got.value;
    }
  }

  method HandleExec(c: Cur, engine: Engine) returns (payload: Bytes)
    requires c.Valid() && c.pos == 1 && !c.truncated && Sane(engine)
    modifies c
    ensures payload == EncodeResponse(Reply(Exec(c.data, engine)))
  {
    var whole, sql, count := ReadHead(c);
    if !whole {
      assert Exec(c.data, engine) == Refusal(Misuse("truncated EXEC frame"));
      payload := ReplyError(SQLITE_MISUSE, Ascii("truncated EXEC frame"));
    } else if 0 in sql {
      assert Exec(c.data, engine) == Refusal(Misuse("embedded NUL in SQL"));
      payload := ReplyError(SQLITE_MISUSE, Ascii("embedded NUL in SQL"));
    } else {
      assert Exec(c.data, engine) == ExecPrepared(c.data, c.pos, sql, count, engine.prepare(sql));
      payload := RunPrepared(c, sql, count, engine.prepare(sql));
    }
  }

  method RunPrepared(c: Cur, sql: Bytes, count: nat, prepared: Prepared) returns (payload: Bytes)
    requires c.Valid() && !c.truncated
    requires prepared.Statement? ==> forall params: seq<Value> :: Tabular(prepared.columns, prepared.run(params))
    modifies c
    ensures payload == EncodeResponse(Reply(ExecPrepared(c.data, old(c.pos), sql, count, prepared)))
  {
    match prepared
    case Refused(f) =>
      payload := ReplyError(Cast32(f.code), f.message);
    case Blank =>
      payload := ReplyError(SQLITE_MISUSE, Ascii("empty statement"));
    case Statement(tail, expected, bind, columns, run) =>
      var trailing := GoesOn(sql, tail);
      if trailing {
        payload := ReplyError(SQLITE_MISUSE, Ascii("EXEC takes a single statement (use SCRIPT)"));
      } else if expected != count {
        payload := ReplyError(SQLITE_MISUSE, Ascii("parameter count mismatch"));
      } else {
        var bound := BindParams(c, count, bind);
        payload := AfterBinding(c, bound, columns, run);
      }
  }

  method AfterBinding(c: Cur, bound: Bound, columns: seq<Bytes>, run: seq<Value> -> Stepping) returns (payload: Bytes)
    requires bound.Bound? ==> bound.next == c.pos && Tabular(columns, run(bound.values))
    ensures payload == EncodeResponse(match bound
                                      case Short => Misuse("truncated parameter")
                                      case Rejected(f) => Failed(f)
                                      case Bound(vs, q) =>
                                        if q != |c.data| then Misuse("trailing bytes after parameters")
                                        else ReplyTo(columns, run(vs)))
  {
    match bound
    case Short =>
      payload := ReplyError(SQLITE_MISUSE, Ascii("truncated parameter"));
    case Rejected(f) =>
      payload := ReplyError(Cast32(f.code), f.message);
    case Bound(vs, _) =>
      if c.pos != |c.data| {
        payload := ReplyError(SQLITE_MISUSE, Ascii("trailing bytes after parameters"));
      } else if columns != [] {
        payload := ReplyRows(columns, run(vs));
      } else {
        match run(vs).end
        case Finished(changes, rowid) => payload := ReplyDone(changes, rowid);
        case Broken(f) => payload := ReplyError(Cast32(f.code), f.message);
      }
  }

  // ----- EXEC frames -----

  function ExecFrame(sql: Bytes, params: seq<Value>): Bytes {
    [OP_EXEC] + (EncodeBytes(sql) + (BE(|params|, 2) + EncodeRow(params)))
  }

  predicate Unrejected(bind: (nat, Value) -> Option<Failure>, vs: seq<Value>) {
    forall i :: 0 <= i < |vs| ==> bind(i + 1, vs[i]) == None
  }

  /** The parameters are bound exactly when they all read and none is rejected. */
  lemma {:induction false} BindAllReads(read: Reader<Value>, pos: nat, vs: seq<Value>, q: nat,
                                        bind: (nat, Value) -> Option<Failure>)
    ensures BindAll(read, pos, |vs|, bind) == Bound(vs, q)
       <==> ReadMany(read, pos, |vs|) == Some((vs, q)) && Unrejected(bind, vs)
    decreases |vs|
  {
    if vs != [] {
      var front, last := vs[..|vs| - 1], vs[|vs| - 1];
      assert vs == front + [last];
      if BindAll(read, pos, |vs|, bind) == Bound(vs, q) {
        var b := BindAll(read, pos, |vs| - 1, bind);
        assert b.values == front;
        BindAllReads(read, pos, front, b.next, bind);
      }
      if ReadMany(read, pos, |vs|) == Some((vs, q)) && Unrejected(bind, vs) {
        var m := ReadMany(read, pos, |vs| - 1).value.1;
        assert ReadMany(read, pos, |vs| - 1).value.0 == front;
        BindAllReads(read, pos, front, m, bind);
      }
    }
  }
}

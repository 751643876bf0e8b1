/** A length-prefixed request loop over any handler: which requests it sees, and that it answers each, in order. */
module Serving {
  import opened Bytes
  import opened Codec

  const MAX_FRAME := 64 * 1024 * 1024
  const MAX_LENGTH := 0xFFFF_FFFF

  function EncodeBytes(b: Bytes): Bytes {
    BE(|b|, 4) + b
  }

  // ----- strings with a length before them -----

  predicate Short32(b: Bytes) {
    |b| <= MAX_LENGTH
  }

  function ReadString(data: Bytes, p: nat): Option<(Bytes, nat)> {
    if p + 4 > |data| || Word(data, p, 4) > |data| - (p + 4) then None
    else
      var q := p + 4 + Word(data, p, 4);
      Some((data[p + 4..q], q))
  }

  function StringReader(data: Bytes): Reader<Bytes> {
    p => ReadString(data, p)
  }

  lemma {:induction false} StringsRead(data: Bytes)
    ensures Reads(data, StringReader(data), EncodeBytes, Short32)
  {
    forall p: nat, b: Bytes, q: nat
      ensures Spelled(data, EncodeBytes, Short32, p, b, q) <==> StringReader(data)(p) == Some((b, q))
    {
      StringSpelled(data, p, b, q);
    }
  }

  lemma {:induction false} StringSpelled(data: Bytes, p: nat, b: Bytes, q: nat)
    ensures Spelled(data, EncodeBytes, Short32, p, b, q) <==> ReadString(data, p) == Some((b, q))
  {
    Pow256Values();
    AtSplit(data, p, BE(|b|, 4), b);
    if |b| <= MAX_LENGTH {
      WordIff(data, p, |b|, 4);
    }
  }

  // ----- requests -----

  /** The complete frames of the input, up to a length out of bounds or the end. */
  function Requests(input: Bytes, pos: nat): seq<Bytes>
    requires pos <= |input|
    decreases |input| - pos
  {
    if pos + 4 > |input| then []
    else
      var n := Word(input, pos, 4);
      if n == 0 || n > MAX_FRAME || pos + 4 + n > |input| then []
      else [input[pos + 4..pos + 4 + n]] + Requests(input, pos + 4 + n)
  }

  predicate Filled(requests: seq<Bytes>) {
    forall i :: 0 <= i < |requests| ==> 1 <= |requests[i]| <= MAX_FRAME
  }

  /** The next complete frame, or none when the loop stops there. */
  method ReadFrame(input: Bytes, pos: nat) returns (frame: Option<Bytes>, next: nat)
    requires pos <= |input|
    ensures frame.None? <==> Requests(input, pos) == []
    ensures frame.Some? ==> pos < next <= |input| && frame.value != []
    ensures frame.Some? ==> next <= |input| && Requests(input, pos) == [frame.value] + Requests(input, next)
  {
    next := pos;
    if pos + 4 > |input| {
      return None, pos;
    }
    var n := Word(input, pos, 4);
    if n == 0 || n > MAX_FRAME || pos + 4 + n > |input| {
      return None, pos;
    }
    next := pos + 4 + n;
    frame := Some(input[pos + 4..next]);
  }

  lemma {:induction false} EncodeFirst(ps: seq<Bytes>)
    requires ps != []
    ensures EncodeMany(EncodeBytes, ps) == EncodeBytes(ps[0]) + EncodeMany(EncodeBytes, ps[1..])
  {
    if |ps| == 1 {
      assert ps[..0] == [] && ps[1..] == [];
    } else {
      var front, last := ps[..|ps| - 1], ps[|ps| - 1];
      EncodeFirst(front);
      assert front[1..] == ps[1..][..|ps| - 2] && front[0] == ps[0];
      Associates(EncodeBytes(ps[0]), EncodeMany(EncodeBytes, front[1..]), EncodeBytes(last));
    }
  }

  /** Frames written one after another are the requests read, and what follows them is left. */
  lemma {:induction false} RequestsOf(input: Bytes, pos: nat, ps: seq<Bytes>, q: nat)
    requires Filled(ps) && At(input, pos, EncodeMany(EncodeBytes, ps)) && q == pos + |EncodeMany(EncodeBytes, ps)|
    ensures Requests(input, pos) == ps + Requests(input, q)
    decreases |ps|
  {
    if ps == [] {
      assert ps + Requests(input, pos) == Requests(input, pos);
    } else {
      var first, rest := ps[0], ps[1..];
      EncodeFirst(ps);
      AtSplit(input, pos, EncodeBytes(first), EncodeMany(EncodeBytes, rest));
      RequestsOf(input, pos + 4 + |first|, rest, q);
      FirstRequest(input, pos, first);
      Prepended(ps, Requests(input, q));
    }
  }

  lemma {:induction false} Prepended(ps: seq<Bytes>, rest: seq<Bytes>)
    requires ps != []
    ensures [ps[0]] + (ps[1..] + rest) == ps + rest
  {
  }

  lemma {:induction false} FirstRequest(input: Bytes, pos: nat, p: Bytes)
    requires 1 <= |p| <= MAX_FRAME && At(input, pos, EncodeBytes(p))
    ensures Requests(input, pos) == [p] + Requests(input, pos + 4 + |p|)
  {
    Pow256Values();
    AtSplit(input, pos, BE(|p|, 4), p);
    WordIff(input, pos, |p|, 4);
  }

  /** Reading stops exactly where no whole frame of 1 to 64 MiB stands, and else goes on after it. */
  lemma {:induction false} RequestsFrom(input: Bytes, pos: nat)
    requires pos <= |input|
    ensures Requests(input, pos) == []
       <==> pos + 4 > |input| || !(1 <= FromBE(input[pos..pos + 4]) <= 0x400_0000)
            || pos + 4 + FromBE(input[pos..pos + 4]) > |input|
    ensures Requests(input, pos) != [] ==>
              var n := FromBE(input[pos..pos + 4]);
              Requests(input, pos) == [input[pos + 4..pos + 4 + n]] + Requests(input, pos + 4 + n)
  {
  }

  /** A frame is its length in four bytes, most significant first, and the bytes. */
  lemma {:induction false} FrameLayout(b: Bytes)
    requires |b| < 0x1_0000_0000
    ensures var e := EncodeBytes(b);
            |e| == 4 + |b| && FromBE(e[..4]) == |b| && e[4..] == b
  {
    Pow256Values();
    BERoundTrip(|b|, 4);
    assert EncodeBytes(b)[..4] == BE(|b|, 4);
  }

  // ----- responses -----

  /** What handling one request comes to: the session after it, its response, and whether it is the last. */
  datatype Turn<S> = Turn(session: S, payload: Bytes, closes: bool)

  /** The handler is told the number of the request. */
  type Handler<!S> = (S, Bytes, nat) -> Turn<S>

  /** The responses to a run of requests: they end with the one that closes, or where one cannot be framed. */
  function Served<S>(handle: Handler<S>, s: S, requests: seq<Bytes>, k: nat): seq<Bytes>
    decreases |requests|
  {
    if requests == [] then []
    else
      var t := handle(s, requests[0], k);
      Sends(t.payload, t.closes, Served(handle, t.session, requests[1..], k + 1))
  }

  /** This response, then those to the rest. */
  function Sends(payload: Bytes, closes: bool, rest: seq<Bytes>): seq<Bytes> {
    if |payload| > MAX_LENGTH then [] else if closes then [payload] else [payload] + rest
  }

  /** The session in which request `i` is handled. */
  function SessionAt<S>(handle: Handler<S>, s: S, requests: seq<Bytes>, k: nat, i: nat): S
    requires i <= |requests|
    decreases i
  {
    if i == 0 then s else SessionAt(handle, handle(s, requests[0], k).session, requests[1..], k + 1, i - 1)
  }

  function TurnAt<S>(handle: Handler<S>, s: S, requests: seq<Bytes>, k: nat, i: nat): Turn<S>
    requires i < |requests|
  {
    handle(SessionAt(handle, s, requests, k, i), requests[i], k + i)
  }

  /** Response `i` answers request `i`, in the session the requests before it made, and only the last one closes. */
  lemma {:induction false} ServedInOrder<S>(handle: Handler<S>, s: S, requests: seq<Bytes>, k: nat, i: nat)
    requires i < |Served(handle, s, requests, k)|
    ensures i < |requests| && Served(handle, s, requests, k)[i] == TurnAt(handle, s, requests, k, i).payload
    ensures |Served(handle, s, requests, k)[i]| <= MAX_LENGTH
    ensures i + 1 < |Served(handle, s, requests, k)| ==> !TurnAt(handle, s, requests, k, i).closes
    decreases i
  {
    if i > 0 {
      ServedInOrder(handle, handle(s, requests[0], k).session, requests[1..], k + 1, i - 1);
    }
  }

  /** No request goes unanswered but those after one that closes, or from the first whose answer no frame can hold. */
  lemma {:induction false} ServedAll<S>(handle: Handler<S>, s: S, requests: seq<Bytes>, k: nat)
    ensures var n := |Served(handle, s, requests, k)|;
            && n <= |requests|
            && (n < |requests| ==> || (n > 0 && TurnAt(handle, s, requests, k, n - 1).closes)
                                   || |TurnAt(handle, s, requests, k, n).payload| > MAX_LENGTH)
    decreases |requests|
  {
    if requests != [] {
      var t := handle(s, requests[0], k);
      if |t.payload| <= MAX_LENGTH && !t.closes {
        ServedAll(handle, t.session, requests[1..], k + 1);
      }
    }
  }

  /** From the bytes sent back the other end takes exactly the responses, in order and with nothing left over. */
  lemma {:induction false} RepliesReceived<S>(handle: Handler<S>, s: S, requests: seq<Bytes>, k: nat)
    ensures var replies := Served(handle, s, requests, k);
            var output := EncodeMany(EncodeBytes, replies);
            ReadMany(StringReader(output), 0, |replies|) == Some((replies, |output|))
  {
    var replies := Served(handle, s, requests, k);
    var output := EncodeMany(EncodeBytes, replies);
    forall i | 0 <= i < |replies|
      ensures Short32(replies[i])
    {
      ServedInOrder(handle, s, requests, k, i);
    }
    AtWhole(output);
    StringsRead(output);
    ReadManyIff(output, StringReader(output), EncodeBytes, Short32, 0, replies, |output|);
  }

  lemma {:induction false} SentNext(sent: seq<Bytes>, payload: Bytes, rest: seq<Bytes>)
    ensures sent + ([payload] + rest) == (sent + [payload]) + rest
    ensures EncodeMany(EncodeBytes, sent + [payload]) == EncodeMany(EncodeBytes, sent) + EncodeBytes(payload)
  {
    assert (sent + [payload])[..|sent|] == sent;
  }
}

/** The response helper shared by the controllers: a small state machine over
    a status code, a data payload and an error payload. Every response kind
    sets its status (and, for the error kinds, a message) and then responds
    with the first payload that is not null. */
module Responsible {
  import opened Strings

  // ---------------------------------------------------------------------------
  // PHP values

  /** An array key: PHP arrays are keyed by integers or by strings. */
  datatype Key = IntKey(n: int) | StrKey(s: string)

  /** The PHP values a payload is made of; an array is its entries in
      order. */
  datatype Value =
    | Null
    | Bool(b: bool)
    | Int(i: int)
    | Str(s: string)
    | Arr(entries: seq<(Key, Value)>)

  /** PHP `!$value`: null, false, 0, "", "0" and the empty array are
      falsy. */
  predicate Falsy(v: Value) {
    match v
    case Null => true
    case Bool(b) => !b
    case Int(i) => i == 0
    case Str(s) => s == "" || s == "0"
    case Arr(entries) => entries == []
  }

  /** PHP `(array)$value`: null is the empty array, an array stays as it is,
      and any other value becomes the one-entry array `[0 => value]`. */
  function AsArray(v: Value): (r: seq<(Key, Value)>)
    ensures v.Null? ==> r == []
    ensures v.Arr? ==> r == v.entries
    ensures !v.Null? && !v.Arr? ==> r == [(IntKey(0), v)]
  {
    match v
    case Null => []
    case Arr(entries) => entries
    case _ => [(IntKey(0), v)]
  }

  /** The last position holding key `k` (in a PHP array, the only one). */
  function LastIndex(xs: seq<(Key, Value)>, k: Key): (r: Option<nat>)
    ensures r.Some? ==> r.value < |xs| && xs[r.value].0 == k
    ensures r.Some? ==> forall j :: r.value < j < |xs| ==> xs[j].0 != k
    ensures r.None? ==> forall j :: 0 <= j < |xs| ==> xs[j].0 != k
  {
    if |xs| == 0 then None
    else if xs[|xs| - 1].0 == k then Some(|xs| - 1)
    else LastIndex(xs[..|xs| - 1], k)
  }

  /** `$array[$k]`, or None when the key is absent. */
  function ValueAt(xs: seq<(Key, Value)>, k: Key): Option<Value> {
    match LastIndex(xs, k)
    case Some(i) => Some(xs[i].1)
    case None => None
  }

  /** The integer-keyed entries, in order. */
  function IntEntries(xs: seq<(Key, Value)>): seq<(int, Value)> {
    if |xs| == 0 then []
    else IntEntries(xs[..|xs| - 1]) + (if xs[|xs| - 1].0.IntKey? then [(xs[|xs| - 1].0.n, xs[|xs| - 1].1)] else [])
  }

  /** One more entry for `array_merge`: an integer key is renumbered to the
      next free index; a string key overwrites the entry already holding it,
      in place, or is appended. */
  function Put(acc: seq<(Key, Value)>, e: (Key, Value)): seq<(Key, Value)> {
    match e.0
    case IntKey(_) => acc + [(IntKey(|IntEntries(acc)|), e.1)]
    case StrKey(_) =>
      match LastIndex(acc, e.0)
      case Some(i) => acc[i := e]
      case None => acc + [e]
  }

  function PutAll(xs: seq<(Key, Value)>): seq<(Key, Value)> {
    if |xs| == 0 then [] else Put(PutAll(xs[..|xs| - 1]), xs[|xs| - 1])
  }

  /** PHP `array_merge($a, $b)`. */
  function Merge(a: seq<(Key, Value)>, b: seq<(Key, Value)>): seq<(Key, Value)> {
    PutAll(a + b)
  }

  // ---------------------------------------------------------------------------
  // What `array_merge` does

  lemma ValueAtSnoc(xs: seq<(Key, Value)>, e: (Key, Value), k: Key)
    ensures ValueAt(xs + [e], k) == if e.0 == k then Some(e.1) else ValueAt(xs, k)
  {
    assert (xs + [e])[..|xs|] == xs;
  }

  /** Overwriting the last entry of key `k` changes what `k` reads and
      nothing else. */
  lemma ValueAtUpdate(xs: seq<(Key, Value)>, i: nat, v: Value, k: Key)
    requires i < |xs| && LastIndex(xs, xs[i].0) == Some(i)
    ensures ValueAt(xs[i := (xs[i].0, v)], k) == if k == xs[i].0 then Some(v) else ValueAt(xs, k)
  {
    var ys := xs[i := (xs[i].0, v)];
    forall j | 0 <= j < |xs| ensures ys[j].0 == xs[j].0 {
    }
    LastIndexSameKeys(xs, ys, k);
  }

  /** Two entry lists with the same keys in the same places find every key
      in the same place. */
  lemma {:induction false} LastIndexSameKeys(xs: seq<(Key, Value)>, ys: seq<(Key, Value)>, k: Key)
    requires |xs| == |ys| && forall j :: 0 <= j < |xs| ==> xs[j].0 == ys[j].0
    ensures LastIndex(xs, k) == LastIndex(ys, k)
  {
    if |xs| > 0 && xs[|xs| - 1].0 != k {
      LastIndexSameKeys(xs[..|xs| - 1], ys[..|ys| - 1], k);
    }
  }

  /** What a string key reads after one more entry. */
  lemma PutStrKey(acc: seq<(Key, Value)>, e: (Key, Value), s: string)
    ensures ValueAt(Put(acc, e), StrKey(s)) == if e.0 == StrKey(s) then Some(e.1) else ValueAt(acc, StrKey(s))
  {
    match e.0
    case IntKey(n) =>
      ValueAtSnoc(acc, (IntKey(|IntEntries(acc)|), e.1), StrKey(s));
    case StrKey(t) =>
      match LastIndex(acc, e.0)
      case Some(i) =>
        assert acc[i := e] == acc[i := (acc[i].0, e.1)];
        ValueAtUpdate(acc, i, e.1, StrKey(s));
      case None =>
        ValueAtSnoc(acc, e, StrKey(s));
  }

  /** Under a string key, the merge of a list holds the last value given for
      it. */
  lemma {:induction false} PutAllStrKey(xs: seq<(Key, Value)>, s: string)
    ensures ValueAt(PutAll(xs), StrKey(s)) == ValueAt(xs, StrKey(s))
  {
    if |xs| > 0 {
      var init := xs[..|xs| - 1];
      var e := xs[|xs| - 1];
      var k := StrKey(s);
      assert PutAll(xs) == Put(PutAll(init), e);
      PutAllStrKey(init, s);
      PutStrKey(PutAll(init), e, s);
      assert ValueAt(PutAll(xs), k) == if e.0 == k then Some(e.1) else ValueAt(init, k);
      assert init + [e] == xs;
      ValueAtSnoc(init, e, k);
    }
  }

  lemma {:induction false} ValueAtAppend(a: seq<(Key, Value)>, b: seq<(Key, Value)>, k: Key)
    ensures ValueAt(a + b, k) == if ValueAt(b, k).Some? then ValueAt(b, k) else ValueAt(a, k)
  {
    if |b| == 0 {
      assert a + b == a;
    } else {
      var init := b[..|b| - 1];
      var e := b[|b| - 1];
      ValueAtAppend(a, init, k);
      assert a + b == (a + init) + [e];
      assert b == init + [e];
      ValueAtSnoc(a + init, e, k);
      ValueAtSnoc(init, e, k);
    }
  }

  /** `array_merge` on string keys: a key of the second array takes its
      value from there, any other key keeps its value from the first. */
  lemma MergeStrKey(a: seq<(Key, Value)>, b: seq<(Key, Value)>, s: string)
    ensures ValueAt(Merge(a, b), StrKey(s)) ==
      if ValueAt(b, StrKey(s)).Some? then ValueAt(b, StrKey(s)) else ValueAt(a, StrKey(s))
  {
    PutAllStrKey(a + b, s);
    ValueAtAppend(a, b, StrKey(s));
  }

  lemma IntEntriesSnoc(xs: seq<(Key, Value)>, e: (Key, Value))
    ensures IntEntries(xs + [e]) == IntEntries(xs) + (if e.0.IntKey? then [(e.0.n, e.1)] else [])
  {
    assert (xs + [e])[..|xs|] == xs;
  }

  lemma {:induction false} IntEntriesAppend(a: seq<(Key, Value)>, b: seq<(Key, Value)>)
    ensures IntEntries(a + b) == IntEntries(a) + IntEntries(b)
  {
    if |b| == 0 {
      assert a + b == a;
    } else {
      var init := b[..|b| - 1];
      var e := b[|b| - 1];
      IntEntriesAppend(a, init);
      assert a + b == (a + init) + [e];
      IntEntriesSnoc(a + init, e);
    }
  }

  /** Overwriting a string-keyed entry with another string-keyed entry
      leaves the integer-keyed entries alone. */
  lemma {:induction false} IntEntriesUpdate(xs: seq<(Key, Value)>, i: nat, e: (Key, Value))
    requires i < |xs| && xs[i].0.StrKey? && e.0.StrKey?
    ensures IntEntries(xs[i := e]) == IntEntries(xs)
  {
    var ys := xs[i := e];
    var n := |xs| - 1;
    assert ys[..n] == if i == n then xs[..n] else xs[..n][i := e];
    if i < n {
      IntEntriesUpdate(xs[..n], i, e);
    }
  }

  /** The integer-keyed entries of a merge are those of the input, in order
      and renumbered from zero. */
  predicate Renumbered(merged: seq<(int, Value)>, input: seq<(int, Value)>) {
    |merged| == |input| && forall i :: 0 <= i < |merged| ==> merged[i] == (i, input[i].1)
  }

  lemma PutInts(acc: seq<(Key, Value)>, e: (Key, Value))
    ensures IntEntries(Put(acc, e)) ==
      IntEntries(acc) + (if e.0.IntKey? then [(|IntEntries(acc)|, e.1)] else [])
  {
    match e.0
    case IntKey(_) =>
      IntEntriesSnoc(acc, (IntKey(|IntEntries(acc)|), e.1));
    case StrKey(_) =>
      match LastIndex(acc, e.0)
      case Some(i) =>
        IntEntriesUpdate(acc, i, e);
      case None =>
        IntEntriesSnoc(acc, e);
  }

  lemma {:induction false} PutAllInts(xs: seq<(Key, Value)>)
    ensures Renumbered(IntEntries(PutAll(xs)), IntEntries(xs))
  {
    if |xs| > 0 {
      var init := xs[..|xs| - 1];
      var e := xs[|xs| - 1];
      var merged := IntEntries(PutAll(init));
      assert PutAll(xs) == Put(PutAll(init), e);
      PutAllInts(init);
      PutInts(PutAll(init), e);
      assert init + [e] == xs;
      IntEntriesSnoc(init, e);
      if e.0.IntKey? {
        RenumberedSnoc(merged, IntEntries(init), e.0.n, e.1);
      } else {
        assert IntEntries(PutAll(xs)) == merged + [];
        assert IntEntries(xs) == IntEntries(init) + [];
      }
    }
  }

  lemma RenumberedSnoc(merged: seq<(int, Value)>, input: seq<(int, Value)>, n: int, v: Value)
    requires Renumbered(merged, input)
    ensures Renumbered(merged + [(|merged|, v)], input + [(n, v)])
  {
  }

  /** `array_merge` on integer keys: the values of the first array, then
      those of the second, in order and numbered from zero. */
  lemma MergeInts(a: seq<(Key, Value)>, b: seq<(Key, Value)>)
    ensures Renumbered(IntEntries(Merge(a, b)), IntEntries(a) + IntEntries(b))
  {
    PutAllInts(a + b);
    IntEntriesAppend(a, b);
  }

  // ---------------------------------------------------------------------------
  // Responses

  /** What the framework's `response($payload, $status)` is given. */
  datatype Response = Response(payload: Value, status: int)

  /** `validationError` never returns: it raises a validation exception
      carrying the messages. */
  datatype ValidationFailure = ValidationFailure(errors: seq<(Key, Value)>)

  const HttpOk := 200
  const HttpCreated := 201
  const HttpBadRequest := 400
  const HttpUnauthorized := 401
  const HttpNotFound := 404
  const HttpTooManyRequests := 429
  const HttpInternalServerError := 500

  /** The payload `["message" => $message]`. */
  function Message(message: string): Value {
    Arr([(StrKey("message"), Str(message))])
  }

  class Responder {
    var statusCode: int
    var data: Value
    var error: Value

    constructor ()
      ensures statusCode == HttpOk && data == Null && error == Null
    {
      statusCode := HttpOk;
      data := Null;
      error := Null;
    }

    /** `respond($d)`: the first of `$d`, `data` and `error` that is not
        null (null when all three are), with the current status; nothing
        changes. */
    function Respond(d: Value): (r: Response)
      reads this
      ensures r.status == statusCode
      ensures d != Null ==> r.payload == d
      ensures d == Null && data != Null ==> r.payload == data
      ensures d == Null && data == Null ==> r.payload == error
    {
      Response(if d != Null then d else if data != Null then data else error, statusCode)
    }

    method SetData(d: Value)
      modifies this`data
      ensures data == d
    {
      data := d;
    }

    /** `appendData`: the data, cast to an array, merged with the given
        array. */
    method AppendData(d: seq<(Key, Value)>)
      modifies this`data
      ensures data == Arr(Merge(AsArray(old(data)), d))
    {
      SetData(Arr(Merge(AsArray(data), d)));
    }

    method SetError(e: Value)
      modifies this`error
      ensures error == e
    {
      error := e;
    }

    method SetStatusCode(code: int)
      modifies this`statusCode
      ensures statusCode == code
    {
      statusCode := code;
    }

    method SetMessage(message: string)
      modifies this`data
      ensures data == Message(message)
    {
      data := Message(message);
    }

    method Created(d: Value) returns (r: Response)
      modifies this`statusCode
      ensures statusCode == HttpCreated
      ensures r == Respond(d) && r.status == HttpCreated
    {
      SetStatusCode(HttpCreated);
      r := Respond(d);
    }

    /** `updated`: responds with whatever status is current. */
    method Updated(d: Value) returns (r: Response)
      ensures r == Respond(d) && r.status == statusCode
    {
      r := Respond(d);
    }

    method Deleted() returns (r: Response)
      ensures r == Respond(Null) && r.status == statusCode
      ensures r.payload == if data != Null then data else error
    {
      r := Respond(Null);
    }

    /** `badRequest`: status 400; the message only when the data is falsy,
        otherwise the data stays and is what is sent. */
    method BadRequest() returns (r: Response)
      modifies this`data, this`statusCode
      ensures statusCode == HttpBadRequest
      ensures Falsy(old(data)) ==> data == Message("bad request!")
      ensures !Falsy(old(data)) ==> data == old(data)
      ensures r == Response(data, HttpBadRequest)
    {
      if Falsy(data) {
        SetMessage("bad request!");
      }
      SetStatusCode(HttpBadRequest);
      r := Respond(Null);
    }

    method NotFound() returns (r: Response)
      modifies this`data, this`statusCode
      ensures statusCode == HttpNotFound && data == Message("not found!")
      ensures r == Response(Message("not found!"), HttpNotFound)
    {
      SetStatusCode(HttpNotFound);
      SetMessage("not found!");
      r := Respond(Null);
    }

    /** `internalError`: the exception is only logged. */
    method InternalError(exception: Value) returns (r: Response)
      modifies this`data, this`statusCode
      ensures statusCode == HttpInternalServerError && data == Message("internal error!")
      ensures r == Response(Message("internal error!"), HttpInternalServerError)
    {
      SetStatusCode(HttpInternalServerError);
      SetMessage("internal error!");
      r := Respond(Null);
    }

    method ValidationError(errors: seq<(Key, Value)>) returns (failure: ValidationFailure)
      ensures failure.errors == errors
    {
      failure := ValidationFailure(errors);
    }

    method UnauthorizedError() returns (r: Response)
      modifies this`data, this`statusCode
      ensures statusCode == HttpUnauthorized && data == Message("unauthorized error!")
      ensures r == Response(Message("unauthorized error!"), HttpUnauthorized)
    {
      SetStatusCode(HttpUnauthorized);
      SetMessage("unauthorized error!");
      r := Respond(Null);
    }

    /** `toManyRequest`: status 429; the message only when the data is
        falsy. */
    method ToManyRequest() returns (r: Response)
      modifies this`data, this`statusCode
      ensures statusCode == HttpTooManyRequests
      ensures Falsy(old(data)) ==> data == Message("to many request!")
      ensures !Falsy(old(data)) ==> data == old(data)
      ensures r == Response(data, HttpTooManyRequests)
    {
      if Falsy(data) {
        SetMessage("to many request!");
      }
      SetStatusCode(HttpTooManyRequests);
      r := Respond(Null);
    }
  }

  // ---------------------------------------------------------------------------
  // One responder, call after call

  /** A fresh responder answers 200 with the payload it is given. */
  method FreshResponse(d: Value) returns (r: Response)
    ensures r == Response(d, HttpOk)
  {
    var x := new Responder();
    r := x.Respond(d);
  }

  /** A status once set carries over to `updated` and `deleted`. */
  method StatusCarriesOver(code: int, d: Value) returns (updated: Response, deleted: Response)
    ensures updated == Response(d, code)
    ensures deleted == Response(Null, code)
  {
    var x := new Responder();
    x.SetStatusCode(code);
    updated := x.Updated(d);
    deleted := x.Deleted();
  }

  /** `created` leaves status 201 behind for the next response. */
  method CreatedThenUpdated(d: Value, e: Value) returns (created: Response, updated: Response)
    ensures created == Response(d, HttpCreated)
    ensures updated == Response(e, HttpCreated)
  {
    var x := new Responder();
    created := x.Created(d);
    updated := x.Updated(e);
  }

  /** The error payload is sent only when there is no data, and data set
      later takes over. */
  method ErrorIsFallback(e: Value, d: Value) returns (before: Response, after: Response)
    requires d != Null
    ensures before == Response(e, HttpOk)
    ensures after == Response(d, HttpOk)
  {
    var x := new Responder();
    x.SetError(e);
    before := x.Deleted();
    x.SetData(d);
    after := x.Deleted();
  }

  /** `badRequest` keeps truthy data and sends it with status 400. */
  method BadRequestKeepsData(d: Value) returns (r: Response)
    requires !Falsy(d)
    ensures r == Response(d, HttpBadRequest)
  {
    var x := new Responder();
    x.SetData(d);
    r := x.BadRequest();
  }

  /** `badRequest` replaces falsy data with its message. */
  method BadRequestReplacesFalsy(d: Value) returns (r: Response)
    requires Falsy(d)
    ensures r == Response(Message("bad request!"), HttpBadRequest)
  {
    var x := new Responder();
    x.SetData(d);
    r := x.BadRequest();
  }

  /** `notFound` overwrites whatever data there was. */
  method NotFoundOverwrites(d: Value) returns (r: Response)
    ensures r == Response(Message("not found!"), HttpNotFound)
  {
    var x := new Responder();
    x.SetData(d);
    r := x.NotFound();
  }

  /** After an error response the message is the data, so a later
      `toManyRequest` keeps that message rather than its own. */
  method MessageOutlivesResponse() returns (r: Response)
    ensures r == Response(Message("unauthorized error!"), HttpTooManyRequests)
  {
    var x := new Responder();
    var first := x.UnauthorizedError();
    r := x.ToManyRequest();
  }

  /** Appending to the data of a fresh responder: null casts to the empty
      array, so the data becomes the merge of nothing with the entries. */
  method AppendToNothing(d: seq<(Key, Value)>) returns (r: Response)
    ensures r.status == HttpOk
    ensures r.payload == Arr(Merge([], d))
  {
    var x := new Responder();
    x.AppendData(d);
    r := x.Deleted();
  }
}

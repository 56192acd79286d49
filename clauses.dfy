/** The clause accumulator of the base repository: the `where`, `whereIn` and
    `orderBy` clauses, the limit and the eager loads a caller collects
    fluently, and the builder calls `setClauses` and `eagerLoad` replay them
    as. */
module Clauses {
  import opened Strings
  import opened Builder

  /** An accumulated `where`, kept as (column, value, operator) and replayed
      as `where(column, operator, value)`. */
  datatype WhereClause = WhereClause(column: string, value: string, operator: string)

  datatype WhereInClause = WhereInClause(column: string, values: seq<string>)

  datatype OrderClause = OrderClause(column: string, direction: string)

  function WhereCall(w: WhereClause): Call {
    Where(w.column, w.operator, w.value)
  }

  function WhereInCall(w: WhereInClause): Call {
    WhereIn(w.column, w.values)
  }

  function OrderCall(o: OrderClause): Call {
    OrderBy(o.column, o.direction)
  }

  function WithCall(relation: string): Call {
    With(relation)
  }

  /** One builder call per accumulated item, in accumulation order. */
  function Replay<T>(items: seq<T>, call: T -> Call): seq<Call> {
    if |items| == 0 then []
    else Replay(items[..|items| - 1], call) + [call(items[|items| - 1])]
  }

  /** The replay has one call per item, and call `i` is the call of item
      `i`. */
  lemma {:induction false} ReplayAt<T>(items: seq<T>, call: T -> Call)
    ensures |Replay(items, call)| == |items|
    ensures forall i :: 0 <= i < |items| ==> Replay(items, call)[i] == call(items[i])
  {
    if |items| > 0 {
      var init := items[..|items| - 1];
      ReplayAt(init, call);
      forall i | 0 <= i < |items| ensures Replay(items, call)[i] == call(items[i]) {
        if i < |init| {
          assert Replay(items, call)[i] == Replay(init, call)[i];
          assert init[i] == items[i];
        }
      }
    }
  }

  /** Replaying a single item gives its call. */
  lemma ReplayOne<T>(x: T, call: T -> Call)
    ensures Replay([x], call) == [call(x)]
  {
    assert [x][..0] == [];
  }

  /** Replaying one more item appends its call. */
  lemma ReplaySnoc<T>(items: seq<T>, i: int, call: T -> Call)
    requires 0 <= i < |items|
    ensures Replay(items[..i + 1], call) == Replay(items[..i], call) + [call(items[i])]
  {
    assert items[..i + 1][..i] == items[..i];
  }

  /** The `take` call, only when a limit is set. */
  function TakeCalls(take: Option<int>): seq<Call> {
    if take.Some? then [Take(take.value)] else []
  }

  /** `setClauses`: all wheres, then all whereIns, then all orderBys, then the
      limit when one is set. */
  function ClauseCalls(wheres: seq<WhereClause>, whereIns: seq<WhereInClause>, orderBys: seq<OrderClause>, take: Option<int>): seq<Call> {
    Replay(wheres, WhereCall) + Replay(whereIns, WhereInCall) + Replay(orderBys, OrderCall) + TakeCalls(take)
  }

  /** `eagerLoad`: one `with` per relation in the list. */
  function LoadCalls(with: seq<string>): seq<Call> {
    Replay(with, WithCall)
  }

  /** The length half of ReplayAt on its own: the layout proofs below need
      only this, without ReplayAt's quantifier over positions. */
  lemma {:induction false} ReplayLength<T>(items: seq<T>, call: T -> Call)
    ensures |Replay(items, call)| == |items|
  {
    if |items| > 0 {
      ReplayLength(items[..|items| - 1], call);
    }
  }

  /** Where each accumulated clause lands in the replay: the wheres first, in
      order and with operator and value swapped back into builder order,
      then the whereIns, then the orderBys, and the limit last. */
  lemma ClauseCallsLayout(wheres: seq<WhereClause>, whereIns: seq<WhereInClause>, orderBys: seq<OrderClause>, take: Option<int>)
    ensures |ClauseCalls(wheres, whereIns, orderBys, take)| == |wheres| + |whereIns| + |orderBys| + (if take.Some? then 1 else 0)
    ensures forall i :: 0 <= i < |wheres| ==>
      ClauseCalls(wheres, whereIns, orderBys, take)[i] == Where(wheres[i].column, wheres[i].operator, wheres[i].value)
    ensures forall i :: 0 <= i < |whereIns| ==>
      ClauseCalls(wheres, whereIns, orderBys, take)[|wheres| + i] == WhereIn(whereIns[i].column, whereIns[i].values)
    ensures forall i :: 0 <= i < |orderBys| ==>
      ClauseCalls(wheres, whereIns, orderBys, take)[|wheres| + |whereIns| + i] == OrderBy(orderBys[i].column, orderBys[i].direction)
    ensures take.Some? ==>
      ClauseCalls(wheres, whereIns, orderBys, take)[|wheres| + |whereIns| + |orderBys|] == Take(take.value)
  {
    ReplayLength(wheres, WhereCall);
    ReplayLength(whereIns, WhereInCall);
    ReplayLength(orderBys, OrderCall);
    WheresAt(wheres, whereIns, orderBys, take);
    WhereInsAt(wheres, whereIns, orderBys, take);
    OrderBysAt(wheres, whereIns, orderBys, take);
  }

  lemma WheresAt(wheres: seq<WhereClause>, whereIns: seq<WhereInClause>, orderBys: seq<OrderClause>, take: Option<int>)
    ensures |ClauseCalls(wheres, whereIns, orderBys, take)| == |wheres| + |whereIns| + |orderBys| + |TakeCalls(take)|
    ensures forall i :: 0 <= i < |wheres| ==>
      ClauseCalls(wheres, whereIns, orderBys, take)[i] == Where(wheres[i].column, wheres[i].operator, wheres[i].value)
  {
    var a := Replay(wheres, WhereCall);
    var rest := Replay(whereIns, WhereInCall) + Replay(orderBys, OrderCall) + TakeCalls(take);
    var all := ClauseCalls(wheres, whereIns, orderBys, take);
    assert all == a + rest;
    ReplayLength(whereIns, WhereInCall);
    ReplayLength(orderBys, OrderCall);
    ReplayAt(wheres, WhereCall);
    forall i | 0 <= i < |wheres| ensures all[i] == Where(wheres[i].column, wheres[i].operator, wheres[i].value) {
      assert all[i] == a[i];
    }
  }

  lemma WhereInsAt(wheres: seq<WhereClause>, whereIns: seq<WhereInClause>, orderBys: seq<OrderClause>, take: Option<int>)
    ensures |ClauseCalls(wheres, whereIns, orderBys, take)| == |wheres| + |whereIns| + |orderBys| + |TakeCalls(take)|
    ensures forall i :: 0 <= i < |whereIns| ==>
      ClauseCalls(wheres, whereIns, orderBys, take)[|wheres| + i] == WhereIn(whereIns[i].column, whereIns[i].values)
  {
    var a := Replay(wheres, WhereCall);
    var b := Replay(whereIns, WhereInCall);
    var rest := Replay(orderBys, OrderCall) + TakeCalls(take);
    var all := ClauseCalls(wheres, whereIns, orderBys, take);
    assert all == a + b + rest;
    ReplayLength(wheres, WhereCall);
    ReplayLength(orderBys, OrderCall);
    ReplayAt(whereIns, WhereInCall);
    forall i | 0 <= i < |whereIns| ensures all[|wheres| + i] == WhereIn(whereIns[i].column, whereIns[i].values) {
      assert all[|a| + i] == b[i];
    }
  }

  lemma OrderBysAt(wheres: seq<WhereClause>, whereIns: seq<WhereInClause>, orderBys: seq<OrderClause>, take: Option<int>)
    ensures |ClauseCalls(wheres, whereIns, orderBys, take)| == |wheres| + |whereIns| + |orderBys| + |TakeCalls(take)|
    ensures forall i :: 0 <= i < |orderBys| ==>
      ClauseCalls(wheres, whereIns, orderBys, take)[|wheres| + |whereIns| + i] == OrderBy(orderBys[i].column, orderBys[i].direction)
    ensures take.Some? ==>
      ClauseCalls(wheres, whereIns, orderBys, take)[|wheres| + |whereIns| + |orderBys|] == Take(take.value)
  {
    var front := Replay(wheres, WhereCall) + Replay(whereIns, WhereInCall);
    var c := Replay(orderBys, OrderCall);
    var all := ClauseCalls(wheres, whereIns, orderBys, take);
    assert all == front + c + TakeCalls(take);
    ReplayLength(wheres, WhereCall);
    ReplayLength(whereIns, WhereInCall);
    ReplayAt(orderBys, OrderCall);
    assert |front| == |wheres| + |whereIns|;
    forall i | 0 <= i < |orderBys| ensures all[|wheres| + |whereIns| + i] == OrderBy(orderBys[i].column, orderBys[i].direction) {
      assert all[|front| + i] == c[i];
    }
  }

  /** What a cleared accumulator still replays: its orderBys, and nothing
      of the cleared wheres, whereIns and limit. */
  lemma ClearedReplay(orderBys: seq<OrderClause>)
    ensures ClauseCalls([], [], orderBys, None) == Replay(orderBys, OrderCall)
    ensures forall i :: 0 <= i < |ClauseCalls([], [], orderBys, None)| ==> ClauseCalls([], [], orderBys, None)[i].OrderBy?
  {
    ReplayAt(orderBys, OrderCall);
    assert ClauseCalls([], [], orderBys, None) == [] + [] + Replay(orderBys, OrderCall) + [];
  }

  /** The eager loads are the relations of the list, in order. */
  lemma LoadCallsAt(with: seq<string>)
    ensures |LoadCalls(with)| == |with|
    ensures forall i :: 0 <= i < |with| ==> LoadCalls(with)[i] == With(with[i])
  {
    ReplayAt(with, WithCall);
  }
}

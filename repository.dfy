/** The base repository as an object: its configuration, the builder it is
    working on (as the log of calls made on it), and the clause accumulator.
    Each method states the builder calls it makes and the new state of the
    fields it changes; the methods at the end follow several calls through
    the lifecycle of one repository. */
module Repository {
  import opened Strings
  import opened Builder
  import opened Search
  import opened Clauses

  /** The property defaults a concrete repository declares. */
  datatype Settings = Settings(
    hasIsActive: bool,
    defaultIsActive: int,
    defaultPrimaryKey: string,
    filterField: seq<string>,
    orderColumn: string,
    orderDirection: string)

  /** The defaults of the base repository itself. */
  const BaseSettings := Settings(false, 1, "id", [], "id", "desc")

  /** What the repository reads of its model: the model's method names (its
      relations) and its two timestamp columns. */
  datatype ModelInfo = ModelInfo(relations: set<string>, createdAt: string, updatedAt: string)

  /** The request's `limit ?? 25`: the value as sent, or the integer 25. */
  function SearchLimit(request: Request): (r: Scalar)
    ensures Lookup(request, "limit").None? <==> r == Num(25)
    ensures Lookup(request, "limit").Some? ==> r == Text(Lookup(request, "limit").value)
  {
    match Lookup(request, "limit")
    case Some(v) => Text(v)
    case None => Num(25)
  }

  class Repository {
    const request: Request
    const relations: set<string>      // method_exists on the model
    const methods: set<string>        // method_exists on the repository
    const camel: string -> string     // Str::camel
    const createdAt: string
    const updatedAt: string

    var hasIsActive: bool
    var defaultIsActive: int
    var defaultPrimaryKey: string
    var filterField: seq<string>
    var orderColumn: string
    var orderDirection: string

    /** The builder the repository is working on. */
    var query: seq<Call>
    var take: Option<int>
    var with: seq<string>
    var wheres: seq<WhereClause>
    var whereIns: seq<WhereInClause>
    var orderBys: seq<OrderClause>

    /** The repository's own `is_active` clause, as the constructor adds it. */
    function IsActiveClause(): WhereClause
      reads this`defaultIsActive
    {
      WhereClause("is_active", IntText(defaultIsActive), "=")
    }

    /** The constructor: the configuration as declared, an empty accumulator,
        and the `is_active` clause when the repository declares one. */
    constructor (settings: Settings, request: Request, model: ModelInfo, methods: set<string>, camel: string -> string)
      ensures this.request == request && relations == model.relations && this.methods == methods && this.camel == camel
      ensures createdAt == model.createdAt && updatedAt == model.updatedAt
      ensures hasIsActive == settings.hasIsActive && defaultIsActive == settings.defaultIsActive
      ensures defaultPrimaryKey == settings.defaultPrimaryKey && filterField == settings.filterField
      ensures orderColumn == settings.orderColumn && orderDirection == settings.orderDirection
      ensures query == [] && take == None && with == [] && whereIns == [] && orderBys == []
      ensures wheres == if settings.hasIsActive then [IsActiveClause()] else []
    {
      this.request := request;
      relations := model.relations;
      this.methods := methods;
      this.camel := camel;
      createdAt := model.createdAt;
      updatedAt := model.updatedAt;
      hasIsActive := settings.hasIsActive;
      defaultIsActive := settings.defaultIsActive;
      defaultPrimaryKey := settings.defaultPrimaryKey;
      filterField := settings.filterField;
      orderColumn := settings.orderColumn;
      orderDirection := settings.orderDirection;
      query := [];
      take := None;
      with := [];
      wheres := [];
      whereIns := [];
      orderBys := [];
      var active := IntText(settings.defaultIsActive);
      new;
      if hasIsActive {
        Where("is_active", active, "=");
      }
    }

    /** The columns a request may filter on. */
    function SearchableFields(): seq<string>
      reads this`filterField, this`defaultPrimaryKey
    {
      filterField + [defaultPrimaryKey, createdAt, updatedAt]
    }

    /** What the search stages read of the repository. */
    function SearchSetup(): Setup
      reads this`filterField, this`defaultPrimaryKey, this`orderColumn, this`orderDirection
    {
      Setup(SearchableFields(), orderColumn, orderDirection, relations, methods, camel)
    }

    // -------------------------------------------------------------------------
    // The accumulator, filled fluently

    method Where(column: string, value: string, operator: string)
      modifies this`wheres
      ensures wheres == old(wheres) + [WhereClause(column, value, operator)]
    {
      wheres := wheres + [WhereClause(column, value, operator)];
    }

    /** `whereIn` with an array of values. */
    method WhereIn(column: string, values: seq<string>)
      modifies this`whereIns
      ensures whereIns == old(whereIns) + [WhereInClause(column, values)]
    {
      whereIns := whereIns + [WhereInClause(column, values)];
    }

    /** `whereIn` with a single value, which is wrapped into a list. */
    method WhereInValue(column: string, value: string)
      modifies this`whereIns
      ensures whereIns == old(whereIns) + [WhereInClause(column, [value])]
    {
      WhereIn(column, [value]);
    }

    method OrderBy(column: string, direction: string)
      modifies this`orderBys
      ensures orderBys == old(orderBys) + [OrderClause(column, direction)]
    {
      orderBys := orderBys + [OrderClause(column, direction)];
    }

    method Limit(limit: int)
      modifies this`take
      ensures take == Some(limit)
    {
      take := Some(limit);
    }

    /** `with` given an array: the list of eager loads is replaced. */
    method With(relations: seq<string>)
      modifies this`with
      ensures with == relations
    {
      with := relations;
    }

    /** `with` given strings: all the arguments become the list. */
    method WithNames(relation: string, more: seq<string>)
      modifies this`with
      ensures with == [relation] + more
    {
      With([relation] + more);
    }

    method HasIsActive(value: bool)
      modifies this`hasIsActive
      ensures hasIsActive == value
    {
      hasIsActive := value;
    }

    method SetDefaultIsActive(value: int)
      modifies this`defaultIsActive
      ensures defaultIsActive == value
    {
      defaultIsActive := value;
    }

    method SetDefaultPrimaryKey(key: string)
      modifies this`defaultPrimaryKey
      ensures defaultPrimaryKey == key
    {
      defaultPrimaryKey := key;
    }

    method SetFilterField(fields: seq<string>)
      modifies this`filterField
      ensures filterField == fields
    {
      filterField := fields;
    }

    // -------------------------------------------------------------------------
    // Replaying and clearing the accumulator

    /** A fresh builder from the model. */
    method NewQuery()
      modifies this`query
      ensures query == []
    {
      query := [];
    }

    method EagerLoad()
      modifies this`query
      ensures query == old(query) + LoadCalls(with)
    {
      var i := 0;
      while i < |with|
        invariant 0 <= i <= |with|
        invariant query == old(query) + LoadCalls(with[..i])
      {
        ReplaySnoc(with, i, WithCall);
        query := query + [Call.With(with[i])];
        i := i + 1;
      }
      assert with[..|with|] == with;
    }

    method SetClauses()
      modifies this`query
      ensures query == old(query) + ClauseCalls(wheres, whereIns, orderBys, take)
    {
      ghost var q0 := query;
      var i := 0;
      while i < |wheres|
        invariant 0 <= i <= |wheres|
        invariant query == q0 + Replay(wheres[..i], WhereCall)
      {
        ReplaySnoc(wheres, i, WhereCall);
        AppendThree(q0, Replay(wheres[..i], WhereCall), [WhereCall(wheres[i])]);
        query := query + [Call.Where(wheres[i].column, wheres[i].operator, wheres[i].value)];
        i := i + 1;
      }
      assert wheres[..|wheres|] == wheres;
      ghost var q1 := query;
      i := 0;
      while i < |whereIns|
        invariant 0 <= i <= |whereIns|
        invariant query == q1 + Replay(whereIns[..i], WhereInCall)
      {
        ReplaySnoc(whereIns, i, WhereInCall);
        AppendThree(q1, Replay(whereIns[..i], WhereInCall), [WhereInCall(whereIns[i])]);
        query := query + [Call.WhereIn(whereIns[i].column, whereIns[i].values)];
        i := i + 1;
      }
      assert whereIns[..|whereIns|] == whereIns;
      ghost var q2 := query;
      i := 0;
      while i < |orderBys|
        invariant 0 <= i <= |orderBys|
        invariant query == q2 + Replay(orderBys[..i], OrderCall)
      {
        ReplaySnoc(orderBys, i, OrderCall);
        AppendThree(q2, Replay(orderBys[..i], OrderCall), [OrderCall(orderBys[i])]);
        query := query + [Call.OrderBy(orderBys[i].column, orderBys[i].direction)];
        i := i + 1;
      }
      assert orderBys[..|orderBys|] == orderBys;
      ghost var q3 := query;
      if take.Some? {
        query := query + [Take(take.value)];
      }
      assert query == q3 + TakeCalls(take);
      AppendFour(q0, Replay(wheres, WhereCall), Replay(whereIns, WhereInCall), Replay(orderBys, OrderCall), TakeCalls(take));
    }

    /** Clears the wheres, the whereIns and the limit; the orderBys and the
        eager loads stay. */
    method UnsetClauses()
      modifies this`wheres, this`whereIns, this`take
      ensures wheres == [] && whereIns == [] && take == None
    {
      wheres := [];
      whereIns := [];
      take := None;
    }

    // -------------------------------------------------------------------------
    // The search stages, each appending to the builder

    /** One entry of the `sort` loop of `applySorts`. */
    method ApplySort(entry: string)
      modifies this`query
      ensures query == old(query) + SortEntryCalls(entry)
    {
      var sd := Split(entry, ':');
      if |sd| == 2 {
        query := query + [Call.OrderBy(Trim(sd[0]), Trim(sd[1]))];
      }
    }

    method ApplySorts()
      modifies this`query
      ensures query == old(query) + SortCalls(Lookup(request, "sort"), orderColumn, orderDirection)
    {
      var sort := Lookup(request, "sort");
      if !Truthy(sort) {
        query := query + [Call.OrderBy(orderColumn, orderDirection)];
        return;
      }
      var sorts := Split(sort.value, ',');
      var i := 0;
      while i < |sorts|
        invariant 0 <= i <= |sorts|
        invariant query == old(query) + SortEntriesCalls(sorts[..i])
      {
        SortEntriesSnoc(sorts, i);
        ghost var before := query;
        ApplySort(sorts[i]);
        assert query == before + SortEntryCalls(sorts[i]);
        AppendThree(old(query), SortEntriesCalls(sorts[..i]), SortEntryCalls(sorts[i]));
        i := i + 1;
      }
      assert sorts[..|sorts|] == sorts;
    }

    /** One entry of the counter loop of `includeCounts`. */
    method IncludeCount(counter: string)
      modifies this`query
      ensures query == old(query) + CounterCalls(counter, methods, camel)
    {
      if HasMethod(methods, counter) {
        query := query + [WithCount(counter)];
      } else {
        var camelVersion := camel(counter);
        if HasMethod(methods, camelVersion) {
          query := query + [WithCount(camelVersion)];
        }
      }
    }

    method IncludeCounts()
      modifies this`query
      ensures query == old(query) + CountCalls(Lookup(request, "count"), Lookup(request, "with_count"), methods, camel)
    {
      var info := Lookup(request, "count");
      if info.None? {
        info := Lookup(request, "with_count");
      }
      if !Truthy(info) {
        return;
      }
      var counters := Split(info.value, ',');
      var i := 0;
      while i < |counters|
        invariant 0 <= i <= |counters|
        invariant query == old(query) + CountersCalls(counters[..i], methods, camel)
      {
        CountersSnoc(counters, i, methods, camel);
        ghost var before := query;
        IncludeCount(counters[i]);
        assert query == before + CounterCalls(counters[i], methods, camel);
        AppendThree(old(query), CountersCalls(counters[..i], methods, camel), CounterCalls(counters[i], methods, camel));
        i := i + 1;
      }
      assert counters[..|counters|] == counters;
    }

    /** One entry of the `contain` loop of `includeContains`. */
    method IncludeContain(item: string)
      modifies this`query
      ensures query == old(query) + ContainEntryCalls(item, relations, camel)
    {
      var entry := item;
      var camelVersion := camel(Trim(entry));
      if HasMethod(relations, camelVersion) || '.' in entry {
        if '.' in entry {
          // the entry is replaced by its camel-cased dotted path and not
          // read again: the eager load is the camel form of the whole
          // trimmed entry
          entry := DottedPath(entry);
        }
        query := query + [Call.With(camelVersion)];
      } else if HasMethod(relations, entry) || '.' in entry {
        query := query + [Call.With(Trim(entry))];
      }
    }

    method IncludeContains()
      modifies this`query
      ensures query == old(query) + ContainCalls(Lookup(request, "contain"), relations, camel)
    {
      var contain := Lookup(request, "contain");
      if !Truthy(contain) {
        return;
      }
      var contains := Split(contain.value, ',');
      var i := 0;
      while i < |contains|
        invariant 0 <= i <= |contains|
        invariant query == old(query) + ContainEntriesCalls(contains[..i], relations, camel)
      {
        ContainEntriesSnoc(contains, i, relations, camel);
        ghost var before := query;
        IncludeContain(contains[i]);
        assert query == before + ContainEntryCalls(contains[i], relations, camel);
        AppendThree(old(query), ContainEntriesCalls(contains[..i], relations, camel), ContainEntryCalls(contains[i], relations, camel));
        i := i + 1;
      }
      assert contains[..|contains|] == contains;
    }

    /** The camel-cased dotted path `includeContains` computes for a dotted
        entry: segment by segment, each in camel form. */
    method DottedPath(entry: string) returns (path: string)
      ensures path == CamelPath(entry, camel)
      ensures NoneContain(CamelEach(Split(entry, '.'), camel), '.') ==>
        |Split(path, '.')| == |Split(entry, '.')| &&
        forall i :: 0 <= i < |Split(entry, '.')| ==> Split(path, '.')[i] == camel(Split(entry, '.')[i])
    {
      path := CamelPath(entry, camel);
      if NoneContain(CamelEach(Split(entry, '.'), camel), '.') {
        CamelPathSegments(entry, camel);
      }
    }

    /** One round of the inner loop of `buildSearchParams`, on the
        lower-cased key: the clause of the rule when the key ends with its
        suffix and the rest of the key is a searchable field. */
    method ApplyOperator(key: string, value: string, fields: seq<string>, rule: (string, Operator))
      modifies this`query
      ensures query == old(query) + RuleCalls(key, value, fields, rule)
    {
      var opKey := Lower(rule.0);
      if EndsWith(key, opKey) {
        var column := ReplaceLast(opKey, "", key);
        if column in fields {
          if opKey == "_in" {
            query := query + [Call.WhereIn(column, Split(value, ','))];
          } else if opKey == Lower("_notIn") {
            query := query + [WhereNotIn(column, Split(value, ','))];
          } else if opKey == Lower("_isNull") {
            query := query + [WhereNull(column)];
          } else if opKey == Lower("_isNotNull") {
            query := query + [WhereNotNull(column)];
          } else if opKey == "_like" {
            query := query + [Call.Where(column, "LIKE", "%" + value + "%")];
          } else {
            match rule.1
            case Symbol(op) =>
              query := query + [Call.Where(column, op, value)];
            case Special =>
          }
        }
      }
    }

    /** The inner loop of `buildSearchParams`: every rule of the operator
        table in table order on the key, which is lower-cased again on each
        round. */
    method ApplyOperators(name: string, value: string, fields: seq<string>, rules: seq<(string, Operator)>)
      modifies this`query
      ensures query == old(query) + RulesCalls(Lower(name), value, fields, rules)
    {
      ghost var lowered := Lower(name);
      LowerIdempotent(name);
      var key := name;
      var j := 0;
      while j < |rules|
        invariant 0 <= j <= |rules|
        invariant key == name || key == lowered
        invariant query == old(query) + RulesCalls(lowered, value, fields, rules[..j])
      {
        RulesSnoc(lowered, value, fields, rules, j);
        key := Lower(key);
        ghost var before := query;
        ApplyOperator(key, value, fields, rules[j]);
        assert query == before + RuleCalls(lowered, value, fields, rules[j]);
        AppendThree(old(query), RulesCalls(lowered, value, fields, rules[..j]), RuleCalls(lowered, value, fields, rules[j]));
        j := j + 1;
      }
      assert rules[..|rules|] == rules;
    }

    method BuildSearchParams()
      modifies this`query
      ensures query == old(query) + FilterCalls(request, SearchableFields())
    {
      var fields := SearchableFields();
      var i := 0;
      while i < |request|
        invariant 0 <= i <= |request|
        invariant query == old(query) + FilterCalls(request[..i], fields)
      {
        FilterSnoc(request, i, fields);
        var key := request[i].0;
        var value := request[i].1;
        ghost var prefix := query;
        ghost var exact := ExactCalls(key, value, fields);
        ghost var rules := RulesCalls(Lower(key), value, fields, Operators);
        if key in fields {
          query := query + [Call.Where(key, "=", value)];
        }
        assert query == prefix + exact;
        ApplyOperators(key, value, fields, Operators);
        assert query == prefix + exact + rules;
        AppendThree(prefix, exact, rules);
        assert exact + rules == KeyCalls(request[i].0, request[i].1, fields);
        AppendThree(old(query), FilterCalls(request[..i], fields), KeyCalls(request[i].0, request[i].1, fields));
        i := i + 1;
      }
      assert request[..|request|] == request;
    }

    /** `searchBuilder`: sorts, counts, eager loads and filters, in that order,
        on the builder. */
    method SearchBuilder()
      modifies this`query
      ensures query == old(query) + SearchCalls(request, SearchSetup())
    {
      ApplySorts();
      IncludeCounts();
      IncludeContains();
      BuildSearchParams();
      AppendFour(old(query),
        SortCalls(Lookup(request, "sort"), orderColumn, orderDirection),
        CountCalls(Lookup(request, "count"), Lookup(request, "with_count"), methods, camel),
        ContainCalls(Lookup(request, "contain"), relations, camel),
        FilterCalls(request, SearchableFields()));
    }

    // -------------------------------------------------------------------------
    // Terminal operations

    /** `all`: the search on a fresh builder with the eager loads; the
        accumulated clauses are not applied, but they are cleared. */
    method All(columns: seq<string>) returns (e: Execution)
      modifies this`query, this`wheres, this`whereIns, this`take
      ensures e == Execution(LoadCalls(with) + SearchCalls(request, SearchSetup()), Fetch(columns))
      ensures query == e.calls
      ensures wheres == [] && whereIns == [] && take == None
    {
      ghost var search := SearchCalls(request, SearchSetup());
      NewQuery();
      EagerLoad();
      assert query == LoadCalls(with);
      SearchBuilder();
      assert query == LoadCalls(with) + search;
      e := Execution(query, Fetch(columns));
      UnsetClauses();
    }

    /** `get`: eager loads and every accumulated clause on a fresh builder;
        then the clauses are cleared. */
    method Get(columns: seq<string>) returns (e: Execution)
      modifies this`query, this`wheres, this`whereIns, this`take
      ensures e == Execution(LoadCalls(with) + ClauseCalls(old(wheres), old(whereIns), orderBys, old(take)), Fetch(columns))
      ensures query == e.calls
      ensures wheres == [] && whereIns == [] && take == None
    {
      ghost var clauses := ClauseCalls(wheres, whereIns, orderBys, take);
      NewQuery();
      EagerLoad();
      assert query == LoadCalls(with);
      SetClauses();
      assert query == LoadCalls(with) + clauses;
      e := Execution(query, Fetch(columns));
      UnsetClauses();
    }

    /** `count`: the rows `get` fetches, counted. */
    method Count() returns (e: Execution)
      modifies this`query, this`wheres, this`whereIns, this`take
      ensures e == Execution(LoadCalls(with) + ClauseCalls(old(wheres), old(whereIns), orderBys, old(take)), Fetch(["*"]))
      ensures query == e.calls
      ensures wheres == [] && whereIns == [] && take == None
    {
      e := Get(["*"]);
    }

    /** `first`: like `get` with `firstOrFail`; when no row is found the
        exception leaves the clauses in place. */
    method First(columns: seq<string>, found: bool) returns (e: Execution)
      modifies this`query, this`wheres, this`whereIns, this`take
      ensures e == Execution(LoadCalls(with) + ClauseCalls(old(wheres), old(whereIns), orderBys, old(take)), FirstOrFail(columns))
      ensures query == e.calls
      ensures found ==> wheres == [] && whereIns == [] && take == None
      ensures !found ==> wheres == old(wheres) && whereIns == old(whereIns) && take == old(take)
    {
      ghost var clauses := ClauseCalls(wheres, whereIns, orderBys, take);
      NewQuery();
      EagerLoad();
      assert query == LoadCalls(with);
      SetClauses();
      assert query == LoadCalls(with) + clauses;
      e := Execution(query, FirstOrFail(columns));
      if found {
        UnsetClauses();
      }
    }

    /** `find`: clears first, then looks the key up with the eager loads
        only. */
    method Find(id: string, columns: seq<string>) returns (e: Execution)
      modifies this`query, this`wheres, this`whereIns, this`take
      ensures e == Execution(LoadCalls(with), FindOrFail(id, columns))
      ensures query == e.calls
      ensures wheres == [] && whereIns == [] && take == None
    {
      UnsetClauses();
      NewQuery();
      EagerLoad();
      e := Execution(query, FindOrFail(id, columns));
    }

    /** `getByColumn`: clears first, then the first row whose column equals
        the item. */
    method GetByColumn(item: string, column: string, columns: seq<string>) returns (e: Execution)
      modifies this`query, this`wheres, this`whereIns, this`take
      ensures e == Execution(LoadCalls(with) + [Call.Where(column, "=", item)], FetchFirst(columns))
      ensures query == e.calls
      ensures wheres == [] && whereIns == [] && take == None
    {
      UnsetClauses();
      NewQuery();
      EagerLoad();
      query := query + [Call.Where(column, "=", item)];
      e := Execution(query, FetchFirst(columns));
    }

    method Paginate(limit: Scalar, columns: seq<string>, pageName: string, page: Option<string>) returns (e: Execution)
      modifies this`query, this`wheres, this`whereIns, this`take
      ensures e == Execution(LoadCalls(with) + ClauseCalls(old(wheres), old(whereIns), orderBys, old(take)), Terminal.Paginate(limit, columns, pageName, page))
      ensures query == e.calls
      ensures wheres == [] && whereIns == [] && take == None
    {
      ghost var clauses := ClauseCalls(wheres, whereIns, orderBys, take);
      NewQuery();
      EagerLoad();
      assert query == LoadCalls(with);
      SetClauses();
      assert query == LoadCalls(with) + clauses;
      e := Execution(query, Terminal.Paginate(limit, columns, pageName, page));
      UnsetClauses();
    }

    /** `delete`: the accumulated clauses without eager loads, then cleared. */
    method Delete() returns (e: Execution)
      modifies this`query, this`wheres, this`whereIns, this`take
      ensures e == Execution(ClauseCalls(old(wheres), old(whereIns), orderBys, old(take)), DeleteAll)
      ensures query == e.calls
      ensures wheres == [] && whereIns == [] && take == None
    {
      NewQuery();
      SetClauses();
      e := Execution(query, DeleteAll);
      UnsetClauses();
    }

    method Create(data: map<string, string>) returns (w: Write)
      modifies this`wheres, this`whereIns, this`take
      ensures w == Insert(data)
      ensures wheres == [] && whereIns == [] && take == None
    {
      UnsetClauses();
      w := Insert(data);
    }

    /** `createMultiple`: one insert per record, in order; each clears the
        clauses, so an empty list clears nothing. */
    method CreateMultiple(data: seq<map<string, string>>) returns (ws: seq<Write>)
      modifies this`wheres, this`whereIns, this`take
      ensures |ws| == |data| && forall i :: 0 <= i < |data| ==> ws[i] == Insert(data[i])
      ensures |data| > 0 ==> wheres == [] && whereIns == [] && take == None
      ensures |data| == 0 ==> wheres == old(wheres) && whereIns == old(whereIns) && take == old(take)
    {
      ws := [];
      var i := 0;
      while i < |data|
        invariant 0 <= i <= |data|
        invariant |ws| == i && forall k :: 0 <= k < i ==> ws[k] == Insert(data[k])
        invariant i > 0 ==> wheres == [] && whereIns == [] && take == None
        invariant i == 0 ==> wheres == old(wheres) && whereIns == old(whereIns) && take == old(take)
      {
        var w := Create(data[i]);
        ws := ws + [w];
        i := i + 1;
      }
    }

    /** `updateById`: looks the key up as `find` does and updates that
        model; no update happens when no row is found. */
    method UpdateById(id: string, data: map<string, string>, options: map<string, string>, found: bool) returns (w: Option<Write>)
      modifies this`query, this`wheres, this`whereIns, this`take
      ensures var lookup := Execution(LoadCalls(with), FindOrFail(id, ["*"]));
        w == (if found then Some(UpdateModel(lookup, data, options)) else None) && query == lookup.calls
      ensures wheres == [] && whereIns == [] && take == None
    {
      UnsetClauses();
      var lookup := Find(id, ["*"]);
      w := if found then Some(UpdateModel(lookup, data, options)) else None;
    }

    /** `deleteById`: looks the key up as `find` does and deletes that model. */
    method DeleteById(id: string, found: bool) returns (w: Option<Write>)
      modifies this`query, this`wheres, this`whereIns, this`take
      ensures var lookup := Execution(LoadCalls(with), FindOrFail(id, ["*"]));
        w == (if found then Some(DeleteModel(lookup)) else None) && query == lookup.calls
      ensures wheres == [] && whereIns == [] && take == None
    {
      UnsetClauses();
      var lookup := Find(id, ["*"]);
      w := if found then Some(DeleteModel(lookup)) else None;
    }

    /** `deleteMultipleById`: a destroy on the model; the builder and the
        accumulator are not touched. */
    method DeleteMultipleById(ids: seq<string>) returns (w: Write)
      ensures w == Destroy(ids)
    {
      w := Destroy(ids);
    }

    /** `search`: the request search on a fresh builder, paginated by the
        request's limit; no eager loads, and the accumulator is neither
        applied nor cleared. */
    method Search() returns (e: Execution)
      modifies this`query
      ensures e == Execution(SearchCalls(request, SearchSetup()), Terminal.Paginate(SearchLimit(request), ["*"], "page", None))
      ensures query == e.calls
    {
      NewQuery();
      SearchBuilder();
      e := Execution(query, Terminal.Paginate(SearchLimit(request), ["*"], "page", None));
    }
  }

  // ---------------------------------------------------------------------------
  // The lifecycle of one repository, call after call

  /** A single accumulated where, and nothing else, replays as its call. */
  lemma SingleWhere(w: WhereClause)
    ensures ClauseCalls([WhereClause(w.column, w.value, w.operator)], [], [], None) == [Where(w.column, w.operator, w.value)]
    ensures LoadCalls([]) == [] && ClauseCalls([], [], [], None) == []
  {
    ReplayOne(WhereClause(w.column, w.value, w.operator), WhereCall);
    assert ClauseCalls([WhereClause(w.column, w.value, w.operator)], [], [], None) == [Where(w.column, w.operator, w.value)] + [] + [] + [];
  }

  /** A repository that declares `is_active` applies that clause to its first
      `get` only: the clearing after it removes the clause for good. */
  method IsActiveOnlyOnce(active: int, request: Request, model: ModelInfo, methods: set<string>, camel: string -> string)
    returns (first: Execution, second: Execution)
    ensures first.calls == [Where("is_active", "=", IntText(active))]
    ensures second.calls == []
  {
    var settings := Settings(true, active, "id", [], "id", "desc");
    var r := new Repository(settings, request, model, methods, camel);
    first := r.Get(["*"]);
    second := r.Get(["*"]);
  }

  /** The clearing after `get` drops the wheres but keeps the orderBys and
      the eager loads, which the next `get` applies again. */
  method OrdersAndLoadsSurvive(w: WhereClause, o: OrderClause, relation: string, request: Request, model: ModelInfo, methods: set<string>, camel: string -> string)
    returns (first: Execution, second: Execution)
    ensures first.calls == [With(relation), Where(w.column, w.operator, w.value), OrderBy(o.column, o.direction)]
    ensures second.calls == [With(relation), OrderBy(o.column, o.direction)]
  {
    var r := new Repository(BaseSettings, request, model, methods, camel);
    r.With([relation]);
    r.Where(w.column, w.value, w.operator);
    r.OrderBy(o.column, o.direction);
    var w' := WhereClause(w.column, w.value, w.operator);
    var o' := OrderClause(o.column, o.direction);
    ReplayOne(relation, WithCall);
    ReplayOne(w', WhereCall);
    ReplayOne(o', OrderCall);
    assert ClauseCalls([w'], [], [o'], None) == [] + [Where(w.column, w.operator, w.value)] + [] + [OrderBy(o.column, o.direction)] + [];
    assert ClauseCalls([], [], [o'], None) == [] + [] + [OrderBy(o.column, o.direction)] + [];
    first := r.Get(["*"]);
    second := r.Get(["*"]);
  }

  /** When `first` finds no row the clauses stay, so the next query applies
      them again. */
  method FirstNotFoundKeepsClauses(w: WhereClause, request: Request, model: ModelInfo, methods: set<string>, camel: string -> string)
    returns (first: Execution, next: Execution)
    ensures first.calls == [Where(w.column, w.operator, w.value)] && first.terminal == FirstOrFail(["*"])
    ensures next.calls == first.calls
  {
    var r := new Repository(BaseSettings, request, model, methods, camel);
    r.Where(w.column, w.value, w.operator);
    SingleWhere(w);
    first := r.First(["*"], false);
    next := r.Get(["*"]);
  }

  /** `find` clears before it queries: the accumulated where is neither
      applied to it nor to the query after it. */
  method FindDropsClauses(w: WhereClause, id: string, request: Request, model: ModelInfo, methods: set<string>, camel: string -> string)
    returns (found: Execution, next: Execution)
    ensures found == Execution([], FindOrFail(id, ["*"]))
    ensures next.calls == []
  {
    var r := new Repository(BaseSettings, request, model, methods, camel);
    r.Where(w.column, w.value, w.operator);
    SingleWhere(w);
    found := r.Find(id, ["*"]);
    next := r.Get(["*"]);
  }

  /** `search` runs the request alone and leaves the accumulator as it was,
      so the where still applies to the next `get`. */
  method SearchKeepsClauses(w: WhereClause, request: Request, model: ModelInfo, methods: set<string>, camel: string -> string)
    returns (searched: Execution, next: Execution)
    ensures searched.calls == SearchCalls(request, Setup(["id", model.createdAt, model.updatedAt], "id", "desc", model.relations, methods, camel))
    ensures next.calls == [Where(w.column, w.operator, w.value)]
  {
    var r := new Repository(BaseSettings, request, model, methods, camel);
    r.Where(w.column, w.value, w.operator);
    SingleWhere(w);
    assert r.SearchSetup() == Setup(["id", model.createdAt, model.updatedAt], "id", "desc", model.relations, methods, camel) by {
      assert [] + ["id", model.createdAt, model.updatedAt] == ["id", model.createdAt, model.updatedAt];
    }
    searched := r.Search();
    next := r.Get(["*"]);
  }

  /** `all` runs the request search without the accumulated where, and
      still clears it. */
  method AllDropsClauses(w: WhereClause, request: Request, model: ModelInfo, methods: set<string>, camel: string -> string)
    returns (listed: Execution, next: Execution)
    ensures listed.calls == SearchCalls(request, Setup(["id", model.createdAt, model.updatedAt], "id", "desc", model.relations, methods, camel))
    ensures next.calls == []
  {
    var r := new Repository(BaseSettings, request, model, methods, camel);
    r.Where(w.column, w.value, w.operator);
    SingleWhere(w);
    assert r.SearchSetup() == Setup(["id", model.createdAt, model.updatedAt], "id", "desc", model.relations, methods, camel) by {
      assert [] + ["id", model.createdAt, model.updatedAt] == ["id", model.createdAt, model.updatedAt];
    }
    listed := r.All(["*"]);
    next := r.Get(["*"]);
  }

  /** `createMultiple` with no records inserts nothing and, as no `create`
      runs, clears nothing. */
  method CreateNoneKeepsClauses(w: WhereClause, request: Request, model: ModelInfo, methods: set<string>, camel: string -> string)
    returns (inserted: seq<Write>, next: Execution)
    ensures inserted == []
    ensures next.calls == [Where(w.column, w.operator, w.value)]
  {
    var r := new Repository(BaseSettings, request, model, methods, camel);
    r.Where(w.column, w.value, w.operator);
    SingleWhere(w);
    inserted := r.CreateMultiple([]);
    next := r.Get(["*"]);
  }
}

/** The request-driven search interpreter of the base repository, as pure
    functions from the request to the builder calls each stage emits:
    filters (`buildSearchParams`), sorts (`applySorts`), eager loads
    (`includeContains`), counts (`includeCounts`), and their composition
    (`searchBuilder`). The repository's methods are proved to emit exactly
    these calls. */
module Search {
  import opened Strings
  import opened Builder

  /** The request bag, in request order. PHP arrays have unique keys, so a
      key occurs at most once in practice; `Lookup` reads the first. */
  type Request = seq<(string, string)>

  function Lookup(request: Request, key: string): (r: Option<string>)
    ensures r.Some? <==> exists i :: 0 <= i < |request| && request[i].0 == key
    ensures r.Some? ==> exists i :: 0 <= i < |request| && request[i] == (key, r.value)
  {
    if |request| == 0 then None
    else if request[0].0 == key then Some(request[0].1)
    else
      var r := Lookup(request[1..], key);
      assert forall i :: 1 <= i < |request| ==> request[i] == request[1..][i - 1];
      r
  }

  // ---------------------------------------------------------------------------
  // Operator grammar

  /** What a suffix of the operator table stands for: a comparison operator
      passed to `where`, or `true` for the four suffixes with clauses of
      their own. */
  datatype Operator = Symbol(text: string) | Special

  /** The operator table of `buildSearchParams`, in its order and with its
      original spelling. */
  const Operators: seq<(string, Operator)> := [
    ("_not", Symbol("!=")),
    ("_gt", Symbol(">")),
    ("_lt", Symbol("<")),
    ("_gte", Symbol(">=")),
    ("_lte", Symbol("<=")),
    ("_like", Symbol("LIKE")),
    ("_in", Special),
    ("_notIn", Special),
    ("_isNull", Special),
    ("_isNotNull", Special)
  ]

  /** The suffixes as the loop compares them, after `strtolower`. */
  const Suffixes: seq<string> := [
    "_not", "_gt", "_lt", "_gte", "_lte", "_like", "_in", "_notin", "_isnull", "_isnotnull"
  ]

  lemma SuffixesAreLowered()
    ensures |Suffixes| == |Operators|
    ensures forall j :: 0 <= j < |Operators| ==> Lower(Operators[j].0) == Suffixes[j]
  {
    forall j | 0 <= j < |Operators| ensures Lower(Operators[j].0) == Suffixes[j] {
      var k := Operators[j].0;
      assert |Lower(k)| == |Suffixes[j]|;
      forall i | 0 <= i < |k| ensures Lower(k)[i] == Suffixes[j][i] {
        assert LowerChar(k[i]) == Suffixes[j][i];
      }
    }
  }

  /** The calls one operator rule emits for a (lower-cased) key: nothing
      unless the key ends with the rule's suffix and the key with its last
      occurrence of the suffix removed is a searchable field. */
  function RuleCalls(key: string, value: string, fields: seq<string>, rule: (string, Operator)): seq<Call> {
    var opKey := Lower(rule.0);
    if !EndsWith(key, opKey) then []
    else
      var column := ReplaceLast(opKey, "", key);
      if column !in fields then []
      else if opKey == "_in" then [WhereIn(column, Split(value, ','))]
      else if opKey == Lower("_notIn") then [WhereNotIn(column, Split(value, ','))]
      else if opKey == Lower("_isNull") then [WhereNull(column)]
      else if opKey == Lower("_isNotNull") then [WhereNotNull(column)]
      else if opKey == "_like" then [Where(column, "LIKE", "%" + value + "%")]
      else
        match rule.1
        case Symbol(op) => [Where(column, op, value)]
        // no entry of the table reaches this case (see SpecialSuffixesHandled)
        case Special => []
  }

  /** The inner loop of `buildSearchParams`: every rule in table order. */
  function RulesCalls(key: string, value: string, fields: seq<string>, rules: seq<(string, Operator)>): seq<Call> {
    if |rules| == 0 then []
    else RulesCalls(key, value, fields, rules[..|rules| - 1]) + RuleCalls(key, value, fields, rules[|rules| - 1])
  }

  /** The exact-name pass: an allow-listed key is an equality filter. */
  function ExactCalls(key: string, value: string, fields: seq<string>): seq<Call> {
    if key in fields then [Where(key, "=", value)] else []
  }

  /** All calls for one request key: the exact pass on the key as given, then
      the operator rules on the lower-cased key. */
  function KeyCalls(key: string, value: string, fields: seq<string>): seq<Call> {
    ExactCalls(key, value, fields) + RulesCalls(Lower(key), value, fields, Operators)
  }

  /** `buildSearchParams`: the calls for each request pair, in request order. */
  function FilterCalls(request: Request, fields: seq<string>): seq<Call> {
    if |request| == 0 then []
    else FilterCalls(request[..|request| - 1], fields) + KeyCalls(request[|request| - 1].0, request[|request| - 1].1, fields)
  }

  /** The clause kind each suffix of the grammar stands for, written as a
      table independent of the if-chain in RuleCalls. */
  function SuffixCall(j: nat, column: string, value: string): Call
    requires j < 10
  {
    if j == 0 then Where(column, "!=", value)
    else if j == 1 then Where(column, ">", value)
    else if j == 2 then Where(column, "<", value)
    else if j == 3 then Where(column, ">=", value)
    else if j == 4 then Where(column, "<=", value)
    else if j == 5 then Where(column, "LIKE", "%" + value + "%")
    else if j == 6 then WhereIn(column, Split(value, ','))
    else if j == 7 then WhereNotIn(column, Split(value, ','))
    else if j == 8 then WhereNull(column)
    else WhereNotNull(column)
  }

  /** Suffix `j` matches `key` and leaves an allow-listed column. */
  predicate SuffixApplies(key: string, fields: seq<string>, j: int)
    requires |Suffixes| == 10
  {
    0 <= j < 10 && EndsWith(key, Suffixes[j]) && key[..|key| - |Suffixes[j]|] in fields
  }

  /** The reference reading of the grammar for a lower-cased key: the clause
      of the suffix that applies to it, if one does. */
  ghost function SuffixClause(key: string, value: string, fields: seq<string>): seq<Call> {
    if exists j :: SuffixApplies(key, fields, j) then
      var j :| SuffixApplies(key, fields, j);
      [SuffixCall(j, key[..|key| - |Suffixes[j]|], value)]
    else []
  }

  /** Every suffix is `_` followed by letters only. */
  lemma SuffixShape(j: int)
    requires 0 <= j < |Suffixes|
    ensures |Suffixes[j]| >= 3 && UnderscoreWord(Suffixes[j])
  {
  }

  /** `_` followed by anything but `_`. */
  predicate UnderscoreWord(a: string) {
    |a| >= 1 && a[0] == '_' && forall i :: 1 <= i < |a| ==> a[i] != '_'
  }

  lemma UnderscoreSuffixOf(a: string, b: string, key: string)
    requires EndsWith(key, a) && EndsWith(key, b) && |a| <= |b|
    requires UnderscoreWord(a) && UnderscoreWord(b)
    ensures a == b
  {
    var d := |b| - |a|;
    assert b[d..] == a by {
      assert key[|key| - |b|..][d..] == key[|key| - |a|..];
    }
    assert b[d] == a[0];
    assert d == 0;
  }

  /** Two suffixes of one key that are both `_` followed by other characters
      are the same suffix. */
  lemma UnderscoreSuffixesEqual(key: string, a: string, b: string)
    requires EndsWith(key, a) && EndsWith(key, b)
    requires UnderscoreWord(a) && UnderscoreWord(b)
    ensures a == b
  {
    if |a| <= |b| {
      UnderscoreSuffixOf(a, b, key);
    } else {
      UnderscoreSuffixOf(b, a, key);
    }
  }

  lemma SuffixesDistinct()
    ensures forall i, j :: 0 <= i < j < |Suffixes| ==> Suffixes[i] != Suffixes[j]
  {
  }

  /** No key ends with two different suffixes of the table. */
  lemma SuffixesExclusive(key: string, i: int, j: int)
    requires 0 <= i < |Suffixes| && 0 <= j < |Suffixes|
    ensures EndsWith(key, Suffixes[i]) && EndsWith(key, Suffixes[j]) ==> i == j
  {
    SuffixShape(i);
    SuffixShape(j);
    if EndsWith(key, Suffixes[i]) && EndsWith(key, Suffixes[j]) {
      UnderscoreSuffixesEqual(key, Suffixes[i], Suffixes[j]);
      SuffixesDistinct();
    }
  }

  /** The four suffixes whose table entry is `true` are exactly the ones the
      if-chain names before it falls back to the entry's operator. */
  lemma SpecialSuffixesHandled(j: int)
    requires 0 <= j < |Operators|
    ensures Operators[j].1.Special? <==> Suffixes[j] in ["_in", "_notin", "_isnull", "_isnotnull"]
  {
  }

  /** How one rule of the if-chain reads in terms of the grammar table. */
  lemma RuleCallsAt(key: string, value: string, fields: seq<string>, j: int)
    requires 0 <= j < |Operators|
    ensures |Suffixes| == 10
    ensures RuleCalls(key, value, fields, Operators[j]) ==
      if SuffixApplies(key, fields, j) then [SuffixCall(j, key[..|key| - |Suffixes[j]|], value)] else []
  {
    SuffixesAreLowered();
    var opKey := Suffixes[j];
    assert Lower(Operators[j].0) == opKey;
    if EndsWith(key, opKey) {
      ReplaceLastOfSuffix(key, opKey);
      assert Lower("_notIn") == "_notin";
      assert Lower("_isNull") == "_isnull";
      assert Lower("_isNotNull") == "_isnotnull";
    }
  }

  lemma {:induction false} RulesCallsNone(key: string, value: string, fields: seq<string>, rules: seq<(string, Operator)>)
    requires forall i :: 0 <= i < |rules| ==> RuleCalls(key, value, fields, rules[i]) == []
    ensures RulesCalls(key, value, fields, rules) == []
  {
    if |rules| > 0 {
      RulesCallsNone(key, value, fields, rules[..|rules| - 1]);
    }
  }

  lemma {:induction false} RulesCallsOne(key: string, value: string, fields: seq<string>, rules: seq<(string, Operator)>, j: int)
    requires 0 <= j < |rules|
    requires forall i :: 0 <= i < |rules| && i != j ==> RuleCalls(key, value, fields, rules[i]) == []
    ensures RulesCalls(key, value, fields, rules) == RuleCalls(key, value, fields, rules[j])
  {
    var init := rules[..|rules| - 1];
    var last := RuleCalls(key, value, fields, rules[|rules| - 1]);
    assert RulesCalls(key, value, fields, rules) == RulesCalls(key, value, fields, init) + last;
    if j == |rules| - 1 {
      forall i | 0 <= i < |init| ensures RuleCalls(key, value, fields, init[i]) == [] {
        assert init[i] == rules[i];
      }
      RulesCallsNone(key, value, fields, init);
    } else {
      forall i | 0 <= i < |init| && i != j ensures RuleCalls(key, value, fields, init[i]) == [] {
        assert init[i] == rules[i];
      }
      RulesCallsOne(key, value, fields, init, j);
      assert init[j] == rules[j];
      assert last == [];
    }
  }

  /** The operator pass agrees with the grammar table: a key gets the clause
      of the one suffix that applies to it, or nothing. */
  lemma RulesCallsAreSuffixClause(key: string, value: string, fields: seq<string>)
    ensures RulesCalls(key, value, fields, Operators) == SuffixClause(key, value, fields)
  {
    SuffixesAreLowered();
    if exists j :: SuffixApplies(key, fields, j) {
      var j :| SuffixApplies(key, fields, j);
      RulesCallsApplies(key, value, fields, j);
      forall k | SuffixApplies(key, fields, k) ensures k == j {
        if k != j { SuffixesExclusive(key, k, j); }
      }
    } else {
      RulesCallsNoneApplies(key, value, fields);
    }
  }

  /** When suffix `j` applies, the operator pass gives its clause alone. */
  lemma RulesCallsApplies(key: string, value: string, fields: seq<string>, j: int)
    requires |Suffixes| == 10
    requires SuffixApplies(key, fields, j)
    ensures RulesCalls(key, value, fields, Operators) == [SuffixCall(j, key[..|key| - |Suffixes[j]|], value)]
  {
    forall i | 0 <= i < |Operators| && i != j
      ensures RuleCalls(key, value, fields, Operators[i]) == []
    {
      RuleCallsAt(key, value, fields, i);
      SuffixesExclusive(key, i, j);
    }
    RuleCallsAt(key, value, fields, j);
    RulesCallsOne(key, value, fields, Operators, j);
  }

  /** When no suffix applies, the operator pass gives nothing. */
  lemma RulesCallsNoneApplies(key: string, value: string, fields: seq<string>)
    requires |Suffixes| == 10
    requires forall j :: !SuffixApplies(key, fields, j)
    ensures RulesCalls(key, value, fields, Operators) == []
  {
    forall i | 0 <= i < |Operators|
      ensures RuleCalls(key, value, fields, Operators[i]) == []
    {
      RuleCallsAt(key, value, fields, i);
    }
    RulesCallsNone(key, value, fields, Operators);
  }

  /** The calls for one request key: an equality filter if the key as given is
      allow-listed, then at most one clause from the suffix grammar applied to
      the lower-cased key. */
  lemma KeyCallsSpec(key: string, value: string, fields: seq<string>)
    ensures KeyCalls(key, value, fields) == ExactCalls(key, value, fields) + SuffixClause(Lower(key), value, fields)
    ensures |KeyCalls(key, value, fields)| <= 2
  {
    RulesCallsAreSuffixClause(Lower(key), value, fields);
  }

  /** A lower-case column with a suffix of the table, spelled as the table
      spells it, resolves to that suffix's clause on the column. */
  lemma SuffixedKey(column: string, value: string, fields: seq<string>, j: int)
    requires 0 <= j < |Operators|
    requires column in fields && Lower(column) == column
    ensures |Suffixes| == 10
    ensures KeyCalls(column + Operators[j].0, value, fields) ==
      ExactCalls(column + Operators[j].0, value, fields) + [SuffixCall(j, column, value)]
  {
    SuffixesAreLowered();
    var key := column + Operators[j].0;
    LowerConcat(column, Operators[j].0);
    var k := Lower(key);
    assert k == column + Suffixes[j];
    assert k[..|k| - |Suffixes[j]|] == column;
    assert SuffixApplies(k, fields, j);
    forall i | SuffixApplies(k, fields, i) ensures i == j {
      if i != j { SuffixesExclusive(k, i, j); }
    }
    KeyCallsSpec(key, value, fields);
  }

  /** The suffix table, entry by entry (for lower-case allow-listed columns
      whose suffixed form is not itself allow-listed): in particular
      `_isNotNull` is never read as `_isNull`. */
  lemma SuffixGrammar(c: string, v: string, fields: seq<string>)
    requires c in fields && Lower(c) == c
    requires forall j :: 0 <= j < |Operators| ==> c + Operators[j].0 !in fields
    ensures KeyCalls(c + "_not", v, fields) == [Where(c, "!=", v)]
    ensures KeyCalls(c + "_gt", v, fields) == [Where(c, ">", v)]
    ensures KeyCalls(c + "_lt", v, fields) == [Where(c, "<", v)]
    ensures KeyCalls(c + "_gte", v, fields) == [Where(c, ">=", v)]
    ensures KeyCalls(c + "_lte", v, fields) == [Where(c, "<=", v)]
    ensures KeyCalls(c + "_like", v, fields) == [Where(c, "LIKE", "%" + v + "%")]
    ensures KeyCalls(c + "_in", v, fields) == [WhereIn(c, Split(v, ','))]
    ensures KeyCalls(c + "_notIn", v, fields) == [WhereNotIn(c, Split(v, ','))]
    ensures KeyCalls(c + "_isNull", v, fields) == [WhereNull(c)]
    ensures KeyCalls(c + "_isNotNull", v, fields) == [WhereNotNull(c)]
  {
    SuffixedKey(c, v, fields, 0);
    SuffixedKey(c, v, fields, 1);
    SuffixedKey(c, v, fields, 2);
    SuffixedKey(c, v, fields, 3);
    SuffixedKey(c, v, fields, 4);
    SuffixedKey(c, v, fields, 5);
    SuffixedKey(c, v, fields, 6);
    SuffixedKey(c, v, fields, 7);
    SuffixedKey(c, v, fields, 8);
    SuffixedKey(c, v, fields, 9);
  }

  /** The column a filter call restricts. */
  predicate FilterOn(call: Call, fields: seq<string>) {
    call.IsFilter() && call.column in fields
  }

  /** A key that is not allow-listed as given, and whose lower-cased form has
      no suffix leaving an allow-listed column, emits nothing and raises
      nothing. */
  lemma UnlistedKeyIgnored(key: string, value: string, fields: seq<string>)
    requires key !in fields
    requires forall j :: !SuffixApplies(Lower(key), fields, j)
    ensures KeyCalls(key, value, fields) == []
  {
    KeyCallsSpec(key, value, fields);
  }

  /** Every call `buildSearchParams` emits is a filter on an allow-listed
      column. */
  lemma {:induction false} FilterCallsAllowed(request: Request, fields: seq<string>)
    ensures forall i :: 0 <= i < |FilterCalls(request, fields)| ==> FilterOn(FilterCalls(request, fields)[i], fields)
  {
    if |request| > 0 {
      var (key, value) := request[|request| - 1];
      FilterCallsAllowed(request[..|request| - 1], fields);
      KeyCallsSpec(key, value, fields);
      var k := Lower(key);
      if exists j :: SuffixApplies(k, fields, j) {
        var j :| SuffixApplies(k, fields, j);
        assert |Suffixes| == 10;
      }
    }
  }

  /** Request pairs are processed in request order: the calls for a request
      are the calls for its first part followed by those for the rest. */
  lemma {:induction false} FilterCallsAppend(r1: Request, r2: Request, fields: seq<string>)
    ensures FilterCalls(r1 + r2, fields) == FilterCalls(r1, fields) + FilterCalls(r2, fields)
  {
    if |r2| == 0 {
      assert r1 + r2 == r1;
    } else {
      var r2' := r2[..|r2| - 1];
      var (key, value) := r2[|r2| - 1];
      var last := KeyCalls(key, value, fields);
      assert (r1 + r2)[..|r1 + r2| - 1] == r1 + r2';
      assert (r1 + r2)[|r1 + r2| - 1] == (key, value);
      assert FilterCalls(r1 + r2, fields) == FilterCalls(r1 + r2', fields) + last;
      assert FilterCalls(r2, fields) == FilterCalls(r2', fields) + last;
      FilterCallsAppend(r1, r2', fields);
      AppendThree(FilterCalls(r1, fields), FilterCalls(r2', fields), last);
    }
  }

  // ---------------------------------------------------------------------------
  // Sorts

  /** One `sort` entry: an `orderBy` of its trimmed halves when it has
      exactly one colon, nothing otherwise. */
  function SortEntryCalls(entry: string): seq<Call> {
    var sd := Split(entry, ':');
    if |sd| == 2 then [OrderBy(Trim(sd[0]), Trim(sd[1]))] else []
  }

  /** An entry orders by something exactly when it has one colon, and by
      one thing at most. */
  lemma SortEntryWellFormed(entry: string)
    ensures |SortEntryCalls(entry)| == 1 <==> multiset(entry)[':'] == 1
    ensures |SortEntryCalls(entry)| <= 1
  {
    SplitCount(entry, ':');
  }

  function SortEntriesCalls(entries: seq<string>): seq<Call> {
    if |entries| == 0 then []
    else SortEntriesCalls(entries[..|entries| - 1]) + SortEntryCalls(entries[|entries| - 1])
  }

  /** `applySorts`: the default order when `sort` is missing or falsy,
      otherwise one `orderBy` per well-formed comma entry and never the
      default (see SortEntryRaw and SortEntriesAt). */
  function SortCalls(sort: Option<string>, column: string, direction: string): (r: seq<Call>)
    ensures !Truthy(sort) ==> r == [OrderBy(column, direction)]
  {
    if !Truthy(sort) then [OrderBy(column, direction)]
    else SortEntriesCalls(Split(sort.value, ','))
  }

  /** A name with nothing to trim and no separator of the `sort` syntax. */
  predicate PlainName(s: string) {
    Trimmed(s) && ':' !in s && ',' !in s
  }

  /** Every call is an `orderBy` of plain names. */
  predicate PlainOrders(calls: seq<Call>) {
    forall i :: 0 <= i < |calls| ==> calls[i].OrderBy? && PlainName(calls[i].column) && PlainName(calls[i].direction)
  }

  lemma SortEntryShape(e: string)
    requires ',' !in e
    ensures PlainOrders(SortEntryCalls(e))
  {
    var sd := Split(e, ':');
    SplitPieces(e, ':');
    if |sd| == 2 {
      assert Join(sd, ':') == sd[0] + [':'] + sd[1];
      assert ',' !in sd[0] && ',' !in sd[1];
      assert ':' !in sd[0] && ':' !in sd[1];
      TrimKeeps(sd[0]);
      TrimKeeps(sd[1]);
      assert PlainName(Trim(sd[0])) && PlainName(Trim(sd[1]));
    }
  }

  lemma PlainOrdersConcat(a: seq<Call>, b: seq<Call>)
    requires PlainOrders(a) && PlainOrders(b)
    ensures PlainOrders(a + b)
  {
    forall i | 0 <= i < |a + b|
      ensures (a + b)[i].OrderBy? && PlainName((a + b)[i].column) && PlainName((a + b)[i].direction)
    {
      if i < |a| { assert (a + b)[i] == a[i]; } else { assert (a + b)[i] == b[i - |a|]; }
    }
  }

  lemma {:induction false} SortEntriesShape(entries: seq<string>)
    requires NoneContain(entries, ',')
    ensures |SortEntriesCalls(entries)| <= |entries|
    ensures PlainOrders(SortEntriesCalls(entries))
  {
    if |entries| > 0 {
      var init := entries[..|entries| - 1];
      var last := entries[|entries| - 1];
      assert NoneContain(init, ',') by {
        forall i | 0 <= i < |init| ensures ',' !in init[i] { assert init[i] == entries[i]; }
      }
      SortEntriesShape(init);
      SortEntryShape(last);
      assert SortEntriesCalls(entries) == SortEntriesCalls(init) + SortEntryCalls(last);
      PlainOrdersConcat(SortEntriesCalls(init), SortEntryCalls(last));
    }
  }

  /** A present `sort` calls `orderBy` only with plain names taken from its
      entries, at most one per entry. */
  lemma SortCallsShape(sort: Option<string>, column: string, direction: string)
    requires Truthy(sort)
    ensures |SortCalls(sort, column, direction)| <= |Split(sort.value, ',')|
    ensures PlainOrders(SortCalls(sort, column, direction))
  {
    SplitPieces(sort.value, ',');
    SortEntriesShape(Split(sort.value, ','));
  }

  lemma {:induction false} SortEntriesMalformed(entries: seq<string>)
    requires forall i :: 0 <= i < |entries| ==> multiset(entries[i])[':'] != 1
    ensures SortEntriesCalls(entries) == []
  {
    if |entries| > 0 {
      SortEntriesMalformed(entries[..|entries| - 1]);
      SortEntryWellFormed(entries[|entries| - 1]);
    }
  }

  /** A present `sort` none of whose entries has exactly one colon orders by
      nothing at all: the default is not used. */
  lemma SortAllMalformed(sort: Option<string>, column: string, direction: string)
    requires Truthy(sort)
    requires forall i :: 0 <= i < |Split(sort.value, ',')| ==> multiset(Split(sort.value, ',')[i])[':'] != 1
    ensures SortCalls(sort, column, direction) == []
  {
    SortEntriesMalformed(Split(sort.value, ','));
  }

  /** The `sort` entries for a list of (column, direction) pairs. */
  function SortEntries(pairs: seq<(string, string)>): (entries: seq<string>)
    ensures |entries| == |pairs|
  {
    if |pairs| == 0 then []
    else SortEntries(pairs[..|pairs| - 1]) + [pairs[|pairs| - 1].0 + ":" + pairs[|pairs| - 1].1]
  }

  /** The `sort` text for a list of (column, direction) pairs. */
  function SortText(pairs: seq<(string, string)>): string {
    Join(SortEntries(pairs), ',')
  }

  function OrderCalls(pairs: seq<(string, string)>): seq<Call> {
    if |pairs| == 0 then []
    else OrderCalls(pairs[..|pairs| - 1]) + [OrderBy(pairs[|pairs| - 1].0, pairs[|pairs| - 1].1)]
  }

  predicate PlainPairs(pairs: seq<(string, string)>) {
    forall i :: 0 <= i < |pairs| ==> PlainName(pairs[i].0) && PlainName(pairs[i].1)
  }

  lemma PlainPairsPrefix(pairs: seq<(string, string)>)
    requires |pairs| > 0 && PlainPairs(pairs)
    ensures PlainPairs(pairs[..|pairs| - 1])
    ensures PlainName(pairs[|pairs| - 1].0) && PlainName(pairs[|pairs| - 1].1)
  {
    var init := pairs[..|pairs| - 1];
    forall i | 0 <= i < |init| ensures PlainName(init[i].0) && PlainName(init[i].1) {
      assert init[i] == pairs[i];
    }
  }

  lemma {:induction false} SortEntriesOfPairs(pairs: seq<(string, string)>)
    requires PlainPairs(pairs)
    ensures SortEntriesCalls(SortEntries(pairs)) == OrderCalls(pairs)
  {
    if |pairs| > 0 {
      var init := pairs[..|pairs| - 1];
      var (c, d) := pairs[|pairs| - 1];
      PlainPairsPrefix(pairs);
      SortEntriesOfPairs(init);
      SortEntryOfPair(c, d);
      var entries := SortEntries(pairs);
      assert entries[..|entries| - 1] == SortEntries(init);
    }
  }

  lemma {:induction false} SortEntriesNoComma(pairs: seq<(string, string)>)
    requires PlainPairs(pairs)
    ensures NoneContain(SortEntries(pairs), ',')
  {
    if |pairs| > 0 {
      var init := pairs[..|pairs| - 1];
      var (c, d) := pairs[|pairs| - 1];
      PlainPairsPrefix(pairs);
      SortEntriesNoComma(init);
      SortEntryNoComma(c, d);
      var entries := SortEntries(pairs);
      assert entries == SortEntries(init) + [c + ":" + d];
      forall i | 0 <= i < |entries| ensures ',' !in entries[i] {
        if i < |init| { assert entries[i] == SortEntries(init)[i]; }
        else { assert entries[i] == c + ":" + d; }
      }
    }
  }

  lemma SortEntryOfPair(c: string, d: string)
    requires PlainName(c) && PlainName(d)
    ensures SortEntryCalls(c + ":" + d) == [OrderBy(c, d)]
  {
    var e := c + ":" + d;
    assert Join([c, d], ':') == e;
    assert NoneContain([c, d], ':');
    SplitJoin([c, d], ':');
    TrimOfTrimmed(c);
    TrimOfTrimmed(d);
  }

  /** A `col:dir` entry of plain names has no comma. */
  lemma SortEntryNoComma(c: string, d: string)
    requires PlainName(c) && PlainName(d)
    ensures ',' !in c + ":" + d
  {
    assert forall x :: x in c + ":" + d ==> x in c || x == ':' || x in d;
  }

  lemma JoinStartsWith(parts: seq<string>, sep: char)
    requires |parts| >= 1
    ensures |parts[0]| <= |Join(parts, sep)| && Join(parts, sep)[..|parts[0]|] == parts[0]
  {
  }

  /** A `sort` text built from at least one pair is truthy: it has a colon. */
  lemma SortTextTruthy(pairs: seq<(string, string)>)
    requires |pairs| >= 1
    ensures Truthy(Some(SortText(pairs)))
  {
    var entries := SortEntries(pairs);
    SortEntriesFirst(pairs);
    var c := pairs[0].0;
    assert entries[0][|c|] == ':';
    JoinStartsWith(entries, ',');
    assert SortText(pairs)[|c|] == ':';
  }

  /** Round trip: a `sort` written as `col:dir` pairs joined by commas orders
      by exactly those pairs, in order. */
  lemma SortRoundTrip(pairs: seq<(string, string)>, column: string, direction: string)
    requires |pairs| >= 1
    requires PlainPairs(pairs)
    ensures SortCalls(Some(SortText(pairs)), column, direction) == OrderCalls(pairs)
  {
    SortTextTruthy(pairs);
    SortEntriesNoComma(pairs);
    SplitJoin(SortEntries(pairs), ',');
    SortEntriesOfPairs(pairs);
  }

  lemma {:induction false} SortEntriesFirst(pairs: seq<(string, string)>)
    requires |pairs| >= 1
    ensures SortEntries(pairs)[0] == pairs[0].0 + ":" + pairs[0].1
  {
    if |pairs| > 1 {
      SortEntriesFirst(pairs[..|pairs| - 1]);
    }
  }

  /** Two plain pairs written `c1:d1,c2:d2` order by both, in order. */
  lemma SortTwoPairs(c1: string, d1: string, c2: string, d2: string, column: string, direction: string)
    requires PlainName(c1) && PlainName(d1) && PlainName(c2) && PlainName(d2)
    ensures SortCalls(Some(c1 + ":" + d1 + "," + c2 + ":" + d2), column, direction) == [OrderBy(c1, d1), OrderBy(c2, d2)]
  {
    var pairs := [(c1, d1), (c2, d2)];
    assert pairs[..1] == [(c1, d1)];
    assert pairs[..1][..0] == [];
    assert SortEntries(pairs) == [c1 + ":" + d1, c2 + ":" + d2];
    JoinCons(c1 + ":" + d1, [c2 + ":" + d2], ',');
    assert [c1 + ":" + d1] + [c2 + ":" + d2] == SortEntries(pairs);
    assert SortText(pairs) == c1 + ":" + d1 + "," + c2 + ":" + d2;
    assert OrderCalls(pairs[..1]) == [OrderBy(c1, d1)];
    assert OrderCalls(pairs) == [OrderBy(c1, d1), OrderBy(c2, d2)];
    SortRoundTrip(pairs, column, direction);
  }

  /** `sort=name:asc,age:desc` orders by name, then by age. */
  lemma SortExampleTwoPairs()
    ensures SortCalls(Some("name:asc,age:desc"), "id", "desc") == [OrderBy("name", "asc"), OrderBy("age", "desc")]
  {
    assert PlainName("name") && PlainName("asc") && PlainName("age") && PlainName("desc");
    assert "name" + ":" + "asc" + "," + "age" + ":" + "desc" == "name:asc,age:desc";
    SortTwoPairs("name", "asc", "age", "desc", "id", "desc");
  }

  /** A truthy `sort` that is one word without separators orders by
      nothing. */
  lemma SortOneWord(w: string, column: string, direction: string)
    requires Truthy(Some(w)) && ',' !in w && ':' !in w
    ensures SortCalls(Some(w), column, direction) == []
  {
    SplitNoSeparator(w, ',');
    SplitNoSeparator(w, ':');
    assert [w][..0] == [];
    assert SortEntryCalls(w) == [];
    assert SortEntriesCalls([w]) == SortEntriesCalls([]) + SortEntryCalls(w);
  }

  /** `sort=bogus` orders by nothing, not by the default. */
  lemma SortExampleBogus()
    ensures SortCalls(Some("bogus"), "id", "desc") == []
  {
    SortOneWord("bogus", "id", "desc");
  }

  /** No `sort`, an empty one or `0` gives the default order. */
  lemma SortExampleDefault()
    ensures SortCalls(None, "id", "desc") == [OrderBy("id", "desc")]
    ensures SortCalls(Some(""), "id", "desc") == [OrderBy("id", "desc")]
    ensures SortCalls(Some("0"), "id", "desc") == [OrderBy("id", "desc")]
  {
  }

  // ---------------------------------------------------------------------------
  // Relation inclusion and counts

  /** PHP `method_exists`: PHP resolves method names case-insensitively, so
      a name is a method of the class when some declared method agrees with
      it after lower-casing both. */
  predicate HasMethod(names: set<string>, name: string) {
    exists m :: m in names && Lower(m) == Lower(name)
  }

  /** Names that agree after lower-casing are the same method. */
  lemma HasMethodIgnoresCase(names: set<string>, a: string, b: string)
    requires Lower(a) == Lower(b)
    ensures HasMethod(names, a) <==> HasMethod(names, b)
  {
  }

  /** One `contain` entry: the camel form of the trimmed entry when that is a
      relation or the raw entry has a dot, else the trimmed entry when the raw
      entry is a relation, else nothing. */
  function ContainEntryCalls(entry: string, relations: set<string>, camel: string -> string): seq<Call> {
    var camelVersion := camel(Trim(entry));
    if HasMethod(relations, camelVersion) || '.' in entry then [With(camelVersion)]
    else if HasMethod(relations, entry) || '.' in entry then [With(Trim(entry))]
    else []
  }

  /** An entry loads at most one relation; a dotted entry always loads its
      camel form; and an entry loads nothing exactly when it has no dot and
      is a relation neither in camel form nor as written. */
  lemma ContainEntryShape(entry: string, relations: set<string>, camel: string -> string)
    ensures |ContainEntryCalls(entry, relations, camel)| <= 1
    ensures '.' in entry ==> ContainEntryCalls(entry, relations, camel) == [With(camel(Trim(entry)))]
    ensures ContainEntryCalls(entry, relations, camel) == [] <==>
      '.' !in entry && !HasMethod(relations, camel(Trim(entry))) && !HasMethod(relations, entry)
    ensures HasMethod(relations, camel(Trim(entry))) ==>
      ContainEntryCalls(entry, relations, camel) == [With(camel(Trim(entry)))]
    ensures '.' !in entry && !HasMethod(relations, camel(Trim(entry))) && HasMethod(relations, entry) ==>
      ContainEntryCalls(entry, relations, camel) == [With(Trim(entry))]
  {
  }

  /** The dotted-path normalisation `includeContains` computes for a dotted
      entry: each `.` segment in camel form, joined back with dots. Its
      result is assigned to the entry and never read. */
  function CamelPath(entry: string, camel: string -> string): string {
    Join(CamelEach(Split(entry, '.'), camel), '.')
  }

  /** `array_map` of the camel conversion. */
  function CamelEach(parts: seq<string>, camel: string -> string): seq<string> {
    if |parts| == 0 then [] else [camel(parts[0])] + CamelEach(parts[1..], camel)
  }

  /** `array_map` keeps the length and converts each segment in place. */
  lemma {:induction false} CamelEachAt(parts: seq<string>, camel: string -> string)
    ensures |CamelEach(parts, camel)| == |parts|
    ensures forall i :: 0 <= i < |parts| ==> CamelEach(parts, camel)[i] == camel(parts[i])
  {
    if |parts| > 0 {
      CamelEachAt(parts[1..], camel);
      forall i | 0 <= i < |parts| ensures CamelEach(parts, camel)[i] == camel(parts[i]) {
        if i > 0 { assert parts[1..][i - 1] == parts[i]; }
      }
    }
  }

  /** Splitting the dotted path at its dots gives back one segment per
      segment of the entry, each the camel form of that segment, as long as
      no camel form itself contains a dot. */
  lemma CamelPathSegments(entry: string, camel: string -> string)
    requires NoneContain(CamelEach(Split(entry, '.'), camel), '.')
    ensures |Split(CamelPath(entry, camel), '.')| == |Split(entry, '.')|
    ensures forall i :: 0 <= i < |Split(entry, '.')| ==>
      Split(CamelPath(entry, camel), '.')[i] == camel(Split(entry, '.')[i])
  {
    var parts := Split(entry, '.');
    CamelEachAt(parts, camel);
    SplitJoin(CamelEach(parts, camel), '.');
  }

  function ContainEntriesCalls(entries: seq<string>, relations: set<string>, camel: string -> string): seq<Call> {
    if |entries| == 0 then []
    else ContainEntriesCalls(entries[..|entries| - 1], relations, camel) + ContainEntryCalls(entries[|entries| - 1], relations, camel)
  }

  /** `includeContains`: nothing unless `contain` is truthy, then the calls of
      each comma entry in order. */
  function ContainCalls(contain: Option<string>, relations: set<string>, camel: string -> string): (r: seq<Call>)
    ensures !Truthy(contain) ==> r == []
  {
    if !Truthy(contain) then [] else ContainEntriesCalls(Split(contain.value, ','), relations, camel)
  }

  /** The eager load a `contain` entry produces: its camel form when that
      is a relation or the entry is dotted, and its trimmed raw name only
      when the entry is undotted, the camel form is not a relation and the
      raw name is. */
  predicate LoadFor(call: Call, entry: string, relations: set<string>, camel: string -> string) {
    call.With? &&
    ((call.relation == camel(Trim(entry)) && (HasMethod(relations, call.relation) || '.' in entry)) ||
     (call.relation == Trim(entry) && HasMethod(relations, entry) &&
      !HasMethod(relations, camel(Trim(entry))) && '.' !in entry))
  }

  /** Some entry of `entries` may produce `call`. */
  predicate LoadedBy(call: Call, entries: seq<string>, relations: set<string>, camel: string -> string) {
    exists e :: e in entries && LoadFor(call, e, relations, camel)
  }

  /** Every call is an eager load some entry may produce. */
  predicate LoadsFrom(calls: seq<Call>, entries: seq<string>, relations: set<string>, camel: string -> string) {
    forall i :: 0 <= i < |calls| ==> LoadedBy(calls[i], entries, relations, camel)
  }

  lemma LoadsFromConcat(a: seq<Call>, b: seq<Call>, init: seq<string>, e: string, relations: set<string>, camel: string -> string)
    requires LoadsFrom(a, init, relations, camel)
    requires forall i :: 0 <= i < |b| ==> LoadFor(b[i], e, relations, camel)
    ensures LoadsFrom(a + b, init + [e], relations, camel)
  {
    var entries := init + [e];
    forall i | 0 <= i < |a + b| ensures LoadedBy((a + b)[i], entries, relations, camel) {
      if i < |a| {
        assert (a + b)[i] == a[i];
        var e' :| e' in init && LoadFor(a[i], e', relations, camel);
        assert e' in entries;
      } else {
        assert (a + b)[i] == b[i - |a|];
        assert e in entries;
      }
    }
  }

  lemma ContainEntryLoads(e: string, relations: set<string>, camel: string -> string)
    ensures forall i :: 0 <= i < |ContainEntryCalls(e, relations, camel)| ==> LoadFor(ContainEntryCalls(e, relations, camel)[i], e, relations, camel)
  {
    var calls := ContainEntryCalls(e, relations, camel);
    var camelVersion := camel(Trim(e));
    if HasMethod(relations, camelVersion) || '.' in e {
      assert calls == [With(camelVersion)];
      assert LoadFor(calls[0], e, relations, camel);
    } else if HasMethod(relations, e) {
      assert calls == [With(Trim(e))];
      assert LoadFor(calls[0], e, relations, camel);
    } else {
      assert calls == [];
    }
  }

  /** An entry's calls are all eager loads. */
  lemma ContainEntryStage(e: string, relations: set<string>, camel: string -> string)
    ensures AllInStage(ContainEntryCalls(e, relations, camel), 2)
  {
    var calls := ContainEntryCalls(e, relations, camel);
    var camelVersion := camel(Trim(e));
    if HasMethod(relations, camelVersion) || '.' in e {
      assert calls == [With(camelVersion)];
    } else if HasMethod(relations, e) {
      assert calls == [With(Trim(e))];
    } else {
      assert calls == [];
    }
  }

  lemma {:induction false} ContainEntriesLength(entries: seq<string>, relations: set<string>, camel: string -> string)
    ensures |ContainEntriesCalls(entries, relations, camel)| <= |entries|
  {
    if |entries| > 0 {
      ContainEntriesLength(entries[..|entries| - 1], relations, camel);
    }
  }

  lemma {:induction false} ContainEntriesSound(entries: seq<string>, relations: set<string>, camel: string -> string)
    ensures LoadsFrom(ContainEntriesCalls(entries, relations, camel), entries, relations, camel)
  {
    if |entries| > 0 {
      var init := entries[..|entries| - 1];
      var e := entries[|entries| - 1];
      ContainEntriesSound(init, relations, camel);
      assert init + [e] == entries;
      ContainEntryLoads(e, relations, camel);
      LoadsFromConcat(ContainEntriesCalls(init, relations, camel), ContainEntryCalls(e, relations, camel), init, e, relations, camel);
    }
  }

  /** Each `contain` entry yields at most one eager load, and every eager load
      is a known relation (in camel or trimmed form) or a dotted path. */
  lemma ContainCallsSound(contain: Option<string>, relations: set<string>, camel: string -> string)
    requires Truthy(contain)
    ensures |ContainCalls(contain, relations, camel)| <= |Split(contain.value, ',')|
    ensures LoadsFrom(ContainCalls(contain, relations, camel), Split(contain.value, ','), relations, camel)
  {
    ContainEntriesLength(Split(contain.value, ','), relations, camel);
    ContainEntriesSound(Split(contain.value, ','), relations, camel);
  }

  /** The loads of a list are the loads of its parts, one after the other. */
  lemma {:induction false} ContainEntriesAppend(a: seq<string>, b: seq<string>, relations: set<string>, camel: string -> string)
    ensures ContainEntriesCalls(a + b, relations, camel) ==
      ContainEntriesCalls(a, relations, camel) + ContainEntriesCalls(b, relations, camel)
  {
    if |b| == 0 {
      assert a + b == a;
    } else {
      var init := b[..|b| - 1];
      var last := b[|b| - 1];
      ContainEntriesAppend(a, init, relations, camel);
      assert (a + b)[..|a + b| - 1] == a + init;
      assert (a + b)[|a + b| - 1] == last;
      var x := ContainEntriesCalls(a, relations, camel);
      var y := ContainEntriesCalls(init, relations, camel);
      var z := ContainEntryCalls(last, relations, camel);
      assert ContainEntriesCalls(b, relations, camel) == y + z;
      assert ContainEntriesCalls(a + b, relations, camel) == ContainEntriesCalls(a + init, relations, camel) + z;
      AppendThree(x, y, z);
    }
  }

  /** Each entry contributes exactly its own loads, at its own place: after
      the loads of the entries before it and before those of the entries
      after it. */
  lemma ContainEntriesAt(a: seq<string>, e: string, b: seq<string>, relations: set<string>, camel: string -> string)
    ensures ContainEntriesCalls(a + [e] + b, relations, camel) ==
      ContainEntriesCalls(a, relations, camel) + ContainEntryCalls(e, relations, camel) + ContainEntriesCalls(b, relations, camel)
  {
    ContainEntriesAppend(a + [e], b, relations, camel);
    ContainEntriesAppend(a, [e], relations, camel);
    assert [e][..0] == [];
  }

  /** A `contain` of three comma-free entries loads what each entry loads,
      in order. */
  lemma ContainThree(a: string, b: string, c: string, relations: set<string>, camel: string -> string)
    requires ',' !in a && ',' !in b && ',' !in c
    requires Truthy(Some(a + "," + b + "," + c))
    ensures ContainCalls(Some(a + "," + b + "," + c), relations, camel) ==
      ContainEntryCalls(a, relations, camel) + ContainEntryCalls(b, relations, camel) + ContainEntryCalls(c, relations, camel)
  {
    var entries := [a, b, c];
    JoinCons(b, [c], ',');
    JoinCons(a, [b, c], ',');
    assert [a] + [b, c] == entries && [b] + [c] == [b, c];
    assert Join(entries, ',') == a + "," + b + "," + c;
    SplitJoin(entries, ',');
    assert entries[..2] == [a, b] && [a, b][..1] == [a] && [a][..0] == [];
    var ca := ContainEntryCalls(a, relations, camel);
    var cb := ContainEntryCalls(b, relations, camel);
    var cc := ContainEntryCalls(c, relations, camel);
    assert ContainEntriesCalls([a], relations, camel) == ca;
    assert ContainEntriesCalls([a, b], relations, camel) == ca + cb;
    assert ContainEntriesCalls(entries, relations, camel) == ca + cb + cc;
  }

  lemma ContainExampleTrims()
    ensures Trim("author") == "author" && Trim("ghost") == "ghost"
  {
    TrimOfTrimmed("author");
    TrimOfTrimmed("ghost");
  }

  lemma ContainExampleDotted()
    ensures Trim("comments.user") == "comments.user" && '.' in "comments.user"
  {
    TrimOfTrimmed("comments.user");
    assert "comments.user"[8] == '.';
  }

  lemma ContainExampleKnown()
    ensures '.' !in "author" && '.' !in "ghost"
    ensures HasMethod({"author"}, "author") && !HasMethod({"author"}, "ghost")
  {
    assert Lower("author") == "author";
    assert Lower("ghost") == "ghost";
  }

  /** The entries of `contain=author,comments.user,ghost` with the one
      relation `author`: `author` is loaded, the dotted path is loaded in
      camel form, and the unknown `ghost` is dropped (ContainThree puts the
      three together, in order). */
  lemma ContainExample(camel: string -> string)
    requires camel("author") == "author" && camel("ghost") == "ghost"
    ensures ContainEntryCalls("author", {"author"}, camel) == [With("author")]
    ensures ContainEntryCalls("comments.user", {"author"}, camel) == [With(camel("comments.user"))]
    ensures ContainEntryCalls("ghost", {"author"}, camel) == []
  {
    ContainExampleTrims();
    ContainExampleDotted();
    ContainExampleKnown();
  }

  /** The directive `includeCounts` reads: `count`, and `with_count` only when
      `count` is absent altogether. */
  function CountDirective(count: Option<string>, withCount: Option<string>): Option<string> {
    if count.Some? then count else withCount
  }

  /** One `count` entry: as written if the repository has a method of that
      name, else in camel form if it has that one, else nothing. */
  function CounterCalls(counter: string, methods: set<string>, camel: string -> string): seq<Call> {
    if HasMethod(methods, counter) then [WithCount(counter)]
    else
      var camelVersion := camel(counter);
      if HasMethod(methods, camelVersion) then [WithCount(camelVersion)] else []
  }

  function CountersCalls(counters: seq<string>, methods: set<string>, camel: string -> string): seq<Call> {
    if |counters| == 0 then []
    else CountersCalls(counters[..|counters| - 1], methods, camel) + CounterCalls(counters[|counters| - 1], methods, camel)
  }

  /** `includeCounts`. */
  function CountCalls(count: Option<string>, withCount: Option<string>, methods: set<string>, camel: string -> string): (r: seq<Call>)
    ensures !Truthy(CountDirective(count, withCount)) ==> r == []
  {
    var info := CountDirective(count, withCount);
    if !Truthy(info) then [] else CountersCalls(Split(info.value, ','), methods, camel)
  }

  lemma {:induction false} CountersSound(counters: seq<string>, methods: set<string>, camel: string -> string)
    ensures |CountersCalls(counters, methods, camel)| <= |counters|
    ensures forall i :: 0 <= i < |CountersCalls(counters, methods, camel)| ==>
      var c := CountersCalls(counters, methods, camel)[i];
      c.WithCount? && HasMethod(methods, c.relation)
  {
    if |counters| > 0 {
      CountersSound(counters[..|counters| - 1], methods, camel);
    }
  }

  /** Every counted relation names a method of the repository, and each entry
      of the directive yields at most one count. */
  lemma CountCallsSound(count: Option<string>, withCount: Option<string>, methods: set<string>, camel: string -> string)
    ensures forall i :: 0 <= i < |CountCalls(count, withCount, methods, camel)| ==>
      var c := CountCalls(count, withCount, methods, camel)[i];
      c.WithCount? && HasMethod(methods, c.relation)
    ensures Truthy(CountDirective(count, withCount)) ==>
      |CountCalls(count, withCount, methods, camel)| <= |Split(CountDirective(count, withCount).value, ',')|
  {
    var info := CountDirective(count, withCount);
    if Truthy(info) {
      CountersSound(Split(info.value, ','), methods, camel);
    }
  }

  /** A relation declared in camel case is found whatever the case of the
      entry: `contain=createdbyuser` loads the declared `createdByUser` when
      the camel conversion leaves the entry as it is. */
  lemma ContainExampleCase(camel: string -> string)
    requires camel("createdbyuser") == "createdbyuser"
    ensures ContainEntryCalls("createdbyuser", {"createdByUser"}, camel) == [With("createdbyuser")]
  {
    TrimOfTrimmed("createdbyuser");
    assert Lower("createdByUser") == "createdbyuser";
    assert Lower("createdbyuser") == "createdbyuser";
    assert '.' !in "createdbyuser";
  }

  /** When both the camel form and the raw name are relations, the camel
      form is loaded. */
  lemma ContainCamelFirst(camel: string -> string)
    requires camel("created_by") == "createdBy"
    ensures ContainEntryCalls("created_by", {"createdBy", "created_by"}, camel) == [With("createdBy")]
  {
    TrimOfTrimmed("created_by");
    assert "createdBy" in {"createdBy", "created_by"};
  }

  /** `count` takes precedence: once present, even empty, `with_count` is
      ignored. */
  lemma CountPrecedence(count: string, withCount: Option<string>, methods: set<string>, camel: string -> string)
    ensures CountCalls(Some(count), withCount, methods, camel) == CountCalls(Some(count), None, methods, camel)
    ensures count == "" ==> CountCalls(Some(count), withCount, methods, camel) == []
  {
  }

  /** A counter yields at most one count: itself when it names a method of
      the repository, otherwise its camel form when that does, otherwise
      nothing. */
  lemma CounterShape(counter: string, methods: set<string>, camel: string -> string)
    ensures |CounterCalls(counter, methods, camel)| <= 1
    ensures HasMethod(methods, counter) ==> CounterCalls(counter, methods, camel) == [WithCount(counter)]
    ensures !HasMethod(methods, counter) && HasMethod(methods, camel(counter)) ==>
      CounterCalls(counter, methods, camel) == [WithCount(camel(counter))]
    ensures CounterCalls(counter, methods, camel) == [] <==>
      !HasMethod(methods, counter) && !HasMethod(methods, camel(counter))
  {
  }

  /** The counts of a list are the counts of its parts, one after the
      other. */
  lemma {:induction false} CountersAppend(a: seq<string>, b: seq<string>, methods: set<string>, camel: string -> string)
    ensures CountersCalls(a + b, methods, camel) == CountersCalls(a, methods, camel) + CountersCalls(b, methods, camel)
  {
    if |b| == 0 {
      assert a + b == a;
    } else {
      var init := b[..|b| - 1];
      var last := b[|b| - 1];
      CountersAppend(a, init, methods, camel);
      assert (a + b)[..|a + b| - 1] == a + init;
      assert (a + b)[|a + b| - 1] == last;
      var x := CountersCalls(a, methods, camel);
      var y := CountersCalls(init, methods, camel);
      var z := CounterCalls(last, methods, camel);
      assert CountersCalls(b, methods, camel) == y + z;
      assert CountersCalls(a + b, methods, camel) == CountersCalls(a + init, methods, camel) + z;
      AppendThree(x, y, z);
    }
  }

  /** Each counter contributes exactly its own count, at its own place. */
  lemma CountersAt(a: seq<string>, c: string, b: seq<string>, methods: set<string>, camel: string -> string)
    ensures CountersCalls(a + [c] + b, methods, camel) ==
      CountersCalls(a, methods, camel) + CounterCalls(c, methods, camel) + CountersCalls(b, methods, camel)
  {
    CountersAppend(a + [c], b, methods, camel);
    CountersAppend(a, [c], methods, camel);
    assert [c][..0] == [];
  }

  /** Any entry `a:b` with one colon orders by its trimmed halves. */
  lemma SortEntryRaw(a: string, b: string)
    requires ':' !in a && ':' !in b
    ensures SortEntryCalls(a + ":" + b) == [OrderBy(Trim(a), Trim(b))]
  {
    assert Join([a, b], ':') == a + ":" + b;
    SplitJoin([a, b], ':');
  }

  /** The orders of a list of sort entries split over concatenation. */
  lemma {:induction false} SortEntriesAppend(a: seq<string>, b: seq<string>)
    ensures SortEntriesCalls(a + b) == SortEntriesCalls(a) + SortEntriesCalls(b)
  {
    if |b| == 0 {
      assert a + b == a;
    } else {
      var init := b[..|b| - 1];
      var last := b[|b| - 1];
      SortEntriesAppend(a, init);
      assert (a + b)[..|a + b| - 1] == a + init;
      assert (a + b)[|a + b| - 1] == last;
      var x := SortEntriesCalls(a);
      var y := SortEntriesCalls(init);
      var z := SortEntryCalls(last);
      assert SortEntriesCalls(b) == y + z;
      assert SortEntriesCalls(a + b) == SortEntriesCalls(a + init) + z;
      AppendThree(x, y, z);
    }
  }

  /** Each sort entry contributes exactly its own order, at its own place;
      a malformed entry contributes nothing and leaves its neighbours in
      place. */
  lemma SortEntriesAt(a: seq<string>, e: string, b: seq<string>)
    ensures SortEntriesCalls(a + [e] + b) == SortEntriesCalls(a) + SortEntryCalls(e) + SortEntriesCalls(b)
  {
    SortEntriesAppend(a + [e], b);
    SortEntriesAppend(a, [e]);
    assert [e][..0] == [];
  }

  /** A malformed entry between two well-formed ones is dropped in place. */
  lemma SortEntriesMixed(a: string, b: string, w: string, c: string, d: string)
    requires ':' !in a && ':' !in b && ':' !in c && ':' !in d && ':' !in w
    ensures SortEntriesCalls([a + ":" + b, w, c + ":" + d]) == [OrderBy(Trim(a), Trim(b)), OrderBy(Trim(c), Trim(d))]
  {
    var e1 := a + ":" + b;
    var e3 := c + ":" + d;
    SortEntryRaw(a, b);
    SortEntryRaw(c, d);
    SplitNoSeparator(w, ':');
    assert SortEntryCalls(w) == [];
    SortEntriesAt([e1], w, [e3]);
    assert [e1] + [w] + [e3] == [e1, w, e3];
    assert SortEntriesCalls([e1]) == SortEntryCalls(e1) by { assert [e1][..0] == []; }
    assert SortEntriesCalls([e3]) == SortEntryCalls(e3) by { assert [e3][..0] == []; }
  }

  /** The comma entries of `a:b,w,c:d`, when no part has a comma. */
  lemma SplitThree(e1: string, w: string, e3: string)
    requires ',' !in e1 && ',' !in w && ',' !in e3
    ensures Split(e1 + "," + w + "," + e3, ',') == [e1, w, e3]
  {
    JoinCons(e1, [w, e3], ',');
    JoinCons(w, [e3], ',');
    assert Join([e3], ',') == e3;
    assert Join([e1, w, e3], ',') == e1 + "," + w + "," + e3;
    SplitJoin([e1, w, e3], ',');
  }

  /** A sort text `a:b,w,c:d` whose middle entry has no colon orders by the
      trimmed halves of the first and the third entry, in that order. */
  lemma SortMixed(a: string, b: string, w: string, c: string, d: string, column: string, direction: string)
    requires ':' !in a && ':' !in b && ':' !in c && ':' !in d && ':' !in w
    requires ',' !in a && ',' !in b && ',' !in c && ',' !in d && ',' !in w
    ensures SortCalls(Some(a + ":" + b + "," + w + "," + c + ":" + d), column, direction) ==
      [OrderBy(Trim(a), Trim(b)), OrderBy(Trim(c), Trim(d))]
  {
    var e1 := a + ":" + b;
    var e3 := c + ":" + d;
    var text := e1 + "," + w + "," + e3;
    assert a + ":" + b + "," + w + "," + c + ":" + d == text;
    assert ',' !in e1 && ',' !in e3;
    SplitThree(e1, w, e3);
    assert text[|a|] == ':';
    assert Truthy(Some(text));
    SortEntriesMixed(a, b, w, c, d);
  }

  // ---------------------------------------------------------------------------
  // One more entry: how each stage's calls grow as its loop advances

  lemma SortEntriesSnoc(entries: seq<string>, i: int)
    requires 0 <= i < |entries|
    ensures SortEntriesCalls(entries[..i + 1]) == SortEntriesCalls(entries[..i]) + SortEntryCalls(entries[i])
  {
    assert entries[..i + 1][..i] == entries[..i];
  }

  lemma CountersSnoc(counters: seq<string>, i: int, methods: set<string>, camel: string -> string)
    requires 0 <= i < |counters|
    ensures CountersCalls(counters[..i + 1], methods, camel) == CountersCalls(counters[..i], methods, camel) + CounterCalls(counters[i], methods, camel)
  {
    assert counters[..i + 1][..i] == counters[..i];
  }

  lemma ContainEntriesSnoc(entries: seq<string>, i: int, relations: set<string>, camel: string -> string)
    requires 0 <= i < |entries|
    ensures ContainEntriesCalls(entries[..i + 1], relations, camel) ==
      ContainEntriesCalls(entries[..i], relations, camel) + ContainEntryCalls(entries[i], relations, camel)
  {
    assert entries[..i + 1][..i] == entries[..i];
  }

  lemma RulesSnoc(key: string, value: string, fields: seq<string>, rules: seq<(string, Operator)>, j: int)
    requires 0 <= j < |rules|
    ensures RulesCalls(key, value, fields, rules[..j + 1]) ==
      RulesCalls(key, value, fields, rules[..j]) + RuleCalls(key, value, fields, rules[j])
  {
    assert rules[..j + 1][..j] == rules[..j];
  }

  lemma FilterSnoc(request: Request, i: int, fields: seq<string>)
    requires 0 <= i < |request|
    ensures FilterCalls(request[..i + 1], fields) ==
      FilterCalls(request[..i], fields) + KeyCalls(request[i].0, request[i].1, fields)
  {
    assert request[..i + 1][..i] == request[..i];
  }

  // ---------------------------------------------------------------------------
  // The search pipeline

  /** The configuration the search stages read. */
  datatype Setup = Setup(
    fields: seq<string>,         // filterField ++ [primary key, created-at, updated-at]
    orderColumn: string,
    orderDirection: string,
    relations: set<string>,      // methods of the model
    methods: set<string>,        // methods of the repository
    camel: string -> string)     // Str::camel

  /** `searchBuilder`: sorts, then counts, then eager loads, then filters, all
      on one builder. */
  function SearchCalls(request: Request, setup: Setup): seq<Call> {
    SortCalls(Lookup(request, "sort"), setup.orderColumn, setup.orderDirection)
    + CountCalls(Lookup(request, "count"), Lookup(request, "with_count"), setup.methods, setup.camel)
    + ContainCalls(Lookup(request, "contain"), setup.relations, setup.camel)
    + FilterCalls(request, setup.fields)
  }

  /** The stage a call belongs to. */
  function Stage(call: Call): nat {
    match call
    case OrderBy(_, _) => 0
    case WithCount(_) => 1
    case With(_) => 2
    case Take(_) => 4
    case _ => 3
  }

  predicate AllInStage(calls: seq<Call>, s: nat) {
    forall i :: 0 <= i < |calls| ==> Stage(calls[i]) == s
  }

  predicate Staged(calls: seq<Call>) {
    forall i, j :: 0 <= i <= j < |calls| ==> Stage(calls[i]) <= Stage(calls[j])
  }

  lemma AllInStageConcat(a: seq<Call>, b: seq<Call>, s: nat)
    requires AllInStage(a, s) && AllInStage(b, s)
    ensures AllInStage(a + b, s)
  {
    forall i | 0 <= i < |a + b| ensures Stage((a + b)[i]) == s {
      if i < |a| { assert (a + b)[i] == a[i]; } else { assert (a + b)[i] == b[i - |a|]; }
    }
  }

  lemma {:induction false} SortEntriesStage(entries: seq<string>)
    ensures AllInStage(SortEntriesCalls(entries), 0)
  {
    if |entries| > 0 {
      var init := entries[..|entries| - 1];
      SortEntriesStage(init);
      AllInStageConcat(SortEntriesCalls(init), SortEntryCalls(entries[|entries| - 1]), 0);
    }
  }

  lemma {:induction false} ContainEntriesStage(entries: seq<string>, relations: set<string>, camel: string -> string)
    ensures AllInStage(ContainEntriesCalls(entries, relations, camel), 2)
  {
    if |entries| > 0 {
      var init := entries[..|entries| - 1];
      ContainEntriesStage(init, relations, camel);
      ContainEntryStage(entries[|entries| - 1], relations, camel);
      AllInStageConcat(ContainEntriesCalls(init, relations, camel), ContainEntryCalls(entries[|entries| - 1], relations, camel), 2);
    }
  }

  /** The calls up to some stage, in stage order. */
  predicate StagedUpTo(calls: seq<Call>, s: nat) {
    Staged(calls) && forall i :: 0 <= i < |calls| ==> Stage(calls[i]) <= s
  }

  lemma StagedStart(a: seq<Call>, s: nat)
    requires AllInStage(a, s)
    ensures StagedUpTo(a, s)
  {
  }

  lemma StagedConcat(a: seq<Call>, b: seq<Call>, sa: nat, sb: nat)
    requires StagedUpTo(a, sa) && AllInStage(b, sb)
    requires sa <= sb
    ensures StagedUpTo(a + b, sb)
  {
  }

  lemma SortCallsStage(sort: Option<string>, column: string, direction: string)
    ensures AllInStage(SortCalls(sort, column, direction), 0)
  {
    if Truthy(sort) {
      SortEntriesStage(Split(sort.value, ','));
    }
  }

  lemma CountCallsStage(count: Option<string>, withCount: Option<string>, methods: set<string>, camel: string -> string)
    ensures AllInStage(CountCalls(count, withCount, methods, camel), 1)
  {
    CountCallsSound(count, withCount, methods, camel);
  }

  lemma ContainCallsStage(contain: Option<string>, relations: set<string>, camel: string -> string)
    ensures AllInStage(ContainCalls(contain, relations, camel), 2)
  {
    if Truthy(contain) {
      ContainEntriesStage(Split(contain.value, ','), relations, camel);
    }
  }

  lemma FilterCallsStage(request: Request, fields: seq<string>)
    ensures AllInStage(FilterCalls(request, fields), 3)
  {
    FilterCallsAllowed(request, fields);
  }

  lemma FilterColumnsAllowed(prefix: seq<Call>, request: Request, fields: seq<string>)
    requires forall i :: 0 <= i < |prefix| ==> !prefix[i].IsFilter()
    ensures forall i :: 0 <= i < |prefix + FilterCalls(request, fields)| && (prefix + FilterCalls(request, fields))[i].IsFilter() ==>
      (prefix + FilterCalls(request, fields))[i].column in fields
  {
    FilterCallsAllowed(request, fields);
    var all := prefix + FilterCalls(request, fields);
    forall i | 0 <= i < |all| && all[i].IsFilter() ensures all[i].column in fields {
      if i >= |prefix| {
        assert all[i] == FilterCalls(request, fields)[i - |prefix|];
      }
    }
  }

  /** The search stages never interleave: every sort comes before every
      count, every count before every eager load and every eager load before
      every filter; the filters name allow-listed columns only; and without a
      usable `sort` the first call is the default order. */
  lemma SearchCallsStaged(request: Request, setup: Setup)
    ensures Staged(SearchCalls(request, setup))
    ensures forall i :: 0 <= i < |SearchCalls(request, setup)| && SearchCalls(request, setup)[i].IsFilter() ==>
      SearchCalls(request, setup)[i].column in setup.fields
    ensures !Truthy(Lookup(request, "sort")) ==>
      SearchCalls(request, setup)[0] == OrderBy(setup.orderColumn, setup.orderDirection)
  {
    var sorts := SortCalls(Lookup(request, "sort"), setup.orderColumn, setup.orderDirection);
    var counts := CountCalls(Lookup(request, "count"), Lookup(request, "with_count"), setup.methods, setup.camel);
    var contains := ContainCalls(Lookup(request, "contain"), setup.relations, setup.camel);
    var filters := FilterCalls(request, setup.fields);
    SortCallsStage(Lookup(request, "sort"), setup.orderColumn, setup.orderDirection);
    CountCallsStage(Lookup(request, "count"), Lookup(request, "with_count"), setup.methods, setup.camel);
    ContainCallsStage(Lookup(request, "contain"), setup.relations, setup.camel);
    FilterCallsStage(request, setup.fields);
    StagedStart(sorts, 0);
    StagedConcat(sorts, counts, 0, 1);
    StagedConcat(sorts + counts, contains, 1, 2);
    StagedConcat(sorts + counts + contains, filters, 2, 3);
    var prefix := sorts + counts + contains;
    assert forall i :: 0 <= i < |prefix| ==> Stage(prefix[i]) <= 2;
    FilterColumnsAllowed(prefix, request, setup.fields);
  }

  lemma {:induction false} FilterCallsThree(p1: (string, string), p2: (string, string), p3: (string, string), fields: seq<string>)
    ensures FilterCalls([p1, p2, p3], fields) ==
      KeyCalls(p1.0, p1.1, fields) + KeyCalls(p2.0, p2.1, fields) + KeyCalls(p3.0, p3.1, fields)
  {
    var r := [p1, p2, p3];
    assert r[..2] == [p1, p2] && [p1, p2][..1] == [p1] && [p1][..0] == [];
    assert FilterCalls([p1], fields) == KeyCalls(p1.0, p1.1, fields);
    assert FilterCalls([p1, p2], fields) == KeyCalls(p1.0, p1.1, fields) + KeyCalls(p2.0, p2.1, fields);
  }

  /** The fields of the end-to-end scenario: `name` and `status`, then the
      primary key and the two timestamps. */
  const ExampleFields: seq<string> := ["name", "status", "id", "created_at", "updated_at"]

  lemma ExampleStatusNot()
    ensures KeyCalls("status_not", "draft", ExampleFields) == [Where("status", "!=", "draft")]
  {
    assert "status_not" == "status" + Operators[0].0;
    assert Lower("status") == "status";
    assert "status_not" !in ExampleFields;
    SuffixedKey("status", "draft", ExampleFields, 0);
  }

  lemma ExampleNameLike()
    ensures KeyCalls("name_like", "Jo", ExampleFields) == [Where("name", "LIKE", "%Jo%")]
  {
    assert "name_like" == "name" + Operators[5].0;
    assert Lower("name") == "name";
    assert "name_like" !in ExampleFields;
    assert "%" + "Jo" + "%" == "%Jo%";
    SuffixedKey("name", "Jo", ExampleFields, 5);
  }

  /** Every suffix starts with `_`, so a key without one has none. */
  lemma NoUnderscoreNoSuffix(key: string, j: int)
    requires 0 <= j < |Suffixes| && '_' !in key
    ensures !EndsWith(key, Suffixes[j])
  {
    SuffixShape(j);
    SuffixStartIn(key, Suffixes[j]);
  }

  /** The first character of a non-empty suffix occurs in the string. */
  lemma SuffixStartIn(s: string, t: string)
    ensures EndsWith(s, t) && |t| >= 1 ==> t[0] in s
  {
    if EndsWith(s, t) && |t| >= 1 {
      assert s[|s| - |t|] == t[0];
    }
  }

  lemma ExampleSortKey()
    ensures KeyCalls("sort", "id:desc", ExampleFields) == []
  {
    assert Lower("sort") == "sort";
    assert '_' !in "sort";
    forall j | true ensures !SuffixApplies("sort", ExampleFields, j) {
      if 0 <= j < 10 {
        NoUnderscoreNoSuffix("sort", j);
      }
    }
    UnlistedKeyIgnored("sort", "id:desc", ExampleFields);
  }

  lemma ExampleSort()
    ensures SortCalls(Some("id:desc"), "id", "desc") == [OrderBy("id", "desc")]
  {
    var pairs := [("id", "desc")];
    assert pairs[..0] == [];
    assert PlainName("id") && PlainName("desc");
    assert SortText(pairs) == "id:desc";
    SortRoundTrip(pairs, "id", "desc");
  }

  lemma LookupThree(p1: (string, string), p2: (string, string), p3: (string, string), key: string)
    ensures Lookup([p1, p2, p3], key) ==
      if p1.0 == key then Some(p1.1) else if p2.0 == key then Some(p2.1) else if p3.0 == key then Some(p3.1) else None
  {
    var r := [p1, p2, p3];
    assert r[1..] == [p2, p3] && [p2, p3][1..] == [p3] && [p3][1..] == [];
    assert Lookup([p3], key) == if p3.0 == key then Some(p3.1) else None;
    assert Lookup([p2, p3], key) == if p2.0 == key then Some(p2.1) else Lookup([p3], key);
  }

  lemma ExampleFilters(request: Request)
    requires request == [("status_not", "draft"), ("name_like", "Jo"), ("sort", "id:desc")]
    ensures FilterCalls(request, ExampleFields) == [Where("status", "!=", "draft"), Where("name", "LIKE", "%Jo%")]
  {
    FilterCallsThree(request[0], request[1], request[2], ExampleFields);
    ExampleStatusNot();
    ExampleNameLike();
    ExampleSortKey();
  }

  /** Without `count`, `with_count` and `contain` the search is its sorts
      followed by its filters. */
  lemma SearchCallsQuiet(request: Request, setup: Setup)
    requires Lookup(request, "count") == None && Lookup(request, "with_count") == None
    requires Lookup(request, "contain") == None
    ensures SearchCalls(request, setup) ==
      SortCalls(Lookup(request, "sort"), setup.orderColumn, setup.orderDirection) + FilterCalls(request, setup.fields)
  {
    assert CountCalls(None, None, setup.methods, setup.camel) == [];
    assert ContainCalls(None, setup.relations, setup.camel) == [];
  }

  /** The end-to-end scenario: request `status_not=draft&name_like=Jo&sort=id:desc`
      orders by id descending, then filters status != draft and name LIKE
      %Jo%; no count and no eager load is asked for. */
  lemma SearchExample(request: Request, relations: set<string>, methods: set<string>, camel: string -> string)
    requires request == [("status_not", "draft"), ("name_like", "Jo"), ("sort", "id:desc")]
    ensures SearchCalls(request, Setup(ExampleFields, "id", "desc", relations, methods, camel))
      == [OrderBy("id", "desc"), Where("status", "!=", "draft"), Where("name", "LIKE", "%Jo%")]
  {
    LookupThree(request[0], request[1], request[2], "sort");
    LookupThree(request[0], request[1], request[2], "count");
    LookupThree(request[0], request[1], request[2], "with_count");
    LookupThree(request[0], request[1], request[2], "contain");
    SearchCallsQuiet(request, Setup(ExampleFields, "id", "desc", relations, methods, camel));
    ExampleSort();
    ExampleFilters(request);
  }
}

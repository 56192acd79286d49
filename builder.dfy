/** The Eloquent query builder as seen by the repository: a log of the calls
    made on it, and the terminal call that finally executes it. */
module Builder {
  import opened Strings

  /** One call on the query builder. */
  datatype Call =
    | Where(column: string, operator: string, value: string)
    | WhereIn(column: string, values: seq<string>)
    | WhereNotIn(column: string, values: seq<string>)
    | WhereNull(column: string)
    | WhereNotNull(column: string)
    | OrderBy(column: string, direction: string)
    | With(relation: string)
    | WithCount(relation: string)
    | Take(count: int)
  {
    /** The call restricts the rows (it is one of the filter calls). */
    predicate IsFilter() {
      Where? || WhereIn? || WhereNotIn? || WhereNull? || WhereNotNull?
    }
  }

  /** A PHP scalar argument that may be an integer or a string. */
  datatype Scalar = Num(n: int) | Text(s: string)

  /** The builder call that runs the query. */
  datatype Terminal =
    | Fetch(columns: seq<string>)                  // get($columns)
    | FetchFirst(columns: seq<string>)             // first($columns), null when no row
    | FirstOrFail(columns: seq<string>)            // firstOrFail($columns)
    | FindOrFail(id: string, columns: seq<string>) // findOrFail($id, $columns)
    | Paginate(perPage: Scalar, columns: seq<string>, pageName: string, page: Option<string>)
    | DeleteAll                                    // delete()

  /** A query as it is sent to the database: the builder log and the
      terminal call. */
  datatype Execution = Execution(calls: seq<Call>, terminal: Terminal)

  /** A write through the model rather than through the builder. */
  datatype Write =
    | Insert(data: map<string, string>)
    | UpdateModel(lookup: Execution, data: map<string, string>, options: map<string, string>)
    | DeleteModel(lookup: Execution)
    | Destroy(ids: seq<string>)

  lemma AppendThree(q: seq<Call>, a: seq<Call>, b: seq<Call>)
    ensures q + a + b == q + (a + b)
  {
  }

  /** Appending four batches of calls one after the other appends their
      concatenation. */
  lemma AppendFour(q: seq<Call>, a: seq<Call>, b: seq<Call>, c: seq<Call>, d: seq<Call>)
    ensures q + a + b + c + d == q + (a + b + c + d)
  {
    assert q + a + b == q + (a + b);
    assert q + (a + b) + c == q + (a + b + c);
  }
}

/** The value-level parts of the store's list query
    (internal/repository/patient_repo.go, `List`): the WHERE conditions and
    their numbered arguments, the ORDER BY choice, the ordering of rows and
    the OFFSET/FETCH window. The table itself is in module Repository.

    Search uses `LIKE '%text%'`, modelled as a plain, case-sensitive
    substring test (the `%` and `_` wildcards inside the text and the
    database collation are not modelled). Text columns sort by character
    code. */
module PatientQuery {
  import opened Domain
  import opened Text

  // ------------------------------------------------ conditions and args

  /** One WHERE condition; `param` is the number of its placeholder `@pN`. */
  datatype Condition =
    | SearchLike(param: nat)
    | CityEquals(param: nat)
    | ProvinceEquals(param: nat)

  datatype Where = Where(conditions: seq<Condition>, args: seq<string>)

  /** The argument bound to the search placeholder. */
  function SearchPattern(search: string): string
  {
    "%" + search + "%"
  }

  /** The condition-building steps of `List`: conditions are appended for
      search, city and province, in that order and only when the field is
      non-empty, each taking the next placeholder number. */
  method BuildWhere(f: PatientFilter) returns (w: Where)
    ensures w == WhereOf(f)
  {
    var conditions: seq<Condition> := [];
    var args: seq<string> := [];
    var argCount := 1;
    if f.Search != "" {
      conditions := conditions + [SearchLike(argCount)];
      args := args + [SearchPattern(f.Search)];
      argCount := argCount + 1;
    }
    if f.City != "" {
      conditions := conditions + [CityEquals(argCount)];
      args := args + [f.City];
      argCount := argCount + 1;
    }
    if f.Province != "" {
      conditions := conditions + [ProvinceEquals(argCount)];
      args := args + [f.Province];
      argCount := argCount + 1;
    }
    w := Where(conditions, args);
  }

  /** The kinds of condition a filter asks for, in order. */
  datatype ConditionKind = SearchKind | CityKind | ProvinceKind

  function PresentKinds(f: PatientFilter): seq<ConditionKind>
  {
    (if f.Search != "" then [SearchKind] else [])
    + (if f.City != "" then [CityKind] else [])
    + (if f.Province != "" then [ProvinceKind] else [])
  }

  function ConditionFor(k: ConditionKind, param: nat): Condition
  {
    match k
    case SearchKind => SearchLike(param)
    case CityKind => CityEquals(param)
    case ProvinceKind => ProvinceEquals(param)
  }

  function ArgFor(k: ConditionKind, f: PatientFilter): string
  {
    match k
    case SearchKind => SearchPattern(f.Search)
    case CityKind => f.City
    case ProvinceKind => f.Province
  }

  /** The WHERE clause a filter yields, stated position by position: the
      i-th present filter becomes the i-th condition with placeholder i+1
      and the i-th argument. */
  function WhereOf(f: PatientFilter): (w: Where)
    ensures |w.conditions| == |w.args| == |PresentKinds(f)| <= 3
    ensures forall i :: 0 <= i < |w.conditions| ==> w.conditions[i].param == i + 1
  {
    var kinds := PresentKinds(f);
    Where(seq(|kinds|, i requires 0 <= i < |kinds| => ConditionFor(kinds[i], i + 1)),
          seq(|kinds|, i requires 0 <= i < |kinds| => ArgFor(kinds[i], f)))
  }

  /** The filter's IsActive field plays no part in the WHERE clause. */
  lemma WhereIgnoresIsActive(f: PatientFilter, isActive: Option<bool>)
    ensures WhereOf(f.(IsActive := isActive)) == WhereOf(f)
  {
  }

  // ----------------------------------------------- meaning of conditions

  /** `value LIKE pattern` for a pattern of the form '%text%'. */
  predicate LikeSubstring(value: string, pattern: string)
  {
    |pattern| >= 2 && pattern[0] == '%' && pattern[|pattern| - 1] == '%'
    && Contains(value, pattern[1..|pattern| - 1])
  }

  /** Whether a row satisfies one condition under the bound arguments. */
  predicate Holds(c: Condition, args: seq<string>, row: Patient)
  {
    1 <= c.param <= |args| &&
    var a := args[c.param - 1];
    match c
    case SearchLike(_) =>
      LikeSubstring(row.FirstName, a) || LikeSubstring(row.LastName, a)
      || LikeSubstring(row.NIK, a) || LikeSubstring(row.MedicalRecordNo, a)
    case CityEquals(_) => row.City == a
    case ProvinceEquals(_) => row.Province == a
  }

  predicate AllHold(w: Where, row: Patient)
  {
    forall i :: 0 <= i < |w.conditions| ==> Holds(w.conditions[i], w.args, row)
  }

  /** The search text occurs in the first name, last name, NIK or medical
      record number. */
  predicate SearchMatches(row: Patient, search: string)
  {
    Contains(row.FirstName, search) || Contains(row.LastName, search)
    || Contains(row.NIK, search) || Contains(row.MedicalRecordNo, search)
  }

  /** The filter as it is meant: search text inside one of the searched
      columns, city and province equal; each only when given. */
  predicate MatchesFilter(row: Patient, f: PatientFilter)
  {
    && (f.Search == "" || SearchMatches(row, f.Search))
    && (f.City == "" || row.City == f.City)
    && (f.Province == "" || row.Province == f.Province)
  }

  predicate KindMatches(k: ConditionKind, f: PatientFilter, row: Patient)
  {
    match k
    case SearchKind => SearchMatches(row, f.Search)
    case CityKind => row.City == f.City
    case ProvinceKind => row.Province == f.Province
  }

  lemma HoldsAt(f: PatientFilter, row: Patient, i: nat)
    requires i < |PresentKinds(f)|
    ensures Holds(WhereOf(f).conditions[i], WhereOf(f).args, row)
        <==> KindMatches(PresentKinds(f)[i], f, row)
  {
    var w := WhereOf(f);
    var k := PresentKinds(f)[i];
    assert w.conditions[i] == ConditionFor(k, i + 1);
    assert w.args[i] == ArgFor(k, f);
    if k == SearchKind {
      var p := SearchPattern(f.Search);
      assert p[1..|p| - 1] == f.Search;
    }
  }

  lemma PresentKindsMembers(f: PatientFilter)
    ensures SearchKind in PresentKinds(f) <==> f.Search != ""
    ensures CityKind in PresentKinds(f) <==> f.City != ""
    ensures ProvinceKind in PresentKinds(f) <==> f.Province != ""
  {
  }

  /** Every condition of the built clause holds exactly when every present
      filter kind matches. */
  lemma AllHoldMeansKinds(f: PatientFilter, row: Patient)
    ensures AllHold(WhereOf(f), row)
        <==> forall k | k in PresentKinds(f) :: KindMatches(k, f, row)
  {
    var w := WhereOf(f);
    var kinds := PresentKinds(f);
    forall i | 0 <= i < |kinds|
      ensures Holds(w.conditions[i], w.args, row) <==> KindMatches(kinds[i], f, row)
    {
      HoldsAt(f, row, i);
    }
  }

  /** Every present kind matches exactly when the row matches the filter. */
  lemma KindsMeanFilter(f: PatientFilter, row: Patient)
    ensures (forall k | k in PresentKinds(f) :: KindMatches(k, f, row)) <==> MatchesFilter(row, f)
  {
    PresentKindsMembers(f);
  }

  /** The built WHERE clause selects exactly the rows the filter means. */
  lemma WhereMeansFilter(f: PatientFilter, row: Patient)
    ensures AllHold(WhereOf(f), row) <==> MatchesFilter(row, f)
  {
    AllHoldMeansKinds(f, row);
    KindsMeanFilter(f, row);
  }

  // ------------------------------------------------------------ ordering

  datatype SortColumn = ByCreatedAt | ByUpdatedAt | ByFirstName | ByLastName | ByNik

  datatype Ordering = Ordering(column: SortColumn, descending: bool)

  /** The column a sort name stands for, among the five names the model
      knows. */
  function ColumnNamed(name: string): Option<SortColumn>
  {
    match name
    case "created_at" => Some(ByCreatedAt)
    case "updated_at" => Some(ByUpdatedAt)
    case "first_name" => Some(ByFirstName)
    case "last_name" => Some(ByLastName)
    case "nik" => Some(ByNik)
    case _ => None
  }

  /** The ORDER BY clause of `List`: created_at DESC when no sort is given,
      otherwise the sort and order verbatim. A direction keyword is read
      case-insensitively and defaults to ascending; anything the model
      cannot read as ORDER BY is a query failure. */
  function OrderingOf(sort: string, order: string): (r: Result<Ordering>)
    ensures sort == "" ==> r == Ok(Ordering(ByCreatedAt, true))
    ensures sort != "" && ColumnNamed(sort).Some? && order == "DESC"
            ==> r == Ok(Ordering(ColumnNamed(sort).value, true))
    ensures sort != "" && ColumnNamed(sort).Some? && order == "ASC"
            ==> r == Ok(Ordering(ColumnNamed(sort).value, false))
    ensures sort != "" && ColumnNamed(sort).None? ==> r.Err?
  {
    if sort == "" then Ok(Ordering(ByCreatedAt, true))
    else match ColumnNamed(sort)
      case None => Err(QueryFailed("invalid column name in ORDER BY"))
      case Some(column) =>
        var direction := Upper(order);
        if order == "" || direction == "ASC" then Ok(Ordering(column, false))
        else if direction == "DESC" then Ok(Ordering(column, true))
        else Err(QueryFailed("incorrect syntax in ORDER BY"))
  }

  /** Row `a` has a strictly smaller sort key than row `b`. */
  predicate KeyLess(a: Patient, b: Patient, column: SortColumn)
  {
    match column
    case ByCreatedAt => a.CreatedAt < b.CreatedAt
    case ByUpdatedAt => a.UpdatedAt < b.UpdatedAt
    case ByFirstName => StrLess(a.FirstName, b.FirstName)
    case ByLastName => StrLess(a.LastName, b.LastName)
    case ByNik => StrLess(a.NIK, b.NIK)
  }

  /** Row `a` must come strictly before row `b` under the ordering. */
  predicate Before(a: Patient, b: Patient, o: Ordering)
  {
    if o.descending then KeyLess(b, a, o.column) else KeyLess(a, b, o.column)
  }

  predicate Sorted(s: seq<Patient>, o: Ordering)
  {
    forall i, j :: 0 <= i < j < |s| ==> !Before(s[j], s[i], o)
  }

  lemma KeyLessStrict(a: Patient, b: Patient, c: Patient, column: SortColumn)
    ensures !KeyLess(a, a, column)
    ensures KeyLess(a, b, column) && KeyLess(b, c, column) ==> KeyLess(a, c, column)
  {
    match column
    case ByFirstName =>
      StrLessIrreflexive(a.FirstName);
      if KeyLess(a, b, column) && KeyLess(b, c, column) { StrLessTransitive(a.FirstName, b.FirstName, c.FirstName); }
    case ByLastName =>
      StrLessIrreflexive(a.LastName);
      if KeyLess(a, b, column) && KeyLess(b, c, column) { StrLessTransitive(a.LastName, b.LastName, c.LastName); }
    case ByNik =>
      StrLessIrreflexive(a.NIK);
      if KeyLess(a, b, column) && KeyLess(b, c, column) { StrLessTransitive(a.NIK, b.NIK, c.NIK); }
    case _ =>
  }

  /** `Before` is a strict order: irreflexive and transitive. */
  lemma BeforeStrict(a: Patient, b: Patient, c: Patient, o: Ordering)
    ensures !Before(a, a, o)
    ensures Before(a, b, o) && Before(b, c, o) ==> Before(a, c, o)
  {
    KeyLessStrict(a, b, c, o.column);
    KeyLessStrict(c, b, a, o.column);
  }

  // ------------------------------------------------------ stable sorting

  /** Inserts `x` after every element it does not strictly precede. */
  function Insert(x: Patient, s: seq<Patient>, o: Ordering): seq<Patient>
  {
    if s == [] then [x]
    else if Before(x, s[0], o) then [x] + s
    else [s[0]] + Insert(x, s[1..], o)
  }

  /** Insertion sort over the rows in scan order; rows with equal keys keep
      their scan order. */
  function SortRows(s: seq<Patient>, o: Ordering): (r: seq<Patient>)
    ensures multiset(r) == multiset(s)
    ensures Sorted(r, o)
  {
    if s == [] then []
    else
      var init, last := s[..|s| - 1], s[|s| - 1];
      var sorted := SortRows(init, o);
      InsertPermutes(last, sorted, o);
      InsertSorted(last, sorted, o);
      SplitLast(s);
      Insert(last, sorted, o)
  }

  lemma SplitLast(s: seq<Patient>)
    requires s != []
    ensures multiset(s) == multiset(s[..|s| - 1]) + multiset{s[|s| - 1]}
  {
    assert s == s[..|s| - 1] + [s[|s| - 1]];
  }

  lemma {:induction false} InsertPermutes(x: Patient, s: seq<Patient>, o: Ordering)
    ensures multiset(Insert(x, s, o)) == multiset(s) + multiset{x}
  {
    if s != [] && !Before(x, s[0], o) {
      InsertPermutes(x, s[1..], o);
      assert s == [s[0]] + s[1..];
    }
  }

  lemma {:induction false} InsertSorted(x: Patient, s: seq<Patient>, o: Ordering)
    requires Sorted(s, o)
    ensures Sorted(Insert(x, s, o), o)
  {
    if s == [] {
    } else if Before(x, s[0], o) {
      var r := [x] + s;
      forall i, j | 0 <= i < j < |r| ensures !Before(r[j], r[i], o) {
        if i == 0 {
          BeforeStrict(r[j], x, s[0], o);
          BeforeStrict(x, s[0], x, o);
          assert j == 1 || !Before(s[j - 1], s[0], o);
        }
      }
    } else {
      var tail := Insert(x, s[1..], o);
      InsertSorted(x, s[1..], o);
      InsertPermutes(x, s[1..], o);
      var r := [s[0]] + tail;
      forall i, j | 0 <= i < j < |r| ensures !Before(r[j], r[i], o) {
        if i == 0 {
          var y := r[j];
          assert y in multiset(tail);
          assert y in multiset(s[1..]) || y == x;
          if y != x {
            var k :| 0 <= k < |s[1..]| && s[1..][k] == y;
            assert s[k + 1] == y;
          }
        }
      }
    }
  }

  // -------------------------------------------------------- pagination

  function Min(a: int, b: int): int { if a <= b then a else b }

  /** OFFSET `offset` ROWS FETCH NEXT `limit` ROWS ONLY. */
  function Window(s: seq<Patient>, offset: nat, limit: nat): (r: seq<Patient>)
    ensures |r| <= limit
    ensures offset < |s| ==> r == s[offset..Min(offset + limit, |s|)]
    ensures offset >= |s| ==> r == []
  {
    s[Min(offset, |s|)..Min(offset + limit, |s|)]
  }
}

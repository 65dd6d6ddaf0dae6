/**
 * The listing page of the web viewer (the `index` route): the SQL text and
 * parameter list built from the three search boxes, the count query derived
 * from it, and the pagination numbers. The database itself is not modelled;
 * `total` is whatever the count query returned.
 */
module InmateIndex {
  import opened PyStr

  /** Rows shown per page. */
  const PerPage: nat := 50

  const SelectAll: string := "SELECT * FROM inmates"
  const SelectCount: string := "SELECT COUNT(*) FROM inmates"
  const WhereAll: string := " WHERE 1=1"
  const NameClause: string := " AND (last_name LIKE " + "?" + " OR first_name LIKE " + "?" + ")"
  const RaceClause: string := " AND race LIKE " + "?"
  const GenderClause: string := " AND sex LIKE " + "?"
  const OrderBy: string := " ORDER BY booking_date DESC"

  // ---------------------------------------------------------------------
  // Placeholders

  /** The number of `?` placeholders in a piece of SQL text. */
  function Placeholders(s: string): nat {
    if s == [] then 0 else (if s[0] == '?' then 1 else 0) + Placeholders(s[1..])
  }

  lemma {:induction false} PlaceholdersAppend(a: string, b: string)
    ensures Placeholders(a + b) == Placeholders(a) + Placeholders(b)
  {
    if a == [] {
      assert a + b == b;
    } else {
      assert (a + b)[0] == a[0];
      assert (a + b)[1..] == a[1..] + b;
      PlaceholdersAppend(a[1..], b);
    }
  }

  lemma {:induction false} PlaceholdersNone(s: string)
    requires '?' !in s
    ensures Placeholders(s) == 0
  {
    if s != [] {
      assert s[0] in s;
      PlaceholdersNone(s[1..]);
    }
  }

  /** Text around exactly one placeholder. */
  lemma OnePlaceholder(a: string, b: string)
    requires '?' !in a && '?' !in b
    ensures Placeholders(a + "?" + b) == 1
  {
    PlaceholdersAppend(a + "?", b);
    PlaceholdersAppend(a, "?");
    PlaceholdersNone(a);
    PlaceholdersNone(b);
  }

  /** The name filter binds two parameters. */
  lemma NamePlaceholders()
    ensures Placeholders(NameClause) == 2
  {
    var head := " AND (last_name LIKE " + "?" + " OR first_name LIKE ";
    OnePlaceholder(" AND (last_name LIKE ", " OR first_name LIKE ");
    OnePlaceholder("", ")");
    assert NameClause == head + ("" + "?" + ")");
    PlaceholdersAppend(head, "" + "?" + ")");
  }

  /** The race and gender filters bind one parameter each. */
  lemma RaceGenderPlaceholders()
    ensures Placeholders(RaceClause) == 1 && Placeholders(GenderClause) == 1
  {
    OnePlaceholder(" AND race LIKE ", "");
    assert RaceClause == " AND race LIKE " + "?" + "";
    OnePlaceholder(" AND sex LIKE ", "");
    assert GenderClause == " AND sex LIKE " + "?" + "";
  }

  /** The fixed parts of the query bind nothing. */
  lemma SelectAllPlaceholders()
    ensures Placeholders(SelectAll) == 0
  {
    PlaceholdersNone(SelectAll);
  }

  lemma SelectCountPlaceholders()
    ensures Placeholders(SelectCount) == 0
  {
    PlaceholdersNone(SelectCount);
  }

  lemma WherePlaceholders()
    ensures Placeholders(WhereAll) == 0
  {
    PlaceholdersNone(WhereAll);
  }

  lemma OrderByPlaceholders()
    ensures Placeholders(OrderBy) == 0
  {
    PlaceholdersNone(OrderBy);
  }

  /** Placeholders of five pieces laid end to end. */
  lemma PlaceholdersOfFive(a: string, b: string, c: string, d: string, e: string)
    ensures Placeholders(a + b + c + d + e)
            == Placeholders(a) + Placeholders(b) + Placeholders(c) + Placeholders(d) + Placeholders(e)
  {
    PlaceholdersAppend(a, b);
    PlaceholdersAppend(a + b, c);
    PlaceholdersAppend(a + b + c, d);
    PlaceholdersAppend(a + b + c + d, e);
  }

  // ---------------------------------------------------------------------
  // The filter builder

  /** `f'%{term}%'`: the term between two wildcards. */
  function Like(term: string): (p: string)
    ensures |p| == |term| + 2 && p[0] == '%' && p[|p| - 1] == '%' && p[1..|p| - 1] == term
  {
    "%" + term + "%"
  }

  /** A clause that is present only when its search term is. */
  function Opt(use: bool, clause: string): string {
    if use then clause else ""
  }

  /** The filtered, ordered query for the (already stripped) search terms;
      an empty term adds no clause. */
  function QueryText(name: string, race: string, gender: string): string {
    SelectAll + WhereAll + Opt(name != "", NameClause) + Opt(race != "", RaceClause)
    + Opt(gender != "", GenderClause) + OrderBy
  }

  /** The parameters bound to the query, in clause order; the name term is
      bound twice (last name, first name). */
  function Params(name: string, race: string, gender: string): (ps: seq<string>)
    ensures |ps| == (if name != "" then 2 else 0) + (if race != "" then 1 else 0) + (if gender != "" then 1 else 0)
    ensures forall i :: 0 <= i < |ps| ==>
      (name != "" && ps[i] == Like(name)) || (race != "" && ps[i] == Like(race)) ||
      (gender != "" && ps[i] == Like(gender))
    ensures name != "" ==> ps[0] == Like(name) && ps[1] == Like(name)
    ensures race != "" ==> ps[if name != "" then 2 else 0] == Like(race)
    ensures gender != "" ==> ps[|ps| - 1] == Like(gender)
  {
    NameParams(name)
    + (if race != "" then [Like(race)] else [])
    + (if gender != "" then [Like(gender)] else [])
  }

  /** The name term, bound for the last name and for the first name. */
  function NameParams(name: string): seq<string> {
    if name != "" then [Like(name), Like(name)] else []
  }

  lemma HeadPlaceholders()
    ensures Placeholders(SelectAll + WhereAll) == 0
  {
    SelectAllPlaceholders();
    WherePlaceholders();
    PlaceholdersAppend(SelectAll, WhereAll);
  }

  /** The query has exactly one placeholder per bound parameter. */
  lemma PlaceholdersMatchParams(name: string, race: string, gender: string)
    ensures Placeholders(QueryText(name, race, gender)) == |Params(name, race, gender)|
  {
    HeadPlaceholders();
    NamePlaceholders();
    RaceGenderPlaceholders();
    OrderByPlaceholders();
    AssembledPlaceholders(SelectAll + WhereAll, NameClause, RaceClause, GenderClause, OrderBy,
                          name != "", race != "", gender != "");
  }

  /** Placeholders of a query assembled from optional clauses. */
  lemma AssembledPlaceholders(head: string, n: string, r: string, g: string, tail: string,
                              useN: bool, useR: bool, useG: bool)
    ensures Placeholders(head + Opt(useN, n) + Opt(useR, r) + Opt(useG, g) + tail)
            == Placeholders(head) + (if useN then Placeholders(n) else 0) + (if useR then Placeholders(r) else 0)
               + (if useG then Placeholders(g) else 0) + Placeholders(tail)
  {
    PlaceholdersOfFive(head, Opt(useN, n), Opt(useR, r), Opt(useG, g), tail);
  }

  /** Without search terms the query lists every inmate and binds nothing. */
  lemma NoFilters()
    ensures QueryText("", "", "") == SelectAll + WhereAll + OrderBy
    ensures Params("", "", "") == []
  {
  }

  lemma FixedPartsHaveNoStar()
    ensures '*' !in WhereAll && '*' !in OrderBy
  {
  }

  lemma NameClauseHasNoStar()
    ensures '*' !in NameClause
  {
    assert '*' !in " AND (last_name LIKE " && '*' !in " OR first_name LIKE ";
  }

  lemma RaceGenderClausesHaveNoStar()
    ensures '*' !in RaceClause && '*' !in GenderClause
  {
  }

  /** Splitting off the first of six pieces. */
  lemma SplitHead(a: string, b: string, c: string, d: string, e: string, f: string)
    ensures a + b + c + d + e + f == a + (b + c + d + e + f)
    ensures (a + b + c + d + e + f)[|a|..] == b + c + d + e + f
  {
    assert a + b + c + d + e + f == a + (b + c + d + e + f);
  }

  /** Everything after the leading select contains no `*`. */
  lemma TailHasNoStar(name: string, race: string, gender: string)
    ensures QueryText(name, race, gender) == SelectAll + QueryText(name, race, gender)[|SelectAll|..]
    ensures '*' !in QueryText(name, race, gender)[|SelectAll|..]
  {
    var n, r, g := Opt(name != "", NameClause), Opt(race != "", RaceClause), Opt(gender != "", GenderClause);
    SplitHead(SelectAll, WhereAll, n, r, g, OrderBy);
    FixedPartsHaveNoStar();
    NameClauseHasNoStar();
    RaceGenderClausesHaveNoStar();
    assert '*' !in n && '*' !in r && '*' !in g;
  }

  /** The count query is the filtered query with only its leading
      `SELECT * FROM inmates` rewritten. */
  lemma CountQueryRewrite(name: string, race: string, gender: string)
    ensures ReplaceAll(QueryText(name, race, gender), SelectAll, SelectCount)
            == SelectCount + QueryText(name, race, gender)[|SelectAll|..]
  {
    var q := QueryText(name, race, gender);
    var t := q[|SelectAll|..];
    TailHasNoStar(name, race, gender);
    assert SelectAll[7] == '*';
    ReplaceLeading(SelectAll, t, SelectCount, '*');
  }

  /** The count query therefore binds the same parameters as the query. */
  lemma CountQueryPlaceholders(name: string, race: string, gender: string)
    ensures Placeholders(SelectCount + QueryText(name, race, gender)[|SelectAll|..])
            == |Params(name, race, gender)|
  {
    var t := QueryText(name, race, gender)[|SelectAll|..];
    assert Placeholders(t) == |Params(name, race, gender)| by {
      TailPlaceholders(name, race, gender);
    }
    PlaceholdersAppend(SelectCount, t);
    SelectCountPlaceholders();
  }

  lemma TailPlaceholders(name: string, race: string, gender: string)
    ensures Placeholders(QueryText(name, race, gender)[|SelectAll|..]) == |Params(name, race, gender)|
  {
    var q := QueryText(name, race, gender);
    var t := q[|SelectAll|..];
    assert q == SelectAll + t by {
      TailHasNoStar(name, race, gender);
    }
    PlaceholdersMatchParams(name, race, gender);
    PlaceholdersAppend(SelectAll, t);
    SelectAllPlaceholders();
  }


  // ---------------------------------------------------------------------
  // Pagination

  /** `(page - 1) * per_page`; the page number is not clamped, so page 0 or
      below gives a negative offset. */
  function Offset(page: int): (o: int)
    ensures page >= 1 ==> o >= 0
    ensures page == 1 ==> o == 0
  {
    (page - 1) * PerPage
  }

  /** ` LIMIT 50 OFFSET <offset>`, appended after the count query is taken. */
  function LimitClause(page: int): string {
    " LIMIT " + NatToString(PerPage) + " OFFSET " + IntToString(Offset(page))
  }

  lemma LimitClauseNoPlaceholder(page: int)
    ensures Placeholders(LimitClause(page)) == 0
  {
    var digits := NatToString(PerPage);
    var off := IntToString(Offset(page));
    assert forall i :: 0 <= i < |digits| ==> digits[i] != '?';
    assert '?' !in digits;
    var m := if Offset(page) < 0 then -Offset(page) else Offset(page);
    assert forall i :: 0 <= i < |NatToString(m)| ==> NatToString(m)[i] != '?';
    assert '?' !in NatToString(m);
    assert '?' !in off;
    PlaceholdersNone(LimitClause(page));
  }

  /** Appending a clause only when it is used is appending its `Opt`. */
  lemma AppendOpt(q: string, use: bool, clause: string)
    ensures (if use then q + clause else q) == q + Opt(use, clause)
  {
    if !use {
      assert q + "" == q;
    }
  }

  lemma AppendOptParams(ps: seq<string>, use: bool, xs: seq<string>)
    ensures (if use then ps + xs else ps) == ps + (if use then xs else [])
  {
    if !use {
      assert ps + [] == ps;
    }
  }

  /** The filter-building lines: the WHERE clause grows by one condition
      per non-empty search term, and each condition's parameters follow. */
  method BuildFilter(name: string, race: string, gender: string)
    returns (query: string, params: seq<string>)
    ensures query == QueryText(name, race, gender)
    ensures params == Params(name, race, gender)
  {
    query := SelectAll + WhereAll;
    params := [];
    ghost var before := query;
    if name != "" {
      query := query + NameClause;
      params := params + [Like(name), Like(name)];
    }
    AppendOpt(before, name != "", NameClause);
    assert params == NameParams(name);
    before := query;
    ghost var paramsBefore := params;
    if race != "" {
      query := query + RaceClause;
      params := params + [Like(race)];
    }
    AppendOpt(before, race != "", RaceClause);
    AppendOptParams(paramsBefore, race != "", [Like(race)]);
    before := query;
    paramsBefore := params;
    if gender != "" {
      query := query + GenderClause;
      params := params + [Like(gender)];
    }
    AppendOpt(before, gender != "", GenderClause);
    AppendOptParams(paramsBefore, gender != "", [Like(gender)]);
    query := query + OrderBy;
  }

  /** The search terms stripped, the filtered query, the count query made
      from it, and the page's LIMIT/OFFSET appended to the listing query. */
  method BuildQueries(searchName: string, searchRace: string, searchGender: string, page: int)
    returns (query: string, countQuery: string, params: seq<string>)
    ensures var n, r, g := Strip(searchName), Strip(searchRace), Strip(searchGender);
      && query == QueryText(n, r, g) + LimitClause(page)
      && countQuery == SelectCount + QueryText(n, r, g)[|SelectAll|..]
      && params == Params(n, r, g)
    ensures Placeholders(query) == |params| && Placeholders(countQuery) == |params|
  {
    var name := Strip(searchName);
    var race := Strip(searchRace);
    var gender := Strip(searchGender);
    query, params := BuildFilter(name, race, gender);
    CountQueryRewrite(name, race, gender);
    CountQueryPlaceholders(name, race, gender);
    countQuery := ReplaceAll(query, SelectAll, SelectCount);
    PlaceholdersMatchParams(name, race, gender);
    LimitClauseNoPlaceholder(page);
    PlaceholdersAppend(query, LimitClause(page));
    query := query + LimitClause(page);
  }

  /** `(total + per_page - 1) // per_page`: enough pages for every row and
      no empty trailing page. */
  function TotalPages(total: nat): (n: nat)
    ensures n == 0 <==> total == 0
    ensures n > 0 ==> (n - 1) * PerPage < total <= n * PerPage
  {
    (total + PerPage - 1) / PerPage
  }

  function HasPrev(page: int): (b: bool)
    ensures b <==> Offset(page) > 0
  {
    page > 1
  }

  function HasNext(page: int, total: nat): bool {
    page < TotalPages(total)
  }

  /** From page 1 on, there is a next page exactly when rows remain past
      the end of this one. */
  lemma HasNextIff(page: int, total: nat)
    requires page >= 1
    ensures HasNext(page, total) <==> Offset(page) + PerPage < total
  {
    var n := TotalPages(total);
    if page < n {
      assert page * PerPage <= (n - 1) * PerPage;
    }
    if Offset(page) + PerPage < total {
      assert page * PerPage < n * PerPage;
    }
  }

  /** Pages from 1 on cover disjoint windows of 50 rows, one after another. */
  lemma PageWindowsDisjoint(p: int, q: int)
    requires 1 <= p < q
    ensures Offset(p) + PerPage <= Offset(q)
  {
  }

  /** Every row index falls in the window of exactly one page. */
  lemma RowOnOnePage(row: nat, q: int)
    requires q >= 1
    ensures Offset(q) <= row < Offset(q) + PerPage <==> q == row / PerPage + 1
  {
  }

  /** With rows to show, the last page starts inside the rows and reaches
      the end of them. */
  lemma LastPageHoldsRest(total: nat)
    requires total > 0
    ensures Offset(TotalPages(total)) < total <= Offset(TotalPages(total)) + PerPage
  {
  }
}

/**
 * `getListData` of routes/products.js: page parsing, the WHERE clause, the
 * row count, the out-of-range redirects and the page window.
 *
 * The database is an oracle: `matching(where)` is the id-ordered sequence of
 * product rows the WHERE text selects (stable data), so the count query
 * returns its length and the page query a LIMIT window of it. `db.escape` is
 * the opaque function `escape`.
 */
module Listing {
  import opened Wrappers
  import opened JsText
  import opened JsNumbers
  import opened Pagination

  /** A query-string parameter: absent, or its text. */
  datatype QueryParam = Missing | Given(text: string)

  /** One row of the listing query: product columns with the joined category name. */
  datatype ProductRow = ProductRow(
    id: int,
    productCode: string,
    productName: string,
    description: string,
    categoryName: string,
    price: string,
    imageUrl: Option<string>,
    averageRating: string,
    createdAt: string)

  /** A conjunct of the WHERE clause. */
  datatype Condition = NameLike(pattern: string) | CategoryIs(category: string)

  /** The SQL the listing sends; only the WHERE text and the window vary. */
  datatype SqlQuery = CountRows(where: string) | FetchPage(where: string, offset: nat, limit: nat)

  /** The `output` object the listing returns. */
  datatype ListingResult = ListingResult(
    success: bool,
    redirect: Option<string>,
    perPage: nat,
    totalRows: nat,
    totalPages: nat,
    page: JsNumber,
    rows: seq<ProductRow>,
    keyword: string,
    category: Option<string>)

  /** A listing run: the result with the queries issued, or a page query the database refused. */
  datatype ListingRun =
    | Finished(output: ListingResult, queries: seq<SqlQuery>)
    | RowQueryRejected(queries: seq<SqlQuery>)

  /** The output record before any field is set. */
  const Initial: ListingResult :=
    ListingResult(false, None, PerPage, 0, 0, Finite(0.0), [], "", None)

  /** `+req.query.page`: an absent parameter is `undefined`, whose number is NaN. */
  function PageNumberOf(q: QueryParam): (n: JsNumber)
    ensures q.Missing? ==> n == NaN
    ensures q.Given? && AllWhiteSpace(q.text) ==> n == Finite(0.0)
  {
    match q
    case Missing => NaN
    case Given(t) => ToNumber(t)
  }

  /** `req.query.keyword ? req.query.keyword.trim() : ""` */
  function KeywordOf(q: QueryParam): (keyword: string)
    ensures IsTrimmed(keyword)
    ensures q.Missing? ==> keyword == ""
    ensures q.Given? ==> keyword == Trim(q.text)
  {
    match q
    case Missing => ""
    case Given(t) => if t == "" then "" else Trim(t)
  }

  /** `req.query.category_name || ""`; the category is not trimmed. */
  function CategoryOf(q: QueryParam): (category: string)
    ensures category == "" <==> q.Missing? || q.text == ""
    ensures q.Given? ==> category == q.text
  {
    match q
    case Missing => ""
    case Given(t) => t
  }

  /** The filter: a LIKE conjunct for a non-empty keyword, then an equality conjunct for a non-empty category. */
  function Conditions(keyword: string, category: string): (conds: seq<Condition>)
    ensures |conds| <= 2
    ensures NameLike("%" + keyword + "%") in conds <==> keyword != ""
    ensures CategoryIs(category) in conds <==> category != ""
    ensures forall i :: 0 <= i < |conds| ==> conds[i] == NameLike("%" + keyword + "%") || conds[i] == CategoryIs(category)
    ensures forall i, j :: 0 <= i < j < |conds| ==> conds[i].NameLike? && conds[j].CategoryIs?
  {
    (if keyword != "" then [NameLike("%" + keyword + "%")] else [])
    + (if category != "" then [CategoryIs(category)] else [])
  }

  /** Different searches give different filters. */
  lemma ConditionsInjective(k1: string, c1: string, k2: string, c2: string)
    requires Conditions(k1, c1) == Conditions(k2, c2)
    ensures k1 == k2 && c1 == c2
  {
    var conds := Conditions(k1, c1);
    if k1 != "" {
      assert NameLike("%" + k2 + "%") == conds[0];
      assert ("%" + k1 + "%")[1..|k1| + 1] == k1;
      assert ("%" + k2 + "%")[1..|k2| + 1] == k2;
    }
  }

  const LikeOpening := " AND (name LIKE "
  const CategoryOpening := " AND (c.category_name = "

  function RenderCondition(c: Condition, escape: string -> string): string
  {
    match c
    case NameLike(p) => LikeOpening + escape(p) + ")"
    case CategoryIs(name) => CategoryOpening + escape(name) + ")"
  }

  /** The WHERE text: ` WHERE 1 ` and one rendered conjunct per condition, in order. */
  function RenderWhere(conds: seq<Condition>, escape: string -> string): string
  {
    if conds == [] then " WHERE 1 "
    else RenderWhere(conds[..|conds| - 1], escape) + RenderCondition(conds[|conds| - 1], escape)
  }

  /** The WHERE text as the listing builds it: ` WHERE 1 `, then the keyword conjunct, then the category conjunct. */
  function WhereOf(keyword: string, category: string, escape: string -> string): (w: string)
    ensures w == " WHERE 1 " <==> keyword == "" && category == ""
  {
    var where := " WHERE 1 ";
    var where := if keyword != "" then where + RenderCondition(NameLike("%" + keyword + "%"), escape) else where;
    if category != "" then where + RenderCondition(CategoryIs(category), escape) else where
  }

  /** The relative URL of a redirect: `?page=` and the page in decimal digits. */
  function RedirectTo(page: nat): (url: string)
    ensures |url| > 6 && url[..6] == "?page="
    ensures AllDigits(url[6..]) && DigitsValue(url[6..]) == page
    ensures url[6] == '0' ==> url == "?page=0"
  {
    assert ("?page=" + ShowNat(page))[6..] == ShowNat(page);
    assert ("?page=" + ShowNat(page))[6] == ShowNat(page)[0];
    "?page=" + ShowNat(page)
  }

  /** The browser that follows a redirect reads back, as `+req.query.page`, the page the redirect names. */
  lemma RedirectNamesPage(page: nat)
    ensures PageNumberOf(Given(RedirectTo(page)[6..])) == Finite(page as real)
  {
    assert RedirectTo(page)[6..] == ShowNat(page);
    ToNumberShowNat(page);
  }

  /**
   * `getListData(req)`, given the number `+req.query.page` and the keyword
   * and category parameters.
   */
  function ListData(
    pageNumber: JsNumber, keywordParam: QueryParam, categoryParam: QueryParam,
    escape: string -> string, matching: string -> seq<ProductRow>): (r: ListingRun)
    ensures r.Finished? ==> (r.output.success <==> r.output.redirect.None?)
    ensures r.Finished? ==> r.output.perPage == PerPage && |r.output.rows| <= PerPage
    ensures |r.queries| <= 2
    ensures forall i :: 0 <= i < |r.queries| ==>
      r.queries[i].where == WhereOf(KeywordOf(keywordParam), CategoryOf(categoryParam), escape)
  {
    var page := OrOne(pageNumber);
    var keyword := KeywordOf(keywordParam);
    var category := CategoryOf(categoryParam);
    if LessThan(page, 1.0) then
      Finished(Initial.(redirect := Some(RedirectTo(1))), [])
    else
      var output := Initial.(keyword := keyword, category := if category != "" then Some(category) else None);
      var where := WhereOf(keyword, category, escape);
      var all := matching(where);
      var totalPages := TotalPages(|all|);
      if |all| == 0 then
        Finished(output.(success := true, totalRows := 0, totalPages := 0, page := page, rows := []), [CountRows(where)])
      else if GreaterThan(page, totalPages as real) then
        Finished(output.(redirect := Some(RedirectTo(totalPages))), [CountRows(where)])
      else
        FetchWindow(page.value, output, where, all)
  }

  /** The page query for an in-range page: refused unless the offset `(page - 1) * perPage` is whole. */
  function FetchWindow(page: real, output: ListingResult, where: string, all: seq<ProductRow>): (r: ListingRun)
    requires page >= 1.0
    ensures page.Floor as real == page ==> r.Finished?
    ensures r.Finished? ==>
      && r.output.success && r.output.redirect == output.redirect && r.output.perPage == output.perPage
      && |r.output.rows| <= PerPage
    ensures 1 <= |r.queries| <= 2 && r.queries[0] == CountRows(where)
    ensures forall i :: 0 <= i < |r.queries| ==> r.queries[i].where == where
  {
    var offset := (page - 1.0) * (PerPage as real);
    assert page.Floor as real == page ==> offset.Floor as real == offset by {
      if page.Floor as real == page {
        WholeOffset(page.Floor);
      }
    }
    if offset.Floor as real != offset then
      RowQueryRejected([CountRows(where)])
    else
      Finished(
        output.(success := true, totalRows := |all|, totalPages := TotalPages(|all|), page := Finite(page),
                rows := Limit(all, offset.Floor, PerPage)),
        [CountRows(where), FetchPage(where, offset.Floor, PerPage)])
  }

  /** An absent, zero or non-numeric page parameter becomes page 1. */
  lemma PageDefaultsToOne(q: QueryParam)
    requires q.Missing? || !Truthy(ToNumber(q.text))
    ensures OrOne(PageNumberOf(q)) == Finite(1.0)
  {
  }

  /** An empty or blank page parameter is the number 0, so it too becomes page 1. */
  lemma BlankPageIsFirst(t: string)
    requires AllWhiteSpace(t)
    ensures OrOne(PageNumberOf(Given(t))) == Finite(1.0)
  {
    BlankIsZero(t);
  }

  /** Non-numeric text as the page parameter becomes page 1. */
  lemma NonNumericPageIsFirst(t: string)
    requires var u := Trim(t);
      u != [] && !IsDigit(u[0]) && u[0] !in {'+', '-', '.', 'I'}
    ensures OrOne(PageNumberOf(Given(t))) == Finite(1.0)
  {
    NonNumericIsNaN(t);
  }

  lemma RedirectToFirst()
    ensures RedirectTo(1) == "?page=1"
  {
    assert ShowNat(1) == "1";
  }

  /** Redirect URLs name their page unambiguously. */
  lemma RedirectToInjective(a: nat, b: nat)
    requires RedirectTo(a) == RedirectTo(b)
    ensures a == b
  {
    assert RedirectTo(a)[6..] == RedirectTo(b)[6..];
  }

  /**
   * A page below 1 answers `?page=1` before any query; a page of 1 or more
   * always queries the count. Positive fractions below 1 redirect too.
   */
  lemma EarlyRedirect(
    pageNumber: JsNumber, keywordParam: QueryParam, categoryParam: QueryParam,
    escape: string -> string, matching: string -> seq<ProductRow>)
    ensures var r := ListData(pageNumber, keywordParam, categoryParam, escape, matching);
      LessThan(OrOne(pageNumber), 1.0) <==> r.queries == []
    ensures LessThan(OrOne(pageNumber), 1.0) ==>
      ListData(pageNumber, keywordParam, categoryParam, escape, matching)
        == Finished(Initial.(redirect := Some("?page=1")), [])
    ensures !LessThan(OrOne(pageNumber), 1.0) ==>
      ListData(pageNumber, keywordParam, categoryParam, escape, matching).queries[0]
        == CountRows(WhereOf(KeywordOf(keywordParam), CategoryOf(categoryParam), escape))
  {
    RedirectToFirst();
  }

  /** With no matching rows the listing succeeds with no rows and no redirect, however large the page. */
  lemma ZeroRowsSucceed(
    pageNumber: JsNumber, keywordParam: QueryParam, categoryParam: QueryParam,
    escape: string -> string, matching: string -> seq<ProductRow>)
    requires !LessThan(OrOne(pageNumber), 1.0)
    requires matching(WhereOf(KeywordOf(keywordParam), CategoryOf(categoryParam), escape)) == []
    ensures var r := ListData(pageNumber, keywordParam, categoryParam, escape, matching);
      && r.Finished?
      && r.output.success && r.output.rows == [] && r.output.redirect == None
      && r.output.totalRows == 0 && r.output.totalPages == 0
      && r.queries == [CountRows(WhereOf(KeywordOf(keywordParam), CategoryOf(categoryParam), escape))]
  {
  }

  /** A page past the last one redirects to the last page, unsuccessfully, after the count and nothing else. */
  lemma PastEndRedirects(
    pageNumber: JsNumber, keywordParam: QueryParam, categoryParam: QueryParam,
    escape: string -> string, matching: string -> seq<ProductRow>)
    requires var n := |matching(WhereOf(KeywordOf(keywordParam), CategoryOf(categoryParam), escape))|;
      n > 0 && GreaterThan(OrOne(pageNumber), TotalPages(n) as real)
    ensures var where := WhereOf(KeywordOf(keywordParam), CategoryOf(categoryParam), escape);
      var r := ListData(pageNumber, keywordParam, categoryParam, escape, matching);
      && r.Finished?
      && !r.output.success && r.output.rows == []
      && r.output.redirect == Some(RedirectTo(TotalPages(|matching(where)|)))
      && r.queries == [CountRows(where)]
  {
  }

  /** A whole page in 1 .. totalPages is served: the count, then the window LIMIT (page-1)*12, 12 of the ordered rows. */
  lemma ServesWindow(
    p: nat, keywordParam: QueryParam, categoryParam: QueryParam,
    escape: string -> string, matching: string -> seq<ProductRow>)
    requires 1 <= p <= TotalPages(|matching(WhereOf(KeywordOf(keywordParam), CategoryOf(categoryParam), escape))|)
    ensures var where := WhereOf(KeywordOf(keywordParam), CategoryOf(categoryParam), escape);
      var all := matching(where);
      var r := ListData(Finite(p as real), keywordParam, categoryParam, escape, matching);
      && r.Finished?
      && r.output.success && r.output.redirect == None
      && r.output.perPage == PerPage
      && r.output.totalRows == |all| && r.output.totalPages == TotalPages(|all|)
      && r.output.page == Finite(p as real)
      && r.output.rows == PageRows(all, p)
      && r.queries == [CountRows(where), FetchPage(where, PageOffset(p), PerPage)]
  {
    var keyword, category := KeywordOf(keywordParam), CategoryOf(categoryParam);
    var where := WhereOf(keyword, category, escape);
    var output := Initial.(keyword := keyword, category := if category != "" then Some(category) else None);
    assert OrOne(Finite(p as real)) == Finite(p as real);
    assert ListData(Finite(p as real), keywordParam, categoryParam, escape, matching)
      == FetchWindow(p as real, output, where, matching(where));
    FetchesWholePage(p, output, where, matching(where));
  }

  /** The page query of a whole page asks for its window and shows it. */
  lemma FetchesWholePage(p: nat, output: ListingResult, where: string, all: seq<ProductRow>)
    requires p >= 1
    ensures FetchWindow(p as real, output, where, all) == Finished(
      output.(success := true, totalRows := |all|, totalPages := TotalPages(|all|), page := Finite(p as real),
              rows := PageRows(all, p)),
      [CountRows(where), FetchPage(where, PageOffset(p), PerPage)])
  {
    WholeOffset(p);
  }

  /** A whole page number has a whole offset. */
  lemma WholeOffset(p: nat)
    requires p >= 1
    ensures var offset := (p as real - 1.0) * (PerPage as real);
      offset.Floor as real == offset && offset.Floor == PageOffset(p)
  {
    assert (p as real - 1.0) * (PerPage as real) == ((p - 1) * PerPage) as real;
  }

  /** A redirect is set exactly when the page is below 1 or past the last page of a non-empty result. */
  lemma RedirectIffOutOfRange(
    pageNumber: JsNumber, keywordParam: QueryParam, categoryParam: QueryParam,
    escape: string -> string, matching: string -> seq<ProductRow>)
    ensures var page := OrOne(pageNumber);
      var n := |matching(WhereOf(KeywordOf(keywordParam), CategoryOf(categoryParam), escape))|;
      var r := ListData(pageNumber, keywordParam, categoryParam, escape, matching);
      (r.Finished? && r.output.redirect.Some?)
        <==> (LessThan(page, 1.0) || (n > 0 && GreaterThan(page, TotalPages(n) as real)))
  {
  }

  /** Past the early redirect, the output echoes the trimmed keyword and sets the category only when it is non-empty. */
  lemma EchoesSearch(
    pageNumber: JsNumber, keywordParam: QueryParam, categoryParam: QueryParam,
    escape: string -> string, matching: string -> seq<ProductRow>)
    requires !LessThan(OrOne(pageNumber), 1.0)
    requires ListData(pageNumber, keywordParam, categoryParam, escape, matching).Finished?
    ensures var out := ListData(pageNumber, keywordParam, categoryParam, escape, matching).output;
      && out.keyword == KeywordOf(keywordParam)
      && (out.category.Some? <==> CategoryOf(categoryParam) != "")
      && (out.category.Some? ==> out.category.value == CategoryOf(categoryParam))
  {
    var keyword := KeywordOf(keywordParam);
    var category := CategoryOf(categoryParam);
    var output := Initial.(keyword := keyword, category := if category != "" then Some(category) else None);
    var where := WhereOf(keyword, category, escape);
    var all := matching(where);
    var page := OrOne(pageNumber);
    if |all| > 0 && !GreaterThan(page, TotalPages(|all|) as real) {
      var r := FetchWindow(page.value, output, where, all);
      assert r.Finished? ==> r.output.keyword == keyword && r.output.category == output.category;
    }
  }

  /**
   * Following a redirect settles. The URL `?page=N` replaces the whole query,
   * so the follow-up request has no keyword and no category; it is served
   * whenever the unfiltered listing has at least as many rows as the filtered one.
   */
  lemma RedirectSettles(
    pageNumber: JsNumber, keywordParam: QueryParam, categoryParam: QueryParam,
    escape: string -> string, matching: string -> seq<ProductRow>, target: nat)
    requires |matching(WhereOf(KeywordOf(keywordParam), CategoryOf(categoryParam), escape))|
             <= |matching(WhereOf("", "", escape))|
    requires var r := ListData(pageNumber, keywordParam, categoryParam, escape, matching);
      r.Finished? && r.output.redirect == Some(RedirectTo(target))
    ensures var r := ListData(Finite(target as real), Missing, Missing, escape, matching);
      r.Finished? && r.output.redirect == None && r.output.success
  {
    var page := OrOne(pageNumber);
    var n := |matching(WhereOf(KeywordOf(keywordParam), CategoryOf(categoryParam), escape))|;
    var m := |matching(WhereOf("", "", escape))|;
    RedirectIffOutOfRange(pageNumber, keywordParam, categoryParam, escape, matching);
    var settled: nat;
    if LessThan(page, 1.0) {
      EarlyRedirect(pageNumber, keywordParam, categoryParam, escape, matching);
      RedirectToFirst();
      settled := 1;
    } else {
      PastEndRedirects(pageNumber, keywordParam, categoryParam, escape, matching);
      settled := TotalPages(n);
      TotalPagesMonotone(n, m);
    }
    RedirectToInjective(target, settled);
    assert KeywordOf(Missing) == "" && CategoryOf(Missing) == "";
    if m > 0 {
      ServesWindow(target, Missing, Missing, escape, matching);
    } else {
      ZeroRowsSucceed(Finite(target as real), Missing, Missing, escape, matching);
    }
  }

  /**
   * The WHERE text starts with ` WHERE 1 `; the LIKE conjunct follows exactly
   * when the keyword is non-empty, and the text ends with the category
   * conjunct when the category is non-empty.
   */
  lemma WhereShape(keyword: string, category: string, escape: string -> string)
    ensures var w := WhereOf(keyword, category, escape);
      |w| >= 9 && w[..9] == " WHERE 1 "
    ensures var w := WhereOf(keyword, category, escape);
      (|w| >= 9 + |LikeOpening| && w[9..9 + |LikeOpening|] == LikeOpening) <==> keyword != ""
    ensures var w := WhereOf(keyword, category, escape);
      var tail := CategoryOpening + escape(category) + ")";
      category != "" ==> |w| >= 9 + |tail| && w[|w| - |tail|..] == tail
    ensures keyword == "" && category == "" ==> WhereOf(keyword, category, escape) == " WHERE 1 "
  {
    if keyword != "" {
      WhereWithKeyword(keyword, category, escape);
    } else {
      WhereWithoutKeyword(category, escape);
    }
  }

  lemma WhereWithKeyword(keyword: string, category: string, escape: string -> string)
    requires keyword != ""
    ensures var w := WhereOf(keyword, category, escape);
      |w| >= 9 + |LikeOpening| && w[..9] == " WHERE 1 " && w[9..9 + |LikeOpening|] == LikeOpening
    ensures var w := WhereOf(keyword, category, escape);
      var tail := CategoryOpening + escape(category) + ")";
      category != "" ==> |w| >= 9 + |tail| && w[|w| - |tail|..] == tail
  {
    var e := escape("%" + keyword + "%");
    var tail := if category != "" then RenderCondition(CategoryIs(category), escape) else "";
    assert WhereOf(keyword, category, escape) == " WHERE 1 " + (LikeOpening + e + ")") + tail;
    ConjunctAt(" WHERE 1 ", LikeOpening, e, tail);
  }

  lemma WhereWithoutKeyword(category: string, escape: string -> string)
    ensures var w := WhereOf("", category, escape);
      |w| >= 9 && w[..9] == " WHERE 1 "
    ensures var w := WhereOf("", category, escape);
      !(|w| >= 9 + |LikeOpening| && w[9..9 + |LikeOpening|] == LikeOpening)
    ensures var w := WhereOf("", category, escape);
      var tail := CategoryOpening + escape(category) + ")";
      category != "" ==> |w| >= 9 + |tail| && w[|w| - |tail|..] == tail
    ensures category == "" ==> WhereOf("", category, escape) == " WHERE 1 "
  {
    if category != "" {
      WhereCategoryOnly(category, escape);
    }
  }

  lemma WhereCategoryOnly(category: string, escape: string -> string)
    requires category != ""
    ensures WhereOf("", category, escape) == " WHERE 1 " + (CategoryOpening + escape(category) + ")") + ""
    ensures var w := WhereOf("", category, escape);
      !(|w| >= 9 + |LikeOpening| && w[9..9 + |LikeOpening|] == LikeOpening)
  {
    assert CategoryOpening[..|LikeOpening|] != LikeOpening by {
      assert CategoryOpening[..|LikeOpening|][6] == 'c' != LikeOpening[6];
    }
    ConjunctExcludes(" WHERE 1 ", CategoryOpening, escape(category), "", LikeOpening);
  }

  /** A conjunct whose opening does not start with `other` puts no `other` where it begins. */
  lemma ConjunctExcludes(before: string, opening: string, value: string, after: string, other: string)
    requires |other| <= |opening| && opening[..|other|] != other
    ensures var s := before + (opening + value + ")") + after;
      !(|s| >= |before| + |other| && s[|before|..|before| + |other|] == other)
  {
    var s := before + (opening + value + ")") + after;
    var k :| 0 <= k < |other| && opening[k] != other[k];
    assert s[|before| + k] == (opening + value + ")")[k] == opening[k];
    assert s[|before|..|before| + |other|][k] == s[|before| + k];
  }

  /** Where a conjunct `opening value)` and what surrounds it sit in a concatenation. */
  lemma ConjunctAt(before: string, opening: string, value: string, after: string)
    ensures var s := before + (opening + value + ")") + after;
      && |s| >= |before| + |opening| + |after|
      && s[..|before|] == before
      && s[|before|..|before| + |opening|] == opening
      && s[|s| - |after|..] == after
  {
    var s := before + (opening + value + ")") + after;
    assert s[|before|..|before| + |opening|] == opening by {
      forall i | 0 <= i < |opening|
        ensures s[|before| + i] == opening[i]
      {
        assert s[|before| + i] == (opening + value + ")")[i];
      }
    }
  }

  /** The WHERE text is the rendering of the structured filter. */
  lemma WhereRendersConditions(keyword: string, category: string, escape: string -> string)
    ensures WhereOf(keyword, category, escape) == RenderWhere(Conditions(keyword, category), escape)
  {
    var c1 := NameLike("%" + keyword + "%");
    var c2 := CategoryIs(category);
    if keyword != "" && category != "" {
      assert Conditions(keyword, category) == [c1, c2];
      RenderTwo(c1, c2, escape);
    } else if keyword != "" {
      assert Conditions(keyword, category) == [c1];
      RenderOne(c1, escape);
    } else if category != "" {
      assert Conditions(keyword, category) == [c2];
      RenderOne(c2, escape);
    } else {
      assert Conditions(keyword, category) == [];
    }
  }

  lemma RenderOne(c: Condition, escape: string -> string)
    ensures RenderWhere([c], escape) == " WHERE 1 " + RenderCondition(c, escape)
  {
    assert [c][..0] == [];
  }

  lemma RenderTwo(a: Condition, b: Condition, escape: string -> string)
    ensures RenderWhere([a, b], escape) == " WHERE 1 " + RenderCondition(a, escape) + RenderCondition(b, escape)
  {
    assert [a, b][..1] == [a];
    RenderOne(a, escape);
  }

  /** The rows the listing serves for pages 1 .. last, concatenated. */
  function ListedThrough(
    last: nat, keywordParam: QueryParam, categoryParam: QueryParam,
    escape: string -> string, matching: string -> seq<ProductRow>): seq<ProductRow>
  {
    Through((p: nat) => ListedRows(p, keywordParam, categoryParam, escape, matching), last)
  }

  /** The rows a request for `?page=p` shows, none when it is not served. */
  function ListedRows(
    p: nat, keywordParam: QueryParam, categoryParam: QueryParam,
    escape: string -> string, matching: string -> seq<ProductRow>): seq<ProductRow>
  {
    var r := ListData(Finite(p as real), keywordParam, categoryParam, escape, matching);
    if r.Finished? then r.output.rows else []
  }

  /** Requesting pages 1 .. totalPages in turn returns every matching row exactly once, in id order. */
  lemma ListedPagesReassemble(
    keywordParam: QueryParam, categoryParam: QueryParam,
    escape: string -> string, matching: string -> seq<ProductRow>)
    ensures var all := matching(WhereOf(KeywordOf(keywordParam), CategoryOf(categoryParam), escape));
      ListedThrough(TotalPages(|all|), keywordParam, categoryParam, escape, matching) == all
  {
    var all := matching(WhereOf(KeywordOf(keywordParam), CategoryOf(categoryParam), escape));
    ListedIsPaged(TotalPages(|all|), keywordParam, categoryParam, escape, matching);
    PagesReassemble(all);
  }

  lemma ListedIsPaged(
    last: nat, keywordParam: QueryParam, categoryParam: QueryParam,
    escape: string -> string, matching: string -> seq<ProductRow>)
    requires last <= TotalPages(|matching(WhereOf(KeywordOf(keywordParam), CategoryOf(categoryParam), escape))|)
    ensures var all := matching(WhereOf(KeywordOf(keywordParam), CategoryOf(categoryParam), escape));
      ListedThrough(last, keywordParam, categoryParam, escape, matching) == PagesThrough(all, last)
  {
    var all := matching(WhereOf(KeywordOf(keywordParam), CategoryOf(categoryParam), escape));
    var rows := (p: nat) => ListedRows(p, keywordParam, categoryParam, escape, matching);
    forall p | 1 <= p <= last
      ensures rows(p) == PageRows(all, p)
    {
      ListedRowsArePage(p, keywordParam, categoryParam, escape, matching);
    }
    ThroughAgrees(rows, all, last);
  }

  /** A page in range shows exactly its window of the matching rows. */
  lemma ListedRowsArePage(
    p: nat, keywordParam: QueryParam, categoryParam: QueryParam,
    escape: string -> string, matching: string -> seq<ProductRow>)
    requires 1 <= p <= TotalPages(|matching(WhereOf(KeywordOf(keywordParam), CategoryOf(categoryParam), escape))|)
    ensures var all := matching(WhereOf(KeywordOf(keywordParam), CategoryOf(categoryParam), escape));
      ListedRows(p, keywordParam, categoryParam, escape, matching) == PageRows(all, p)
  {
    ServesWindow(p, keywordParam, categoryParam, escape, matching);
  }
}

/**
 * The competition list page: its filter state, the update that one form control makes to
 * it, and the derived list `filteredConcursos` (filter by four predicates, then a stable
 * sort chosen by the `sortBy` key).
 */
module Home {
  import opened Types
  import opened Text
  import opened Sequences
  import opened Sorting

  /** The page's filter state; every field holds the text of its form control. */
  datatype Filters = Filters(search: string, status: string, salarioMin: string, salarioMax: string, sortBy: string)

  /** The state the page starts with: every control empty. */
  const InitialFilters := Filters("", "", "", "", "")

  /** The field a control name addresses, or `None` for a name the state does not hold. */
  function Field(f: Filters, name: string): Option<string>
  {
    if name == "search" then Some(f.search)
    else if name == "status" then Some(f.status)
    else if name == "salarioMin" then Some(f.salarioMin)
    else if name == "salarioMax" then Some(f.salarioMax)
    else if name == "sortBy" then Some(f.sortBy)
    else None
  }

  /**
   * `handleFilterChange(name, value)`: the field `name` becomes `value` and every other field
   * keeps its value. A name outside the five (the board control sends "banca") changes
   * none of them.
   */
  function HandleFilterChange(f: Filters, name: string, value: string): (r: Filters)
    ensures Field(f, name).Some? ==> Field(r, name) == Some(value)
    ensures forall other :: other != name ==> Field(r, other) == Field(f, other)
    ensures Field(f, name).None? ==> r == f
  {
    if name == "search" then f.(search := value)
    else if name == "status" then f.(status := value)
    else if name == "salarioMin" then f.(salarioMin := value)
    else if name == "salarioMax" then f.(salarioMax := value)
    else if name == "sortBy" then f.(sortBy := value)
    else f
  }

  /** The lower-cased name contains the lower-cased query. */
  predicate MatchesSearch(c: Concurso, search: string)
  {
    Contains(ToLower(c.concurso), ToLower(search))
  }

  /** An empty status accepts every competition; otherwise the status must be equal. */
  predicate MatchesStatus(c: Concurso, status: string)
  {
    status == "" || c.status == status
  }

  /** An empty bound accepts everything; a bound that is not a number (NaN) accepts nothing. */
  predicate MatchesSalarioMin(c: Concurso, bound: string)
  {
    bound == "" || (ToNumber(bound).Some? && AtLeast(c.salarioMax, ToNumber(bound).value))
  }

  predicate MatchesSalarioMax(c: Concurso, bound: string)
  {
    bound == "" || (ToNumber(bound).Some? && AtMost(c.salarioMax, ToNumber(bound).value))
  }

  predicate Matches(f: Filters, c: Concurso)
  {
    && MatchesSearch(c, f.search)
    && MatchesStatus(c, f.status)
    && MatchesSalarioMin(c, f.salarioMin)
    && MatchesSalarioMax(c, f.salarioMax)
  }

  function Keep(f: Filters): Concurso -> bool
  {
    c => Matches(f, c)
  }

  /**
   * The filter step: the competitions that pass all four predicates, in input order,
   * each as often as in the input.
   */
  function FilterConcursos(cs: seq<Concurso>, f: Filters): (r: seq<Concurso>)
    ensures IsSubsequence(r, cs)
    ensures forall i :: 0 <= i < |r| ==> Matches(f, r[i])
    ensures forall i :: 0 <= i < |cs| && Matches(f, cs[i]) ==> cs[i] in r
    ensures forall c :: multiset(r)[c] == if Matches(f, c) then multiset(cs)[c] else 0
  {
    FilterMembers(cs, Keep(f));
    FilterIsSubsequence(cs, Keep(f));
    FilterCount(cs, Keep(f));
    Filter(cs, Keep(f))
  }

  /** The comparator chosen by `sortBy`; an unknown key ties everything. */
  function Cmp(sortBy: string, a: Concurso, b: Concurso): int
  {
    if sortBy == "nome" then LexCompare(a.concurso, b.concurso)
    else if sortBy == "vagas" then b.vagasTotal - a.vagasTotal
    else if sortBy == "salario" then b.salarioMax - a.salarioMax
    else if sortBy == "status" then LexCompare(a.status, b.status)
    else 0
  }

  function Comparator(sortBy: string): (Concurso, Concurso) -> int
  {
    (a, b) => Cmp(sortBy, a, b)
  }

  /** Every key selects a consistent comparator, so the sort is well defined. */
  lemma ComparatorIsConsistent(sortBy: string)
    ensures IsComparator(Comparator(sortBy))
  {
    var cmp := Comparator(sortBy);
    forall a, b ensures cmp(a, b) < 0 <==> cmp(b, a) > 0 {
      LexCompareFlip(a.concurso, b.concurso);
      LexCompareFlip(a.status, b.status);
    }
    forall a, b, c | cmp(a, b) <= 0 && cmp(b, c) <= 0 ensures cmp(a, c) <= 0 {
      if sortBy == "nome" {
        LexCompareTransitive(a.concurso, b.concurso, c.concurso);
      } else if sortBy == "status" {
        LexCompareTransitive(a.status, b.status, c.status);
      }
    }
  }

  /** The sort step (`.sort` on the freshly filtered array): a stable sort by the chosen key. */
  function SortConcursos(cs: seq<Concurso>, sortBy: string): (r: seq<Concurso>)
    ensures multiset(r) == multiset(cs)
  {
    Sort(cs, Comparator(sortBy))
  }

  /** `filteredConcursos`: filter, then sort. */
  function FilteredConcursos(cs: seq<Concurso>, f: Filters): (r: seq<Concurso>)
    ensures forall c :: multiset(r)[c] == if Matches(f, c) then multiset(cs)[c] else 0
  {
    SortConcursos(FilterConcursos(cs, f), f.sortBy)
  }

  /**
   * The derived list is ordered by the chosen key, and competitions that the key ties
   * keep the order they had in the input.
   */
  lemma FilteredConcursosOrdered(cs: seq<Concurso>, f: Filters, k: Concurso)
    ensures SortedBy(FilteredConcursos(cs, f), Comparator(f.sortBy))
    ensures Filter(FilteredConcursos(cs, f), TiedWith(Comparator(f.sortBy), k))
         == Filter(FilterConcursos(cs, f), TiedWith(Comparator(f.sortBy), k))
  {
    ComparatorIsConsistent(f.sortBy);
    SortSorted(FilterConcursos(cs, f), Comparator(f.sortBy));
    SortStable(FilterConcursos(cs, f), Comparator(f.sortBy), k);
  }

  /** Sorting by "vagas" lists the most positions first. */
  lemma SortByVagas(cs: seq<Concurso>)
    ensures forall i, j :: 0 <= i < j < |SortConcursos(cs, "vagas")| ==>
      SortConcursos(cs, "vagas")[i].vagasTotal >= SortConcursos(cs, "vagas")[j].vagasTotal
  {
    ComparatorIsConsistent("vagas");
    SortSorted(cs, Comparator("vagas"));
  }

  /** Sorting by "salario" lists the highest salary first. */
  lemma SortBySalario(cs: seq<Concurso>)
    ensures forall i, j :: 0 <= i < j < |SortConcursos(cs, "salario")| ==>
      SortConcursos(cs, "salario")[i].salarioMax >= SortConcursos(cs, "salario")[j].salarioMax
  {
    ComparatorIsConsistent("salario");
    SortSorted(cs, Comparator("salario"));
  }

  /** Sorting by "nome" lists names in ascending string order. */
  lemma SortByNome(cs: seq<Concurso>)
    ensures forall i, j :: 0 <= i < j < |SortConcursos(cs, "nome")| ==>
      LexCompare(SortConcursos(cs, "nome")[i].concurso, SortConcursos(cs, "nome")[j].concurso) <= 0
  {
    ComparatorIsConsistent("nome");
    SortSorted(cs, Comparator("nome"));
  }

  /** Sorting by "status" lists statuses in ascending string order. */
  lemma SortByStatus(cs: seq<Concurso>)
    ensures forall i, j :: 0 <= i < j < |SortConcursos(cs, "status")| ==>
      LexCompare(SortConcursos(cs, "status")[i].status, SortConcursos(cs, "status")[j].status) <= 0
  {
    ComparatorIsConsistent("status");
    SortSorted(cs, Comparator("status"));
  }

  /** An empty or unknown key leaves the filtered order as it is. */
  lemma SortByUnknownKey(cs: seq<Concurso>, sortBy: string)
    requires sortBy !in ["nome", "vagas", "salario", "status"]
    ensures SortConcursos(cs, sortBy) == cs
  {
    SortAllTied(cs, Comparator(sortBy));
  }

  /** An empty query matches every name, and the query's case does not matter. */
  lemma SearchIgnoresCase(c: Concurso, q: string)
    ensures MatchesSearch(c, "")
    ensures MatchesSearch(c, q) == MatchesSearch(c, ToLower(q))
    ensures Contains(c.concurso, q) ==> MatchesSearch(c, q)
  {
    ContainsEmpty(ToLower(c.concurso));
    ToLowerIdempotent(q);
    if Contains(c.concurso, q) {
      ContainsLower(c.concurso, q);
    }
  }

  /** With every control empty the page lists the competitions as loaded. */
  lemma InitialFiltersShowAll(cs: seq<Concurso>)
    ensures FilteredConcursos(cs, InitialFilters) == cs
  {
    forall i | 0 <= i < |cs| ensures Keep(InitialFilters)(cs[i]) {
      SearchIgnoresCase(cs[i], "");
    }
    FilterAll(cs, Keep(InitialFilters));
    SortByUnknownKey(cs, "");
  }

  /** The salary bounds are inclusive: an integer bound keeps exactly the salaries on its side. */
  lemma SalaryBoundsInclusive(c: Concurso, n: int)
    ensures MatchesSalarioMin(c, IntToString(n)) <==> c.salarioMax >= n
    ensures MatchesSalarioMax(c, IntToString(n)) <==> c.salarioMax <= n
  {
    NumberOfRendering(n);
  }

  /** Two bounds, the minimum above the maximum, leave nothing. */
  lemma MinAboveMaxIsEmpty(cs: seq<Concurso>, f: Filters, lo: Decimal, hi: Decimal)
    requires f.salarioMin != "" && f.salarioMax != ""
    requires ToNumber(f.salarioMin) == Some(lo) && ToNumber(f.salarioMax) == Some(hi) && Below(hi, lo)
    ensures FilteredConcursos(cs, f) == []
  {
    var r := FilteredConcursos(cs, f);
    forall c ensures !Matches(f, c) {
      NoIntegerBetween(c.salarioMax, lo, hi);
    }
    assert multiset(r) == multiset{};
    assert |r| == |multiset(r)|;
  }

  /** A decimal bound is compared exactly: "1500.5" keeps salaries from 1501 as a minimum and up to 1500 as a maximum. */
  lemma DecimalBoundExact(c: Concurso)
    ensures MatchesSalarioMin(c, "1500.5") <==> c.salarioMax >= 1501
    ensures MatchesSalarioMax(c, "1500.5") <==> c.salarioMax <= 1500
  {
    assert "1500.5" == "1500" + "." + "5";
    assert "1500" + "5" == "15005";
    assert DigitsValue("15005") == 15005 by {
      assert "15005"[..4] == "1500" && "1500"[..3] == "150" && "150"[..2] == "15" && "15"[..1] == "1";
    }
    PointNumber("1500", "5");
  }

  /** An exponent bound is its value: "1e3" as a minimum keeps salaries from 1000. */
  lemma ExponentBoundExact(c: Concurso)
    ensures MatchesSalarioMin(c, "1e3") <==> c.salarioMax >= 1000
  {
    assert "1e3" == "1" + "e" + "3";
    ExponentNumber("1", "3");
    assert DigitsValue("1") == 1 && DigitsValue("3") == 3;
    assert 1 * Pow10(3) == 1000;
  }

  /** A bound that is not a number compares false with every salary and so leaves nothing. */
  lemma NonNumericBoundIsEmpty(cs: seq<Concurso>, f: Filters)
    requires (f.salarioMin != "" && ToNumber(f.salarioMin).None?) || (f.salarioMax != "" && ToNumber(f.salarioMax).None?)
    ensures FilteredConcursos(cs, f) == []
  {
    var r := FilteredConcursos(cs, f);
    forall c ensures !Matches(f, c) {
    }
    assert multiset(r) == multiset{};
    assert |r| == |multiset(r)|;
  }

  /** Of two competitions, a status filter keeps exactly the one with that status. */
  lemma StatusFilterPair(a: Concurso, b: Concurso, status: string)
    requires status != "" && a.status == status && b.status != status
    ensures FilteredConcursos([a, b], InitialFilters.(status := status)) == [a]
  {
    var f := InitialFilters.(status := status);
    SearchIgnoresCase(a, "");
    assert Matches(f, a) && !Matches(f, b);
    assert [a, b] == [a] + [b];
    FilterAppend([a], [b], Keep(f));
    assert FilterConcursos([a, b], f) == [a];
    SortAllTied([a], Comparator(f.sortBy));
  }

  /** Sorting by "salario" swaps two competitions listed with the lower salary first. */
  lemma SalarySortPair(a: Concurso, b: Concurso)
    requires a.salarioMax < b.salarioMax
    ensures FilteredConcursos([a, b], InitialFilters.(sortBy := "salario")) == [b, a]
  {
    var f := InitialFilters.(sortBy := "salario");
    assert ToLower("") == "";
    ContainsEmpty(ToLower(a.concurso));
    ContainsEmpty(ToLower(b.concurso));
    assert Matches(f, a) && Matches(f, b);
    forall i | 0 <= i < 2 ensures Keep(f)([a, b][i]) {
    }
    calc {
      FilteredConcursos([a, b], f);
      Sort(Filter([a, b], Keep(f)), Comparator("salario"));
      { FilterAll([a, b], Keep(f)); }
      Sort([a, b], Comparator("salario"));
      { SortPair(a, b, Comparator("salario")); }
      [b, a];
    }
  }
}

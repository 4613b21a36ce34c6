/**
 * The competition details page: the stage filter state and its update, the filtered
 * stages, their grouping by section, and the list of sections offered by the section
 * filter.
 */
module ConcursoDetails {
  import opened Types
  import opened Text
  import opened Sequences
  import opened Sorting
  import opened Dates

  /** The stage filter state; every field holds the text of its form control. */
  datatype StageFilters = StageFilters(secao: string, etapa: string, dataInicio: string, dataFim: string)

  const InitialStageFilters := StageFilters("", "", "", "")

  function Field(f: StageFilters, name: string): Option<string>
  {
    if name == "secao" then Some(f.secao)
    else if name == "etapa" then Some(f.etapa)
    else if name == "dataInicio" then Some(f.dataInicio)
    else if name == "dataFim" then Some(f.dataFim)
    else None
  }

  /** `handleFilterChange(name, value)`: only the field `name` changes, and it becomes `value`. */
  function HandleFilterChange(f: StageFilters, name: string, value: string): (r: StageFilters)
    ensures Field(f, name).Some? ==> Field(r, name) == Some(value)
    ensures forall other :: other != name ==> Field(r, other) == Field(f, other)
    ensures Field(f, name).None? ==> r == f
  {
    if name == "secao" then f.(secao := value)
    else if name == "etapa" then f.(etapa := value)
    else if name == "dataInicio" then f.(dataInicio := value)
    else if name == "dataFim" then f.(dataFim := value)
    else f
  }

  predicate MatchesSecao(e: Etapa, secao: string)
  {
    secao == "" || e.secao == secao
  }

  predicate MatchesEtapa(e: Etapa, query: string)
  {
    query == "" || Contains(ToLower(e.etapa), ToLower(query))
  }

  /**
   * `new Date(published) >= new Date(bound)`: dates compare by time value; a bound that is
   * not a date is an invalid date, and every comparison with it is false.
   */
  predicate MatchesDataInicio(e: Etapa, bound: string)
  {
    bound == "" || (ParseIsoDate(bound).Some? && DayNumber(e.dataPublicado) >= DayNumber(ParseIsoDate(bound).value))
  }

  predicate MatchesDataFim(e: Etapa, bound: string)
  {
    bound == "" || (ParseIsoDate(bound).Some? && DayNumber(e.dataPublicado) <= DayNumber(ParseIsoDate(bound).value))
  }

  predicate Matches(f: StageFilters, e: Etapa)
  {
    && MatchesSecao(e, f.secao)
    && MatchesEtapa(e, f.etapa)
    && MatchesDataInicio(e, f.dataInicio)
    && MatchesDataFim(e, f.dataFim)
  }

  function Keep(f: StageFilters): Etapa -> bool
  {
    e => Matches(f, e)
  }

  /** `filteredEtapas`: the stages passing all four checks, in input order. */
  function FilterEtapas(es: seq<Etapa>, f: StageFilters): (r: seq<Etapa>)
    ensures IsSubsequence(r, es)
    ensures forall i :: 0 <= i < |r| ==> Matches(f, r[i])
    ensures forall i :: 0 <= i < |es| && Matches(f, es[i]) ==> es[i] in r
    ensures forall e :: multiset(r)[e] == if Matches(f, e) then multiset(es)[e] else 0
  {
    FilterMembers(es, Keep(f));
    FilterIsSubsequence(es, Keep(f));
    FilterCount(es, Keep(f));
    Filter(es, Keep(f))
  }

  /** With every control empty the page shows every stage. */
  lemma InitialFiltersShowAll(es: seq<Etapa>)
    ensures FilterEtapas(es, InitialStageFilters) == es
  {
    FilterAll(es, Keep(InitialStageFilters));
  }

  /**
   * The date bounds are inclusive calendar bounds: the text of date `b` as a lower bound
   * keeps exactly the stages published on or after `b`, as an upper bound those published
   * on or before `b`.
   */
  lemma DateBoundsInclusive(e: Etapa, b: Date)
    requires IsValidDate(e.dataPublicado) && IsValidDate(b) && 0 <= b.year < 10000
    ensures MatchesDataInicio(e, FormatIsoDate(b)) <==> !Before(e.dataPublicado, b)
    ensures MatchesDataFim(e, FormatIsoDate(b)) <==> !Before(b, e.dataPublicado)
    ensures e.dataPublicado == b ==> MatchesDataInicio(e, FormatIsoDate(b)) && MatchesDataFim(e, FormatIsoDate(b))
  {
    ParseFormat(b);
    DayNumberOrder(e.dataPublicado, b);
    DayNumberOrder(b, e.dataPublicado);
  }

  /** A non-empty date bound that is not a valid date leaves no stage. */
  lemma InvalidDateBoundIsEmpty(es: seq<Etapa>, f: StageFilters)
    requires (f.dataInicio != "" && ParseIsoDate(f.dataInicio).None?) || (f.dataFim != "" && ParseIsoDate(f.dataFim).None?)
    ensures FilterEtapas(es, f) == []
  {
    var r := FilterEtapas(es, f);
    forall e ensures !Matches(f, e) {
    }
    assert multiset(r) == multiset{};
    assert |r| == |multiset(r)|;
  }

  /** The section label of each stage, in stage order (`etapas.map(e => e.secao)`). */
  function Secoes(es: seq<Etapa>): (r: seq<string>)
    ensures |r| == |es|
    ensures forall i :: 0 <= i < |es| ==> r[i] == es[i].secao
  {
    if es == [] then [] else Secoes(es[..|es| - 1]) + [es[|es| - 1].secao]
  }

  function InSecao(s: string): Etapa -> bool
  {
    (e: Etapa) => e.secao == s
  }

  /** A section that no stage carries has an empty group. */
  lemma AbsentSecao(es: seq<Etapa>, s: string)
    requires s !in Secoes(es)
    ensures Filter(es, InSecao(s)) == []
  {
    forall i | 0 <= i < |es| ensures !InSecao(s)(es[i]) {
      assert Secoes(es)[i] == es[i].secao;
    }
    FilterNone(es, InSecao(s));
  }

  /** `secoes` lists the sections of `pre` in first-occurrence order. */
  ghost predicate SectionsOf(pre: seq<Etapa>, secoes: seq<string>)
  {
    secoes == Distinct(Secoes(pre))
  }

  /** Each key of `grupos` holds the stages of `pre` in its section, in order. */
  ghost predicate GroupsOf(pre: seq<Etapa>, grupos: map<string, seq<Etapa>>)
  {
    forall s :: s in grupos ==> grupos[s] == Filter(pre, InSecao(s))
  }

  lemma SecoesSnoc(pre: seq<Etapa>, e: Etapa)
    ensures Secoes(pre + [e]) == Secoes(pre) + [e.secao]
  {
    assert (pre + [e])[..|pre|] == pre;
  }

  /** A stage adds its section to the list when the section is new, and otherwise leaves it. */
  lemma SectionsStep(pre: seq<Etapa>, e: Etapa, secoes: seq<string>)
    requires SectionsOf(pre, secoes)
    ensures e.secao in secoes <==> e.secao in Secoes(pre)
    ensures e.secao in secoes ==> SectionsOf(pre + [e], secoes)
    ensures e.secao !in secoes ==> SectionsOf(pre + [e], secoes + [e.secao])
  {
    SecoesSnoc(pre, e);
    DistinctSnoc(Secoes(pre), e.secao);
    DistinctMember(Secoes(pre), e.secao);
  }

  /** Pushing a stage onto its section's existing group. */
  lemma PushStep(pre: seq<Etapa>, e: Etapa, grupos: map<string, seq<Etapa>>)
    requires GroupsOf(pre, grupos) && e.secao in grupos
    ensures GroupsOf(pre + [e], grupos[e.secao := grupos[e.secao] + [e]])
  {
    forall s | s in grupos ensures Filter(pre + [e], InSecao(s)) == Filter(pre, InSecao(s)) + (if s == e.secao then [e] else []) {
      FilterSnoc(pre, e, InSecao(s));
    }
  }

  /** Creating the group of a section no earlier stage has, holding just the stage. */
  lemma CreateStep(pre: seq<Etapa>, e: Etapa, grupos: map<string, seq<Etapa>>)
    requires GroupsOf(pre, grupos) && e.secao !in Secoes(pre)
    ensures GroupsOf(pre + [e], grupos[e.secao := [e]])
  {
    AbsentSecao(pre, e.secao);
    forall s | s in grupos || s == e.secao ensures Filter(pre + [e], InSecao(s)) == Filter(pre, InSecao(s)) + (if s == e.secao then [e] else []) {
      FilterSnoc(pre, e, InSecao(s));
    }
  }

  /**
   * The `etapasPorSecao` reduce, over a dictionary without inherited keys: `secoes` lists the
   * keys in the order they were created, and each group receives its stages by `push`.
   * Each group is exactly the input's stages of that section, in input order, and the
   * groups are created in first-occurrence order of their sections.
   */
  method GroupBySecao(es: seq<Etapa>) returns (secoes: seq<string>, grupos: map<string, seq<Etapa>>)
    ensures secoes == Distinct(Secoes(es))
    ensures forall s :: s in grupos <==> s in secoes
    ensures forall s :: s in grupos ==> grupos[s] == Filter(es, InSecao(s))
  {
    secoes, grupos := [], map[];
    ghost var seen: seq<Etapa> := [];
    var i := 0;
    while i < |es|
      invariant 0 <= i <= |es| && seen == es[..i]
      invariant SectionsOf(seen, secoes)
      invariant forall s :: s in grupos <==> s in secoes
      invariant GroupsOf(seen, grupos)
    {
      var e := es[i];
      SectionsStep(seen, e, secoes);
      if e.secao in grupos {
        PushStep(seen, e, grupos);
        grupos := grupos[e.secao := grupos[e.secao] + [e]];
      } else {
        // a new key: its empty array is created and receives the stage
        CreateStep(seen, e, grupos);
        grupos := grupos[e.secao := [e]];
        secoes := secoes + [e.secao];
      }
      PrefixSnoc(es, i);
      seen := seen + [e];
      i := i + 1;
    }
    assert es[..|es|] == es;
  }

  /** Every stage in a section's group belongs to that section. */
  lemma GroupsHaveTheirSecao(es: seq<Etapa>, s: string)
    ensures forall i :: 0 <= i < |Filter(es, InSecao(s))| ==> Filter(es, InSecao(s))[i].secao == s
  {
    FilterMembers(es, InSecao(s));
  }

  /** The sum of the group sizes of `keys`. */
  function GroupSizes(keys: seq<string>, es: seq<Etapa>): nat
  {
    if keys == [] then 0 else |Filter(es, InSecao(keys[0]))| + GroupSizes(keys[1..], es)
  }

  /** The groups partition the stages: their sizes add up to the number of stages. */
  lemma {:induction false} GroupSizesSum(es: seq<Etapa>)
    ensures GroupSizes(Distinct(Secoes(es)), es) == |es|
  {
    if es != [] {
      var init, x := es[..|es| - 1], es[|es| - 1];
      assert es == init + [x];
      assert Secoes(es) == Secoes(init) + [x.secao];
      assert Secoes(es)[..|es| - 1] == Secoes(init);
      var d := Distinct(Secoes(init));
      GroupSizesSum(init);
      GroupSizesSnoc(d, init, x);
      if x.secao !in d {
        assert x.secao !in Secoes(init);
        AbsentSecao(init, x.secao);
        FilterAppend(init, [x], InSecao(x.secao));
        GroupSizesAppend(d, x.secao, es);
      }
    }
  }

  /** Adding one stage adds one to the total of distinct keys exactly when its section is among them. */
  lemma {:induction false} GroupSizesSnoc(keys: seq<string>, init: seq<Etapa>, x: Etapa)
    requires NoDuplicates(keys)
    ensures GroupSizes(keys, init + [x]) == GroupSizes(keys, init) + (if x.secao in keys then 1 else 0)
  {
    if keys != [] {
      assert NoDuplicates(keys[1..]) by {
        forall i, j | 0 <= i < j < |keys[1..]| ensures keys[1..][i] != keys[1..][j] {
          assert keys[1..][i] == keys[i + 1] && keys[1..][j] == keys[j + 1];
        }
      }
      GroupSizesSnoc(keys[1..], init, x);
      FilterAppend(init, [x], InSecao(keys[0]));
      assert keys == [keys[0]] + keys[1..];
      if keys[0] == x.secao {
        assert x.secao !in keys[1..] by {
          forall j | 0 <= j < |keys[1..]| ensures keys[1..][j] != x.secao {
            assert keys[1..][j] == keys[j + 1];
          }
        }
      }
    }
  }

  lemma {:induction false} GroupSizesAppend(keys: seq<string>, k: string, es: seq<Etapa>)
    ensures GroupSizes(keys + [k], es) == GroupSizes(keys, es) + |Filter(es, InSecao(k))|
  {
    if keys != [] {
      assert (keys + [k])[1..] == keys[1..] + [k];
      GroupSizesAppend(keys[1..], k, es);
    } else {
      assert [] + [k] == [k];
    }
  }

  /**
   * The page's grouping: the groups of the filtered stages, each holding its section's
   * stages and nothing else, and together holding every filtered stage once.
   */
  method EtapasPorSecao(es: seq<Etapa>, f: StageFilters) returns (secoes: seq<string>, grupos: map<string, seq<Etapa>>)
    ensures secoes == Distinct(Secoes(FilterEtapas(es, f)))
    ensures NoDuplicates(secoes) && (forall s :: s in grupos <==> s in secoes)
    ensures forall s :: s in grupos ==> (forall i :: 0 <= i < |grupos[s]| ==> grupos[s][i].secao == s && Matches(f, grupos[s][i]))
    ensures GroupSizes(secoes, FilterEtapas(es, f)) == |FilterEtapas(es, f)|
    ensures forall s :: s in grupos ==> grupos[s] == Filter(FilterEtapas(es, f), InSecao(s))
  {
    var filtered := FilterEtapas(es, f);
    secoes, grupos := GroupBySecao(filtered);
    GroupSizesSum(filtered);
    MembersMatch(es, f);
    forall s | s in grupos
      ensures forall i :: 0 <= i < |grupos[s]| ==> grupos[s][i].secao == s && Matches(f, grupos[s][i])
    {
      FilterMembers(filtered, InSecao(s));
    }
  }

  lemma MembersMatch(es: seq<Etapa>, f: StageFilters)
    ensures forall e :: e in FilterEtapas(es, f) ==> Matches(f, e)
  {
    FilterMembers(es, Keep(f));
  }

  /** String order, the default order of `Array.prototype.sort`. */
  function StringOrder(): (string, string) -> int
  {
    (a, b) => LexCompare(a, b)
  }

  lemma StringOrderIsConsistent()
    ensures IsComparator(StringOrder())
  {
    forall a, b ensures LexCompare(a, b) < 0 <==> LexCompare(b, a) > 0 {
      LexCompareFlip(a, b);
    }
    forall a, b, c | LexCompare(a, b) <= 0 && LexCompare(b, c) <= 0 ensures LexCompare(a, c) <= 0 {
      LexCompareTransitive(a, b, c);
    }
  }

  /**
   * `uniqueSecoes`: the sections of all stages, filtered or not, each once, in strictly
   * ascending order.
   */
  function UniqueSecoes(es: seq<Etapa>): (r: seq<string>)
    ensures forall i, j :: 0 <= i < j < |r| ==> LexCompare(r[i], r[j]) < 0
    ensures forall s :: s in r <==> s in Secoes(es)
  {
    var d := Distinct(Secoes(es));
    var r := Sort(d, StringOrder());
    StringOrderIsConsistent();
    SortSorted(d, StringOrder());
    PermutationNoDuplicates(r, d);
    forall i, j | 0 <= i < j < |r| ensures LexCompare(r[i], r[j]) < 0 {
      LexCompareZero(r[i], r[j]);
    }
    forall s ensures s in r <==> s in Secoes(es) {
      assert s in r <==> s in multiset(r);
      assert s in d <==> s in multiset(d);
    }
    r
  }

  /** Every section a group of the filtered stages can have is one the section filter offers. */
  lemma GroupsAreOffered(es: seq<Etapa>, f: StageFilters)
    ensures forall s :: s in Distinct(Secoes(FilterEtapas(es, f))) ==> s in UniqueSecoes(es)
  {
    var filtered := FilterEtapas(es, f);
    FilterMembers(es, Keep(f));
    forall s | s in Distinct(Secoes(filtered)) ensures s in Secoes(es) {
      DistinctMember(Secoes(filtered), s);
      var i :| 0 <= i < |Secoes(filtered)| && Secoes(filtered)[i] == s;
      assert filtered[i] in es;
      var j :| 0 <= j < |es| && es[j] == filtered[i];
      assert Secoes(es)[j] == s;
    }
  }

  /**
   * The property names a plain object literal inherits from `Object.prototype`: reading
   * one of them on `{}` gives a function (or, for `__proto__`, the prototype itself).
   */
  const InheritedNames: set<string> := {
    "constructor", "hasOwnProperty", "isPrototypeOf", "propertyIsEnumerable",
    "toLocaleString", "toString", "valueOf", "__defineGetter__", "__defineSetter__",
    "__lookupGetter__", "__lookupSetter__", "__proto__"
  }

  /**
   * One step of the reduce as written, over `{}`: an own key receives the stage; a missing
   * key is created first; an inherited name is truthy, so no array is created and the
   * `push` on the inherited value throws a TypeError, modelled as `None`.
   */
  function ReduceStep(acc: map<string, seq<Etapa>>, e: Etapa): Option<map<string, seq<Etapa>>>
  {
    if e.secao in acc then Some(acc[e.secao := acc[e.secao] + [e]])
    else if e.secao in InheritedNames then None
    else Some(acc[e.secao := [e]])
  }

  function ReduceAsWritten(es: seq<Etapa>): Option<map<string, seq<Etapa>>>
  {
    if es == [] then Some(map[])
    else
      match ReduceAsWritten(es[..|es| - 1])
      case None => None
      case Some(acc) => ReduceStep(acc, es[|es| - 1])
  }

  /** Some stage's section is an inherited name. */
  predicate HasInheritedSecao(es: seq<Etapa>)
  {
    exists i :: 0 <= i < |es| && es[i].secao in InheritedNames
  }

  lemma HasInheritedSnoc(init: seq<Etapa>, x: Etapa)
    ensures HasInheritedSecao(init + [x]) <==> HasInheritedSecao(init) || x.secao in InheritedNames
  {
    var es := init + [x];
    if HasInheritedSecao(init) {
      var i :| 0 <= i < |init| && init[i].secao in InheritedNames;
      assert es[i] == init[i];
    }
    if x.secao in InheritedNames {
      assert es[|init|] == x;
    }
    if HasInheritedSecao(es) {
      var i :| 0 <= i < |es| && es[i].secao in InheritedNames;
      if i < |init| {
        assert es[i] == init[i];
      }
    }
  }

  /** A dictionary whose keys are the sections of `pre`, each holding its stages. */
  ghost predicate GroupingOf(pre: seq<Etapa>, acc: map<string, seq<Etapa>>)
  {
    (forall s :: s in acc <==> s in Secoes(pre)) && GroupsOf(pre, acc)
  }

  /** One step of the reduce as written, from a correct grouping of stages without inherited sections. */
  lemma ReduceStepBehaviour(init: seq<Etapa>, x: Etapa, acc: map<string, seq<Etapa>>)
    requires GroupingOf(init, acc) && !HasInheritedSecao(init)
    ensures ReduceStep(acc, x).None? <==> x.secao in InheritedNames
    ensures ReduceStep(acc, x).Some? ==> GroupingOf(init + [x], ReduceStep(acc, x).value)
  {
    SecoesSnoc(init, x);
    if x.secao in acc {
      var i :| 0 <= i < |Secoes(init)| && Secoes(init)[i] == x.secao;
      assert init[i].secao == x.secao;
      PushStep(init, x, acc);
    } else if x.secao !in InheritedNames {
      CreateStep(init, x, acc);
    }
  }

  /**
   * The reduce as written throws exactly when some stage's section is an inherited name;
   * otherwise it builds the same groups as GroupBySecao.
   */
  lemma {:induction false} ReduceAsWrittenBehaviour(es: seq<Etapa>)
    ensures ReduceAsWritten(es).None? <==> HasInheritedSecao(es)
    ensures ReduceAsWritten(es).Some? ==> GroupingOf(es, ReduceAsWritten(es).value)
  {
    if es != [] {
      var init, x := es[..|es| - 1], es[|es| - 1];
      assert es == init + [x];
      ReduceAsWrittenBehaviour(init);
      HasInheritedSnoc(init, x);
      if ReduceAsWritten(init).Some? {
        ReduceStepBehaviour(init, x, ReduceAsWritten(init).value);
      }
    }
  }

  /** A single stage in a section named "toString" makes the reduce as written throw. */
  lemma ToStringSecaoThrows()
    ensures var e := Etapa(1, 1, "toString", "Edital", Date(2024, 0, 10), "");
            ReduceAsWritten([e]).None? && Filter([e], InSecao("toString")) == [e]
  {
    var e := Etapa(1, 1, "toString", "Edital", Date(2024, 0, 10), "");
    assert [e][..0] == [];
  }
}

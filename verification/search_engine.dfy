/**
  The search engine: keyword and fuzzy ranking of records against a free-text
  query, numeric range and category filters, the combination of the three,
  and query suggestions.

  A record is a dict from field names to values. Scores are exact reals;
  the minimum score 0.3 is exactly 3/10.
*/
module SearchEngine {
  import opened Builtins
  import opened Utils
  import Difflib

  type Record = Dict

  /** A record with the score it was given. */
  datatype Scored = Scored(item: Record, score: real)

  /** `SearchEngine.min_score` */
  const MinScore: real := 3.0 / 10.0

  // ===========================================================================
  // Fields of a record

  /** `item.get(field, "")` */
  function FieldValue(item: Record, field: string): (v: Value)
    ensures field !in KeysOf(item) ==> v == Str("")
    ensures field in KeysOf(item) ==> (field, v) in item
  {
    match Get(item, field)
    case Some(v) => v
    case None => Str("")
  }

  /** `normalize_text(str(item.get(field, "")))`: a text already in normal form. */
  function FieldText(item: Record, field: string): (t: string)
    ensures Normalize(t) == t
  {
    var raw := ToStr(FieldValue(item, field));
    NormalizeIdempotent(raw);
    Normalize(raw)
  }

  /** A missing field reads as the empty text. */
  lemma MissingFieldIsEmpty(item: Record, field: string)
    requires field !in KeysOf(item)
    ensures FieldText(item, field) == ""
  {
    assert ToStr(FieldValue(item, field)) == "";
    NormalizeFixed("");
  }

  lemma NormalizeNone()
    ensures Normalize("None") == "none"
  {
    var upper, lower := "None", "none";
    assert Lower(upper) == Lower(lower) by {
      assert Lower(upper)[0] == 'n';
    }
    forall k | 0 <= k < |lower|
      ensures !IsUpper(lower[k]) && lower[k] !in Diacritics
    {
      PlainLetterKept(lower[k]);
    }
    NormalizeFixed(lower);
  }

  /** A field that is present and holds None reads as the word "none". */
  lemma NoneFieldIsNoneWord(item: Record, field: string)
    requires Get(item, field) == Some(Null)
    ensures FieldText(item, field) == "none"
  {
    var v := FieldValue(item, field);
    assert v == Null;
    assert ToStr(v) == "None";
    NormalizeNone();
  }

  // ===========================================================================
  // Keyword score

  /** `set(normalize_text(query).split())` */
  function QueryWords(query: string): set<string>
  {
    set w | w in Split(Normalize(query))
  }

  /** The normalised texts of the search fields, in the order of `fields`. */
  function FieldTexts(item: Record, fields: seq<string>): (ts: seq<string>)
    ensures |ts| == |fields|
  {
    seq(|fields|, k requires 0 <= k < |fields| => FieldText(item, fields[k]))
  }

  /** `set(" ".join(field texts).split())` */
  function ItemWords(item: Record, fields: seq<string>): set<string>
  {
    set w | w in Split(Join(" ", FieldTexts(item, fields)))
  }

  lemma {:induction false} SubsetCard<T>(a: set<T>, b: set<T>)
    requires a <= b
    ensures |a| <= |b|
    decreases |a|
  {
    if a != {} {
      var x :| x in a;
      SubsetCard(a - {x}, b - {x});
    }
  }

  /** `overlap / len(query_words)`, and 0 when there are no query words. */
  function WordScore(queryWords: set<string>, itemWords: set<string>): (r: real)
    ensures 0.0 <= r <= 1.0
    ensures queryWords == {} ==> r == 0.0
    ensures queryWords <= itemWords && queryWords != {} ==> r == 1.0
  {
    if |queryWords| == 0 then 0.0
    else
      var overlap := queryWords * itemWords;
      SubsetCard(overlap, queryWords);
      assert queryWords <= itemWords ==> overlap == queryWords && |overlap| as real / |queryWords| as real == 1.0;
      Difflib.FractionBounds(|overlap| as real, |queryWords| as real);
      |overlap| as real / |queryWords| as real
  }

  function KeywordScore(query: string, item: Record, fields: seq<string>): real
  {
    WordScore(QueryWords(query), ItemWords(item, fields))
  }

  lemma DivThreshold(o: real, q: real)
    requires q > 0.0
    ensures o / q >= MinScore <==> 10.0 * o >= 3.0 * q
  {
    var r := o / q;
    assert r * q == o;
    if r >= MinScore {
      assert r * q >= MinScore * q;
    } else {
      assert r * q < MinScore * q;
    }
  }

  /** The keyword threshold in whole numbers: a record qualifies exactly when
      ten times the overlap is at least three times the number of query words. */
  lemma KeywordThreshold(queryWords: set<string>, itemWords: set<string>)
    ensures WordScore(queryWords, itemWords) >= MinScore <==>
      queryWords != {} && 10 * |queryWords * itemWords| >= 3 * |queryWords|
  {
    if queryWords != {} {
      var n, m := |queryWords * itemWords|, |queryWords|;
      assert m > 0;
      DivThreshold(n as real, m as real);
    }
  }

  /** A word belongs to a record exactly when it is a word of one of the search fields. */
  lemma ItemWordsMember(item: Record, fields: seq<string>, w: string)
    ensures w in ItemWords(item, fields) <==> exists k :: 0 <= k < |fields| && w in Split(FieldText(item, fields[k]))
  {
    var ts := FieldTexts(item, fields);
    SplitJoin(ts);
    var parts := seq(|ts|, k requires 0 <= k < |ts| => Split(ts[k]));
    ConcatMember(parts, w);
    if w in ItemWords(item, fields) {
      var k :| 0 <= k < |parts| && w in parts[k];
      assert w in Split(FieldText(item, fields[k]));
    }
    if exists k :: 0 <= k < |fields| && w in Split(FieldText(item, fields[k])) {
      var k :| 0 <= k < |fields| && w in Split(FieldText(item, fields[k]));
      assert w in parts[k];
    }
  }

  /** The order of the search fields, and any repetition among them, does not change the words of a record. */
  lemma FieldOrderIrrelevant(item: Record, fields1: seq<string>, fields2: seq<string>)
    requires forall f :: f in fields1 <==> f in fields2
    ensures ItemWords(item, fields1) == ItemWords(item, fields2)
  {
    forall w | w in ItemWords(item, fields1)
      ensures w in ItemWords(item, fields2)
    {
      WordCovered(item, fields1, fields2, w);
    }
    forall w | w in ItemWords(item, fields2)
      ensures w in ItemWords(item, fields1)
    {
      WordCovered(item, fields2, fields1, w);
    }
  }

  /** A word of a record found through `fields1` is found through any list holding those fields. */
  lemma WordCovered(item: Record, fields1: seq<string>, fields2: seq<string>, w: string)
    requires forall f :: f in fields1 ==> f in fields2
    requires w in ItemWords(item, fields1)
    ensures w in ItemWords(item, fields2)
  {
    ItemWordsMember(item, fields1, w);
    var k :| 0 <= k < |fields1| && w in Split(FieldText(item, fields1[k]));
    var f := fields1[k];
    assert f in fields2;
    var k2 :| 0 <= k2 < |fields2| && fields2[k2] == f;
    ItemWordsMember(item, fields2, w);
  }


  // ===========================================================================
  // Selecting and ranking

  /** The records whose score reaches the minimum, with their scores, in input order. */
  function Qualifying(items: seq<Record>, score: Record -> real): (r: seq<Scored>)
    ensures |r| <= |items|
    ensures forall k :: 0 <= k < |r| ==> r[k].score == score(r[k].item) && r[k].score >= MinScore
  {
    if items == [] then []
    else
      var rest := Qualifying(items[..|items| - 1], score);
      var it := items[|items| - 1];
      if score(it) >= MinScore then rest + [Scored(it, score(it))] else rest
  }

  /** A scored record is selected exactly when it comes from the input, carries
      its own score, and that score reaches the minimum. */
  lemma {:induction false} QualifyingMember(items: seq<Record>, score: Record -> real, x: Scored)
    ensures x in Qualifying(items, score) <==> x.item in items && x.score == score(x.item) && x.score >= MinScore
  {
    if items != [] {
      var init := items[..|items| - 1];
      QualifyingMember(init, score, x);
      assert items == init + [items[|items| - 1]];
    }
  }

  predicate SortedDesc(s: seq<Scored>)
  {
    forall i, j :: 0 <= i < j < |s| ==> s[i].score >= s[j].score
  }

  /** Inserts `x` before the first element whose score is not above its own. */
  function InsertDesc(x: Scored, s: seq<Scored>): seq<Scored>
  {
    if s == [] || s[0].score <= x.score then [x] + s
    else [s[0]] + InsertDesc(x, s[1..])
  }

  /** `results.sort(key=lambda x: x[1], reverse=True)`: a stable sort by
      descending score, written as an insertion sort. The result is a
      permutation of the input, ordered by descending score. */
  function SortDesc(s: seq<Scored>): (r: seq<Scored>)
    ensures multiset(r) == multiset(s)
    ensures SortedDesc(r)
  {
    if s == [] then []
    else
      var t := SortDesc(s[1..]);
      InsertPerm(s[0], t);
      InsertSorted(s[0], t);
      assert s == [s[0]] + s[1..];
      InsertDesc(s[0], t)
  }

  /** The elements of `s` whose score is `v`, in order. */
  function WithScore(s: seq<Scored>, v: real): seq<Scored>
  {
    if s == [] then []
    else (if s[0].score == v then [s[0]] else []) + WithScore(s[1..], v)
  }

  lemma WithScoreCons(e: Scored, r: seq<Scored>, v: real)
    ensures WithScore([e] + r, v) == (if e.score == v then [e] else []) + WithScore(r, v)
  {
    assert ([e] + r)[1..] == r;
  }

  /** Insertion adds exactly one element. */
  lemma {:induction false} InsertPerm(x: Scored, s: seq<Scored>)
    ensures multiset(InsertDesc(x, s)) == multiset(s) + multiset{x}
  {
    if s != [] && s[0].score > x.score {
      InsertPerm(x, s[1..]);
      assert s == [s[0]] + s[1..];
    }
  }

  /** Prepending a record that scores at least as well as the head keeps a list sorted. */
  lemma SortedCons(y: Scored, r: seq<Scored>)
    requires SortedDesc(r) && (r == [] || y.score >= r[0].score)
    ensures SortedDesc([y] + r)
  {
    var e := [y] + r;
    forall i, j | 0 <= i < j < |e|
      ensures e[i].score >= e[j].score
    {
      if i == 0 {
        assert e[j] == r[j - 1];
        assert r[0].score >= r[j - 1].score;
      } else {
        assert e[i] == r[i - 1] && e[j] == r[j - 1];
      }
    }
  }

  /** Insertion puts either the new record or the old head first. */
  lemma InsertHead(x: Scored, s: seq<Scored>)
    ensures InsertDesc(x, s) != []
    ensures InsertDesc(x, s)[0] == x || (s != [] && InsertDesc(x, s)[0] == s[0])
  {
  }

  lemma {:induction false} InsertSorted(x: Scored, s: seq<Scored>)
    requires SortedDesc(s)
    ensures SortedDesc(InsertDesc(x, s))
  {
    if s != [] && s[0].score > x.score {
      var t := s[1..];
      assert SortedDesc(t) by {
        forall i, j | 0 <= i < j < |t|
          ensures t[i].score >= t[j].score
        {
          assert t[i] == s[i + 1] && t[j] == s[j + 1];
        }
      }
      InsertSorted(x, t);
      var r := InsertDesc(x, t);
      InsertHead(x, t);
      assert t != [] ==> s[0].score >= t[0].score;
      SortedCons(s[0], r);
    } else {
      SortedCons(x, s);
    }
  }

  lemma {:induction false} InsertStable(x: Scored, s: seq<Scored>, v: real)
    ensures WithScore(InsertDesc(x, s), v) == WithScore([x] + s, v)
  {
    if s != [] && s[0].score > x.score {
      var y, t := s[0], s[1..];
      var r := InsertDesc(x, t);
      assert InsertDesc(x, s) == [y] + r;
      assert s == [y] + t;
      InsertStable(x, t, v);
      WithScoreCons(y, r, v);
      WithScoreCons(x, t, v);
      WithScoreCons(x, s, v);
      WithScoreCons(y, t, v);
      var w := WithScore(t, v);
      if y.score == v {
        assert WithScore(InsertDesc(x, s), v) == [y] + w;
        assert WithScore([x] + s, v) == [y] + w;
      } else if x.score == v {
        assert WithScore(InsertDesc(x, s), v) == [x] + w;
        assert WithScore([x] + s, v) == [x] + w;
      } else {
        assert WithScore(InsertDesc(x, s), v) == w;
        assert WithScore([x] + s, v) == w;
      }
    }
  }

  /** The sort is stable: records of equal score keep their relative order. */
  lemma {:induction false} SortDescStable(s: seq<Scored>, v: real)
    ensures WithScore(SortDesc(s), v) == WithScore(s, v)
  {
    if s != [] {
      SortDescStable(s[1..], v);
      InsertStable(s[0], SortDesc(s[1..]), v);
      WithScoreCons(s[0], SortDesc(s[1..]), v);
      assert s == [s[0]] + s[1..];
      WithScoreCons(s[0], s[1..], v);
    }
  }

  /** What a ranked result list promises: exactly the qualifying records with
      their scores, best first, ties in input order. */
  ghost predicate Ranked(results: seq<Scored>, items: seq<Record>, score: Record -> real)
  {
    && SortedDesc(results)
    && multiset(results) == multiset(Qualifying(items, score))
    && (forall v :: WithScore(results, v) == WithScore(Qualifying(items, score), v))
  }

  lemma RankedSort(items: seq<Record>, score: Record -> real)
    ensures Ranked(SortDesc(Qualifying(items, score)), items, score)
  {
    var q := Qualifying(items, score);
    forall v
      ensures WithScore(SortDesc(q), v) == WithScore(q, v)
    {
      SortDescStable(q, v);
    }
  }

  /** Every element of a ranked result qualifies, and every qualifying record is in it. */
  lemma RankedMember(results: seq<Scored>, items: seq<Record>, score: Record -> real, x: Scored)
    requires Ranked(results, items, score)
    ensures x in results <==> x.item in items && x.score == score(x.item) && x.score >= MinScore
  {
    QualifyingMember(items, score, x);
    assert x in results <==> x in multiset(results);
  }

  // ===========================================================================
  // keyword_search and fuzzy_search

  function KeywordScorer(query: string, fields: seq<string>): Record -> real
  {
    (item: Record) => KeywordScore(query, item, fields)
  }

  /** The scoring loop shared by keyword_search and fuzzy_search: every record
      is scored once, in input order, and kept with its score when the score
      reaches the minimum. */
  method ScoreAll(items: seq<Record>, scorer: Record -> real) returns (results: seq<Scored>)
    ensures results == Qualifying(items, scorer)
  {
    results := [];
    for i := 0 to |items|
      invariant results == Qualifying(items[..i], scorer)
    {
      assert items[..i + 1][..i] == items[..i];
      var score := scorer(items[i]);
      if score >= MinScore {
        results := results + [Scored(items[i], score)];
      }
    }
    assert items[..|items|] == items;
  }

  /** keyword_search: score each record by word overlap, keep those at or above
      the minimum, then sort best first. */
  method KeywordSearch(query: string, items: seq<Record>, searchFields: seq<string>) returns (results: seq<Scored>)
    ensures results == SortDesc(Qualifying(items, KeywordScorer(query, searchFields)))
    ensures Ranked(results, items, KeywordScorer(query, searchFields))
    ensures forall x :: x in results ==>
      x.item in items && x.score == KeywordScore(query, x.item, searchFields) && MinScore <= x.score <= 1.0
  {
    var scorer := KeywordScorer(query, searchFields);
    results := ScoreAll(items, scorer);
    results := SortDesc(results);
    RankedSort(items, scorer);
    forall x | x in results
      ensures x.item in items && x.score == KeywordScore(query, x.item, searchFields) && MinScore <= x.score <= 1.0
    {
      RankedMember(results, items, scorer, x);
    }
  }

  /** A query without words selects nothing. */
  lemma EmptyQueryNoResults(query: string, items: seq<Record>, fields: seq<string>)
    requires Split(Normalize(query)) == []
    ensures Qualifying(items, KeywordScorer(query, fields)) == []
  {
    var scorer := KeywordScorer(query, fields);
    assert QueryWords(query) == {};
    forall it | it in items
      ensures scorer(it) < MinScore
    {
      assert scorer(it) == WordScore({}, ItemWords(it, fields));
    }
    NoneQualify(items, scorer);
  }

  /** When no record reaches the minimum, nothing is selected. */
  lemma {:induction false} NoneQualify(items: seq<Record>, score: Record -> real)
    requires forall it :: it in items ==> score(it) < MinScore
    ensures Qualifying(items, score) == []
  {
    if items != [] {
      var init := items[..|items| - 1];
      assert forall it :: it in init ==> it in items;
      NoneQualify(init, score);
    }
  }

  function FuzzyScorer(query: string, field: string): Record -> real
  {
    (item: Record) => Difflib.Ratio(Normalize(query), FieldText(item, field))
  }

  /** fuzzy_search: score each record by the similarity ratio of one field,
      keep those at or above the minimum, then sort best first. */
  method FuzzySearch(query: string, items: seq<Record>, searchField: string) returns (results: seq<Scored>)
    ensures results == SortDesc(Qualifying(items, FuzzyScorer(query, searchField)))
    ensures Ranked(results, items, FuzzyScorer(query, searchField))
    ensures forall x :: x in results ==>
      && x.item in items
      && x.score == Difflib.Ratio(Normalize(query), FieldText(x.item, searchField))
      && MinScore <= x.score <= 1.0
  {
    var scorer := FuzzyScorer(query, searchField);
    results := ScoreAll(items, scorer);
    results := SortDesc(results);
    RankedSort(items, scorer);
    forall x | x in results
      ensures x.item in items && x.score == scorer(x.item) && MinScore <= x.score
    {
      RankedMember(results, items, scorer, x);
    }
  }

  /** A record whose field normalises to the normalised query scores 1. */
  lemma ExactFieldScoresOne(query: string, item: Record, field: string)
    requires FieldText(item, field) == Normalize(query)
    ensures FuzzyScorer(query, field)(item) == 1.0
  {
    Difflib.RatioOne(Normalize(query), FieldText(item, field));
  }

  // ===========================================================================
  // Filters

  /** The records `keep` accepts, in input order. */
  function Filter(items: seq<Record>, keep: Record -> bool): (r: seq<Record>)
    ensures |r| <= |items|
  {
    if items == [] then []
    else
      var rest := Filter(items[..|items| - 1], keep);
      var it := items[|items| - 1];
      if keep(it) then rest + [it] else rest
  }

  lemma FilterStep(items: seq<Record>, keep: Record -> bool, i: nat)
    requires i < |items|
    ensures Filter(items[..i + 1], keep) == Filter(items[..i], keep) + (if keep(items[i]) then [items[i]] else [])
  {
    assert items[..i + 1][..i] == items[..i];
  }

  /** `xs` is `ys` with some elements left out, the rest in their order. */
  predicate IsSubseq(xs: seq<Record>, ys: seq<Record>)
    decreases |ys|
  {
    if xs == [] then true
    else if ys == [] then false
    else
      (xs[|xs| - 1] == ys[|ys| - 1] && IsSubseq(xs[..|xs| - 1], ys[..|ys| - 1]))
      || IsSubseq(xs, ys[..|ys| - 1])
  }

  lemma {:induction false} FilterMember(items: seq<Record>, keep: Record -> bool, x: Record)
    ensures x in Filter(items, keep) <==> x in items && keep(x)
  {
    if items != [] {
      var init := items[..|items| - 1];
      FilterMember(init, keep, x);
      assert items == init + [items[|items| - 1]];
    }
  }

  /** A kept record appears as often as in the input, a dropped one never:
      the filter neither merges nor repeats duplicates. */
  lemma {:induction false} FilterCount(items: seq<Record>, keep: Record -> bool, x: Record)
    ensures multiset(Filter(items, keep))[x] == if keep(x) then multiset(items)[x] else 0
  {
    if items != [] {
      var init := items[..|items| - 1];
      FilterCount(init, keep, x);
      assert items == init + [items[|items| - 1]];
    }
  }

  lemma FilterMembers(items: seq<Record>, keep: Record -> bool)
    ensures forall x :: x in Filter(items, keep) <==> x in items && keep(x)
  {
    forall x {
      FilterMember(items, keep, x);
    }
  }

  lemma {:induction false} FilterSubseq(items: seq<Record>, keep: Record -> bool)
    ensures IsSubseq(Filter(items, keep), items)
  {
    if items != [] {
      var init := items[..|items| - 1];
      FilterSubseq(init, keep);
      var r := Filter(items, keep);
      if keep(items[|items| - 1]) {
        assert r[..|r| - 1] == Filter(init, keep);
      } else if r != [] {
        assert r == Filter(init, keep);
      }
    }
  }

  /** The lower bound `lo` admits `x`: no bound, or a number not above `x`.
      A bound that is not a number makes the comparison raise, and the record is skipped. */
  predicate AdmitsMin(x: real, lo: Value)
  {
    lo == Null || (AsNumber(lo).Some? && x >= AsNumber(lo).value)
  }

  predicate AdmitsMax(x: real, hi: Value)
  {
    hi == Null || (AsNumber(hi).Some? && x <= AsNumber(hi).value)
  }

  /** The test `range_search` applies to one record. */
  predicate InRange(item: Record, field: string, minValue: Value, maxValue: Value)
  {
    match Get(item, field)
    case None => false
    case Some(v) =>
      v != Null && ToFloat(v).Some? && AdmitsMin(ToFloat(v).value, minValue) && AdmitsMax(ToFloat(v).value, maxValue)
  }

  function RangeKeep(field: string, minValue: Value, maxValue: Value): Record -> bool
  {
    (item: Record) => InRange(item, field, minValue, maxValue)
  }

  /** range_search: the records whose field is present, converts to a number and
      lies within the inclusive bounds; a `None` bound is no bound. */
  method RangeSearch(items: seq<Record>, field: string, minValue: Value, maxValue: Value) returns (results: seq<Record>)
    ensures results == Filter(items, RangeKeep(field, minValue, maxValue))
    ensures forall x :: x in results <==> x in items && InRange(x, field, minValue, maxValue)
    ensures IsSubseq(results, items)
  {
    results := [];
    for i := 0 to |items|
      invariant results == Filter(items[..i], RangeKeep(field, minValue, maxValue))
    {
      var item := items[i];
      RangeStep(items, field, minValue, maxValue, i);
      ghost var before := results;
      match Get(item, field)
      case None =>
      case Some(value) =>
        if value != Null {
          match ToFloat(value)
          case None =>
          case Some(x) =>
            if AdmitsMin(x, minValue) && AdmitsMax(x, maxValue) {
              results := results + [item];
            }
        }
      assert results == before + if InRange(item, field, minValue, maxValue) then [item] else [];
    }
    assert items[..|items|] == items;
    RangeFilterFacts(items, field, minValue, maxValue);
  }

  /** One record more: the range filter of a longer prefix appends the record when it is in range. */
  lemma RangeStep(items: seq<Record>, field: string, minValue: Value, maxValue: Value, i: nat)
    requires i < |items|
    ensures Filter(items[..i + 1], RangeKeep(field, minValue, maxValue)) ==
      Filter(items[..i], RangeKeep(field, minValue, maxValue)) + if InRange(items[i], field, minValue, maxValue) then [items[i]] else []
  {
    FilterStep(items, RangeKeep(field, minValue, maxValue), i);
  }

  lemma RangeFilterFacts(items: seq<Record>, field: string, minValue: Value, maxValue: Value)
    ensures forall x :: x in Filter(items, RangeKeep(field, minValue, maxValue)) <==>
      x in items && InRange(x, field, minValue, maxValue)
    ensures IsSubseq(Filter(items, RangeKeep(field, minValue, maxValue)), items)
  {
    forall x
      ensures x in Filter(items, RangeKeep(field, minValue, maxValue)) <==> x in items && InRange(x, field, minValue, maxValue)
    {
      FilterMember(items, RangeKeep(field, minValue, maxValue), x);
    }
    FilterSubseq(items, RangeKeep(field, minValue, maxValue));
  }

  /** Bound `wide` admits every number bound `narrow` admits. */
  predicate LowerWider(wide: Value, narrow: Value)
  {
    || wide == Null
    || (narrow != Null && AsNumber(narrow).None?)
    || (AsNumber(wide).Some? && AsNumber(narrow).Some? && AsNumber(wide).value <= AsNumber(narrow).value)
  }

  predicate UpperWider(wide: Value, narrow: Value)
  {
    || wide == Null
    || (narrow != Null && AsNumber(narrow).None?)
    || (AsNumber(wide).Some? && AsNumber(narrow).Some? && AsNumber(wide).value >= AsNumber(narrow).value)
  }

  /** Widening or dropping a bound never removes a record that was kept. */
  lemma RangeMonotone(items: seq<Record>, field: string, lo1: Value, hi1: Value, lo2: Value, hi2: Value)
    requires LowerWider(lo2, lo1) && UpperWider(hi2, hi1)
    ensures forall x :: x in Filter(items, RangeKeep(field, lo1, hi1)) ==> x in Filter(items, RangeKeep(field, lo2, hi2))
  {
    forall x | x in Filter(items, RangeKeep(field, lo1, hi1))
      ensures x in Filter(items, RangeKeep(field, lo2, hi2))
    {
      FilterMember(items, RangeKeep(field, lo1, hi1), x);
      FilterMember(items, RangeKeep(field, lo2, hi2), x);
    }
  }

  /** The normalised categories. */
  function CategoryNames(categories: seq<Value>): (names: set<string>)
    ensures forall c :: c in categories ==> NormalizeValue(c) in names
    ensures forall n :: n in names ==> exists c :: c in categories && n == NormalizeValue(c)
  {
    set c | c in categories :: NormalizeValue(c)
  }

  function CategoryKeep(field: string, categories: seq<Value>): Record -> bool
  {
    (item: Record) => FieldText(item, field) in CategoryNames(categories)
  }

  /** category_search: the records whose normalised field equals some normalised category, in order. */
  function CategorySearch(items: seq<Record>, field: string, categories: seq<Value>): (r: seq<Record>)
    ensures r == Filter(items, CategoryKeep(field, categories))
    ensures forall x :: x in r <==> x in items && exists c :: c in categories && FieldText(x, field) == NormalizeValue(c)
    ensures IsSubseq(r, items)
    ensures categories == [] ==> r == []
  {
    var keep := CategoryKeep(field, categories);
    FilterSubseq(items, keep);
    FilterMembers(items, keep);
    var r := Filter(items, keep);
    assert r != [] ==> r[0] in r;
    r
  }

  // ===========================================================================
  // combined_search

  /** The filters a caller may pass; `None` in a field means the key is absent. */
  datatype Filters = Filters(
    priceMin: Option<Value>,
    priceMax: Option<Value>,
    categories: Option<seq<Value>>,
    searchFields: Option<seq<string>>)

  /** `{}` */
  const NoFilters := Filters(None, None, None, None)

  const DefaultFields: seq<string> := ["name", "description"]

  function OrNull(v: Option<Value>): Value
  {
    if v.Some? then v.value else Null
  }

  predicate RangeStageApplies(f: Filters)
  {
    f.priceMin.Some? || f.priceMax.Some?
  }

  predicate CategoryStageApplies(f: Filters)
  {
    f.categories.Some? && f.categories.value != []
  }

  /** The records left after the range stage and the category stage. */
  function Staged(items: seq<Record>, f: Filters): seq<Record>
  {
    var afterRange := if RangeStageApplies(f) then Filter(items, RangeKeep("price", OrNull(f.priceMin), OrNull(f.priceMax))) else items;
    if CategoryStageApplies(f) then CategorySearch(afterRange, "category", f.categories.value) else afterRange
  }

  /** Each stage only narrows: a staged record is an input record that passed every stage that ran. */
  lemma StagedMember(items: seq<Record>, f: Filters, x: Record)
    ensures x in Staged(items, f) <==>
      && x in items
      && (RangeStageApplies(f) ==> InRange(x, "price", OrNull(f.priceMin), OrNull(f.priceMax)))
      && (CategoryStageApplies(f) ==> exists c :: c in f.categories.value && FieldText(x, "category") == NormalizeValue(c))
  {
    FilterMember(items, RangeKeep("price", OrNull(f.priceMin), OrNull(f.priceMax)), x);
  }

  /** A present price bound that is None still runs the range stage, which drops
      every record without a numeric price. */
  lemma NullPriceBoundDropsUnpriced(items: seq<Record>, f: Filters, x: Record)
    requires f.priceMin == Some(Null) && x in Staged(items, f)
    ensures Get(x, "price").Some? && ToFloat(Get(x, "price").value).Some?
  {
    StagedMember(items, f, x);
  }

  function SearchFields(f: Filters): seq<string>
  {
    if f.searchFields.Some? then f.searchFields.value else DefaultFields
  }

  /** `[item for item, score in search_results]` */
  function Items(s: seq<Scored>): (r: seq<Record>)
    ensures |r| == |s|
    ensures forall k :: 0 <= k < |s| ==> r[k] == s[k].item
  {
    seq(|s|, k requires 0 <= k < |s| => s[k].item)
  }

  /** `if not filters: filters = {}` */
  function Effective(filters: Option<Filters>): Filters
  {
    if filters.Some? then filters.value else NoFilters
  }

  /** combined_search: range stage, category stage, keyword search, scores dropped. */
  method CombinedSearch(query: string, items: seq<Record>, filters: Option<Filters>) returns (results: seq<Record>)
    ensures var f := Effective(filters);
      results == Items(SortDesc(Qualifying(Staged(items, f), KeywordScorer(query, SearchFields(f)))))
    ensures var f := Effective(filters);
      forall x :: x in results ==> x in Staged(items, f) && KeywordScore(query, x, SearchFields(f)) >= MinScore
  {
    var f := Effective(filters);
    var staged := items;
    if f.priceMin.Some? || f.priceMax.Some? {
      staged := RangeSearch(staged, "price", OrNull(f.priceMin), OrNull(f.priceMax));
    }
    if f.categories.Some? && f.categories.value != [] {
      staged := CategorySearch(staged, "category", f.categories.value);
    }
    assert staged == Staged(items, f);
    var fields := SearchFields(f);
    var searchResults := KeywordSearch(query, staged, fields);
    results := Items(searchResults);
    KeywordItemsQualify(query, staged, fields);
  }

  /** Every record keyword search returns comes from its input and reaches the minimum score. */
  lemma KeywordItemsQualify(query: string, items: seq<Record>, fields: seq<string>)
    ensures forall x :: x in Items(SortDesc(Qualifying(items, KeywordScorer(query, fields)))) ==>
      x in items && KeywordScore(query, x, fields) >= MinScore
  {
    var scorer := KeywordScorer(query, fields);
    var q := Qualifying(items, scorer);
    var r := SortDesc(q);
    forall x | x in Items(r)
      ensures x in items && KeywordScore(query, x, fields) >= MinScore
    {
      var k :| 0 <= k < |r| && r[k].item == x;
      assert r[k] in multiset(q);
      QualifyingMember(items, scorer, r[k]);
    }
  }


  // ===========================================================================
  // suggest

  /** The normalised values of `field`, one per record, in order. */
  function ColumnTexts(items: seq<Record>, field: string): (ts: seq<string>)
    ensures |ts| == |items|
    ensures forall k :: 0 <= k < |items| ==> ts[k] == FieldText(items[k], field)
  {
    seq(|items|, k requires 0 <= k < |items| => FieldText(items[k], field))
  }

  /** The distinct texts among `texts` that contain `qn`. */
  function Containing(qn: string, texts: seq<string>): set<string>
  {
    if texts == [] then {}
    else
      var t := texts[|texts| - 1];
      Containing(qn, texts[..|texts| - 1]) + (if Contains(t, qn) then {t} else {})
  }

  lemma {:induction false} ContainingMember(qn: string, texts: seq<string>, s: string)
    ensures s in Containing(qn, texts) <==> s in texts && Contains(s, qn)
  {
    if texts != [] {
      var init := texts[..|texts| - 1];
      ContainingMember(qn, init, s);
      assert texts == init + [texts[|texts| - 1]];
    }
  }

  /** The normalised field values that contain the normalised query `qn`. */
  function Suggestions(qn: string, items: seq<Record>, field: string): set<string>
  {
    Containing(qn, ColumnTexts(items, field))
  }

  lemma ContainingStep(qn: string, texts: seq<string>, i: nat, t: string)
    requires i < |texts| && t == texts[i]
    ensures Containing(qn, texts[..i + 1]) == Containing(qn, texts[..i]) + (if Contains(t, qn) then {t} else {})
  {
    assert texts[..i + 1][..i] == texts[..i];
  }

  /** A text contains each of its prefixes. */
  lemma PrefixContained(s: string, prefix: string)
    requires StartsWith(s, prefix)
    ensures Contains(s, prefix)
  {
  }

  /** A value is suggested exactly when it is the normalised field of some
      record and contains the normalised query. */
  lemma SuggestionsMember(qn: string, items: seq<Record>, field: string, s: string)
    ensures s in Suggestions(qn, items, field) <==>
      (exists k :: 0 <= k < |items| && s == FieldText(items[k], field)) && Contains(s, qn)
  {
    var texts := ColumnTexts(items, field);
    ContainingMember(qn, texts, s);
    if s in texts {
      var k :| 0 <= k < |texts| && texts[k] == s;
      assert s == FieldText(items[k], field);
    }
  }

  /** The loop of `suggest` over the records' normalised fields: every text
      that starts with or contains the normalised query is added to the set. */
  method CollectContaining(queryNormalized: string, texts: seq<string>) returns (found: set<string>)
    ensures found == Containing(queryNormalized, texts)
  {
    found := {};
    for i := 0 to |texts|
      invariant found == Containing(queryNormalized, texts[..i])
    {
      var fieldValue := texts[i];
      ContainingStep(queryNormalized, texts, i, fieldValue);
      if StartsWith(fieldValue, queryNormalized) {
        PrefixContained(fieldValue, queryNormalized);
        found := found + {fieldValue};
      } else if Contains(fieldValue, queryNormalized) {
        found := found + {fieldValue};
      }
    }
    assert texts[..|texts|] == texts;
  }

  /** suggest: the distinct normalised field values that start with or contain
      the normalised query, listed in some order and cut to `limit`. */
  method Suggest(query: string, items: seq<Record>, field: string, limit: int) returns (suggestions: seq<string>)
    ensures forall s :: s in suggestions ==> s in Suggestions(Normalize(query), items, field)
    ensures forall i, j :: 0 <= i < j < |suggestions| ==> suggestions[i] != suggestions[j]
    ensures var n := |Suggestions(Normalize(query), items, field)|;
      |suggestions| == if limit >= 0 then (if limit <= n then limit else n) else (if n + limit >= 0 then n + limit else 0)
  {
    var queryNormalized := Normalize(query);
    // normalize_text(str(item.get(field, ""))) for each record, in order
    var fieldValues := ColumnTexts(items, field);
    var found := CollectContaining(queryNormalized, fieldValues);
    var listed := ListSet(found);
    suggestions := SliceTo(listed, limit);
  }

  /** `list(s)`: the elements of a set, each once, in an order the model leaves open. */
  method ListSet(s: set<string>) returns (r: seq<string>)
    ensures |r| == |s|
    ensures forall x :: x in r <==> x in s
    ensures forall i, j :: 0 <= i < j < |r| ==> r[i] != r[j]
  {
    r := [];
    var pool := s;
    while pool != {}
      invariant pool <= s
      invariant forall x :: x in r <==> x in s && x !in pool
      invariant forall i, j :: 0 <= i < j < |r| ==> r[i] != r[j]
      invariant |r| + |pool| == |s|
      decreases |pool|
    {
      var x :| x in pool;
      r := r + [x];
      pool := pool - {x};
    }
  }
}

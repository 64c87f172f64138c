/**
 * The query matcher of the veteran search page: the part of `filterList`
 * that turns a query into a test on records and keeps, in roster order,
 * the records that pass it. The roster and the query are parameters.
 */
module Search {
  import opened Wrappers
  import opened JsString
  import opened Names

  /** A roster entry: the fields of one element of `veterans`; absent JSON fields are `None`. */
  datatype Record = Record(
    name: Option<string>,
    serviceType: Option<string>,
    address: string,
    phones: seq<string>)

  /** The service-type selector and the index of the first word of the name part. */
  datatype Selection = Selection(serviceType: string, nameStart: nat)

  /** The test a query puts to every record. */
  datatype Criterion =
    | ShowAll                                               // blank query: the whole roster
    | NameOnly(query: string)                               // one word: name search only
    | ServiceAndName(serviceType: string, nameQuery: string) // two or more words

  /**
   * The service-type selector of a query of two or more words. It is the
   * normal form of the words it consumes, which are the first word, or the
   * first two words exactly when the first word is neither "army" nor "navy"
   * and the first two normalize to "airforce".
   */
  function ChooseSelector(words: seq<string>): (sel: Selection)
    requires |words| >= 2
    ensures sel.nameStart == 1 || sel.nameStart == 2
    ensures sel.serviceType == NormalizeString(Join(words[..sel.nameStart], " "))
    ensures sel.nameStart == 2 <==>
              && NormalizeString(words[0]) != "army"
              && NormalizeString(words[0]) != "navy"
              && NormalizeString(words[0] + " " + words[1]) == "airforce"
  {
    assert words[..1] == [words[0]];
    assert words[..2] == [words[0], words[1]] && [words[0], words[1]][1..] == [words[1]];
    var first := NormalizeString(words[0]);
    if first == "army" || first == "navy" then
      Selection(first, 1)
    else if NormalizeString(words[0] + " " + words[1]) == "airforce" then
      Selection("airforce", 2)
    else
      Selection(first, 1)
  }

  /**
   * For normal, non-empty words, the selector is not empty, and the selector
   * followed by the normalized name part spells out all of the words.
   */
  lemma {:induction false} SelectionCoversWords(words: seq<string>)
    requires |words| >= 2
    requires forall k :: 0 <= k < |words| ==> NoSpace(words[k]) && NoUpper(words[k]) && words[k] != ""
    ensures ChooseSelector(words).serviceType != ""
    ensures ChooseSelector(words).serviceType
              + NormalizeString(Join(words[ChooseSelector(words).nameStart..], " "))
            == Concat(words)
  {
    NormalizeOfNormal(words[0]);
    NormalizeJoinSplit(words, ChooseSelector(words).nameStart);
  }

  /** Normal words joined by spaces and cut at any word: the two normal forms make up the whole. */
  lemma NormalizeJoinSplit(ws: seq<string>, s: nat)
    requires 0 < s <= |ws|
    requires forall k :: 0 <= k < |ws| ==> NoSpace(ws[k]) && NoUpper(ws[k])
    ensures NormalizeString(Join(ws[..s], " ")) + NormalizeString(Join(ws[s..], " ")) == Concat(ws)
  {
    NormalizeJoin(ws);
    var a := Join(ws[..s], " ");
    var b := Join(ws[s..], " ");
    if s < |ws| {
      JoinAt(ws, " ", s);
      NormalizeAroundSpace(a, b);
    } else {
      assert ws[..s] == ws;
      assert NormalizeString(b) == [] by {
        assert ws[s..] == [];
        assert NormalizeString([]) == [];
      }
    }
  }

  /**
   * How `filterList` reads a query. A query that is blank once trimmed shows
   * everything; a query of one word (no white space inside) is a name search
   * for its normal form; otherwise the selector is never empty and the
   * selector followed by the name query is the normal form of the whole query.
   */
  function Decide(query: string): (c: Criterion)
    ensures c.ShowAll? <==> AllSpace(query)
    ensures c.NameOnly? <==> !AllSpace(query) && NoSpace(Trim(query))
    ensures c.NameOnly? ==> c.query == NormalizeString(query)
    ensures c.ServiceAndName? ==>
              c.serviceType != "" && c.serviceType + c.nameQuery == NormalizeString(query)
  {
    var q := Trim(query);
    NormalizeTrim(query);
    if q == "" then
      ShowAll
    else
      var words := Split(Lower(q));
      QueryWords(q);
      if |words| >= 2 then
        var sel := ChooseSelector(words);
        SelectionCoversWords(words);
        ServiceAndName(sel.serviceType, NormalizeString(Join(words[sel.nameStart..], " ")))
      else
        NameOnly(NormalizeString(q))
  }

  /**
   * The words of a non-empty trimmed query: there are two or more exactly when
   * it holds white space, each is a non-empty normal word, and together they
   * spell the normal form of the query.
   */
  lemma QueryWords(q: string)
    requires q != [] && IsTrimmed(q)
    ensures |Split(Lower(q))| >= 2 <==> !NoSpace(q)
    ensures forall k :: 0 <= k < |Split(Lower(q))| ==>
              Split(Lower(q))[k] != [] && NoSpace(Split(Lower(q))[k]) && NoUpper(Split(Lower(q))[k])
    ensures Concat(Split(Lower(q))) == NormalizeString(q)
  {
    LowerKeepsSpaces(q);
    SplitOfTrimmed(Lower(q));
    SplitConcat(Lower(q));
  }

  /**
   * A query whose trimmed, lower-cased form is two or more words joined by
   * single spaces is split back into those words: the selector is chosen
   * from them, and the name query is the remaining words run together.
   */
  lemma DecideOfWords(query: string, words: seq<string>)
    requires |words| >= 2
    requires forall k :: 0 <= k < |words| ==> words[k] != [] && NoSpace(words[k]) && NoUpper(words[k])
    requires Lower(Trim(query)) == Join(words, " ")
    ensures Decide(query) ==
              ServiceAndName(ChooseSelector(words).serviceType,
                             Concat(words[ChooseSelector(words).nameStart..]))
  {
    JoinEnds(words);
    assert Trim(query) != [];
    SplitJoin(words);
    var rest := words[ChooseSelector(words).nameStart..];
    assert forall k :: 0 <= k < |rest| ==> NoSpace(rest[k]) && NoUpper(rest[k]) by {
      forall k | 0 <= k < |rest| ensures NoSpace(rest[k]) && NoUpper(rest[k]) {
        assert rest[k] == words[ChooseSelector(words).nameStart + k];
      }
    }
    NormalizeJoin(rest);
  }

  /** The record's rank-stripped name, in normal form. */
  function NormalizedName(v: Record): (r: string)
    ensures NoSpace(r) && NoUpper(r)
    ensures v.name.None? ==> r == ""
  {
    NormalizeString(ExtractActualName(v.name))
  }

  /** The predicate `filterList` hands to `Array.filter`. */
  predicate Matches(c: Criterion, v: Record) {
    match c
    case ShowAll => true
    case NameOnly(q) => Contains(NormalizedName(v), q)
    case ServiceAndName(st, nq) =>
      && st != ""
      && NormalizeString(v.serviceType.GetOr("")) == st
      && Contains(NormalizedName(v), nq)
  }

  /** `Array.filter`: the elements of `xs` that pass `p`, in their order. */
  function Keep<T(!new)>(xs: seq<T>, p: T -> bool): (r: seq<T>)
    ensures |r| <= |xs|
    ensures forall v :: v in r <==> v in xs && p(v)
  {
    if xs == [] then []
    else (if p(xs[0]) then [xs[0]] else []) + Keep(xs[1..], p)
  }

  /** Filtering a concatenation filters each part and keeps them in order. */
  lemma {:induction false} KeepAppend<T(!new)>(a: seq<T>, b: seq<T>, p: T -> bool)
    ensures Keep(a + b, p) == Keep(a, p) + Keep(b, p)
  {
    if a == [] {
      assert a + b == b;
    } else {
      assert (a + b)[0] == a[0] && (a + b)[1..] == a[1..] + b;
      KeepAppend(a[1..], b, p);
    }
  }

  /**
   * The result of `filterList` for `query` over `roster`: the roster itself
   * when the query is blank, otherwise exactly the records the query's test
   * accepts.
   */
  function Filter(roster: seq<Record>, query: string): (r: seq<Record>)
    ensures AllSpace(query) ==> r == roster
    ensures forall v :: v in r <==> v in roster && Matches(Decide(query), v)
  {
    var c := Decide(query);
    if c.ShowAll? then roster else Keep(roster, v => Matches(c, v))
  }

  /** Filtering is stable: it works record by record and keeps roster order. */
  lemma FilterAppend(a: seq<Record>, b: seq<Record>, query: string)
    ensures Filter(a + b, query) == Filter(a, query) + Filter(b, query)
  {
    if !Decide(query).ShowAll? {
      var c := Decide(query);
      KeepAppend(a, b, v => Matches(c, v));
    }
  }

  /** One record is kept or dropped by its own test alone. */
  lemma FilterOne(v: Record, query: string)
    ensures Filter([v], query) == if Matches(Decide(query), v) then [v] else []
  {
    assert [v][1..] == [];
  }

  /**
   * A one-word query keeps exactly the records whose normalized,
   * rank-stripped name contains the normalized query; the service type
   * plays no part.
   */
  lemma FilterOneWord(roster: seq<Record>, query: string)
    requires !AllSpace(query) && NoSpace(Trim(query))
    ensures forall v :: v in Filter(roster, query) <==>
              v in roster && Contains(NormalizedName(v), NormalizeString(query))
  {
  }

  /**
   * A query of two or more words keeps exactly the records whose normalized
   * service type equals the selector and whose normalized, rank-stripped name
   * contains the normalized name part.
   */
  lemma FilterSeveralWords(roster: seq<Record>, query: string)
    requires |Split(Lower(Trim(query)))| >= 2
    ensures var words := Split(Lower(Trim(query)));
            var sel := ChooseSelector(words);
            var nameQuery := NormalizeString(Join(words[sel.nameStart..], " "));
            forall v :: v in Filter(roster, query) <==>
              && v in roster
              && NormalizeString(v.serviceType.GetOr("")) == sel.serviceType
              && Contains(NormalizedName(v), nameQuery)
  {
    var q := Trim(query);
    LowerKeepsSpaces(q);
    var words := Split(Lower(q));
    SplitOfTrimmed(Lower(q));
    SelectionCoversWords(words);
  }

  /**
   * A query whose name part is empty (for example "air force" alone) keeps
   * every record of the selected service.
   */
  lemma FilterServiceOnly(roster: seq<Record>, query: string)
    requires Decide(query).ServiceAndName? && Decide(query).nameQuery == ""
    ensures forall v :: v in Filter(roster, query) <==>
              v in roster && NormalizeString(v.serviceType.GetOr("")) == Decide(query).serviceType
  {
    forall v {
      ContainsEmptyAndSelf(NormalizedName(v), "");
    }
  }

  /** Capitals in the query make no difference. */
  lemma FilterIgnoresCase(roster: seq<Record>, query: string)
    ensures Filter(roster, Lower(query)) == Filter(roster, query)
  {
    TrimLower(query);
    var q := Trim(query);
    LowerOfNoUpper(Lower(q));
    LowerKeepsSpaces(query);
    LowerKeepsSpaces(q);
    LowerOfNoUpper(Lower(Lower(q)));
    assert NormalizeString(Lower(q)) == NormalizeString(q) by {
      LowerOfNoUpper(Lower(q));
    }
  }

  /**
   * Every record is found by the normal form of its own rank-stripped name:
   * that string holds no white space, so it is a one-word query (or a blank
   * one, which shows everything).
   */
  lemma FindsItself(v: Record)
    ensures Filter([v], NormalizedName(v)) == [v]
  {
    var n := NormalizedName(v);
    FilterOne(v, n);
    if !AllSpace(n) {
      TrimOfTrimmed(n);
      NormalizeIdempotent(ExtractActualName(v.name));
      ContainsEmptyAndSelf(n, n);
    }
  }
}

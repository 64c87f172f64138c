/**
 * The name normalizer of the veteran search page: `normalizeString`, which
 * reduces a string to the form used for comparison, and `extractActualName`,
 * which strips a rank from the front of a stored name.
 */
module Names {
  import opened Wrappers
  import opened JsString

  // ---------------------------------------------------------------- normalizeString

  /**
   * `normalizeString`: lower-case, with every run of white space deleted.
   * An absent argument is the empty string (`str || ""`); callers that may
   * pass an absent value write `GetOr("")`.
   */
  function NormalizeString(str: string): (r: string)
    ensures NoSpace(r) && NoUpper(r)
    ensures |r| <= |str|
  {
    RemoveSpaces(Lower(str))
  }

  /** A string with no white space and no capitals is its own normal form. */
  lemma NormalizeOfNormal(s: string)
    requires NoSpace(s) && NoUpper(s)
    ensures NormalizeString(s) == s
  {
    LowerOfNoUpper(s);
    RemoveSpacesOfNoSpace(s);
  }

  /** Normalizing twice is normalizing once. */
  lemma NormalizeIdempotent(s: string)
    ensures NormalizeString(NormalizeString(s)) == NormalizeString(s)
  {
    NormalizeOfNormal(NormalizeString(s));
  }

  /** Normalization works character by character, so it distributes over concatenation. */
  lemma NormalizeAppend(a: string, b: string)
    ensures NormalizeString(a + b) == NormalizeString(a) + NormalizeString(b)
  {
    LowerAppend(a, b);
    RemoveSpacesAppend(Lower(a), Lower(b));
  }

  /** A space between two strings disappears from their normal form. */
  lemma NormalizeAroundSpace(a: string, b: string)
    ensures NormalizeString(a + " " + b) == NormalizeString(a) + NormalizeString(b)
  {
    NormalizeAppend(a + " ", b);
    NormalizeAppend(a, " ");
    assert NormalizeString(" ") == [];
  }

  /** Trimming first makes no difference to the normal form. */
  lemma NormalizeTrim(s: string)
    ensures NormalizeString(Trim(s)) == NormalizeString(s)
  {
    RemoveSpacesLowerCommute(Trim(s));
    RemoveSpacesLowerCommute(s);
    RemoveSpacesOfTrim(s);
  }

  /** Words without white space or capitals, joined by spaces, normalize to their concatenation. */
  lemma {:induction false} NormalizeJoin(ws: seq<string>)
    requires forall k :: 0 <= k < |ws| ==> NoSpace(ws[k]) && NoUpper(ws[k])
    ensures NormalizeString(Join(ws, " ")) == Concat(ws)
  {
    if |ws| == 1 {
      NormalizeOfNormal(ws[0]);
    } else if |ws| > 1 {
      NormalizeJoin(ws[1..]);
      NormalizeAroundSpace(ws[0], Join(ws[1..], " "));
      NormalizeOfNormal(ws[0]);
    }
  }

  // ---------------------------------------------------------------- rankPrefixes

  /** The rank prefixes, in the order they are tried, one source row per line. */
  const RankPrefixes: seq<string> :=
    ["lt", "lt.", "lt ", "lt. ", "lt col", "lt.col", "lt col.", "lt.col."] +
    ["col", "col.", "col ", "col. ", "capt", "capt.", "capt ", "capt. "] +
    ["maj", "maj.", "maj ", "maj. ", "brig", "brig.", "brig ", "brig. "] +
    ["gen", "gen.", "gen ", "gen. ", "wg cdr", "wg.cdr", "wg cdr.", "wg.cdr."] +
    ["squadron leader", "squadronleader", "squadron leader.", "squadronleader."] +
    ["commander", "commander.", "commander ", "commander. "] +
    ["captain", "captain.", "captain ", "captain. "] +
    ["admiral", "admiral.", "admiral ", "admiral. "]

  /**
   * The index of the first entry of `prefixes` that `s` starts with: the
   * entry the `for...of` loop stops at with `break`, or `None` when the loop
   * runs to the end.
   */
  function FirstMatch(prefixes: seq<string>, s: string): (r: Option<nat>)
    ensures r.Some? ==> r.value < |prefixes| && StartsWith(s, prefixes[r.value])
    ensures r.Some? ==> forall j :: 0 <= j < r.value ==> !StartsWith(s, prefixes[j])
    ensures r.None? ==> forall j :: 0 <= j < |prefixes| ==> !StartsWith(s, prefixes[j])
  {
    if prefixes == [] then None
    else if StartsWith(s, prefixes[0]) then Some(0)
    else
      match FirstMatch(prefixes[1..], s)
      case None => None
      case Some(k) => Some(k + 1)
  }

  /** The first match is found by scanning: `i` is the first index whose entry `s` starts with. */
  lemma FirstMatchAt(prefixes: seq<string>, s: string, i: nat)
    requires i <= |prefixes|
    requires forall j :: 0 <= j < i ==> !StartsWith(s, prefixes[j])
    requires i < |prefixes| ==> StartsWith(s, prefixes[i])
    ensures FirstMatch(prefixes, s) == if i == |prefixes| then None else Some(i)
  {
  }

  /** An entry that extends an earlier entry can never be the first match. */
  lemma ShadowedNeverFirst(prefixes: seq<string>, s: string, j: nat, k: nat)
    requires j < k < |prefixes| && StartsWith(prefixes[k], prefixes[j])
    ensures FirstMatch(prefixes, s) != Some(k)
  {
    if StartsWith(s, prefixes[k]) {
      assert s[..|prefixes[j]|] == prefixes[k][..|prefixes[j]|];
    }
  }

  /** The positions in `RankPrefixes` of the entries that no earlier entry is a prefix of. */
  const LiveIndices: set<nat> := {0, 8, 12, 16, 20, 24, 28, 29, 32, 33, 36, 44}

  /** The entries at those positions. */
  const LivePrefixes: seq<string> := [
    "lt", "col", "capt", "maj", "brig", "gen", "wg cdr", "wg.cdr",
    "squadron leader", "squadronleader", "commander", "admiral"
  ]

  /** In the first two rows every variant extends "lt", "col" or "capt"; the "lt col" forms extend "lt". */
  lemma ExtendsEarlierInRows1To2(k: nat) returns (j: nat)
    requires 0 <= k <= 15 && k !in LiveIndices
    ensures j < k && StartsWith(RankPrefixes[k], RankPrefixes[j])
  {
    if k == 1 {
      j := 0;
    } else if k == 2 {
      j := 0;
    } else if k == 3 {
      j := 0;
    } else if k == 4 {
      j := 0;
    } else if k == 5 {
      j := 0;
    } else if k == 6 {
      j := 0;
    } else if k == 7 {
      j := 0;
    } else if k == 9 {
      j := 8;
    } else if k == 10 {
      j := 8;
    } else if k == 11 {
      j := 8;
    } else if k == 13 {
      j := 12;
    } else if k == 14 {
      j := 12;
    } else if k == 15 {
      j := 12;
    }
  }

  /** In rows three and four every variant extends "maj", "brig", "gen", "wg cdr" or "wg.cdr". */
  lemma ExtendsEarlierInRows3To4(k: nat) returns (j: nat)
    requires 16 <= k <= 31 && k !in LiveIndices
    ensures j < k && StartsWith(RankPrefixes[k], RankPrefixes[j])
  {
    if k == 17 {
      j := 16;
    } else if k == 18 {
      j := 16;
    } else if k == 19 {
      j := 16;
    } else if k == 21 {
      j := 20;
    } else if k == 22 {
      j := 20;
    } else if k == 23 {
      j := 20;
    } else if k == 25 {
      j := 24;
    } else if k == 26 {
      j := 24;
    } else if k == 27 {
      j := 24;
    } else if k == 30 {
      j := 28;
    } else if k == 31 {
      j := 29;
    }
  }

  /** In the last four rows every variant extends its base entry, and the "captain" forms extend "capt". */
  lemma ExtendsEarlierInRows5To8(k: nat) returns (j: nat)
    requires 32 <= k <= 47 && k !in LiveIndices
    ensures j < k && StartsWith(RankPrefixes[k], RankPrefixes[j])
  {
    if k == 34 {
      j := 32;
    } else if k == 35 {
      j := 33;
    } else if k == 37 {
      j := 36;
    } else if k == 38 {
      j := 36;
    } else if k == 39 {
      j := 36;
    } else if k == 40 {
      j := 12;
    } else if k == 41 {
      j := 12;
    } else if k == 42 {
      j := 12;
    } else if k == 43 {
      j := 12;
    } else if k == 45 {
      j := 44;
    } else if k == 46 {
      j := 44;
    } else if k == 47 {
      j := 44;
    }
  }

  /** Every entry outside `LiveIndices` extends an earlier entry. */
  lemma ExtendsEarlierEntry(k: nat) returns (j: nat)
    requires k < |RankPrefixes| && k !in LiveIndices
    ensures j < k && StartsWith(RankPrefixes[k], RankPrefixes[j])
  {
    if k <= 15 {
      j := ExtendsEarlierInRows1To2(k);
    } else if k <= 31 {
      j := ExtendsEarlierInRows3To4(k);
    } else {
      j := ExtendsEarlierInRows5To8(k);
    }
  }

  /**
   * Only the 12 live entries can ever be removed: a name that starts with a
   * longer variant also starts with the earlier entry it extends, which wins.
   */
  lemma OnlyLivePrefixesMatch(s: string)
    ensures FirstMatch(RankPrefixes, s).Some? ==>
              FirstMatch(RankPrefixes, s).value in LiveIndices &&
              RankPrefixes[FirstMatch(RankPrefixes, s).value] in LivePrefixes
  {
    var m := FirstMatch(RankPrefixes, s);
    if m.Some? {
      var k := m.value;
      if k !in LiveIndices {
        var j := ExtendsEarlierEntry(k);
        ShadowedNeverFirst(RankPrefixes, s, j, k);
      }
      LiveEntry(k);
    }
  }

  /** The entries at the live indices are the live prefixes. */
  lemma LiveEntry(k: nat)
    requires k in LiveIndices
    ensures k < |RankPrefixes| && RankPrefixes[k] in LivePrefixes
  {
    if k == 0 { assert RankPrefixes[k] == LivePrefixes[0];
    } else if k == 8 { assert RankPrefixes[k] == LivePrefixes[1];
    } else if k == 12 { assert RankPrefixes[k] == LivePrefixes[2];
    } else if k == 16 { assert RankPrefixes[k] == LivePrefixes[3];
    } else if k == 20 { assert RankPrefixes[k] == LivePrefixes[4];
    } else if k == 24 { assert RankPrefixes[k] == LivePrefixes[5];
    } else if k == 28 { assert RankPrefixes[k] == LivePrefixes[6];
    } else if k == 29 { assert RankPrefixes[k] == LivePrefixes[7];
    } else if k == 32 { assert RankPrefixes[k] == LivePrefixes[8];
    } else if k == 33 { assert RankPrefixes[k] == LivePrefixes[9];
    } else if k == 36 { assert RankPrefixes[k] == LivePrefixes[10];
    } else if k == 44 { assert RankPrefixes[k] == LivePrefixes[11];
    }
  }

  // ---------------------------------------------------------------- replace(/^[A-Z]{1,4}\s+/, "")

  /** The length of the run of capitals at the start of `s`. */
  function UpperRun(s: string): (n: nat)
    ensures n <= |s|
    ensures forall i :: 0 <= i < n ==> IsUpper(s[i])
    ensures n == |s| || !IsUpper(s[n])
  {
    if s != [] && IsUpper(s[0]) then 1 + UpperRun(s[1..]) else 0
  }

  /** `^[A-Z]{1,4}\s` matches `s` with exactly `k` capitals. */
  predicate AbbrevAt(s: string, k: int) {
    1 <= k <= 4 && k < |s| && (forall i :: 0 <= i < k ==> IsUpper(s[i])) && IsSpace(s[k])
  }

  /**
   * `s.replace(/^[A-Z]{1,4}\s+/, "")`: when `s` starts with one to four
   * capitals followed by white space, those capitals and the whole run of
   * white space after them are deleted; otherwise `s` is returned as is.
   */
  function DropAbbrev(s: string): (r: string)
    ensures forall k :: AbbrevAt(s, k) ==> r == TrimStart(s[k..])
    ensures (forall k :: !AbbrevAt(s, k)) ==> r == s
  {
    var n := UpperRun(s);
    AbbrevAtUpperRun(s);
    if 1 <= n <= 4 && n < |s| && IsSpace(s[n]) then
      TrimStart(s[n..])
    else
      s
  }

  /** The pattern can only match with the whole run of capitals. */
  lemma AbbrevAtUpperRun(s: string)
    ensures forall k :: AbbrevAt(s, k) <==> k == UpperRun(s) && 1 <= k <= 4 && k < |s| && IsSpace(s[k])
  {
  }

  /** Dropping an abbreviation keeps a suffix. */
  lemma DropAbbrevSuffix(s: string)
    ensures IsSuffix(DropAbbrev(s), s)
  {
    var n := UpperRun(s);
    if 1 <= n <= 4 && n < |s| && IsSpace(s[n]) {
      TrimStartAfter(s, n);
    } else {
      assert s[|s| - |s|..] == s;
    }
  }

  /** White space trimmed from the front of a tail leaves a suffix. */
  lemma TrimStartAfter(s: string, n: nat)
    requires n <= |s|
    ensures IsSuffix(TrimStart(s[n..]), s)
  {
    SuffixTransitive(TrimStart(s[n..]), s[n..], s);
  }

  // ---------------------------------------------------------------- extractActualName

  /**
   * What is left of a trimmed name once the first matching rank prefix is cut
   * off by its length, and a leading abbreviation is dropped (twice after a
   * prefix, once without), trimming after each step.
   */
  function StripRank(name: string): (r: string)
    ensures IsTrimmed(r)
  {
    var afterPrefix :=
      match FirstMatch(RankPrefixes, Lower(name))
      case None => name
      case Some(k) => Trim(DropAbbrev(Trim(name[|RankPrefixes[k]|..])));
    Trim(DropAbbrev(afterPrefix))
  }

  /** Each step keeps a suffix without trailing white space. */
  lemma CleanStep(s: string, t: string)
    requires EndsClean(t) && IsSuffix(s, t)
    ensures EndsClean(Trim(DropAbbrev(s))) && IsSuffix(Trim(DropAbbrev(s)), t)
  {
    DropAbbrevSuffix(s);
    SuffixTransitive(DropAbbrev(s), s, t);
    assert EndsClean(DropAbbrev(s));
    TrimOfEndClean(DropAbbrev(s));
    SuffixTransitive(Trim(DropAbbrev(s)), DropAbbrev(s), t);
  }

  /**
   * On a trimmed name, rank stripping removes characters from the front only:
   * the result is a suffix of the name, and when a prefix matched it is a suffix
   * of what follows that prefix, so one prefix is removed by its exact length.
   */
  lemma StripRankSuffix(name: string)
    requires IsTrimmed(name)
    ensures IsSuffix(StripRank(name), name)
    ensures FirstMatch(RankPrefixes, Lower(name)).Some? ==>
              IsSuffix(StripRank(name), name[|RankPrefixes[FirstMatch(RankPrefixes, Lower(name)).value]|..])
  {
    assert IsSuffix(name, name);
    match FirstMatch(RankPrefixes, Lower(name))
    case None =>
      CleanStep(name, name);
    case Some(k) =>
      var rest := name[|RankPrefixes[k]|..];
      assert IsSuffix(rest, name) && IsSuffix(rest, rest);
      assert EndsClean(rest);
      TrimOfEndClean(rest);
      SuffixTransitive(Trim(rest), rest, name);
      CleanStep(Trim(rest), rest);
      CleanStep(Trim(rest), name);
      var once := Trim(DropAbbrev(Trim(rest)));
      CleanStep(once, rest);
      CleanStep(once, name);
  }

  /**
   * `extractActualName`: the stored name without its rank. An absent or empty
   * field gives the empty string; any other field gives a non-empty result,
   * which is either the field itself (when stripping would leave nothing) or a
   * trimmed suffix of the trimmed field.
   */
  function ExtractActualName(nameField: Option<string>): (r: string)
    ensures r == "" <==> nameField.None? || nameField.value == ""
    ensures nameField.Some? ==>
              r == nameField.value || (IsTrimmed(r) && IsSuffix(r, Trim(nameField.value)))
  {
    if nameField.None? || nameField.value == "" then ""
    else
      var name := Trim(nameField.value);
      var stripped := StripRank(name);
      StripRankSuffix(name);
      if stripped == "" then nameField.value else stripped
  }

  /** `StripRank` split at the point where the prefix loop has finished. */
  lemma StripRankSteps(name: string, found: Option<nat>, afterPrefix: string)
    requires found == FirstMatch(RankPrefixes, Lower(name))
    requires found.None? ==> afterPrefix == name
    requires found.Some? ==> afterPrefix == Trim(DropAbbrev(Trim(name[|RankPrefixes[found.value]|..])))
    ensures StripRank(name) == Trim(DropAbbrev(afterPrefix))
  {
  }

  /** `ExtractActualName` of a present field, given the stripped trimmed field. */
  lemma ExtractOfStripped(field: string, stripped: string)
    requires field != "" && stripped == StripRank(Trim(field))
    ensures ExtractActualName(Some(field)) == if stripped == "" then field else stripped
  {
  }

  /**
   * The `for...of` loop of `extractActualName`: it stops at the first entry of
   * `prefixes` that the lower-cased name starts with, drops that many characters
   * and one capital abbreviation, and leaves the name alone when no entry matches.
   */
  method StripFirstPrefix(name: string, prefixes: seq<string>) returns (r: string)
    ensures FirstMatch(prefixes, Lower(name)).None? ==> r == name
    ensures FirstMatch(prefixes, Lower(name)).Some? ==>
              r == Trim(DropAbbrev(Trim(name[|prefixes[FirstMatch(prefixes, Lower(name)).value]|..])))
  {
    var nameLower := Lower(name);
    r := name;
    var i := 0;
    while i < |prefixes|
      invariant i <= |prefixes|
      invariant r == name
      invariant forall j :: 0 <= j < i ==> !StartsWith(nameLower, prefixes[j])
    {
      var prefix := prefixes[i];
      if StartsWith(nameLower, prefix) {
        r := Trim(r[|prefix|..]);
        r := Trim(DropAbbrev(r));
        break;
      }
      i := i + 1;
    }
    FirstMatchAt(prefixes, nameLower, i);
  }

  /** `extractActualName` as the source runs it, statement by statement. */
  method ExtractActualNameLoop(nameField: Option<string>) returns (r: string)
    ensures r == ExtractActualName(nameField)
  {
    if nameField.None? || nameField.value == "" {
      return "";
    }
    var name := Trim(nameField.value);
    ghost var trimmed := name;
    name := StripFirstPrefix(name, RankPrefixes);
    StripRankSteps(trimmed, FirstMatch(RankPrefixes, Lower(trimmed)), name);
    name := Trim(DropAbbrev(name));
    ExtractOfStripped(nameField.value, name);
    r := if name == "" then nameField.value else name;
  }
}

/**
 * Worked examples: concrete rosters and queries with the model's results on
 * them proved, and the quirks of rank stripping shown on concrete names. Each
 * example is assembled from small facts about its literals so that no proof has to
 * evaluate a long string at once.
 */
module Scenarios {
  import opened Wrappers
  import opened JsString
  import opened Names
  import opened Search

  // ---------------------------------------------------------------- evaluation helpers

  /** Trimming a string that has one leading space and is otherwise trimmed drops that space. */
  lemma TrimDropsOne(s: string)
    requires |s| >= 2 && IsSpace(s[0]) && IsTrimmed(s[1..])
    ensures Trim(s) == s[1..]
  {
    assert s[|s| - 1] == s[1..][|s| - 2];
    assert LeadingSpaces(s) == 1;
    TrimOfEndClean(s);
  }

  /** A trimmed string whose second character is a lower-case letter or punctuation has no abbreviation to drop. */
  lemma PlainText(t: string)
    requires |t| >= 2 && IsTrimmed(t) && !IsSpace(t[1]) && !IsUpper(t[1])
    ensures Trim(DropAbbrev(t)) == t
  {
    assert UpperRun(t) <= 1;
    assert DropAbbrev(t) == t;
    TrimOfTrimmed(t);
  }

  /** What `StripRank` computes once the first matching prefix is known. */
  lemma StripAfterMatch(name: string, k: nat)
    requires FirstMatch(RankPrefixes, Lower(name)) == Some(k)
    ensures StripRank(name) == Trim(DropAbbrev(Trim(DropAbbrev(Trim(name[|RankPrefixes[k]|..])))))
  {
  }

  /** What `StripRank` computes when no prefix matches. */
  lemma StripWithoutMatch(name: string)
    requires FirstMatch(RankPrefixes, Lower(name)) == None
    ensures StripRank(name) == Trim(DropAbbrev(name))
  {
  }

  /** What `ExtractActualName` computes on a non-empty field. */
  lemma ExtractUnfolds(field: string)
    requires field != ""
    ensures ExtractActualName(Some(field)) ==
              if StripRank(Trim(field)) == "" then field else StripRank(Trim(field))
  {
  }

  /** The normal form of a string whose lower-case form is some words joined by single spaces. */
  lemma NormalizeWords(s: string, ws: seq<string>)
    requires forall k :: 0 <= k < |ws| ==> NoSpace(ws[k]) && NoUpper(ws[k])
    requires Lower(s) == Join(ws, " ")
    ensures NormalizeString(s) == Concat(ws)
  {
    LowerOfNoUpper(Lower(s));
    NormalizeJoin(ws);
  }

  /** The first letters the rank prefixes begin with. */
  predicate IsRankInitial(c: char) {
    c == 'l' || c == 'c' || c == 'm' || c == 'b' || c == 'g' || c == 'w' || c == 's' || c == 'a'
  }

  /** The first row is the "lt" forms, the first half of the second row the "col" forms; every entry is non-empty. */
  lemma RankPrefixShape(j: nat)
    requires j < |RankPrefixes|
    ensures RankPrefixes[j] != [] && IsRankInitial(RankPrefixes[j][0])
    ensures j < 8 ==> |RankPrefixes[j]| >= 2 && RankPrefixes[j][..2] == "lt"
    ensures 8 <= j < 12 ==> |RankPrefixes[j]| >= 3 && RankPrefixes[j][..3] == "col"
  {
    if j < 16 {
      FirstTwoRows(j);
    } else {
      LaterRows(j);
    }
  }

  /** The "lt", "col" and "capt" rows. */
  lemma FirstTwoRows(j: nat)
    requires j < 16
    ensures RankPrefixes[j] != [] && IsRankInitial(RankPrefixes[j][0])
    ensures j < 8 ==> |RankPrefixes[j]| >= 2 && RankPrefixes[j][..2] == "lt"
    ensures 8 <= j < 12 ==> |RankPrefixes[j]| >= 3 && RankPrefixes[j][..3] == "col"
  {
    if j < 8 {
      assert RankPrefixes[j] == ["lt", "lt.", "lt ", "lt. ", "lt col", "lt.col", "lt col.", "lt.col."][j];
    } else {
      assert RankPrefixes[j] == ["col", "col.", "col ", "col. ", "capt", "capt.", "capt ", "capt. "][j - 8];
    }
  }

  /** Every later entry starts with one of the rank initials. */
  lemma LaterRows(j: nat)
    requires 16 <= j < |RankPrefixes|
    ensures RankPrefixes[j] != [] && IsRankInitial(RankPrefixes[j][0])
  {
    if j < 24 {
      assert RankPrefixes[j] == ["maj", "maj.", "maj ", "maj. ", "brig", "brig.", "brig ", "brig. "][j - 16];
    } else if j < 32 {
      assert RankPrefixes[j] == ["gen", "gen.", "gen ", "gen. ", "wg cdr", "wg.cdr", "wg cdr.", "wg.cdr."][j - 24];
    } else if j < 36 {
      assert RankPrefixes[j] == ["squadron leader", "squadronleader", "squadron leader.", "squadronleader."][j - 32];
    } else if j < 40 {
      assert RankPrefixes[j] == ["commander", "commander.", "commander ", "commander. "][j - 36];
    } else if j < 44 {
      assert RankPrefixes[j] == ["captain", "captain.", "captain ", "captain. "][j - 40];
    } else {
      assert RankPrefixes[j] == ["admiral", "admiral.", "admiral ", "admiral. "][j - 44];
    }
  }

  /** A name starting with a letter no prefix starts with matches no prefix. */
  lemma NoRankInitial(s: string)
    requires s != [] && !IsRankInitial(s[0])
    ensures FirstMatch(RankPrefixes, s) == None
  {
    forall j | 0 <= j < |RankPrefixes| ensures !StartsWith(s, RankPrefixes[j]) {
      RankPrefixShape(j);
    }
    FirstMatchAt(RankPrefixes, s, |RankPrefixes|);
  }

  /** The entries the examples below meet first. */
  lemma FirstEntries()
    ensures RankPrefixes[0] == "lt" && RankPrefixes[8] == "col" && RankPrefixes[12] == "capt"
  {
  }

  /** A name that starts with "lt" matches the first entry. */
  lemma LtMatches(s: string)
    requires |s| >= 2 && s[..2] == "lt"
    ensures FirstMatch(RankPrefixes, s) == Some(0)
  {
    FirstEntries();
    FirstMatchAt(RankPrefixes, s, 0);
  }

  /** A name that starts with "c" but not "col" skips the first twelve entries. */
  lemma SkipsLtAndCol(s: string)
    requires |s| >= 3 && s[0] == 'c' && s[..3] != "col"
    ensures forall j :: 0 <= j < 12 ==> !StartsWith(s, RankPrefixes[j])
  {
    forall j | 0 <= j < 12 ensures !StartsWith(s, RankPrefixes[j]) {
      RankPrefixShape(j);
    }
  }

  /** A name that starts with "col" matches the "col" entry. */
  lemma ColMatches(s: string)
    requires |s| >= 3 && s[..3] == "col"
    ensures FirstMatch(RankPrefixes, s) == Some(8)
  {
    assert s[0] == s[..3][0] == 'c';
    SkipsLt(s);
    ColStarts(s);
    FirstMatchAt(RankPrefixes, s, 8);
  }

  /** A name that does not start with "l" skips the first row. */
  lemma SkipsLt(s: string)
    requires s != [] && s[0] != 'l'
    ensures forall j :: 0 <= j < 8 ==> !StartsWith(s, RankPrefixes[j])
  {
    forall j | 0 <= j < 8 ensures !StartsWith(s, RankPrefixes[j]) {
      RankPrefixShape(j);
      assert RankPrefixes[j][0] == 'l';
    }
  }

  /** A name starting with "col" starts with the ninth entry. */
  lemma ColStarts(s: string)
    requires |s| >= 3 && s[..3] == "col"
    ensures StartsWith(s, RankPrefixes[8])
  {
    FirstEntries();
  }



  /** The result of `ExtractActualName` on a trimmed field, given what stripping leaves after the first matching prefix. */
  lemma ExtractAfterPrefix(n: string, k: nat, c: string)
    requires IsTrimmed(n) && n != ""
    requires FirstMatch(RankPrefixes, Lower(n)) == Some(k)
    requires Trim(DropAbbrev(Trim(DropAbbrev(Trim(n[|RankPrefixes[k]|..]))))) == c && c != ""
    ensures ExtractActualName(Some(n)) == c
  {
    ExtractUnfolds(n);
    TrimOfTrimmed(n);
    StripAfterMatch(n, k);
  }

  /** One to four capitals and a space in front of text are dropped. */
  lemma DropAbbrevOf(a: string, c: string)
    requires 1 <= |a| <= 4 && forall i :: 0 <= i < |a| ==> IsUpper(a[i])
    requires c != [] && !IsSpace(c[0])
    ensures DropAbbrev(a + " " + c) == c
  {
    var t := a + " " + c;
    assert AbbrevAt(t, |a|) by {
      forall i | 0 <= i < |a| ensures IsUpper(t[i]) {
        assert t[i] == a[i];
      }
    }
    assert t[|a|..] == " " + c;
    assert LeadingSpaces(" " + c) == 1 by {
      assert (" " + c)[1..] == c;
    }
  }

  /** A run of five or more capitals is not an abbreviation and stays. */
  lemma LongCapitalsKept(t: string)
    requires |t| >= 5 && forall i :: 0 <= i < 5 ==> IsUpper(t[i])
    ensures DropAbbrev(t) == t
  {
  }

  /** No abbreviation starts `c`: its second character is neither a capital nor white space, or it opens with five capitals. */
  predicate PlainStart(c: string) {
    || (|c| >= 2 && !IsSpace(c[1]) && !IsUpper(c[1]))
    || (|c| >= 5 && forall i :: 0 <= i < 5 ==> IsUpper(c[i]))
  }

  /** One to four capitals: what `[A-Z]{1,4}` matches. */
  predicate Abbrev(a: string) {
    1 <= |a| <= 4 && forall i :: 0 <= i < |a| ==> IsUpper(a[i])
  }

  /** Text with no abbreviation at its head survives the abbreviation step. */
  lemma PlainStays(c: string)
    requires IsTrimmed(c) && PlainStart(c)
    ensures Trim(DropAbbrev(c)) == c
  {
    if |c| >= 2 && !IsSpace(c[1]) && !IsUpper(c[1]) {
      PlainText(c);
    } else {
      LongCapitalsKept(c);
      TrimOfTrimmed(c);
    }
  }

  /** Trimming a space in front of trimmed text. */
  lemma TrimSpaceThen(c: string)
    requires IsTrimmed(c) && c != ""
    ensures Trim(" " + c) == c
  {
    TrimDropsOne(" " + c);
    assert (" " + c)[1..] == c;
  }

  /**
   * A trimmed name whose first matching prefix is followed, directly or after
   * one space, by text with no abbreviation at its head comes out as that text.
   */
  lemma ExtractPrefixThenPlain(n: string, k: nat, c: string)
    requires IsTrimmed(n) && n != ""
    requires FirstMatch(RankPrefixes, Lower(n)) == Some(k)
    requires n[|RankPrefixes[k]|..] == c || n[|RankPrefixes[k]|..] == " " + c
    requires IsTrimmed(c) && c != "" && PlainStart(c)
    ensures ExtractActualName(Some(n)) == c
  {
    if n[|RankPrefixes[k]|..] == c {
      TrimOfTrimmed(c);
    } else {
      TrimSpaceThen(c);
    }
    PlainStays(c);
    ExtractAfterPrefix(n, k, c);
  }

  /** A prefix, a space, an abbreviation, a space, then plain text: both the prefix and the abbreviation go. */
  lemma ExtractPrefixThenAbbrev(n: string, k: nat, a: string, c: string)
    requires IsTrimmed(n) && n != ""
    requires FirstMatch(RankPrefixes, Lower(n)) == Some(k)
    requires n[|RankPrefixes[k]|..] == " " + (a + " " + c)
    requires Abbrev(a) && IsTrimmed(c) && c != "" && PlainStart(c)
    ensures ExtractActualName(Some(n)) == c
  {
    OneAbbrevGoes(a, c);
    ExtractAfterPrefix(n, k, c);
  }

  /** A space, one abbreviation, a space and plain text: the two abbreviation steps leave the text. */
  lemma OneAbbrevGoes(a: string, c: string)
    requires Abbrev(a) && IsTrimmed(c) && c != "" && PlainStart(c)
    ensures Trim(DropAbbrev(Trim(DropAbbrev(Trim(" " + (a + " " + c)))))) == c
  {
    assert IsTrimmed(a + " " + c) by {
      assert (a + " " + c)[0] == a[0];
      assert (a + " " + c)[|a + " " + c| - 1] == c[|c| - 1];
    }
    TrimSpaceThen(a + " " + c);
    DropAbbrevOf(a, c);
    TrimOfTrimmed(c);
    PlainStays(c);
  }

  /** A space, two abbreviations and text: the first step drops one, the second the other. */
  lemma TwoAbbrevsGo(a: string, b: string, c: string)
    requires Abbrev(a) && Abbrev(b) && IsTrimmed(c) && c != ""
    ensures Trim(DropAbbrev(Trim(DropAbbrev(Trim(" " + (a + " " + (b + " " + c))))))) == c
  {
    var bc := b + " " + c;
    assert IsTrimmed(a + " " + bc) && IsTrimmed(bc) by {
      assert (a + " " + bc)[0] == a[0] && bc[0] == b[0];
      assert (a + " " + bc)[|a + " " + bc| - 1] == c[|c| - 1] && bc[|bc| - 1] == c[|c| - 1];
    }
    TrimSpaceThen(a + " " + bc);
    DropAbbrevOf(a, bc);
    TrimOfTrimmed(bc);
    DropAbbrevOf(b, c);
    TrimOfTrimmed(c);
  }

  /** A prefix, then two abbreviations, then plain text: all three go. */
  lemma ExtractPrefixThenTwoAbbrevs(n: string, k: nat, a: string, b: string, c: string)
    requires IsTrimmed(n) && n != ""
    requires FirstMatch(RankPrefixes, Lower(n)) == Some(k)
    requires n[|RankPrefixes[k]|..] == " " + (a + " " + (b + " " + c))
    requires Abbrev(a) && Abbrev(b) && IsTrimmed(c) && c != ""
    ensures ExtractActualName(Some(n)) == c
  {
    TwoAbbrevsGo(a, b, c);
    ExtractAfterPrefix(n, k, c);
  }

  /** Without a matching prefix, one leading abbreviation goes and the rest stays. */
  lemma ExtractAbbrevWithoutPrefix(n: string, a: string, c: string)
    requires FirstMatch(RankPrefixes, Lower(n)) == None
    requires n == a + " " + c
    requires Abbrev(a) && IsTrimmed(c) && c != ""
    ensures ExtractActualName(Some(n)) == c
  {
    assert IsTrimmed(n) by {
      assert n[0] == a[0];
      assert n[|n| - 1] == c[|c| - 1];
    }
    assert Trim(DropAbbrev(n)) == c by {
      DropAbbrevOf(a, c);
      TrimOfTrimmed(c);
    }
    TrimOfTrimmed(n);
    StripWithoutMatch(n);
    ExtractUnfolds(n);
  }

  /** Trimming one trailing space off trimmed text. */
  lemma TrimTrailingSpace(t: string)
    requires IsTrimmed(t) && t != ""
    ensures Trim(t + " ") == t
  {
    var n := t + " ";
    assert LeadingSpaces(n) == 0;
    assert TrailingSpaces(t) == 0;
    assert n[..|n| - 1] == t;
    assert TrailingSpaces(n) == 1;
  }

  /** Nothing to trim or drop in the empty string. */
  lemma EmptyStays()
    ensures Trim("") == "" && DropAbbrev("") == ""
  {
  }

  /** A field that is exactly a prefix plus trailing space strips to nothing, so the field itself comes back. */
  lemma ExtractOnlyPrefix(n: string, t: string, k: nat)
    requires n == t + " " && IsTrimmed(t) && t != ""
    requires FirstMatch(RankPrefixes, Lower(t)) == Some(k) && |RankPrefixes[k]| == |t|
    ensures ExtractActualName(Some(n)) == n
  {
    TrimTrailingSpace(t);
    assert t[|t|..] == "";
    EmptyStays();
    StripAfterMatch(t, k);
    ExtractUnfolds(n);
  }

  // ---------------------------------------------------------------- names
  //
  // Lemmas named `...Facts` state what a literal evaluates to (its lower-case
  // form, a slice, a split into words); the examples are then put together
  // from those facts and the general lemmas above.

  lemma RaviFacts()
    ensures Lower("Lt Col Ravi Shankar")[..2] == "lt"
    ensures "Lt Col Ravi Shankar"[2..] == " " + "Col Ravi Shankar"
  {
  }

  /** "Lt Col Ravi Shankar" loses "Lt" only: the "Col" after it is not stripped as well. */
  lemma RaviName()
    ensures ExtractActualName(Some("Lt Col Ravi Shankar")) == "Col Ravi Shankar"
  {
    RaviFacts();
    LtMatches(Lower("Lt Col Ravi Shankar"));
    FirstEntries();
    ExtractPrefixThenPlain("Lt Col Ravi Shankar", 0, "Col Ravi Shankar");
  }

  lemma SmithFacts()
    ensures Lower("Col Smith")[..3] == "col"
    ensures "Col Smith"[3..] == " " + "Smith"
  {
  }

  /** "Col Smith" becomes "Smith". */
  lemma SmithName()
    ensures ExtractActualName(Some("Col Smith")) == "Smith"
  {
    SmithFacts();
    ColMatches(Lower("Col Smith"));
    FirstEntries();
    ExtractPrefixThenPlain("Col Smith", 8, "Smith");
  }

  lemma PatelFacts()
    ensures Lower("LT XJ PATEL")[..2] == "lt"
    ensures "LT XJ PATEL"[2..] == " " + ("XJ" + " " + "PATEL")
  {
  }

  /**
   * "LT XJ PATEL": "lt" is cut off by its length, then the capitals "XJ" are
   * dropped as an abbreviation, leaving "PATEL"; a run of five capitals is
   * not an abbreviation.
   */
  lemma PatelName()
    ensures ExtractActualName(Some("LT XJ PATEL")) == "PATEL"
  {
    PatelFacts();
    LtMatches(Lower("LT XJ PATEL"));
    FirstEntries();
    ExtractPrefixThenAbbrev("LT XJ PATEL", 0, "XJ", "PATEL");
  }

  lemma ColinFacts()
    ensures Lower("Colin Powell")[..3] == "col"
    ensures "Colin Powell"[3..] == "in Powell"
  {
  }

  /**
   * Prefixes are matched without a word boundary and cut off by length:
   * "Colin Powell" starts with "col" and becomes "in Powell".
   */
  lemma ColinLosesCol()
    ensures ExtractActualName(Some("Colin Powell")) == "in Powell"
  {
    ColinFacts();
    ColMatches(Lower("Colin Powell"));
    FirstEntries();
    ExtractPrefixThenPlain("Colin Powell", 8, "in Powell");
  }

  lemma CaptainFacts()
    ensures |Lower("Captain Arjun Rao")| >= 4
    ensures Lower("Captain Arjun Rao")[0] == 'c'
    ensures Lower("Captain Arjun Rao")[1] == 'a'
    ensures Lower("Captain Arjun Rao")[..4] == "capt"
    ensures "Captain Arjun Rao"[4..] == "ain Arjun Rao"
  {
  }

  /** A name that starts with "capt" matches the "capt" entry. */
  lemma CaptMatches(s: string)
    requires |s| >= 4 && s[..4] == "capt"
    ensures FirstMatch(RankPrefixes, s) == Some(12)
  {
    CaptIsNotCol(s);
    SkipsLtAndCol(s);
    CaptStarts(s);
    FirstMatchAt(RankPrefixes, s, 12);
  }

  /** A name starting with "capt" starts with "c" but not with "col". */
  lemma CaptIsNotCol(s: string)
    requires |s| >= 4 && s[..4] == "capt"
    ensures s[0] == 'c' && s[..3] != "col"
  {
    assert s[0] == s[..4][0];
    assert s[..3][1] == s[1] == s[..4][1];
    assert "col"[1] == 'o';
  }

  /** A name starting with "capt" starts with the thirteenth entry. */
  lemma CaptStarts(s: string)
    requires |s| >= 4 && s[..4] == "capt"
    ensures StartsWith(s, RankPrefixes[12])
  {
    FirstEntries();
  }

  /**
   * "capt" comes before "captain" in the list, so "Captain Arjun Rao" loses
   * only four letters and becomes "ain Arjun Rao".
   */
  lemma CaptainLosesCapt()
    ensures ExtractActualName(Some("Captain Arjun Rao")) == "ain Arjun Rao"
  {
    CaptainFacts();
    CaptMatches(Lower("Captain Arjun Rao"));
    FirstEntries();
    ExtractPrefixThenPlain("Captain Arjun Rao", 12, "ain Arjun Rao");
  }

  lemma TwoAbbreviationsFacts()
    ensures Lower("Lt AB CD Smith")[..2] == "lt"
    ensures "Lt AB CD Smith"[2..] == " " + ("AB" + " " + ("CD" + " " + "Smith"))
  {
  }

  /** After a prefix, two abbreviations in a row are both dropped: "Lt AB CD Smith" becomes "Smith". */
  lemma TwoAbbreviationsAfterPrefix()
    ensures ExtractActualName(Some("Lt AB CD Smith")) == "Smith"
  {
    TwoAbbreviationsFacts();
    LtMatches(Lower("Lt AB CD Smith"));
    FirstEntries();
    ExtractPrefixThenTwoAbbrevs("Lt AB CD Smith", 0, "AB", "CD", "Smith");
  }

  lemma OneAbbreviationFacts()
    ensures Lower("NK AB Smith")[0] == 'n'
    ensures "NK AB Smith" == "NK" + " " + "AB Smith"
  {
  }

  /** Without a prefix only one abbreviation is dropped: "NK AB Smith" becomes "AB Smith". */
  lemma OneAbbreviationWithoutPrefix()
    ensures ExtractActualName(Some("NK AB Smith")) == "AB Smith"
  {
    OneAbbreviationFacts();
    NoRankInitial(Lower("NK AB Smith"));
    ExtractAbbrevWithoutPrefix("NK AB Smith", "NK", "AB Smith");
  }

  lemma NothingLeftFacts()
    ensures "LT " == "LT" + " "
    ensures Lower("LT")[..2] == "lt"
  {
  }

  /** When stripping leaves nothing, the field is returned as it was, untrimmed: "LT " stays "LT ". */
  lemma NothingLeftKeepsField()
    ensures ExtractActualName(Some("LT ")) == "LT "
  {
    NothingLeftFacts();
    LtMatches(Lower("LT"));
    FirstEntries();
    ExtractOnlyPrefix("LT ", "LT", 0);
  }

  lemma ColColinFacts()
    ensures Lower("Col Colin")[..3] == "col"
    ensures "Col Colin"[3..] == " " + "Colin"
  {
  }

  lemma ColinFacts2()
    ensures Lower("Colin")[..3] == "col"
    ensures "Colin"[3..] == "in"
  {
  }

  /** "Col Colin" gives "Colin". */
  lemma ColColinName()
    ensures ExtractActualName(Some("Col Colin")) == "Colin"
  {
    ColColinFacts();
    ColMatches(Lower("Col Colin"));
    FirstEntries();
    ExtractPrefixThenPlain("Col Colin", 8, "Colin");
  }

  /** "Colin" gives "in". */
  lemma ColinAlone()
    ensures ExtractActualName(Some("Colin")) == "in"
  {
    ColinFacts2();
    ColMatches(Lower("Colin"));
    FirstEntries();
    ExtractPrefixThenPlain("Colin", 8, "in");
  }

  /**
   * Stripping is not idempotent: "Col Colin" gives "Colin", and
   * stripping that again gives "in".
   */
  lemma StripNotIdempotent()
    ensures ExtractActualName(Some(ExtractActualName(Some("Col Colin")))) != ExtractActualName(Some("Col Colin"))
  {
    ColColinName();
    ColinAlone();
  }

  // ---------------------------------------------------------------- normal forms

  /** The normal form of a string whose lower-case form is one word. */
  lemma NormalizeOneWord(s: string, w: string)
    requires Lower(s) == w && NoSpace(w)
    ensures NormalizeString(s) == w
  {
    RemoveSpacesOfNoSpace(w);
  }

  lemma OneWordFacts()
    ensures Lower("Smith") == "smith" && NoSpace("smith")
    ensures Lower("PATEL") == "patel" && NoSpace("patel")
    ensures Lower("Army") == "army" && NoSpace("army")
  {
  }

  lemma RaviWordFacts()
    ensures Lower("Col Ravi Shankar") == Join(["col", "ravi", "shankar"], " ")
  {
  }

  lemma RaviWordsNormal()
    ensures forall k :: 0 <= k < 3 ==> NoSpace(["col", "ravi", "shankar"][k]) && NoUpper(["col", "ravi", "shankar"][k])
    ensures Concat(["col", "ravi", "shankar"]) == "colravishankar"
  {
  }

  lemma AirForceWordFacts()
    ensures Lower("Air Force") == Join(["air", "force"], " ")
    ensures forall k :: 0 <= k < 2 ==> NoSpace(["air", "force"][k]) && NoUpper(["air", "force"][k])
    ensures Concat(["air", "force"]) == "airforce"
  {
  }

  /** The normal form of "Col Ravi Shankar". */
  lemma RaviNormal()
    ensures NormalizeString("Col Ravi Shankar") == "colravishankar"
  {
    RaviWordFacts();
    RaviWordsNormal();
    NormalizeWords("Col Ravi Shankar", ["col", "ravi", "shankar"]);
  }

  /** The normal form of "Air Force". */
  lemma AirForceNormal()
    ensures NormalizeString("Air Force") == "airforce"
  {
    AirForceWordFacts();
    NormalizeWords("Air Force", ["air", "force"]);
  }

  /** The normal forms of the roster's names and service types. */
  lemma RosterNormalForms()
    ensures NormalizeString("Col Ravi Shankar") == "colravishankar"
    ensures NormalizeString("Smith") == "smith"
    ensures NormalizeString("PATEL") == "patel"
    ensures NormalizeString("Army") == "army"
    ensures NormalizeString("Air Force") == "airforce"
  {
    OneWordFacts();
    NormalizeOneWord("Smith", "smith");
    NormalizeOneWord("PATEL", "patel");
    NormalizeOneWord("Army", "army");
    RaviNormal();
    AirForceNormal();
  }

  // ---------------------------------------------------------------- queries

  /** Lower-case words joined by single spaces, read as a query. */
  lemma DecideJoined(words: seq<string>)
    requires |words| >= 2
    requires forall k :: 0 <= k < |words| ==> words[k] != [] && NoSpace(words[k]) && NoUpper(words[k])
    ensures Decide(Join(words, " ")) ==
              ServiceAndName(ChooseSelector(words).serviceType,
                             Concat(words[ChooseSelector(words).nameStart..]))
  {
    JoinedWordsClean(words);
    DecideOfWords(Join(words, " "), words);
  }

  /** Lower-case words joined by single spaces are already trimmed and lower-case. */
  lemma JoinedWordsClean(words: seq<string>)
    requires |words| >= 1
    requires forall k :: 0 <= k < |words| ==> words[k] != [] && NoSpace(words[k]) && NoUpper(words[k])
    ensures Lower(Trim(Join(words, " "))) == Join(words, " ")
  {
    var q := Join(words, " ");
    JoinEnds(words);
    assert !IsSpace(q[0]);
    TrimOfTrimmed(q);
    LowerOfNoUpper(q);
  }

  /** A selector word that is already normal and is "army" or "navy" is used alone. */
  lemma SelectsFirstWord(words: seq<string>)
    requires |words| >= 2 && (words[0] == "army" || words[0] == "navy")
    ensures ChooseSelector(words) == Selection(words[0], 1)
  {
    NormalizeOfNormal(words[0]);
  }

  /** Two normal words: the facts `DecideJoined` needs of them. */
  lemma TwoWords(a: string, b: string)
    requires a != [] && NoSpace(a) && NoUpper(a)
    requires b != [] && NoSpace(b) && NoUpper(b)
    ensures forall k :: 0 <= k < 2 ==> [a, b][k] != [] && NoSpace([a, b][k]) && NoUpper([a, b][k])
    ensures Join([a, b], " ") == a + " " + b
    ensures [a, b][1..] == [b] && Concat([b]) == b
  {
    assert [a, b][1..] == [b];
  }

  lemma ArmyFacts()
    ensures "army" != [] && NoSpace("army") && NoUpper("army")
    ensures "navy" != [] && NoSpace("navy") && NoUpper("navy")
    ensures "ravishankar" != [] && NoSpace("ravishankar") && NoUpper("ravishankar")
    ensures "army ravishankar" == "army" + " " + "ravishankar"
    ensures "navy ravishankar" == "navy" + " " + "ravishankar"
  {
  }

  /** A query whose first word is "army" selects that service and searches the rest. */
  lemma ArmyQuery()
    ensures Decide("army ravishankar") == ServiceAndName("army", "ravishankar")
  {
    ArmyFacts();
    TwoWords("army", "ravishankar");
    SelectsFirstWord(["army", "ravishankar"]);
    DecideJoined(["army", "ravishankar"]);
  }

  /** The same query with "navy" first selects that service instead. */
  lemma NavyQuery()
    ensures Decide("navy ravishankar") == ServiceAndName("navy", "ravishankar")
  {
    ArmyFacts();
    TwoWords("navy", "ravishankar");
    SelectsFirstWord(["navy", "ravishankar"]);
    DecideJoined(["navy", "ravishankar"]);
  }

  /** A first word other than "army" and "navy" that runs into the second to spell "airforce" takes both. */
  lemma SelectsTwoWords(words: seq<string>)
    requires |words| >= 2
    requires NoSpace(words[0]) && NoUpper(words[0]) && NoSpace(words[1]) && NoUpper(words[1])
    requires words[0] != "army" && words[0] != "navy" && words[0] + words[1] == "airforce"
    ensures ChooseSelector(words) == Selection("airforce", 2)
  {
    NormalizeOfNormal(words[0]);
    var pair := [words[0], words[1]];
    NormalizeJoin(pair);
    assert Join(pair, " ") == words[0] + " " + words[1] by {
      assert pair[1..] == [words[1]];
    }
    assert Concat(pair) == words[0] + words[1] by {
      assert pair[1..] == [words[1]] && pair[1..][1..] == [];
      assert Concat(pair[1..]) == words[1] + [];
    }
  }

  lemma AirForceFacts()
    ensures "air force smith" == Join(["air", "force", "smith"], " ")
    ensures forall k :: 0 <= k < 3 ==> ["air", "force", "smith"][k] != [] && NoSpace(["air", "force", "smith"][k]) && NoUpper(["air", "force", "smith"][k])
    ensures "air" + "force" == "airforce"
    ensures ["air", "force", "smith"][2..] == ["smith"]
  {
  }

  lemma SplitAirForceFacts()
    ensures "airfor ce smith" == Join(["airfor", "ce", "smith"], " ")
    ensures forall k :: 0 <= k < 3 ==> ["airfor", "ce", "smith"][k] != [] && NoSpace(["airfor", "ce", "smith"][k]) && NoUpper(["airfor", "ce", "smith"][k])
    ensures "airfor" + "ce" == "airforce"
    ensures ["airfor", "ce", "smith"][2..] == ["smith"]
  {
  }

  lemma SmithConcat()
    ensures Concat(["smith"]) == "smith"
  {
  }

  /** "air force" is recognized as one two-word service type. */
  lemma AirForceQuery()
    ensures Decide("air force smith") == ServiceAndName("airforce", "smith")
  {
    AirForceFacts();
    SmithConcat();
    SelectsTwoWords(["air", "force", "smith"]);
    DecideJoined(["air", "force", "smith"]);
  }

  /**
   * The two-word test compares normal forms, so the space may fall anywhere:
   * "airfor ce smith" reads exactly like "air force smith".
   */
  lemma SplitAirForceQuery()
    ensures Decide("airfor ce smith") == ServiceAndName("airforce", "smith")
  {
    SplitAirForceFacts();
    SmithConcat();
    SelectsTwoWords(["airfor", "ce", "smith"]);
    DecideJoined(["airfor", "ce", "smith"]);
  }

  // ---------------------------------------------------------------- filtering a roster

  const Ravi := Record(Some("Lt Col Ravi Shankar"), Some("Army"), "12 MG Road", ["9999999999"])
  const Smith := Record(Some("Col Smith"), Some("Air Force"), "", [])
  const Patel := Record(Some("LT XJ PATEL"), None, "", [])

  lemma ContainsFacts()
    ensures Contains("colravishankar", "ravishankar")
    ensures Contains("smith", "smith")
    ensures Contains("patel", "patel")
  {
    assert OccursAt("colravishankar", "ravishankar", 3);
    ContainsEmptyAndSelf("smith", "smith");
    ContainsEmptyAndSelf("patel", "patel");
  }

  /** "army ravishankar" finds "Lt Col Ravi Shankar" of the Army: the rank is stripped and spacing ignored. */
  lemma ArmyFindsRavi()
    ensures Filter([Ravi], "army ravishankar") == [Ravi]
  {
    ArmyQuery();
    RaviName();
    RosterNormalForms();
    ContainsFacts();
    FilterOne(Ravi, "army ravishankar");
  }

  /** "navy ravishankar" does not find him: the service type differs. */
  lemma NavyMissesRavi()
    ensures Filter([Ravi], "navy ravishankar") == []
  {
    NavyQuery();
    RosterNormalForms();
    FilterOne(Ravi, "navy ravishankar");
  }

  /** "air force smith" accepts Smith, an Air Force record, and rejects Ravi, an Army record. */
  lemma AirForceMatchesSmithOnly()
    ensures Matches(Decide("air force smith"), Smith)
    ensures !Matches(Decide("air force smith"), Ravi)
  {
    AirForceQuery();
    SmithName();
    RosterNormalForms();
    ContainsFacts();
  }

  /** "air force smith" finds "Col Smith" of the Air Force and not the Army officer. */
  lemma AirForceFindsSmith()
    ensures Filter([Ravi, Smith], "air force smith") == [Smith]
  {
    AirForceMatchesSmithOnly();
    FilterPair(Ravi, Smith, "air force smith");
  }

  /** A roster of two records is filtered one record at a time. */
  lemma FilterPair(a: Record, b: Record, query: string)
    ensures Filter([a, b], query) ==
              (if Matches(Decide(query), a) then [a] else []) + (if Matches(Decide(query), b) then [b] else [])
  {
    FilterOne(a, query);
    FilterOne(b, query);
    FilterAppend([a], [b], query);
    assert [a] + [b] == [a, b];
  }

  lemma QueryWordFacts()
    ensures "smith" != [] && NoSpace("smith") && NoUpper("smith")
    ensures "patel" != [] && NoSpace("patel") && NoUpper("patel")
  {
  }

  /** A lower-case word with no white space is a name-only query for itself. */
  lemma OneWordQuery(w: string)
    requires w != [] && NoSpace(w) && NoUpper(w)
    ensures Decide(w) == NameOnly(w)
  {
    TrimOfTrimmed(w);
    NormalizeOfNormal(w);
  }

  /** "smith" searches names only, so the Air Force officer is found without naming the service. */
  lemma NameOnlyFindsSmith()
    ensures Filter([Smith], "smith") == [Smith]
  {
    RosterNormalForms();
    QueryWordFacts();
    OneWordQuery("smith");
    SmithName();
    ContainsFacts();
    FilterOne(Smith, "smith");
  }

  /** A query of white space only shows the whole roster. */
  lemma BlankShowsAll(roster: seq<Record>)
    ensures Filter(roster, "   ") == roster
  {
    assert AllSpace("   ");
  }

  /**
   * "patel" finds "LT XJ PATEL": "LT" matches the prefix "lt", and the
   * abbreviation "XJ " is then dropped, leaving "PATEL".
   */
  lemma NameOnlyFindsPatel()
    ensures Filter([Patel], "patel") == [Patel]
  {
    RosterNormalForms();
    QueryWordFacts();
    OneWordQuery("patel");
    PatelName();
    ContainsFacts();
    FilterOne(Patel, "patel");
  }
}

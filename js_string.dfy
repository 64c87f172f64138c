/**
 * The JavaScript string primitives the matching engine is built from:
 * the `\s` character class (which is also what `trim` removes),
 * `toLowerCase` on ASCII letters, `startsWith`, `includes`, `trim`,
 * `split(/\s+/)`, `join` and `replace(/\s+/g, "")`.
 */
module JsString {

  /** A character of JavaScript's `\s` class: white space and line terminators. */
  predicate IsSpace(c: char) {
    || ('\t' <= c <= '\r')             // tab, line feed, vertical tab, form feed, carriage return
    || c == ' ' || c == '\U{00A0}' || c == '\U{1680}'
    || ('\U{2000}' <= c <= '\U{200A}')
    || ('\U{2028}' <= c <= '\U{2029}')  // line and paragraph separators
    || c == '\U{202F}' || c == '\U{205F}' || c == '\U{3000}' || c == '\U{FEFF}'
  }

  /** A character of the regular-expression class `[A-Z]`. */
  predicate IsUpper(c: char) {
    'A' <= c <= 'Z'
  }

  /** No character of `s` is white space. */
  predicate NoSpace(s: string) {
    forall i :: 0 <= i < |s| ==> !IsSpace(s[i])
  }

  /** Every character of `s` is white space. */
  predicate AllSpace(s: string) {
    forall i :: 0 <= i < |s| ==> IsSpace(s[i])
  }

  /** No character of `s` is a capital. */
  predicate NoUpper(s: string) {
    forall i :: 0 <= i < |s| ==> !IsUpper(s[i])
  }

  /** Neither starts nor ends with white space: what `trim` returns. */
  predicate IsTrimmed(s: string) {
    s == [] || (!IsSpace(s[0]) && !IsSpace(s[|s| - 1]))
  }

  /** Does not end with white space. */
  predicate EndsClean(s: string) {
    s == [] || !IsSpace(s[|s| - 1])
  }

  /** `r` is a suffix of `s`. */
  predicate IsSuffix(r: string, s: string) {
    |r| <= |s| && s[|s| - |r|..] == r
  }

  // ---------------------------------------------------------------- toLowerCase

  /** `toLowerCase` on one character, for the ASCII letters. */
  function ToLower(c: char): (d: char)
    ensures !IsUpper(d)
    ensures IsSpace(d) == IsSpace(c)
    ensures !IsUpper(c) ==> d == c
    ensures IsUpper(c) ==> d as int == c as int + 32
  {
    if IsUpper(c) then (c as int + 32) as char else c
  }

  /** `toLowerCase`: every capital letter replaced by its small letter, nothing else touched. */
  function Lower(s: string): (r: string)
    ensures |r| == |s|
    ensures forall i :: 0 <= i < |s| ==> r[i] == ToLower(s[i])
    ensures NoUpper(r)
  {
    seq(|s|, i requires 0 <= i < |s| => ToLower(s[i]))
  }

  /** Lower-casing works character by character. */
  lemma LowerAppend(a: string, b: string)
    ensures Lower(a + b) == Lower(a) + Lower(b)
  {
    assert forall i :: 0 <= i < |a + b| ==> Lower(a + b)[i] == (Lower(a) + Lower(b))[i];
  }

  /** A string without capitals is its own lower-case form. */
  lemma LowerOfNoUpper(s: string)
    requires NoUpper(s)
    ensures Lower(s) == s
  {
  }

  /** Lower-casing neither adds nor removes white space. */
  lemma LowerKeepsSpaces(s: string)
    ensures NoSpace(Lower(s)) == NoSpace(s)
    ensures AllSpace(Lower(s)) == AllSpace(s)
    ensures IsTrimmed(Lower(s)) == IsTrimmed(s)
  {
    if !NoSpace(s) {
      var i :| 0 <= i < |s| && IsSpace(s[i]);
      assert IsSpace(Lower(s)[i]);
    }
    if !AllSpace(s) {
      var i :| 0 <= i < |s| && !IsSpace(s[i]);
      assert !IsSpace(Lower(s)[i]);
    }
  }

  // ---------------------------------------------------------------- startsWith, includes

  /** `s.startsWith(p)`. */
  predicate StartsWith(s: string, p: string) {
    |p| <= |s| && s[..|p|] == p
  }

  /** `needle` occurs in `hay` at index `i`. */
  predicate OccursAt(hay: string, needle: string, i: int) {
    0 <= i && i + |needle| <= |hay| && hay[i..i + |needle|] == needle
  }

  /** `hay.includes(needle)`: true exactly when `needle` occurs somewhere in `hay`. */
  function Contains(hay: string, needle: string): (b: bool)
    ensures b <==> exists i :: OccursAt(hay, needle, i)
    decreases |hay|
  {
    if StartsWith(hay, needle) then
      assert OccursAt(hay, needle, 0);
      true
    else if hay == [] then
      false
    else
      OccursShift(hay, needle);
      Contains(hay[1..], needle)
  }

  /** Occurrences in a non-empty `hay` are the one at 0 and those of `hay[1..]`, shifted by one. */
  lemma OccursShift(hay: string, needle: string)
    requires hay != []
    ensures (exists i :: OccursAt(hay, needle, i))
        <==> StartsWith(hay, needle) || exists j :: OccursAt(hay[1..], needle, j)
  {
    if exists i :: OccursAt(hay, needle, i) {
      var i :| OccursAt(hay, needle, i);
      if i > 0 {
        assert hay[1..][i - 1..i - 1 + |needle|] == hay[i..i + |needle|];
        assert OccursAt(hay[1..], needle, i - 1);
      }
    }
    if exists j :: OccursAt(hay[1..], needle, j) {
      var j :| OccursAt(hay[1..], needle, j);
      assert hay[1..][j..j + |needle|] == hay[j + 1..j + 1 + |needle|];
      assert OccursAt(hay, needle, j + 1);
    }
    if StartsWith(hay, needle) {
      assert OccursAt(hay, needle, 0);
    }
  }

  /** Every string includes the empty string, and itself. */
  lemma ContainsEmptyAndSelf(s: string, t: string)
    ensures Contains(s, "") && Contains(t, t)
  {
    assert OccursAt(s, "", 0);
    assert OccursAt(t, t, 0);
  }

  // ---------------------------------------------------------------- trim

  /** The length of the run of white space at the start of `s`. */
  function LeadingSpaces(s: string): (n: nat)
    ensures n <= |s|
    ensures AllSpace(s[..n])
    ensures n == |s| || !IsSpace(s[n])
  {
    if s != [] && IsSpace(s[0]) then 1 + LeadingSpaces(s[1..]) else 0
  }

  /** The length of the run of white space at the end of `s`. */
  function TrailingSpaces(s: string): (n: nat)
    ensures n <= |s|
    ensures AllSpace(s[|s| - n..])
    ensures n == |s| || !IsSpace(s[|s| - 1 - n])
  {
    if s != [] && IsSpace(s[|s| - 1]) then
      var init := s[..|s| - 1];
      var m := TrailingSpaces(init);
      assert s[|s| - 1 - m..] == init[|init| - m..] + [s[|s| - 1]];
      assert m < |init| ==> s[|s| - 2 - m] == init[|init| - 1 - m];
      1 + m
    else
      0
  }

  /** `trimStart`: `s` without its leading white space. */
  function TrimStart(s: string): (r: string)
    ensures IsSuffix(r, s) && AllSpace(s[..|s| - |r|])
    ensures r == [] || !IsSpace(r[0])
  {
    s[LeadingSpaces(s)..]
  }

  /** `trimEnd`: `s` without its trailing white space. */
  function TrimEnd(s: string): (r: string)
    ensures |r| <= |s| && r == s[..|r|] && AllSpace(s[|r|..])
    ensures EndsClean(r)
  {
    s[..|s| - TrailingSpaces(s)]
  }

  /**
   * `trim`: the part of `s` between its leading and trailing white space.
   * The result is trimmed, sits in `s` right after the leading white space,
   * and only white space is dropped around it.
   */
  function Trim(s: string): (r: string)
    ensures IsTrimmed(r)
    ensures OccursAt(s, r, LeadingSpaces(s))
    ensures AllSpace(s[LeadingSpaces(s) + |r|..])
    ensures r == [] <==> AllSpace(s)
  {
    TrimParts(s);
    TrimEnd(TrimStart(s))
  }

  /** The facts behind `Trim`'s contract, about the two halves it is made of. */
  lemma TrimParts(s: string)
    ensures IsTrimmed(TrimEnd(TrimStart(s)))
    ensures OccursAt(s, TrimEnd(TrimStart(s)), LeadingSpaces(s))
    ensures AllSpace(s[LeadingSpaces(s) + |TrimEnd(TrimStart(s))|..])
    ensures TrimEnd(TrimStart(s)) == [] <==> AllSpace(s)
  {
    var n := LeadingSpaces(s);
    var t := TrimStart(s);
    var r := TrimEnd(t);
    assert t == s[n..];
    assert IsTrimmed(r) by {
      assert t != [] ==> r != [] && r[0] == t[0];
    }
    assert OccursAt(s, r, n) by {
      assert s[n..][..|r|] == r;
    }
    assert s[n + |r|..] == t[|r|..];
    assert AllSpace(s) ==> t == [] by {
      if t != [] { assert t[0] == s[n]; }
    }
    assert r == [] ==> AllSpace(s) by {
      if r == [] {
        assert s == s[..n] + t;
      }
    }
  }

  /** Lower-casing keeps the leading white space. */
  lemma {:induction false} LeadingSpacesOfLower(s: string)
    ensures LeadingSpaces(Lower(s)) == LeadingSpaces(s)
  {
    if s != [] {
      assert Lower(s)[1..] == Lower(s[1..]);
      LeadingSpacesOfLower(s[1..]);
    }
  }

  /** Lower-casing keeps the trailing white space. */
  lemma {:induction false} TrailingSpacesOfLower(s: string)
    ensures TrailingSpaces(Lower(s)) == TrailingSpaces(s)
  {
    if s != [] {
      assert Lower(s)[..|s| - 1] == Lower(s[..|s| - 1]);
      TrailingSpacesOfLower(s[..|s| - 1]);
    }
  }

  /** Lower-casing a slice is slicing the lower-cased string. */
  lemma LowerSlice(s: string, i: nat, j: nat)
    requires i <= j <= |s|
    ensures Lower(s)[i..j] == Lower(s[i..j])
  {
  }

  /** `trim` and `toLowerCase` can be applied in either order. */
  lemma TrimLower(s: string)
    ensures Trim(Lower(s)) == Lower(Trim(s))
  {
    TrimStartLower(s);
    TrimEndLower(TrimStart(s));
  }

  /** `trimStart` commutes with lower-casing. */
  lemma TrimStartLower(s: string)
    ensures TrimStart(Lower(s)) == Lower(TrimStart(s))
  {
    LeadingSpacesOfLower(s);
    LowerSlice(s, LeadingSpaces(s), |s|);
  }

  /** `trimEnd` commutes with lower-casing. */
  lemma TrimEndLower(t: string)
    ensures TrimEnd(Lower(t)) == Lower(TrimEnd(t))
  {
    TrailingSpacesOfLower(t);
    LowerSlice(t, 0, |t| - TrailingSpaces(t));
  }

  /** A trimmed string is left as it is by `trim`. */
  lemma TrimOfTrimmed(s: string)
    requires IsTrimmed(s)
    ensures Trim(s) == s
  {
  }

  /** On a string that does not end with white space, `trim` only drops a prefix. */
  lemma TrimOfEndClean(s: string)
    requires EndsClean(s)
    ensures Trim(s) == TrimStart(s)
    ensures IsSuffix(Trim(s), s)
  {
    var t := TrimStart(s);
    assert t != [] ==> t[|t| - 1] == s[|s| - 1];
  }

  /** A suffix of a suffix is a suffix. */
  lemma SuffixTransitive(r: string, s: string, t: string)
    requires IsSuffix(r, s) && IsSuffix(s, t)
    ensures IsSuffix(r, t)
  {
    assert t[|t| - |r|..] == t[|t| - |s|..][|s| - |r|..];
  }

  // ---------------------------------------------------------------- replace(/\s+/g, "")

  /** `s.replace(/\s+/g, "")`: `s` with every white-space character deleted. */
  function RemoveSpaces(s: string): (r: string)
    ensures NoSpace(r)
    ensures |r| <= |s|
    ensures NoUpper(s) ==> NoUpper(r)
  {
    if s == [] then []
    else (if IsSpace(s[0]) then [] else [s[0]]) + RemoveSpaces(s[1..])
  }

  /** Deleting white space works piece by piece. */
  lemma {:induction false} RemoveSpacesAppend(a: string, b: string)
    ensures RemoveSpaces(a + b) == RemoveSpaces(a) + RemoveSpaces(b)
  {
    if a != [] {
      assert (a + b)[0] == a[0];
      assert (a + b)[1..] == a[1..] + b;
      RemoveSpacesAppend(a[1..], b);
    } else {
      assert a + b == b;
    }
  }

  /** A string without white space is left as it is. */
  lemma {:induction false} RemoveSpacesOfNoSpace(s: string)
    requires NoSpace(s)
    ensures RemoveSpaces(s) == s
  {
    if s != [] {
      RemoveSpacesOfNoSpace(s[1..]);
    }
  }

  /** A string of white space disappears. */
  lemma {:induction false} RemoveSpacesOfAllSpace(s: string)
    requires AllSpace(s)
    ensures RemoveSpaces(s) == []
  {
    if s != [] {
      RemoveSpacesOfAllSpace(s[1..]);
    }
  }

  /** Deleting white space and lowering capitals can be done in either order. */
  lemma {:induction false} RemoveSpacesLowerCommute(s: string)
    ensures RemoveSpaces(Lower(s)) == Lower(RemoveSpaces(s))
  {
    if s != [] {
      assert Lower(s)[1..] == Lower(s[1..]);
      RemoveSpacesLowerCommute(s[1..]);
      LowerAppend(if IsSpace(s[0]) then [] else [s[0]], RemoveSpaces(s[1..]));
    }
  }

  /** `trim` drops only white space, so deleting white space afterwards gives the same string. */
  lemma RemoveSpacesOfTrim(s: string)
    ensures RemoveSpaces(Trim(s)) == RemoveSpaces(s)
  {
    assert Trim(s) == TrimEnd(TrimStart(s));
    RemoveSpacesOfTrimEnd(TrimStart(s));
    RemoveSpacesOfTrimStart(s);
  }

  /** Deleting white space makes trailing white space irrelevant. */
  lemma RemoveSpacesOfTrimEnd(s: string)
    ensures RemoveSpaces(TrimEnd(s)) == RemoveSpaces(s)
  {
    var r := TrimEnd(s);
    assert s == r + s[|r|..];
    RemoveSpacesAppend(r, s[|r|..]);
    RemoveSpacesOfAllSpace(s[|r|..]);
  }

  // ---------------------------------------------------------------- split(/\s+/), join

  /** The index of the first white-space character of `s`, or `|s|` if there is none. */
  function FirstSpace(s: string): (i: nat)
    ensures i <= |s|
    ensures NoSpace(s[..i])
    ensures i == |s| || IsSpace(s[i])
  {
    if s == [] || IsSpace(s[0]) then 0 else 1 + FirstSpace(s[1..])
  }

  /**
   * `s.split(/\s+/)`: the pieces of `s` between its runs of white space,
   * including an empty first (last) piece when `s` starts (ends) with white
   * space. There is always at least one piece, and there is exactly one,
   * `s` itself, when `s` holds no white space. The pieces never hold white
   * space and, when `s` has no capitals, no capitals either.
   */
  function Split(s: string): (words: seq<string>)
    ensures |words| >= 1
    ensures |words| == 1 <==> NoSpace(s)
    ensures |words| == 1 ==> words[0] == s
    ensures forall k :: 0 <= k < |words| ==> NoSpace(words[k])
    ensures NoUpper(s) ==> forall k :: 0 <= k < |words| ==> NoUpper(words[k])
    decreases |s|
  {
    var i := FirstSpace(s);
    if i == |s| then
      assert s[..i] == s;
      [s]
    else
      var rest := TrimStart(s[i..]);
      SplitStep(s, i, rest);
      [s[..i]] + Split(rest)
  }

  /** One step of `Split`: the rest after the first run of white space is shorter, and capitals cannot appear. */
  lemma SplitStep(s: string, i: nat, rest: string)
    requires i < |s| && IsSpace(s[i]) && rest == TrimStart(s[i..])
    ensures |rest| < |s| && !NoSpace(s)
    ensures NoUpper(s) ==> NoUpper(s[..i]) && NoUpper(rest)
  {
    assert s[i..][0] == s[i];
    TrimStartShorter(s[i..]);
    if NoUpper(s) {
      forall j | 0 <= j < |rest| ensures !IsUpper(rest[j]) {
        assert rest[j] == s[i..][|s| - i - |rest| + j];
      }
    }
  }

  /** `trimStart` of a string that starts with white space is shorter. */
  lemma TrimStartShorter(t: string)
    requires t != [] && IsSpace(t[0])
    ensures |TrimStart(t)| < |t|
  {
    assert LeadingSpaces(t) >= 1;
  }

  /** The concatenation of a sequence of strings. */
  function Concat(ws: seq<string>): string {
    if ws == [] then [] else ws[0] + Concat(ws[1..])
  }

  /** `ws.join(sep)`. */
  function Join(ws: seq<string>, sep: string): string {
    if ws == [] then []
    else if |ws| == 1 then ws[0]
    else ws[0] + sep + Join(ws[1..], sep)
  }

  /** The pieces of `split(/\s+/)` hold, in order, exactly the non-white-space characters of `s`. */
  lemma {:induction false} SplitConcat(s: string)
    ensures Concat(Split(s)) == RemoveSpaces(s)
    decreases |s|
  {
    var i := FirstSpace(s);
    if i == |s| {
      assert s[..i] == s;
      RemoveSpacesOfNoSpace(s);
    } else {
      var rest := TrimStart(s[i..]);
      assert Split(s)[1..] == Split(rest);
      SplitConcat(rest);
      RemoveSpacesAtFirstSpace(s);
    }
  }

  /** Deleting white space keeps the first piece whole and drops the run of white space after it. */
  lemma {:induction false} RemoveSpacesAtFirstSpace(s: string)
    requires FirstSpace(s) < |s|
    ensures RemoveSpaces(s) == s[..FirstSpace(s)] + RemoveSpaces(TrimStart(s[FirstSpace(s)..]))
  {
    var i := FirstSpace(s);
    RemoveSpacesOfTrimStart(s[i..]);
    RemoveSpacesAfterWord(s, i);
  }

  /** Deleting white space makes leading white space irrelevant. */
  lemma RemoveSpacesOfTrimStart(s: string)
    ensures RemoveSpaces(TrimStart(s)) == RemoveSpaces(s)
  {
    var rest := TrimStart(s);
    var gap := s[..|s| - |rest|];
    assert s == gap + rest;
    RemoveSpacesAppend(gap, rest);
    RemoveSpacesOfAllSpace(gap);
  }

  /** A prefix with no white space survives deletion unchanged. */
  lemma RemoveSpacesAfterWord(s: string, i: nat)
    requires i <= |s| && NoSpace(s[..i])
    ensures RemoveSpaces(s) == s[..i] + RemoveSpaces(s[i..])
  {
    assert s == s[..i] + s[i..];
    RemoveSpacesAppend(s[..i], s[i..]);
    RemoveSpacesOfNoSpace(s[..i]);
  }


  /** When `s` is trimmed and not empty, no piece of `split(/\s+/)` is empty. */
  lemma {:induction false} SplitOfTrimmed(s: string)
    requires IsTrimmed(s) && s != []
    ensures forall k :: 0 <= k < |Split(s)| ==> Split(s)[k] != []
    decreases |s|
  {
    var i := FirstSpace(s);
    if i < |s| {
      var rest := TrimStart(s[i..]);
      assert rest != [] && rest[|rest| - 1] == s[|s| - 1];
      SplitOfTrimmed(rest);
      assert Split(s) == [s[..i]] + Split(rest);
    }
  }

  /** Joining with a separator, cut at any inner position. */
  lemma {:induction false} JoinAt(ws: seq<string>, sep: string, k: nat)
    requires 0 < k < |ws|
    ensures Join(ws, sep) == Join(ws[..k], sep) + sep + Join(ws[k..], sep)
  {
    if k > 1 {
      JoinAt(ws[1..], sep, k - 1);
      assert ws[1..][..k - 1] == ws[..k][1..];
      assert ws[1..][k - 1..] == ws[k..];
    }
  }

  /** Deleting white space from pieces joined by a space leaves their concatenation. */
  lemma {:induction false} RemoveSpacesOfJoin(ws: seq<string>)
    requires forall k :: 0 <= k < |ws| ==> NoSpace(ws[k])
    ensures RemoveSpaces(Join(ws, " ")) == Concat(ws)
  {
    if |ws| == 1 {
      RemoveSpacesOfNoSpace(ws[0]);
    } else if |ws| > 1 {
      RemoveSpacesOfJoin(ws[1..]);
      RemoveSpacesAppend(ws[0] + " ", Join(ws[1..], " "));
      RemoveSpacesAppend(ws[0], " ");
      RemoveSpacesOfNoSpace(ws[0]);
      assert RemoveSpaces(" ") == [];
    }
  }

  /** The ends of words joined by spaces are the ends of the first and last word. */
  lemma {:induction false} JoinEnds(ws: seq<string>)
    requires |ws| >= 1
    requires forall k :: 0 <= k < |ws| ==> ws[k] != [] && NoSpace(ws[k])
    ensures Join(ws, " ") != []
    ensures Join(ws, " ")[0] == ws[0][0]
    ensures Join(ws, " ")[|Join(ws, " ")| - 1] == ws[|ws| - 1][|ws[|ws| - 1]| - 1]
    ensures (forall k :: 0 <= k < |ws| ==> NoUpper(ws[k])) ==> NoUpper(Join(ws, " "))
  {
    if |ws| > 1 {
      JoinEnds(ws[1..]);
      var rest := Join(ws[1..], " ");
      assert Join(ws, " ") == ws[0] + " " + rest;
      if forall k :: 0 <= k < |ws| ==> NoUpper(ws[k]) {
        assert forall k :: 0 <= k < |ws[1..]| ==> NoUpper(ws[1..][k]) by {
          forall k | 0 <= k < |ws[1..]| ensures NoUpper(ws[1..][k]) {
            assert ws[1..][k] == ws[k + 1];
          }
        }
        assert NoUpper(ws[0] + " " + rest) by {
          forall i | 0 <= i < |ws[0] + " " + rest|
            ensures !IsUpper((ws[0] + " " + rest)[i])
          {
            if i > |ws[0]| {
              assert (ws[0] + " " + rest)[i] == rest[i - |ws[0]| - 1];
            }
          }
        }
      }
    }
  }

  /** The first white space of a word followed by white space is right after the word. */
  lemma {:induction false} FirstSpaceAfterWord(a: string, b: string)
    requires NoSpace(a) && b != [] && IsSpace(b[0])
    ensures FirstSpace(a + b) == |a|
  {
    if a == [] {
      assert a + b == b;
    } else {
      assert (a + b)[1..] == a[1..] + b;
      FirstSpaceAfterWord(a[1..], b);
    }
  }

  /**
   * `split(/\s+/)` undoes `join(" ")` on non-empty words without white space:
   * the two are inverse on that domain.
   */
  lemma {:induction false} SplitJoin(ws: seq<string>)
    requires |ws| >= 1
    requires forall k :: 0 <= k < |ws| ==> ws[k] != [] && NoSpace(ws[k])
    ensures Split(Join(ws, " ")) == ws
  {
    if |ws| == 1 {
      assert Join(ws, " ") == ws[0];
    } else {
      var tl := ws[1..];
      assert forall k :: 0 <= k < |tl| ==> tl[k] != [] && NoSpace(tl[k]) by {
        forall k | 0 <= k < |tl| ensures tl[k] != [] && NoSpace(tl[k]) {
          assert tl[k] == ws[k + 1];
        }
      }
      var rest := Join(tl, " ");
      assert rest != [] && !IsSpace(rest[0]) by {
        JoinEnds(tl);
      }
      assert Join(ws, " ") == ws[0] + " " + rest;
      SplitWordSpace(ws[0], rest);
      SplitJoin(tl);
      HeadTail(ws);
    }
  }

  /** A non-empty sequence is its head followed by its tail. */
  lemma HeadTail<T>(xs: seq<T>)
    requires xs != []
    ensures [xs[0]] + xs[1..] == xs
  {
  }

  /** A word, one space and text that starts with no white space split at that space. */
  lemma SplitWordSpace(w: string, rest: string)
    requires NoSpace(w) && rest != [] && !IsSpace(rest[0])
    ensures Split(w + " " + rest) == [w] + Split(rest)
  {
    var s := w + " " + rest;
    FirstSpaceAfterWord(w, [' '] + rest);
    assert s == w + ([' '] + rest);
    assert s[|w|..] == [' '] + rest && s[..|w|] == w;
    assert TrimStart([' '] + rest) == rest by {
      assert LeadingSpaces([' '] + rest) == 1 by {
        assert ([' '] + rest)[1..] == rest;
      }
    }
  }

}

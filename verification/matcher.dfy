/**
 * The matching half of the name-reconciliation engine (js/matcher.js): a
 * roster of platform students is set once, and every name found in the
 * school's spreadsheet is matched against it, first by two tolerant
 * name-comparison rules and then, failing those, by a fuzzy search whose
 * best hit is accepted at a confidence of 80 or more.
 */
module Matcher {
  import opened Wrappers
  import opened Text
  import opened Parser

  // ----- words -----

  /** `s.split(' ')[0]`: the text before the first plain space. */
  function FirstWord(s: string): string {
    SplitOn(s, ' ')[0]
  }

  /** The first occurrence of `c` is the only position before which `c` does not occur. */
  lemma IndexOfUnique(s: string, c: char, k: nat)
    requires k < |s| && s[k] == c && c !in s[..k]
    ensures IndexOf(s, c) == Some(k)
  {
  }

  /** Text appended after a space does not change the first word. */
  lemma FirstWordBeforeSpace(a: string, t: string)
    requires t != [] && t[0] == ' '
    ensures FirstWord(a + t) == FirstWord(a)
  {
    var s := a + t;
    if ' ' in a {
      var k := IndexOf(a, ' ').value;
      assert s[..k] == a[..k];
      IndexOfUnique(s, ' ', k);
    } else {
      assert s[..|a|] == a;
      IndexOfUnique(s, ' ', |a|);
    }
  }

  // ----- the name-comparison rules -----

  /**
   * `lastNamesMatch(schoolLast, lsLast)`: the same name; or the school's name
   * has several space-separated words and the first is the platform's name;
   * or the platform's name, 15 characters or longer, starts the school's name
   * (the platform truncates long names).
   */
  predicate LastNamesMatch(schoolLast: string, lsLast: string): (m: bool)
    ensures m ==> StartsWith(schoolLast, lsLast)
  {
    var parts := SplitOn(schoolLast, ' ');
    || schoolLast == lsLast
    || (|parts| > 1 && parts[0] == lsLast)
    || (StartsWith(schoolLast, lsLast) && |lsLast| >= 15)
  }

  /**
   * `firstNamesMatch(schoolFirst, lsFirst)`: the same name; or one is the
   * other followed by a space and more (a middle name on either side); or
   * their first space-separated words agree.
   */
  predicate FirstNamesMatch(schoolFirst: string, lsFirst: string) {
    || schoolFirst == lsFirst
    || StartsWith(schoolFirst, lsFirst + " ")
    || StartsWith(lsFirst, schoolFirst + " ")
    || FirstWord(schoolFirst) == FirstWord(lsFirst)
  }

  /**
   * The three cases of `lastNamesMatch` stated without splitting: the school's
   * last name is the platform's, or is the platform's (itself without a space)
   * followed by a space and more, or starts with a platform name of at least
   * 15 characters.
   */
  lemma LastNamesMatchCases(schoolLast: string, lsLast: string)
    ensures LastNamesMatch(schoolLast, lsLast) <==>
      || schoolLast == lsLast
      || (' ' !in lsLast && StartsWith(schoolLast, lsLast + " "))
      || (StartsWith(schoolLast, lsLast) && |lsLast| >= 15)
  {
    var s := schoolLast;
    var parts := SplitOn(s, ' ');
    if |parts| > 1 && parts[0] == lsLast {
      var k := IndexOf(s, ' ').value;
      assert lsLast == s[..k];
      assert s[..k + 1] == lsLast + " ";
    }
    if ' ' !in lsLast && StartsWith(s, lsLast + " ") {
      assert s[..|lsLast|] == lsLast && s[|lsLast|] == ' ';
      IndexOfUnique(s, ' ', |lsLast|);
    }
  }

  /** A platform name of 15 characters or more that starts the school's name is accepted. */
  lemma TruncatedLastNameMatches(schoolLast: string, lsLast: string)
    requires |lsLast| >= 15 && StartsWith(schoolLast, lsLast)
    ensures LastNamesMatch(schoolLast, lsLast)
  {
  }

  /**
   * A shorter platform name that only starts a one-word school name is
   * rejected: "ABCDEFGHIJKLMN" (14 characters) does not match
   * "ABCDEFGHIJKLMNOP".
   */
  lemma ShortPrefixRejected(schoolLast: string, lsLast: string)
    requires |lsLast| < 15 && schoolLast != lsLast && ' ' !in schoolLast
    ensures !LastNamesMatch(schoolLast, lsLast)
  {
    LastNamesMatchCases(schoolLast, lsLast);
  }

  lemma FourteenCharacterPrefixRejected()
    ensures !LastNamesMatch("ABCDEFGHIJKLMNOP", "ABCDEFGHIJKLMN")
    ensures LastNamesMatch("ABCDEFGHIJKLMNOP", "ABCDEFGHIJKLMNO")
  {
    ShortPrefixRejected("ABCDEFGHIJKLMNOP", "ABCDEFGHIJKLMN");
    assert StartsWith("ABCDEFGHIJKLMNOP", "ABCDEFGHIJKLMNO");
  }

  /**
   * `firstNamesMatch` comes down to its last rule: two first names match
   * exactly when their first space-separated words agree.
   */
  lemma FirstNamesMatchFirstWord(schoolFirst: string, lsFirst: string)
    ensures FirstNamesMatch(schoolFirst, lsFirst) <==> FirstWord(schoolFirst) == FirstWord(lsFirst)
  {
    if StartsWith(schoolFirst, lsFirst + " ") {
      var t := schoolFirst[|lsFirst|..];
      assert schoolFirst == lsFirst + t;
      FirstWordBeforeSpace(lsFirst, t);
    }
    if StartsWith(lsFirst, schoolFirst + " ") {
      var t := lsFirst[|schoolFirst|..];
      assert lsFirst == schoolFirst + t;
      FirstWordBeforeSpace(schoolFirst, t);
    }
  }

  /** So the first-name rule is symmetric. */
  lemma FirstNamesMatchSymmetric(a: string, b: string)
    ensures FirstNamesMatch(a, b) == FirstNamesMatch(b, a)
  {
    FirstNamesMatchFirstWord(a, b);
    FirstNamesMatchFirstWord(b, a);
  }

  // ----- scores and confidence -----

  /** Scores are fixed-point numbers with six decimal places. */
  const ScoreScale: nat := 1000000

  /** A dissimilarity score of the fuzzy search in millionths: 0 is identical, `ScoreScale` (1.0) unrelated. */
  type Score = s: nat | s <= ScoreScale

  /**
   * `Math.round((1 - score) * 100)`: the confidence is the whole number
   * nearest to `100 * (1 - score)`, a half rounded up.
   */
  function ConfidenceOf(s: Score): (c: nat)
    ensures c <= 100
    ensures 2 * ScoreScale * c <= 200 * (ScoreScale - s) + ScoreScale < 2 * ScoreScale * c + 2 * ScoreScale
  {
    (200 * (ScoreScale - s) + ScoreScale) / (2 * ScoreScale)
  }

  /** The acceptance boundary: a confidence of 80 or more is a score of at most 0.205. */
  lemma ConfidenceThreshold(s: Score)
    ensures ConfidenceOf(s) >= 80 <==> s <= 205000
  {
  }

  /** Only a score of at most 0.005 gives full confidence. */
  lemma FullConfidence(s: Score)
    ensures ConfidenceOf(s) == 100 <==> s <= 5000
  {
  }

  /** A lower score never gives a lower confidence. */
  lemma ConfidenceMonotone(a: Score, b: Score)
    requires a <= b
    ensures ConfidenceOf(a) >= ConfidenceOf(b)
  {
  }

  // ----- the search index -----

  /**
   * A roster student with the search keys `initialize` adds to it for the
   * fuzzy search: "FIRST LAST", "LAST FIRST" and "LAST, FIRST", each trimmed.
   */
  datatype SearchItem = SearchItem(id: string, firstName: string, lastName: string,
                                   fullNameFL: string, fullNameLF: string, fullNameLCF: string)
  {
    /** The roster student the item was made from. */
    function Plain(): Student {
      Student(id, firstName, lastName)
    }
  }

  function SearchItemOf(s: Student): SearchItem {
    SearchItem(s.id, s.firstName, s.lastName,
               Trim(s.firstName + " " + s.lastName),
               Trim(s.lastName + " " + s.firstName),
               Trim(s.lastName + ", " + s.firstName))
  }

  /** The collection `initialize` hands to the fuzzy search: one item per roster student, in roster order. */
  function SearchItems(roster: seq<Student>): (items: seq<SearchItem>)
    ensures |items| == |roster|
    ensures forall k :: 0 <= k < |roster| ==> items[k].Plain() == roster[k]
  {
    seq(|roster|, k requires 0 <= k < |roster| => SearchItemOf(roster[k]))
  }

  lemma TrimPadded(w: string)
    requires IsTrimmed(w) && w != ""
    ensures Trim(" " + w) == w && Trim(w + " ") == w
  {
    assert (" " + w)[1..] == w;
    assert (w + " ")[..|w|] == w;
  }

  /** Two present, trimmed parts around a separator are left alone by `trim`. */
  lemma TrimJoined(a: string, sep: string, b: string)
    requires IsTrimmed(a) && a != "" && IsTrimmed(b) && b != ""
    ensures Trim(a + sep + b) == a + sep + b
  {
    var t := a + sep + b;
    assert t[0] == a[0] && t[|t| - 1] == b[|b| - 1];
  }

  /**
   * For a roster student whose names are upper-cased and trimmed, with at
   * least one present, the keys are the names in either order, single-spaced,
   * and "LAST, FIRST"; a missing name drops out of the first two keys, and
   * leaves ", FIRST" or "LAST," as the third.
   */
  lemma SearchKeys(s: Student)
    requires IsNormal(s.firstName) && IsNormal(s.lastName) && (s.firstName != "" || s.lastName != "")
    ensures var it := SearchItemOf(s);
      && it.Plain() == s
      && (s.firstName != "" && s.lastName != "" ==>
            && it.fullNameFL == s.firstName + " " + s.lastName
            && it.fullNameLF == s.lastName + " " + s.firstName
            && it.fullNameLCF == s.lastName + ", " + s.firstName)
      && (s.lastName == "" ==> it.fullNameFL == s.firstName && it.fullNameLF == s.firstName && it.fullNameLCF == ", " + s.firstName)
      && (s.firstName == "" ==> it.fullNameFL == s.lastName && it.fullNameLF == s.lastName && it.fullNameLCF == s.lastName + ",")
  {
    var f, l := s.firstName, s.lastName;
    if f != "" && l != "" {
      TrimJoined(f, " ", l);
      TrimJoined(l, " ", f);
      TrimJoined(l, ", ", f);
    } else if l == "" {
      SearchKeysLastMissing(f);
    } else {
      SearchKeysFirstMissing(l);
    }
  }

  lemma SearchKeysLastMissing(f: string)
    requires IsTrimmed(f) && f != ""
    ensures Trim(f + " " + "") == f && Trim("" + " " + f) == f && Trim("" + ", " + f) == ", " + f
  {
    assert f + " " + "" == f + " " && "" + " " + f == " " + f;
    TrimPadded(f);
    var t := "" + ", " + f;
    assert t[0] == ',' && t[|t| - 1] == f[|f| - 1];
  }

  lemma SearchKeysFirstMissing(l: string)
    requires IsTrimmed(l) && l != ""
    ensures Trim("" + " " + l) == l && Trim(l + " " + "") == l && Trim(l + ", " + "") == l + ","
  {
    assert "" + " " + l == " " + l && l + " " + "" == l + " ";
    TrimPadded(l);
    assert l + ", " + "" == (l + ",") + " ";
    assert (l + ",")[0] == l[0];
    TrimPadded(l + ",");
  }

  // ----- the fuzzy search -----

  /** A hit of the fuzzy search: an item of the searched collection and its score. */
  datatype Hit = Hit(item: SearchItem, score: Score)

  /**
   * Fuse's `search(query, {limit})` over a collection.  Its scoring is not
   * part of this model; `SearchSound` says what the matcher relies on.
   */
  type Engine = (seq<SearchItem>, string, nat) -> seq<Hit>

  /** At most `limit` hits, each an item of the collection, best (lowest score) first. */
  predicate SoundHits(items: seq<SearchItem>, limit: nat, hits: seq<Hit>) {
    && |hits| <= limit
    && (forall h :: h in hits ==> h.item in items)
    && (forall k, l :: 0 <= k < l < |hits| ==> hits[k].score <= hits[l].score)
  }

  ghost predicate SearchSound(engine: Engine) {
    forall items, query, limit :: SoundHits(items, limit, engine(items, query, limit))
  }

  /** A fuzzy suggestion: the item found, its score and the confidence derived from it. */
  datatype Suggestion = Suggestion(student: SearchItem, score: Score, confidence: nat)

  /** The string the fuzzy pass searches for: "FIRST LAST", trimmed. */
  function SearchString(p: ParsedName): string {
    Trim(p.firstName + " " + p.lastName)
  }

  /**
   * `findFuzzyMatches(parsedName, limit)`: nothing for a blank name;
   * otherwise the search's hits, best first, each with its confidence.
   */
  function FuzzyMatches(engine: Engine, items: seq<SearchItem>, p: ParsedName, limit: nat): (r: seq<Suggestion>)
    requires SearchSound(engine)
    ensures SearchString(p) == "" ==> r == []
    ensures SearchString(p) != "" ==> |r| == |engine(items, SearchString(p), limit)|
    ensures SearchString(p) != "" ==> forall k :: 0 <= k < |r| ==>
      r[k].student == engine(items, SearchString(p), limit)[k].item && r[k].score == engine(items, SearchString(p), limit)[k].score
    ensures |r| <= limit
    ensures forall k :: 0 <= k < |r| ==> r[k].student in items && r[k].confidence == ConfidenceOf(r[k].score)
    ensures forall k, l :: 0 <= k < l < |r| ==> r[k].confidence >= r[l].confidence
  {
    var query := SearchString(p);
    if query == "" then []
    else
      var hits := engine(items, query, limit);
      assert SoundHits(items, limit, hits);
      Suggestions(hits)
  }

  /** Each hit with the confidence its score gives, in the hits' order. */
  function Suggestions(hits: seq<Hit>): (r: seq<Suggestion>)
    requires forall k, l :: 0 <= k < l < |hits| ==> hits[k].score <= hits[l].score
    ensures |r| == |hits|
    ensures forall k :: 0 <= k < |r| ==> r[k].student == hits[k].item && r[k].score == hits[k].score
    ensures forall k :: 0 <= k < |r| ==> r[k].confidence == ConfidenceOf(r[k].score)
    ensures forall k, l :: 0 <= k < l < |r| ==> r[k].confidence >= r[l].confidence
  {
    var r := seq(|hits|, k requires 0 <= k < |hits| => Suggestion(hits[k].item, hits[k].score, ConfidenceOf(hits[k].score)));
    assert forall k, l :: 0 <= k < l < |r| ==> r[k].confidence >= r[l].confidence by {
      forall k, l | 0 <= k < l < |r| ensures r[k].confidence >= r[l].confidence {
        ConfidenceMonotone(hits[k].score, hits[l].score);
      }
    }
    r
  }

  // ----- the exact pass -----

  /** Both rules accept roster student `s` for the upper-cased school names. */
  predicate IsExact(schoolFirst: string, schoolLast: string, s: Student) {
    LastNamesMatch(schoolLast, Upper(s.lastName)) && FirstNamesMatch(schoolFirst, Upper(s.firstName))
  }

  /** The position of the first roster student from `i` on that both rules accept. */
  function ExactFrom(roster: seq<Student>, schoolFirst: string, schoolLast: string, i: nat): (r: Option<nat>)
    ensures r.Some? ==> i <= r.value < |roster|
    decreases |roster| - i
  {
    if i >= |roster| then None
    else if IsExact(schoolFirst, schoolLast, roster[i]) then Some(i)
    else ExactFrom(roster, schoolFirst, schoolLast, i + 1)
  }

  /** The scan finds nothing exactly when no roster student from `i` on is accepted. */
  lemma {:induction false} ExactFromNone(roster: seq<Student>, schoolFirst: string, schoolLast: string, i: nat)
    ensures ExactFrom(roster, schoolFirst, schoolLast, i).None? <==>
      forall j :: i <= j < |roster| ==> !IsExact(schoolFirst, schoolLast, roster[j])
    decreases |roster| - i
  {
    if i < |roster| && !IsExact(schoolFirst, schoolLast, roster[i]) {
      ExactFromNone(roster, schoolFirst, schoolLast, i + 1);
    }
  }

  /** What the scan finds is accepted, and no earlier roster student from `i` on is. */
  lemma {:induction false} ExactFromFirst(roster: seq<Student>, schoolFirst: string, schoolLast: string, i: nat)
    ensures ExactFrom(roster, schoolFirst, schoolLast, i).Some? ==>
      && IsExact(schoolFirst, schoolLast, roster[ExactFrom(roster, schoolFirst, schoolLast, i).value])
      && forall j :: i <= j < ExactFrom(roster, schoolFirst, schoolLast, i).value ==> !IsExact(schoolFirst, schoolLast, roster[j])
    decreases |roster| - i
  {
    if i < |roster| && !IsExact(schoolFirst, schoolLast, roster[i]) {
      ExactFromFirst(roster, schoolFirst, schoolLast, i + 1);
    }
  }

  /** `findExactMatch(parsedName)`: the first roster student both rules accept, if any. */
  function ExactMatch(roster: seq<Student>, p: ParsedName): (m: Option<Student>)
    ensures m.None? <==> forall k :: 0 <= k < |roster| ==> !IsExact(Upper(p.firstName), Upper(p.lastName), roster[k])
    ensures m.Some? ==> exists k :: (
      && 0 <= k < |roster| && roster[k] == m.value
      && IsExact(Upper(p.firstName), Upper(p.lastName), roster[k])
      && forall j :: 0 <= j < k ==> !IsExact(Upper(p.firstName), Upper(p.lastName), roster[j]))
  {
    ExactFromNone(roster, Upper(p.firstName), Upper(p.lastName), 0);
    ExactFromFirst(roster, Upper(p.firstName), Upper(p.lastName), 0);
    match ExactFrom(roster, Upper(p.firstName), Upper(p.lastName), 0)
    case None => None
    case Some(k) => Some(roster[k])
  }

  // ----- matching one student -----

  /**
   * What `matchStudent` reads of a school record: a name from the school's
   * spreadsheet or from a balance file, with its parse.
   */
  datatype Candidate = Candidate(originalName: string, parsedName: ParsedName)

  /** The outcome for one school name; an unmatched result has no match and confidence 0. */
  datatype MatchResult =
    | Matched(originalName: string, parsedName: ParsedName, student: Student, confidence: nat)
    | Unmatched(originalName: string, parsedName: ParsedName, suggestions: seq<Suggestion>)
  {
    function Confidence(): nat {
      if Matched? then confidence else 0
    }
  }

  /** The number of suggestions `matchStudent` asks the fuzzy search for. */
  const SuggestionLimit: nat := 5

  /**
   * `matchStudent(schoolStudent)`: the exact pass's student with confidence
   * 100; failing that the best fuzzy hit when its confidence is 80 or more;
   * otherwise unmatched, with every fuzzy suggestion.
   */
  function MatchOf(engine: Engine, roster: seq<Student>, c: Candidate): (r: MatchResult)
    requires SearchSound(engine)
    ensures r.originalName == c.originalName && r.parsedName == c.parsedName
    ensures r.Matched? ==> r.student in roster && 80 <= r.confidence <= 100
    ensures ExactMatch(roster, c.parsedName).Some? ==>
      r == Matched(c.originalName, c.parsedName, ExactMatch(roster, c.parsedName).value, 100)
    ensures ExactMatch(roster, c.parsedName).None? ==>
      var fuzzy := FuzzyMatches(engine, SearchItems(roster), c.parsedName, SuggestionLimit);
      if |fuzzy| > 0 && fuzzy[0].confidence >= 80 then r == Matched(c.originalName, c.parsedName, fuzzy[0].student.Plain(), fuzzy[0].confidence)
      else r == Unmatched(c.originalName, c.parsedName, fuzzy)
    ensures r.Unmatched? ==> |r.suggestions| <= SuggestionLimit
    ensures r.Unmatched? ==> forall k :: 0 <= k < |r.suggestions| ==>
      r.suggestions[k].student in SearchItems(roster) && r.suggestions[k].confidence < 80
  {
    var p := c.parsedName;
    match ExactMatch(roster, p)
    case Some(s) => Matched(c.originalName, p, s, 100)
    case None =>
      var fuzzy := FuzzyMatches(engine, SearchItems(roster), p, SuggestionLimit);
      if |fuzzy| > 0 && fuzzy[0].confidence >= 80 then
        var top := fuzzy[0].student;
        assert top.Plain() in roster by {
          var k :| 0 <= k < |roster| && SearchItems(roster)[k] == top;
        }
        Matched(c.originalName, p, top.Plain(), fuzzy[0].confidence)
      else Unmatched(c.originalName, p, fuzzy)
  }

  /**
   * A school name copied from a roster student's names is matched by the
   * exact pass with confidence 100: to that student, or to an earlier roster
   * student the rules also accept.
   */
  lemma VerbatimCopyMatches(engine: Engine, roster: seq<Student>, c: Candidate, k: nat)
    requires SearchSound(engine)
    requires k < |roster|
    requires c.parsedName.firstName == roster[k].firstName && c.parsedName.lastName == roster[k].lastName
    ensures var first := ExactFrom(roster, Upper(c.parsedName.firstName), Upper(c.parsedName.lastName), 0);
      && first.Some? && first.value <= k
      && MatchOf(engine, roster, c) == Matched(c.originalName, c.parsedName, roster[first.value], 100)
  {
    var f, l := Upper(c.parsedName.firstName), Upper(c.parsedName.lastName);
    assert IsExact(f, l, roster[k]);
    ExactFromNone(roster, f, l, 0);
    ExactFromFirst(roster, f, l, 0);
  }

  /**
   * When the exact pass finds nobody, the best fuzzy hit is accepted exactly
   * when there is one and its score is at most 0.205.
   */
  lemma FuzzyAcceptance(engine: Engine, roster: seq<Student>, c: Candidate)
    requires SearchSound(engine)
    requires ExactMatch(roster, c.parsedName).None?
    ensures var hits := engine(SearchItems(roster), SearchString(c.parsedName), SuggestionLimit);
      MatchOf(engine, roster, c).Matched? <==> SearchString(c.parsedName) != "" && |hits| > 0 && hits[0].score <= 205000
  {
    var hits := engine(SearchItems(roster), SearchString(c.parsedName), SuggestionLimit);
    if SearchString(c.parsedName) != "" && |hits| > 0 {
      ConfidenceThreshold(hits[0].score);
    }
  }

  lemma FirstWordOfTrimmed(w: string)
    requires IsTrimmed(w) && w != ""
    ensures FirstWord(w) != ""
  {
    if ' ' in w {
      assert IndexOf(w, ' ').value != 0;
    }
  }

  /**
   * With a roster as the export parser builds it, a school name whose first
   * and last names are both empty is unmatched, with no suggestions.
   */
  lemma EmptyNameUnmatched(engine: Engine, roster: seq<Student>, c: Candidate)
    requires SearchSound(engine)
    requires forall s :: s in roster ==> WellFormedStudent(s)
    requires c.parsedName.firstName == "" && c.parsedName.lastName == ""
    ensures MatchOf(engine, roster, c) == Unmatched(c.originalName, c.parsedName, [])
  {
    assert Upper("") == "";
    forall j | 0 <= j < |roster| ensures !IsExact("", "", roster[j]) {
      var s := roster[j];
      assert WellFormedStudent(s);
      if s.lastName == "" {
        FirstWordOfTrimmed(Upper(s.firstName));
        FirstNamesMatchFirstWord("", Upper(s.firstName));
      }
    }
    ExactFromNone(roster, "", "", 0);
    assert SearchString(c.parsedName) == "" by {
      assert "" + " " + "" == " ";
      assert Trim(" ") == Trim("");
    }
  }

  // ----- matching every student -----

  /** `matchStudent` applied to every school name, in order. */
  function MatchAll(engine: Engine, roster: seq<Student>, cs: seq<Candidate>): (rs: seq<MatchResult>)
    requires SearchSound(engine)
    ensures |rs| == |cs|
    ensures forall k :: 0 <= k < |cs| ==> rs[k] == MatchOf(engine, roster, cs[k])
  {
    seq(|cs|, k requires 0 <= k < |cs| => MatchOf(engine, roster, cs[k]))
  }

  /** The results whose status is matched (`matched` true) or unmatched (`matched` false), in order. */
  function Routed(rs: seq<MatchResult>, matched: bool): (r: seq<MatchResult>)
    ensures |r| <= |rs|
    ensures forall x :: x in r ==> x in rs && x.Matched? == matched
  {
    if rs == [] then []
    else Routed(rs[..|rs| - 1], matched) + (if rs[|rs| - 1].Matched? == matched then [rs[|rs| - 1]] else [])
  }

  /** Routing one more result appends it to the list of its status and leaves the other list alone. */
  lemma RoutedStep(rs: seq<MatchResult>, i: nat)
    requires i < |rs|
    ensures forall matched: bool ::
      Routed(rs[..i + 1], matched) == Routed(rs[..i], matched) + (if rs[i].Matched? == matched then [rs[i]] else [])
  {
    assert rs[..i + 1][..i] == rs[..i];
  }

  /**
   * Every result lands in exactly one of the two lists: the matched list
   * holds the matched results, the unmatched list the others, and their
   * lengths add up to the number of results.
   */
  lemma {:induction false} Partition(rs: seq<MatchResult>)
    ensures |Routed(rs, true)| + |Routed(rs, false)| == |rs|
    ensures forall r :: r in Routed(rs, true) <==> r in rs && r.Matched?
    ensures forall r :: r in Routed(rs, false) <==> r in rs && r.Unmatched?
  {
    if rs != [] {
      var init := rs[..|rs| - 1];
      Partition(init);
      assert rs == init + [rs[|rs| - 1]];
    }
  }

  /**
   * Both lists keep the input order: the results of a longer input extend
   * those of its first part by those of the rest.
   */
  lemma {:induction false} RoutedKeepsOrder(a: seq<MatchResult>, b: seq<MatchResult>, matched: bool)
    ensures Routed(a + b, matched) == Routed(a, matched) + Routed(b, matched)
    decreases |b|
  {
    if b == [] {
      assert a + b == a;
    } else {
      var init, last := b[..|b| - 1], b[|b| - 1];
      var t := if last.Matched? == matched then [last] else [];
      RoutedKeepsOrder(a, init, matched);
      assert (a + b)[..|a + b| - 1] == a + init;
      assert (a + b)[|a + b| - 1] == last;
      calc {
        Routed(a + b, matched);
        Routed(a + init, matched) + t;
        (Routed(a, matched) + Routed(init, matched)) + t;
        Routed(a, matched) + (Routed(init, matched) + t);
      }
    }
  }

  // ----- the dropdown list -----

  /** A roster student as the manual-override dropdown lists it. */
  datatype DropdownEntry = DropdownEntry(id: string, displayName: string, firstName: string, lastName: string)

  function DropdownEntryOf(s: Student): DropdownEntry {
    DropdownEntry(s.id, s.lastName + ", " + s.firstName, s.firstName, s.lastName)
  }

  function DropdownEntries(roster: seq<Student>): (es: seq<DropdownEntry>)
    ensures |es| == |roster|
    ensures forall k :: 0 <= k < |roster| ==> es[k] == DropdownEntryOf(roster[k])
  {
    seq(|roster|, k requires 0 <= k < |roster| => DropdownEntryOf(roster[k]))
  }

  /** Code-point lexicographic order on strings, standing in for `localeCompare`. */
  predicate LexLe(a: string, b: string) {
    a == [] || (b != [] && (a[0] < b[0] || (a[0] == b[0] && LexLe(a[1..], b[1..]))))
  }

  /** Any two strings are ordered one way or the other. */
  lemma {:induction false} LexLeTotal(a: string, b: string)
    ensures LexLe(a, b) || LexLe(b, a)
  {
    if a != [] && b != [] && a[0] == b[0] {
      LexLeTotal(a[1..], b[1..]);
    }
  }

  /** The order is transitive. */
  lemma {:induction false} LexLeTransitive(a: string, b: string, c: string)
    requires LexLe(a, b) && LexLe(b, c)
    ensures LexLe(a, c)
  {
    if a != [] && b != [] && c != [] && a[0] == b[0] && b[0] == c[0] {
      LexLeTransitive(a[1..], b[1..], c[1..]);
    }
  }

  /** Each entry's display name is at most the next one's. */
  predicate SortedByName(es: seq<DropdownEntry>) {
    forall k :: 0 < k < |es| ==> LexLe(es[k - 1].displayName, es[k].displayName)
  }

  /** In a list sorted by name, every entry's name is at most every later entry's. */
  lemma {:induction false} SortedPairwise(es: seq<DropdownEntry>, k: nat, l: nat)
    requires SortedByName(es) && k < l < |es|
    ensures LexLe(es[k].displayName, es[l].displayName)
    decreases l - k
  {
    if l > k + 1 {
      SortedPairwise(es, k, l - 1);
      LexLeTransitive(es[k].displayName, es[l - 1].displayName, es[l].displayName);
    }
  }

  /** `e` placed into `es` after the leading entries whose names are at most its own. */
  function Insert(e: DropdownEntry, es: seq<DropdownEntry>): (r: seq<DropdownEntry>)
    ensures |r| == |es| + 1
    ensures multiset(r) == multiset(es) + multiset{e}
    ensures r[0] == e || (es != [] && r[0] == es[0])
  {
    if es == [] then [e]
    else if !LexLe(es[0].displayName, e.displayName) then [e] + es
    else
      assert es == [es[0]] + es[1..];
      [es[0]] + Insert(e, es[1..])
  }

  /** Inserting into a sorted list keeps it sorted. */
  lemma {:induction false} InsertSorted(e: DropdownEntry, es: seq<DropdownEntry>)
    requires SortedByName(es)
    ensures SortedByName(Insert(e, es))
  {
    if es != [] {
      if !LexLe(es[0].displayName, e.displayName) {
        LexLeTotal(es[0].displayName, e.displayName);
      } else {
        var rest := es[1..];
        assert SortedByName(rest) by {
          forall k | 0 < k < |rest| ensures LexLe(rest[k - 1].displayName, rest[k].displayName) {
            assert rest[k - 1] == es[k] && rest[k] == es[k + 1];
          }
        }
        InsertSorted(e, rest);
        var r := Insert(e, es);
        assert r == [es[0]] + Insert(e, rest);
        assert rest != [] ==> LexLe(es[0].displayName, rest[0].displayName) by {
          if rest != [] { assert rest[0] == es[1]; }
        }
      }
    }
  }

  /** Insertion sort by display name. */
  function SortByName(es: seq<DropdownEntry>): (r: seq<DropdownEntry>)
    ensures |r| == |es|
    ensures multiset(r) == multiset(es)
    ensures SortedByName(r)
  {
    if es == [] then []
    else
      var init := es[..|es| - 1];
      assert es == init + [es[|es| - 1]];
      InsertSorted(es[|es| - 1], SortByName(init));
      Insert(es[|es| - 1], SortByName(init))
  }

  // ----- the matcher -----

  /**
   * The matcher: the roster kept by `initialize`, the collection the fuzzy
   * index was built over, and the fuzzy search itself.
   */
  class StudentMatcher {
    /** `liveSchoolStudents`. */
    var roster: seq<Student>
    /** The keyed students the fuzzy index holds. */
    var items: seq<SearchItem>
    /** The fuzzy search the index answers with. */
    const engine: Engine

    ghost predicate Valid()
      reads this
    {
      SearchSound(engine) && items == SearchItems(roster)
    }

    /** A matcher already initialised with `students`. */
    constructor (engine: Engine, students: seq<Student>)
      requires SearchSound(engine)
      ensures Valid() && this.engine == engine && roster == students
    {
      this.engine := engine;
      roster := students;
      items := SearchItems(students);
    }

    /** `initialize(students)`: the roster and the index are replaced, not extended. */
    method Initialize(students: seq<Student>)
      requires Valid()
      modifies this
      ensures Valid() && roster == students && items == SearchItems(students)
    {
      roster := students;
      items := SearchItems(students);
    }

    /** `findExactMatch(parsedName)`: the first roster student both rules accept. */
    method FindExactMatch(p: ParsedName) returns (m: Option<Student>)
      ensures m == ExactMatch(roster, p)
    {
      var schoolFirst := Upper(p.firstName);
      var schoolLast := Upper(p.lastName);
      var i := 0;
      while i < |roster|
        invariant 0 <= i <= |roster|
        invariant ExactFrom(roster, schoolFirst, schoolLast, i) == ExactFrom(roster, schoolFirst, schoolLast, 0)
      {
        var student := roster[i];
        if LastNamesMatch(schoolLast, Upper(student.lastName)) && FirstNamesMatch(schoolFirst, Upper(student.firstName)) {
          return Some(student);
        }
        i := i + 1;
      }
      return None;
    }

    /** `matchStudent(schoolStudent)`. */
    method MatchStudent(c: Candidate) returns (r: MatchResult)
      requires Valid()
      ensures r == MatchOf(engine, roster, c)
    {
      var exact := FindExactMatch(c.parsedName);
      if exact.Some? {
        return Matched(c.originalName, c.parsedName, exact.value, 100);
      }
      var fuzzy := FuzzyMatches(engine, items, c.parsedName, SuggestionLimit);
      if |fuzzy| > 0 && fuzzy[0].confidence >= 80 {
        return Matched(c.originalName, c.parsedName, fuzzy[0].student.Plain(), fuzzy[0].confidence);
      }
      r := Unmatched(c.originalName, c.parsedName, fuzzy);
    }

    /** `matchAllStudents(schoolStudents)`: every result, split into matched and unmatched, in input order. */
    method MatchAllStudents(cs: seq<Candidate>) returns (matched: seq<MatchResult>, unmatched: seq<MatchResult>)
      requires Valid()
      ensures matched == Routed(MatchAll(engine, roster, cs), true)
      ensures unmatched == Routed(MatchAll(engine, roster, cs), false)
    {
      ghost var rs := MatchAll(engine, roster, cs);
      matched, unmatched := [], [];
      for i := 0 to |cs|
        invariant matched == Routed(rs[..i], true)
        invariant unmatched == Routed(rs[..i], false)
      {
        var result := MatchStudent(cs[i]);
        assert result == rs[i];
        RoutedStep(rs, i);
        if result.Matched? {
          matched := matched + [result];
        } else {
          unmatched := unmatched + [result];
        }
      }
      assert rs[..|cs|] == rs;
    }

    /** `getAllStudentsForDropdown()`: every roster student as a dropdown entry, sorted by display name. */
    function GetAllStudentsForDropdown(): (r: seq<DropdownEntry>)
      reads this
      ensures |r| == |roster|
      ensures multiset(r) == multiset(DropdownEntries(roster))
      ensures SortedByName(r)
    {
      SortByName(DropdownEntries(roster))
    }
  }
}

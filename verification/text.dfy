/**
 * The JavaScript string primitives the name parser and the matcher rely on:
 * `trim`, `toUpperCase`/`toLowerCase` (ASCII letters only), `split(/\s+/)`,
 * `split(' ')`, `indexOf`, `startsWith`, `join`, `parseInt(_, 10)` and the
 * decimal printing of a number inside a template string.
 */
module Text {
  import opened Wrappers

  // ----- characters -----

  /** The whitespace class used by `trim` and by the `\s` of a regular expression (ASCII part). */
  predicate IsSpace(c: char) {
    c == ' ' || c == '\t' || c == '\n' || c == '\r' || c == '\U{000B}' || c == '\U{000C}'
  }

  predicate IsLowerLetter(c: char) { 'a' <= c <= 'z' }

  predicate IsUpperLetter(c: char) { 'A' <= c <= 'Z' }

  predicate IsDigit(c: char) { '0' <= c <= '9' }

  function UpperChar(c: char): (d: char)
    ensures !IsLowerLetter(d)
    ensures IsLowerLetter(c) ==> IsUpperLetter(d) && d as int == c as int - 32
    ensures !IsLowerLetter(c) ==> d == c
  {
    if IsLowerLetter(c) then (c as int - 32) as char else c
  }

  function LowerChar(c: char): (d: char)
    ensures !IsUpperLetter(d)
    ensures IsUpperLetter(c) ==> IsLowerLetter(d) && d as int == c as int + 32
    ensures !IsUpperLetter(c) ==> d == c
  {
    if IsUpperLetter(c) then (c as int + 32) as char else c
  }

  // ----- case mapping -----

  /** No lower-case ASCII letter occurs in `s`. */
  predicate IsUpperCased(s: string) {
    forall c :: c in s ==> !IsLowerLetter(c)
  }

  predicate NoSpace(s: string) {
    forall c :: c in s ==> !IsSpace(c)
  }

  /** `s.toUpperCase()` on ASCII letters; every other character is left alone. */
  function Upper(s: string): (r: string)
    ensures |r| == |s|
    ensures forall i :: 0 <= i < |s| ==> r[i] == UpperChar(s[i])
    ensures IsUpperCased(r)
    ensures IsUpperCased(s) ==> r == s
  {
    seq(|s|, i requires 0 <= i < |s| => UpperChar(s[i]))
  }

  /** `s.toLowerCase()` on ASCII letters. */
  function Lower(s: string): (r: string)
    ensures |r| == |s|
    ensures forall i :: 0 <= i < |s| ==> r[i] == LowerChar(s[i])
  {
    seq(|s|, i requires 0 <= i < |s| => LowerChar(s[i]))
  }

  // ----- trimming -----

  predicate IsTrimmed(s: string) {
    s == [] || (!IsSpace(s[0]) && !IsSpace(s[|s| - 1]))
  }

  /** `s` without its leading whitespace: a suffix of `s`, cut after whitespace only. */
  function TrimStart(s: string): (r: string)
    ensures |r| <= |s| && r == s[|s| - |r|..]
    ensures forall i :: 0 <= i < |s| - |r| ==> IsSpace(s[i])
    ensures r == [] || !IsSpace(r[0])
  {
    if s != [] && IsSpace(s[0]) then TrimStart(s[1..]) else s
  }

  /** `s.trim()`: whitespace dropped from both ends, one character at a time. */
  function Trim(s: string): (r: string)
    ensures IsTrimmed(r)
    ensures IsTrimmed(s) ==> r == s
    ensures forall c :: c in r ==> c in s
    decreases |s|
  {
    if s == [] then []
    else if IsSpace(s[0]) then Trim(s[1..])
    else if IsSpace(s[|s| - 1]) then Trim(s[..|s| - 1])
    else s
  }

  /** Only whitespace lies outside `s[lo..hi]`. */
  predicate SpaceOutside(s: string, lo: nat, hi: nat) {
    && lo <= hi <= |s|
    && (forall i :: 0 <= i < lo ==> IsSpace(s[i]))
    && (forall i :: hi <= i < |s| ==> IsSpace(s[i]))
  }

  /** A whitespace character in front of `t` widens the whitespace before `t[lo..hi]` by one. */
  lemma SpaceOutsideShift(s: string, lo: nat, hi: nat)
    requires s != [] && IsSpace(s[0]) && SpaceOutside(s[1..], lo, hi)
    ensures SpaceOutside(s, lo + 1, hi + 1) && s[1..][lo..hi] == s[lo + 1..hi + 1]
  {
    forall i | 0 <= i < lo + 1 ensures IsSpace(s[i]) {
      if i > 0 { assert s[i] == s[1..][i - 1]; }
    }
    forall i | hi + 1 <= i < |s| ensures IsSpace(s[i]) {
      assert s[i] == s[1..][i - 1];
    }
  }

  /** `Trim` keeps a contiguous part of `s` and removes only whitespace around it. */
  lemma {:induction false} TrimIsSlice(s: string)
    ensures exists lo: nat, hi: nat :: SpaceOutside(s, lo, hi) && Trim(s) == s[lo..hi]
    decreases |s|
  {
    if s == [] {
      assert SpaceOutside(s, 0, 0) && Trim(s) == s[0..0];
    } else if IsSpace(s[0]) {
      var t := s[1..];
      TrimIsSlice(t);
      var lo: nat, hi: nat :| SpaceOutside(t, lo, hi) && Trim(t) == t[lo..hi];
      SpaceOutsideShift(s, lo, hi);
      assert SpaceOutside(s, lo + 1, hi + 1) && Trim(s) == s[lo + 1..hi + 1];
    } else if IsSpace(s[|s| - 1]) {
      var t := s[..|s| - 1];
      TrimIsSlice(t);
      var lo: nat, hi: nat :| SpaceOutside(t, lo, hi) && Trim(t) == t[lo..hi];
      assert SpaceOutside(s, lo, hi) && Trim(s) == s[lo..hi];
    } else {
      assert SpaceOutside(s, 0, |s|) && Trim(s) == s[0..|s|];
    }
  }

  /** Upper-casing moves no whitespace, so it keeps a trimmed string trimmed. */
  lemma UpperKeepsTrimmed(s: string)
    requires IsTrimmed(s)
    ensures IsTrimmed(Upper(s))
  {
  }

  lemma UpperKeepsNoSpace(s: string)
    requires NoSpace(s)
    ensures NoSpace(Upper(s))
  {
    forall c | c in Upper(s) ensures !IsSpace(c) {
      var i :| 0 <= i < |s| && Upper(s)[i] == c;
      assert s[i] in s;
    }
  }

  // ----- searching -----

  /** `s.indexOf(c)`, with `None` standing for `-1`. */
  function IndexOf(s: string, c: char): (r: Option<nat>)
    ensures r.None? <==> c !in s
    ensures r.Some? ==> r.value < |s| && s[r.value] == c && c !in s[..r.value]
  {
    if s == [] then None
    else if s[0] == c then Some(0)
    else match IndexOf(s[1..], c)
      case None => None
      case Some(k) => assert s[1..][..k] == s[1..k + 1]; Some(k + 1)
  }

  /** The first `c` of `a + [c] + b` is the one after `a` when `a` has none. */
  lemma {:induction false} IndexOfAfter(a: string, c: char, b: string)
    requires c !in a
    ensures IndexOf(a + [c] + b, c) == Some(|a|)
  {
    if a != [] {
      assert (a + [c] + b)[1..] == a[1..] + [c] + b;
      IndexOfAfter(a[1..], c, b);
    }
  }

  /** The position of the first whitespace character of `s`, or `|s|` when there is none. */
  function FirstSpace(s: string): (k: nat)
    ensures k <= |s|
    ensures k < |s| ==> IsSpace(s[k])
    ensures forall i :: 0 <= i < k ==> !IsSpace(s[i])
  {
    if s == [] || IsSpace(s[0]) then 0 else 1 + FirstSpace(s[1..])
  }

  /** `s.startsWith(p)`. */
  predicate StartsWith(s: string, p: string) {
    |p| <= |s| && s[..|p|] == p
  }

  // ----- splitting and joining -----

  /** `s.split(c)` for a one-character separator: the pieces between the occurrences of `c`. */
  function SplitOn(s: string, c: char): (parts: seq<string>)
    ensures |parts| >= 1
    ensures |parts| > 1 <==> c in s
    ensures IndexOf(s, c).None? ==> parts[0] == s
    ensures IndexOf(s, c).Some? ==> parts[0] == s[..IndexOf(s, c).value]
    decreases |s|
  {
    match IndexOf(s, c)
    case None => [s]
    case Some(k) => [s[..k]] + SplitOn(s[k + 1..], c)
  }

  /**
   * `s.split(/\s+/)`: the pieces between maximal runs of whitespace.  A
   * leading or trailing run yields an empty first or last piece, as in
   * JavaScript, and the empty string yields `[""]`.
   */
  function SplitWs(s: string): (parts: seq<string>)
    ensures |parts| >= 1
    ensures forall i :: 0 <= i < |parts| ==> NoSpace(parts[i])
    ensures forall i :: 0 <= i < |parts| ==> forall c :: c in parts[i] ==> c in s
    decreases |s|
  {
    var k := FirstSpace(s);
    if k == |s| then
      [s]
    else
      var rest := TrimStart(s[k..]);
      assert forall c :: c in rest ==> c in s;
      [s[..k]] + SplitWs(rest)
  }

  /** Whitespace runs as `split(/\s+/)` removes them: non-empty and made of whitespace only. */
  predicate IsGap(g: string) {
    g != [] && forall i :: 0 <= i < |g| ==> IsSpace(g[i])
  }

  /** The number of whitespace characters `s` starts with. */
  function SpaceRun(t: string): (n: nat)
    ensures n <= |t|
    ensures forall i :: 0 <= i < n ==> IsSpace(t[i])
    ensures t != [] && IsSpace(t[0]) ==> n > 0
  {
    if t != [] && IsSpace(t[0]) then 1 + SpaceRun(t[1..]) else 0
  }

  /** `TrimStart` drops exactly the leading run of whitespace. */
  lemma {:induction false} TrimStartDropsRun(t: string)
    ensures TrimStart(t) == t[SpaceRun(t)..]
  {
    if t != [] && IsSpace(t[0]) {
      TrimStartDropsRun(t[1..]);
      assert t[1..][SpaceRun(t[1..])..] == t[SpaceRun(t)..];
    }
  }

  /** `parts[0] + gaps[0] + parts[1] + ... + parts[n]`: pieces with the runs between them put back. */
  function Interleave(parts: seq<string>, gaps: seq<string>): string
    requires |parts| >= 1 && |gaps| == |parts| - 1
  {
    if |parts| == 1 then parts[0] else parts[0] + gaps[0] + Interleave(parts[1..], gaps[1..])
  }

  /** `s` cut into three consecutive slices at `k` and `k + n`. */
  lemma ThreeSlices(s: string, k: nat, n: nat)
    requires k + n <= |s|
    ensures s == s[..k] + s[k..k + n] + s[k + n..]
    ensures s[k..][n..] == s[k + n..] && s[k..][..n] == s[k..k + n]
  {
  }

  /** Cutting `s` at a whitespace character at `k`: the part before, the run from `k`, and the rest. */
  lemma CutAtRun(s: string, k: nat)
    requires k < |s| && IsSpace(s[k])
    ensures k + SpaceRun(s[k..]) <= |s|
    ensures IsGap(s[k..k + SpaceRun(s[k..])])
    ensures s == s[..k] + s[k..k + SpaceRun(s[k..])] + s[k + SpaceRun(s[k..])..]
    ensures s[k..][SpaceRun(s[k..])..] == s[k + SpaceRun(s[k..])..]
  {
    var t := s[k..];
    var n := SpaceRun(t);
    assert t[0] == s[k];
    ThreeSlices(s, k, n);
    var g := s[k..k + n];
    forall i | 0 <= i < n ensures IsSpace(g[i]) {
      assert g[i] == t[i];
    }
  }

  /** `parts`, with the whitespace runs `gaps` between consecutive pieces, spell `s`. */
  predicate Rebuilds(parts: seq<string>, gaps: seq<string>, s: string) {
    && |parts| >= 1 && |gaps| == |parts| - 1
    && (forall i :: 0 <= i < |gaps| ==> IsGap(gaps[i]))
    && Interleave(parts, gaps) == s
  }

  /** A piece and a gap put in front of a rebuilt tail rebuild the longer string. */
  lemma RebuildsCons(p: string, g: string, ps: seq<string>, gs: seq<string>, rest: string)
    requires IsGap(g) && Rebuilds(ps, gs, rest)
    ensures Rebuilds([p] + ps, [g] + gs, p + g + rest)
  {
    var parts, gaps := [p] + ps, [g] + gs;
    assert parts[1..] == ps && gaps[1..] == gs;
    forall i | 0 <= i < |gaps| ensures IsGap(gaps[i]) {
      if i > 0 { assert gaps[i] == gs[i - 1]; }
    }
  }

  /**
   * The pieces of `split(/\s+/)` together with the whitespace runs between
   * them rebuild the input: nothing but whitespace is dropped, and each
   * dropped run lies between two pieces.
   */
  lemma {:induction false} SplitWsRebuild(s: string)
    ensures exists gaps :: Rebuilds(SplitWs(s), gaps, s)
    decreases |s|
  {
    var k := FirstSpace(s);
    if k == |s| {
      assert SplitWs(s) == [s];
      assert Rebuilds(SplitWs(s), [], s);
    } else {
      var n := SpaceRun(s[k..]);
      var rest := TrimStart(s[k..]);
      TrimStartDropsRun(s[k..]);
      CutAtRun(s, k);
      SplitWsRebuild(rest);
      var gs :| Rebuilds(SplitWs(rest), gs, rest);
      assert SplitWs(s) == [s[..k]] + SplitWs(rest);
      RebuildsCons(s[..k], s[k..k + n], SplitWs(rest), gs, rest);
      assert Rebuilds(SplitWs(s), [s[k..k + n]] + gs, s);
    }
  }


  /** `parts.join(sep)`. */
  function Join(parts: seq<string>, sep: string): string {
    if parts == [] then ""
    else if |parts| == 1 then parts[0]
    else parts[0] + sep + Join(parts[1..], sep)
  }

  /** A word as `split(/\s+/)` yields it from a trimmed, non-empty string. */
  predicate IsWord(w: string) {
    w != [] && NoSpace(w)
  }

  /**
   * Only the first and the last piece of `split(/\s+/)` can be empty (when
   * the input starts or ends with whitespace); the first is non-empty when
   * the input starts with a non-space.
   */
  lemma {:induction false} SplitWsInnerWords(s: string)
    ensures s != [] && !IsSpace(s[0]) ==> SplitWs(s)[0] != ""
    ensures forall i :: 0 < i < |SplitWs(s)| - 1 ==> SplitWs(s)[i] != ""
    decreases |s|
  {
    var k := FirstSpace(s);
    if k < |s| {
      var rest := TrimStart(s[k..]);
      var tail := SplitWs(rest);
      assert SplitWs(s) == [s[..k]] + tail;
      SplitWsInnerWords(rest);
      if |tail| >= 2 {
        assert rest != [] && !IsSpace(rest[0]);
      }
      forall i | 0 < i < |SplitWs(s)| - 1 ensures SplitWs(s)[i] != "" {
        assert SplitWs(s)[i] == tail[i - 1];
      }
    }
  }

  /** Splitting a trimmed non-empty string never yields an empty piece. */
  lemma {:induction false} SplitWsTrimmed(s: string)
    requires s != [] && IsTrimmed(s)
    ensures forall i :: 0 <= i < |SplitWs(s)| ==> IsWord(SplitWs(s)[i])
    decreases |s|
  {
    var k := FirstSpace(s);
    if k < |s| {
      var rest := TrimStart(s[k..]);
      assert k < |s| - 1;
      assert rest != [] && rest[|rest| - 1] == s[|s| - 1];
      SplitWsTrimmed(rest);
    }
  }

  /** A string with no whitespace is a single piece. */
  lemma SplitWsNoSpace(s: string)
    requires NoSpace(s)
    ensures SplitWs(s) == [s]
  {
  }

  /** The first whitespace of `a + t` is the first character of `t` when `a` has none. */
  lemma {:induction false} FirstSpaceAfter(a: string, t: string)
    requires NoSpace(a) && t != [] && IsSpace(t[0])
    ensures FirstSpace(a + t) == |a|
  {
    if a != [] {
      assert a[0] in a;
      assert (a + t)[1..] == a[1..] + t;
      FirstSpaceAfter(a[1..], t);
    }
  }

  /** Splitting a word, one space and a string starting with a non-space splits off the word. */
  lemma SplitWsStep(w: string, rest: string)
    requires NoSpace(w) && rest != [] && !IsSpace(rest[0])
    ensures SplitWs(w + " " + rest) == [w] + SplitWs(rest)
  {
    var s := w + " " + rest;
    FirstSpaceAfter(w, " " + rest);
    assert s == w + (" " + rest);
    assert s[|w|..] == " " + rest;
    assert s[..|w|] == w;
    assert TrimStart(" " + rest) == rest by {
      assert (" " + rest)[1..] == rest;
    }
  }

  /** Joining words with single spaces and splitting again gives the words back. */
  lemma {:induction false} SplitJoin(ws: seq<string>)
    requires |ws| >= 1
    requires forall i :: 0 <= i < |ws| ==> IsWord(ws[i])
    ensures SplitWs(Join(ws, " ")) == ws
  {
    if |ws| == 1 {
      SplitWsNoSpace(ws[0]);
    } else {
      var tail := Join(ws[1..], " ");
      JoinWords(ws[1..]);
      SplitWsStep(ws[0], tail);
      SplitJoin(ws[1..]);
      assert ws == [ws[0]] + ws[1..];
    }
  }

  /** Words joined with single spaces form a trimmed, non-empty string. */
  lemma {:induction false} JoinWords(ws: seq<string>)
    requires |ws| >= 1
    requires forall i :: 0 <= i < |ws| ==> IsWord(ws[i])
    ensures Join(ws, " ") != [] && IsTrimmed(Join(ws, " "))
    ensures Join(ws, " ")[0] == ws[0][0]
  {
    assert ws[0][0] in ws[0];
    if |ws| > 1 {
      JoinWords(ws[1..]);
      var t := Join(ws[1..], " ");
      assert Join(ws, " ") == ws[0] + " " + t;
    } else {
      assert ws[0][|ws[0]| - 1] in ws[0];
    }
  }

  /** Joining upper-cased pieces keeps the result upper-cased. */
  lemma {:induction false} JoinUpper(ws: seq<string>)
    requires forall i :: 0 <= i < |ws| ==> IsUpperCased(ws[i])
    ensures IsUpperCased(Join(ws, " "))
  {
    if |ws| > 1 {
      JoinUpper(ws[1..]);
      assert Join(ws, " ") == ws[0] + " " + Join(ws[1..], " ");
    }
  }

  // ----- numbers -----

  predicate AllDigits(s: string) {
    forall c :: c in s ==> IsDigit(c)
  }

  /** The value of a string of decimal digits, most significant first. */
  function DecimalValue(d: string): nat
    requires AllDigits(d)
  {
    if d == [] then 0
    else
      assert d[|d| - 1] in d;
      DecimalValue(d[..|d| - 1]) * 10 + (d[|d| - 1] as int - '0' as int)
  }

  /** The longest prefix of `s` made of decimal digits. */
  function LeadingDigits(s: string): (d: string)
    ensures |d| <= |s| && d == s[..|d|]
    ensures AllDigits(d)
    ensures |d| < |s| ==> !IsDigit(s[|d|])
  {
    if s != [] && IsDigit(s[0]) then
      var d := [s[0]] + LeadingDigits(s[1..]);
      assert s == [s[0]] + s[1..];
      d
    else []
  }

  /**
   * `parseInt(s, 10)`: skip leading whitespace, read an optional sign, then
   * the longest run of decimal digits; `None` stands for `NaN` (no digit).
   */
  function ParseInt(s: string): Option<int> {
    var t := TrimStart(s);
    var negative := t != [] && t[0] == '-';
    var body := if t != [] && (t[0] == '-' || t[0] == '+') then t[1..] else t;
    var d := LeadingDigits(body);
    if d == [] then None
    else if negative then Some(-(DecimalValue(d) as int))
    else Some(DecimalValue(d))
  }

  function DigitChar(n: nat): (c: char)
    requires n < 10
    ensures IsDigit(c) && c as int - '0' as int == n
  {
    ('0' as int + n) as char
  }

  /** The decimal spelling of `n`, as a template string prints a non-negative integer. */
  function NatToString(n: nat): (s: string)
    ensures s != [] && AllDigits(s)
  {
    if n < 10 then [DigitChar(n)] else NatToString(n / 10) + [DigitChar(n % 10)]
  }

  /** The decimal spelling of an integer, with a `-` sign when it is negative. */
  function IntToString(n: int): (s: string)
    ensures s != []
  {
    if n < 0 then "-" + NatToString(-n) else NatToString(n)
  }

  /** The decimal spelling has no leading zero: only 0 itself is spelt starting with '0'. */
  lemma {:induction false} NatToStringNoLeadingZero(n: nat)
    ensures NatToString(n)[0] == '0' <==> n == 0
    ensures |NatToString(n)| == 1 || NatToString(n)[0] != '0'
  {
    if n >= 10 {
      NatToStringNoLeadingZero(n / 10);
      assert NatToString(n)[0] == NatToString(n / 10)[0];
    }
  }

  /** Reading back the decimal spelling of a number gives the number. */
  lemma {:induction false} DecimalRoundTrip(n: nat)
    ensures DecimalValue(NatToString(n)) == n
  {
    if n >= 10 {
      var s := NatToString(n);
      assert s[..|s| - 1] == NatToString(n / 10);
      DecimalRoundTrip(n / 10);
    }
  }

  /** `parseInt` reads back what `IntToString` prints. */
  /** `parseInt` needs a digit to read a number, and a minus sign to read a negative one. */
  lemma ParseIntNeedsDigit(s: string)
    ensures (forall c :: c in s ==> !IsDigit(c)) ==> ParseInt(s).None?
    ensures ParseInt(s).Some? && ParseInt(s).value < 0 ==> '-' in s
  {
    var t := TrimStart(s);
    var body := if t != [] && (t[0] == '-' || t[0] == '+') then t[1..] else t;
    var d := LeadingDigits(body);
    if d != [] {
      assert body[0] == d[0] && d[0] in d;
      assert body[0] in s;
    }
    if t != [] && t[0] == '-' {
      assert t[0] in s;
    }
  }

  lemma ParseIntRoundTrip(n: int)
    ensures ParseInt(IntToString(n)) == Some(n)
  {
    var s := IntToString(n);
    var digits := if n < 0 then NatToString(-n) else NatToString(n);
    assert s[0] in s;
    assert s[0] == '-' || IsDigit(s[0]) by {
      if n >= 0 { assert s[0] in digits; }
    }
    assert TrimStart(s) == s;
    assert LeadingDigits(digits) == digits;
    DecimalRoundTrip(if n < 0 then -n else n);
    if n < 0 {
      assert s[1..] == digits;
    }
  }

  /** A run of digits followed by a non-digit is exactly the leading digits. */
  lemma {:induction false} LeadingDigitsStop(d: string, t: string)
    requires AllDigits(d) && (t == [] || !IsDigit(t[0]))
    ensures LeadingDigits(d + t) == d
    decreases |d|
  {
    if d == [] {
      assert d + t == t;
    } else {
      assert d[0] in d;
      assert (d + t)[0] == d[0] && (d + t)[1..] == d[1..] + t;
      LeadingDigitsStop(d[1..], t);
      assert d == [d[0]] + d[1..];
    }
  }

  /** `parseInt` of a string that starts with its sign or its first digit. */
  lemma ParseIntAt(s: string, negative: bool, body: string, d: string)
    requires s != [] && !IsSpace(s[0])
    requires (s[0] == '-') == negative
    requires (if s[0] == '-' || s[0] == '+' then s[1..] else s) == body
    requires d != [] && LeadingDigits(body) == d
    ensures ParseInt(s) == Some(if negative then -(DecimalValue(d) as int) else DecimalValue(d))
  {
    assert TrimStart(s) == s;
  }

  /**
   * `parseInt(_, 10)` reads an optional sign and then the longest run of
   * digits: what follows the digits is ignored ("10-5" reads as 10).
   */
  lemma ParseIntPrefix(sign: string, d: string, t: string)
    requires sign == "" || sign == "-" || sign == "+"
    requires d != "" && AllDigits(d)
    requires t == [] || !IsDigit(t[0])
    ensures ParseInt(sign + (d + t)) == Some(if sign == "-" then -(DecimalValue(d) as int) else DecimalValue(d))
  {
    var body := d + t;
    assert LeadingDigits(body) == d && body[0] == d[0] && IsDigit(d[0]) by {
      assert d[0] in d;
      LeadingDigitsStop(d, t);
    }
    var s := sign + body;
    if sign == "" {
      assert s == body;
    } else {
      assert s[0] == sign[0] && s[1..] == body;
    }
    ParseIntAt(s, sign == "-", body, d);
  }

  /** `parseInt` of a string that starts with its sign or a non-digit and has no digit after the sign. */
  lemma ParseIntNoDigitAt(s: string, body: string)
    requires s != [] && !IsSpace(s[0])
    requires (if s[0] == '-' || s[0] == '+' then s[1..] else s) == body
    requires LeadingDigits(body) == []
    ensures ParseInt(s) == None
  {
    assert TrimStart(s) == s;
  }

  /** A sign not followed by a digit reads as `NaN` ("--5" and "-" read as `NaN`). */
  lemma ParseIntSignWithoutDigit(sign: string, t: string)
    requires sign == "-" || sign == "+"
    requires t == [] || !IsDigit(t[0])
    ensures ParseInt(sign + t) == None
  {
    var c := sign[0];
    var s := [c] + t;
    assert sign + t == s && (c == '-' || c == '+') by {
      assert sign == [c];
    }
    assert s[0] == c && s[1..] == t;
    assert LeadingDigits(t) == [];
    ParseIntNoDigitAt(s, t);
  }

  /** Leading zeros do not change the value of a digit string ("007" reads as 7). */
  lemma {:induction false} DecimalLeadingZero(d: string)
    requires AllDigits(d)
    ensures DecimalValue("0" + d) == DecimalValue(d)
    decreases |d|
  {
    var z := "0" + d;
    if d == [] {
      assert z[..|z| - 1] == [];
    } else {
      assert z[..|z| - 1] == "0" + d[..|d| - 1];
      assert z[|z| - 1] == d[|d| - 1];
      DecimalLeadingZero(d[..|d| - 1]);
    }
  }
}

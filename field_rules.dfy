/** The five pattern rules of `extract_invoice_fields`, each written out as a
    scanner with the semantics of Python's `re.search`: the earliest start
    position wins, at that position the alternatives are tried in order, and
    quantifiers are greedy with backtracking. Where a greedy repetition is
    computed as the longest run (`RunEnd`, `Repeat`), backing off to fewer
    repetitions could not succeed either, because what the pattern needs next
    can never be a character of the repeated class; the one place where
    backtracking does change the result, `[^\d]*` before `[\d,]+`, is written
    out step by step (`BackOff`). Character classes are ASCII (see Common). */
module FieldRules {
  import opened Common

  /** The extent [start, end) of capture group 1 in the text. */
  datatype Span = Span(start: nat, end: nat)

  /** The text a capture group spans. */
  function Group(s: string, g: Span): string
    requires g.start <= g.end <= |s|
  {
    s[g.start..g.end]
  }

  /** A successful search: the whole match begins at `at`; `group` is group 1. */
  datatype Match = Match(at: nat, group: Span)

  ghost predicate IsSubstring(v: string, t: string) {
    exists i, j :: 0 <= i <= j <= |t| && v == t[i..j]
  }

  /** `\b` at position i: a word character on exactly one side. At either
      end of the text that means next to a word character. */
  predicate WordBoundary(s: string, i: nat): (b: bool)
    requires i <= |s|
    ensures 0 < i < |s| ==> (b <==> IsWord(s[i - 1]) != IsWord(s[i]))
    ensures i == 0 ==> (b <==> |s| > 0 && IsWord(s[0]))
    ensures i == |s| ==> (b <==> i > 0 && IsWord(s[i - 1]))
  {
    (i > 0 && IsWord(s[i - 1])) != (i < |s| && IsWord(s[i]))
  }

  /** Greedy `cls{lo,hi}` at p: where it stops, if it matches at all. */
  function Repeat(s: string, p: nat, cls: CharClass, lo: nat, hi: nat): (e: Option<nat>)
    requires p <= |s| && lo <= hi
    ensures e.Some? ==> p + lo <= e.value <= p + hi && e.value <= |s|
    ensures e.Some? ==> forall i :: p <= i < e.value ==> InClass(s[i], cls)
    ensures e.Some? ==> e.value == p + hi || e.value == |s| || !InClass(s[e.value], cls)
    ensures e.None? ==> RunEnd(s, p, cls) < p + lo
  {
    var n := RunEnd(s, p, cls) - p;
    var k := if n < hi then n else hi;
    if k < lo then None else Some(p + k)
  }

  // ---------------------------------------------------------------- date

  predicate IsDateSep(c: char) {
    c == '/' || c == '-'
  }

  predicate SepAt(s: string, q: nat) {
    q < |s| && IsDateSep(s[q])
  }

  /** What a date value looks like: 6 to 10 characters, digits except for
      exactly two separators, neither at an end. */
  ghost predicate DateShape(d: string) {
    && 6 <= |d| <= 10
    && exists i, j :: 0 < i < j < |d| - 1 && IsDateSep(d[i]) && IsDateSep(d[j])
                      && forall k :: 0 <= k < |d| && k != i && k != j ==> IsDigit(d[k])
  }

  lemma DateShapeIntro(s: string, p: nat, e1: nat, e2: nat, e3: nat)
    requires p < e1 && e1 + 1 < e2 && e2 + 1 < e3 <= |s|
    requires 6 <= e3 - p <= 10
    requires IsDateSep(s[e1]) && IsDateSep(s[e2])
    requires forall k :: p <= k < e1 ==> IsDigit(s[k])
    requires forall k :: e1 < k < e2 ==> IsDigit(s[k])
    requires forall k :: e2 < k < e3 ==> IsDigit(s[k])
    ensures DateShape(s[p..e3])
  {
    var d := s[p..e3];
    assert IsDateSep(d[e1 - p]) && IsDateSep(d[e2 - p]);
    assert forall k :: 0 <= k < |d| && k != e1 - p && k != e2 - p ==> IsDigit(d[k]) by {
      forall k | 0 <= k < |d| && k != e1 - p && k != e2 - p ensures IsDigit(d[k]) {
        assert d[k] == s[p + k];
      }
    }
  }

  /** `\d{1,2}[\/\-]\d{1,2}[\/\-]\d{2,4}\b` at p (day or month first). */
  function DayFirstAt(s: string, p: nat): (e: Option<nat>)
    requires p <= |s|
    ensures e.Some? ==> p < e.value <= |s| && DateShape(Group(s, Span(p, e.value)))
  {
    match Repeat(s, p, Digit, 1, 2)
    case None => None
    case Some(e1) =>
      if !SepAt(s, e1) then None
      else match Repeat(s, e1 + 1, Digit, 1, 2)
      case None => None
      case Some(e2) =>
        if !SepAt(s, e2) then None
        else match Repeat(s, e2 + 1, Digit, 2, 4)
        case None => None
        case Some(e3) =>
          if !WordBoundary(s, e3) then None
          else DateShapeIntro(s, p, e1, e2, e3); Some(e3)
  }

  /** `\d{4}[\/\-]\d{1,2}[\/\-]\d{1,2}\b` at p (year first). */
  function YearFirstAt(s: string, p: nat): (e: Option<nat>)
    requires p <= |s|
    ensures e.Some? ==> p < e.value <= |s| && DateShape(Group(s, Span(p, e.value)))
  {
    match Repeat(s, p, Digit, 4, 4)
    case None => None
    case Some(e1) =>
      if !SepAt(s, e1) then None
      else match Repeat(s, e1 + 1, Digit, 1, 2)
      case None => None
      case Some(e2) =>
        if !SepAt(s, e2) then None
        else match Repeat(s, e2 + 1, Digit, 1, 2)
        case None => None
        case Some(e3) =>
          if !WordBoundary(s, e3) then None
          else DateShapeIntro(s, p, e1, e2, e3); Some(e3)
  }

  /** s[lo..hi] is digits only. */
  ghost predicate Digits(s: string, lo: nat, hi: nat)
    requires lo <= hi <= |s|
  {
    forall k :: lo <= k < hi ==> IsDigit(s[k])
  }

  /** s[p..e] reads `\d{1,2}[\/\-]\d{1,2}[\/\-]\d{2,4}` with the separators
      at i and j, and `\b` holds at e. */
  ghost predicate DayFirstToken(s: string, p: nat, i: nat, j: nat, e: nat) {
    && p + 1 <= i <= p + 2 && i + 2 <= j <= i + 3 && j + 3 <= e <= j + 5 && e <= |s|
    && IsDateSep(s[i]) && IsDateSep(s[j])
    && Digits(s, p, i) && Digits(s, i + 1, j) && Digits(s, j + 1, e)
    && WordBoundary(s, e)
  }

  /** s[p..e] reads `\d{4}[\/\-]\d{1,2}[\/\-]\d{1,2}` with the separators at
      i and j, and `\b` holds at e. */
  ghost predicate YearFirstToken(s: string, p: nat, i: nat, j: nat, e: nat) {
    && i == p + 4 && i + 2 <= j <= i + 3 && j + 2 <= e <= j + 3 && e <= |s|
    && IsDateSep(s[i]) && IsDateSep(s[j])
    && Digits(s, p, i) && Digits(s, i + 1, j) && Digits(s, j + 1, e)
    && WordBoundary(s, e)
  }

  /** The day-first scan finds only day-first readings. */
  lemma DayFirstAtSound(s: string, p: nat, e: nat)
    requires p <= |s| && DayFirstAt(s, p) == Some(e)
    ensures exists i, j :: DayFirstToken(s, p, i, j, e)
  {
    var i := Repeat(s, p, Digit, 1, 2).value;
    var j := Repeat(s, i + 1, Digit, 1, 2).value;
    assert DayFirstToken(s, p, i, j, e);
  }

  /** Each digit run of a reading is a whole run, so the greedy scan takes
      exactly it. */
  lemma DayFirstAtFinds(s: string, p: nat, i: nat, j: nat, e: nat)
    requires DayFirstToken(s, p, i, j, e)
    ensures DayFirstAt(s, p) == Some(e)
  {
    RunEndExact(s, p, i, Digit);
    assert Repeat(s, p, Digit, 1, 2) == Some(i);
    RunEndExact(s, i + 1, j, Digit);
    assert Repeat(s, i + 1, Digit, 1, 2) == Some(j);
    assert IsWord(s[e - 1]);
    RunEndExact(s, j + 1, e, Digit);
    assert Repeat(s, j + 1, Digit, 2, 4) == Some(e);
  }

  /** The greedy scan finds the day-first reading exactly where the text
      has one, and ends where it ends. */
  lemma DayFirstAtSpec(s: string, p: nat, e: nat)
    requires p <= |s|
    ensures DayFirstAt(s, p) == Some(e) <==> exists i, j :: DayFirstToken(s, p, i, j, e)
  {
    if DayFirstAt(s, p) == Some(e) {
      DayFirstAtSound(s, p, e);
    }
    if exists i, j :: DayFirstToken(s, p, i, j, e) {
      var i: nat, j: nat :| DayFirstToken(s, p, i, j, e);
      DayFirstAtFinds(s, p, i, j, e);
    }
  }

  lemma YearFirstAtSound(s: string, p: nat, e: nat)
    requires p <= |s| && YearFirstAt(s, p) == Some(e)
    ensures exists i, j :: YearFirstToken(s, p, i, j, e)
  {
    var i := Repeat(s, p, Digit, 4, 4).value;
    var j := Repeat(s, i + 1, Digit, 1, 2).value;
    assert YearFirstToken(s, p, i, j, e);
  }

  lemma YearFirstAtFinds(s: string, p: nat, i: nat, j: nat, e: nat)
    requires YearFirstToken(s, p, i, j, e)
    ensures YearFirstAt(s, p) == Some(e)
  {
    RunEndExact(s, p, i, Digit);
    assert Repeat(s, p, Digit, 4, 4) == Some(i);
    RunEndExact(s, i + 1, j, Digit);
    assert Repeat(s, i + 1, Digit, 1, 2) == Some(j);
    assert IsWord(s[e - 1]);
    RunEndExact(s, j + 1, e, Digit);
    assert Repeat(s, j + 1, Digit, 1, 2) == Some(e);
  }

  /** The same for the year-first reading. */
  lemma YearFirstAtSpec(s: string, p: nat, e: nat)
    requires p <= |s|
    ensures YearFirstAt(s, p) == Some(e) <==> exists i, j :: YearFirstToken(s, p, i, j, e)
  {
    if YearFirstAt(s, p) == Some(e) {
      YearFirstAtSound(s, p, e);
    }
    if exists i, j :: YearFirstToken(s, p, i, j, e) {
      var i: nat, j: nat :| YearFirstToken(s, p, i, j, e);
      YearFirstAtFinds(s, p, i, j, e);
    }
  }

  /** No text reads both ways from one position: the first digit run has
      one or two digits in one reading and four in the other, and a
      separator follows it in both. So the order of the alternatives never
      matters. */
  lemma DateReadingsExclusive(s: string, p: nat, i: nat, j: nat, e: nat, i2: nat, j2: nat, e2: nat)
    ensures !(DayFirstToken(s, p, i, j, e) && YearFirstToken(s, p, i2, j2, e2))
  {
  }

  /** A date match from p to e: `\b` at p, then either reading. */
  ghost predicate DateToken(s: string, p: nat, e: nat) {
    && p <= e <= |s| && WordBoundary(s, p)
    && exists i, j :: DayFirstToken(s, p, i, j, e) || YearFirstToken(s, p, i, j, e)
  }

  /** `\b(alt1|alt2)\b` at p: the first alternative is preferred. */
  function DateAt(s: string, p: nat): (r: Option<Span>)
    ensures r.Some? ==> r.value.start == p < r.value.end <= |s|
    ensures r.Some? ==> DateShape(Group(s, r.value))
  {
    if p > |s| || !WordBoundary(s, p) then None
    else match DayFirstAt(s, p)
    case Some(e) => Some(Span(p, e))
    case None =>
      match YearFirstAt(s, p)
      case Some(e) => Some(Span(p, e))
      case None => None
  }

  /** The date rule matches at p, with group 1 ending at e, exactly when the
      text holds a date token there. */
  lemma DateAtSpec(s: string, p: nat, e: nat)
    ensures DateAt(s, p) == Some(Span(p, e)) <==> DateToken(s, p, e)
  {
    if p <= |s| {
      DayFirstAtSpec(s, p, e);
      YearFirstAtSpec(s, p, e);
      if DayFirstAt(s, p).Some? {
        var d := DayFirstAt(s, p).value;
        DayFirstAtSpec(s, p, d);
        var i, j :| DayFirstToken(s, p, i, j, d);
        forall i2, j2 ensures !YearFirstToken(s, p, i2, j2, e) {
          DateReadingsExclusive(s, p, i, j, d, i2, j2, e);
        }
      }
    }
  }

  // ---------------------------------------------------------- invoice id

  /** IGNORECASE comparison of a text character with a pattern character
      given in lower case: equal, or its upper-case form. */
  predicate CaselessEq(c: char, k: char) {
    c == k || (IsLower(k) && c as int + 32 == k as int)
  }

  /** The text continues at p with kw (given in lower case), IGNORECASE.
      The recursion walks the text, so a keyword written out in the pattern
      is compared one character at a time. */
  predicate CaselessAt(s: string, p: nat, kw: string): (b: bool)
    requires p <= |s|
    ensures b <==> p + |kw| <= |s| && forall i :: 0 <= i < |kw| ==> CaselessEq(s[p + i], kw[i])
    decreases |s| - p
  {
    |kw| == 0 || (p < |s| && CaselessEq(s[p], kw[0]) && CaselessAt(s, p + 1, kw[1..]))
  }

  /** A keyword matching at p means each of its prefixes matches there too. */
  lemma {:induction false} CaselessAtPrefix(s: string, p: nat, kw: string, n: nat)
    requires p <= |s| && n <= |kw|
    ensures CaselessAt(s, p, kw) ==> CaselessAt(s, p, kw[..n])
    decreases |s| - p
  {
    if n > 0 && p < |s| {
      CaselessAtPrefix(s, p + 1, kw[1..], n - 1);
      assert kw[..n][1..] == kw[1..][..n - 1];
    }
  }

  /** Case-insensitive literal `kw` (given in lower case) at p. */
  function KeywordEnd(s: string, p: nat, kw: string): (e: Option<nat>)
    requires p <= |s|
    ensures e.Some? <==> p + |kw| <= |s| && CaselessAt(s, p, kw)
    ensures e.Some? ==> e.value == p + |kw|
  {
    if p + |kw| <= |s| && CaselessAt(s, p, kw) then Some(p + |kw|) else None
  }

  ghost predicate IdShape(v: string) {
    6 <= |v| <= 20 && forall i :: 0 <= i < |v| ==> IsIdChar(v[i])
  }

  /** After a keyword ending at q: `[\s#:]*` takes s[q..g], and group 1,
      `[A-Z0-9\-]{6,20}`, takes s[g..e], stopping at the first character
      that is not an id character or after 20. */
  ghost predicate IdToken(s: string, q: nat, g: nat, e: nat) {
    && q <= g && g + 6 <= e <= g + 20 && e <= |s|
    && (forall k :: q <= k < g ==> IsIdGap(s[k]))
    && (forall k :: g <= k < e ==> IsIdChar(s[k]))
    && (e == g + 20 || e == |s| || !IsIdChar(s[e]))
  }

  /** `[\s#:]*([A-Z0-9\-]{6,20})` at q. */
  function IdAfter(s: string, q: nat): (r: Option<Span>)
    requires q <= |s|
    ensures r.Some? ==> r.value.start == RunEnd(s, q, IdGap)
    ensures r.Some? ==> q <= r.value.start < r.value.end <= |s|
    ensures r.Some? ==> IdShape(Group(s, r.value))
    ensures r.Some? ==> r.value.end - r.value.start == 20 || r.value.end == |s| || !IsIdChar(s[r.value.end])
  {
    var g := RunEnd(s, q, IdGap);
    match Repeat(s, g, IdChar, 6, 20)
    case None => None
    case Some(e) =>
      assert forall i :: 0 <= i < e - g ==> s[g..e][i] == s[g + i];
      Some(Span(g, e))
  }

  /** The scan after a keyword finds group 1 exactly where the text holds
      an id token. */
  lemma IdAfterSpec(s: string, q: nat, g: nat, e: nat)
    requires q <= |s|
    ensures IdAfter(s, q) == Some(Span(g, e)) <==> IdToken(s, q, g, e)
  {
    if IdToken(s, q, g, e) {
      RunEndExact(s, q, g, IdGap);
      if e < g + 20 {
        RunEndExact(s, g, e, IdChar);
      } else {
        RunEndCovers(s, g, e, IdChar);
      }
    }
  }

  /** `kw[\s#:]*([A-Z0-9\-]{6,20})` at p, IGNORECASE, with group 1 at [g, e). */
  ghost predicate IdAfterKeyword(s: string, p: nat, kw: string, g: nat, e: nat) {
    p + |kw| <= |s| && CaselessAt(s, p, kw) && IdToken(s, p + |kw|, g, e)
  }

  /** The invoice-id match at p: after `invoice` when the rest of the
      pattern matches there, otherwise after `inv`. */
  ghost predicate InvoiceIdToken(s: string, p: nat, g: nat, e: nat) {
    || IdAfterKeyword(s, p, "invoice", g, e)
    || (IdAfterKeyword(s, p, "inv", g, e) && forall g', e' :: !IdAfterKeyword(s, p, "invoice", g', e'))
  }

  /** `(?:invoice|inv)[\s#:]*([A-Z0-9\-]{6,20})` at p, IGNORECASE: when the
      longer keyword matches but the rest fails, `inv` is tried next. */
  function InvoiceIdAt(s: string, p: nat): (r: Option<Span>)
    ensures r.Some? ==> p + 3 <= r.value.start < r.value.end <= |s|
    ensures r.Some? ==> IdShape(Group(s, r.value))
    ensures r.Some? ==> KeywordEnd(s, p, "inv").Some?
  {
    if p > |s| then None
    else
    var viaInvoice := match KeywordEnd(s, p, "invoice")
      case Some(q) => IdAfter(s, q)
      case None => None;
    if viaInvoice.Some? then
      assert KeywordEnd(s, p, "inv").Some? by {
        CaselessAtPrefix(s, p, "invoice", 3);
        assert "invoice"[..3] == "inv";
      }
      viaInvoice
    else match KeywordEnd(s, p, "inv")
      case Some(q) => IdAfter(s, q)
      case None => None
  }

  /** The keyword matches at p and the scan after it finds [g, e) exactly
      when the text holds the keyword and an id token after it. */
  lemma IdAfterKeywordSpec(s: string, p: nat, kw: string, g: nat, e: nat)
    requires p <= |s|
    ensures (KeywordEnd(s, p, kw).Some? && IdAfter(s, p + |kw|) == Some(Span(g, e)))
              <==> IdAfterKeyword(s, p, kw, g, e)
  {
    if p + |kw| <= |s| {
      IdAfterSpec(s, p + |kw|, g, e);
    }
  }

  /** The invoice-id rule matches at p, with group 1 at [g, e), exactly when
      the text holds an invoice-id token there. */
  lemma InvoiceIdAtSpec(s: string, p: nat, g: nat, e: nat)
    ensures InvoiceIdAt(s, p) == Some(Span(g, e)) <==> InvoiceIdToken(s, p, g, e)
  {
    if p <= |s| {
      IdAfterKeywordSpec(s, p, "invoice", g, e);
      IdAfterKeywordSpec(s, p, "inv", g, e);
      var via := if KeywordEnd(s, p, "invoice").Some? then IdAfter(s, p + 7) else None;
      if via.Some? {
        IdAfterKeywordSpec(s, p, "invoice", via.value.start, via.value.end);
        assert InvoiceIdAt(s, p) == via;
      } else {
        forall g', e' ensures !IdAfterKeyword(s, p, "invoice", g', e') {
          IdAfterKeywordSpec(s, p, "invoice", g', e');
        }
      }
    }
  }

  // -------------------------------------------------------------- vendor

  /** s[lo..hi] is a capitalised word: one upper-case letter, then two or
      more lower-case. */
  predicate CapWord(s: string, lo: nat, hi: nat) {
    lo + 3 <= hi <= |s| && IsUpper(s[lo]) && forall i :: lo < i < hi ==> IsLower(s[i])
  }

  /** The word ending at ends[j - 1] is followed by one space and a
      capitalised word ending at ends[j]. */
  predicate WordLink(s: string, ends: seq<nat>, j: nat)
    requires 0 < j < |ends|
  {
    ends[j - 1] < |s| && s[ends[j - 1]] == ' ' && CapWord(s, ends[j - 1] + 1, ends[j])
  }

  /** Capitalised words separated by single spaces, the first starting at
      lo and the k-th ending at ends[k]; the words run up to the last end. */
  ghost predicate SpacedWords(s: string, lo: nat, ends: seq<nat>) {
    && |ends| >= 1 && CapWord(s, lo, ends[0])
    && forall j :: 0 < j < |ends| ==> WordLink(s, ends, j)
  }

  /** `[A-Z][a-z]{2,}` can match at q: a capital and two lower-case letters. */
  predicate CapWordStart(s: string, q: nat) {
    q + 3 <= |s| && IsUpper(s[q]) && IsLower(s[q + 1]) && IsLower(s[q + 2])
  }

  /** `\s+[A-Z][a-z]{2,}` can match at q. */
  predicate WordFollows(s: string, q: nat)
    requires q <= |s|
  {
    var w := RunEnd(s, q, Space);
    w > q && CapWordStart(s, w)
  }

  /** `[A-Z][a-z]{2,}` at q. */
  function CapWordEnd(s: string, q: nat): (e: Option<nat>)
    requires q <= |s|
    ensures e.Some? ==> CapWord(s, q, e.value)
    ensures e.Some? ==> e.value == |s| || !IsLower(s[e.value])
    ensures e.Some? <==> CapWordStart(s, q)
  {
    if q < |s| && IsUpper(s[q]) then
      var e := RunEnd(s, q + 1, LowerCase);
      if e - (q + 1) >= 2 then
        Some(e)
      else None
    else None
  }

  /** `(?:\s+[A-Z][a-z]{2,}){0,n}` at q, greedy: as many further words as
      match, one after the other. */
  function MoreWords(s: string, q: nat, n: nat): (e: nat)
    requires q <= |s|
    ensures q <= e <= |s|
    decreases n
  {
    if n == 0 then q
    else
      var w := RunEnd(s, q, Space);
      if w == q then q
      else match CapWordEnd(s, w)
        case None => q
        case Some(e) => MoreWords(s, e, n - 1)
  }

  /** The rule takes no word at q exactly when it may take none or no
      capitalised word follows whitespace there; when it takes some, it
      stops at the end of a whole word. */
  lemma {:induction false} MoreWordsStops(s: string, q: nat, n: nat)
    requires q <= |s|
    ensures var e := MoreWords(s, q, n);
            && (e == q <==> n == 0 || !WordFollows(s, q))
            && (e > q ==> IsLower(s[e - 1]) && (e == |s| || !IsLower(s[e])))
    decreases n
  {
    if n > 0 {
      var w := RunEnd(s, q, Space);
      if w > q && CapWordEnd(s, w).Some? {
        MoreWordsStops(s, CapWordEnd(s, w).value, n - 1);
      }
    }
  }

  /** `^([A-Z][a-z]{2,}(?:\s+[A-Z][a-z]{2,}){0,3})`, case-sensitive: `^`
      only matches at the start of the text. */
  function VendorAt(s: string, p: nat): (r: Option<Span>)
    ensures r.Some? ==> p == 0 && r.value.start == 0 && 3 <= r.value.end <= |s|
    ensures r.Some? ==> r.value.end == |s| || !IsLower(s[r.value.end])
    ensures r.Some? <==> p == 0 && CapWordStart(s, 0)
  {
    if p != 0 then None
    else match CapWordEnd(s, 0)
      case None => None
      case Some(e) => MoreWordsStops(s, e, 3); Some(Span(0, MoreWords(s, e, 3)))
  }

  // ----------------------------------------------------- total and tax

  /** What an amount value looks like: digits and commas, then possibly one
      `.` followed by at most two digits. */
  ghost predicate AmountShape(a: string) {
    && |a| >= 1 && IsAmountChar(a[0])
    && forall j :: 0 <= j < |a| ==>
         || IsAmountChar(a[j])
         || (a[j] == '.' && |a| <= j + 3 && forall l :: j < l < |a| ==> IsDigit(a[l]))
  }

  /** `[\d,]+\.?\d{0,2}` at k. Everything after `[\d,]+` may match empty, so
      the greediest choices succeed at the first attempt. */
  function AmountEnd(s: string, k: nat): (e: nat)
    requires k < |s| && IsAmountChar(s[k])
    ensures k < e <= |s| && AmountShape(Group(s, Span(k, e)))
    ensures forall e' :: e < e' <= |s| ==> !AmountShape(Group(s, Span(k, e')))
  {
    var e1 := RunEnd(s, k, AmountChar);
    var e2 := if e1 < |s| && s[e1] == '.' then e1 + 1 else e1;
    var d := RunEnd(s, e2, Digit) - e2;
    var e := e2 + (if d < 2 then d else 2);
    var a := s[k..e];
    assert forall j :: 0 <= j < e1 - k ==> a[j] == s[k + j];
    assert e1 < e ==> a[e1 - k] == '.' && forall j :: e1 - k < j < |a| ==> a[j] == s[k + j];
    AmountNotLonger(s, k, e1, e2, e);
    e
  }

  /** Why greed gives the longest amount: past where `[\d,]+\.?\d{0,2}`
      stops, the text from k is no longer amount-shaped. */
  lemma AmountNotLonger(s: string, k: nat, e1: nat, e2: nat, e: nat)
    requires k < e1 <= |s|
    requires e1 == |s| || !IsAmountChar(s[e1])
    requires e2 == if e1 < |s| && s[e1] == '.' then e1 + 1 else e1
    requires e2 <= e <= e2 + 2 && e <= |s|
    requires e2 == e1 ==> e == e1
    requires e == e2 + 2 || e == |s| || !IsDigit(s[e])
    ensures forall e' :: e < e' <= |s| ==> !AmountShape(Group(s, Span(k, e')))
  {
    forall e' | e < e' <= |s| ensures !AmountShape(Group(s, Span(k, e'))) {
      var b := Group(s, Span(k, e'));
      assert b[e - k] == s[e];
      if e2 > e1 {
        assert b[e1 - k] == '.';
      }
    }
  }

  /** What the amount group captures when no digit follows the keyword:
      the last comma, with the `.` after it if there is one. */
  predicate LoneComma(v: string) {
    v == [Comma] || v == [Comma, '.']
  }

  /** Group 1 of `[^\d]*([\d,]+\.?\d{0,2})` tried at q: the longest amount
      starting at the first digit from q on, or, when no digit follows q,
      at the last comma. */
  ghost predicate AmountGroup(s: string, q: nat, g: Span) {
    && q <= g.start < |s| && IsAmountChar(s[g.start]) && g.end == AmountEnd(s, g.start)
    && (forall j :: q <= j < g.start ==> !IsDigit(s[j]))
    && (!IsDigit(s[g.start]) ==> forall j :: g.start < j < |s| ==> !IsAmountChar(s[j]))
  }

  /** At most one span is that group. */
  lemma AmountGroupUnique(s: string, q: nat, g1: Span, g2: Span)
    ensures AmountGroup(s, q, g1) && AmountGroup(s, q, g2) ==> g1 == g2
  {
  }

  /** `[^\d]*` has taken s[q..k]; back off one character at a time until
      `[\d,]+` can start. */
  function BackOff(s: string, q: nat, k: nat): (r: Option<Span>)
    requires q <= k <= |s|
    ensures r.Some? ==> q <= r.value.start <= k && r.value.start < |s|
    ensures r.Some? ==> IsAmountChar(s[r.value.start]) && r.value.end == AmountEnd(s, r.value.start)
    ensures r.Some? ==> forall j :: r.value.start < j <= k && j < |s| ==> !IsAmountChar(s[j])
    ensures r.None? <==> forall j :: q <= j <= k && j < |s| ==> !IsAmountChar(s[j])
    decreases k
  {
    if k < |s| && IsAmountChar(s[k]) then Some(Span(k, AmountEnd(s, k)))
    else if k == q then None
    else BackOff(s, q, k - 1)
  }

  /** `[^\d]*([\d,]+\.?\d{0,2})` at q. When a digit follows, the group starts
      at the first one; when none does, `[^\d]*` backs off to the last comma
      and the group is that comma, with a following `.` if there is one. */
  function AmountAfter(s: string, q: nat): (r: Option<Span>)
    requires q <= |s|
    ensures r.Some? ==> q <= r.value.start < r.value.end <= |s|
    ensures r.Some? ==> AmountShape(Group(s, r.value))
    ensures r.Some? ==> IsDigit(s[r.value.start]) || LoneComma(Group(s, r.value))
    ensures (exists j :: q <= j < |s| && IsDigit(s[j])) ==> r.Some? && IsDigit(s[r.value.start])
    ensures r.None? <==> forall j :: q <= j < |s| ==> !IsAmountChar(s[j])
    ensures r.Some? ==> AmountGroup(s, q, r.value)
  {
    var m := RunEnd(s, q, NonDigit);
    var r := BackOff(s, q, m);
    if r.Some? && !IsDigit(s[r.value.start]) then
      assert m == |s|;
      LastCommaAmount(s, r.value.start);
      r
    else
      r
  }

  /** An amount starting at a comma with no digit or comma after it is that
      comma, with the `.` after it if there is one. */
  lemma LastCommaAmount(s: string, k: nat)
    requires k < |s| && s[k] == Comma
    requires forall j :: k < j < |s| ==> !IsAmountChar(s[j])
    ensures LoneComma(s[k..AmountEnd(s, k)])
  {
    assert RunEnd(s, k, AmountChar) == k + 1;
    assert RunEnd(s, k + 1, AmountChar) == k + 1;
    var e2 := if k + 1 < |s| && s[k + 1] == '.' then k + 2 else k + 1;
    assert RunEnd(s, e2, Digit) == e2;
  }

  /** The amount scan after q finds exactly the amount group. */
  lemma AmountAfterSpec(s: string, q: nat, g: Span)
    requires q <= |s|
    ensures AmountAfter(s, q) == Some(g) <==> AmountGroup(s, q, g)
  {
    if AmountGroup(s, q, g) {
      AmountGroupUnique(s, q, g, AmountAfter(s, q).value);
    }
  }

  /** A keyword phrase such as `amount\s+due`, IGNORECASE: its words in lower
      case, separated by one or more whitespace characters. */
  function PhraseEnd(s: string, p: nat, words: seq<string>): (e: Option<nat>)
    requires p <= |s| && |words| > 0
    ensures e.Some? ==> p + |words[0]| <= e.value <= |s|
    ensures e.Some? ==> KeywordEnd(s, p, words[0]).Some?
    decreases |words|, s
  {
    match KeywordEnd(s, p, words[0])
    case None => None
    case Some(q) =>
      if |words| == 1 then Some(q)
      else
        var w := RunEnd(s, q, Space);
        if w == q then None else PhraseEnd(s, w, words[1..])
  }

  /** s[p..e] is the phrase: its words in order, each compared ignoring
      case, each separated from the next by one or more whitespace
      characters. */
  ghost predicate PhraseSpans(s: string, p: nat, words: seq<string>, e: nat)
    decreases |words|
  {
    && |words| > 0 && p + |words[0]| <= |s| && CaselessAt(s, p, words[0])
    && if |words| == 1 then e == p + |words[0]|
       else exists w :: SpaceGap(s, p + |words[0]|, w) && PhraseSpans(s, w, words[1..], e)
  }

  /** s[q..w] is one or more whitespace characters. */
  ghost predicate SpaceGap(s: string, q: nat, w: nat) {
    q < w <= |s| && forall k :: q <= k < w ==> IsSpace(s[k])
  }

  /** Words that are non-empty and begin with a non-whitespace character,
      as every word of the keyword phrases does. */
  ghost predicate PlainWords(words: seq<string>) {
    forall i :: 0 <= i < |words| ==> |words[i]| > 0 && !IsSpace(words[i][0])
  }

  /** For plain words, the phrase scan ends at e exactly when the text from
      p spells the phrase up to e: `\s+` stops where the next word begins. */
  lemma PhraseEndSpec(s: string, p: nat, words: seq<string>, e: nat)
    requires p <= |s| && |words| > 0 && PlainWords(words)
    ensures PhraseEnd(s, p, words) == Some(e) <==> PhraseSpans(s, p, words, e)
  {
    if PhraseEnd(s, p, words) == Some(e) {
      PhraseEndSpans(s, p, words, e);
    }
    if PhraseSpans(s, p, words, e) {
      SpansPhraseEnd(s, p, words, e);
    }
  }

  lemma PlainRest(words: seq<string>)
    requires |words| > 0 && PlainWords(words)
    ensures PlainWords(words[1..])
  {
    var rest := words[1..];
    forall i | 0 <= i < |rest| ensures |rest[i]| > 0 && !IsSpace(rest[i][0]) {
      assert rest[i] == words[i + 1];
    }
  }

  /** Where the phrase scan ends, the text spells the phrase. */
  lemma {:induction false} PhraseEndSpans(s: string, p: nat, words: seq<string>, e: nat)
    requires p <= |s| && |words| > 0
    requires PhraseEnd(s, p, words) == Some(e)
    ensures PhraseSpans(s, p, words, e)
    decreases |words|
  {
    if |words| > 1 {
      var q := p + |words[0]|;
      var w := RunEnd(s, q, Space);
      PhraseEndSpans(s, w, words[1..], e);
      assert SpaceGap(s, q, w);
    }
  }

  /** Where the text spells the phrase, the phrase scan ends there: `\s+`
      stops where the next word begins. */
  lemma {:induction false} SpansPhraseEnd(s: string, p: nat, words: seq<string>, e: nat)
    requires p <= |s| && |words| > 0 && PlainWords(words)
    requires PhraseSpans(s, p, words, e)
    ensures PhraseEnd(s, p, words) == Some(e)
    decreases |words|
  {
    if |words| > 1 {
      var q := p + |words[0]|;
      var rest := words[1..];
      PlainRest(words);
      var w: nat :| SpaceGap(s, q, w) && PhraseSpans(s, w, rest, e);
      assert |rest[0]| > 0 && !IsSpace(rest[0][0]);
      assert CaselessEq(s[w + 0], rest[0][0]);
      RunEndExact(s, q, w, Space);
      SpansPhraseEnd(s, w, rest, e);
    }
  }

  /** A keyword phrase, word by word. */
  type Phrase = seq<string>

  const TotalPhrases: seq<Phrase> := [["total"], ["amount", "due"], ["grand", "total"], ["balance", "due"]]
  const TaxPhrases: seq<Phrase> := [["tax"], ["vat"], ["gst"]]

  /** The phrase occurs at p and a digit or a comma occurs somewhere after
      it. */
  ghost predicate AmountFollows(s: string, p: nat, phrase: Phrase) {
    && p <= |s| && |phrase| > 0
    && PhraseEnd(s, p, phrase).Some?
    && exists j :: PhraseEnd(s, p, phrase).value <= j < |s| && IsAmountChar(s[j])
  }

  /** One alternative, `phrase[^\d]*([\d,]+\.?\d{0,2})`, at p. */
  function AmountAfterPhrase(s: string, p: nat, phrase: Phrase): (r: Option<Span>)
    requires p <= |s| && |phrase| > 0
    ensures r.Some? ==> p <= r.value.start < r.value.end <= |s|
    ensures r.Some? ==> AmountShape(Group(s, r.value))
    ensures r.Some? ==> IsDigit(s[r.value.start]) || LoneComma(Group(s, r.value))
    ensures r.Some? <==> AmountFollows(s, p, phrase)
    ensures r.Some? ==> AmountGroup(s, PhraseEnd(s, p, phrase).value, r.value)
  {
    match PhraseEnd(s, p, phrase)
    case None => None
    case Some(q) => AmountAfter(s, q)
  }

  /** `(?:phrase1|phrase2|...)[^\d]*([\d,]+\.?\d{0,2})` at p: each phrase in
      order, the next one only when the whole rest failed after the previous. */
  function AmountAt(s: string, p: nat, phrases: seq<Phrase>): (r: Option<Span>)
    requires p <= |s|
    requires forall i :: 0 <= i < |phrases| ==> |phrases[i]| > 0
    ensures r.Some? ==> p <= r.value.start < r.value.end <= |s|
    ensures r.Some? ==> AmountShape(Group(s, r.value))
    ensures r.Some? ==> IsDigit(s[r.value.start]) || LoneComma(Group(s, r.value))
    decreases |phrases|
  {
    if phrases == [] then None
    else if AmountAfterPhrase(s, p, phrases[0]).Some? then AmountAfterPhrase(s, p, phrases[0])
    else AmountAt(s, p, phrases[1..])
  }

  /** Phrase i is the first in the list that has an amount after it at p,
      and g is the group of that amount. */
  ghost predicate FirstPhraseAmount(s: string, p: nat, phrases: seq<Phrase>, i: nat, g: Span)
    requires p <= |s|
    requires forall i :: 0 <= i < |phrases| ==> |phrases[i]| > 0
  {
    && i < |phrases|
    && (forall j :: 0 <= j < i ==> !AmountFollows(s, p, phrases[j]))
    && AmountFollows(s, p, phrases[i])
    && AmountGroup(s, PhraseEnd(s, p, phrases[i]).value, g)
  }

  /** One of the phrases has an amount after it at p. */
  ghost predicate SomeAmountFollows(s: string, p: nat, phrases: seq<Phrase>) {
    exists i :: 0 <= i < |phrases| && AmountFollows(s, p, phrases[i])
  }

  /** g is the amount after the first of the phrases that has one at p. */
  ghost predicate FirstAmountOf(s: string, p: nat, phrases: seq<Phrase>, g: Span)
    requires p <= |s|
    requires forall i :: 0 <= i < |phrases| ==> |phrases[i]| > 0
  {
    exists i :: FirstPhraseAmount(s, p, phrases, i, g)
  }

  /** An amount rule matches at p exactly when one of its phrases is
      followed, somewhere later, by a digit or a comma. */
  lemma {:induction false} AmountAtFound(s: string, p: nat, phrases: seq<Phrase>)
    requires p <= |s|
    requires forall i :: 0 <= i < |phrases| ==> |phrases[i]| > 0
    ensures AmountAt(s, p, phrases).Some? <==>
              exists i :: 0 <= i < |phrases| && AmountFollows(s, p, phrases[i])
    decreases |phrases|
  {
    if phrases != [] {
      var tail := phrases[1..];
      AmountAtFound(s, p, tail);
      if exists i :: 1 <= i < |phrases| && AmountFollows(s, p, phrases[i]) {
        var i :| 1 <= i < |phrases| && AmountFollows(s, p, phrases[i]);
        assert tail[i - 1] == phrases[i];
      }
      if exists i :: 0 <= i < |tail| && AmountFollows(s, p, tail[i]) {
        var i :| 0 <= i < |tail| && AmountFollows(s, p, tail[i]);
        assert tail[i] == phrases[i + 1];
      }
    }
  }

  /** An amount rule's group at p is the amount after the first phrase
      that has one. */
  lemma {:induction false} AmountAtSpec(s: string, p: nat, phrases: seq<Phrase>, g: Span)
    requires p <= |s|
    requires forall i :: 0 <= i < |phrases| ==> |phrases[i]| > 0
    ensures AmountAt(s, p, phrases) == Some(g) <==> exists i :: FirstPhraseAmount(s, p, phrases, i, g)
    decreases |phrases|
  {
    if phrases != [] {
      if AmountAfterPhrase(s, p, phrases[0]).Some? {
        FirstPhraseHere(s, p, phrases, g);
      } else {
        AmountAtSpec(s, p, phrases[1..], g);
        FirstPhraseLater(s, p, phrases, g);
      }
    }
  }

  /** When the first phrase has an amount after it, it is the first phrase
      with one. */
  lemma FirstPhraseHere(s: string, p: nat, phrases: seq<Phrase>, g: Span)
    requires p <= |s| && phrases != []
    requires forall i :: 0 <= i < |phrases| ==> |phrases[i]| > 0
    requires AmountAfterPhrase(s, p, phrases[0]).Some?
    ensures AmountAfterPhrase(s, p, phrases[0]) == Some(g) <==> exists i :: FirstPhraseAmount(s, p, phrases, i, g)
  {
    var here := AmountAfterPhrase(s, p, phrases[0]);
    if here == Some(g) {
      assert FirstPhraseAmount(s, p, phrases, 0, g);
    }
    forall i | FirstPhraseAmount(s, p, phrases, i, g) ensures here == Some(g) {
      AmountGroupUnique(s, PhraseEnd(s, p, phrases[0]).value, g, here.value);
    }
  }

  /** When the first phrase has no amount after it, the first phrase with
      one is among the others. */
  lemma FirstPhraseLater(s: string, p: nat, phrases: seq<Phrase>, g: Span)
    requires p <= |s| && phrases != []
    requires forall i :: 0 <= i < |phrases| ==> |phrases[i]| > 0
    requires AmountAfterPhrase(s, p, phrases[0]).None?
    ensures (exists i :: FirstPhraseAmount(s, p, phrases, i, g)) <==>
            (exists i :: FirstPhraseAmount(s, p, phrases[1..], i, g))
  {
    var tail := phrases[1..];
    if exists i :: FirstPhraseAmount(s, p, tail, i, g) {
      var i: nat :| FirstPhraseAmount(s, p, tail, i, g);
      FirstPhraseShift(s, p, phrases, i, g);
    }
    if exists i :: FirstPhraseAmount(s, p, phrases, i, g) {
      var i: nat :| FirstPhraseAmount(s, p, phrases, i, g);
      assert i > 0;
      FirstPhraseShift(s, p, phrases, i - 1, g);
    }
  }

  /** Past a first phrase with no amount after it, phrase i + 1 of the list
      is phrase i of the rest. */
  lemma FirstPhraseShift(s: string, p: nat, phrases: seq<Phrase>, i: nat, g: Span)
    requires p <= |s| && phrases != []
    requires forall i :: 0 <= i < |phrases| ==> |phrases[i]| > 0
    requires !AmountFollows(s, p, phrases[0])
    ensures FirstPhraseAmount(s, p, phrases, i + 1, g) <==> FirstPhraseAmount(s, p, phrases[1..], i, g)
  {
    var tail := phrases[1..];
    if i < |tail| {
      assert phrases[i + 1] == tail[i];
      assert forall j :: 0 < j <= i ==> phrases[j] == tail[j - 1];
    }
  }

  /** The total rule at p: the amount after the first of `total`,
      `amount\s+due`, `grand\s+total`, `balance\s+due` that has one. */
  function TotalAt(s: string, p: nat): (r: Option<Span>)
    ensures r.Some? ==> p <= r.value.start < r.value.end <= |s|
    ensures r.Some? ==> AmountShape(Group(s, r.value))
    ensures r.Some? ==> IsDigit(s[r.value.start]) || LoneComma(Group(s, r.value))
  {
    if p > |s| then None else AmountAt(s, p, TotalPhrases)
  }

  /** The total rule matches at p exactly when one of its phrases has an
      amount after it there, and its group is then the amount after the
      first such phrase. */
  lemma TotalAtSpec(s: string, p: nat)
    ensures TotalAt(s, p).Some? <==> p <= |s| && SomeAmountFollows(s, p, TotalPhrases)
    ensures TotalAt(s, p).Some? ==> p <= |s| && FirstAmountOf(s, p, TotalPhrases, TotalAt(s, p).value)
  {
    if p <= |s| {
      AmountAtFound(s, p, TotalPhrases);
      if TotalAt(s, p).Some? {
        AmountAtSpec(s, p, TotalPhrases, TotalAt(s, p).value);
      }
    }
  }

  /** The tax rule at p: the amount after the first of `tax`, `vat`, `gst`
      that has one. */
  function TaxAt(s: string, p: nat): (r: Option<Span>)
    ensures r.Some? ==> p <= r.value.start < r.value.end <= |s|
    ensures r.Some? ==> AmountShape(Group(s, r.value))
    ensures r.Some? ==> IsDigit(s[r.value.start]) || LoneComma(Group(s, r.value))
  {
    if p > |s| then None else AmountAt(s, p, TaxPhrases)
  }

  /** The tax rule matches at p exactly when one of its phrases has an
      amount after it there, and its group is then the amount after the
      first such phrase. */
  lemma TaxAtSpec(s: string, p: nat)
    ensures TaxAt(s, p).Some? <==> p <= |s| && SomeAmountFollows(s, p, TaxPhrases)
    ensures TaxAt(s, p).Some? ==> p <= |s| && FirstAmountOf(s, p, TaxPhrases, TaxAt(s, p).value)
  {
    if p <= |s| {
      AmountAtFound(s, p, TaxPhrases);
      if TaxAt(s, p).Some? {
        AmountAtSpec(s, p, TaxPhrases, TaxAt(s, p).value);
      }
    }
  }


  // ------------------------------------------------------------- search

  /** A compiled pattern tried at one position: group 1 of its match there,
      if it matches there. */
  type Matcher = (string, nat) -> Option<Span>

  /** Group 1 always lies inside the text, after the position tried, and is
      never empty. */
  ghost predicate InBounds(m: Matcher) {
    forall s: string, p: nat :: m(s, p).Some? ==> p <= m(s, p).value.start < m(s, p).value.end <= |s|
  }

  lemma RulesInBounds()
    ensures InBounds(DateAt) && InBounds(InvoiceIdAt) && InBounds(VendorAt)
    ensures InBounds(TotalAt) && InBounds(TaxAt)
  {
  }

  /** The pattern matches at none of the positions lo, ..., hi - 1. */
  ghost predicate NoMatchBetween(m: Matcher, s: string, lo: nat, hi: nat)
    requires lo <= hi
    decreases hi - lo
  {
    lo == hi || (m(s, lo).None? && NoMatchBetween(m, s, lo + 1, hi))
  }

  lemma {:induction false} NoMatchAt(m: Matcher, s: string, lo: nat, hi: nat, q: nat)
    requires lo <= q < hi
    ensures NoMatchBetween(m, s, lo, hi) ==> m(s, q).None?
    decreases q - lo
  {
    if lo < q {
      NoMatchAt(m, s, lo + 1, hi, q);
    }
  }

  lemma {:induction false} NoMatchIntro(m: Matcher, s: string, lo: nat, hi: nat)
    requires lo <= hi
    requires forall q :: lo <= q < hi ==> m(s, q).None?
    ensures NoMatchBetween(m, s, lo, hi)
    decreases hi - lo
  {
    if lo < hi {
      NoMatchIntro(m, s, lo + 1, hi);
    }
  }

  /** `re.search` from position p: the earliest position where the pattern
      matches, and no earlier one; when it reports nothing, the pattern
      matches nowhere from p on. */
  function SearchFrom(m: Matcher, s: string, p: nat): (r: Option<Match>)
    requires p <= |s|
    ensures r.Some? ==> p <= r.value.at <= |s| && m(s, r.value.at) == Some(r.value.group)
    ensures r.Some? ==> NoMatchBetween(m, s, p, r.value.at)
    ensures r.None? ==> NoMatchBetween(m, s, p, |s| + 1)
    decreases |s| - p
  {
    var here := m(s, p);
    if here.Some? then Some(Match(p, here.value))
    else if p == |s| then None
    else SearchFrom(m, s, p + 1)
  }

  /** `m.group(1)` of `re.search(pattern, text)`, or `''` when there is no match. */
  function FieldValue(m: Matcher, t: string): (v: string)
    requires InBounds(m)
    ensures v == "" <==> NoMatchBetween(m, t, 0, |t| + 1)
  {
    match SearchFrom(m, t, 0)
    case None => ""
    case Some(r) =>
      NoMatchAt(m, t, 0, |t| + 1, r.at);
      Group(t, r.group)
  }

  /** Where a non-empty field value comes from: the first position where the
      pattern matches, whose group 1 is the value. */
  function FirstMatch(m: Matcher, t: string): (p: nat)
    requires InBounds(m) && FieldValue(m, t) != ""
    ensures p <= |t| && m(t, p).Some? && NoMatchBetween(m, t, 0, p)
    ensures FieldValue(m, t) == Group(t, m(t, p).value)
  {
    SearchFrom(m, t, 0).value.at
  }

  /** A pattern that matches somewhere gives a non-empty field value. */
  lemma FieldValueFound(m: Matcher, t: string, q: nat)
    requires InBounds(m) && q <= |t| && m(t, q).Some?
    ensures FieldValue(m, t) != ""
  {
    NoMatchAt(m, t, 0, |t| + 1, q);
  }
}

/** `extract_invoice_fields` and `extract_line_items`: normalise the page text,
    then fill the five fields from the five rules, leaving `''` where a rule
    finds nothing. */
module FieldExtractor {
  import opened Common
  import opened TextNormalizer
  import opened FieldRules

  const FieldNames: set<string> := {"date", "vendor", "invoice_id", "tax", "total_amount"}

  /** The dictionary before any rule runs: every field empty. */
  const NoFields: map<string, string> :=
    map["date" := "", "vendor" := "", "invoice_id" := "", "tax" := "", "total_amount" := ""]

  /** The five fields extracted from one page of OCR text: each is group 1
      of its rule's first match in the normalised text, or empty. */
  function InvoiceFields(text: string): (fields: map<string, string>)
    ensures fields.Keys == FieldNames
  {
    var t := Normalize(text);
    RulesInBounds();
    FieldMap(FieldValue(DateAt, t), FieldValue(InvoiceIdAt, t), FieldValue(VendorAt, t),
             FieldValue(TotalAt, t), FieldValue(TaxAt, t))
  }

  /** The dictionary holding the five values under their field names. */
  function FieldMap(date: string, id: string, vendor: string, total: string, tax: string)
    : (fields: map<string, string>)
    ensures fields.Keys == FieldNames
    ensures "date" in fields && fields["date"] == date
    ensures "invoice_id" in fields && fields["invoice_id"] == id
    ensures "vendor" in fields && fields["vendor"] == vendor
    ensures "total_amount" in fields && fields["total_amount"] == total
    ensures "tax" in fields && fields["tax"] == tax
  {
    NoFields["date" := date]["invoice_id" := id]["vendor" := vendor]["total_amount" := total]["tax" := tax]
  }

  /** One `re.search` and its `if match:` assignment: the field, still
      empty, becomes group 1 of the first match, or stays empty. */
  method ApplyRule(fields: map<string, string>, key: string, m: Matcher, t: string)
    returns (updated: map<string, string>)
    requires InBounds(m) && key in fields && fields[key] == ""
    ensures updated == fields[key := FieldValue(m, t)]
  {
    updated := fields;
    var found := SearchFrom(m, t, 0);
    if found.Some? {
      updated := fields[key := Group(t, found.value.group)];
    } else {
      assert fields[key := ""] == fields;
    }
  }

  /** Lines 39-76: the dictionary starts with every field empty and each
      rule that matches overwrites its own field. */
  method ExtractInvoiceFields(text: string) returns (fields: map<string, string>)
    ensures fields == InvoiceFields(text)
    ensures fields.Keys == FieldNames
  {
    var t := Normalize(text);
    fields := ApplyRules(t);
  }

  /** The five rules run in order on the normalised text t. */
  method ApplyRules(t: string) returns (fields: map<string, string>)
    ensures fields == FieldMap(FieldValue(DateAt, t), FieldValue(InvoiceIdAt, t), FieldValue(VendorAt, t),
                               FieldValue(TotalAt, t), FieldValue(TaxAt, t))
  {
    RulesInBounds();
    fields := NoFields;
    fields := ApplyRule(fields, "date", DateAt, t);
    fields := ApplyRule(fields, "invoice_id", InvoiceIdAt, t);
    fields := ApplyRule(fields, "vendor", VendorAt, t);
    fields := ApplyRule(fields, "total_amount", TotalAt, t);
    fields := ApplyRule(fields, "tax", TaxAt, t);
  }

  /** A line item; none is ever produced. */
  type LineItem = map<string, string>

  /** Lines 79-82: line-item extraction is a placeholder returning nothing. */
  function ExtractLineItems(text: string): (items: seq<LineItem>)
    ensures |items| == 0
  {
    []
  }

  // ------------------------------------------------------------ lemmas

  /** Each field is its rule's value on the normalised text. */
  lemma FieldsByRule(text: string)
    ensures var t := Normalize(text);
            && InvoiceFields(text)["date"] == FieldValue(DateAt, t)
            && InvoiceFields(text)["invoice_id"] == FieldValue(InvoiceIdAt, t)
            && InvoiceFields(text)["vendor"] == FieldValue(VendorAt, t)
            && InvoiceFields(text)["total_amount"] == FieldValue(TotalAt, t)
            && InvoiceFields(text)["tax"] == FieldValue(TaxAt, t)
  {
  }

  /** A non-empty date is a piece of the normalised text, 6 to 10 characters
      of digits with exactly two `/` or `-` separators. */
  lemma DateField(text: string)
    ensures var d := InvoiceFields(text)["date"];
            d != "" ==> IsSubstring(d, Normalize(text)) && DateShape(d)
  {
    FieldsByRule(text);
    if InvoiceFields(text)["date"] != "" {
      var p := FirstMatch(DateAt, Normalize(text));
    }
  }

  /** On any text, the date rule's value is non-empty exactly when the text
      holds a date token, and it is then the text of the first one. */
  lemma DateValueFirst(t: string)
    ensures var d := FieldValue(DateAt, t);
            && (d != "" <==> exists p, e :: DateToken(t, p, e))
            && (d != "" ==> exists p: nat, e: nat :: && DateToken(t, p, e) && d == t[p..e]
                                                     && forall q: nat, e' :: q < p ==> !DateToken(t, q, e'))
  {
    if FieldValue(DateAt, t) != "" {
      var p := FirstMatch(DateAt, t);
      var e := DateAt(t, p).value.end;
      DateAtSpec(t, p, e);
      forall q: nat, e' | q < p ensures !DateToken(t, q, e') {
        DateAtSpec(t, q, e');
        NoMatchAt(DateAt, t, 0, p, q);
      }
      assert DateToken(t, p, e) && FieldValue(DateAt, t) == t[p..e];
    }
    if exists p, e :: DateToken(t, p, e) {
      var p: nat, e: nat :| DateToken(t, p, e);
      DateAtSpec(t, p, e);
      FieldValueFound(DateAt, t, p);
    }
  }

  /** The date is found exactly when the normalised text holds a date
      token (a `\b`, then a day-first or year-first date ending at a `\b`),
      and it is then the text of the first such token. */
  lemma DateFieldFirst(text: string)
    ensures var t := Normalize(text);
            var d := InvoiceFields(text)["date"];
            && (d != "" <==> exists p, e :: DateToken(t, p, e))
            && (d != "" ==> exists p: nat, e: nat :: && DateToken(t, p, e) && d == t[p..e]
                                                     && forall q: nat, e' :: q < p ==> !DateToken(t, q, e'))
  {
    FieldsByRule(text);
    DateValueFirst(Normalize(text));
  }

  /** No digit, no date. */
  lemma NoDigitNoDate(t: string)
    requires forall i :: 0 <= i < |t| ==> !IsDigit(t[i])
    ensures FieldValue(DateAt, t) == ""
  {
    forall q | 0 <= q <= |t| ensures DateAt(t, q).None? {
    }
    NoMatchIntro(DateAt, t, 0, |t| + 1);
  }

  /** A text without a digit has no date. */
  lemma DateNeedsDigit(text: string)
    requires forall i :: 0 <= i < |text| ==> !IsDigit(text[i])
    ensures InvoiceFields(text)["date"] == ""
  {
    var t := Normalize(text);
    forall q | 0 <= q < |t| ensures !IsDigit(t[q]) {
      if IsDigit(t[q]) {
        NormalizedCharsFromInput(text, t[q]);
      }
    }
    NoDigitNoDate(t);
    FieldsByRule(text);
  }

  /** A non-empty invoice id is a piece of the normalised text, 6 to 20
      letters (either case), digits or hyphens. */
  lemma InvoiceIdField(text: string)
    ensures var v := InvoiceFields(text)["invoice_id"];
            v != "" ==> IsSubstring(v, Normalize(text)) && IdShape(v)
  {
    FieldsByRule(text);
    if InvoiceFields(text)["invoice_id"] != "" {
      var p := FirstMatch(InvoiceIdAt, Normalize(text));
    }
  }

  /** On any text, the invoice-id rule's value is non-empty exactly when the
      text holds an invoice-id token, and it is then group 1 of the first. */
  lemma InvoiceIdValueFirst(t: string)
    ensures var v := FieldValue(InvoiceIdAt, t);
            && (v != "" <==> exists p, g, e :: InvoiceIdToken(t, p, g, e))
            && (v != "" ==> exists p: nat, g: nat, e: nat :: && InvoiceIdToken(t, p, g, e) && g <= e <= |t| && v == t[g..e]
                                                             && forall q: nat, g', e' :: q < p ==> !InvoiceIdToken(t, q, g', e'))
  {
    if FieldValue(InvoiceIdAt, t) != "" {
      var p := FirstMatch(InvoiceIdAt, t);
      var sp := InvoiceIdAt(t, p).value;
      InvoiceIdAtSpec(t, p, sp.start, sp.end);
      forall q: nat, g', e' | q < p ensures !InvoiceIdToken(t, q, g', e') {
        InvoiceIdAtSpec(t, q, g', e');
        NoMatchAt(InvoiceIdAt, t, 0, p, q);
      }
      assert InvoiceIdToken(t, p, sp.start, sp.end) && FieldValue(InvoiceIdAt, t) == t[sp.start..sp.end];
    }
    if exists p, g, e :: InvoiceIdToken(t, p, g, e) {
      var p: nat, g: nat, e: nat :| InvoiceIdToken(t, p, g, e);
      InvoiceIdAtSpec(t, p, g, e);
      FieldValueFound(InvoiceIdAt, t, p);
    }
  }

  /** The invoice id is found exactly when the normalised text holds an
      invoice-id token, and it is then group 1 of the first one. */
  lemma InvoiceIdFieldFirst(text: string)
    ensures var t := Normalize(text);
            var v := InvoiceFields(text)["invoice_id"];
            && (v != "" <==> exists p, g, e :: InvoiceIdToken(t, p, g, e))
            && (v != "" ==> exists p: nat, g: nat, e: nat :: && InvoiceIdToken(t, p, g, e) && g <= e <= |t| && v == t[g..e]
                                                             && forall q: nat, g', e' :: q < p ==> !InvoiceIdToken(t, q, g', e'))
  {
    FieldsByRule(text);
    InvoiceIdValueFirst(Normalize(text));
  }

  /** Whitespace at i is a plain space with no whitespace right after it. */
  predicate LoneSpaceAt(s: string, i: nat)
    requires i < |s|
  {
    IsSpace(s[i]) ==> s[i] == ' ' && (i + 1 == |s| || !IsSpace(s[i + 1]))
  }

  /** Every whitespace character of s is a lone space. */
  ghost predicate LoneSpaces(s: string) {
    forall i :: 0 <= i < |s| ==> LoneSpaceAt(s, i)
  }

  lemma CanonicalLoneSpaces(t: string)
    requires Canonical(t)
    ensures LoneSpaces(t)
  {
    forall i | 0 <= i < |t| ensures LoneSpaceAt(t, i) {
      if i + 1 < |t| {
        assert !DoubleSpace(t, i);
      }
    }
  }

  /** In such a text a whitespace character is one space, and the run of
      whitespace starting there has length one. */
  lemma LoneSpace(s: string, e: nat)
    requires LoneSpaces(s)
    requires e < |s| && IsSpace(s[e])
    ensures s[e] == ' ' && RunEnd(s, e, Space) == e + 1
  {
    assert LoneSpaceAt(s, e);
  }

  /** A capitalised word, one space and more spaced words are spaced words. */
  lemma SpacedWordsCons(s: string, w: nat, e: nat, ends: seq<nat>)
    requires e < |s| && s[e] == ' ' && CapWord(s, w, e)
    requires SpacedWords(s, e + 1, ends)
    ensures SpacedWords(s, w, [e] + ends)
  {
    var all := [e] + ends;
    forall j | 0 < j < |all| ensures WordLink(s, all, j) {
      if j > 1 {
        assert WordLink(s, ends, j - 1);
      }
    }
  }

  /** When the vendor rule takes a further word after position e, canonical
      text has exactly one space there and the word follows it. */
  lemma MoreWordsNext(s: string, e: nat, n: nat) returns (ws: nat, e2: nat)
    requires LoneSpaces(s)
    requires e <= |s| && MoreWords(s, e, n) != e
    ensures n > 0 && e < |s| && s[e] == ' ' && ws == e + 1
    ensures CapWord(s, ws, e2) && MoreWords(s, e, n) == MoreWords(s, e2, n - 1)
    ensures e2 == |s| || !IsLower(s[e2])
  {
    ws := RunEnd(s, e, Space);
    e2 := CapWordEnd(s, ws).value;
    LoneSpace(s, e);
  }

  /** On canonical text, the words the vendor rule collects after the first
      one are single-space separated capitalised words. */
  lemma {:induction false} MoreWordsShape(s: string, w: nat, e: nat, n: nat) returns (ends: seq<nat>)
    requires LoneSpaces(s) && CapWord(s, w, e)
    ensures 1 <= |ends| <= n + 1 && ends[|ends| - 1] == MoreWords(s, e, n)
    ensures SpacedWords(s, w, ends)
    ensures |ends| == n + 1 || !WordFollows(s, MoreWords(s, e, n))
    decreases n
  {
    MoreWordsStops(s, e, n);
    if MoreWords(s, e, n) == e {
      ends := [e];
      assert SpacedWords(s, w, ends);
    } else {
      var ws, e2 := MoreWordsNext(s, e, n);
      var rest := MoreWordsShape(s, ws, e2, n - 1);
      ends := SpacedWordsStep(s, w, e, rest, MoreWords(s, e, n), n);
    }
  }

  /** One more word in front of the spaced words that end where the rule
      stops. */
  lemma SpacedWordsStep(s: string, w: nat, e: nat, rest: seq<nat>, last: nat, n: nat) returns (ends: seq<nat>)
    requires e < |s| && s[e] == ' ' && CapWord(s, w, e)
    requires last <= |s| && SpacedWords(s, e + 1, rest) && 1 <= |rest| <= n && rest[|rest| - 1] == last
    requires |rest| == n || !WordFollows(s, last)
    ensures ends == [e] + rest
    ensures 1 <= |ends| <= n + 1 && ends[|ends| - 1] == last
    ensures SpacedWords(s, w, ends)
    ensures |ends| == n + 1 || !WordFollows(s, last)
  {
    SpacedWordsCons(s, w, e, rest);
    ends := [e] + rest;
    assert ends[|ends| - 1] == rest[|rest| - 1];
  }

  /** The vendor is found exactly when the normalised text starts with a
      capital letter and two lower-case letters; it is then a prefix of that
      text made of one to four capitalised words separated by single spaces,
      the last one whole, and ending after the fourth word or where no
      further capitalised word follows. */
  lemma VendorField(text: string)
    ensures var t := Normalize(text);
            var v := InvoiceFields(text)["vendor"];
            && (v != "" <==> |t| >= 3 && IsUpper(t[0]) && IsLower(t[1]) && IsLower(t[2]))
            && (v != "" ==> && v == t[..|v|]
                            && (|v| == |t| || !IsLower(t[|v|]))
                            && exists ends :: && 1 <= |ends| <= 4 && ends[|ends| - 1] == |v|
                                              && SpacedWords(t, 0, ends)
                                              && (|ends| == 4 || !WordFollows(t, |v|)))
  {
    var t := Normalize(text);
    var v := InvoiceFields(text)["vendor"];
    forall q | 1 <= q <= |t| ensures VendorAt(t, q).None? {
    }
    NoMatchIntro(VendorAt, t, 1, |t| + 1);
    assert NoMatchBetween(VendorAt, t, 0, |t| + 1) <==> VendorAt(t, 0).None?;
    match SearchFrom(VendorAt, t, 0)
    case None =>
    case Some(m) =>
      NoMatchAt(VendorAt, t, 0, m.at + 1, m.at);
      assert m.at == 0;
      var e := CapWordEnd(t, 0).value;
      assert m.group == Span(0, MoreWords(t, e, 3));
      CanonicalLoneSpaces(t);
      var ends := MoreWordsShape(t, 0, e, 3);
  }

  /** A non-empty total is a piece of the normalised text shaped like an
      amount; it starts with a digit unless it is the lone comma (with a
      following dot) that backtracking reaches when no digit follows. */
  lemma TotalField(text: string)
    ensures var v := InvoiceFields(text)["total_amount"];
            v != "" ==> && IsSubstring(v, Normalize(text)) && AmountShape(v)
                        && (IsDigit(v[0]) || LoneComma(v))
  {
    FieldsByRule(text);
    if InvoiceFields(text)["total_amount"] != "" {
      var p := FirstMatch(TotalAt, Normalize(text));
    }
  }

  /** The same for tax. */
  lemma TaxField(text: string)
    ensures var v := InvoiceFields(text)["tax"];
            v != "" ==> && IsSubstring(v, Normalize(text)) && AmountShape(v)
                        && (IsDigit(v[0]) || LoneComma(v))
  {
    FieldsByRule(text);
    if InvoiceFields(text)["tax"] != "" {
      var p := FirstMatch(TaxAt, Normalize(text));
    }
  }

  /** The search for an amount rule on t succeeds exactly when somewhere in
      t one of its phrases is followed by a digit or a comma. */
  lemma AmountFieldFound(t: string, m: Matcher, phrases: seq<seq<string>>)
    requires InBounds(m)
    requires forall i :: 0 <= i < |phrases| ==> |phrases[i]| > 0
    requires forall q: nat :: m(t, q) == (if q > |t| then None else AmountAt(t, q, phrases))
    ensures FieldValue(m, t) != "" <==>
              exists q, i :: 0 <= q <= |t| && 0 <= i < |phrases| && AmountFollows(t, q, phrases[i])
  {
    if FieldValue(m, t) != "" {
      var p := FirstMatch(m, t);
      AmountAtFound(t, p, phrases);
    }
    if exists q, i :: 0 <= q <= |t| && 0 <= i < |phrases| && AmountFollows(t, q, phrases[i]) {
      var q, i :| 0 <= q <= |t| && 0 <= i < |phrases| && AmountFollows(t, q, phrases[i]);
      AmountAtFound(t, q, phrases);
      FieldValueFound(m, t, q);
    }
  }

  /** The total is found exactly when `total`, `amount due`, `grand total`
      or `balance due` occurs in the normalised text, inside a word or not,
      with a digit or a comma somewhere after it. */
  lemma TotalFound(text: string)
    ensures var t := Normalize(text);
            InvoiceFields(text)["total_amount"] != "" <==>
              exists q, i :: 0 <= q <= |t| && 0 <= i < |TotalPhrases| && AmountFollows(t, q, TotalPhrases[i])
  {
    RulesInBounds();
    AmountFieldFound(Normalize(text), TotalAt, TotalPhrases);
    FieldsByRule(text);
  }

  /** The same for tax with `tax`, `vat` and `gst`. */
  lemma TaxFound(text: string)
    ensures var t := Normalize(text);
            InvoiceFields(text)["tax"] != "" <==>
              exists q, i :: 0 <= q <= |t| && 0 <= i < |TaxPhrases| && AmountFollows(t, q, TaxPhrases[i])
  {
    RulesInBounds();
    AmountFieldFound(Normalize(text), TaxAt, TaxPhrases);
    FieldsByRule(text);
  }

  /** v is what an amount rule with these phrases finds in t: empty, or
      the group of the amount after the first phrase that has one, at the
      first position where any phrase has one. */
  ghost predicate FirstAmountValue(t: string, phrases: seq<Phrase>, v: string) {
    && (forall i :: 0 <= i < |phrases| ==> |phrases[i]| > 0)
    && (v != "" ==>
          exists p: nat, i: nat, g :: && p <= |t| && FirstPhraseAmount(t, p, phrases, i, g)
                                      && v == Group(t, g)
                                      && forall q: nat, j :: q < p && 0 <= j < |phrases| ==> !AmountFollows(t, q, phrases[j]))
  }

  /** A non-empty amount is group 1 at the first position where one of the
      phrases has an amount after it: the amount after the first such
      phrase there. */
  lemma AmountFieldFirst(t: string, m: Matcher, phrases: seq<Phrase>)
    requires InBounds(m)
    requires forall i :: 0 <= i < |phrases| ==> |phrases[i]| > 0
    requires forall q: nat :: m(t, q) == (if q > |t| then None else AmountAt(t, q, phrases))
    ensures FirstAmountValue(t, phrases, FieldValue(m, t))
  {
    if FieldValue(m, t) != "" {
      var p := FirstMatch(m, t);
      var g := m(t, p).value;
      AmountAtSpec(t, p, phrases, g);
      var i: nat :| FirstPhraseAmount(t, p, phrases, i, g);
      forall q: nat, j | q < p && 0 <= j < |phrases| ensures !AmountFollows(t, q, phrases[j]) {
        NoMatchAt(m, t, 0, p, q);
        AmountAtFound(t, q, phrases);
      }
    }
  }

  /** The same for a value known to be what the rule finds. */
  lemma AmountRuleField(t: string, m: Matcher, phrases: seq<Phrase>, v: string)
    requires InBounds(m)
    requires forall i :: 0 <= i < |phrases| ==> |phrases[i]| > 0
    requires forall q: nat :: m(t, q) == (if q > |t| then None else AmountAt(t, q, phrases))
    requires v == FieldValue(m, t)
    ensures FirstAmountValue(t, phrases, v)
  {
    AmountFieldFirst(t, m, phrases);
  }

  lemma TotalAtIsAmountAt(t: string)
    ensures forall q: nat :: TotalAt(t, q) == (if q > |t| then None else AmountAt(t, q, TotalPhrases))
  {
  }

  lemma TaxAtIsAmountAt(t: string)
    ensures forall q: nat :: TaxAt(t, q) == (if q > |t| then None else AmountAt(t, q, TaxPhrases))
  {
  }

  lemma TotalValueFirst(t: string, v: string)
    requires InBounds(TotalAt) && v == FieldValue(TotalAt, t)
    ensures FirstAmountValue(t, TotalPhrases, v)
  {
    TotalAtIsAmountAt(t);
    AmountRuleField(t, TotalAt, TotalPhrases, v);
  }

  /** A non-empty total is the amount after the first of the total phrases
      that has one, at the first position where any has. */
  lemma TotalFieldFirst(text: string)
    ensures FirstAmountValue(Normalize(text), TotalPhrases, InvoiceFields(text)["total_amount"])
  {
    FieldsByRule(text);
    RulesInBounds();
    TotalValueFirst(Normalize(text), InvoiceFields(text)["total_amount"]);
  }

  lemma TaxValueFirst(t: string, v: string)
    requires InBounds(TaxAt) && v == FieldValue(TaxAt, t)
    ensures FirstAmountValue(t, TaxPhrases, v)
  {
    TaxAtIsAmountAt(t);
    AmountRuleField(t, TaxAt, TaxPhrases, v);
  }

  /** The same for tax. */
  lemma TaxFieldFirst(text: string)
    ensures FirstAmountValue(Normalize(text), TaxPhrases, InvoiceFields(text)["tax"])
  {
    FieldsByRule(text);
    RulesInBounds();
    TaxValueFirst(Normalize(text), InvoiceFields(text)["tax"]);
  }

  lemma {:induction false} AmountNeedsDigitOrComma(s: string, p: nat, phrases: seq<seq<string>>)
    requires p <= |s|
    requires forall i :: 0 <= i < |phrases| ==> |phrases[i]| > 0
    requires forall j :: 0 <= j < |s| ==> !IsAmountChar(s[j])
    ensures AmountAt(s, p, phrases).None?
    decreases |phrases|
  {
    if phrases != [] {
      AmountNeedsDigitOrComma(s, p, phrases[1..]);
    }
  }

  /** Without digits and commas neither amount rule matches anywhere. */
  lemma NoAmountCharNoAmount(t: string)
    requires forall j :: 0 <= j < |t| ==> !IsAmountChar(t[j])
    ensures FieldValue(TotalAt, t) == "" && FieldValue(TaxAt, t) == ""
  {
    forall q | 0 <= q <= |t| ensures TotalAt(t, q).None? && TaxAt(t, q).None? {
      AmountNeedsDigitOrComma(t, q, TotalPhrases);
      AmountNeedsDigitOrComma(t, q, TaxPhrases);
    }
    NoMatchIntro(TotalAt, t, 0, |t| + 1);
    NoMatchIntro(TaxAt, t, 0, |t| + 1);
  }

  /** A text with neither a digit nor a comma has no total and no tax. */
  lemma AmountsNeedDigitOrComma(text: string)
    requires forall i :: 0 <= i < |text| ==> !IsDigit(text[i]) && text[i] != Comma
    ensures InvoiceFields(text)["total_amount"] == "" && InvoiceFields(text)["tax"] == ""
  {
    var t := Normalize(text);
    forall j | 0 <= j < |t| ensures !IsAmountChar(t[j]) {
      if IsAmountChar(t[j]) {
        NormalizedCharsFromInput(text, t[j]);
      }
    }
    NoAmountCharNoAmount(t);
    FieldsByRule(text);
  }
}

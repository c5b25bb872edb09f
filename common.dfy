/** Shared vocabulary: optional values, results, bytes and the ASCII character
    classes that Python's `re` and `str` methods use on the invoice text. */
module Common {

  datatype Option<+T> = None | Some(value: T)

  /** A value or the message of the exception that replaced it. */
  datatype Result<+T> = Success(value: T) | Failure(error: string)

  newtype byte = x: int | 0 <= x < 256

  /** `\s` and `str.isspace()` restricted to ASCII: space, \t \n \v \f \r and
      the four separators \x1c-\x1f. */
  predicate IsSpace(c: char) {
    c == ' ' || (9 <= c as int <= 13) || (28 <= c as int <= 31)
  }

  /** `\d` restricted to ASCII. */
  predicate IsDigit(c: char) {
    '0' <= c <= '9'
  }

  predicate IsUpper(c: char) {
    'A' <= c <= 'Z'
  }

  predicate IsLower(c: char) {
    'a' <= c <= 'z'
  }

  predicate IsLetter(c: char) {
    IsUpper(c) || IsLower(c)
  }

  /** `\w` restricted to ASCII: letters, digits and the underscore. */
  predicate IsWord(c: char) {
    IsLetter(c) || IsDigit(c) || c == '_'
  }

  /** ASCII lower-casing, as IGNORECASE compares letters. */
  function Lower(c: char): (r: char)
    ensures IsUpper(c) ==> IsLower(r)
    ensures !IsUpper(c) ==> r == c
  {
    if IsUpper(c) then (c as int + 32) as char else c
  }

  /** The thousands separator the amount patterns accept. */
  const Comma: char := ','

  /** `[\d,]`. */
  predicate IsAmountChar(c: char) {
    IsDigit(c) || c == Comma
  }

  /** `[A-Z0-9\-]` under IGNORECASE: letters of either case, digits, hyphen. */
  predicate IsIdChar(c: char) {
    IsLetter(c) || IsDigit(c) || c == '-'
  }

  /** `[\s#:]`. */
  predicate IsIdGap(c: char) {
    IsSpace(c) || c == '#' || c == ':'
  }

  /** The character classes the patterns repeat. */
  datatype CharClass =
    | Space       // \s
    | Digit       // \d
    | NonDigit    // [^\d]
    | LowerCase   // [a-z]
    | AmountChar  // [\d,]
    | IdChar      // [A-Z0-9\-], IGNORECASE
    | IdGap       // [\s#:]

  predicate InClass(c: char, cls: CharClass) {
    match cls
    case Space => IsSpace(c)
    case Digit => IsDigit(c)
    case NonDigit => !IsDigit(c)
    case LowerCase => IsLower(c)
    case AmountChar => IsAmountChar(c)
    case IdChar => IsIdChar(c)
    case IdGap => IsIdGap(c)
  }

  /** The end of the longest run of characters of class `cls` starting at
      `p`: where a greedy `cls*` stops. */
  function RunEnd(s: string, p: nat, cls: CharClass): (e: nat)
    requires p <= |s|
    ensures p <= e <= |s|
    ensures forall i :: p <= i < e ==> InClass(s[i], cls)
    ensures e == |s| || !InClass(s[e], cls)
    decreases |s| - p
  {
    if p == |s| || !InClass(s[p], cls) then p else RunEnd(s, p + 1, cls)
  }

  /** Characters of class `cls` all the way from p to e: the run from p
      reaches at least e. */
  lemma RunEndCovers(s: string, p: nat, e: nat, cls: CharClass)
    requires p <= e <= |s|
    requires forall i :: p <= i < e ==> InClass(s[i], cls)
    ensures RunEnd(s, p, cls) >= e
  {
  }

  /** A run of class `cls` from p that stops at e is the longest one. */
  lemma RunEndExact(s: string, p: nat, e: nat, cls: CharClass)
    requires p <= e <= |s|
    requires forall i :: p <= i < e ==> InClass(s[i], cls)
    requires e == |s| || !InClass(s[e], cls)
    ensures RunEnd(s, p, cls) == e
  {
  }
}

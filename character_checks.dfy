/** Single-character classes of the URI grammar (RFC 3986, Appendix A, and the
    core rules of RFC 5234). Characters outside ASCII fail every class. */
module CharacterChecks {

  /** ALPHA: an ASCII letter. */
  predicate IsAlpha(c: char) {
    ('A' <= c <= 'Z') || ('a' <= c <= 'z')
  }

  /** DIGIT: an ASCII decimal digit. */
  predicate IsDigit(c: char) {
    '0' <= c <= '9'
  }

  /** HEXDIG, accepting both letter cases. */
  predicate IsHexDigit(c: char) {
    IsDigit(c) || ('A' <= c <= 'F') || ('a' <= c <= 'f')
  }

  /** The marks that RFC 3986 section 2.3 adds to letters and digits. */
  const UnreservedMarks: seq<char> := ['-', '.', '_', '~']

  /** unreserved = ALPHA / DIGIT / "-" / "." / "_" / "~" */
  predicate IsUnreserved(c: char) {
    IsAlpha(c) || IsDigit(c) || c in UnreservedMarks
  }

  /** The sub-delims of RFC 3986 section 2.2. */
  const SubDelimiters: seq<char> := ['!', '$', '&', '\'', '(', ')', '*', '+', ',', ';', '=']

  predicate IsSubDelimiter(c: char) {
    c in SubDelimiters
  }

  /** The decimal value of a digit character. */
  function DigitValue(c: char): (v: int)
    requires IsDigit(c)
    ensures 0 <= v <= 9
    ensures v == 0 <==> c == '0'
  {
    c as int - '0' as int
  }

  // ---------------------------------------------------------------------
  // Properties of the classes

  /** A digit is one of the ten characters '0'..'9', listed one by one. */
  lemma DigitIsTheTenDigits(c: char)
    ensures IsDigit(c) <==> c in "0123456789"
  {
    if IsDigit(c) {
      var k := c as int - '0' as int;
      assert "0123456789"[k] == c;
    }
  }

  /** Every decimal digit is a hexadecimal digit; the only other hexadecimal
      digits are the letters A-F in either case. */
  lemma HexDigitIsDigitOrHexLetter(c: char)
    ensures IsDigit(c) ==> IsHexDigit(c)
    ensures IsHexDigit(c) <==> IsDigit(c) || c in "ABCDEFabcdef"
  {
    var hex := "ABCDEFabcdef";
    if 'A' <= c <= 'F' {
      assert hex[c as int - 'A' as int] == c;
    } else if 'a' <= c <= 'f' {
      assert hex[6 + (c as int - 'a' as int)] == c;
    }
  }

  /** The unreserved set is exactly letters, digits and "-._~". */
  lemma UnreservedIsAlnumOrMark(c: char)
    ensures IsUnreserved(c) <==> IsAlpha(c) || IsDigit(c) || c == '-' || c == '.' || c == '_' || c == '~'
  {
  }

  /** The sub-delimiter set is exactly the eleven characters "!$&'()*+,;=". */
  lemma SubDelimiterIsTheEleven(c: char)
    ensures IsSubDelimiter(c) <==>
      c == '!' || c == '$' || c == '&' || c == '\'' || c == '(' || c == ')' ||
      c == '*' || c == '+' || c == ',' || c == ';' || c == '='
  {
  }

  /** No character is both unreserved and a sub-delimiter. */
  lemma UnreservedAndSubDelimiterDisjoint(c: char)
    ensures !(IsUnreserved(c) && IsSubDelimiter(c))
  {
  }

  /** '%' and the gen-delims ": / ? # [ ] @" are in neither class. */
  lemma GenDelimitersAndPercentInNeitherClass(c: char)
    requires c in "%:/?#[]@"
    ensures !IsUnreserved(c) && !IsSubDelimiter(c)
  {
  }
}

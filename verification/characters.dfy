/** The classes of characters that the readers go by, each by the characters in it. */
module Characters {
  import opened Strings
  import Expression
  import Preserved
  import Building
  import Slug
  import Highlight
  import Minify
  import References

  const LOWER := "abcdefghijklmnopqrstuvwxyz"
  const UPPER := "ABCDEFGHIJKLMNOPQRSTUVWXYZ"
  const DIGITS := "0123456789"

  lemma SmallAre(c: char)
    ensures c in LOWER <==> 'a' <= c <= 'z'
  {
    if 'a' <= c <= 'z' { assert LOWER[c as int - 'a' as int] == c; }
  }

  lemma CapitalsAre(c: char)
    ensures c in UPPER <==> 'A' <= c <= 'Z'
  {
    if 'A' <= c <= 'Z' { assert UPPER[c as int - 'A' as int] == c; }
  }

  lemma LettersAre(c: char)
    ensures c in LOWER <==> 'a' <= c <= 'z'
    ensures c in UPPER <==> 'A' <= c <= 'Z'
    ensures c in DIGITS <==> '0' <= c <= '9'
  {
    hide LOWER, UPPER;
    SmallAre(c);
    CapitalsAre(c);
    if '0' <= c <= '9' { assert DIGITS[c as int - '0' as int] == c; }
  }

  /** Capital letters become small ones and nothing else changes. */
  lemma LoweredByLetter(k: nat, c: char)
    ensures k < 26 ==> Lower(UPPER[k]) == LOWER[k]
    ensures c !in UPPER ==> Lower(c) == c
  {
    LettersAre(c);
    if k < 26 { assert UPPER[k] as int == 'A' as int + k && LOWER[k] as int == 'a' as int + k; }
  }

  lemma BlanksAre(c: char)
    ensures IsBlank(c) <==> c in " \t"
    ensures IsSpace(c) <==> c in " \t\r\n" || c as int == 11 || c as int == 12
    ensures Minify.IsCssSpace(c) <==> c in " \t\r\n" || c as int == 12
  {
  }

  /** Names in expressions, in tags and attributes, and in tags as markup. */
  lemma NamesAre(c: char)
    ensures IsLetter(c) <==> c in LOWER || c in UPPER
    ensures IsDigit(c) <==> c in DIGITS
    ensures Expression.IsNameStart(c) <==> c in LOWER || c in UPPER || c == '_'
    ensures Expression.IsNameChar(c) <==> c in LOWER || c in UPPER || c in DIGITS || c in "_-"
    ensures Preserved.IsNameCharacter(c) <==> c in LOWER || c in UPPER || c in DIGITS || c in "_-"
    ensures Building.IsTagCharacter(c) <==> c in LOWER || c in UPPER || c in DIGITS || c in "_-:"
  {
    LettersAre(c);
  }

  /** What slugs, highlighting, stylesheets and references are divided by. */
  lemma PartsAre(c: char)
    ensures Slug.IsSlugCharacter(c) <==> c in LOWER || c in DIGITS
    ensures Highlight.IsWordCharacter(c) <==> c in LOWER || c in UPPER || c in DIGITS || c == '_'
    ensures Highlight.IsNumeric(c) <==> c in DIGITS || c == '.'
    ensures Minify.IsStructural(c) <==> c in "{}:;,>"
    ensures Minify.IsQuote(c) <==> c in "\"'"
    ensures References.IsDelimiter(c) <==> c in "\"'(), \t\r\n" || c as int == 12
  {
    LettersAre(c);
  }
}

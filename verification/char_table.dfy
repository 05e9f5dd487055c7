/**
  The cleaner's constant data: the typographic substitution table, the
  character class of invisible code points deleted outright, and the
  space/tab class of trailing whitespace.
 */
module CharTable {
  import opened Strings

  /** The substitution table, in the dictionary's insertion order. */
  const Replacements: seq<Rule> := [
    ('\U{2018}', "'"), ('\U{2019}', "'"),    // smart single quotes
    ('\U{201C}', "\""), ('\U{201D}', "\""),  // smart double quotes
    ('\U{2013}', "-"), ('\U{2014}', "-"),    // en and em dashes
    ('\U{2026}', "..."),                     // ellipsis
    ('\U{00A0}', " ")                        // non-breaking space
  ]

  /** The table read as a function of one character: what each entry makes
      of its source, and every other character left as it is. */
  function Replacement(c: char): string
  {
    match c
    case '\U{2018}' => "'"
    case '\U{2019}' => "'"
    case '\U{201C}' => "\""
    case '\U{201D}' => "\""
    case '\U{2013}' => "-"
    case '\U{2014}' => "-"
    case '\U{2026}' => "..."
    case '\U{00A0}' => " "
    case _ => [c]
  }

  /** A character the substitution table rewrites. */
  predicate IsTableSource(c: char)
  {
    IsSource(c, Replacements)
  }

  /** The character class `[\u200B\u200C\u200D\uFEFF\u00AD]`. */
  predicate IsInvisible(c: char)
  {
    c == '\U{200B}' || c == '\U{200C}' || c == '\U{200D}' || c == '\U{FEFF}' || c == '\U{00AD}'
  }

  /** The character class `[ \t]`. */
  predicate IsBlank(c: char)
  {
    c == ' ' || c == '\t'
  }

  /** A code point below 128. */
  predicate IsAscii(c: char)
  {
    c as int < 128
  }

  /** The table's sources, listed; every one of them lies outside ASCII. */
  lemma TableSources(c: char)
    ensures IsTableSource(c) <==>
      c == '\U{2018}' || c == '\U{2019}' || c == '\U{201C}' || c == '\U{201D}' ||
      c == '\U{2013}' || c == '\U{2014}' || c == '\U{2026}' || c == '\U{00A0}'
    ensures IsTableSource(c) ==> !IsAscii(c) && !IsInvisible(c)
  {
    if IsTableSource(c) {
      var i :| 0 <= i < |Replacements| && Replacements[i].0 == c;
      assert i == 0 || i == 1 || i == 2 || i == 3 || i == 4 || i == 5 || i == 6 || i == 7;
    } else {
      assert Replacements[0].0 == '\U{2018}' && Replacements[1].0 == '\U{2019}';
      assert Replacements[2].0 == '\U{201C}' && Replacements[3].0 == '\U{201D}';
      assert Replacements[4].0 == '\U{2013}' && Replacements[5].0 == '\U{2014}';
      assert Replacements[6].0 == '\U{2026}' && Replacements[7].0 == '\U{00A0}';
    }
  }

  /** Every replacement text is ASCII. */
  lemma ReplacementsAscii()
    ensures forall j, c :: 0 <= j < |Replacements| && c in Replacements[j].1 ==> IsAscii(c)
  {
    forall j, c | 0 <= j < |Replacements| && c in Replacements[j].1 ensures IsAscii(c) {
      assert j == 0 || j == 1 || j == 2 || j == 3 || j == 4 || j == 5 || j == 6 || j == 7;
    }
  }

  /** No replacement text contains a character the table rewrites, so the
      dictionary's iteration order cannot change the outcome. */
  lemma TableWellFormed()
    ensures NoRuleFeedsAnother(Replacements)
  {
    ReplacementsAscii();
    forall i, j | 0 <= i < |Replacements| && 0 <= j < |Replacements|
      ensures Replacements[i].0 !in Replacements[j].1
    {
      TableSources(Replacements[i].0);
    }
  }

  /** Looking a character up in the table data gives `Replacement`: a
      table source becomes ASCII text, any other character stays itself. */
  lemma LookupIsReplacement(c: char)
    ensures Lookup(c, Replacements) == Replacement(c)
    ensures IsTableSource(c) ==> forall x :: x in Replacement(c) ==> IsAscii(x)
    ensures !IsTableSource(c) ==> Replacement(c) == [c]
  {
    TableSources(c);
    if !IsTableSource(c) {
      LookupNotSource(c, Replacements);
    }
  }
}

/** Strings in .config files: the escaping of _make_conf and its undoing in load_config. */
module KconfigEscape {

  const SLASH: char := '\\'
  const QUOTE: char := '\"'

  /** str.replace: every occurrence, from the left, without overlaps. */
  function ReplaceAll(s: string, what: string, into: string): string
    requires what != ""
    decreases |s|
  {
    if s == "" then ""
    else if what <= s then into + ReplaceAll(s[|what|..], what, into)
    else [s[0]] + ReplaceAll(s[1..], what, into)
  }

  function EscapeSlashes(s: string): string {
    ReplaceAll(s, [SLASH], [SLASH, SLASH])
  }

  function EscapeQuotes(s: string): string {
    ReplaceAll(s, [QUOTE], [SLASH, QUOTE])
  }

  function UnescapeQuotes(s: string): string {
    ReplaceAll(s, [SLASH, QUOTE], [QUOTE])
  }

  function UnescapeSlashes(s: string): string {
    ReplaceAll(s, [SLASH, SLASH], [SLASH])
  }

  /** What is written between the quotes. */
  function Escape(s: string): string {
    EscapeQuotes(EscapeSlashes(s))
  }

  /** What is made of it when it is read. */
  function Unescape(s: string): string {
    UnescapeSlashes(UnescapeQuotes(s))
  }

  /** A quote is never the first character of an escaped string. */
  lemma QuoteNotFirst(s: string)
    ensures EscapeQuotes(s) == "" || EscapeQuotes(s)[0] != QUOTE
  {
    if s != "" && s[0] == QUOTE {
      assert [QUOTE] <= s;
    }
  }

  lemma {:induction false} QuotesUndone(s: string)
    ensures UnescapeQuotes(EscapeQuotes(s)) == s
    decreases |s|
  {
    if s != "" {
      var t := s[1..];
      QuotesUndone(t);
      if s[0] == QUOTE {
        assert EscapeQuotes(s) == [SLASH, QUOTE] + EscapeQuotes(t);
        assert EscapeQuotes(s)[2..] == EscapeQuotes(t);
      } else {
        QuoteNotFirst(t);
        assert EscapeQuotes(s) == [s[0]] + EscapeQuotes(t);
        assert EscapeQuotes(s)[1..] == EscapeQuotes(t);
        assert !([SLASH, QUOTE] <= EscapeQuotes(s)) by {
          if |EscapeQuotes(s)| >= 2 {
            assert EscapeQuotes(s)[1] == EscapeQuotes(t)[0];
          }
        }
      }
      assert s == [s[0]] + t;
    }
  }

  lemma {:induction false} SlashesUndone(s: string)
    ensures UnescapeSlashes(EscapeSlashes(s)) == s
    decreases |s|
  {
    if s != "" {
      var t := s[1..];
      SlashesUndone(t);
      if s[0] == SLASH {
        assert EscapeSlashes(s) == [SLASH, SLASH] + EscapeSlashes(t);
        assert EscapeSlashes(s)[2..] == EscapeSlashes(t);
      } else {
        assert EscapeSlashes(s) == [s[0]] + EscapeSlashes(t);
        assert EscapeSlashes(s)[1..] == EscapeSlashes(t);
      }
      assert s == [s[0]] + t;
    }
  }

  /** Reading back what was written gives the string itself, whatever its runs of
      backslashes and quotes. */
  lemma EscapeInverts(s: string)
    ensures Unescape(Escape(s)) == s
  {
    QuotesUndone(EscapeSlashes(s));
    SlashesUndone(s);
  }

  /** Inside the written string a quote only follows a backslash. */
  lemma {:induction false} QuotesAreEscaped(s: string, i: nat)
    requires i < |EscapeQuotes(s)| && EscapeQuotes(s)[i] == QUOTE
    ensures i > 0 && EscapeQuotes(s)[i - 1] == SLASH
    decreases |s|
  {
    var t := s[1..];
    if s[0] == QUOTE {
      assert EscapeQuotes(s) == [SLASH, QUOTE] + EscapeQuotes(t);
      if i >= 2 {
        QuotesAreEscaped(t, i - 2);
      }
    } else {
      assert EscapeQuotes(s) == [s[0]] + EscapeQuotes(t);
      if i >= 1 {
        QuotesAreEscaped(t, i - 1);
      }
    }
  }
}

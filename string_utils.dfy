/** `StringUtils` (src/utils/string.ts): positional `{n}` templating and the
    escaping of single quotes. */
module StringUtils {
  import opened Wrappers
  import opened Text

  /** `\d` */
  predicate IsDigit(c: char) {
    '0' <= c <= '9'
  }

  predicate AllDigits(s: string) {
    forall i :: 0 <= i < |s| ==> IsDigit(s[i])
  }

  /** The length of the run of decimal digits that `s` starts with. */
  function DigitRun(s: string): (n: nat)
    ensures n <= |s| && AllDigits(s[..n])
    ensures n < |s| ==> !IsDigit(s[n])
  {
    if s != [] && IsDigit(s[0]) then
      var n := 1 + DigitRun(s[1..]);
      assert s[..n] == [s[0]] + s[1..][..n - 1];
      n
    else 0
  }

  /** `parseInt(digits)` for a non-empty run of decimal digits. */
  function DecimalValue(digits: string): nat
    requires AllDigits(digits)
  {
    if digits == [] then 0
    else 10 * DecimalValue(digits[..|digits| - 1]) + (digits[|digits| - 1] as int - '0' as int)
  }

  /** A match of `/{(\d+)}/`: the index it names and the length of the matched text. */
  datatype Placeholder = Placeholder(index: nat, length: nat)

  /** The match of `/{(\d+)}/` at the start of `s`, if there is one. */
  function PlaceholderAt(s: string): (m: Option<Placeholder>)
    ensures m.Some? ==> 3 <= m.value.length <= |s|
  {
    if |s| < 3 || s[0] != '{' then None
    else
      var n := DigitRun(s[1..]);
      if n == 0 || 1 + n >= |s| || s[1 + n] != '}' then None
      else
        assert s[1..1 + n] == s[1..][..n];
        Some(Placeholder(DecimalValue(s[1..1 + n]), n + 2))
  }

  /** `StringUtils.format`: one left-to-right pass of the global regular
      expression `/{(\d+)}/` over `formatString`; a match whose index names
      an entry of `variables` becomes that entry, any other match stays as it
      is, and the text put in is not scanned again. */
  function Format(formatString: string, variables: seq<string>): string
    decreases |formatString|
  {
    if formatString == [] then []
    else
      var m := PlaceholderAt(formatString);
      if m.Some? then
        (if m.value.index < |variables| then variables[m.value.index] else formatString[..m.value.length])
        + Format(formatString[m.value.length..], variables)
      else
        [formatString[0]] + Format(formatString[1..], variables)
  }

  /** Some placeholder `{digits}` occurs in `s`. */
  predicate HasPlaceholder(s: string) {
    exists i | 0 <= i < |s| :: PlaceholderAt(s[i..]).Some?
  }

  /** A string without placeholders comes back unchanged. */
  lemma {:induction false} FormatWithoutPlaceholder(s: string, variables: seq<string>)
    requires !HasPlaceholder(s)
    ensures Format(s, variables) == s
    decreases |s|
  {
    if s != [] {
      assert s[0..] == s;
      assert !HasPlaceholder(s[1..]) by {
        forall i | 0 <= i < |s[1..]| ensures PlaceholderAt(s[1..][i..]).None? {
          assert s[1..][i..] == s[i + 1..];
        }
      }
      FormatWithoutPlaceholder(s[1..], variables);
    }
  }

  /** With no values to put in, every placeholder stays as it is written
      and the template comes back unchanged. */
  lemma {:induction false} FormatWithoutVariables(formatString: string)
    ensures Format(formatString, []) == formatString
    decreases |formatString|
  {
    if formatString != [] {
      var m := PlaceholderAt(formatString);
      if m.Some? {
        var n := m.value.length;
        FormatWithoutVariables(formatString[n..]);
        assert formatString[..n] + formatString[n..] == formatString;
      } else {
        FormatWithoutVariables(formatString[1..]);
        assert [formatString[0]] + formatString[1..] == formatString;
      }
    }
  }

  /** Text without `{` is copied as it is, and the scan goes on after it. */
  lemma {:induction false} FormatSkipsPlainText(a: string, b: string, variables: seq<string>)
    requires '{' !in a
    ensures Format(a + b, variables) == a + Format(b, variables)
    decreases |a|
  {
    if a != [] {
      assert (a + b)[0] == a[0];
      assert PlaceholderAt(a + b).None?;
      assert (a + b)[1..] == a[1..] + b;
      assert '{' !in a[1..];
      FormatSkipsPlainText(a[1..], b, variables);
      assert a == [a[0]] + a[1..];
    } else {
      assert a + b == b;
    }
  }

  /** The digit run of `digits` followed by a non-digit is `digits`. */
  lemma {:induction false} DigitRunOfDigits(digits: string, rest: string)
    requires AllDigits(digits)
    requires rest != [] && !IsDigit(rest[0])
    ensures DigitRun(digits + rest) == |digits|
    decreases |digits|
  {
    var s := digits + rest;
    if digits == [] {
      assert s == rest;
    } else {
      assert s != [] && IsDigit(s[0]);
      assert s[1..] == digits[1..] + rest;
      DigitRunOfDigits(digits[1..], rest);
      assert DigitRun(s) == 1 + DigitRun(s[1..]);
    }
  }

  /** A `{`, a digit run of length `n` and a `}` make a match. */
  lemma PlaceholderAtMatch(s: string, n: nat)
    requires 0 < n && 1 + n < |s| && s[0] == '{' && DigitRun(s[1..]) == n && s[1 + n] == '}'
    ensures AllDigits(s[1..1 + n])
    ensures PlaceholderAt(s) == Some(Placeholder(DecimalValue(s[1..1 + n]), n + 2))
  {
    assert s[1..1 + n] == s[1..][..n];
  }

  /** Where the digits and the closing brace sit in `{digits}rest`. */
  lemma BracedDigits(digits: string, rest: string)
    ensures var s := "{" + digits + "}" + rest;
            && s[0] == '{' && s[1..] == digits + ("}" + rest)
            && s[1 + |digits|] == '}' && s[1..1 + |digits|] == digits
  {
    var s := "{" + digits + "}" + rest;
    assert s[1..] == digits + ("}" + rest);
  }

  /** The text `{digits}` at the start of a string is a placeholder match. */
  lemma PlaceholderOfDigits(digits: string, rest: string)
    requires digits != [] && AllDigits(digits)
    ensures PlaceholderAt("{" + digits + "}" + rest) == Some(Placeholder(DecimalValue(digits), |digits| + 2))
  {
    BracedDigits(digits, rest);
    DigitRunOfDigits(digits, "}" + rest);
    PlaceholderAtMatch("{" + digits + "}" + rest, |digits|);
  }

  /** A match is exactly a `{`, the maximal run of digits after it, and a
      `}`; it names the value of those digits and spans two characters more
      than them. */
  lemma PlaceholderAtShape(s: string)
    ensures PlaceholderAt(s).Some? ==>
              var n := PlaceholderAt(s).value.length - 2;
              && s[0] == '{' && n == DigitRun(s[1..]) && s[1 + n] == '}'
              && AllDigits(s[1..1 + n]) && PlaceholderAt(s).value.index == DecimalValue(s[1..1 + n])
    ensures PlaceholderAt(s).None? <==>
              |s| < 3 || s[0] != '{' || DigitRun(s[1..]) == 0 || 1 + DigitRun(s[1..]) >= |s| || s[1 + DigitRun(s[1..])] != '}'
  {
    if PlaceholderAt(s).Some? {
      var n := DigitRun(s[1..]);
      assert PlaceholderAt(s).value.length - 2 == n;
      assert s[1..1 + n] == s[1..][..n];
    }
  }

  /** `{n}` becomes `variables[n]` when `n` is an index of `variables` and is
      left verbatim otherwise; the rest of the text is formatted after it. */
  lemma FormatPlaceholder(digits: string, rest: string, variables: seq<string>)
    requires digits != [] && AllDigits(digits)
    ensures Format("{" + digits + "}" + rest, variables)
         == (if DecimalValue(digits) < |variables| then variables[DecimalValue(digits)]
             else "{" + digits + "}")
            + Format(rest, variables)
  {
    var s := "{" + digits + "}" + rest;
    PlaceholderOfDigits(digits, rest);
    assert s[..|digits| + 2] == "{" + digits + "}";
    assert s[|digits| + 2..] == rest;
  }

  /** Plain text, then a placeholder naming an entry: the text is copied,
      the entry inserted, and the scan goes on after the placeholder. */
  lemma FormatTextThenPlaceholder(text: string, digits: string, rest: string, variables: seq<string>)
    requires '{' !in text && digits != [] && AllDigits(digits) && DecimalValue(digits) < |variables|
    ensures Format(text + ("{" + digits + "}" + rest), variables)
         == text + variables[DecimalValue(digits)] + Format(rest, variables)
  {
    FormatSkipsPlainText(text, "{" + digits + "}" + rest, variables);
    FormatPlaceholder(digits, rest, variables);
  }

  /** Two placeholders naming entries, with plain text around them. */
  lemma FormatTwoEntries(a: string, d0: string, b: string, d1: string, c: string, variables: seq<string>)
    requires '{' !in a && '{' !in b && '{' !in c
    requires d0 != [] && AllDigits(d0) && DecimalValue(d0) < |variables|
    requires d1 != [] && AllDigits(d1) && DecimalValue(d1) < |variables|
    ensures Format(a + ("{" + d0 + "}" + (b + ("{" + d1 + "}" + c))), variables)
         == a + variables[DecimalValue(d0)] + (b + variables[DecimalValue(d1)] + c)
  {
    FormatSkipsPlainText(c, [], variables);
    assert c + [] == c;
    FormatTextThenPlaceholder(b, d1, c, variables);
    FormatTextThenPlaceholder(a, d0, b + ("{" + d1 + "}" + c), variables);
  }

  /** The digit strings `0` and `1`, and the template regrouped around them. */
  lemma TwoPlaceholderTemplate(a: string, b: string, c: string)
    ensures AllDigits("0") && DecimalValue("0") == 0 && AllDigits("1") && DecimalValue("1") == 1
    ensures a + "{0}" + b + "{1}" + c == a + ("{" + "0" + "}" + (b + ("{" + "1" + "}" + c)))
  {
    var p0, p1 := "{" + "0" + "}", "{" + "1" + "}";
    assert p0 == "{0}" && p1 == "{1}";
    assert a + p0 + b + p1 + c == a + (p0 + (b + (p1 + c)));
  }

  /** A template with two placeholders: the substituted values are inserted
      verbatim, even when they themselves contain `{0}` or `{1}`. */
  lemma FormatTwoPlaceholders(a: string, b: string, c: string, x: string, y: string)
    requires '{' !in a && '{' !in b && '{' !in c
    ensures Format(a + "{0}" + b + "{1}" + c, [x, y]) == a + x + b + y + c
  {
    TwoPlaceholderTemplate(a, b, c);
    FormatTwoEntries(a, "0", b, "1", c, [x, y]);
    assert a + x + (b + y + c) == a + x + b + y + c;
  }

  /** `StringUtils.escapeSingleQuotes`: a backslash before every `'`. */
  function EscapeSingleQuotes(str: string): (r: string)
    ensures |r| == |str| + CountChar(str, '\'')
    ensures '\'' !in str ==> r == str
    ensures forall i :: 0 <= i < |r| && r[i] == '\'' ==> 0 < i && r[i - 1] == '\\'
  {
    if str == [] then []
    else
      var rest := EscapeSingleQuotes(str[1..]);
      assert '\'' !in str ==> '\'' !in str[1..];
      (if str[0] == '\'' then "\\'" else [str[0]]) + rest
  }

  /** The inverse reading: delete the character just before every `'`. */
  function DropBeforeQuotes(s: string): string {
    if |s| <= 1 then s
    else (if s[1] == '\'' then [] else [s[0]]) + DropBeforeQuotes(s[1..])
  }

  lemma DropBeforeQuotesCons(c: char, e: string)
    requires e == [] || e[0] != '\''
    ensures DropBeforeQuotes([c] + e) == [c] + DropBeforeQuotes(e)
  {
    if e != [] {
      assert ([c] + e)[1..] == e;
    }
  }

  /** Escaping a string never yields a quote at its start. */
  lemma EscapedStart(str: string)
    ensures EscapeSingleQuotes(str) == [] || EscapeSingleQuotes(str)[0] != '\''
  {
    var e := EscapeSingleQuotes(str);
    if e != [] && e[0] == '\'' {
      assert false;
    }
  }

  /** Escaping works one character at a time. */
  lemma EscapeCons(c: char, tail: string)
    ensures EscapeSingleQuotes([c] + tail) == (if c == '\'' then "\\'" else [c]) + EscapeSingleQuotes(tail)
  {
    assert ([c] + tail)[1..] == tail;
  }

  /** An escaped quote reads back as the quote. */
  lemma DropEscapedQuote(e: string)
    requires e == [] || e[0] != '\''
    ensures DropBeforeQuotes("\\'" + e) == "'" + DropBeforeQuotes(e)
  {
    var s := "\\'" + e;
    assert s[1..] == ['\''] + e;
    DropBeforeQuotesCons('\'', e);
  }

  /** Deleting the backslash in front of each quote gives back the input. */
  lemma {:induction false} EscapeRoundTrip(str: string)
    ensures DropBeforeQuotes(EscapeSingleQuotes(str)) == str
  {
    if str != [] {
      var c, tail := str[0], str[1..];
      assert str == [c] + tail;
      EscapeCons(c, tail);
      EscapeRoundTrip(tail);
      EscapedStart(tail);
      if c == '\'' {
        DropEscapedQuote(EscapeSingleQuotes(tail));
      } else {
        DropBeforeQuotesCons(c, EscapeSingleQuotes(tail));
      }
    }
  }
}

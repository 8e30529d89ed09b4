/**
  What the six hand-written matchers do on the inputs that show their regular
  expressions' corner cases (components/ui/CodeBlock.tsx, lines 23-28).
 */
module TokenFacts {
  import opened Escaping
  import opened Tokens

  /** `\/\/[^\n]*` runs to the end of the line, keywords included. */
  lemma CommentTakesTheLine()
    ensures MatchAt(Comment, Chars("// class"), 0) == 8
  {
    var s := Chars("// class");
    CharsAt("// class");
    LineRestStops(s, 2);
  }

  /** A backslash-escaped quote does not end a string literal: `"a\"b"` is one token. */
  lemma EscapedQuoteInString()
    ensures MatchAt(StringLit, Chars("\"a\\\"b\""), 0) == 6
  {
    var s := Chars("\"a\\\"b\"");
    CharsAt("\"a\\\"b\"");
    assert StringRun(s, 4) == 5;
    assert StringRun(s, 1) == 5;
  }

  /** `class` standing as a word is a keyword match of length 5. */
  lemma ClassIsKeyword(s: seq<Piece>, i: nat)
    requires StartsWith(s, i, "class") && WordEnds(s, i + 5) && (i == 0 || !IsWord(s[i - 1]))
    ensures MatchAt(Keyword, s, i) == 5
  {
  }

  lemma KeywordsByInitial(w: string)
    requires w in Keywords && |w| > 0 && w[0] == 'c'
    ensures w == "class"
  {
  }

  /** `\b` keeps `class` from matching the start of `classic`. */
  lemma ClassicIsPlain(s: seq<Piece>, i: nat)
    requires StartsWith(s, i, "classic")
    ensures MatchAt(Keyword, s, i) == 0
  {
    StartsWithAt(s, i, "classic", 0);
    StartsWithAt(s, i, "classic", 5);
    forall w | w in Keywords && |w| > 0 && w[0] == s[i].c
      ensures !StartsWith(s, i, w) || !WordEnds(s, i + |w|)
    {
      KeywordsByInitial(w);
    }
    FirstAlternativeMiss(Keywords, s, i, true);
  }

  lemma TypeNamesByInitial(w: string)
    requires w in TypeNames && |w| > 1 && w[0] == 'F'
    ensures w[1] != 'o'
  {
  }

  /** A name missing from the type list, such as `Foo`, is not a type match. */
  lemma FooIsPlain(s: seq<Piece>, i: nat)
    requires StartsWith(s, i, "Foo")
    ensures MatchAt(TypeName, s, i) == 0
  {
    StartsWithAt(s, i, "Foo", 0);
    StartsWithAt(s, i, "Foo", 1);
    forall w | w in TypeNames && |w| > 0 && w[0] == s[i].c
      ensures !StartsWith(s, i, w) || !WordEnds(s, i + |w|)
    {
      if |w| > 1 {
        TypeNamesByInitial(w);
      }
    }
    FirstAlternativeMiss(TypeNames, s, i, true);
  }

  /** An `=` followed by neither `=` nor `>` is no operator: every alternative that
      starts with `=` needs one of them next. */
  lemma LoneEqualsIsPlain(s: seq<Piece>, j: nat)
    requires j < |s| && s[j] == Ch('=')
    requires j + 1 == |s| || (s[j + 1] != Ch('=') && s[j + 1] != Ch('>'))
    ensures MatchAt(Operator, s, j) == 0
  {
    forall w | w in Operators && |w| > 0 && w[0] == s[j].c
      ensures !StartsWith(s, j, w)
    {
      assert w == "=>" || w == "==" || w == "===";
      if StartsWith(s, j, w) {
        StartsWithAt(s, j, w, 1);
      }
    }
    FirstAlternativeMiss(Operators, s, j, false);
  }

  /** Alternatives are tried left to right: `==` is tried before `===` and wins. The
      third `=` is then left plain unless another `=` or a `>` follows it. */
  lemma TripleEqualsTakesTwo(s: seq<Piece>, i: nat)
    requires StartsWith(s, i, "===")
    ensures MatchAt(Operator, s, i) == 2
    ensures i + 3 == |s| || (s[i + 3] != Ch('=') && s[i + 3] != Ch('>')) ==> MatchAt(Operator, s, i + 2) == 0
  {
    StartsWithAt(s, i, "===", 2);
    if i + 3 == |s| || (s[i + 3] != Ch('=') && s[i + 3] != Ch('>')) {
      LoneEqualsIsPlain(s, i + 2);
    }
    StartsWithDiffers(s, i, "===", "->", 0);
    StartsWithDiffers(s, i, "===", "=>", 1);
    assert Operators[0] == "->" && Operators[1] == "=>" && Operators[2] == "==";
    assert Operators[1..][1..] == Operators[2..];
    assert StartsWith(s, i, Operators[2..][0]);
    assert FirstAlternative(Operators[1..], s, i, false) == FirstAlternative(Operators[2..], s, i, false);
  }

  /** A word spelled at `i` in pieces without `Ch(c)` holds no `c`. */
  lemma SpelledWithout(s: seq<Piece>, c: char, i: nat, w: string)
    requires Ch(c) !in s && StartsWith(s, i, w)
    ensures c !in w
  {
    forall k | 0 <= k < |w|
      ensures w[k] != c
    {
      StartsWithAt(s, i, w, k);
      assert s[i + k] in s;
    }
  }

  /** Escaped text, as pieces, holds no `>`. */
  lemma EscapedLacksGreater(text: string)
    ensures Ch('>') !in Chars(Escape(text))
  {
    var e := Escape(text);
    CharsAt(e);
    forall k | 0 <= k < |Chars(e)|
      ensures Chars(e)[k] != Ch('>')
    {
      assert e[k] in e;
    }
  }

  /** Where no `>` is left, `->` and `=>` cannot match: every operator match is an
      alternative without `>`. */
  lemma NoArrowAfterEscape(s: seq<Piece>, i: nat)
    requires i < |s| && Ch('>') !in s
    ensures MatchAt(Operator, s, i) == 0 ||
      (exists w :: w in Operators && '>' !in w && |w| == MatchAt(Operator, s, i) && StartsWith(s, i, w))
  {
    FirstAlternativeSound(Operators, s, i, false);
    if MatchAt(Operator, s, i) > 0 {
      var w :| w in Operators && |w| == MatchAt(Operator, s, i) && StartsWith(s, i, w);
      SpelledWithout(s, '>', i, w);
    }
  }
}

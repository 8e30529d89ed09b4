/**
  The six token categories of `highlightPHP` and a hand-written matcher for each
  of their regular expressions (components/ui/CodeBlock.tsx, lines 22-29).

  The text being tokenized is a sequence of pieces: a character, or a
  placeholder standing for a token already claimed. A placeholder `##TOKEN_n##`
  holds no `$`, quote, backslash, newline, operator character or keyword, so it
  is an opaque non-word symbol here: `[^\n]`, `[^"\\]` and `.` accept it, no other
  pattern does, and `\b` treats it as a non-word character.
 */
module Tokens {

  datatype Category = Comment | StringLit | Keyword | TypeName | Variable | Operator

  /** Priority of a category: the order in which the source tries them. */
  function Rank(c: Category): nat
  {
    match c
    case Comment => 0
    case StringLit => 1
    case Keyword => 2
    case TypeName => 3
    case Variable => 4
    case Operator => 5
  }

  const Categories: seq<Category> := [Comment, StringLit, Keyword, TypeName, Variable, Operator]

  /** The `className` the span of each category carries. */
  function ClassName(c: Category): string
  {
    match c
    case Comment => "code-comment"
    case StringLit => "code-string"
    case Keyword => "code-keyword"
    case TypeName => "code-type"
    case Variable => "code-variable"
    case Operator => "code-operator"
  }

  /** A character, a placeholder `##TOKEN_id##`, or the opening or closing tag of a span. */
  datatype Piece = Ch(c: char) | Ph(id: nat) | Open(cat: Category) | Close

  /** A placeholder-table entry: the category and the matched text it stands for. */
  datatype Entry = Entry(cat: Category, content: seq<Piece>)

  function Chars(s: string): (r: seq<Piece>)
    ensures |r| == |s|
  {
    if s == [] then [] else [Ch(s[0])] + Chars(s[1..])
  }

  const Keywords: seq<string> := ["class", "interface", "extends", "implements", "function", "public",
    "private", "protected", "static", "new", "return", "if", "else", "throw", "instanceof"]

  const TypeNames: seq<string> := ["MissionHandler", "FireService", "PoliceService", "MissionLogger",
    "RescueVehicle", "MissionLauncher", "Vehicle", "Snowplow", "Cruiser", "AllTerrain", "UniversalPack",
    "FlightPack", "FirePack", "Mission", "Marshall", "Chase", "Skye", "Everest", "Zuma", "Rocky",
    "Firefighter", "string", "void", "int", "bool", "IFlightGear", "IFireGear", "FleetVehicle",
    "RyderTablet", "Exception", "Error"]

  /** The operator alternatives, in the order the regular expression tries them. */
  const Operators: seq<string> := ["->", "=>", "==", "===", "!=", "!==", ".", "+", "-", "*", "/"]

  /** `\w`: `[A-Za-z0-9_]`. */
  predicate IsWordChar(c: char)
  {
    'a' <= c <= 'z' || 'A' <= c <= 'Z' || '0' <= c <= '9' || c == '_'
  }

  predicate IsWord(p: Piece)
  {
    p.Ch? && IsWordChar(p.c)
  }

  /** The characters JavaScript's `.` does not match. */
  predicate IsLineTerminator(p: Piece)
  {
    p == Ch('\n') || p == Ch('\r') || p == Ch('\U{2028}') || p == Ch('\U{2029}')
  }

  /** The pieces `s[i..i + |w|]` spell `w`. */
  predicate StartsWith(s: seq<Piece>, i: nat, w: string)
  {
    i + |w| <= |s| && forall k :: 0 <= k < |w| ==> s[i + k] == Ch(w[k])
  }

  /** `\b` at the end of a word: position `j` is the end of `s` or holds a non-word piece. */
  predicate WordEnds(s: seq<Piece>, j: nat)
  {
    j >= |s| || !IsWord(s[j])
  }

  /** `[^\n]*` from `j`. */
  function LineRest(s: seq<Piece>, j: nat): (n: nat)
    requires j <= |s|
    ensures j + n <= |s|
    decreases |s| - j
  {
    if j == |s| || s[j] == Ch('\n') then 0 else 1 + LineRest(s, j + 1)
  }

  /** `\w*` from `j`. */
  function WordRun(s: seq<Piece>, j: nat): (n: nat)
    requires j <= |s|
    ensures j + n <= |s|
    decreases |s| - j
  {
    if j == |s| || !IsWord(s[j]) then 0 else 1 + WordRun(s, j + 1)
  }

  /** `(?:[^"\\]|\\.)*` from `j`, greedily: the index where the run stops. The two
      alternatives never compete (the next piece decides), and every piece the run
      consumes is a non-quote or follows a backslash, so a shorter run can never be
      followed by the closing quote: backtracking finds no other match. */
  function StringRun(s: seq<Piece>, j: nat): (e: nat)
    requires j <= |s|
    ensures j <= e <= |s|
    decreases |s| - j
  {
    if j == |s| || s[j] == Ch('"') then j
    else if s[j] == Ch('\\') then
      if j + 1 < |s| && !IsLineTerminator(s[j + 1]) then StringRun(s, j + 2) else j
    else StringRun(s, j + 1)
  }

  /** `(?:[^"\\]|\\.)*` matches exactly `s[j..e]`: a sequence of pieces each of which is
      neither a quote nor a backslash, or is a backslash followed by any piece but a
      line terminator. */
  predicate StringBody(s: seq<Piece>, j: nat, e: nat)
    requires j <= e <= |s|
    decreases e - j
  {
    || j == e
    || (s[j] != Ch('"') && s[j] != Ch('\\') && StringBody(s, j + 1, e))
    || (j + 1 < e && s[j] == Ch('\\') && !IsLineTerminator(s[j + 1]) && StringBody(s, j + 2, e))
  }

  /** The greedy run is a match of the body. */
  lemma {:induction false} StringRunBody(s: seq<Piece>, j: nat)
    requires j <= |s|
    ensures StringBody(s, j, StringRun(s, j))
    decreases |s| - j
  {
    if j < |s| && s[j] != Ch('"') {
      if s[j] == Ch('\\') {
        if j + 1 < |s| && !IsLineTerminator(s[j + 1]) {
          StringRunBody(s, j + 2);
        }
      } else {
        StringRunBody(s, j + 1);
      }
    }
  }

  /** The run stops at the end, at a quote, or at a backslash with nothing it may escape. */
  lemma {:induction false} StringRunStops(s: seq<Piece>, j: nat)
    requires j <= |s|
    ensures var e := StringRun(s, j);
      e == |s| || s[e] == Ch('"') || (s[e] == Ch('\\') && (e + 1 == |s| || IsLineTerminator(s[e + 1])))
    decreases |s| - j
  {
    if j < |s| && s[j] != Ch('"') {
      if s[j] == Ch('\\') {
        if j + 1 < |s| && !IsLineTerminator(s[j + 1]) {
          StringRunStops(s, j + 2);
        }
      } else {
        StringRunStops(s, j + 1);
      }
    }
  }

  /** No other body is followed by a quote: whatever body the regular expression's
      backtracking tries, a closing quote after it is the one the greedy run reaches. */
  lemma {:induction false} StringRunOnly(s: seq<Piece>, j: nat, e: nat)
    requires j <= e < |s| && StringBody(s, j, e) && s[e] == Ch('"')
    ensures StringRun(s, j) == e
    decreases e - j
  {
    if j < e {
      if s[j] == Ch('\\') {
        StringRunOnly(s, j + 2, e);
      } else {
        StringRunOnly(s, j + 1, e);
      }
    }
  }

  /** The first alternative of `alts` (tried left to right) that matches at `i`; with
      `wholeWord`, one followed by `\b`. Returns its length, or 0. */
  function FirstAlternative(alts: seq<string>, s: seq<Piece>, i: nat, wholeWord: bool): (n: nat)
    ensures n == 0 || i + n <= |s|
  {
    if alts == [] then 0
    else if |alts[0]| > 0 && StartsWith(s, i, alts[0]) && (wholeWord ==> WordEnds(s, i + |alts[0]|)) then |alts[0]|
    else FirstAlternative(alts[1..], s, i, wholeWord)
  }

  /** Alternative `w` matches at `i`: it is non-empty, spelled there, and followed by
      `\b` when whole words are asked for. */
  predicate AlternativeFits(w: string, s: seq<Piece>, i: nat, wholeWord: bool)
  {
    |w| > 0 && StartsWith(s, i, w) && (wholeWord ==> WordEnds(s, i + |w|))
  }

  /** `alts[k]` matches at `i` and no alternative listed before it does. */
  predicate EarliestFit(alts: seq<string>, s: seq<Piece>, i: nat, wholeWord: bool, k: nat)
    requires k < |alts|
  {
    AlternativeFits(alts[k], s, i, wholeWord) && forall j :: 0 <= j < k ==> !AlternativeFits(alts[j], s, i, wholeWord)
  }

  /** The alternation takes the earliest listed alternative that matches: a later one
      is never preferred, even when it is longer. */
  lemma {:induction false} FirstAlternativeEarliest(alts: seq<string>, s: seq<Piece>, i: nat, wholeWord: bool)
    ensures var n := FirstAlternative(alts, s, i, wholeWord);
      n > 0 ==> exists k: nat :: k < |alts| && n == |alts[k]| && EarliestFit(alts, s, i, wholeWord, k)
  {
    var n := FirstAlternative(alts, s, i, wholeWord);
    if alts != [] && n > 0 {
      if AlternativeFits(alts[0], s, i, wholeWord) {
        assert n == |alts[0]| && EarliestFit(alts, s, i, wholeWord, 0);
      } else {
        FirstAlternativeEarliest(alts[1..], s, i, wholeWord);
        var k: nat :| k < |alts[1..]| && n == |alts[1..][k]| && EarliestFit(alts[1..], s, i, wholeWord, k);
        forall j | 0 <= j < k + 1
          ensures !AlternativeFits(alts[j], s, i, wholeWord)
        {
          if j > 0 {
            assert alts[j] == alts[1..][j - 1];
          }
        }
        assert alts[k + 1] == alts[1..][k];
        assert EarliestFit(alts, s, i, wholeWord, k + 1);
      }
    }
  }

  /** A match of the alternation is one of its alternatives, present at `i`. */
  lemma {:induction false} FirstAlternativeSound(alts: seq<string>, s: seq<Piece>, i: nat, wholeWord: bool)
    ensures var n := FirstAlternative(alts, s, i, wholeWord);
      n == 0 || exists w :: w in alts && |w| == n && StartsWith(s, i, w) && (wholeWord ==> WordEnds(s, i + n))
  {
    if alts != [] && !(|alts[0]| > 0 && StartsWith(s, i, alts[0]) && (wholeWord ==> WordEnds(s, i + |alts[0]|))) {
      FirstAlternativeSound(alts[1..], s, i, wholeWord);
      var n := FirstAlternative(alts, s, i, wholeWord);
      if n > 0 {
        var w :| w in alts[1..] && |w| == n && StartsWith(s, i, w) && (wholeWord ==> WordEnds(s, i + n));
        assert w in alts;
      }
    }
  }

  /** Whenever some non-empty alternative is present at `i`, the alternation matches. */
  lemma {:induction false} FirstAlternativeComplete(alts: seq<string>, s: seq<Piece>, i: nat, wholeWord: bool, w: string)
    requires w in alts && |w| > 0 && StartsWith(s, i, w) && (wholeWord ==> WordEnds(s, i + |w|))
    ensures FirstAlternative(alts, s, i, wholeWord) > 0
  {
    if !(|alts[0]| > 0 && StartsWith(s, i, alts[0]) && (wholeWord ==> WordEnds(s, i + |alts[0]|))) {
      assert w in alts[1..];
      FirstAlternativeComplete(alts[1..], s, i, wholeWord, w);
    }
  }

  /** `\b(w1|w2|...)\b`: the words all begin with a word character, so `\b` at `i`
      means the piece before `i` is not a word character. */
  function WordMatch(words: seq<string>, s: seq<Piece>, i: nat): (n: nat)
    requires i < |s|
    ensures n > 0 ==> i + n <= |s| && (i == 0 || !IsWord(s[i - 1]))
  {
    if i == 0 || !IsWord(s[i - 1]) then FirstAlternative(words, s, i, true) else 0
  }

  /** A keyword or type-name match is one of the words, standing as a whole word:
      neither the piece before it nor the piece after it is a word character. */
  lemma WordMatchIsWholeWord(words: seq<string>, s: seq<Piece>, i: nat)
    requires i < |s|
    ensures WordMatch(words, s, i) == 0 ||
      (exists w :: w in words && |w| == WordMatch(words, s, i) && StartsWith(s, i, w)
        && (i == 0 || !IsWord(s[i - 1])) && WordEnds(s, i + |w|))
  {
    FirstAlternativeSound(words, s, i, true);
  }

  /** The length of the match of category `cat`'s pattern that starts at `i`, or 0
      when none does (no pattern matches the empty text). */
  function MatchAt(cat: Category, s: seq<Piece>, i: nat): (n: nat)
    requires i < |s|
    ensures i + n <= |s|
  {
    match cat
    case Comment =>
      // `\/\/[^\n]*`
      if i + 1 < |s| && s[i] == Ch('/') && s[i + 1] == Ch('/') then 2 + LineRest(s, i + 2) else 0
    case StringLit =>
      // `"(?:[^"\\]|\\.)*"`
      if s[i] == Ch('"') then
        var e := StringRun(s, i + 1);
        if e < |s| && s[e] == Ch('"') then e + 1 - i else 0
      else 0
    case Keyword => WordMatch(Keywords, s, i)
    case TypeName => WordMatch(TypeNames, s, i)
    case Variable =>
      // `\$[a-zA-Z_]\w*`
      if i + 1 < |s| && s[i] == Ch('$') && s[i + 1].Ch? && IsWordChar(s[i + 1].c) && !('0' <= s[i + 1].c <= '9')
      then 2 + WordRun(s, i + 2)
      else 0
    case Operator => FirstAlternative(Operators, s, i, false)
  }

  /** The string-literal matcher finds exactly the matches of `"(?:[^"\\]|\\.)*"` at `i`:
      a match is a quote, a body and a quote, and any such text is the match. */
  lemma StringLitMatch(s: seq<Piece>, i: nat)
    requires i < |s|
    ensures var n := MatchAt(StringLit, s, i);
      n > 0 ==> i + 1 < i + n && s[i] == Ch('"') && StringBody(s, i + 1, i + n - 1) && s[i + n - 1] == Ch('"')
    ensures forall e :: i < e < |s| && s[i] == Ch('"') && StringBody(s, i + 1, e) && s[e] == Ch('"') ==>
      MatchAt(StringLit, s, i) == e + 1 - i
  {
    StringRunBody(s, i + 1);
    forall e | i < e < |s| && s[i] == Ch('"') && StringBody(s, i + 1, e) && s[e] == Ch('"')
      ensures MatchAt(StringLit, s, i) == e + 1 - i
    {
      StringRunOnly(s, i + 1, e);
    }
  }

  lemma {:induction false} CharsAt(s: string)
    ensures forall i :: 0 <= i < |s| ==> Chars(s)[i] == Ch(s[i])
  {
    if s != [] {
      CharsAt(s[1..]);
      assert Chars(s) == [Ch(s[0])] + Chars(s[1..]);
    }
  }

  /** `[^\n]*` consumes every piece up to the next newline, or to the end. */
  lemma {:induction false} LineRestStops(s: seq<Piece>, j: nat)
    requires j <= |s|
    ensures forall k :: j <= k < j + LineRest(s, j) ==> s[k] != Ch('\n')
    ensures j + LineRest(s, j) == |s| || s[j + LineRest(s, j)] == Ch('\n')
    decreases |s| - j
  {
    if j < |s| && s[j] != Ch('\n') {
      LineRestStops(s, j + 1);
    }
  }

  /** `\w*` consumes every word piece up to the first non-word piece, or to the end. */
  lemma {:induction false} WordRunStops(s: seq<Piece>, j: nat)
    requires j <= |s|
    ensures forall k :: j <= k < j + WordRun(s, j) ==> IsWord(s[k])
    ensures WordEnds(s, j + WordRun(s, j))
    decreases |s| - j
  {
    if j < |s| && IsWord(s[j]) {
      WordRunStops(s, j + 1);
    }
  }

  lemma StartsWithAt(s: seq<Piece>, i: nat, w: string, k: nat)
    requires StartsWith(s, i, w) && k < |w|
    ensures s[i + k] == Ch(w[k])
  {
  }

  /** Two words that differ at some position cannot both be spelled at `i`. */
  lemma StartsWithDiffers(s: seq<Piece>, i: nat, v: string, w: string, k: nat)
    requires StartsWith(s, i, v) && k < |v| && k < |w| && v[k] != w[k]
    ensures !StartsWith(s, i, w)
  {
    StartsWithAt(s, i, v, k);
  }

  /** The alternation fails at `i` when every alternative that begins with the
      character at `i` fails there. */
  lemma {:induction false} FirstAlternativeMiss(alts: seq<string>, s: seq<Piece>, i: nat, wholeWord: bool)
    requires i < |s| && s[i].Ch?
    requires forall w :: w in alts && |w| > 0 && w[0] == s[i].c ==>
      !StartsWith(s, i, w) || (wholeWord && !WordEnds(s, i + |w|))
    ensures FirstAlternative(alts, s, i, wholeWord) == 0
  {
    if alts != [] {
      assert alts[0] in alts;
      forall w | w in alts[1..] ensures w in alts { }
      FirstAlternativeMiss(alts[1..], s, i, wholeWord);
    }
  }
}

/**
  The string `highlightPHP` returns: pieces rendered as text, with each span
  written as `<span class="...">` ... `</span>`; and the inverse view that deletes
  those tags again.
 */
module Markup {
  import opened Tokens
  import opened Placeholders

  /** Decimal digits of `n`, as a template literal prints a number. */
  function Digits(n: nat): (r: string)
    ensures |r| > 0 && forall k :: 0 <= k < |r| ==> '0' <= r[k] <= '9'
  {
    if n < 10 then [('0' as int + n) as char] else Digits(n / 10) + [('0' as int + n % 10) as char]
  }

  function OpenTag(c: Category): string
  {
    "<span class=\"" + ClassName(c) + "\">"
  }

  const CloseTag: string := "</span>"

  /** The text of the pieces: the pieces rendered as a string. */
  function Render(p: seq<Piece>): string
  {
    if p == [] then []
    else
      var head := match p[0]
        case Ch(c) => [c]
        case Ph(id) => "##TOKEN_" + Digits(id) + "##"
        case Open(c) => OpenTag(c)
        case Close => CloseTag;
      head + Render(p[1..])
  }

  /** The characters of the pieces, without tags or placeholders. */
  function TextOf(p: seq<Piece>): string
  {
    if p == [] then [] else (if p[0].Ch? then [p[0].c] else []) + TextOf(p[1..])
  }

  /** The index just after the first `>` at or after `j`, or the end of `s`. */
  function TagEnd(s: string, j: nat): (e: nat)
    requires j <= |s|
    ensures j <= e <= |s|
    decreases |s| - j
  {
    if j == |s| then j else if s[j] == '>' then j + 1 else TagEnd(s, j + 1)
  }

  /** Deletes every tag `<...>` from `s`, keeping all other characters in order. */
  function StripMarkup(s: string): string
    decreases |s|
  {
    if s == [] then []
    else if s[0] == '<' then StripMarkup(s[TagEnd(s, 1)..])
    else [s[0]] + StripMarkup(s[1..])
  }

  lemma {:induction false} TextOfAppend(a: seq<Piece>, b: seq<Piece>)
    ensures TextOf(a + b) == TextOf(a) + TextOf(b)
  {
    if a == [] {
      assert a + b == b;
    } else {
      assert (a + b)[0] == a[0] && (a + b)[1..] == a[1..] + b;
      TextOfAppend(a[1..], b);
    }
  }

  lemma {:induction false} TextOfChars(s: string)
    ensures TextOf(Chars(s)) == s
  {
    if s != [] {
      assert Chars(s)[1..] == Chars(s[1..]);
      TextOfChars(s[1..]);
      assert s == [s[0]] + s[1..];
    }
  }

  lemma {:induction false} RenderChars(s: string)
    ensures Render(Chars(s)) == s
  {
    if s != [] {
      assert Chars(s)[1..] == Chars(s[1..]);
      RenderChars(s[1..]);
      assert s == [s[0]] + s[1..];
    }
  }

  lemma {:induction false} TagEndIn(tag: string, rest: string, j: nat)
    requires 1 <= j < |tag| && tag[|tag| - 1] == '>'
    requires forall k :: 1 <= k < |tag| - 1 ==> tag[k] != '>'
    ensures TagEnd(tag + rest, j) == |tag|
    decreases |tag| - j
  {
    if j < |tag| - 1 {
      TagEndIn(tag, rest, j + 1);
    }
  }

  /** A tag with no `>` before its last character is deleted whole. */
  lemma TagDeleted(tag: string, rest: string)
    requires |tag| >= 2 && tag[0] == '<' && tag[|tag| - 1] == '>'
    requires forall k :: 1 <= k < |tag| - 1 ==> tag[k] != '>'
    ensures StripMarkup(tag + rest) == StripMarkup(rest)
  {
    TagEndIn(tag, rest, 1);
    assert (tag + rest)[|tag|..] == rest;
  }

  lemma OpenTagShape(c: Category)
    ensures |OpenTag(c)| >= 2 && OpenTag(c)[0] == '<' && OpenTag(c)[|OpenTag(c)| - 1] == '>'
    ensures forall k :: 1 <= k < |OpenTag(c)| - 1 ==> OpenTag(c)[k] != '>'
  {
    var t := OpenTag(c);
    assert '>' !in ClassName(c);
    assert t == "<span class=\"" + ClassName(c) + "\">";
    forall k | 1 <= k < |t| - 1
      ensures t[k] != '>'
    {
      if k < 13 {
        assert t[k] == "<span class=\""[k];
      } else if k < 13 + |ClassName(c)| {
        assert t[k] == ClassName(c)[k - 13];
      } else {
        assert t[k] == '"';
      }
    }
  }

  /** Deleting the tags from the rendered pieces leaves exactly their characters,
      provided no character is itself a `<` and no placeholder is left. */
  lemma {:induction false} StripRender(p: seq<Piece>)
    requires Phs(p) == multiset{} && '<' !in TextOf(p)
    ensures StripMarkup(Render(p)) == TextOf(p)
  {
    if p != [] {
      var rest := Render(p[1..]);
      assert Phs(p[1..]) == multiset{} && !p[0].Ph?;
      assert '<' !in TextOf(p[1..]);
      StripRender(p[1..]);
      match p[0]
      case Ch(c) =>
        assert c != '<';
        assert ([c] + rest)[1..] == rest;
      case Open(c) =>
        OpenTagShape(c);
        TagDeleted(OpenTag(c), rest);
      case Close =>
        TagDeleted(CloseTag, rest);
    }
  }
}

/**
  The first phase of `highlightPHP`: three global `String.replace` calls that
  turn `&`, `<` and `>` into HTML entities, ampersand first.
 */
module Escaping {

  /** `s.replace(/c/g, rep)` for a one-character pattern: every `c` becomes `rep`. */
  function ReplaceAll(s: string, c: char, rep: string): (r: string)
    ensures c !in rep ==> c !in r
    ensures forall d :: d in r && d !in rep ==> d in s && d != c
  {
    if s == [] then []
    else (if s[0] == c then rep else [s[0]]) + ReplaceAll(s[1..], c, rep)
  }

  /** The source's escape chain, in the source's order. */
  function Escape(s: string): (r: string)
    ensures '<' !in r && '>' !in r
  {
    ReplaceAll(ReplaceAll(ReplaceAll(s, '&', "&amp;"), '<', "&lt;"), '>', "&gt;")
  }

  /** What escaping does to one character. */
  function EscapeChar(c: char): string
  {
    if c == '&' then "&amp;"
    else if c == '<' then "&lt;"
    else if c == '>' then "&gt;"
    else [c]
  }

  /** Escaping character by character: the reference the chain is compared with. */
  function EscapeEach(s: string): string
  {
    if s == [] then [] else EscapeChar(s[0]) + EscapeEach(s[1..])
  }

  /** `r[i..]` begins with one of the three entities escaping produces. */
  predicate EntityAt(r: string, i: nat)
    requires i < |r|
  {
    var t := r[i..];
    (|t| >= 5 && t[..5] == "&amp;") || (|t| >= 4 && t[..4] == "&lt;") || (|t| >= 4 && t[..4] == "&gt;")
  }

  /** Decoding of the three entities; the inverse of escaping. */
  function Unescape(s: string): string
  {
    if |s| >= 5 && s[..5] == "&amp;" then "&" + Unescape(s[5..])
    else if |s| >= 4 && s[..4] == "&lt;" then "<" + Unescape(s[4..])
    else if |s| >= 4 && s[..4] == "&gt;" then ">" + Unescape(s[4..])
    else if s == [] then []
    else [s[0]] + Unescape(s[1..])
  }

  lemma {:induction false} ReplaceAllAppend(a: string, b: string, c: char, rep: string)
    ensures ReplaceAll(a + b, c, rep) == ReplaceAll(a, c, rep) + ReplaceAll(b, c, rep)
  {
    if a != [] {
      assert (a + b)[1..] == a[1..] + b;
      ReplaceAllAppend(a[1..], b, c, rep);
    } else {
      assert a + b == b;
    }
  }

  lemma {:induction false} ReplaceAllAbsent(s: string, c: char, rep: string)
    requires c !in s
    ensures ReplaceAll(s, c, rep) == s
  {
    if s != [] {
      assert s[0] != c;
      assert forall d :: d in s[1..] ==> d in s;
      ReplaceAllAbsent(s[1..], c, rep);
      assert s == [s[0]] + s[1..];
    }
  }

  lemma ReplaceAllSingle(c: char, d: char, rep: string)
    ensures ReplaceAll([c], d, rep) == if c == d then rep else [c]
  {
    assert [c][1..] == [];
  }

  lemma EscapeOneCharacter(c: char)
    ensures ReplaceAll(ReplaceAll(ReplaceAll([c], '&', "&amp;"), '<', "&lt;"), '>', "&gt;") == EscapeChar(c)
  {
    ReplaceAllSingle(c, '&', "&amp;");
    if c == '&' {
      ReplaceAllAbsent("&amp;", '<', "&lt;");
      ReplaceAllAbsent("&amp;", '>', "&gt;");
    } else {
      ReplaceAllSingle(c, '<', "&lt;");
      if c == '<' {
        ReplaceAllAbsent("&lt;", '>', "&gt;");
      } else {
        ReplaceAllSingle(c, '>', "&gt;");
      }
    }
  }

  /** Replacing `&`, then `<`, then `>` is the same as escaping each character on its own:
      because `&` goes first, no entity is escaped twice. */
  lemma {:induction false} EscapeIsPerCharacter(s: string)
    ensures Escape(s) == EscapeEach(s)
  {
    if s != [] {
      var head, tail := [s[0]], s[1..];
      assert s == head + tail;
      ReplaceAllAppend(head, tail, '&', "&amp;");
      var r1h, r1t := ReplaceAll(head, '&', "&amp;"), ReplaceAll(tail, '&', "&amp;");
      ReplaceAllAppend(r1h, r1t, '<', "&lt;");
      var r2h, r2t := ReplaceAll(r1h, '<', "&lt;"), ReplaceAll(r1t, '<', "&lt;");
      ReplaceAllAppend(r2h, r2t, '>', "&gt;");
      EscapeOneCharacter(s[0]);
      EscapeIsPerCharacter(tail);
    }
  }

  lemma {:induction false} EscapeEachSafe(s: string)
    ensures '<' !in EscapeEach(s) && '>' !in EscapeEach(s)
    ensures forall i :: 0 <= i < |EscapeEach(s)| && EscapeEach(s)[i] == '&' ==> EntityAt(EscapeEach(s), i)
  {
    if s != [] {
      EscapeEachSafe(s[1..]);
      var h, t := EscapeChar(s[0]), EscapeEach(s[1..]);
      var r := h + t;
      assert EscapeEach(s) == r;
      forall i | 0 <= i < |r| && r[i] == '&'
        ensures EntityAt(r, i)
      {
        if i < |h| {
          assert i == 0;
          assert r[i..] == h + t;
        } else {
          assert t[i - |h|] == '&';
          assert EntityAt(t, i - |h|);
          assert r[i..] == t[i - |h|..];
        }
      }
    }
  }

  /** Escaped text holds no raw `<` or `>`, and every `&` in it begins `&amp;`, `&lt;` or `&gt;`. */
  lemma EscapeSafe(s: string)
    ensures '<' !in Escape(s) && '>' !in Escape(s)
    ensures forall i :: 0 <= i < |Escape(s)| && Escape(s)[i] == '&' ==> EntityAt(Escape(s), i)
  {
    EscapeIsPerCharacter(s);
    EscapeEachSafe(s);
  }

  lemma {:induction false} UnescapeEscapeEach(s: string)
    ensures Unescape(EscapeEach(s)) == s
  {
    if s != [] {
      UnescapeEscapeEach(s[1..]);
      var h, t := EscapeChar(s[0]), EscapeEach(s[1..]);
      assert EscapeEach(s) == h + t;
      assert s == [s[0]] + s[1..];
      if s[0] == '&' {
        assert (h + t)[..5] == "&amp;" && (h + t)[5..] == t;
        assert Unescape(h + t) == "&" + Unescape(t);
      } else if s[0] == '<' {
        assert (h + t)[..4] == "&lt;" && (h + t)[4..] == t;
        assert |h + t| >= 5 ==> (h + t)[..5][1] == 'l';
        assert Unescape(h + t) == "<" + Unescape(t);
      } else if s[0] == '>' {
        assert (h + t)[..4] == "&gt;" && (h + t)[4..] == t;
        assert |h + t| >= 5 ==> (h + t)[..5][1] == 'g';
        assert (h + t)[..4][1] == 'g';
        assert Unescape(h + t) == ">" + Unescape(t);
      } else {
        assert h + t == [s[0]] + t;
        assert (h + t)[0] == s[0] && (h + t)[1..] == t;
        assert |h + t| >= 5 ==> (h + t)[..5][0] == s[0];
        assert |h + t| >= 4 ==> (h + t)[..4][0] == s[0];
        assert Unescape(h + t) == [s[0]] + Unescape(t);
      }
    }
  }

  /** Escaping loses nothing: decoding the entities gives back the input. */
  lemma EscapeRoundTrip(s: string)
    ensures Unescape(Escape(s)) == s
  {
    EscapeIsPerCharacter(s);
    UnescapeEscapeEach(s);
  }

  /** Text without `&`, `<` and `>` is left as it is. */
  lemma {:induction false} EscapeIdentity(s: string)
    requires '&' !in s && '<' !in s && '>' !in s
    ensures Escape(s) == s
  {
    EscapeIsPerCharacter(s);
    if s != [] {
      assert s[0] in s;
      assert forall d :: d in s[1..] ==> d in s;
      EscapeIdentity(s[1..]);
      EscapeIsPerCharacter(s[1..]);
      assert s == [s[0]] + s[1..];
    }
  }
}

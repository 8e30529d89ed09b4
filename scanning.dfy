/**
  One protect pass of `highlightPHP` (components/ui/CodeBlock.tsx, lines 35-41):
  `escaped.replace(token.regex, callback)` for one category, where the callback
  numbers each match with `tokenCounter` and records it in the placeholder table.

  The pass is stated over the match lengths of the category's pattern at every
  position of the text (`Matches`), so that what is proved about it depends only
  on where matches start and how long they are.
 */
module Scanning {
  import opened Tokens
  import opened Placeholders
  import opened Markup

  /** Every match length keeps the match inside the text. */
  predicate Fits(ms: seq<nat>)
  {
    forall k :: 0 <= k < |ms| ==> k + ms[k] <= |ms|
  }

  /** The length of the match of `cat`'s pattern at every position of `s` from `j` on. */
  function MatchesFrom(cat: Category, s: seq<Piece>, j: nat): (ms: seq<nat>)
    requires j <= |s|
    ensures |ms| == |s| - j && Fits(ms)
    decreases |s| - j
  {
    if j == |s| then [] else [MatchAt(cat, s, j)] + MatchesFrom(cat, s, j + 1)
  }

  /** The length of the match of `cat`'s pattern at every position of `s` (0: none). */
  function Matches(cat: Category, s: seq<Piece>): (ms: seq<nat>)
    ensures |ms| == |s| && Fits(ms)
  {
    MatchesFrom(cat, s, 0)
  }

  lemma {:induction false} MatchesFromAt(cat: Category, s: seq<Piece>, j: nat, k: nat)
    requires j <= k < |s|
    ensures MatchesFrom(cat, s, j)[k - j] == MatchAt(cat, s, k)
    decreases k - j
  {
    if k > j {
      MatchesFromAt(cat, s, j + 1, k);
    }
  }

  lemma MatchesAt(cat: Category, s: seq<Piece>, k: nat)
    requires k < |s|
    ensures Matches(cat, s)[k] == MatchAt(cat, s, k)
  {
    MatchesFromAt(cat, s, 0, k);
  }

  /** The text after the pass over `s`, whose match lengths are `ms`: the leftmost
      match is taken first, matches do not overlap, and each match becomes the next
      placeholder, numbered from `next` on; every other piece is copied. */
  function Scan(ms: seq<nat>, s: seq<Piece>, next: nat): seq<Piece>
    requires |ms| == |s| && Fits(ms)
    decreases |s|
  {
    if s == [] then []
    else if ms[0] > 0 then [Ph(next)] + Scan(ms[ms[0]..], s[ms[0]..], next + 1)
    else [s[0]] + Scan(ms[1..], s[1..], next)
  }

  /** The entries the callback records during that pass, one per match, in order. */
  function ScanSpans(cat: Category, ms: seq<nat>, s: seq<Piece>): seq<Entry>
    requires |ms| == |s| && Fits(ms)
    decreases |s|
  {
    if s == [] then []
    else if ms[0] > 0 then [Entry(cat, s[..ms[0]])] + ScanSpans(cat, ms[ms[0]..], s[ms[0]..])
    else ScanSpans(cat, ms[1..], s[1..])
  }

  lemma FitsFrom(ms: seq<nat>, i: nat)
    requires Fits(ms) && i <= |ms|
    ensures Fits(ms[i..])
  {
    forall k | 0 <= k < |ms[i..]|
      ensures k + ms[i..][k] <= |ms[i..]|
    {
      assert ms[i..][k] == ms[i + k];
    }
  }

  lemma Associative<T>(a: seq<T>, b: seq<T>, c: seq<T>)
    ensures a + (b + c) == (a + b) + c
  {
  }

  lemma SliceJoin<T>(s: seq<T>, m: nat)
    requires m <= |s|
    ensures s == s[..m] + s[m..]
  {
  }

  lemma SliceOfSlice<T>(s: seq<T>, i: nat, m: nat)
    requires i + m <= |s|
    ensures s[i..][..m] == s[i..i + m] && s[i..][m..] == s[i + m..]
  {
  }

  /** A step of the pass at position `i` that takes a match of length `m`: `ms` and
      `text` are the whole match lengths and text, `out` and `added` what has been
      produced before `i`, towards the pass's result `whole` and entries `spans`. */
  lemma ScanMatchStep(cat: Category, ms: seq<nat>, text: seq<Piece>, i: nat, m: nat, next: nat,
                      out: seq<Piece>, added: seq<Entry>, whole: seq<Piece>, spans: seq<Entry>)
    requires |ms| == |text| && Fits(ms) && i < |text| && ms[i] == m > 0 && Fits(ms[i..])
    requires out + Scan(ms[i..], text[i..], next) == whole
    requires added + ScanSpans(cat, ms[i..], text[i..]) == spans
    ensures i + m <= |text| && Fits(ms[i + m..])
    ensures (out + [Ph(next)]) + Scan(ms[i + m..], text[i + m..], next + 1) == whole
    ensures (added + [Entry(cat, text[i..i + m])]) + ScanSpans(cat, ms[i + m..], text[i + m..]) == spans
  {
    FitsFrom(ms, i + m);
    SliceOfSlice(ms, i, m);
    SliceOfSlice(text, i, m);
    assert ms[i..][0] == m;
    Associative(out, [Ph(next)], Scan(ms[i + m..], text[i + m..], next + 1));
    Associative(added, [Entry(cat, text[i..i + m])], ScanSpans(cat, ms[i + m..], text[i + m..]));
  }

  /** A step of the pass at position `i` that copies the piece there. */
  lemma ScanCopyStep(cat: Category, ms: seq<nat>, text: seq<Piece>, i: nat, next: nat,
                     out: seq<Piece>, added: seq<Entry>, whole: seq<Piece>, spans: seq<Entry>)
    requires |ms| == |text| && Fits(ms) && i < |text| && ms[i] == 0 && Fits(ms[i..])
    requires out + Scan(ms[i..], text[i..], next) == whole
    requires added + ScanSpans(cat, ms[i..], text[i..]) == spans
    ensures Fits(ms[i + 1..])
    ensures (out + [text[i]]) + Scan(ms[i + 1..], text[i + 1..], next) == whole
    ensures added + ScanSpans(cat, ms[i + 1..], text[i + 1..]) == spans
  {
    FitsFrom(ms, i + 1);
    SliceOfSlice(ms, i, 1);
    SliceOfSlice(text, i, 1);
    assert ms[i..][0] == 0 && text[i..][0] == text[i];
    Associative(out, [text[i]], Scan(ms[i + 1..], text[i + 1..], next));
  }

  /** The text after the pass of category `cat`, its first placeholder being `next`. */
  function Tokenized(cat: Category, s: seq<Piece>, next: nat): seq<Piece>
  {
    Scan(Matches(cat, s), s, next)
  }

  /** The entries the pass of category `cat` adds to the table. */
  function Spans(cat: Category, s: seq<Piece>): seq<Entry>
  {
    ScanSpans(cat, Matches(cat, s), s)
  }

  /** What the pass makes of `s[i..]` when it reaches position `i` of `s`. */
  function TokenizedFrom(cat: Category, s: seq<Piece>, i: nat, next: nat): seq<Piece>
    requires i <= |s|
  {
    FitsFrom(Matches(cat, s), i);
    Scan(Matches(cat, s)[i..], s[i..], next)
  }

  /** The entries the pass records from position `i` of `s` on. */
  function SpansFrom(cat: Category, s: seq<Piece>, i: nat): seq<Entry>
    requires i <= |s|
  {
    FitsFrom(Matches(cat, s), i);
    ScanSpans(cat, Matches(cat, s)[i..], s[i..])
  }

  /** At position 0 the rest of the pass is the whole pass; at the end it is empty. */
  lemma PassEnds(cat: Category, s: seq<Piece>, next: nat)
    ensures TokenizedFrom(cat, s, 0, next) == Tokenized(cat, s, next) && SpansFrom(cat, s, 0) == Spans(cat, s)
    ensures TokenizedFrom(cat, s, |s|, next) == [] && SpansFrom(cat, s, |s|) == []
  {
    assert Matches(cat, s)[0..] == Matches(cat, s) && s[0..] == s;
    assert s[|s|..] == [];
  }

  /** The step of the pass at `i` where a match of length `m` starts. */
  lemma PassMatchStep(cat: Category, text: seq<Piece>, i: nat, m: nat, next: nat,
                      out: seq<Piece>, added: seq<Entry>, whole: seq<Piece>, spans: seq<Entry>)
    requires i < |text| && Matches(cat, text)[i] == m > 0
    requires out + TokenizedFrom(cat, text, i, next) == whole && added + SpansFrom(cat, text, i) == spans
    ensures i + m <= |text|
    ensures (out + [Ph(next)]) + TokenizedFrom(cat, text, i + m, next + 1) == whole
    ensures (added + [Entry(cat, text[i..i + m])]) + SpansFrom(cat, text, i + m) == spans
  {
    var ms := Matches(cat, text);
    FitsFrom(ms, i);
    ScanMatchStep(cat, ms, text, i, m, next, out, added, whole, spans);
  }

  /** The step of the pass at `i` where no match starts. */
  lemma PassCopyStep(cat: Category, text: seq<Piece>, i: nat, next: nat,
                     out: seq<Piece>, added: seq<Entry>, whole: seq<Piece>, spans: seq<Entry>)
    requires i < |text| && Matches(cat, text)[i] == 0
    requires out + TokenizedFrom(cat, text, i, next) == whole && added + SpansFrom(cat, text, i) == spans
    ensures (out + [text[i]]) + TokenizedFrom(cat, text, i + 1, next) == whole
    ensures added + SpansFrom(cat, text, i + 1) == spans
  {
    var ms := Matches(cat, text);
    FitsFrom(ms, i);
    ScanCopyStep(cat, ms, text, i, next, out, added, whole, spans);
  }

  // ---------------------------------------------------------------------------
  // Counting placeholders

  /** The ids `n .. n + k - 1`, each once. */
  function Fresh(n: nat, k: nat): multiset<nat>
    decreases k
  {
    if k == 0 then multiset{} else multiset{n} + Fresh(n + 1, k - 1)
  }

  lemma {:induction false} FreshCount(n: nat, k: nat)
    ensures forall j: nat :: Fresh(n, k)[j] == if n <= j < n + k then 1 else 0
    decreases k
  {
    if k > 0 {
      FreshCount(n + 1, k - 1);
      forall j: nat
        ensures Fresh(n, k)[j] == if n <= j < n + k then 1 else 0
      {
        assert Fresh(n, k)[j] == multiset{n}[j] + Fresh(n + 1, k - 1)[j];
      }
    }
  }

  lemma IdsFresh(n: nat, k: nat, m: nat)
    requires m == n + k
    ensures Ids(n) + Fresh(n, k) == Ids(m)
  {
    FreshCount(n, k);
    IdsCount(n);
    IdsCount(m);
    forall j: nat
      ensures (Ids(n) + Fresh(n, k))[j] == Ids(m)[j]
    {
    }
  }

  lemma PhsAllSingle(e: Entry)
    ensures PhsAll([e]) == Phs(e.content)
  {
    assert [e][..0] == [];
  }

  /** Multiset arithmetic of the counting steps: adding `n` to the text side and `c`
      to both sides keeps a balance. */
  lemma Rebalance(n: multiset<nat>, c: multiset<nat>, a: multiset<nat>, b: multiset<nat>, d: multiset<nat>,
                  f: multiset<nat>, w: multiset<nat>, e: multiset<nat>, i: multiset<nat>, g: multiset<nat>)
    requires a + b == d + f && w == n + a && e == c + b && i == c + d && g == n + f
    ensures w + e == i + g
  {
    forall j
      ensures (w + e)[j] == (i + g)[j]
    {
      assert (a + b)[j] == (d + f)[j];
    }
  }

  lemma AddToBoth(c: multiset<nat>, a: multiset<nat>, b: multiset<nat>, d: multiset<nat>, f: multiset<nat>,
                  w: multiset<nat>, i: multiset<nat>)
    requires a + b == d + f && w == c + a && i == c + d
    ensures w + b == i + f
  {
    forall j
      ensures (w + b)[j] == (i + f)[j]
    {
      assert (a + b)[j] == (d + f)[j];
    }
  }

  /** The counting step for a match. */
  lemma CountMatch(whole: seq<Piece>, out: seq<Piece>, entries: seq<Entry>, sp: seq<Entry>,
                   input: seq<Piece>, rest: seq<Piece>, e: Entry, next: nat)
    requires whole == [Ph(next)] + out && entries == [e] + sp && input == e.content + rest
    requires Phs(out) + PhsAll(sp) == Phs(rest) + Fresh(next + 1, |sp|)
    ensures Phs(whole) + PhsAll(entries) == Phs(input) + Fresh(next, |entries|)
  {
    PhsAppend([Ph(next)], out);
    PhsSingle(Ph(next));
    PhsAllAppend([e], sp);
    PhsAllSingle(e);
    PhsAppend(e.content, rest);
    assert Fresh(next, |entries|) == multiset{next} + Fresh(next + 1, |sp|);
    Rebalance(multiset{next}, Phs(e.content), Phs(out), PhsAll(sp), Phs(rest), Fresh(next + 1, |sp|),
      Phs(whole), PhsAll(entries), Phs(input), Fresh(next, |entries|));
  }

  /** The counting step for a copied piece. */
  lemma CountCopy(whole: seq<Piece>, out: seq<Piece>, sp: seq<Entry>, input: seq<Piece>, rest: seq<Piece>, x: Piece, next: nat)
    requires whole == [x] + out && input == [x] + rest
    requires Phs(out) + PhsAll(sp) == Phs(rest) + Fresh(next, |sp|)
    ensures Phs(whole) + PhsAll(sp) == Phs(input) + Fresh(next, |sp|)
  {
    PhsAppend([x], out);
    PhsAppend([x], rest);
    AddToBoth(Phs([x]), Phs(out), PhsAll(sp), Phs(rest), Fresh(next, |sp|), Phs(whole), Phs(input));
  }

  /** Counting the placeholders of a pass: the new ones are `next ..`, each once,
      and the entries take over the placeholders of the text they hold. */
  lemma {:induction false} ScanCounts(cat: Category, ms: seq<nat>, s: seq<Piece>, next: nat)
    requires |ms| == |s| && Fits(ms)
    ensures Phs(Scan(ms, s, next)) + PhsAll(ScanSpans(cat, ms, s)) == Phs(s) + Fresh(next, |ScanSpans(cat, ms, s)|)
    decreases |s|
  {
    if s == [] {
    } else if ms[0] > 0 {
      var m := ms[0];
      ScanCounts(cat, ms[m..], s[m..], next + 1);
      assert s == s[..m] + s[m..];
      CountMatch(Scan(ms, s, next), Scan(ms[m..], s[m..], next + 1), ScanSpans(cat, ms, s), ScanSpans(cat, ms[m..], s[m..]),
        s, s[m..], Entry(cat, s[..m]), next);
    } else {
      ScanCounts(cat, ms[1..], s[1..], next);
      assert s == [s[0]] + s[1..];
      CountCopy(Scan(ms, s, next), Scan(ms[1..], s[1..], next), ScanSpans(cat, ms, s), s, s[1..], s[0], next);
    }
  }

  /** Every entry of a pass has the pass's category and holds text of the input. */
  lemma {:induction false} ScanSpansHoldInput(cat: Category, ms: seq<nat>, s: seq<Piece>)
    requires |ms| == |s| && Fits(ms)
    ensures forall e :: e in ScanSpans(cat, ms, s) ==> e.cat == cat && Phs(e.content) <= Phs(s)
    decreases |s|
  {
    if s != [] {
      var step := if ms[0] > 0 then ms[0] else 1;
      var rest := ScanSpans(cat, ms[step..], s[step..]);
      ScanSpansHoldInput(cat, ms[step..], s[step..]);
      assert s == s[..step] + s[step..];
      PhsAppend(s[..step], s[step..]);
      assert Phs(s[..step]) <= Phs(s) && Phs(s[step..]) <= Phs(s);
      if ms[0] > 0 {
        assert ScanSpans(cat, ms, s) == [Entry(cat, s[..step])] + rest;
      } else {
        assert ScanSpans(cat, ms, s) == rest;
      }
    }
  }

  // ---------------------------------------------------------------------------
  // Keeping the text

  lemma TextOfSpan(c: Category, inner: seq<Piece>)
    ensures TextOf([Open(c)] + inner + [Close]) == TextOf(inner)
  {
    TextOfAppend([Open(c)] + inner, [Close]);
    TextOfAppend([Open(c)], inner);
    assert TextOf([Open(c)]) == [] by { assert [Open(c)][1..] == []; }
    assert TextOf([Close]) == [] by { assert [Close][1..] == []; }
  }

  lemma IdsBelowParts(a: seq<Piece>, b: seq<Piece>, n: nat)
    requires IdsBelow(a + b, n)
    ensures IdsBelow(a, n) && IdsBelow(b, n)
  {
    PhsAppend(a, b);
    assert forall j :: j in Phs(a) || j in Phs(b) ==> j in Phs(a + b);
  }

  /** The text-keeping step for a match. */
  lemma KeepMatch(whole: seq<Piece>, out: seq<Piece>, u: seq<Entry>, table: seq<Entry>, sp: seq<Entry>,
                  input: seq<Piece>, rest: seq<Piece>, e: Entry)
    requires whole == [Ph(|table|)] + out && u == table + [e] + sp && input == e.content + rest
    requires IdsBelow(rest, |table|)
    requires TextOf(Expand(out, u)) == TextOf(Expand(rest, table + [e]))
    ensures TextOf(Expand(whole, u)) == TextOf(Expand(input, table))
  {
    var t1 := table + [e];
    assert t1[..|table|] == table;
    ExpandPrefixTable(rest, t1, |table|);
    ExpandAppend([Ph(|table|)], out, u);
    ExpandSingle(Ph(|table|), u);
    assert u[|table|] == e && u[..|table|] == table;
    var inner := Expand(e.content, table);
    TextOfSpan(e.cat, inner);
    TextOfAppend([Open(e.cat)] + inner + [Close], Expand(out, u));
    ExpandAppend(e.content, rest, table);
    TextOfAppend(inner, Expand(rest, table));
  }

  /** The text-keeping step for a copied piece. */
  lemma KeepCopy(whole: seq<Piece>, out: seq<Piece>, u: seq<Entry>, table: seq<Entry>,
                 input: seq<Piece>, rest: seq<Piece>, x: Piece)
    requires whole == [x] + out && input == [x] + rest && |table| <= |u| && u[..|table|] == table
    requires IdsBelow([x], |table|)
    requires TextOf(Expand(out, u)) == TextOf(Expand(rest, table))
    ensures TextOf(Expand(whole, u)) == TextOf(Expand(input, table))
  {
    ExpandAppend([x], out, u);
    ExpandPrefixTable([x], u, |table|);
    ExpandAppend([x], rest, table);
    TextOfAppend(Expand([x], table), Expand(out, u));
    TextOfAppend(Expand([x], table), Expand(rest, table));
  }

  /** The text after the first step of the pass, of `m` pieces, still fits and uses
      only ids below `n`. */
  lemma ScanRestFits(ms: seq<nat>, s: seq<Piece>, m: nat, n: nat)
    requires |ms| == |s| && Fits(ms) && 0 < m <= |s| && IdsBelow(s, n)
    ensures Fits(ms[m..]) && IdsBelow(s[m..], n) && IdsBelow(s[..m], n)
  {
    FitsFrom(ms, m);
    assert s == s[..m] + s[m..];
    IdsBelowParts(s[..m], s[m..], n);
  }

  /** The text-keeping case of a match `e` of length `m` at the start, given the rest
      of the pass. */
  lemma KeepsTextMatchCase(cat: Category, ms: seq<nat>, s: seq<Piece>, table: seq<Entry>, m: nat, e: Entry)
    requires |ms| == |s| && Fits(ms) && s != [] && 0 < m == ms[0] && e == Entry(cat, s[..m])
    requires Fits(ms[m..]) && IdsBelow(s[m..], |table|)
    requires TextOf(Expand(Scan(ms[m..], s[m..], |table| + 1), table + [e] + ScanSpans(cat, ms[m..], s[m..])))
      == TextOf(Expand(s[m..], table + [e]))
    ensures TextOf(Expand(Scan(ms, s, |table|), table + ScanSpans(cat, ms, s))) == TextOf(Expand(s, table))
  {
    var sp := ScanSpans(cat, ms[m..], s[m..]);
    SliceJoin(s, m);
    assert ScanSpans(cat, ms, s) == [e] + sp;
    Associative(table, [e], sp);
    KeepMatch(Scan(ms, s, |table|), Scan(ms[m..], s[m..], |table| + 1), table + ScanSpans(cat, ms, s), table, sp,
      s, s[m..], e);
  }

  /** The text-keeping case of a copied first piece, given the rest of the pass. */
  lemma KeepsTextCopyCase(cat: Category, ms: seq<nat>, s: seq<Piece>, table: seq<Entry>)
    requires |ms| == |s| && Fits(ms) && s != [] && ms[0] == 0 && IdsBelow(s[..1], |table|)
    requires Fits(ms[1..])
    requires TextOf(Expand(Scan(ms[1..], s[1..], |table|), table + ScanSpans(cat, ms[1..], s[1..])))
      == TextOf(Expand(s[1..], table))
    ensures TextOf(Expand(Scan(ms, s, |table|), table + ScanSpans(cat, ms, s))) == TextOf(Expand(s, table))
  {
    var u := table + ScanSpans(cat, ms, s);
    assert s == [s[0]] + s[1..] && s[..1] == [s[0]];
    assert u[..|table|] == table;
    KeepCopy(Scan(ms, s, |table|), Scan(ms[1..], s[1..], |table|), u, table, s, s[1..], s[0]);
  }

  /** A pass loses, duplicates and reorders no character: the text of the meaning
      is unchanged. */
  lemma {:induction false} ScanKeepsText(cat: Category, ms: seq<nat>, s: seq<Piece>, table: seq<Entry>)
    requires |ms| == |s| && Fits(ms) && IdsBelow(s, |table|)
    ensures TextOf(Expand(Scan(ms, s, |table|), table + ScanSpans(cat, ms, s))) == TextOf(Expand(s, table))
    decreases |s|
  {
    if s == [] {
    } else if ms[0] > 0 {
      var m, e := ms[0], Entry(cat, s[..ms[0]]);
      ScanRestFits(ms, s, m, |table|);
      ScanKeepsText(cat, ms[m..], s[m..], table + [e]);
      KeepsTextMatchCase(cat, ms, s, table, m, e);
    } else {
      ScanRestFits(ms, s, 1, |table|);
      ScanKeepsText(cat, ms[1..], s[1..], table);
      KeepsTextCopyCase(cat, ms, s, table);
    }
  }

  /** Where no match starts, the pass changes nothing and records nothing. */
  lemma {:induction false} ScanNoMatch(cat: Category, ms: seq<nat>, s: seq<Piece>, next: nat)
    requires |ms| == |s| && Fits(ms)
    requires forall k :: 0 <= k < |ms| ==> ms[k] == 0
    ensures Scan(ms, s, next) == s && ScanSpans(cat, ms, s) == []
    decreases |s|
  {
    if s != [] {
      ScanNoMatch(cat, ms[1..], s[1..], next);
      assert s == [s[0]] + s[1..];
    }
  }

  /** A pass adds only placeholders: a character absent from its input is absent
      from its output. */
  lemma {:induction false} ScanKeepsAbsent(ms: seq<nat>, s: seq<Piece>, next: nat, x: Piece)
    requires |ms| == |s| && Fits(ms) && !x.Ph? && x !in s
    ensures x !in Scan(ms, s, next)
    decreases |s|
  {
    if s != [] {
      var d := if ms[0] > 0 then ms[0] else 1;
      FitsFrom(ms, d);
      ScanKeepsAbsent(ms[d..], s[d..], if ms[0] > 0 then next + 1 else next, x);
    }
  }
}

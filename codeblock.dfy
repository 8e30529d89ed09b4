/**
  `highlightPHP` (components/ui/CodeBlock.tsx, lines 15-50): escape, protect
  every match of the six categories with a placeholder, category by category,
  then restore the placeholders in reverse order.
 */
module CodeBlock {
  import opened Escaping
  import opened Tokens
  import opened Placeholders
  import opened Markup
  import opened Scanning
  import opened TokenFacts
  import opened Types

  /** `escaped = escaped.replace(token.regex, callback)`: the scan of the regular
      expression engine, with the callback's numbering of placeholders by
      `tokenCounter` and recording of entries. */
  method ReplaceCategory(cat: Category, text: seq<Piece>, tokenCounter: nat)
    returns (out: seq<Piece>, added: seq<Entry>, counter: nat)
    ensures out == Tokenized(cat, text, tokenCounter)
    ensures added == Spans(cat, text)
    ensures counter == tokenCounter + |added|
  {
    ghost var whole, spans := Tokenized(cat, text, tokenCounter), Spans(cat, text);
    out, added, counter := [], [], tokenCounter;
    var i := 0;
    PassEnds(cat, text, tokenCounter);
    while i < |text|
      invariant i <= |text| && counter == tokenCounter + |added|
      invariant out + TokenizedFrom(cat, text, i, counter) == whole
      invariant added + SpansFrom(cat, text, i) == spans
    {
      var m := NextMatch(cat, text, i);
      if m > 0 {
        PassMatchStep(cat, text, i, m, counter, out, added, whole, spans);
        out, added, counter, i := out + [Ph(counter)], added + [Entry(cat, text[i..i + m])], counter + 1, i + m;
      } else {
        PassCopyStep(cat, text, i, counter, out, added, whole, spans);
        out, i := out + [text[i]], i + 1;
      }
    }
    PassEnds(cat, text, counter);
  }

  /** The regular expression engine's attempt at position `i`, as the entry of the
      match table the pass is specified by. */
  method NextMatch(cat: Category, text: seq<Piece>, i: nat) returns (m: nat)
    requires i < |text|
    ensures m == Matches(cat, text)[i]
  {
    m := MatchAt(cat, text, i);
    MatchesAt(cat, text, i);
  }

  /** The protected text and the placeholder table built so far. */
  datatype Protection = Protection(text: seq<Piece>, table: seq<Entry>)

  /** One category's pass: the new text, and the table with the pass's entries added. */
  function Pass(cat: Category, p: Protection): Protection
  {
    Protection(Tokenized(cat, p.text, |p.table|), p.table + Spans(cat, p.text))
  }

  /** The protect phase from category `k` on. */
  function ProtectFrom(k: nat, p: Protection): Protection
    requires k <= |Categories|
    decreases |Categories| - k
  {
    if k == |Categories| then p else ProtectFrom(k + 1, Pass(Categories[k], p))
  }

  /** The text and the placeholder table once all six categories are protected. */
  function Protected(text: string): Protection
  {
    ProtectFrom(0, Protection(Chars(Escape(text)), []))
  }

  /** The highlighted text: the protected text with every placeholder expanded. */
  function Highlighted(text: string): seq<Piece>
  {
    var p := Protected(text);
    Expand(p.text, p.table)
  }

  /** A span only ever contains spans of earlier categories: a later category never
      claims text that an earlier one already holds. */
  predicate Priority(table: seq<Entry>)
  {
    && WellFormed(table)
    && forall i, j :: 0 <= j < i < |table| && j in Phs(table[i].content) ==> Rank(table[j].cat) < Rank(table[i].cat)
  }

  /** What holds of the text and table before category `k` is processed. */
  predicate Protecting(k: nat, s: seq<Piece>, table: seq<Entry>)
  {
    && Linear(s, table)
    && Priority(table)
    && (forall j :: 0 <= j < |table| ==> Rank(table[j].cat) < k)
  }

  /** `s[i..i + 2]` is a replacement pattern of `String.prototype.replace` once
      escaped: a `$` followed by `$`, `&`, `` ` `` or `'`, or by `<` or `>`, which turn
      into `&lt;` and `&gt;`. */
  predicate ReplacementPatternAt(s: string, i: nat)
    requires i + 1 < |s|
  {
    s[i] == '$' && s[i + 1] in "$&<>`'"
  }

  /** No restored span can be read as a replacement pattern. */
  predicate NoReplacementPattern(text: string)
  {
    forall i :: 0 <= i < |text| - 1 ==> !ReplacementPatternAt(text, i)
  }

  /** The source's `highlightPHP`. The two preconditions state when its string-level
      placeholders behave as the opaque pieces of this model: no text can be mistaken
      for a placeholder, and no restored span is read as a replacement pattern. */
  method HighlightPHP(text: string) returns (html: string)
    requires !Contains(text, "TOKEN_")
    requires NoReplacementPattern(text)
    ensures html == Render(Highlighted(text))
    ensures StripMarkup(html) == Escape(text)
  {
    // 1. escape
    var escaped := Chars(Escape(text));
    PhsChars(Escape(text));
    // 2. protect, category by category
    var protected, placeholderMap := ProtectTokens(escaped);
    // 3. restore in reverse insertion order
    var restored := RestorePlaceholders(protected, placeholderMap);
    html := Render(restored);
    HighlightedOutput(text);
  }

  /** Step 2 of `highlightPHP`: `tokens.forEach`, each category's pass numbering its
      placeholders on from `tokenCounter`. */
  method ProtectTokens(escaped: seq<Piece>) returns (text: seq<Piece>, placeholderMap: seq<Entry>)
    requires Phs(escaped) == multiset{}
    ensures Protection(text, placeholderMap) == ProtectFrom(0, Protection(escaped, []))
    ensures Protecting(|Categories|, text, placeholderMap)
  {
    text, placeholderMap := escaped, [];
    var tokenCounter := 0;
    ghost var goal := ProtectFrom(0, Protection(escaped, []));
    for k := 0 to |Categories|
      invariant tokenCounter == |placeholderMap|
      invariant ProtectFrom(k, Protection(text, placeholderMap)) == goal
    {
      var before, added := text, [];
      text, added, tokenCounter := ReplaceCategory(Categories[k], text, tokenCounter);
      ProtectLoopStep(k, goal, before, placeholderMap, text, added);
      placeholderMap := placeholderMap + added;
    }
    ProtectFromDone(Protection(text, placeholderMap));
    ProtectingStart(escaped);
    ProtectFromKeeps(0, Protection(escaped, []), goal);
  }

  lemma {:induction false} PhsChars(s: string)
    ensures Phs(Chars(s)) == multiset{}
  {
    if s != [] {
      assert Chars(s) == [Ch(s[0])] + Chars(s[1..]);
      PhsAppend([Ch(s[0])], Chars(s[1..]));
      PhsSingle(Ch(s[0]));
      PhsChars(s[1..]);
    }
  }

  // ---------------------------------------------------------------------------
  // The six passes

  lemma CategoriesRanked(k: nat)
    requires k < |Categories|
    ensures Rank(Categories[k]) == k
  {
  }

  lemma IdsBelowOfLinear(s: seq<Piece>, table: seq<Entry>)
    requires Linear(s, table)
    ensures IdsBelow(s, |table|)
  {
    IdsCount(|table|);
    forall j | j in Phs(s)
      ensures j < |table|
    {
      assert (Phs(s) + PhsAll(table))[j] == Ids(|table|)[j];
    }
  }

  lemma SumsAgree(t: multiset<nat>, a: multiset<nat>, b: multiset<nat>, i: multiset<nat>, f: multiset<nat>,
                  before: multiset<nat>, after: multiset<nat>, all: multiset<nat>)
    requires t + a == i + f && i + b == before && before + f == after && all == b + a
    ensures t + all == after
  {
    forall j
      ensures (t + all)[j] == after[j]
    {
      assert (t + a)[j] == (i + f)[j];
      assert (i + b)[j] == before[j];
      assert (before + f)[j] == after[j];
    }
  }

  /** A pass keeps every id used exactly once. */
  lemma PassLinear(s: seq<Piece>, table: seq<Entry>, out: seq<Piece>, added: seq<Entry>)
    requires Linear(s, table)
    requires Phs(out) + PhsAll(added) == Phs(s) + Fresh(|table|, |added|)
    ensures Linear(out, table + added)
  {
    PhsAllAppend(table, added);
    IdsFresh(|table|, |added|, |table + added|);
    SumsAgree(Phs(out), PhsAll(added), PhsAll(table), Phs(s), Fresh(|table|, |added|), Ids(|table|), Ids(|table + added|),
      PhsAll(table + added));
  }

  /** A pass of category `c` after all earlier categories keeps the priority order. */
  lemma PassPriority(s: seq<Piece>, table: seq<Entry>, added: seq<Entry>, c: Category)
    requires IdsBelow(s, |table|) && Priority(table)
    requires forall j :: 0 <= j < |table| ==> Rank(table[j].cat) < Rank(c)
    requires forall e :: e in added ==> e.cat == c && Phs(e.content) <= Phs(s)
    ensures Priority(table + added)
    ensures forall j :: 0 <= j < |table + added| ==> Rank((table + added)[j].cat) <= Rank(c)
  {
    var u := table + added;
    forall i, j | 0 <= i < |u| && j in Phs(u[i].content)
      ensures j < i
    {
      if i < |table| {
        assert u[i] == table[i];
      } else {
        assert u[i] == added[i - |table|];
      }
    }
    forall i, j | 0 <= j < i < |u| && j in Phs(u[i].content)
      ensures Rank(u[j].cat) < Rank(u[i].cat)
    {
      if i < |table| {
        assert u[i] == table[i];
        assert u[j] == table[j];
      } else {
        assert u[i] == added[i - |table|];
        assert j in Phs(s);
        assert u[j] == table[j];
      }
    }
    forall j | 0 <= j < |u|
      ensures Rank(u[j].cat) <= Rank(c)
    {
      if j >= |table| {
        assert u[j] == added[j - |table|];
      }
    }
  }

  /** Processing category `k` keeps the invariant and the text of the meaning. */
  lemma ProtectStep(k: nat, p: Protection)
    requires k < |Categories| && Protecting(k, p.text, p.table)
    ensures var q := Pass(Categories[k], p);
      && Protecting(k + 1, q.text, q.table)
      && TextOf(Expand(q.text, q.table)) == TextOf(Expand(p.text, p.table))
  {
    var cat := Categories[k];
    var s, table := p.text, p.table;
    var ms := Matches(cat, s);
    IdsBelowOfLinear(s, table);
    ScanCounts(cat, ms, s, |table|);
    ScanSpansHoldInput(cat, ms, s);
    ScanKeepsText(cat, ms, s, table);
    CategoriesRanked(k);
    PassLinear(s, table, Tokenized(cat, s, |table|), Spans(cat, s));
    PassPriority(s, table, Spans(cat, s), cat);
  }

  /** One round of the protect loop of `highlightPHP`, towards the protection `goal`. */
  lemma ProtectLoopStep(k: nat, goal: Protection, s: seq<Piece>, table: seq<Entry>, out: seq<Piece>, added: seq<Entry>)
    requires k < |Categories|
    requires ProtectFrom(k, Protection(s, table)) == goal
    requires out == Tokenized(Categories[k], s, |table|) && added == Spans(Categories[k], s)
    ensures ProtectFrom(k + 1, Protection(out, table + added)) == goal
  {
    ProtectFromUnfold(k, Protection(s, table));
  }

  lemma ProtectingInitially(text: string)
    ensures Protecting(0, Chars(Escape(text)), [])
  {
    PhsChars(Escape(text));
    ProtectingStart(Chars(Escape(text)));
  }

  lemma ProtectingStart(s: seq<Piece>)
    requires Phs(s) == multiset{}
    ensures Protecting(0, s, [])
  {
  }

  lemma ProtectFromDone(p: Protection)
    ensures ProtectFrom(|Categories|, p) == p
  {
  }

  lemma ProtectFromUnfold(k: nat, p: Protection)
    requires k < |Categories|
    ensures ProtectFrom(k, p) == ProtectFrom(k + 1, Pass(Categories[k], p))
  {
  }

  /** The pass of category `k` leaves `q`, from which the protect phase still ends in `r`. */
  lemma ProtectFromStep(k: nat, p: Protection, r: Protection) returns (q: Protection)
    requires k < |Categories| && Protecting(k, p.text, p.table) && r == ProtectFrom(k, p)
    ensures Protecting(k + 1, q.text, q.table) && r == ProtectFrom(k + 1, q)
    ensures TextOf(Expand(q.text, q.table)) == TextOf(Expand(p.text, p.table))
  {
    q := Pass(Categories[k], p);
    ProtectFromUnfold(k, p);
    ProtectStep(k, p);
  }

  /** The protect phase from category `k` on, ending in `r`, keeps the invariant and the
      text of the meaning. */
  lemma {:induction false} ProtectFromKeeps(k: nat, p: Protection, r: Protection)
    requires k <= |Categories| && Protecting(k, p.text, p.table) && r == ProtectFrom(k, p)
    ensures Protecting(|Categories|, r.text, r.table)
    ensures TextOf(Expand(r.text, r.table)) == TextOf(Expand(p.text, p.table))
    decreases |Categories| - k
  {
    if k < |Categories| {
      var q := ProtectFromStep(k, p, r);
      ProtectFromKeeps(k + 1, q, r);
    }
  }

  // ---------------------------------------------------------------------------
  // What the highlighter promises

  /** The placeholder table at the end of the protect phase is well-formed, uses each
      placeholder once, and orders spans by category priority: text inside a comment
      or string span carries no keyword, type, variable or operator span. */
  lemma ProtectedTable(text: string)
    ensures var p := Protected(text);
      Linear(p.text, p.table) && Priority(p.table)
  {
    ProtectingInitially(text);
    ProtectFromKeeps(0, Protection(Chars(Escape(text)), []), Protected(text));
  }

  /** Nothing is lost, duplicated or reordered: the characters of the highlighted
      text, spans aside, are exactly the escaped input. */
  lemma HighlightedKeepsText(text: string)
    ensures TextOf(Highlighted(text)) == Escape(text)
  {
    var e := Chars(Escape(text));
    ProtectingInitially(text);
    ProtectFromKeeps(0, Protection(e, []), Protected(text));
    ExpandEmptyTable(e);
    TextOfChars(Escape(text));
  }

  /** No placeholder survives the restoration. */
  lemma HighlightedHasNoPlaceholder(text: string)
    ensures Phs(Highlighted(text)) == multiset{}
  {
    ProtectedTable(text);
    var p := Protected(text);
    IdsBelowOfLinear(p.text, p.table);
    ExpandLeavesNoPlaceholder(p.text, p.table);
  }

  /** The returned string is the escaped input once its span tags are deleted. */
  lemma HighlightedOutput(text: string)
    ensures StripMarkup(Render(Highlighted(text))) == Escape(text)
  {
    HighlightedKeepsText(text);
    HighlightedHasNoPlaceholder(text);
    EscapeSafe(text);
    StripRender(Highlighted(text));
  }

  /** No category's pattern matches anywhere in `s`. */
  predicate Unmatched(s: seq<Piece>)
  {
    forall c, i :: 0 <= i < |s| ==> Matches(c, s)[i] == 0
  }

  lemma {:induction false} ProtectFromNoMatch(k: nat, s: seq<Piece>)
    requires k <= |Categories| && Unmatched(s)
    ensures ProtectFrom(k, Protection(s, [])) == Protection(s, [])
    decreases |Categories| - k
  {
    if k < |Categories| {
      ScanNoMatch(Categories[k], Matches(Categories[k], s), s, 0);
      ProtectFromNoMatch(k + 1, s);
    }
  }

  /** The first `k` passes of the protect phase. */
  function ProtectBefore(k: nat, p: Protection): Protection
    requires k <= |Categories|
  {
    if k == 0 then p else Pass(Categories[k - 1], ProtectBefore(k - 1, p))
  }

  /** Running the first `k` passes and then the rest is the whole protect phase. */
  lemma {:induction false} ProtectSplit(k: nat, p: Protection)
    requires k <= |Categories|
    ensures ProtectFrom(k, ProtectBefore(k, p)) == ProtectFrom(0, p)
  {
    if k > 0 {
      ProtectSplit(k - 1, p);
      ProtectFromUnfold(k - 1, ProtectBefore(k - 1, p));
    }
  }

  /** The passes add only placeholders, so a character absent from the escaped text
      is absent from what every later pass reads. */
  lemma {:induction false} ProtectBeforeKeepsAbsent(k: nat, p: Protection, x: Piece)
    requires k <= |Categories| && !x.Ph? && x !in p.text
    ensures x !in ProtectBefore(k, p).text
  {
    if k > 0 {
      var q := ProtectBefore(k - 1, p);
      ProtectBeforeKeepsAbsent(k - 1, p, x);
      ScanKeepsAbsent(Matches(Categories[k - 1], q.text), q.text, |q.table|, x);
    }
  }

  /** The text the operator pass reads: the escaped input after the five earlier passes. */
  function OperatorInput(text: string): seq<Piece>
  {
    ProtectBefore(5, Protection(Chars(Escape(text)), [])).text
  }

  /** Escaping runs first and the earlier passes add only placeholders, so the operator
      pass of `highlightPHP`, the last one, never matches `->` or `=>`. */
  lemma NoArrowInOperatorPass(text: string, i: nat)
    requires i < |OperatorInput(text)|
    ensures Categories[5] == Operator
    ensures Protected(text) == Pass(Operator, ProtectBefore(5, Protection(Chars(Escape(text)), [])))
    ensures MatchAt(Operator, OperatorInput(text), i) == 0 ||
      (exists w :: w in Operators && '>' !in w && |w| == MatchAt(Operator, OperatorInput(text), i)
        && StartsWith(OperatorInput(text), i, w))
  {
    var p := Protection(Chars(Escape(text)), []);
    ProtectSplit(5, p);
    ProtectFromUnfold(5, ProtectBefore(5, p));
    ProtectFromDone(Pass(Operator, ProtectBefore(5, p)));
    EscapedLacksGreater(text);
    ProtectBeforeKeepsAbsent(5, p, Ch('>'));
    NoArrowAfterEscape(OperatorInput(text), i);
  }

  /** Where no category matches anywhere, the protect phase leaves the text alone. */
  lemma ProtectedPlain(text: string)
    requires Escape(text) == text
    requires Unmatched(Chars(text))
    ensures Protected(text) == Protection(Chars(text), [])
  {
    ProtectFromNoMatch(0, Chars(text));
  }

  /** Text with no `&`, `<`, `>` and no match of any category comes back unchanged. */
  lemma HighlightPlainText(text: string)
    requires '&' !in text && '<' !in text && '>' !in text
    requires Unmatched(Chars(text))
    ensures Render(Highlighted(text)) == text
  {
    EscapeIdentity(text);
    ProtectedPlain(text);
    ExpandEmptyTable(Chars(text));
    RenderChars(text);
  }

  /** The empty input highlights to the empty string. */
  lemma HighlightEmpty()
    ensures Render(Highlighted("")) == ""
  {
    HighlightPlainText("");
  }
}

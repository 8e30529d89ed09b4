/**
  The placeholder table of `highlightPHP` and its restoration phase
  (components/ui/CodeBlock.tsx, lines 31-47).

  The table is a sequence of entries whose index is the placeholder id: the
  source numbers placeholders with `tokenCounter`, which starts at 0 and grows by
  one per entry, and `Object.keys` lists keys that are not array indices in
  insertion order, so the key order is the id order.
 */
module Placeholders {
  import opened Tokens

  /** The placeholder ids occurring in `t`, with multiplicity. */
  function Phs(t: seq<Piece>): multiset<nat>
  {
    if t == [] then multiset{}
    else (if t[0].Ph? then multiset{t[0].id} else multiset{}) + Phs(t[1..])
  }

  /** The placeholder ids occurring in the contents of all entries of `table`. */
  function PhsAll(table: seq<Entry>): multiset<nat>
  {
    if table == [] then multiset{}
    else PhsAll(table[..|table| - 1]) + Phs(table[|table| - 1].content)
  }

  /** The ids `0 .. n - 1`, each once. */
  function Ids(n: nat): multiset<nat>
  {
    if n == 0 then multiset{} else Ids(n - 1) + multiset{n - 1}
  }

  predicate IdsBelow(t: seq<Piece>, n: nat)
  {
    forall j :: j in Phs(t) ==> j < n
  }

  /** An entry's content mentions only placeholders created before it. */
  predicate WellFormed(table: seq<Entry>)
  {
    forall i, j :: 0 <= i < |table| && j in Phs(table[i].content) ==> j < i
  }

  /** Each placeholder of the table occurs exactly once in the text and the entries
      taken together, and no other placeholder occurs in the text. */
  predicate Linear(text: seq<Piece>, table: seq<Entry>)
  {
    Phs(text) + PhsAll(table) == Ids(|table|)
  }

  /** What the text means: every placeholder with an entry becomes the span of that
      entry's category around the meaning of its content. */
  function Expand(t: seq<Piece>, table: seq<Entry>): seq<Piece>
    decreases |table|, |t|
  {
    if t == [] then []
    else
      var head :=
        if t[0].Ph? && t[0].id < |table| then
          [Open(table[t[0].id].cat)] + Expand(table[t[0].id].content, table[..t[0].id]) + [Close]
        else [t[0]];
      head + Expand(t[1..], table)
  }

  /** `t.replace(placeholder, rep)` with a string pattern: only the first occurrence
      of placeholder `j` is replaced, literally. */
  function ReplaceFirst(t: seq<Piece>, j: nat, rep: seq<Piece>): (r: seq<Piece>)
    ensures Ph(j) !in t ==> r == t
  {
    if t == [] then []
    else if t[0] == Ph(j) then rep + t[1..]
    else
      assert t == [t[0]] + t[1..];
      [t[0]] + ReplaceFirst(t[1..], j, rep)
  }

  lemma {:induction false} IdsCount(n: nat)
    ensures forall j: nat :: Ids(n)[j] == if j < n then 1 else 0
  {
    if n > 0 {
      IdsCount(n - 1);
      forall j: nat
        ensures Ids(n)[j] == if j < n then 1 else 0
      {
        assert Ids(n) == Ids(n - 1) + multiset{n - 1};
        if j == n - 1 {
          assert Ids(n)[j] == Ids(n - 1)[j] + 1;
        } else {
          assert multiset{n - 1}[j] == 0;
          assert Ids(n)[j] == Ids(n - 1)[j];
        }
      }
    } else {
      assert Ids(n) == multiset{};
    }
  }

  lemma {:induction false} PhsAppend(a: seq<Piece>, b: seq<Piece>)
    ensures Phs(a + b) == Phs(a) + Phs(b)
  {
    if a == [] {
      assert a + b == b;
    } else {
      assert (a + b)[1..] == a[1..] + b;
      PhsAppend(a[1..], b);
    }
  }

  lemma PhsSingle(p: Piece)
    ensures Phs([p]) == if p.Ph? then multiset{p.id} else multiset{}
  {
    assert [p][1..] == [];
  }

  lemma {:induction false} PhsAllAppend(a: seq<Entry>, b: seq<Entry>)
    ensures PhsAll(a + b) == PhsAll(a) + PhsAll(b)
    decreases |b|
  {
    if b == [] {
      assert a + b == a;
    } else {
      var n := |b| - 1;
      assert (a + b)[..|a + b| - 1] == a + b[..n];
      assert b[..|b| - 1] == b[..n];
      PhsAllAppend(a, b[..n]);
    }
  }

  lemma PhsAllSnoc(table: seq<Entry>, k: nat)
    requires k < |table|
    ensures PhsAll(table[..k + 1]) == PhsAll(table[..k]) + Phs(table[k].content)
  {
    assert table[..k + 1][..k] == table[..k];
  }

  /** In a well-formed table, the first `k` entries mention only ids below `k`. */
  lemma {:induction false} PhsAllBelow(table: seq<Entry>, k: nat)
    requires WellFormed(table) && k <= |table|
    ensures forall j :: j in PhsAll(table[..k]) ==> j < k
  {
    if k > 0 {
      PhsAllBelow(table, k - 1);
      PhsAllSnoc(table, k - 1);
    }
  }

  lemma {:induction false} ExpandAppend(a: seq<Piece>, b: seq<Piece>, table: seq<Entry>)
    ensures Expand(a + b, table) == Expand(a, table) + Expand(b, table)
  {
    if a == [] {
      assert a + b == b;
    } else {
      assert (a + b)[0] == a[0] && (a + b)[1..] == a[1..] + b;
      ExpandAppend(a[1..], b, table);
    }
  }

  /** Entries that text does not mention do not change its meaning. */
  lemma {:induction false} ExpandPrefixTable(t: seq<Piece>, table: seq<Entry>, k: nat)
    requires k <= |table| && IdsBelow(t, k)
    ensures Expand(t, table) == Expand(t, table[..k])
    decreases |t|
  {
    if t != [] {
      PhsAppend([t[0]], t[1..]);
      assert t == [t[0]] + t[1..];
      PhsSingle(t[0]);
      assert forall j :: j in Phs(t[1..]) ==> j in Phs(t);
      ExpandPrefixTable(t[1..], table, k);
      if t[0].Ph? {
        assert t[0].id in Phs(t);
        assert table[..t[0].id] == table[..k][..t[0].id];
      }
    }
  }

  lemma {:induction false} ExpandEmptyTable(t: seq<Piece>)
    ensures Expand(t, []) == t
  {
    if t != [] {
      ExpandEmptyTable(t[1..]);
      assert t == [t[0]] + t[1..];
    }
  }

  /** Once every placeholder of a well-formed table is expanded, none is left. */
  lemma {:induction false} ExpandLeavesNoPlaceholder(t: seq<Piece>, table: seq<Entry>)
    requires WellFormed(table) && IdsBelow(t, |table|)
    ensures Phs(Expand(t, table)) == multiset{}
    decreases |table|, |t|
  {
    if t != [] {
      assert t == [t[0]] + t[1..];
      PhsAppend([t[0]], t[1..]);
      PhsSingle(t[0]);
      assert forall j :: j in Phs(t[1..]) ==> j in Phs(t);
      ExpandLeavesNoPlaceholder(t[1..], table);
      var e := Expand(t[1..], table);
      if t[0].Ph? {
        var id := t[0].id;
        assert id in Phs(t);
        var sub := table[..id];
        assert WellFormed(sub);
        ExpandLeavesNoPlaceholder(table[id].content, sub);
        var inner := Expand(table[id].content, sub);
        PhsAppend([Open(table[id].cat)] + inner, [Close]);
        PhsAppend([Open(table[id].cat)], inner);
        PhsSingle(Open(table[id].cat));
        PhsSingle(Close);
        PhsAppend([Open(table[id].cat)] + inner + [Close], e);
      } else {
        PhsAppend([t[0]], e);
      }
    }
  }

  /** The first occurrence of placeholder `j` in `t`. */
  lemma {:induction false} FirstOccurrence(t: seq<Piece>, j: nat) returns (i: nat)
    requires j in Phs(t)
    ensures i < |t| && t[i] == Ph(j) && j !in Phs(t[..i])
    ensures forall k :: 0 <= k < i ==> t[k] != Ph(j)
  {
    PhsAppend([t[0]], t[1..]);
    PhsSingle(t[0]);
    assert t == [t[0]] + t[1..];
    if t[0] == Ph(j) {
      i := 0;
      assert t[..0] == [];
    } else {
      var k := FirstOccurrence(t[1..], j);
      i := k + 1;
      assert t[..i] == [t[0]] + t[1..][..k];
      PhsAppend([t[0]], t[1..][..k]);
    }
  }

  /** `ReplaceFirst` replaces the first occurrence of `j` and leaves the rest. */
  lemma {:induction false} ReplaceFirstAt(t: seq<Piece>, j: nat, rep: seq<Piece>, i: nat)
    requires i < |t| && t[i] == Ph(j)
    requires forall k :: 0 <= k < i ==> t[k] != Ph(j)
    ensures ReplaceFirst(t, j, rep) == t[..i] + rep + t[i + 1..]
    decreases i
  {
    if i > 0 {
      ReplaceFirstAt(t[1..], j, rep, i - 1);
      var pre, post := t[1..][..i - 1], t[1..][i..];
      assert t[..i] == [t[0]] + pre && t[i + 1..] == post;
      assert [t[0]] + (pre + rep + post) == ([t[0]] + pre) + rep + post;
    }
  }

  /** Where `ReplaceFirst` acts: the first occurrence of `j`. */
  lemma ReplaceFirstSplit(t: seq<Piece>, j: nat, rep: seq<Piece>) returns (i: nat)
    requires j in Phs(t)
    ensures i < |t| && t[i] == Ph(j) && j !in Phs(t[..i])
    ensures ReplaceFirst(t, j, rep) == t[..i] + rep + t[i + 1..]
  {
    i := FirstOccurrence(t, j);
    ReplaceFirstAt(t, j, rep, i);
  }

  /** The counting half of a restoration step: the last entry's placeholder occurs
      exactly once, in the text, and everything around it mentions older ids only. */
  lemma RestoreStepCounts(r: seq<Piece>, table: seq<Entry>, k: nat, rep: seq<Piece>) returns (i: nat)
    requires WellFormed(table) && k < |table|
    requires Linear(r, table[..k + 1])
    ensures i < |r| && r[i] == Ph(k) && ReplaceFirst(r, k, rep) == r[..i] + rep + r[i + 1..]
    ensures IdsBelow(r[..i], k) && IdsBelow(r[i + 1..], k)
    ensures Phs(r[..i]) + Phs(r[i + 1..]) + PhsAll(table[..k]) + Phs(table[k].content) == Ids(k)
  {
    PhsAllSnoc(table, k);
    PhsAllBelow(table, k);
    var A, C := PhsAll(table[..k]), Phs(table[k].content);
    assert k !in A;
    assert k !in C;
    IdsCount(k + 1);
    assert Phs(r) + A + C == Ids(k + 1);
    assert k in Phs(r) by {
      assert (Phs(r) + A + C)[k] == 1;
    }
    i := ReplaceFirstSplit(r, k, rep);
    var pre, post := r[..i], r[i + 1..];
    SplitAt(r, i);
    PhsAppend(pre + [Ph(k)], post);
    PhsAppend(pre, [Ph(k)]);
    PhsSingle(Ph(k));
    CancelOne(Phs(pre), Phs(post), A, C, k);
  }

  lemma SplitAt<T>(r: seq<T>, i: nat)
    requires i < |r|
    ensures r == r[..i] + [r[i]] + r[i + 1..]
  {
  }

  /** Removing the one occurrence of `k` from `Ids(k + 1)`. */
  lemma CancelOne(P: multiset<nat>, Q: multiset<nat>, A: multiset<nat>, C: multiset<nat>, k: nat)
    requires P + multiset{k} + Q + A + C == Ids(k + 1)
    ensures P + Q + A + C == Ids(k)
    ensures forall j :: j in P ==> j < k
    ensures forall j :: j in Q ==> j < k
  {
    IdsCount(k + 1);
    IdsCount(k);
    forall j: nat
      ensures (P + Q + A + C)[j] == Ids(k)[j]
    {
      assert (P + multiset{k} + Q + A + C)[j] == Ids(k + 1)[j];
    }
    forall j | j in P || j in Q
      ensures j < k
    {
      assert (P + multiset{k} + Q + A + C)[j] == Ids(k + 1)[j];
    }
  }

  lemma ExpandSingle(p: Piece, table: seq<Entry>)
    ensures Expand([p], table) ==
      if p.Ph? && p.id < |table| then [Open(table[p.id].cat)] + Expand(table[p.id].content, table[..p.id]) + [Close]
      else [p]
  {
    assert [p][1..] == [];
  }

  /** Expanding a span whose content mentions only older ids. */
  lemma ExpandSpan(c: Category, content: seq<Piece>, table: seq<Entry>)
    ensures Expand([Open(c)] + content + [Close], table) == [Open(c)] + Expand(content, table) + [Close]
  {
    ExpandAppend([Open(c)] + content, [Close], table);
    ExpandAppend([Open(c)], content, table);
    ExpandSingle(Open(c), table);
    ExpandSingle(Close, table);
  }

  /** One step of the restoration: replacing the last entry's placeholder by its span
      keeps the meaning of the text, with the table one entry shorter. */
  lemma RestoreStep(r: seq<Piece>, table: seq<Entry>, k: nat)
    requires WellFormed(table) && k < |table|
    requires Linear(r, table[..k + 1])
    ensures var r' := ReplaceFirst(r, k, [Open(table[k].cat)] + table[k].content + [Close]);
      Linear(r', table[..k]) && Expand(r', table[..k]) == Expand(r, table[..k + 1])
  {
    var e := table[k];
    var rep := [Open(e.cat)] + e.content + [Close];
    var tk, tk1 := table[..k], table[..k + 1];
    var i := RestoreStepCounts(r, table, k, rep);
    var pre, post := r[..i], r[i + 1..];
    SplitAt(r, i);
    RestoreStepLinear(pre, post, e, tk);
    RestoreStepMeaning(pre, post, k, table);
  }

  lemma RestoreStepLinear(pre: seq<Piece>, post: seq<Piece>, e: Entry, tk: seq<Entry>)
    requires Phs(pre) + Phs(post) + PhsAll(tk) + Phs(e.content) == Ids(|tk|)
    ensures Linear(pre + ([Open(e.cat)] + e.content + [Close]) + post, tk)
  {
    var rep := [Open(e.cat)] + e.content + [Close];
    PhsAppend(pre + rep, post);
    PhsAppend(pre, rep);
    PhsAppend([Open(e.cat)] + e.content, [Close]);
    PhsAppend([Open(e.cat)], e.content);
    PhsSingle(Open(e.cat));
    PhsSingle(Close);
  }

  lemma RestoreStepMeaning(pre: seq<Piece>, post: seq<Piece>, k: nat, table: seq<Entry>)
    requires k < |table| && IdsBelow(pre, k) && IdsBelow(post, k)
    ensures Expand(pre + ([Open(table[k].cat)] + table[k].content + [Close]) + post, table[..k])
         == Expand(pre + [Ph(k)] + post, table[..k + 1])
  {
    var e := table[k];
    var rep := [Open(e.cat)] + e.content + [Close];
    var tk, tk1 := table[..k], table[..k + 1];
    assert tk1[..k] == tk;
    ExpandAppend(pre + [Ph(k)], post, tk1);
    ExpandAppend(pre, [Ph(k)], tk1);
    ExpandAppend(pre + rep, post, tk);
    ExpandAppend(pre, rep, tk);
    ExpandPrefixTable(pre, tk1, k);
    ExpandPrefixTable(post, tk1, k);
    ExpandSpan(e.cat, e.content, tk);
    ExpandSingle(Ph(k), tk1);
  }

  /** The restoration loop: placeholders are replaced in reverse insertion order, each
      by its span. The result is the meaning of the text, with no placeholder left, so
      a placeholder captured inside a later match is expanded too. */
  method RestorePlaceholders(text: seq<Piece>, table: seq<Entry>) returns (r: seq<Piece>)
    requires WellFormed(table) && Linear(text, table)
    ensures r == Expand(text, table)
    ensures Phs(r) == multiset{}
  {
    r := text;
    var k := |table|;
    assert table[..k] == table;
    while k > 0
      invariant k <= |table|
      invariant Linear(r, table[..k])
      invariant Expand(r, table[..k]) == Expand(text, table)
    {
      k := k - 1;
      RestoreStep(r, table, k);
      r := ReplaceFirst(r, k, [Open(table[k].cat)] + table[k].content + [Close]);
    }
    ExpandEmptyTable(r);
    assert Phs(r) == multiset{} by {
      assert Ids(0) == multiset{};
    }
  }
}

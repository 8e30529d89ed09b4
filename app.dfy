/**
  The page state of the playground (App.tsx): the principle tab on show, whether
  its failure signs are unfolded, and the set of principles whose game has been
  played ("mastered").
 */
module App {
  import opened Types

  /** A principle of the lesson list; only its id matters to the page state. */
  datatype Principle = Principle(id: PrincipleType, title: string)

  const Principles: seq<Principle> := [
    Principle(SRP, "Single Responsibility"),
    Principle(OCP, "Open-Closed"),
    Principle(LSP, "Liskov Substitution"),
    Principle(ISP, "Interface Segregation"),
    Principle(DIP, "Dependency Inversion")]

  /** The ids `onMastered` can be called with: one per interactive game. */
  const AllIds: set<string> := {"SRP", "OCP", "LSP", "ISP", "DIP"}

  /** `PRINCIPLES.find(p => p.id === tab)`, from index `i` on. */
  function FindFrom(tab: PrincipleType, i: nat): (r: Option<Principle>)
    requires i <= |Principles|
    ensures r.Some? ==> r.value in Principles && r.value.id == tab
    ensures r.None? ==> forall j :: i <= j < |Principles| ==> Principles[j].id != tab
    decreases |Principles| - i
  {
    if i == |Principles| then None
    else if Principles[i].id == tab then Some(Principles[i])
    else FindFrom(tab, i + 1)
  }

  /** Every tab has its principle in the list, so the `!` of `currentPrinciple` never fails. */
  lemma PrincipleListed(tab: PrincipleType)
    ensures FindFrom(tab, 0).Some?
  {
    var j := match tab
      case SRP => 0
      case OCP => 1
      case LSP => 2
      case ISP => 3
      case DIP => 4;
    assert Principles[j].id == tab;
  }

  /** `currentPrinciple`: the entry of the list whose id is the active tab. */
  function CurrentPrinciple(tab: PrincipleType): (p: Principle)
    ensures p in Principles && p.id == tab
  {
    PrincipleListed(tab);
    FindFrom(tab, 0).value
  }

  class Page {
    var activeTab: PrincipleType
    var showFailures: bool
    var mastered: set<string>

    /** Every id in `mastered` is a principle's, so at most all five are mastered. */
    ghost predicate Valid()
      reads this
    {
      mastered <= AllIds
    }

    constructor()
      ensures activeTab == SRP && !showFailures && mastered == {}
      ensures Valid()
    {
      activeTab := SRP;
      showFailures := false;
      mastered := {};
    }

    /** `onMastered`: `id` is added when absent; the set is left alone when present. */
    method OnMastered(id: string)
      modifies this
      ensures mastered == old(mastered) + {id}
      ensures id in old(mastered) ==> mastered == old(mastered)
      ensures activeTab == old(activeTab) && showFailures == old(showFailures)
    {
      if id !in mastered {
        mastered := mastered + {id};
      }
    }

    /** A click on the game of principle `p` marks it mastered. */
    method PlayGame(p: PrincipleType)
      requires Valid()
      modifies this
      ensures Valid() && old(mastered) <= mastered && |mastered| <= |Principles|
      ensures mastered == old(mastered) + {PrincipleId(p)}
      ensures activeTab == old(activeTab) && showFailures == old(showFailures)
    {
      OnMastered(PrincipleId(p));
      MasteredBounded(mastered);
    }

    /** A click on the tab of `p`: it is shown with its failure signs folded. */
    method SelectTab(p: PrincipleType)
      modifies this
      ensures activeTab == p && !showFailures && mastered == old(mastered)
    {
      activeTab := p;
      showFailures := false;
    }

    /** The failure-signs button flips the panel and changes nothing else. */
    method ToggleFailures()
      modifies this
      ensures showFailures == !old(showFailures)
      ensures activeTab == old(activeTab) && mastered == old(mastered)
    {
      showFailures := !showFailures;
    }
  }

  /** `mastered.size` never exceeds `PRINCIPLES.length`. */
  lemma MasteredBounded(mastered: set<string>)
    requires mastered <= AllIds
    ensures |mastered| <= |Principles|
  {
    SubsetSize(mastered, AllIds);
  }

  lemma {:induction false} SubsetSize(a: set<string>, b: set<string>)
    requires a <= b
    ensures |a| <= |b|
    decreases |b|
  {
    if a != {} {
      var x :| x in a;
      SubsetSize(a - {x}, b - {x});
    }
  }
}

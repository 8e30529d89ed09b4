/**
  The rescue-frequency game (components/interactive/DIPGame.tsx): Ryder's tablet
  either depends on Marshall directly or broadcasts to any `Firefighter`, and
  each dispatch prepends its lines to a log that keeps only the three newest.
 */
module DipGame {
  import opened Types

  const DirectLine: string := "Tablet -> Direct Dependency: Marshall (Concrete Class)"
  const BroadcastLine: string := "Tablet -> Broadcast: Firefighter (Abstraction)"
  const FoundLine: string := "Found Responder: Marshall tuned in!"

  /** `s.slice(0, n)`. */
  function Take(s: seq<string>, n: nat): (r: seq<string>)
    ensures |r| <= n && |r| <= |s| && r == s[..|r|]
    ensures |r| == n || r == s
  {
    if |s| <= n then s else s[..n]
  }

  /** The lines one dispatch adds, first line first. */
  function DispatchLines(decoupled: bool): seq<string>
  {
    if decoupled then [BroadcastLine, FoundLine] else [DirectLine]
  }

  /** The log after one `callForHelp`: the new lines in front, then as many of the
      previous lines, newest first, as fit in three. */
  function Dispatch(decoupled: bool, logs: seq<string>): (r: seq<string>)
    ensures |r| <= 3
    ensures !decoupled ==> |r| >= 1 && r[0] == DirectLine && r[1..] == Take(logs, 2)
    ensures decoupled ==> |r| >= 2 && r[0] == BroadcastLine && r[1] == FoundLine && r[2..] == Take(logs, 1)
  {
    Take(DispatchLines(decoupled) + logs, 3)
  }

  /** Three dispatches leave nothing of the log they started from. */
  lemma DispatchForgets(a: bool, b: bool, c: bool, logs1: seq<string>, logs2: seq<string>)
    ensures Dispatch(c, Dispatch(b, Dispatch(a, logs1))) == Dispatch(c, Dispatch(b, Dispatch(a, logs2)))
  {
    var r1, r2 := Dispatch(c, Dispatch(b, Dispatch(a, logs1))), Dispatch(c, Dispatch(b, Dispatch(a, logs2)));
    assert |r1| == 3 && |r2| == 3;
  }

  /** Every line of the log is one a dispatch writes. */
  predicate KnownLines(logs: seq<string>)
  {
    forall i :: 0 <= i < |logs| ==> logs[i] in {DirectLine, BroadcastLine, FoundLine}
  }

  /** Every "Found Responder" line follows the "Broadcast" line it answers. */
  predicate Answered(logs: seq<string>)
  {
    forall i :: 0 <= i < |logs| && logs[i] == FoundLine ==> i > 0 && logs[i - 1] == BroadcastLine
  }

  /** The log holds only dispatch lines and never shows a responder without its broadcast,
      however the modes are switched between dispatches. */
  lemma DispatchKeepsLog(decoupled: bool, logs: seq<string>)
    requires KnownLines(logs) && Answered(logs)
    ensures KnownLines(Dispatch(decoupled, logs)) && Answered(Dispatch(decoupled, logs))
  {
    var r := Dispatch(decoupled, logs);
    var k := |DispatchLines(decoupled)|;
    assert forall i :: k <= i < |r| ==> r[i] == logs[i - k];
  }

  const TabletHead: string := "class RyderTablet {\n"
  const TabletTail: string := "    }\n}"

  const CoupledBefore: string := TabletHead + CoupledAlert + CoupledComment + CoupledConcrete + CoupledAssign
  const CoupledAlert: string := "    public function alert() {\n"
  const CoupledComment: string := "        // Error: Depends on "
  const CoupledConcrete: string := "concrete Marshall\n        "
  const CoupledAssign: string := "$responder = "
  const NewMarshall: string := "new Marshall()"
  const CoupledAfter: string := CoupledEnd + CoupledSpray + TabletTail
  const CoupledEnd: string := ";\n"
  const CoupledSpray: string := "        $responder->spray();\n"

  const DecoupledBefore: string := TabletHead + DecoupledAlert
  const DecoupledAlert: string := "    public function alert("
  const FirefighterName: string := "Firefighter"
  const DecoupledAfter: string := DecoupledParam + DecoupledComment + DecoupledPup + DecoupledCall + TabletTail
  const DecoupledParam: string := " $f) {\n"
  const DecoupledComment: string := "        // Depends on concept, "
  const DecoupledPup: string := "not the pup!\n        "
  const DecoupledCall: string := "$f->extinguish();\n"

  lemma TabletHeadLacks() ensures 'F' !in TabletHead && 'w' !in TabletHead { }
  lemma TabletTailLacks() ensures 'F' !in TabletTail && 'w' !in TabletTail { }
  lemma CoupledAlertLacks() ensures 'F' !in CoupledAlert { }
  lemma CoupledCommentLacks() ensures 'F' !in CoupledComment { }
  lemma CoupledConcreteLacks() ensures 'F' !in CoupledConcrete { }
  lemma CoupledAssignLacks() ensures 'F' !in CoupledAssign { }
  lemma CoupledSprayLacks() ensures 'F' !in CoupledSpray && 'F' !in CoupledEnd && 'F' !in NewMarshall { }
  lemma DecoupledAlertLacks() ensures 'w' !in DecoupledAlert && 'w' !in DecoupledParam { }
  lemma DecoupledCommentLacks() ensures 'w' !in DecoupledComment { }
  lemma DecoupledPupLacks() ensures 'w' !in DecoupledPup && 'w' !in DecoupledCall && 'w' !in FirefighterName { }

  /** `tabletCode`: the snippet names the `Firefighter` abstraction exactly in decoupled
      mode, and constructs a concrete Marshall exactly in coupled mode. */
  function TabletCode(decoupled: bool): (r: string)
    ensures Contains(r, FirefighterName) <==> decoupled
    ensures Contains(r, NewMarshall) <==> !decoupled
  {
    TabletHeadLacks();
    TabletTailLacks();
    if decoupled then
      var r := DecoupledBefore + FirefighterName + DecoupledAfter;
      ContainsIn(DecoupledBefore, FirefighterName, DecoupledAfter);
      DecoupledAlertLacks();
      DecoupledCommentLacks();
      DecoupledPupLacks();
      assert NewMarshall[2] == 'w';
      MissingCharacter(r, NewMarshall, 2);
      r
    else
      var r := CoupledBefore + NewMarshall + CoupledAfter;
      ContainsIn(CoupledBefore, NewMarshall, CoupledAfter);
      CoupledAlertLacks();
      CoupledCommentLacks();
      CoupledConcreteLacks();
      CoupledAssignLacks();
      CoupledSprayLacks();
      assert FirefighterName[0] == 'F';
      MissingCharacter(r, FirefighterName, 0);
      r
  }

  class Game {
    var isDecoupled: bool
    var logs: seq<string>

    constructor()
      ensures !isDecoupled && logs == []
    {
      isDecoupled := false;
      logs := [];
    }

    /** `callForHelp`: the log gains this mode's lines in front and keeps at most three. */
    method CallForHelp()
      modifies this
      ensures isDecoupled == old(isDecoupled)
      ensures logs == Dispatch(isDecoupled, old(logs))
    {
      if !isDecoupled {
        logs := Take([DirectLine] + logs, 3);
      } else {
        logs := Take([BroadcastLine, FoundLine] + logs, 3);
      }
    }

    /** The two mode buttons: only the mode changes, the log is left as it is. */
    method SetDecoupled(decoupled: bool)
      modifies this
      ensures isDecoupled == decoupled && logs == old(logs)
    {
      isDecoupled := decoupled;
    }
  }
}

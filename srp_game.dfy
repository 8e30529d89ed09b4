/**
  The mission-delegation game (components/interactive/SRPGame.tsx): tasks are
  handed to pups, and a pup whose role differs from the task's is refused with
  a violation message instead.
 */
module SrpGame {
  import opened Types

  const Tasks: seq<Task> := [
    Task("t1", "Sniff out clues", Police),
    Task("t2", "Extinguish fire", Fire)]

  const Pups: seq<Pup> := [
    Pup("Chase", Police, "bg-blue-600"),
    Pup("Marshall", Fire, "bg-red-600")]

  /** `assignments[id]` is truthy: present and not the empty string. */
  predicate Assigned(assignments: map<string, string>, id: string)
  {
    id in assignments && assignments[id] != ""
  }

  /** `TASKS.every(t => assignments[t.id])`, over a suffix of the task list. */
  function EveryAssigned(tasks: seq<Task>, assignments: map<string, string>): (r: bool)
    ensures r <==> forall t :: t in tasks ==> Assigned(assignments, t.id)
  {
    if tasks == [] then true
    else Assigned(assignments, tasks[0].id) && EveryAssigned(tasks[1..], assignments)
  }

  /** `isComplete`: the game is complete exactly when both tasks are assigned. */
  function IsComplete(assignments: map<string, string>): (r: bool)
    ensures r <==> Assigned(assignments, "t1") && Assigned(assignments, "t2")
  {
    assert Tasks[0] in Tasks && Tasks[1] in Tasks;
    EveryAssigned(Tasks, assignments)
  }

  const ViolationHead: string := "\U{1F6A8} SRP Violation! "
  const ViolationMiddle: string := " is specialized for "
  const ViolationTail: string := ". MissionHandler shouldn't mix roles!"

  /** The feedback for a refused assignment: it names the pup and the pup's role. */
  function ViolationMessage(pupName: string, pupRole: Role): (r: string)
    ensures Contains(r, pupName) && Contains(r, RoleName(pupRole))
  {
    ContainsBoth(ViolationHead, pupName, ViolationMiddle, RoleName(pupRole), ViolationTail);
    ViolationHead + pupName + ViolationMiddle + RoleName(pupRole) + ViolationTail
  }

  /** A recorded assignment pairs a task with a pup of the task's required role. */
  predicate Fits(taskId: string, pupName: string)
  {
    exists t, p :: t in Tasks && p in Pups && t.id == taskId && p.name == pupName && p.role == t.requiredRole
  }

  predicate Valid(assignments: map<string, string>)
  {
    forall id :: id in assignments ==> Fits(id, assignments[id])
  }

  /** With the fixed tasks and pups, `t1` can only hold Chase and `t2` only Marshall. */
  lemma ValidAssignments(assignments: map<string, string>)
    requires Valid(assignments)
    ensures forall id :: id in assignments ==>
      (id == "t1" && assignments[id] == "Chase") || (id == "t2" && assignments[id] == "Marshall")
  {
    forall id | id in assignments
      ensures (id == "t1" && assignments[id] == "Chase") || (id == "t2" && assignments[id] == "Marshall")
    {
      var t, p :| t in Tasks && p in Pups && t.id == id && p.name == assignments[id] && p.role == t.requiredRole;
      assert t == Tasks[0] || t == Tasks[1];
      assert p == Pups[0] || p == Pups[1];
    }
  }

  const DecoupledCode: string :=
    "// GOOD: Responsibility is Decoupled\nclass FireService {\n    public function sprayWater() { ... }\n}\n\nclass PoliceService {\n    public function track() { ... }\n}"

  const HandlerHead: string := HeadClass + HeadRun + HeadComment + HeadIndent
  const HeadClass: string := "class MissionHandler {\n"
  const HeadRun: string := "    public function run() {\n"
  const HeadComment: string := "        // Mixing multiple "
  const HeadIndent: string := "responsibilities!\n        "
  const HandlerBetween: string := " \n        "
  const HandlerTail: string := "\n    }\n}"
  const Waiting: string := "// Waiting..."
  const MarshallLine: string := "Marshall->spray();"
  const ChaseLine: string := "Chase->track();"

  /** The handler snippet with the call (or the waiting comment) for `t2`, then for `t1`. */
  function HandlerCode(second: string, first: string): string
  {
    HandlerHead + second + HandlerBetween + first + HandlerTail
  }

  lemma HeadClassLacks() ensures 'y' !in HeadClass && 'k' !in HeadClass { }
  lemma HeadRunLacks() ensures 'y' !in HeadRun && 'k' !in HeadRun { }
  lemma HeadCommentLacks() ensures 'y' !in HeadComment && 'k' !in HeadComment { }
  lemma HeadIndentLacks() ensures 'y' !in HeadIndent && 'k' !in HeadIndent { }

  /** Neither `y` (of `spray`) nor `k` (of `track`) occurs in the fixed parts of the
      handler snippet or in the waiting comment. */
  lemma FixedPartsLack()
    ensures 'y' !in HandlerHead && 'k' !in HandlerHead
    ensures 'y' !in HandlerBetween && 'k' !in HandlerBetween
    ensures 'y' !in HandlerTail && 'k' !in HandlerTail
    ensures 'y' !in Waiting && 'k' !in Waiting
  {
    HeadClassLacks();
    HeadRunLacks();
    HeadCommentLacks();
    HeadIndentLacks();
  }

  /** The handler snippet calls Marshall exactly when its `t2` slot holds the call. */
  lemma HandlerCallsMarshall(second: string, first: string)
    requires second == MarshallLine || second == Waiting
    requires first == ChaseLine || first == Waiting
    ensures Contains(HandlerCode(second, first), MarshallLine) <==> second == MarshallLine
  {
    if second == MarshallLine {
      ContainsBoth(HandlerHead, second, HandlerBetween, first, HandlerTail);
    } else {
      FixedPartsLack();
      assert 'y' !in ChaseLine;
      assert MarshallLine[14] == 'y';
      MissingCharacter(HandlerCode(second, first), MarshallLine, 14);
    }
  }

  /** The handler snippet calls Chase exactly when its `t1` slot holds the call. */
  lemma HandlerCallsChase(second: string, first: string)
    requires second == MarshallLine || second == Waiting
    requires first == ChaseLine || first == Waiting
    ensures Contains(HandlerCode(second, first), ChaseLine) <==> first == ChaseLine
  {
    if first == ChaseLine {
      ContainsBoth(HandlerHead, second, HandlerBetween, first, HandlerTail);
    } else {
      FixedPartsLack();
      assert 'k' !in MarshallLine;
      assert ChaseLine[11] == 'k';
      MissingCharacter(HandlerCode(second, first), ChaseLine, 11);
    }
  }

  /** `dynamicCode`: the snippet the code panel shows for the current assignments. Until
      both tasks are assigned, it calls Marshall exactly when `t2` is assigned and Chase
      exactly when `t1` is; once both are, it is the decoupled snippet. */
  function DynamicCode(assignments: map<string, string>): (r: string)
    ensures IsComplete(assignments) ==> r == DecoupledCode
    ensures !IsComplete(assignments) ==>
      (Contains(r, MarshallLine) <==> Assigned(assignments, "t2")) &&
      (Contains(r, ChaseLine) <==> Assigned(assignments, "t1"))
  {
    if IsComplete(assignments) then DecoupledCode
    else
      var second := if Assigned(assignments, "t2") then MarshallLine else Waiting;
      var first := if Assigned(assignments, "t1") then ChaseLine else Waiting;
      HandlerCallsMarshall(second, first);
      HandlerCallsChase(second, first);
      HandlerCode(second, first)
  }

  class Game {
    var assignments: map<string, string>
    var feedback: Option<string>

    constructor()
      ensures assignments == map[] && feedback == None
    {
      assignments := map[];
      feedback := None;
    }

    /** `handleAssign`: a pup of the wrong role leaves the assignments alone and sets the
        violation feedback; otherwise the task is given to the pup and nothing else changes. */
    method HandleAssign(taskId: string, pupName: string, pupRole: Role, requiredRole: Role)
      modifies this
      ensures pupRole != requiredRole ==>
        assignments == old(assignments) && feedback == Some(ViolationMessage(pupName, pupRole))
      ensures pupRole == requiredRole ==>
        assignments == old(assignments)[taskId := pupName] && feedback == old(feedback)
    {
      if pupRole != requiredRole {
        feedback := Some(ViolationMessage(pupName, pupRole));
        return;
      }
      assignments := assignments[taskId := pupName];
    }

    /** A click on the button of `pup` under `task`; the button is disabled once the
        task is assigned. Every recorded assignment keeps fitting its task. */
    method Click(task: Task, pup: Pup)
      requires task in Tasks && pup in Pups
      requires Valid(assignments)
      modifies this
      ensures Valid(assignments)
      ensures Assigned(old(assignments), task.id) ==> assignments == old(assignments) && feedback == old(feedback)
      ensures !Assigned(old(assignments), task.id) && pup.role == task.requiredRole ==>
        assignments == old(assignments)[task.id := pup.name] && feedback == old(feedback)
      ensures !Assigned(old(assignments), task.id) && pup.role != task.requiredRole ==>
        assignments == old(assignments) && feedback == Some(ViolationMessage(pup.name, pup.role))
    {
      if !Assigned(assignments, task.id) {
        HandleAssign(task.id, pup.name, pup.role, task.requiredRole);
      }
    }
  }
}

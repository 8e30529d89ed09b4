/**
  The value types the playground components share (types.ts), and the substring
  test used to state what a generated code snippet says.
 */
module Types {

  datatype Option<T> = None | Some(value: T)

  /** The five principles, in the order the tabs list them. */
  datatype PrincipleType = SRP | OCP | LSP | ISP | DIP

  datatype Role = Police | Fire | Pilot | Construction

  /** A mission task and the role a pup must have to take it. */
  datatype Task = Task(id: string, description: string, requiredRole: Role)

  /** A pup of the delegation game: its name, its one role and its badge colour. */
  datatype Pup = Pup(name: string, role: Role, color: string)

  /** The string value of each `PrincipleType` member. */
  function PrincipleId(p: PrincipleType): string
  {
    match p
    case SRP => "SRP"
    case OCP => "OCP"
    case LSP => "LSP"
    case ISP => "ISP"
    case DIP => "DIP"
  }

  function RoleName(r: Role): string
  {
    match r
    case Police => "Police"
    case Fire => "Fire"
    case Pilot => "Pilot"
    case Construction => "Construction"
  }

  /** `w` occurs in `s` at index `i`. */
  predicate InfixAt(s: string, w: string, i: nat)
  {
    i + |w| <= |s| && s[i..i + |w|] == w
  }

  /** `s.includes(w)`. */
  ghost predicate Contains(s: string, w: string)
  {
    exists i: nat :: InfixAt(s, w, i)
  }

  /** A text containing `w` contains it still with text added on either side. */
  lemma ContainsIn(a: string, w: string, b: string)
    ensures Contains(a + w + b, w)
  {
    assert (a + w + b)[|a|..|a| + |w|] == w;
    assert InfixAt(a + w + b, w, |a|);
  }

  /** Text built around two pieces contains both of them. */
  lemma ContainsBoth(a: string, w: string, b: string, v: string, c: string)
    ensures Contains(a + w + b + v + c, w) && Contains(a + w + b + v + c, v)
  {
    ContainsIn(a, w, b + v + c);
    assert a + w + b + v + c == a + w + (b + v + c);
    ContainsIn(a + w + b, v, c);
  }

  /** A text lacking a character of `w` does not contain `w`. */
  lemma MissingCharacter(s: string, w: string, k: nat)
    requires k < |w| && w[k] !in s
    ensures !Contains(s, w)
  {
    forall i: nat | i + |w| <= |s|
      ensures !InfixAt(s, w, i)
    {
      assert s[i..i + |w|][k] == s[i + k];
      assert s[i + k] in s;
    }
  }
}

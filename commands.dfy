/** The two keyboard commands the extension registers (commands-constants.js). */
module Commands {
  import opened Wrappers

  datatype Command = RotateForward | RotateReverse

  /** The name under which the browser delivers each command. */
  function Name(c: Command): string
  {
    match c
    case RotateForward => "rotate-tabs"
    case RotateReverse => "rotate-tabs-reverse"
  }

  /** Identifies a delivered command name; names that are not ours give None. */
  function Parse(name: string): (c: Option<Command>)
    ensures c.Some? ==> Name(c.value) == name
    ensures c.None? ==> forall k: Command :: Name(k) != name
  {
    if name == Name(RotateForward) then Some(RotateForward)
    else if name == Name(RotateReverse) then Some(RotateReverse)
    else None
  }

  /** Every command is recognised by its own name, so the two names differ. */
  lemma ParseName(c: Command)
    ensures Parse(Name(c)) == Some(c)
  {
    assert Name(RotateForward) != Name(RotateReverse) by {
      assert |Name(RotateForward)| != |Name(RotateReverse)|;
    }
  }
}

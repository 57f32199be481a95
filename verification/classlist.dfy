/**
  An element's `classList`, as a set of class names. `classList.add` and
  `classList.remove` are both written as `SetClass`; adding a present class
  and removing an absent one change nothing.
 */
module ClassList {

  type Classes = set<string>

  /** `add(name)` when `on`, `remove(name)` otherwise. */
  function SetClass(cs: Classes, name: string, on: bool): (r: Classes)
    ensures name in r <==> on
    ensures forall c :: c != name ==> (c in r <==> c in cs)
  {
    if on then cs + {name} else cs - {name}
  }

  /** The last write of a class decides it, whatever was written before. */
  lemma SetClassOverwrites(cs: Classes, name: string, first: bool, second: bool)
    ensures SetClass(SetClass(cs, name, first), name, second) == SetClass(cs, name, second)
  {
  }
}

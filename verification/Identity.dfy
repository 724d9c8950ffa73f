/** Tap and Formula identities, internal/catalog/identity.go. A Formula identity is a
    tap and a short name; its text is `tap/name`, and a short name is not empty and has no slash. */
module Identity {
  import opened Sorting

  type TapId = string

  const CORE_TAP: TapId := "homebrew/core"

  type Name = s: string | s != "" && '/' !in s witness "a"

  datatype FormulaId = FormulaId(tap: TapId, name: Name)

  predicate IsCore(id: FormulaId) { id.tap == CORE_TAP }

  function Text(id: FormulaId): string { id.tap + "/" + id.name }

  predicate IdLe(a: FormulaId, b: FormulaId) { TextLe(Text(a), Text(b)) }

  /** The text determines the identity. */
  lemma TextInjective(a: FormulaId, b: FormulaId)
    requires Text(a) == Text(b)
    ensures a == b
  {
    LastSlash(a);
    LastSlash(b);
    var t := Text(a);
    assert t[..|a.tap|] == a.tap && t[..|b.tap|] == b.tap;
    assert t[|a.tap| + 1..] == a.name && t[|b.tap| + 1..] == b.name;
  }

  lemma LastSlash(a: FormulaId)
    ensures Text(a)[|a.tap|] == '/'
    ensures forall i | |a.tap| < i < |Text(a)| :: Text(a)[i] != '/'
  {
    forall i | |a.tap| < i < |Text(a)| ensures Text(a)[i] != '/' {
      assert Text(a)[i] == a.name[i - |a.tap| - 1];
    }
  }

  lemma IdLeOrder()
    ensures TotalPreorder(IdLe)
  {
    KeyOrder(Text, IdLe);
  }

  lemma IdLeAntisym(a: FormulaId, b: FormulaId)
    requires IdLe(a, b) && IdLe(b, a)
    ensures a == b
  {
    TextLeAntisym(Text(a), Text(b));
    TextInjective(a, b);
  }
}

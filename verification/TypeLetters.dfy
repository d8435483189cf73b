/** The letters and codes of types that the modules on descriptors, fields and stacks go by are those of the JVMS. */
module TypeLetters {
  import opened JavaTypes
  import D = Descriptors
  import F = FieldLayout
  import O = OperandStack

  /** Every module knows the type by its letter, with the same category and code. */
  lemma LettersAgree(p: Primitive)
    ensures p.Letter() in D.LETTERS
    ensures D.Width(D.Base(p.Letter())) == p.Category()
    ensures D.TagOf(p.Letter()) == p.Code()
    ensures F.SizeOf([p.Letter()]) == 4 * p.Category()
    ensures O.Wide(D.TagOf(p.Letter())) <==> p.Category() == 2
  {
  }

  /** There are no other letters, and two primitive types have different ones. */
  lemma LettersAreAll(letter: char)
    requires letter in D.LETTERS
    ensures exists p: Primitive :: p.Letter() == letter
    ensures forall p: Primitive, q: Primitive :: p.Letter() == q.Letter() || p.Code() == q.Code() ==> p == q
  {
    var p :=
      if letter == 'B' then Byte else if letter == 'C' then Char else if letter == 'D' then Double
      else if letter == 'F' then Float else if letter == 'I' then Int else if letter == 'J' then Long
      else if letter == 'S' then Short else Boolean;
    assert p.Letter() == letter;
  }

  /** Reference types of every kind have one code, and a field of them takes four bytes. */
  lemma ReferencesAgree(t: D.Type)
    requires t.Class? || t.Array?
    ensures D.TagOf(D.Print(t)[0]) == 8 && !O.Wide(8) && D.Width(t) == 1 && F.SizeOf(D.Print(t)) == 4
  {
  }
}

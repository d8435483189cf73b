/** The primitive types of the JVMS (Table 4.3-A and section 2.11.1), with the codes the source gives them. */
module JavaTypes {
  datatype Primitive = Boolean | Byte | Char | Short | Int | Float | Long | Double {
    /** In a descriptor. */
    function Letter(): char {
      match this
      case Boolean => 'Z'
      case Byte => 'B'
      case Char => 'C'
      case Short => 'S'
      case Int => 'I'
      case Float => 'F'
      case Long => 'J'
      case Double => 'D'
    }

    /** How many cells a value takes on the stack and among the locals. */
    function Category(): nat { if this == Long || this == Double then 2 else 1 }

    /** The bytes of a value in an array. */
    function Width(): nat {
      match this
      case Boolean => 1
      case Byte => 1
      case Char => 2
      case Short => 2
      case Int => 4
      case Float => 4
      case Long => 8
      case Double => 8
    }

    /** dataTypes.h:13-20. */
    function Code(): nat {
      match this
      case Boolean => 0
      case Char => 1
      case Byte => 2
      case Short => 3
      case Int => 4
      case Long => 5
      case Float => 6
      case Double => 7
    }
  }
}

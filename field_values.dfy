/** The two states of a cell and the one-letter name each state carries. */
module FieldValues {

  datatype FieldValue = ACTIVE | INACTIVE {

    /** The letter given to the constant when the enumeration is declared. */
    function Value(): (s: string)
      ensures |s| == 1
      ensures (s == "O") <==> this == ACTIVE
      ensures (s == "X") <==> this == INACTIVE
    {
      match this
      case ACTIVE => "O"
      case INACTIVE => "X"
    }

    /** The enumeration prints itself as its letter. */
    function ToString(): (s: string)
      ensures |s| == 1 && ((s == "O") <==> this == ACTIVE) && ((s == "X") <==> this == INACTIVE)
    {
      Value()
    }
  }

  /** ACTIVE and INACTIVE swap; used by a cell's toggle. */
  function Toggled(v: FieldValue): (r: FieldValue)
    ensures r != v
  {
    if v == ACTIVE then INACTIVE else ACTIVE
  }

  lemma ToggledTwice(v: FieldValue)
    ensures Toggled(Toggled(v)) == v
  {
  }

  /** Distinct values have distinct letters, so a letter names its value. */
  lemma LetterInjective(a: FieldValue, b: FieldValue)
    ensures a.Value() == b.Value() ==> a == b
    ensures a.ToString() == a.Value()
  {
    if a != b {
      assert a.Value()[0] != b.Value()[0];
    }
  }
}

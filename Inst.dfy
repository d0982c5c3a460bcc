/** Machine words and instructions. */
module Insts {

  const WORD_MIN: int := -0x8000_0000_0000_0000
  const WORD_MAX: int := 0x7FFF_FFFF_FFFF_FFFF

  /** A signed 64-bit machine word. */
  newtype Word = x: int | InWordRange(x)

  predicate InWordRange(x: int) {
    WORD_MIN <= x <= WORD_MAX
  }

  /** The instruction kinds. `Illegal(tag)` stands for a type field whose value
      lies outside the five enumerators of the instruction type. */
  datatype InstType = Push | Plus | Minus | Mult | Div | Illegal(tag: int)
  {
    /** The kinds that replace the top two words by one. */
    predicate IsBinary() {
      Plus? || Minus? || Mult? || Div?
    }

    /** An `Illegal` kind carries a tag that no enumerator has. */
    predicate WellFormed() {
      Illegal? ==> !(0 <= tag <= 4)
    }
  }

  /** The kinds a type field can denote: an `Illegal` tag never coincides with
      an enumerator, so every kind corresponds to exactly one C tag value. */
  type Kind = k: InstType | k.WellFormed() witness Push

  /** An instruction: a kind and an operand that only `Push` reads. */
  datatype Inst = Inst(kind: Kind, operand: Word)

  /** The numeric value of a kind, following the C enumeration order. */
  function TagOf(k: Kind): (tag: int)
    ensures k.IsBinary() <==> 1 <= tag <= 4
    ensures k.Push? <==> tag == 0
  {
    match k
    case Push => 0
    case Plus => 1
    case Minus => 2
    case Mult => 3
    case Div => 4
    case Illegal(t) => t
  }

  /** Decodes a raw type field; values outside the enumeration are illegal. */
  function KindOf(tag: int): (k: Kind)
    ensures k.Illegal? <==> !(0 <= tag <= 4)
    ensures TagOf(k) == tag
  {
    if tag == 0 then Push
    else if tag == 1 then Plus
    else if tag == 2 then Minus
    else if tag == 3 then Mult
    else if tag == 4 then Div
    else Illegal(tag)
  }

  /** Encoding a kind and decoding it gives the kind back. */
  lemma KindTagRoundTrip(k: Kind)
    ensures KindOf(TagOf(k)) == k
  {
  }
}

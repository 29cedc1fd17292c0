/** The single-bit value type of bits.cpp. */
module Bits {
  import opened Results

  /** A bit holds one boolean; it can only be made from the numbers 0 and 1. */
  datatype Bit = Bit(value: bool)

  const Zero := Bit(false)
  const One := Bit(true)

  /** The two ways constructing a bit can fail. */
  datatype BitError =
    | CharacterConfusion       // the caller passed the character code of '0' or '1'
    | IllegalValue(value: int) // any other number that is neither 0 nor 1

  /** The number a bit stands for. */
  function ToInt(b: Bit): (n: int)
    ensures n == 0 || n == 1
    ensures n == 1 <==> b.value
  {
    if b.value then 1 else 0
  }

  /** `Bit::Bit(int)`: checks the character codes first, then the numeric range. */
  function MakeBit(value: int): (r: Result<Bit, BitError>)
    ensures r.Success? <==> value == 0 || value == 1
    ensures r.Success? ==> ToInt(r.value) == value
    ensures value == '0' as int || value == '1' as int ==> r == Failure(CharacterConfusion)
    ensures r.Failure? && r.error != CharacterConfusion ==> r.error == IllegalValue(value)
  {
    if value == '0' as int || value == '1' as int then Failure(CharacterConfusion)
    else if value != 0 && value != 1 then Failure(IllegalValue(value))
    else Success(Bit(value == 1))
  }

  /** Every bit can be rebuilt from the number it stands for. */
  lemma MakeBitOfToInt(b: Bit)
    ensures MakeBit(ToInt(b)) == Success(b)
  {
  }

  /** The character-confusion error and the generic error never coincide. */
  lemma CharacterConfusionIsDistinct(value: int)
    requires MakeBit(value).Failure?
    ensures MakeBit(value).error == CharacterConfusion <==> value == 48 || value == 49
  {
  }

  /** `operator==` on bits: compares the stored values. */
  predicate Equal(lhs: Bit, rhs: Bit)
    ensures Equal(lhs, rhs) <==> lhs == rhs
  {
    lhs.value == rhs.value
  }

  /** `operator!=` on bits: the negation of `operator==`. */
  predicate NotEqual(lhs: Bit, rhs: Bit)
    ensures NotEqual(lhs, rhs) <==> lhs != rhs
  {
    !Equal(lhs, rhs)
  }
}

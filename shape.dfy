/** The structural shape ("form key") of a Nerdle equation: every digit is
    replaced by one marker, operators and '=' are kept where they are. */
module Shape {

  /** The marker that stands for any digit in a form key. */
  const DigitMarker: char := 'D'

  /** A decimal digit. */
  predicate IsDigit(ch: char) {
    '0' <= ch <= '9'
  }

  /** What one character of an equation becomes in its form key. */
  function KeyChar(ch: char): char {
    if IsDigit(ch) then DigitMarker else ch
  }

  /** The form key of an equation: same length, each digit turned into the
      marker, every other character unchanged. */
  function FormKey(eq: string): (key: string)
    ensures |key| == |eq|
    ensures forall i :: 0 <= i < |eq| ==>
      key[i] == (if IsDigit(eq[i]) then DigitMarker else eq[i])
  {
    if eq == [] then [] else [KeyChar(eq[0])] + FormKey(eq[1..])
  }

  /** Same length, digits at the same positions, and the same non-digit
      character at every other position. */
  predicate SameLayout(a: string, b: string) {
    |a| == |b| &&
    forall i :: 0 <= i < |a| ==>
      (IsDigit(a[i]) <==> IsDigit(b[i])) && (!IsDigit(a[i]) ==> a[i] == b[i])
  }

  /** For equations that do not themselves use the marker character, equal
      form keys mean exactly an equal layout. */
  lemma SameFormIff(a: string, b: string)
    requires DigitMarker !in a && DigitMarker !in b
    ensures FormKey(a) == FormKey(b) <==> SameLayout(a, b)
  {
  }
}

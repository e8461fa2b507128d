/**
 * The page's three value converters. Each is a one-way mapping from a bound
 * value to a colour or to a visibility flag; none of them can be inverted.
 */
module Converters {

  /** The colours the tab strip paints its rows with. */
  datatype Color = White | Transparent | Black | Gray

  /**
   * A boxed value handed to a converter by the binding engine: a bool, an
   * int, or anything else (including null).
   */
  datatype Value = BoolValue(b: bool) | IntValue(n: int) | OtherValue

  /** TabSelectionConverter: a selection flag to the tab's background colour. */
  function SelectionBackground(v: Value): (c: Color)
    ensures c == White <==> v == BoolValue(true)
    ensures c != White ==> c == Transparent
  {
    match v
    case BoolValue(isSelected) => if isSelected then White else Transparent
    case _ => Transparent
  }

  /** TabTextConverter: a selection flag to the tab's text colour. */
  function SelectionText(v: Value): (c: Color)
    ensures c == Black <==> v == BoolValue(true)
    ensures c != Black ==> c == Gray
  {
    match v
    case BoolValue(isSelected) => if isSelected then Black else Gray
    case _ => Gray
  }

  /**
   * ShowCloseButtonConverter: a tab count to the close button's visibility.
   * Only an int of at most one hides the button; anything else shows it.
   */
  function ShowCloseButton(v: Value): (visible: bool)
    ensures !visible <==> v.IntValue? && v.n <= 1
  {
    match v
    case IntValue(tabCount) => tabCount > 1
    case _ => true
  }
}

/** What a cell button shows: blank, the flag mark a player toggles on a
    hidden cell, or, once the cell is revealed, its value; and the colour
    COLORS gives a revealed value. */
module Labels {

  /** COLORS: the foreground of a revealed cell holding value n is entry n + 1. */
  const Colors: seq<string> := ["#000000", "#ffffff", "#0100fe", "#017f01", "#fe0000",
                                "#010080", "#810102", "#008081", "#000000", "#808080"]

  /** The four kinds of text a cell button can carry. */
  datatype Face = Blank | Flag | Count(n: nat) | MineMark

  /** One cell button: `state` is true while the cell can still be opened,
      `face` is its text and `foreground` the colour its text takes once
      the button is disabled, empty until then. */
  datatype Button = Button(state: bool, face: Face, foreground: string)

  /** The string the button displays for a face. */
  function Text(f: Face): string
  {
    match f
    case Blank => ""
    case Flag => "X"
    case Count(n) => Decimal(n)
    case MineMark => "@"
  }

  /** The foreground of a revealed cell holding n; values run from the mine
      sentinel -1 to 8 mines around, so n + 1 stays inside COLORS. */
  function Foreground(n: int): string
    requires -1 <= n <= 8
  {
    Colors[n + 1]
  }

  function Digit(d: nat): char
    requires d < 10
  {
    ('0' as int + d) as char
  }

  /** The number a string of decimal digits spells, read left to right. */
  function DigitsValue(s: string): nat
    requires forall k :: 0 <= k < |s| ==> '0' <= s[k] <= '9'
  {
    if |s| == 0 then 0 else DigitsValue(s[..|s| - 1]) * 10 + (s[|s| - 1] as int - '0' as int)
  }

  /** The decimal numeral of n, as the toolkit renders an integer: digits
      that spell n, with no leading zero. */
  function Decimal(n: nat): (s: string)
    ensures |s| >= 1 && forall k :: 0 <= k < |s| ==> '0' <= s[k] <= '9'
    ensures DigitsValue(s) == n
    ensures s[0] == '0' <==> n == 0
    ensures n < 10 <==> |s| == 1
  {
    if n < 10 then [Digit(n)]
    else
      var s := Decimal(n / 10) + [Digit(n % 10)];
      assert s[..|s| - 1] == Decimal(n / 10);
      s
  }

  /** The face of a revealed cell: its count when positive, blank for 0,
      and the mine mark for the sentinel. */
  function Label(n: int): Face
  {
    if n > 0 then Count(n) else if n == 0 then Blank else MineMark
  }

  /** A button's text is empty exactly when its face is blank, so testing the
      text for emptiness tests for the blank face. */
  lemma TextEmptyIffBlank(f: Face)
    ensures Text(f) == "" <==> f == Blank
  {
  }

  /** Distinct cell values show distinct strings, so a revealed cell's text
      determines its value. */
  lemma LabelDeterminesValue(a: int, b: int)
    requires -1 <= a <= 8 && -1 <= b <= 8
    requires Text(Label(a)) == Text(Label(b))
    ensures a == b
  {
    if a > 0 && b > 0 {
      assert Text(Label(a))[0] == Digit(a) && Text(Label(b))[0] == Digit(b);
    }
  }

  /** No revealed cell looks flagged. */
  lemma LabelIsNeverFlag(n: int)
    ensures Text(Label(n)) != Text(Flag)
  {
    if n > 0 {
      assert Text(Label(n))[0] != Text(Flag)[0];
    }
  }

  /** right_click on a hidden cell: a non-empty text is cleared, an empty
      one becomes the flag mark. */
  function Toggled(f: Face): Face
  {
    if Text(f) != "" then Blank else Flag
  }

  /** On the faces a hidden cell can have, toggling flips between blank and
      flagged, and toggling twice restores the original. */
  lemma ToggleTwice(f: Face)
    requires f == Blank || f == Flag
    ensures Toggled(f) != f
    ensures Toggled(f) == Blank || Toggled(f) == Flag
    ensures Toggled(Toggled(f)) == f
  {
  }
}

/**
 * A spreadsheet cell as the engine sees a `QVariant`: empty (invalid),
 * text, or an integer; and the three conversions the engine applies to it.
 * Numeric cells are taken to hold whole numbers; the floating-point values
 * QXlsx actually delivers are not modelled.
 */
module Cells {
  import opened Options
  import opened Strings

  datatype Cell = Empty | Text(s: string) | Int(n: int)

  /** `QVariant::toString`: empty for an invalid value, the decimal digits of an integer. */
  function ToText(c: Cell): string
  {
    match c
    case Empty => ""
    case Text(s) => s
    case Int(n) => IntToString(n)
  }

  /** `QVariant::toInt`: an integer as it is, a numeric text parsed, everything else 0. */
  function AsInt(c: Cell): (v: int)
    ensures c.Int? ==> v == c.n
    ensures c.Empty? ==> v == 0
    ensures c.Text? ==> v == ParseInt(c.s).GetOr(0)
  {
    match c
    case Empty => 0
    case Text(s) => ParseInt(s).GetOr(0)
    case Int(n) => n
  }

  /** `toString().trimmed().isEmpty()`: the cell's text is empty once trimmed. */
  predicate IsBlank(c: Cell)
  {
    Trim(ToText(c)) == []
  }

  /** A cell is blank exactly when its text is all whitespace. */
  lemma BlankIsAllSpace(c: Cell)
    ensures IsBlank(c) <==> forall k :: 0 <= k < |ToText(c)| ==> IsSpace(ToText(c)[k])
  {
    TrimSpec(ToText(c));
  }

  /** Which cells are blank: the empty cell and all-whitespace texts; never an integer. */
  lemma BlankCells(c: Cell)
    ensures IsBlank(c) <==> c.Empty? || (c.Text? && forall k :: 0 <= k < |c.s| ==> IsSpace(c.s[k]))
  {
    BlankIsAllSpace(c);
    if c.Int? {
      var t := ToText(c);
      assert 0 < |t| && !IsSpace(t[0]);
      assert !IsBlank(c);
    } else if c.Text? {
      assert ToText(c) == c.s;
    }
  }

  /** The normalised form used to compare part names: trimmed, then lower-cased. */
  function NameKey(s: string): string
  {
    ToLower(Trim(s))
  }

  /** The part-name key of a cell. */
  function Key(c: Cell): string
  {
    NameKey(ToText(c))
  }

  /** A blank cell has the empty key and a non-blank cell does not. */
  lemma KeyEmptyIffBlank(c: Cell)
    ensures Key(c) == [] <==> IsBlank(c)
  {
  }

  /** Rendering a cell as text and reading it back as a number loses no quantity. */
  lemma AsIntOfText(c: Cell)
    ensures AsInt(Text(ToText(c))) == AsInt(c)
  {
    if c.Int? {
      IntRoundTrip(c.n);
    }
  }

  /** A cell holding an already-trimmed name has that name's key. */
  lemma KeyOfTrimmedName(name: string)
    ensures Key(Text(Trim(name))) == NameKey(name)
  {
    TrimIdempotent(name);
  }
}

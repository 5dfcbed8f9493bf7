/** The column helpers of cenpy/utilities.py: `_coerce`, which converts a
    column or leaves it alone, `_replace_missing`, which blanks the American
    Community Survey's missing-value codes in place, and `_can_int`. */
module Columns {
  import opened Optional
  import opened Text

  // ---------------------------------------------------------------------
  // _coerce

  /** What `_coerce` hands back: the converted column, or the original one
      when the conversion raised ValueError. */
  datatype Coerced<A, B> = Converted(converted: seq<B>) | Unchanged(original: seq<A>)

  /** astype(kind) with the element conversion `convert`: all cells convert,
      or the whole conversion fails. */
  function ConvertAll<A, B>(column: seq<A>, convert: A -> Option<B>): (r: Option<seq<B>>)
    ensures r.Some? <==> forall i :: 0 <= i < |column| ==> convert(column[i]).Some?
    ensures r.Some? ==>
              && |r.value| == |column|
              && forall i :: 0 <= i < |column| ==> convert(column[i]) == Some(r.value[i])
  {
    if |column| == 0 then Some([])
    else
      match convert(column[0])
      case None => None
      case Some(b) =>
        match ConvertAll(column[1..], convert)
        case None =>
          var i :| 0 <= i < |column[1..]| && convert(column[1..][i]).None?;
          assert convert(column[i + 1]).None?;
          None
        case Some(rest) => Some([b] + rest)
  }

  /** `_coerce`: the column converted cell by cell when every cell converts,
      otherwise the column itself. */
  function Coerce<A, B>(column: seq<A>, convert: A -> Option<B>): (r: Coerced<A, B>)
    ensures r.Unchanged? <==> exists i :: 0 <= i < |column| && convert(column[i]).None?
    ensures r.Unchanged? ==> r.original == column
    ensures r.Converted? ==>
              && |r.converted| == |column|
              && forall i :: 0 <= i < |column| ==> convert(column[i]) == Some(r.converted[i])
  {
    match ConvertAll(column, convert)
    case Some(values) => Converted(values)
    case None => Unchanged(column)
  }

  /** A conversion undone by `back` loses nothing: mapping the converted
      column back gives the original. */
  lemma {:induction false} CoerceRoundTrip<A, B>(column: seq<A>, convert: A -> Option<B>, back: B -> A)
    requires forall a :: convert(a).Some? ==> back(convert(a).value) == a
    ensures var r := Coerce(column, convert);
      r.Converted? ==> seq(|r.converted|, i requires 0 <= i < |r.converted| => back(r.converted[i])) == column
  {
    var r := Coerce(column, convert);
    if r.Converted? {
      var restored := seq(|r.converted|, i requires 0 <= i < |r.converted| => back(r.converted[i]));
      forall i | 0 <= i < |column| ensures restored[i] == column[i] {
        assert convert(column[i]) == Some(r.converted[i]);
      }
    }
  }

  // ---------------------------------------------------------------------
  // _replace_missing

  /** The codes the American Community Survey puts in place of an estimate
      that is missing or suppressed. */
  const AcsMissing: seq<int> := [-999999999, -888888888, -666666666, -555555555, -333333333, -222222222]

  /** A numeric cell; None stands for NaN. */
  type Cell = Option<int>

  /** The column after every cell holding one of `codes` has become NaN. */
  function Blanked(s: seq<Cell>, codes: seq<int>): (r: seq<Cell>)
    ensures |r| == |s|
  {
    seq(|s|, i requires 0 <= i < |s| => if s[i].Some? && s[i].value in codes then None else s[i])
  }

  /** After blanking, no cell holds a code, and every other cell is kept. */
  lemma BlankedCells(s: seq<Cell>, codes: seq<int>)
    ensures var r := Blanked(s, codes);
      forall i :: 0 <= i < |s| ==>
        && (r[i] == None <==> s[i] == None || s[i].value in codes)
        && (r[i].Some? ==> r[i] == s[i] && r[i].value !in codes)
  {
  }

  /** Blanking the codes one at a time is blanking them all at once. */
  lemma BlankedStep(s: seq<Cell>, codes: seq<int>, code: int)
    ensures Blanked(Blanked(s, codes), [code]) == Blanked(s, codes + [code])
  {
    var r, r' := Blanked(Blanked(s, codes), [code]), Blanked(s, codes + [code]);
    forall i | 0 <= i < |s| ensures r[i] == r'[i] {
      if s[i].Some? {
        assert s[i].value in codes + [code] <==> s[i].value in codes || s[i].value == code;
      }
    }
  }

  /** Blanking twice changes nothing more. */
  lemma BlankedIdempotent(s: seq<Cell>, codes: seq<int>)
    ensures Blanked(Blanked(s, codes), codes) == Blanked(s, codes)
  {
  }

  /** Series.replace(code, NaN, inplace=True). */
  method ReplaceCode(column: array<Cell>, code: int)
    modifies column
    ensures column[..] == Blanked(old(column[..]), [code])
  {
    forall i | 0 <= i < column.Length && column[i] == Some(code) {
      column[i] := None;
    }
  }

  /** `_replace_missing`: replaces each missing-value code in turn with NaN,
      in place, and returns the same column. */
  method ReplaceMissing(column: array<Cell>) returns (r: array<Cell>)
    modifies column
    ensures r == column
    ensures column[..] == Blanked(old(column[..]), AcsMissing)
  {
    for k := 0 to |AcsMissing|
      invariant column[..] == Blanked(old(column[..]), AcsMissing[..k])
    {
      ReplaceCode(column, AcsMissing[k]);
      BlankedStep(old(column[..]), AcsMissing[..k], AcsMissing[k]);
      assert AcsMissing[..k + 1] == AcsMissing[..k] + [AcsMissing[k]];
    }
    assert AcsMissing[..|AcsMissing|] == AcsMissing;
    r := column;
  }

  // ---------------------------------------------------------------------
  // _can_int

  predicate IsDigit(c: char) {
    '0' <= c <= '9'
  }

  /** Decimal digits, with single underscores allowed between two digits. */
  predicate DigitGroups(s: string) {
    && |s| > 0
    && forall k :: 0 <= k < |s| && !IsDigit(s[k]) ==>
         s[k] == '_' && 0 < k < |s| - 1 && IsDigit(s[k - 1]) && IsDigit(s[k + 1])
  }

  /** The text without its leading sign, if it has one. */
  function Unsigned(t: string): string {
    if |t| > 0 && (t[0] == '+' || t[0] == '-') then t[1..] else t
  }

  /** `_can_int`: whether int() accepts the text, which it does for digits
      with an optional sign and surrounding whitespace. */
  predicate CanInt(s: string) {
    DigitGroups(Unsigned(Strip(s)))
  }

  /** Text without whitespace at either end is its own strip. */
  lemma StripTrimmed(s: string)
    requires |s| > 0 && !IsSpace(s[0]) && !IsSpace(s[|s| - 1])
    ensures Strip(s) == s
  {
    assert LeadingSpace(s) == 0;
    assert s[0..] == s;
    assert TrailingSpace(s) == 0;
  }

  /** On one character, `_can_int` holds exactly for a decimal digit. */
  lemma CanIntChar(c: char)
    ensures CanInt([c]) <==> IsDigit(c)
  {
    if IsSpace(c) {
      var r := Strip([c]);
      assert r == [];
      assert Unsigned(r) == [];
    } else {
      StripTrimmed([c]);
      if c == '+' || c == '-' {
        assert Unsigned([c]) == [];
      } else {
        assert Unsigned([c]) == [c];
        if !IsDigit(c) {
          assert !DigitGroups([c]) by {
            assert 0 <= 0 < |[c]| && !IsDigit([c][0]);
          }
        }
      }
    }
  }
}

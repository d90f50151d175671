/**
 * The textual vector literal sent to pgvector (`pgvector_text` in src/app.py):
 * non-finite entries become 0.0, then the vector is written as
 * `[v0,v1,...]` with every value in fixed-point notation.
 *
 * The decimal rendering of one value (Python's `f"{x:.8f}"`) is not
 * modelled: it is the parameter `fmt8`. What is proved is the structure
 * around it: brackets, separators, field count, order and sanitisation.
 */
module PgVector {
  import opened Wrappers
  import opened Text

  /** One numpy float32 element: a finite value, NaN, or an infinity. */
  datatype Float = Finite(value: real) | NaN | PosInf | NegInf

  predicate IsFinite(x: Float) {
    x.Finite?
  }

  /**
   * numpy's `nan_to_num(vec, nan=0.0, posinf=0.0, neginf=0.0)`: every entry of
   * the result is finite, finite entries are kept and the others become 0.0.
   */
  function NanToNum(vec: seq<Float>): (r: seq<Float>)
    ensures |r| == |vec|
    ensures forall i :: 0 <= i < |r| ==> IsFinite(r[i])
    ensures forall i :: 0 <= i < |r| ==> r[i] == (if IsFinite(vec[i]) then vec[i] else Finite(0.0))
  {
    seq(|vec|, i requires 0 <= i < |vec| => if IsFinite(vec[i]) then vec[i] else Finite(0.0))
  }

  /** Sanitising a vector that is already sanitised changes nothing. */
  lemma NanToNumIdempotent(vec: seq<Float>)
    ensures NanToNum(NanToNum(vec)) == NanToNum(vec)
  {
  }

  /** The text fields of the literal, one per element, in element order. */
  function Fields(vec: seq<Float>, fmt8: real -> string): (fields: seq<string>)
    ensures |fields| == |vec|
    ensures forall i :: 0 <= i < |vec| ==>
              fields[i] == fmt8(if IsFinite(vec[i]) then vec[i].value else 0.0)
  {
    var clean := NanToNum(vec);
    seq(|clean|, i requires 0 <= i < |clean| => fmt8(clean[i].value))
  }

  /** `pgvector_text(vec)`: the bracketed, comma-separated rendering of the sanitised vector. */
  function PgvectorText(vec: seq<Float>, fmt8: real -> string): (r: string)
    ensures |r| >= 2 && r[0] == '[' && r[|r| - 1] == ']'
    ensures vec == [] ==> r == "[]"
  {
    "[" + Join(",", Fields(vec, fmt8)) + "]"
  }

  /**
   * A numeral as `f"{x:.<d>f}"` writes a finite value: an optional minus
   * sign, at least one integer digit, a point and exactly `d` digits.
   */
  predicate IsFixedPoint(s: string, d: nat) {
    && |s| > d + 1
    && s[|s| - d - 1] == '.'
    && AllDigits(s[|s| - d..])
    && var whole := s[..|s| - d - 1];
       (whole != "" && AllDigits(whole)) || (|whole| >= 2 && whole[0] == '-' && AllDigits(whole[1..]))
  }

  /** A fixed-point numeral is never empty and never contains a comma. */
  lemma FixedPointHasNoComma(s: string, d: nat)
    requires IsFixedPoint(s, d)
    ensures s != "" && ',' !in s
  {
    var whole := s[..|s| - d - 1];
    forall k | 0 <= k < |s| ensures s[k] != ',' {
      if k >= |s| - d {
        assert s[k] == s[|s| - d..][k - (|s| - d)];
      } else if k < |s| - d - 1 {
        assert s[k] == whole[k];
        if k > 0 && whole[0] == '-' {
          assert whole[k] == whole[1..][k - 1];
        }
      }
    }
  }

  /**
   * Reads a literal back into its text fields: `None` unless it is bracketed,
   * no field for `[]`, otherwise the pieces between the commas.
   */
  function DecodeFields(s: string): Option<seq<string>> {
    if |s| >= 2 && s[0] == '[' && s[|s| - 1] == ']' then
      var inner := s[1..|s| - 1];
      if inner == "" then Some([]) else Some(SplitOn(',', inner))
    else None
  }

  /** Reads a literal back into numbers with `read` applied to every field. */
  function DecodeValues(s: string, read: string -> real): Option<seq<real>> {
    match DecodeFields(s)
    case None => None
    case Some(fs) => Some(seq(|fs|, i requires 0 <= i < |fs| => read(fs[i])))
  }

  /**
   * When every rendering is a fixed-point numeral, the literal splits back into
   * exactly one field per element, in element order, so the empty vector gives
   * no field and each field is the rendering of the sanitised element.
   */
  lemma {:induction false} DecodeRendering(vec: seq<Float>, fmt8: real -> string)
    requires forall x :: IsFixedPoint(fmt8(x), 8)
    ensures DecodeFields(PgvectorText(vec, fmt8)) == Some(Fields(vec, fmt8))
  {
    var fields := Fields(vec, fmt8);
    var s := PgvectorText(vec, fmt8);
    assert s[1..|s| - 1] == Join(",", fields);
    if |vec| > 0 {
      forall k | 0 <= k < |fields| ensures ',' !in fields[k] {
        FixedPointHasNoComma(fields[k], 8);
      }
      FixedPointHasNoComma(fields[0], 8);
      JoinPartAt(",", fields, 0);
      SplitJoin(',', fields);
    }
  }

  /** A NaN or infinite element is written exactly as a 0.0 element would be. */
  lemma NonFiniteRendersAsZero(vec: seq<Float>, fmt8: real -> string, i: nat)
    requires i < |vec| && !IsFinite(vec[i])
    ensures PgvectorText(vec, fmt8) == PgvectorText(vec[i := Finite(0.0)], fmt8)
  {
    assert Fields(vec, fmt8) == Fields(vec[i := Finite(0.0)], fmt8);
  }

  /** Sanitising before rendering changes nothing: rendering already sanitises. */
  lemma RenderingSanitised(vec: seq<Float>, fmt8: real -> string)
    ensures PgvectorText(NanToNum(vec), fmt8) == PgvectorText(vec, fmt8)
  {
    NanToNumIdempotent(vec);
    assert Fields(NanToNum(vec), fmt8) == Fields(vec, fmt8);
  }

  /**
   * Round trip to the declared precision: when `read` recovers from a rendering
   * the value rounded to 8 decimals (`round8`), decoding the literal gives the
   * rounded sanitised elements, one per element, in order, with NaN and the
   * infinities read back as the rounding of 0.0.
   */
  lemma ValuesRoundTrip(vec: seq<Float>, fmt8: real -> string, read: string -> real, round8: real -> real)
    requires forall x :: IsFixedPoint(fmt8(x), 8)
    requires forall x :: read(fmt8(x)) == round8(x)
    ensures DecodeValues(PgvectorText(vec, fmt8), read).Some?
    ensures |DecodeValues(PgvectorText(vec, fmt8), read).value| == |vec|
    ensures forall i :: 0 <= i < |vec| ==>
              DecodeValues(PgvectorText(vec, fmt8), read).value[i] ==
              round8(if IsFinite(vec[i]) then vec[i].value else 0.0)
  {
    DecodeRendering(vec, fmt8);
  }
}
